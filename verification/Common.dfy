/** Small types that several parts of the model share. */
module Common {
  datatype Option<T> = None | Some(value: T)

  /** What identifies an item of a hive: a key by its path, a value by its key's path and its own name. */
  datatype ItemKey = ItemKey(path: string, name: Option<string>)

  function Min(a: nat, b: nat): nat {
    if a < b then a else b
  }
}
