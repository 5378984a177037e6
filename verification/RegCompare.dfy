/** Comparing two hives: which keys and values were deleted, added and modified. */
module RegCompare {
  import opened Common
  import opened Paths
  import F = Filtering
  import I = Iteration
  import L = Lookup

  datatype Value = Value(name: string, hash: int)

  datatype Key = Key(path: string, hash: int, values: seq<Value>)

  datatype Item = Item(key: ItemKey, hash: int)

  datatype Change = Change(original: Item, current: Item)

  datatype Lists = Lists(
    keysDeleted: seq<Item>, keysAdded: seq<Item>, keysModified: seq<Change>,
    valuesDeleted: seq<Item>, valuesAdded: seq<Item>, valuesModified: seq<Change>)

  type HashMap = map<ItemKey, int>

  /** What a key cell holds besides its name and sub keys. */
  datatype Content = Content(hash: int, values: seq<Value>)

  datatype BaseData = BaseData(hive: F.Hive, root: nat, content: nat -> Content)

  /** The base hive, whose root is readable. */
  type Base = b: BaseData | b.root in b.hive
    witness BaseData(map[0 := F.Key("", true, [])], 0, (_: nat) => Content(0, []))

  const NO_LISTS := Lists([], [], [], [], [], [])

  // ----- The items of a hive -----

  function ValueItem(path: string, v: Value): Item {
    Item(ItemKey(path, Some(v.name)), v.hash)
  }

  function KeyItem(k: Key): Item {
    Item(ItemKey(k.path, None), k.hash)
  }

  function ValueItems(path: string, values: seq<Value>): (r: seq<Item>)
    ensures |r| == |values| && forall i :: 0 <= i < |r| ==> r[i] == ValueItem(path, values[i])
  {
    if values == [] then []
    else ValueItems(path, values[..|values| - 1]) + [ValueItem(path, values[|values| - 1])]
  }

  /** Keys in iteration order, each followed by its values. */
  function Items(keys: seq<Key>): seq<Item> {
    if keys == [] then []
    else
      var k := keys[|keys| - 1];
      Items(keys[..|keys| - 1]) + [KeyItem(k)] + ValueItems(k.path, k.values)
  }

  function Insert(m: HashMap, s: seq<Item>): HashMap {
    if s == [] then m else Insert(m, s[..|s| - 1])[s[|s| - 1].key := s[|s| - 1].hash]
  }

  /** The hive as a map from item keys to hashes. */
  function MapOf(s: seq<Item>): HashMap {
    Insert(map[], s)
  }

  function Root(b: Base): F.Node {
    F.Node(b.root, [SLASH] + b.hive[b.root].name, None)
  }

  /** The keys that iterating over the base hive returns. */
  function Listed(b: Base): seq<F.Node> {
    I.FilteredPreorder(b.hive, None, false, [Root(b)], {b.root}, 0)
  }

  function KeyAt(b: Base, n: F.Node): Key {
    Key(n.path, b.content(n.offset).hash, b.content(n.offset).values)
  }

  function KeysIn(b: Base): (r: seq<Key>)
    ensures |r| == |Listed(b)| && forall i :: 0 <= i < |r| ==> r[i] == KeyAt(b, Listed(b)[i])
  {
    var nodes := Listed(b);
    seq(|nodes|, i requires 0 <= i < |nodes| => KeyAt(b, nodes[i]))
  }

  /** `get_key` with the whole path. Of a key that is neither the root nor an exact match the values are not read. */
  function FindKey(b: Base, path: string): Option<Key> {
    match L.GetKey(b.hive, Root(b), path, true)
    case None => None
    case Some(n) => Some(if n.state == None || n.state == Some(F.Exact) then KeyAt(b, n) else KeyAt(b, n).(values := []))
  }

  /** `get_value`: the first match, ignoring ASCII case. */
  function FindValue(values: seq<Value>, name: string): (r: Option<Value>)
    ensures r.Some? ==> r.value in values && Lower(r.value.name) == Lower(name)
    ensures r.None? ==> forall v :: v in values ==> Lower(v.name) != Lower(name)
  {
    if values == [] then None
    else if Lower(values[0].name) == Lower(name) then Some(values[0])
    else FindValue(values[1..], name)
  }

  /** The item of the base hive that a key of the map names; None where a lookup comes back empty-handed. */
  function FindItem(b: Base, key: ItemKey): Option<Item> {
    match FindKey(b, key.path)
    case None => None
    case Some(k) =>
      if key.name.None? then Some(KeyItem(k))
      else
        match FindValue(k.values, key.name.value)
        case None => None
        case Some(v) => Some(ValueItem(k.path, v))
  }

  // ----- Classification -----

  datatype State = State(original: HashMap, lists: Lists)

  function Add(l: Lists, item: Item): Lists {
    if item.key.name.None? then l.(keysAdded := l.keysAdded + [item])
    else l.(valuesAdded := l.valuesAdded + [item])
  }

  /** A modified value is filed under the path of the comparison's key. */
  function Modify(l: Lists, original: Item, item: Item): Lists {
    if item.key.name.None? then l.(keysModified := l.keysModified + [Change(original, item)])
    else
      var o := original.(key := original.key.(path := item.key.path));
      l.(valuesModified := l.valuesModified + [Change(o, item)])
  }

  function Delete(l: Lists, original: Item): Lists {
    if original.key.name.None? then l.(keysDeleted := l.keysDeleted + [original])
    else l.(valuesDeleted := l.valuesDeleted + [original])
  }

  /** One item of the comparison hive. None is the panic when the base hive does not give its item back. */
  function Classify(hive: Base, st: State, item: Item): Option<State> {
    if item.key !in st.original then Some(st.(lists := Add(st.lists, item)))
    else
      var rest := st.original - {item.key};
      if st.original[item.key] == item.hash then Some(State(rest, st.lists))
      else
        match FindItem(hive, item.key)
        case None => None
        case Some(o) => Some(State(rest, Modify(st.lists, o, item)))
  }

  function ClassifyAll(hive: Base, st: State, s: seq<Item>): Option<State> {
    if s == [] then Some(st)
    else
      match ClassifyAll(hive, st, s[..|s| - 1])
      case None => None
      case Some(before) => Classify(hive, before, s[|s| - 1])
  }

  function DeleteAll(hive: Base, l: Lists, remaining: seq<ItemKey>): Option<Lists> {
    if remaining == [] then Some(l)
    else
      match DeleteAll(hive, l, remaining[..|remaining| - 1])
      case None => None
      case Some(before) =>
        match FindItem(hive, remaining[|remaining| - 1])
        case None => None
        case Some(o) => Some(Delete(before, o))
  }

  /** The order lists every remaining key once: the order in which a hash map yields its entries is not fixed. */
  ghost predicate IsOrderOf(order: seq<ItemKey>, keys: set<ItemKey>) {
    && (forall k :: k in order <==> k in keys)
    && forall i, j :: 0 <= i < j < |order| ==> order[i] != order[j]
  }

  /** The result of the whole comparison, for some order of the remaining entries. */
  ghost predicate IsComparison(hive: Base, comparison: seq<Key>, r: Option<Lists>) {
    var st := ClassifyAll(hive, State(MapOf(Items(KeysIn(hive))), NO_LISTS), Items(comparison));
    if st.None? then r.None?
    else exists order :: IsOrderOf(order, st.value.original.Keys) && r == DeleteAll(hive, st.value.lists, order)
  }

  // ----- The method -----

  lemma ClassifyConcat(hive: Base, st: State, a: seq<Item>, b: seq<Item>)
    ensures ClassifyAll(hive, st, a + b)
            == match ClassifyAll(hive, st, a) case None => None case Some(mid) => ClassifyAll(hive, mid, b)
  {
    if b == [] {
      assert a + b == a;
    } else {
      assert (a + b)[..|a + b| - 1] == a + b[..|b| - 1];
      ClassifyConcat(hive, st, a, b[..|b| - 1]);
    }
  }

  lemma ItemsStep(keys: seq<Key>, i: nat)
    requires i < |keys|
    ensures Items(keys[..i + 1]) == Items(keys[..i]) + [KeyItem(keys[i])] + ValueItems(keys[i].path, keys[i].values)
  {
    assert keys[..i + 1][..i] == keys[..i];
  }

  /** Fills the map with the items of the base hive. */
  method LoadBase(hive: seq<Key>) returns (original: HashMap)
    ensures original == MapOf(Items(hive))
  {
    hide Items, ValueItems, Insert;
    original := map[];
    InsertNothing(map[]);
    for i := 0 to |hive|
      invariant original == MapOf(Items(hive[..i]))
    {
      var key := hive[i];
      ghost var before := Items(hive[..i]) + [KeyItem(key)];
      InsertLast(map[], Items(hive[..i]), KeyItem(key));
      original := original[KeyItem(key).key := key.hash];
      ghost var values := ValueItems(key.path, key.values);
      assert before + values[..0] == before;
      for j := 0 to |key.values|
        invariant original == MapOf(before + values[..j])
      {
        var item := ValueItem(key.path, key.values[j]);
        assert before + values[..j + 1] == before + values[..j] + [item];
        InsertLast(map[], before + values[..j], item);
        original := original[item.key := item.hash];
      }
      assert values[..|values|] == values;
      ItemsStep(hive, i);
    }
    assert hive[..|hive|] == hive;
  }

  lemma InsertNothing(m: HashMap)
    ensures Insert(m, []) == m && Items([]) == []
  {
  }

  lemma InsertLast(m: HashMap, s: seq<Item>, item: Item)
    ensures Insert(m, s + [item]) == Insert(m, s)[item.key := item.hash]
  {
  }

  lemma ClassifyLast(hive: Base, st: State, s: seq<Item>, item: Item)
    ensures ClassifyAll(hive, st, s + [item])
            == match ClassifyAll(hive, st, s) case None => None case Some(before) => Classify(hive, before, item)
  {
    hide Classify;
  }

  /** Removes one item of the comparison from the map and files it if it is new or differs. */
  method CompareItem(hive: Base, original: HashMap, lists: Lists, item: Item) returns (r: Option<State>)
    ensures r == Classify(hive, State(original, lists), item)
  {
    hide FindItem;
    var original', lists' := original, lists;
    if item.key in original {
      var hash := original[item.key];
      original' := original - {item.key};
      if hash != item.hash {
        var o := FindItem(hive, item.key);
        if o.None? {
          return None;
        }
        lists' := Modify(lists, o.value, item);
      }
    } else {
      lists' := Add(lists, item);
    }
    r := Some(State(original', lists'));
  }

  /** Compares one key of the comparison hive and its values. */
  method CompareKey(hive: Base, st: State, key: Key) returns (r: Option<State>)
    ensures r == ClassifyAll(hive, st, [KeyItem(key)] + ValueItems(key.path, key.values))
  {
    hide Classify, ClassifyAll, ValueItems;
    ghost var items := [KeyItem(key)] + ValueItems(key.path, key.values);
    assert items[..1] == [] + [KeyItem(key)];
    ClassifyNothing(hive, st);
    ClassifyLast(hive, st, [], KeyItem(key));
    r := CompareItem(hive, st.original, st.lists, KeyItem(key));
    for j := 0 to |key.values|
      invariant r == ClassifyAll(hive, st, items[..j + 1])
    {
      var item := ValueItem(key.path, key.values[j]);
      assert items[..j + 2] == items[..j + 1] + [item];
      ClassifyLast(hive, st, items[..j + 1], item);
      if r.Some? {
        r := CompareItem(hive, r.value.original, r.value.lists, item);
      }
    }
    assert items[..|items|] == items;
  }

  lemma ClassifyNothing(hive: Base, st: State)
    ensures ClassifyAll(hive, st, []) == Some(st)
  {
  }

  /** `reg_compare`: the six lists, or None where it panics. */
  method CompareHives(hive: Base, comparison: seq<Key>) returns (r: Option<Lists>)
    ensures IsComparison(hive, comparison, r)
  {
    hide Classify, ClassifyAll, Items, ValueItems, MapOf, FindItem, KeysIn;
    var original := LoadBase(KeysIn(hive));
    var start := State(original, NO_LISTS);
    var st := Some(start);
    InsertNothing(map[]);
    ClassifyNothing(hive, start);
    for i := 0 to |comparison|
      invariant st == ClassifyAll(hive, start, Items(comparison[..i]))
    {
      var key := comparison[i];
      ItemsStep(comparison, i);
      ghost var more := [KeyItem(key)] + ValueItems(key.path, key.values);
      assert Items(comparison[..i + 1]) == Items(comparison[..i]) + more;
      ClassifyConcat(hive, start, Items(comparison[..i]), more);
      if st.Some? {
        st := CompareKey(hive, st.value, key);
      }
    }
    assert comparison[..|comparison|] == comparison;
    if st.None? {
      return None;
    }
    r := CollectRemaining(hive, st.value.original, st.value.lists);
  }

  /** What is left in the map was deleted. */
  method CollectRemaining(hive: Base, original: HashMap, lists: Lists) returns (r: Option<Lists>)
    ensures exists order :: IsOrderOf(order, original.Keys) && r == DeleteAll(hive, lists, order)
  {
    hide FindItem;
    var left := original.Keys;
    ghost var order: seq<ItemKey> := [];
    r := Some(lists);
    while left != {}
      invariant left <= original.Keys && IsOrderOf(order, original.Keys - left)
      invariant r == DeleteAll(hive, lists, order)
      decreases |left|
    {
      var key :| key in left;
      left := left - {key};
      assert (order + [key])[..|order|] == order;
      order := order + [key];
      if r.Some? {
        var o := FindItem(hive, key);
        r := if o.None? then None else Some(Delete(r.value, o.value));
      }
    }
    assert IsOrderOf(order, original.Keys);
  }

  // ----- What the lists are -----

  ghost function KeysOf(s: seq<Item>): set<ItemKey> {
    set item | item in s :: item.key
  }

  /** No two items have the same key. */
  ghost predicate Distinct(s: seq<Item>) {
    forall i, j :: 0 <= i < j < |s| ==> s[i].key != s[j].key
  }

  /** Items with the same key are the same item. */
  ghost predicate Functional(s: seq<Item>) {
    forall a, b :: a in s && b in s && a.key == b.key ==> a == b
  }

  /** No two keys, and no two values of a key, have the same name when case is ignored. */
  ghost predicate CaseDistinct(hive: seq<Key>) {
    && (forall i, j :: 0 <= i < j < |hive| ==> Lower(hive[i].path) != Lower(hive[j].path))
    && forall k :: k in hive ==>
         forall i, j :: 0 <= i < j < |k.values| ==> Lower(k.values[i].name) != Lower(k.values[j].name)
  }

  lemma {:induction false} ItemsMembers(keys: seq<Key>, item: Item)
    ensures item in Items(keys) <==>
            exists k :: k in keys && (item == KeyItem(k) || item in ValueItems(k.path, k.values))
  {
    hide ValueItems;
    if keys != [] {
      var last := keys[|keys| - 1];
      ItemsMembers(keys[..|keys| - 1], item);
      assert keys == keys[..|keys| - 1] + [last];
    }
  }

  /** Looking an item up by its key gives that item, for every item of the hive. */
  ghost predicate FindsItems(b: Base) {
    forall item :: item in Items(KeysIn(b)) ==> FindItem(b, item.key) == Some(item)
  }

  lemma {:induction false} InsertGet(m: HashMap, s: seq<Item>)
    requires Functional(s)
    ensures Insert(m, s).Keys == m.Keys + KeysOf(s)
    ensures forall item :: item in s ==> Insert(m, s)[item.key] == item.hash
    ensures forall k :: k in m && k !in KeysOf(s) ==> Insert(m, s)[k] == m[k]
  {
    if s != [] {
      var front, last := s[..|s| - 1], s[|s| - 1];
      assert s == front + [last];
      InsertGet(m, front);
      assert KeysOf(s) == KeysOf(front) + {last.key};
    }
  }

  /** The map of a hive whose items are found holds exactly its items. */
  lemma HiveMap(hive: Base)
    requires FindsItems(hive)
    ensures var s := Items(KeysIn(hive));
            var m := MapOf(s);
            && m.Keys == KeysOf(s)
            && forall k :: k in m ==> Item(k, m[k]) in s && FindItem(hive, k) == Some(Item(k, m[k]))
  {
    hide Items, FindItem, Insert, KeysIn;
    var s := Items(KeysIn(hive));
    InsertGet(map[], s);
    var m := MapOf(s);
    forall k | k in m
      ensures Item(k, m[k]) in s
    {
      var a :| a in s && a.key == k;
      assert Item(k, m[k]) == a;
    }
  }

  function Currents(c: seq<Change>): (r: seq<Item>)
    ensures |r| == |c| && forall i :: 0 <= i < |r| ==> r[i] == c[i].current
  {
    seq(|c|, i requires 0 <= i < |c| => c[i].current)
  }

  ghost predicate IsAdded(m: HashMap, s: seq<Item>, item: Item) {
    item in s && item.key !in m
  }

  ghost predicate IsModified(m: HashMap, s: seq<Item>, c: Change) {
    && c.current in s && c.current.key in m
    && c.original == Item(c.current.key, m[c.current.key]) && c.original != c.current
  }

  ghost predicate IsDeleted(m: HashMap, s: seq<Item>, item: Item) {
    item.key in m && item.hash == m[item.key] && item.key !in KeysOf(s)
  }

  /** Added and modified items of `s` against the map `m`, each once, keys and values apart. */
  ghost predicate ListsChanges(m: HashMap, s: seq<Item>, d: Lists) {
    && (forall item :: item in d.keysAdded <==> IsAdded(m, s, item) && item.key.name.None?)
    && (forall item :: item in d.valuesAdded <==> IsAdded(m, s, item) && item.key.name.Some?)
    && (forall c :: c in d.keysModified <==> IsModified(m, s, c) && c.current.key.name.None?)
    && (forall c :: c in d.valuesModified <==> IsModified(m, s, c) && c.current.key.name.Some?)
    && Distinct(d.keysAdded) && Distinct(d.valuesAdded)
    && Distinct(Currents(d.keysModified)) && Distinct(Currents(d.valuesModified))
  }

  ghost predicate ListsDeletions(m: HashMap, s: seq<Item>, d: Lists) {
    && (forall item :: item in d.keysDeleted <==> IsDeleted(m, s, item) && item.key.name.None?)
    && (forall item :: item in d.valuesDeleted <==> IsDeleted(m, s, item) && item.key.name.Some?)
    && Distinct(d.keysDeleted) && Distinct(d.valuesDeleted)
  }

  lemma NewKey(s: seq<Item>, item: Item)
    requires Distinct(s + [item])
    ensures item.key !in KeysOf(s) && Distinct(s)
    ensures KeysOf(s + [item]) == KeysOf(s) + {item.key}
  {
    var t := s + [item];
    assert forall i :: 0 <= i < |s| ==> t[i] == s[i] && t[i].key != t[|s|].key;
  }

  lemma AddStep(m: HashMap, s: seq<Item>, d: Lists, item: Item)
    requires ListsChanges(m, s, d) && Distinct(s + [item]) && item.key !in m
    ensures ListsChanges(m, s + [item], Add(d, item))
  {
    NewKey(s, item);
  }

  lemma ModifyStep(m: HashMap, s: seq<Item>, d: Lists, item: Item)
    requires ListsChanges(m, s, d) && Distinct(s + [item]) && item.key in m && m[item.key] != item.hash
    ensures ListsChanges(m, s + [item], Modify(d, Item(item.key, m[item.key]), item))
  {
    NewKey(s, item);
  }

  lemma SameStep(m: HashMap, s: seq<Item>, d: Lists, item: Item)
    requires ListsChanges(m, s, d) && item.key in m && m[item.key] == item.hash
    ensures ListsChanges(m, s + [item], d)
  {
  }

  /** After any part of the comparison hive the lists hold exactly the changes so far, and the map the rest. */
  lemma {:induction false} ClassifiedExactly(hive: Base, s: seq<Item>)
    requires FindsItems(hive) && Distinct(s)
    ensures var m := MapOf(Items(KeysIn(hive)));
            var r := ClassifyAll(hive, State(m, NO_LISTS), s);
            && r.Some? && r.value.original == m - KeysOf(s) && ListsChanges(m, s, r.value.lists)
            && r.value.lists.keysDeleted == [] && r.value.lists.valuesDeleted == []
  {
    hide FindItem, FindsItems, MapOf, ListsChanges, Items, KeysIn, Classify, ClassifyAll;
    var m := MapOf(Items(KeysIn(hive)));
    HiveMap(hive);
    if s == [] {
      NoChanges(m);
      ClassifyNothing(hive, State(m, NO_LISTS));
    } else {
      var front, last := s[..|s| - 1], s[|s| - 1];
      assert s == front + [last];
      ClassifiedExactly(hive, front) by { NewKey(front, last); }
      ClassifyLast(hive, State(m, NO_LISTS), front, last);
      ClassifyStep(hive, m, front, ClassifyAll(hive, State(m, NO_LISTS), front).value, last);
    }
  }

  lemma ClassifyStep(hive: Base, m: HashMap, front: seq<Item>, before: State, last: Item)
    requires before.original == m - KeysOf(front) && ListsChanges(m, front, before.lists)
    requires before.lists.keysDeleted == [] && before.lists.valuesDeleted == [] && Distinct(front + [last])
    requires last.key in m ==> FindItem(hive, last.key) == Some(Item(last.key, m[last.key]))
    ensures var r, s := Classify(hive, before, last), front + [last];
            && r.Some? && r.value.original == m - KeysOf(s) && ListsChanges(m, s, r.value.lists)
            && r.value.lists.keysDeleted == [] && r.value.lists.valuesDeleted == []
  {
    hide FindItem, ListsChanges;
    NewKey(front, last);
    if last.key !in m {
      AddStep(m, front, before.lists, last);
    } else if m[last.key] != last.hash {
      ModifyStep(m, front, before.lists, last);
    } else {
      SameStep(m, front, before.lists, last);
    }
  }

  lemma NoChanges(m: HashMap)
    ensures ListsChanges(m, [], NO_LISTS)
  {
  }

  /** The remaining entries, in whatever order, become the deletions; the other lists stay. */
  lemma {:induction false} DeletedExactly(hive: Base, m: HashMap, l: Lists, order: seq<ItemKey>)
    requires forall k :: k in order ==> k in m && FindItem(hive, k) == Some(Item(k, m[k]))
    requires forall i, j :: 0 <= i < j < |order| ==> order[i] != order[j]
    requires l.keysDeleted == [] && l.valuesDeleted == []
    ensures DeleteAll(hive, l, order).Some?
    ensures var d := DeleteAll(hive, l, order).value;
            && d == l.(keysDeleted := d.keysDeleted, valuesDeleted := d.valuesDeleted)
            && (forall item :: item in d.keysDeleted <==>
                  item.key in order && item.hash == m[item.key] && item.key.name.None?)
            && (forall item :: item in d.valuesDeleted <==>
                  item.key in order && item.hash == m[item.key] && item.key.name.Some?)
            && Distinct(d.keysDeleted) && Distinct(d.valuesDeleted)
  {
    hide FindItem;
    if order != [] {
      var front, last := order[..|order| - 1], order[|order| - 1];
      assert order == front + [last];
      assert last !in front;
      DeletedExactly(hive, m, l, front);
    }
  }

  /** The six lists are exactly the differences of the two maps, and there is no panic. */
  ghost predicate IsExact(hive: Base, comparison: seq<Key>, r: Option<Lists>) {
    var m, s := MapOf(Items(KeysIn(hive))), Items(comparison);
    r.Some? && ListsChanges(m, s, r.value) && ListsDeletions(m, s, r.value)
  }

  /** If every item of the base hive is found, every comparison is exact. */
  lemma FindingIsEnough(hive: Base, comparison: seq<Key>, r: Option<Lists>)
    requires IsComparison(hive, comparison, r)
    requires FindsItems(hive) && Distinct(Items(comparison))
    ensures IsExact(hive, comparison, r)
  {
    hide Items, MapOf, ClassifyAll, FindsItems, FindItem, DeleteAll, KeysIn;
    var m, s := MapOf(Items(KeysIn(hive))), Items(comparison);
    HiveMap(hive);
    ClassifiedExactly(hive, s);
    var st := ClassifyAll(hive, State(m, NO_LISTS), s).value;
    var order :| IsOrderOf(order, st.original.Keys) && r == DeleteAll(hive, st.lists, order);
    DeletedExactly(hive, m, st.lists, order);
    LaterLists(m, s, st.lists, r.value);
  }

  lemma LaterLists(m: HashMap, s: seq<Item>, l: Lists, d: Lists)
    requires ListsChanges(m, s, l) && d == l.(keysDeleted := d.keysDeleted, valuesDeleted := d.valuesDeleted)
    ensures ListsChanges(m, s, d)
  {
  }

  // ----- The diff is a patch -----

  /** Deletes, then adds and replaces. */
  function Patch(m: HashMap, d: Lists): HashMap {
    var deleted := set item | item in d.keysDeleted + d.valuesDeleted :: item.key;
    Insert(m - deleted, d.keysAdded + d.valuesAdded + Currents(d.keysModified) + Currents(d.valuesModified))
  }

  lemma DistinctIsFunctional(s: seq<Item>)
    requires Distinct(s)
    ensures Functional(s)
  {
    forall a, b | a in s && b in s && a.key == b.key
      ensures a == b
    {
      var i, j :| 0 <= i < |s| && 0 <= j < |s| && s[i] == a && s[j] == b;
    }
  }

  ghost predicate Written(m: HashMap, s: seq<Item>, item: Item) {
    item in s && !(item.key in m && m[item.key] == item.hash)
  }

  lemma WhatIsWritten(m: HashMap, s: seq<Item>, d: Lists)
    requires ListsChanges(m, s, d)
    ensures forall item :: item in d.keysAdded + d.valuesAdded + Currents(d.keysModified) + Currents(d.valuesModified)
                           <==> Written(m, s, item)
  {
    forall item
      ensures item in Currents(d.keysModified) + Currents(d.valuesModified) <==> Written(m, s, item) && item.key in m
    {
      if Written(m, s, item) && item.key in m {
        var c := Change(Item(item.key, m[item.key]), item);
        assert IsModified(m, s, c);
        if c in d.keysModified {
          var i :| 0 <= i < |d.keysModified| && d.keysModified[i] == c;
          assert Currents(d.keysModified)[i] == item;
        } else {
          var i :| 0 <= i < |d.valuesModified| && d.valuesModified[i] == c;
          assert Currents(d.valuesModified)[i] == item;
        }
      }
    }
  }

  /** Applying the six lists to the base map gives the comparison map. */
  lemma PatchGivesComparison(m: HashMap, s: seq<Item>, d: Lists)
    requires Distinct(s) && ListsChanges(m, s, d) && ListsDeletions(m, s, d)
    ensures Patch(m, d) == MapOf(s)
  {
    hide ListsChanges, Insert;
    var writes := d.keysAdded + d.valuesAdded + Currents(d.keysModified) + Currents(d.valuesModified);
    var deleted := set item | item in d.keysDeleted + d.valuesDeleted :: item.key;
    assert forall item :: item in writes <==> Written(m, s, item) by { WhatIsWritten(m, s, d); }
    assert deleted == m.Keys - KeysOf(s) by { WhatIsDeleted(m, s, d); }
    DistinctIsFunctional(s);
    assert Functional(writes);
    assert m - deleted == map k | k in m && k in KeysOf(s) :: m[k];
    PatchedMap(m, s, m - deleted, writes);
  }

  /** Writing what differs over the base entries that are still there. */
  lemma PatchedMap(m: HashMap, s: seq<Item>, kept: HashMap, writes: seq<Item>)
    requires Functional(s) && Functional(writes) && kept == map k | k in m && k in KeysOf(s) :: m[k]
    requires forall item :: item in writes <==> Written(m, s, item)
    ensures Insert(kept, writes) == MapOf(s)
  {
    hide Insert;
    InsertGet(kept, writes);
    InsertGet(map[], s);
    var p, q := Insert(kept, writes), MapOf(s);
    forall k
      ensures k in p <==> k in q
      ensures k in q ==> p[k] == q[k]
    {
      if k in q {
        var item :| item in s && item.key == k;
        assert item in writes || (k in kept && kept[k] == item.hash);
      }
    }
  }

  lemma WhatIsDeleted(m: HashMap, s: seq<Item>, d: Lists)
    requires ListsDeletions(m, s, d)
    ensures (set item | item in d.keysDeleted + d.valuesDeleted :: item.key) == m.Keys - KeysOf(s)
  {
    forall k | k in m && k !in KeysOf(s)
      ensures exists item :: item in d.keysDeleted + d.valuesDeleted && item.key == k
    {
      var item := Item(k, m[k]);
      assert IsDeleted(m, s, item);
    }
  }

  /** No key or value is in two lists. */
  lemma ListsAreDisjoint(m: HashMap, s: seq<Item>, d: Lists)
    requires ListsChanges(m, s, d) && ListsDeletions(m, s, d)
    ensures KeysOf(d.keysDeleted) !! KeysOf(d.keysAdded) !! KeysOf(Currents(d.keysModified))
            !! KeysOf(d.valuesDeleted) !! KeysOf(d.valuesAdded) !! KeysOf(Currents(d.valuesModified))
  {
  }

  /** All lists are empty exactly when the two hives have the same items with the same hashes. */
  lemma EmptyWhenEqual(m: HashMap, s: seq<Item>, d: Lists)
    requires Distinct(s) && ListsChanges(m, s, d) && ListsDeletions(m, s, d)
    ensures d == NO_LISTS <==> m == MapOf(s)
  {
    hide Insert;
    DistinctIsFunctional(s);
    InsertGet(map[], s);
    if d == NO_LISTS {
      PatchGivesComparison(m, s, d);
      assert m - {} == m;
      assert Patch(m, d) == m by { NothingWritten(m); }
    }
    if m == MapOf(s) {
      SameItemsListNothing(m, s, d);
    }
  }

  lemma SameItemsListNothing(m: HashMap, s: seq<Item>, d: Lists)
    requires ListsChanges(m, s, d) && ListsDeletions(m, s, d)
    requires m.Keys == KeysOf(s) && forall item :: item in s ==> m[item.key] == item.hash
    ensures d == NO_LISTS
  {
    NoMembers(d.keysDeleted);
    NoMembers(d.valuesDeleted);
    NoMembers(d.keysAdded);
    NoMembers(d.valuesAdded);
    NoMembers(d.keysModified);
    NoMembers(d.valuesModified);
  }

  lemma NoMembers<T>(s: seq<T>)
    ensures s == [] || s[0] in s
  {
  }

  lemma NothingWritten(m: HashMap)
    ensures Patch(m, NO_LISTS) == m
  {
    assert m - {} == m;
  }

  // ----- Finding every item is necessary -----

  /** No two keys, and no two values of a key, have exactly the same name. */
  ghost predicate NamesDistinct(keys: seq<Key>) {
    && (forall i, j :: 0 <= i < j < |keys| ==> keys[i].path != keys[j].path)
    && forall k :: k in keys ==> forall i, j :: 0 <= i < j < |k.values| ==> k.values[i].name != k.values[j].name
  }

  lemma ItemsAreFunctional(keys: seq<Key>)
    requires NamesDistinct(keys)
    ensures Functional(Items(keys))
  {
    hide Items, ValueItems;
    forall a, b | a in Items(keys) && b in Items(keys) && a.key == b.key
      ensures a == b
    {
      ItemsMembers(keys, a);
      ItemsMembers(keys, b);
      var k :| k in keys && (a == KeyItem(k) || a in ValueItems(k.path, k.values));
      var l :| l in keys && (b == KeyItem(l) || b in ValueItems(l.path, l.values));
      assert k == l;
    }
  }

  lemma InMap(keys: seq<Key>, item: Item)
    requires NamesDistinct(keys) && item in Items(keys)
    ensures item.key in MapOf(Items(keys)) && MapOf(Items(keys))[item.key] == item.hash
  {
    hide Items, Insert, NamesDistinct;
    ItemsAreFunctional(keys);
    InsertGet(map[], Items(keys));
  }

  lemma SomeOrder(keys: set<ItemKey>) returns (order: seq<ItemKey>)
    ensures IsOrderOf(order, keys)
  {
    if keys == {} {
      order := [];
    } else {
      var k :| k in keys;
      order := SomeOrder(keys - {k});
      order := order + [k];
    }
  }

  /** Whatever the other list, some comparison result exists. */
  lemma SomeComparison(hive: Base, comparison: seq<Key>) returns (r: Option<Lists>)
    ensures IsComparison(hive, comparison, r)
  {
    hide ClassifyAll, MapOf, Items, KeysIn, DeleteAll;
    var st := ClassifyAll(hive, State(MapOf(Items(KeysIn(hive))), NO_LISTS), Items(comparison));
    if st.None? {
      r := None;
    } else {
      var order := SomeOrder(st.value.original.Keys);
      r := DeleteAll(hive, st.value.lists, order);
    }
  }

  /** Deleting leaves the modified lists alone. */
  lemma {:induction false} DeletionsKeepChanges(hive: Base, l: Lists, order: seq<ItemKey>)
    requires DeleteAll(hive, l, order).Some?
    ensures var d := DeleteAll(hive, l, order).value;
            d.keysModified == l.keysModified && d.valuesModified == l.valuesModified
    decreases |order|
  {
    hide FindItem;
    if order != [] { DeletionsKeepChanges(hive, l, order[..|order| - 1]); }
  }

  /** A key that is not found as itself: with nothing but its hash changed, the modified list is wrong. */
  lemma MissedKey(hive: Base, item: Item) returns (comparison: seq<Key>, r: Option<Lists>)
    requires NamesDistinct(KeysIn(hive)) && item in Items(KeysIn(hive))
    requires item.key.name.None? && FindItem(hive, item.key) != Some(item)
    ensures Distinct(Items(comparison)) && IsComparison(hive, comparison, r) && !IsExact(hive, comparison, r)
  {
    hide Items, FindItem, KeysIn, Insert, NamesDistinct;
    var m, current := MapOf(Items(KeysIn(hive))), item.(hash := item.hash + 1);
    InMap(KeysIn(hive), item);
    comparison := [Key(item.key.path, current.hash, [])];
    OneKey(item.key.path, current.hash);
    assert Items(comparison) == [current];
    r := SomeComparison(hive, comparison);
    assert IsModified(m, [current], Change(item, current));
    if r.Some? {
      ClassifyOne(hive, State(m, NO_LISTS), current);
      var st := ClassifyAll(hive, State(m, NO_LISTS), [current]);
      var order :| IsOrderOf(order, st.value.original.Keys) && r == DeleteAll(hive, st.value.lists, order);
      DeletionsKeepChanges(hive, st.value.lists, order);
      assert r.value.keysModified == [Change(FindItem(hive, item.key).value, current)];
      assert Change(item, current) !in r.value.keysModified;
    }
  }

  lemma OneKey(path: string, hash: int)
    ensures Items([Key(path, hash, [])]) == [Item(ItemKey(path, None), hash)]
  {
    var keys := [Key(path, hash, [])];
    assert keys[..0] == [];
  }

  lemma ClassifyOne(hive: Base, st: State, item: Item)
    ensures ClassifyAll(hive, st, [item]) == Classify(hive, st, item)
  {
    hide Classify;
    ClassifyNothing(hive, st);
    ClassifyLast(hive, st, [], item);
    assert [] + [item] == [item];
  }

  /** A value that is not found as itself, though its key is. */
  lemma MissedValue(hive: Base, key: Item, item: Item) returns (comparison: seq<Key>, r: Option<Lists>)
    requires NamesDistinct(KeysIn(hive)) && item in Items(KeysIn(hive)) && key in Items(KeysIn(hive))
    requires item.key.name.Some? && key.key == ItemKey(item.key.path, None)
    requires FindItem(hive, key.key) == Some(key) && FindItem(hive, item.key) != Some(item)
    ensures Distinct(Items(comparison)) && IsComparison(hive, comparison, r) && !IsExact(hive, comparison, r)
  {
    hide Items, FindItem, KeysIn, Insert, MapOf, NamesDistinct, ClassifyAll, DeleteAll, ListsChanges, ListsDeletions, IsOrderOf;
    var m, current := MapOf(Items(KeysIn(hive))), item.(hash := item.hash + 1);
    FoundPath(hive, key, item.key);
    InMap(KeysIn(hive), key);
    InMap(KeysIn(hive), item);
    comparison := [Key(item.key.path, key.hash, [Value(item.key.name.value, current.hash)])];
    OneValue(item.key.path, key.hash, Value(item.key.name.value, current.hash));
    assert Items(comparison) == [key, current];
    r := SomeComparison(hive, comparison);
    if r.Some? {
      ClassifyTwo(hive, m, key, current);
      var st := ClassifyAll(hive, State(m, NO_LISTS), [key, current]);
      var order :| IsOrderOf(order, st.value.original.Keys) && r == DeleteAll(hive, st.value.lists, order);
      DeletionsKeepChanges(hive, st.value.lists, order);
      ChangeIsMissing(m, [key, current], r.value, Change(item, current));
    }
  }

  /** An unchanged key and a changed value of it. */
  lemma ClassifyTwo(hive: Base, m: HashMap, key: Item, current: Item)
    requires key.key in m && m[key.key] == key.hash && current.key in m && m[current.key] != current.hash
    requires key.key != current.key && current.key.name.Some?
    requires FindItem(hive, current.key).Some? ==> FindItem(hive, current.key).value.key.path == current.key.path
    ensures var st, o := ClassifyAll(hive, State(m, NO_LISTS), [key, current]), FindItem(hive, current.key);
            if o.None? then st.None?
            else st.Some? && st.value.lists == NO_LISTS.(valuesModified := [Change(o.value, current)])
  {
    hide FindItem, ClassifyAll;
    var start := State(m, NO_LISTS);
    ClassifyOne(hive, start, key);
    ClassifyLast(hive, start, [key], current);
    assert [key] + [current] == [key, current];
  }

  lemma ChangeIsMissing(m: HashMap, s: seq<Item>, d: Lists, c: Change)
    requires IsModified(m, s, c) && (if c.current.key.name.None? then c !in d.keysModified else c !in d.valuesModified)
    ensures !ListsChanges(m, s, d)
  {
  }

  lemma FoundPath(hive: Base, key: Item, wanted: ItemKey)
    requires FindItem(hive, ItemKey(wanted.path, None)) == Some(key) && key.key.path == wanted.path
    ensures FindItem(hive, wanted).Some? ==> FindItem(hive, wanted).value.key.path == wanted.path
  {
    hide FindKey;
  }

  lemma OneValue(path: string, hash: int, v: Value)
    ensures Items([Key(path, hash, [v])]) == [Item(ItemKey(path, None), hash), ValueItem(path, v)]
  {
    var keys := [Key(path, hash, [v])];
    assert keys[..0] == [];
  }

  /** The key item that a value belongs to. */
  lemma KeyOfValue(keys: seq<Key>, item: Item) returns (key: Item)
    requires item in Items(keys)
    ensures key in Items(keys) && key.key == ItemKey(item.key.path, None)
  {
    hide Items;
    ItemsMembers(keys, item);
    var k :| k in keys && (item == KeyItem(k) || item in ValueItems(k.path, k.values));
    key := KeyItem(k);
    ItemsMembers(keys, key);
  }

  /** If some item of the base hive is not found as itself, some comparison goes wrong. */
  lemma FindingIsNecessary(hive: Base) returns (comparison: seq<Key>, r: Option<Lists>)
    requires NamesDistinct(KeysIn(hive)) && !FindsItems(hive)
    ensures Distinct(Items(comparison)) && IsComparison(hive, comparison, r) && !IsExact(hive, comparison, r)
  {
    hide Items, FindItem, KeysIn, IsExact, IsComparison, NamesDistinct;
    var item :| item in Items(KeysIn(hive)) && FindItem(hive, item.key) != Some(item);
    var key := KeyOfValue(KeysIn(hive), item);
    if FindItem(hive, key.key) != Some(key) {
      comparison, r := MissedKey(hive, key);
    } else if item.key.name.None? {
      comparison, r := MissedKey(hive, item);
    } else {
      comparison, r := MissedValue(hive, key, item);
    }
  }

  // ----- Deletions that are not found -----

  lemma {:induction false} InsertKeys(m: HashMap, s: seq<Item>)
    ensures Insert(m, s).Keys == m.Keys + KeysOf(s)
  {
    if s != [] {
      assert s == s[..|s| - 1] + [s[|s| - 1]];
      InsertKeys(m, s[..|s| - 1]);
    }
  }

  /** Whatever is listed as deleted was looked up; and if every lookup succeeds there is no panic. */
  lemma {:induction false} DeletedWasFound(hive: Base, l: Lists, order: seq<ItemKey>)
    requires l.keysDeleted == [] && forall k :: k in order ==> FindItem(hive, k).Some?
    ensures var r := DeleteAll(hive, l, order);
            r.Some? && forall item :: item in r.value.keysDeleted ==> exists k :: k in order && FindItem(hive, k) == Some(item)
    decreases |order|
  {
    hide FindItem;
    if order != [] {
      var front, last := order[..|order| - 1], order[|order| - 1];
      assert order == front + [last];
      DeletedWasFound(hive, l, front);
    }
  }

  /** Comparing with an empty hive: a key that no lookup returns is not listed as deleted. */
  lemma MissingDeletion(hive: Base, r: Option<Lists>, item: Item)
    requires IsComparison(hive, [], r)
    requires forall k :: k in KeysOf(Items(KeysIn(hive))) ==> FindItem(hive, k).Some? && FindItem(hive, k) != Some(item)
    ensures r.Some? && item !in r.value.keysDeleted
  {
    hide FindItem, KeysIn, DeleteAll, Insert;
    var m := MapOf(Items(KeysIn(hive)));
    InsertKeys(map[], Items(KeysIn(hive)));
    ClassifyNothing(hive, State(m, NO_LISTS));
    assert Items([]) == [];
    var order :| IsOrderOf(order, m.Keys) && r == DeleteAll(hive, NO_LISTS, order);
    DeletedWasFound(hive, NO_LISTS, order);
  }
}
