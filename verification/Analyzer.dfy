/**
  * The transaction analyzer: after each log entry it compares the items known so far with a current parse of the hive
  * and files superseded and vanished items. Its invariant states the outcome in terms of `History`.
  */
module Analyzer {
  import opened Common
  import opened History

  /** A cell as a reader finds it at a file offset. */
  datatype Cell = KeyCell(hash: Hash) | ValueCell(name: string, hash: Hash)

  datatype Item = Item(key: ItemKey, hash: Hash, offset: nat)

  /** A parsed buffer: its items in iteration order, and what can be read at each offset. */
  datatype Snapshot = Snapshot(items: seq<Item>, cells: map<nat, Cell>)

  /** What is remembered about an item (`RegItemMapValue`). */
  datatype Tracked = Tracked(hash: Hash, offset: nat, sequenceNumber: nat)

  /** A prior version to be read in full (`RegItemNeeded`). */
  datatype Needed = Needed(path: string, offset: nat, sequenceNumber: nat)

  /** A deleted value, with the name that its own cell carries. */
  datatype DeletedValue = DeletedValue(name: string, version: Version)

  type RegItemMap = map<ItemKey, Tracked>

  /** The cell at `offset` is that of item `k` with hash `x`. */
  predicate CellFits(cells: map<nat, Cell>, k: ItemKey, offset: nat, x: Hash) {
    offset in cells && cells[offset] == (match k.name case None => KeyCell(x) case Some(name) => ValueCell(name, x))
  }

  ghost predicate Readable(s: Snapshot) {
    forall i :: 0 <= i < |s.items| ==> CellFits(s.cells, s.items[i].key, s.items[i].offset, s.items[i].hash)
  }

  ghost predicate DistinctKeys(items: seq<Item>) {
    forall i, j :: 0 <= i < j < |items| ==> items[i].key != items[j].key
  }

  function KeysOf(items: seq<Item>): (ks: set<ItemKey>) {
    set i | 0 <= i < |items| :: items[i].key
  }

  /** The item that carries key `k`. */
  ghost function ItemOf(items: seq<Item>, k: ItemKey): (x: Item)
    requires k in KeysOf(items)
    ensures x in items && x.key == k
  {
    var i :| 0 <= i < |items| && items[i].key == k;
    items[i]
  }

  lemma ItemIsUnique(items: seq<Item>, i: nat)
    requires DistinctKeys(items) && i < |items|
    ensures items[i].key in KeysOf(items) && ItemOf(items, items[i].key) == items[i]
  {
  }

  /** The hashes that a snapshot shows. */
  ghost function Hashes(items: seq<Item>): map<ItemKey, Hash> {
    map k | k in KeysOf(items) :: ItemOf(items, k).hash
  }

  function Get<K, V>(m: map<K, seq<V>>, k: K): seq<V> {
    if k in m then m[k] else []
  }

  /** A deleted value of that name and hash is listed under that path. */
  ghost predicate Listed(d: map<string, seq<DeletedValue>>, path: string, name: string, x: Hash) {
    Has(Get(d, path), name, x)
  }

  ghost predicate Has(values: seq<DeletedValue>, name: string, x: Hash) {
    exists i :: 0 <= i < |values| && values[i].name == name && values[i].version.hash == x
  }

  /** No two entries of the list have one name and one hash. */
  ghost predicate NoDuplicates(values: seq<DeletedValue>) {
    forall i, j :: 0 <= i < j < |values| ==>
      values[i].name != values[j].name || values[i].version.hash != values[j].version.hash
  }

  /** What is remembered about an item of the current parse: an unchanged one keeps its number, any other gets the entry's. */
  function Track(x: Item, prior: RegItemMap, number: nat): Tracked {
    Tracked(x.hash, x.offset,
            if x.key in prior && prior[x.key].hash == x.hash then prior[x.key].sequenceNumber else number)
  }

  /** The item is in both, with different hashes. */
  ghost predicate Differs(k: ItemKey, current: seq<Item>, prior: RegItemMap) {
    k in KeysOf(current) && k in prior && ItemOf(current, k).hash != prior[k].hash
  }

  /** `needed` asks for the prior versions of the items `keys`, all different. */
  ghost predicate Names(needed: seq<Needed>, keys: seq<ItemKey>, prior: RegItemMap) {
    && |needed| == |keys|
    && (forall i, j :: 0 <= i < j < |keys| ==> keys[i] != keys[j])
    && forall i :: 0 <= i < |keys| ==>
         keys[i] in prior && needed[i] == Needed(keys[i].path, prior[keys[i]].offset, prior[keys[i]].sequenceNumber)
  }

  /** The first loop of `get_latest_reg_items`, with `handle_new_item` as its body. */
  method CompareItems(current: seq<Item>, prior: RegItemMap, number: nat)
    returns (latest: RegItemMap, rest: RegItemMap, keysNeeded: seq<Needed>, valuesNeeded: seq<Needed>,
             ghost changedKeys: seq<ItemKey>, ghost changedValues: seq<ItemKey>)
    requires DistinctKeys(current)
    ensures latest.Keys == KeysOf(current)
    ensures forall k :: k in latest ==> latest[k] == Track(ItemOf(current, k), prior, number)
    ensures rest == prior - KeysOf(current)
    ensures Names(keysNeeded, changedKeys, prior) && Names(valuesNeeded, changedValues, prior)
    ensures forall k :: k in changedKeys <==> k.name.None? && Differs(k, current, prior)
    ensures forall k :: k in changedValues <==> k.name.Some? && Differs(k, current, prior)
  {
    hide ItemOf;
    latest, rest := map[], prior;
    keysNeeded, valuesNeeded, changedKeys, changedValues := [], [], [], [];
    var i := 0;
    while i < |current|
      invariant 0 <= i <= |current|
      invariant latest.Keys == KeysOf(current[..i])
      invariant forall k :: k in latest ==> latest[k] == Track(ItemOf(current, k), prior, number)
      invariant rest == prior - KeysOf(current[..i])
      invariant Names(keysNeeded, changedKeys, prior) && Names(valuesNeeded, changedValues, prior)
      invariant forall k :: k in changedKeys <==> k.name.None? && k in KeysOf(current[..i]) && Differs(k, current, prior)
      invariant forall k :: k in changedValues <==> k.name.Some? && k in KeysOf(current[..i]) && Differs(k, current, prior)
    {
      var x := current[i];
      ItemIsUnique(current, i);
      OneMoreKey(current, i);
      var sequenceNumber := number;
      if x.key in rest {
        var known := rest[x.key];
        rest := rest - {x.key};
        if x.hash == known.hash {
          sequenceNumber := known.sequenceNumber;
        } else if x.key.name.None? {
          NamesOneMore(keysNeeded, changedKeys, prior, x.key);
          keysNeeded := keysNeeded + [Needed(x.key.path, known.offset, known.sequenceNumber)];
          changedKeys := changedKeys + [x.key];
        } else {
          NamesOneMore(valuesNeeded, changedValues, prior, x.key);
          valuesNeeded := valuesNeeded + [Needed(x.key.path, known.offset, known.sequenceNumber)];
          changedValues := changedValues + [x.key];
        }
      }
      latest := latest[x.key := Tracked(x.hash, x.offset, sequenceNumber)];
      i := i + 1;
    }
    assert current[..i] == current;
  }

  lemma OneMoreKey(current: seq<Item>, i: nat)
    requires DistinctKeys(current) && i < |current|
    ensures KeysOf(current[..i + 1]) == KeysOf(current[..i]) + {current[i].key}
    ensures current[i].key !in KeysOf(current[..i])
  {
    var more := current[..i + 1];
    assert more[i] == current[i];
    forall k
      ensures k in KeysOf(more) <==> k in KeysOf(current[..i]) || k == current[i].key
    {
      if k in KeysOf(current[..i]) {
        var j :| 0 <= j < i && current[..i][j].key == k;
        assert more[j].key == k;
      }
      if k in KeysOf(more) {
        var j :| 0 <= j < i + 1 && more[j].key == k;
        assert j < i ==> current[..i][j].key == k;
      }
    }
  }

  lemma NamesOneMore(needed: seq<Needed>, keys: seq<ItemKey>, prior: RegItemMap, k: ItemKey)
    requires Names(needed, keys, prior) && k in prior && k !in keys
    ensures Names(needed + [Needed(k.path, prior[k].offset, prior[k].sequenceNumber)], keys + [k], prior)
    ensures forall x :: x in keys + [k] <==> x in keys || x == k
  {
  }

  /** The version that an item had before entry `number` replaced or dropped it. */
  function PriorVersion(prior: RegItemMap, k: ItemKey, number: nat): Version
    requires k in prior
  {
    Version(prior[k].hash, prior[k].sequenceNumber, number)
  }

  /** The cells that the prior items point to are theirs. */
  ghost predicate PriorFits(prior: RegItemMap, cells: map<nat, Cell>) {
    forall k :: k in prior ==> CellFits(cells, k, prior[k].offset, prior[k].hash)
  }

  /** The cells that can be read where the prior items point to are theirs. */
  ghost predicate MayFit(prior: RegItemMap, cells: map<nat, Cell>) {
    forall k :: k in prior && prior[k].offset in cells ==> CellFits(cells, k, prior[k].offset, prior[k].hash)
  }

  ghost predicate IsReadable(prior: RegItemMap, cells: map<nat, Cell>, k: ItemKey) {
    k in prior && prior[k].offset in cells
  }

  lemma AllCanBeRead(prior: RegItemMap, cells: map<nat, Cell>)
    requires PriorFits(prior, cells)
    ensures MayFit(prior, cells) && forall k :: k in prior ==> IsReadable(prior, cells, k)
  {
  }

  /** Each of the items `keys` that can be read has one version more than before. */
  ghost predicate Filed(m: map<ItemKey, seq<Version>>, modified: map<ItemKey, seq<Version>>, keys: seq<ItemKey>,
                        prior: RegItemMap, cells: map<nat, Cell>, number: nat) {
    forall k :: Get(m, k) ==
                Get(modified, k) + if k in keys && IsReadable(prior, cells, k) then [PriorVersion(prior, k, number)] else []
  }

  lemma FiledOneMore(m: map<ItemKey, seq<Version>>, modified: map<ItemKey, seq<Version>>, keys: seq<ItemKey>,
                     prior: RegItemMap, cells: map<nat, Cell>, number: nat, i: nat)
    requires i < |keys| && keys[i] !in keys[..i] && keys[i] in prior
    requires Filed(m, modified, keys[..i], prior, cells, number)
    ensures var k := keys[i];
            Filed(if IsReadable(prior, cells, k) then m[k := Get(m, k) + [PriorVersion(prior, k, number)]] else m,
                  modified, keys[..i + 1], prior, cells, number)
  {
    hide IsReadable, PriorVersion;
    assert keys[..i + 1] == keys[..i] + [keys[i]];
  }

  /** The loops that read each needed item in full from the prior buffer and add it to a modified list. What can not be
      read is passed over. */
  method AddUpdated(modified: map<ItemKey, seq<Version>>, needed: seq<Needed>, cells: map<nat, Cell>, number: nat,
                    ghost keys: seq<ItemKey>, ghost prior: RegItemMap)
    returns (m: map<ItemKey, seq<Version>>)
    requires Names(needed, keys, prior) && MayFit(prior, cells)
    ensures Filed(m, modified, keys, prior, cells, number)
  {
    hide Filed;
    m := modified;
    FiledNothing(modified, prior, cells, number);
    assert keys[..0] == [];
    for i := 0 to |needed|
      invariant Filed(m, modified, keys[..i], prior, cells, number)
    {
      var x := needed[i];
      FiledOneMore(m, modified, keys, prior, cells, number, i);
      if x.offset in cells {
        var cell := cells[x.offset];
        var key := ItemKey(x.path, if cell.KeyCell? then None else Some(cell.name));
        assert key == keys[i];
        m := m[key := Get(m, key) + [Version(cell.hash, x.sequenceNumber, number)]];
      }
    }
    assert keys[..|needed|] == keys;
  }

  lemma FiledNothing(modified: map<ItemKey, seq<Version>>, prior: RegItemMap, cells: map<nat, Cell>, number: nat)
    ensures Filed(modified, modified, [], prior, cells, number)
  {
  }

  /** `DeletedValueMap::add`. */
  function AddDeletedValue(d: map<string, seq<DeletedValue>>, path: string, v: DeletedValue): map<string, seq<DeletedValue>> {
    d[path := Get(d, path) + [v]]
  }

  ghost predicate AllWithoutDuplicates(d: map<string, seq<DeletedValue>>) {
    forall path :: NoDuplicates(Get(d, path))
  }

  lemma Added(d: map<string, seq<DeletedValue>>, path: string, v: DeletedValue)
    requires AllWithoutDuplicates(d) && !Listed(d, path, v.name, v.version.hash)
    ensures AllWithoutDuplicates(AddDeletedValue(d, path, v))
    ensures forall p, n, x :: Listed(AddDeletedValue(d, path, v), p, n, x) <==>
                              Listed(d, p, n, x) || (p == path && n == v.name && x == v.version.hash)
  {
    var e := AddDeletedValue(d, path, v);
    assert NoDuplicates(Get(d, path));
    Appended(Get(d, path), v);
    assert forall p :: Get(e, p) == if p == path then Get(d, path) + [v] else Get(d, p);
    hide NoDuplicates, Has;
  }

  lemma Appended(values: seq<DeletedValue>, v: DeletedValue)
    requires NoDuplicates(values) && !Has(values, v.name, v.version.hash)
    ensures NoDuplicates(values + [v])
    ensures forall n, x :: Has(values + [v], n, x) <==> Has(values, n, x) || (n == v.name && x == v.version.hash)
  {
    var more := values + [v];
    assert more[|values|] == v;
    forall n, x
      ensures Has(more, n, x) <==> Has(values, n, x) || (n == v.name && x == v.version.hash)
    {
      if Has(values, n, x) {
        var i :| 0 <= i < |values| && values[i].name == n && values[i].version.hash == x;
        assert more[i] == values[i];
      }
    }
  }

  /** The value is the prior version of an item of the map, replaced by entry `number`. */
  ghost predicate IsPriorOf(rest: RegItemMap, path: string, v: DeletedValue, number: nat) {
    var k := ItemKey(path, Some(v.name));
    k in rest && v.version == PriorVersion(rest, k, number)
  }

  /** Every value was there before, or is such a version. */
  ghost predicate ComesFrom(d: map<string, seq<DeletedValue>>, deleted: map<string, seq<DeletedValue>>, rest: RegItemMap,
                            number: nat) {
    forall p, v :: v in Get(d, p) ==> v in Get(deleted, p) || IsPriorOf(rest, p, v, number)
  }

  lemma ComesFromOneMore(d: map<string, seq<DeletedValue>>, deleted: map<string, seq<DeletedValue>>, rest: RegItemMap,
                         number: nat, path: string, v: DeletedValue)
    requires ComesFrom(d, deleted, rest, number) && IsPriorOf(rest, path, v, number)
    ensures ComesFrom(AddDeletedValue(d, path, v), deleted, rest, number)
  {
    hide IsPriorOf;
    var e := AddDeletedValue(d, path, v);
    assert forall p :: Get(e, p) == if p == path then Get(d, path) + [v] else Get(d, p);
  }

  /** The loop over the items that the current parse no longer shows, in any order; keys are filed elsewhere. */
  method AddDeleted(deleted: map<string, seq<DeletedValue>>, rest: RegItemMap, cells: map<nat, Cell>, number: nat)
    returns (d: map<string, seq<DeletedValue>>)
    requires AllWithoutDuplicates(deleted) && MayFit(rest, cells)
    requires forall k :: k in rest && k.name.Some? ==> !Listed(deleted, k.path, k.name.value, rest[k].hash)
    ensures AllWithoutDuplicates(d) && ComesFrom(d, deleted, rest, number)
    ensures forall p, n, x :: Listed(d, p, n, x) <==>
                              || Listed(deleted, p, n, x)
                              || (var k := ItemKey(p, Some(n)); IsReadable(rest, cells, k) && rest[k].hash == x)
  {
    hide Listed, AllWithoutDuplicates, ComesFrom;
    FromItself(deleted, rest, number);
    d := deleted;
    var todo := rest.Keys;
    while todo != {}
      invariant todo <= rest.Keys
      invariant AllWithoutDuplicates(d) && ComesFrom(d, deleted, rest, number)
      invariant forall p, n, x :: Listed(d, p, n, x) <==>
                                  || Listed(deleted, p, n, x)
                                  || (var k := ItemKey(p, Some(n));
                                      IsReadable(rest, cells, k) && k !in todo && rest[k].hash == x)
    {
      var k :| k in todo;
      todo := todo - {k};
      if k.name.Some? {
        var offset := rest[k].offset;
        assert offset in cells ==> CellFits(cells, k, offset, rest[k].hash);
        if offset in cells && cells[offset].ValueCell? {
          var v := DeletedValue(cells[offset].name, Version(cells[offset].hash, rest[k].sequenceNumber, number));
          assert ItemKey(k.path, Some(v.name)) == k;
          Added(d, k.path, v);
          ComesFromOneMore(d, deleted, rest, number, k.path, v);
          d := AddDeletedValue(d, k.path, v);
        }
      }
    }
  }

  lemma FromItself(deleted: map<string, seq<DeletedValue>>, rest: RegItemMap, number: nat)
    ensures ComesFrom(deleted, deleted, rest, number)
  {
  }

  /** `DeletedValueMap::remove`: the first entry of that name and hash goes, and an empty list with it. */
  method RemoveDeletedValue(d: map<string, seq<DeletedValue>>, path: string, name: string, x: Hash)
    returns (e: map<string, seq<DeletedValue>>)
    requires AllWithoutDuplicates(d)
    ensures AllWithoutDuplicates(e) && forall p, v :: v in Get(e, p) ==> v in Get(d, p)
    ensures forall p, n, y :: Listed(e, p, n, y) <==> Listed(d, p, n, y) && !(p == path && n == name && y == x)
  {
    e := d;
    if path in d {
      var values := d[path];
      var i := 0;
      while i < |values|
        invariant 0 <= i <= |values|
        invariant forall j :: 0 <= j < i ==> values[j].name != name || values[j].version.hash != x
      {
        if values[i].name == name && values[i].version.hash == x {
          var left := values[..i] + values[i + 1..];
          e := if left == [] then d - {path} else d[path := left];
          Removed(d, e, path, i);
          return;
        }
        i := i + 1;
      }
    }
  }

  lemma Removed(d: map<string, seq<DeletedValue>>, e: map<string, seq<DeletedValue>>, path: string, i: nat)
    requires AllWithoutDuplicates(d) && i < |Get(d, path)|
    requires Get(e, path) == Get(d, path)[..i] + Get(d, path)[i + 1..]
    requires forall p :: p != path ==> Get(e, p) == Get(d, p)
    ensures AllWithoutDuplicates(e)
    ensures var v := Get(d, path)[i];
            forall p, n, y :: Listed(e, p, n, y) <==>
                              Listed(d, p, n, y) && !(p == path && n == v.name && y == v.version.hash)
  {
    assert NoDuplicates(Get(d, path));
    Without(Get(d, path), i);
    hide NoDuplicates, Has;
    assert forall p :: NoDuplicates(Get(d, p));
  }

  lemma Without(values: seq<DeletedValue>, i: nat)
    requires NoDuplicates(values) && i < |values|
    ensures var left, v := values[..i] + values[i + 1..], values[i];
            && NoDuplicates(left)
            && forall n, x :: Has(left, n, x) <==> Has(values, n, x) && !(n == v.name && x == v.version.hash)
  {
    var left := values[..i] + values[i + 1..];
    assert forall j :: 0 <= j < |left| ==> left[j] == values[if j < i then j else j + 1];
    forall n, x
      ensures Has(left, n, x) <==> Has(values, n, x) && !(n == values[i].name && x == values[i].version.hash)
    {
      StillThere(values, i, n, x);
    }
  }

  lemma StillThere(values: seq<DeletedValue>, i: nat, n: string, x: Hash)
    requires NoDuplicates(values) && i < |values|
    ensures Has(values[..i] + values[i + 1..], n, x) <==>
            Has(values, n, x) && !(n == values[i].name && x == values[i].version.hash)
  {
    var left := values[..i] + values[i + 1..];
    if Has(left, n, x) {
      var j :| 0 <= j < |left| && left[j].name == n && left[j].version.hash == x;
      assert left[j] == values[if j < i then j else j + 1];
    }
    if Has(values, n, x) && !(n == values[i].name && x == values[i].version.hash) {
      var j :| 0 <= j < |values| && values[j].name == n && values[j].version.hash == x;
      assert left[if j < i then j else j - 1] == values[j];
    }
  }

  /** The last loop: no live value stays on the deleted lists. */
  method RemoveLive(deleted: map<string, seq<DeletedValue>>, latest: RegItemMap) returns (d: map<string, seq<DeletedValue>>)
    requires AllWithoutDuplicates(deleted)
    ensures AllWithoutDuplicates(d) && forall p, v :: v in Get(d, p) ==> v in Get(deleted, p)
    ensures forall p, n, x :: Listed(d, p, n, x) <==>
                              Listed(deleted, p, n, x) && !(ItemKey(p, Some(n)) in latest && latest[ItemKey(p, Some(n))].hash == x)
  {
    hide Listed, AllWithoutDuplicates;
    d := deleted;
    var todo := latest.Keys;
    while todo != {}
      invariant todo <= latest.Keys
      invariant AllWithoutDuplicates(d) && forall p, v :: v in Get(d, p) ==> v in Get(deleted, p)
      invariant forall p, n, x :: Listed(d, p, n, x) <==>
                                  && Listed(deleted, p, n, x)
                                  && !(var k := ItemKey(p, Some(n)); k in latest && k !in todo && latest[k].hash == x)
    {
      var k :| k in todo;
      todo := todo - {k};
      if k.name.Some? {
        d := RemoveDeletedValue(d, k.path, k.name.value, latest[k].hash);
      }
    }
  }

  /** The modified keys, then the modified values. */
  method FileModified(modified: map<ItemKey, seq<Version>>, keysNeeded: seq<Needed>, valuesNeeded: seq<Needed>,
                      cells: map<nat, Cell>, number: nat, ghost changedKeys: seq<ItemKey>,
                      ghost changedValues: seq<ItemKey>, ghost current: seq<Item>, ghost prior: RegItemMap)
    returns (m: map<ItemKey, seq<Version>>)
    requires Names(keysNeeded, changedKeys, prior) && Names(valuesNeeded, changedValues, prior) && PriorFits(prior, cells)
    requires forall k :: k in changedKeys <==> k.name.None? && Differs(k, current, prior)
    requires forall k :: k in changedValues <==> k.name.Some? && Differs(k, current, prior)
    ensures forall k :: Get(m, k) ==
                        Get(modified, k) + if Differs(k, current, prior) then [PriorVersion(prior, k, number)] else []
  {
    AllCanBeRead(prior, cells);
    assert forall k :: Differs(k, current, prior) ==> IsReadable(prior, cells, k);
    hide Differs, PriorVersion, Get, Names, PriorFits, MayFit, IsReadable;
    var m' := AddUpdated(modified, keysNeeded, cells, number, changedKeys, prior);
    m := AddUpdated(m', valuesNeeded, cells, number, changedValues, prior);
    assert forall s: seq<Version> :: s + [] == s;
  }

  /** The values that vanished are listed, and those that are live again are not. */
  method FileDeleted(deleted: map<string, seq<DeletedValue>>, rest: RegItemMap, latest: RegItemMap, cells: map<nat, Cell>,
                     number: nat, ghost current: seq<Item>, ghost prior: RegItemMap)
    returns (d: map<string, seq<DeletedValue>>)
    requires AllWithoutDuplicates(deleted) && PriorFits(prior, cells)
    requires rest == prior - KeysOf(current) && latest.Keys == KeysOf(current)
    requires forall k :: k in latest ==> latest[k].hash == ItemOf(current, k).hash
    requires forall k :: k in prior && k.name.Some? ==> !Listed(deleted, k.path, k.name.value, prior[k].hash)
    ensures AllWithoutDuplicates(d) && ComesFrom(d, deleted, rest, number)
    ensures forall path, name, x :: Listed(d, path, name, x) <==>
              var k := ItemKey(path, Some(name));
              && (Listed(deleted, path, name, x) || (k in prior && k !in KeysOf(current) && prior[k].hash == x))
              && !(k in KeysOf(current) && ItemOf(current, k).hash == x)
  {
    hide Listed, AllWithoutDuplicates, KeysOf, ItemOf, CellFits;
    AllCanBeRead(rest, cells);
    var d' := AddDeleted(deleted, rest, cells, number);
    d := RemoveLive(d', latest);
    assert ComesFrom(d, deleted, rest, number);
  }

  // ----- The invariant, part by part -----

  /** Every live item carries its hash, the number of the entry since which it has it, and where its cell is. */
  ghost predicate TracksLive(items: RegItemMap, cells: map<nat, Cell>, h: Snapshots, n: seq<nat>)
    requires 0 < |h| == |n|
  {
    var last := |h| - 1;
    && items.Keys == h[last].Keys
    && PriorFits(items, cells)
    && forall k :: k in items ==>
         Live(h, k, last) && items[k].hash == h[last][k] && items[k].sequenceNumber == n[Since(h, k, last)]
  }

  /** The modified lists hold exactly the versions that were replaced, oldest first. */
  ghost predicate HoldsVersions(modified: map<ItemKey, seq<Version>>, h: Snapshots, n: seq<nat>)
    requires 0 < |h| == |n|
  {
    forall k :: Get(modified, k) == Versions(h, n, k, |h| - 1)
  }

  /** The deleted lists hold, once each, exactly the values dropped with a hash they have not been live with since. */
  ghost predicate HoldsDeleted(d: map<string, seq<DeletedValue>>, h: Snapshots) {
    && AllWithoutDuplicates(d)
    && forall path, name, x :: Listed(d, path, name, x) <==> DeletedSince(h, ItemKey(path, Some(name)), x)
  }

  /** Every value on the deleted lists carries the number since which it had its hash and that of the entry that dropped
      it. */
  ghost predicate HoldsDeletedVersions(d: map<string, seq<DeletedValue>>, h: Snapshots, n: seq<nat>)
    requires |h| == |n|
  {
    forall path, v :: v in Get(d, path) ==> IsDeletedVersion(h, n, ItemKey(path, Some(v.name)), v.version)
  }

  lemma HoldsDeletedVersionsStep(prior: RegItemMap, cells: map<nat, Cell>, h: Snapshots, n: seq<nat>, s: Snapshot, number: nat,
                                 before: map<string, seq<DeletedValue>>, after: map<string, seq<DeletedValue>>)
    requires 0 < |h| == |n| && TracksLive(prior, cells, h, n) && HoldsDeletedVersions(before, h, n)
    requires HoldsDeleted(after, h + [Hashes(s.items)]) && ComesFrom(after, before, prior - KeysOf(s.items), number)
    ensures HoldsDeletedVersions(after, h + [Hashes(s.items)], n + [number])
  {
    hide Since, KeysOf, ItemOf, CellFits, DeletedSince, AllWithoutDuplicates, IsDeletedVersion, Hashes;
    var hashes := Hashes(s.items);
    forall path, v | v in Get(after, path)
      ensures IsDeletedVersion(h + [hashes], n + [number], ItemKey(path, Some(v.name)), v.version)
    {
      var k := ItemKey(path, Some(v.name));
      ListedIsNotLive(after, h, hashes, path, v);
      if v in Get(before, path) {
        DeletedVersionIsKept(h, n, hashes, number, k, v.version);
      } else {
        assert hashes.Keys == KeysOf(s.items) by { HashesKeys(s.items); }
        DeletedVersionIsNew(h, n, hashes, number, k);
      }
    }
  }

  lemma HashesKeys(items: seq<Item>)
    ensures Hashes(items).Keys == KeysOf(items)
  {
  }

  lemma ListedIsNotLive(d: map<string, seq<DeletedValue>>, h: Snapshots, hashes: map<ItemKey, Hash>, path: string, v: DeletedValue)
    requires HoldsDeleted(d, h + [hashes]) && v in Get(d, path)
    ensures var k := ItemKey(path, Some(v.name)); !(k in hashes && hashes[k] == v.version.hash)
  {
    var k, g := ItemKey(path, Some(v.name)), h + [hashes];
    assert Listed(d, path, v.name, v.version.hash);
    assert DeletedSince(g, k, v.version.hash);
    assert g[|h|] == hashes && !LiveWith(g, k, v.version.hash, |h|);
  }

  lemma TracksLiveStep(prior: RegItemMap, cells: map<nat, Cell>, h: Snapshots, n: seq<nat>, s: Snapshot, number: nat,
                       latest: RegItemMap)
    requires 0 < |h| == |n| && TracksLive(prior, cells, h, n)
    requires DistinctKeys(s.items) && Readable(s)
    requires latest.Keys == KeysOf(s.items)
    requires forall k :: k in latest ==> latest[k] == Track(ItemOf(s.items, k), prior, number)
    ensures TracksLive(latest, s.cells, h + [Hashes(s.items)], n + [number])
  {
    hide Since, KeysOf, ItemOf, CellFits, DistinctKeys, Readable;
    var hashes := Hashes(s.items);
    forall k | k in latest
      ensures var h' := h + [hashes];
              && CellFits(s.cells, k, latest[k].offset, latest[k].hash)
              && Live(h', k, |h|) && latest[k].hash == h'[|h|][k]
              && latest[k].sequenceNumber == (n + [number])[Since(h', k, |h|)]
    {
      AllReadable(s, k);
      SinceStep(h, n, hashes, number, k);
    }
  }

  lemma HoldsVersionsStep(prior: RegItemMap, cells: map<nat, Cell>, h: Snapshots, n: seq<nat>, s: Snapshot, number: nat,
                          before: map<ItemKey, seq<Version>>, after: map<ItemKey, seq<Version>>)
    requires 0 < |h| == |n| && TracksLive(prior, cells, h, n) && HoldsVersions(before, h, n)
    requires forall k :: Get(after, k) ==
                         Get(before, k) + if Differs(k, s.items, prior) then [PriorVersion(prior, k, number)] else []
    ensures HoldsVersions(after, h + [Hashes(s.items)], n + [number])
  {
    hide TracksLive, Versions, Hashes, Get, Differs, PriorVersion;
    forall k
      ensures Get(after, k) == Versions(h + [Hashes(s.items)], n + [number], k, |h|)
    {
      assert Get(before, k) == Versions(h, n, k, |h| - 1);
      VersionsOfItem(prior, cells, h, n, s, number, k);
    }
  }

  lemma VersionsOfItem(prior: RegItemMap, cells: map<nat, Cell>, h: Snapshots, n: seq<nat>, s: Snapshot, number: nat,
                       k: ItemKey)
    requires 0 < |h| == |n| && TracksLive(prior, cells, h, n)
    ensures Versions(h + [Hashes(s.items)], n + [number], k, |h|) ==
            Versions(h, n, k, |h| - 1) + if Differs(k, s.items, prior) then [PriorVersion(prior, k, number)] else []
  {
    hide Since, Versions, KeysOf, ItemOf, CellFits;
    var hashes, last := Hashes(s.items), |h| - 1;
    VersionsStep(h, n, hashes, number, k);
    assert k in prior <==> Live(h, k, last);
    assert Differs(k, s.items, prior) <==> Live(h, k, last) && k in hashes && h[last][k] != hashes[k];
  }

  lemma HoldsDeletedStep(prior: RegItemMap, cells: map<nat, Cell>, h: Snapshots, n: seq<nat>, s: Snapshot,
                         before: map<string, seq<DeletedValue>>, after: map<string, seq<DeletedValue>>)
    requires 0 < |h| == |n| && TracksLive(prior, cells, h, n) && HoldsDeleted(before, h)
    requires AllWithoutDuplicates(after)
    requires forall path, name, x :: Listed(after, path, name, x) <==>
               var k := ItemKey(path, Some(name));
               && (Listed(before, path, name, x) || (k in prior && k !in KeysOf(s.items) && prior[k].hash == x))
               && !(k in KeysOf(s.items) && ItemOf(s.items, k).hash == x)
    ensures HoldsDeleted(after, h + [Hashes(s.items)])
  {
    hide Since, KeysOf, ItemOf, CellFits, Listed, DeletedSince, AllWithoutDuplicates;
    forall path, name, x
      ensures Listed(after, path, name, x) <==> DeletedSince(h + [Hashes(s.items)], ItemKey(path, Some(name)), x)
    {
      DeletedStep(h, Hashes(s.items), ItemKey(path, Some(name)), x);
    }
  }

  lemma LiveIsNotListed(prior: RegItemMap, cells: map<nat, Cell>, h: Snapshots, n: seq<nat>,
                        d: map<string, seq<DeletedValue>>, k: ItemKey)
    requires 0 < |h| == |n| && TracksLive(prior, cells, h, n) && HoldsDeleted(d, h)
    requires k in prior && k.name.Some?
    ensures !Listed(d, k.path, k.name.value, prior[k].hash)
  {
    hide Since, Listed, CellFits, AllWithoutDuplicates;
    assert ItemKey(k.path, Some(k.name.value)) == k;
    assert LiveWith(h, k, prior[k].hash, |h| - 1);
  }

  lemma AllReadable(s: Snapshot, k: ItemKey)
    requires DistinctKeys(s.items) && Readable(s) && k in KeysOf(s.items)
    ensures var x := ItemOf(s.items, k); Hashes(s.items)[k] == x.hash && CellFits(s.cells, k, x.offset, x.hash)
  {
    var i :| 0 <= i < |s.items| && s.items[i] == ItemOf(s.items, k);
  }

  class TransactionAnalyzer {
    var items: RegItemMap
    var cells: map<nat, Cell>
    var modified: map<ItemKey, seq<Version>>
    var deletedValues: map<string, seq<DeletedValue>>
    ghost var snapshots: Snapshots
    ghost var numbers: seq<nat>

    ghost predicate Valid()
      reads this
    {
      && 0 < |snapshots| == |numbers|
      && TracksLive(items, cells, snapshots, numbers)
      && HoldsVersions(modified, snapshots, numbers)
      && HoldsDeleted(deletedValues, snapshots) && HoldsDeletedVersions(deletedValues, snapshots, numbers)
    }

    /** The items of the original hive, all numbered 0 (`get_reg_items`). */
    constructor (s: Snapshot)
      requires DistinctKeys(s.items) && Readable(s)
      ensures Valid() && snapshots == [Hashes(s.items)] && numbers == [0]
    {
      hide KeysOf, ItemOf, Readable, DistinctKeys, CellFits;
      var all, _, _, _, _, _ := CompareItems(s.items, map[], 0);
      items, cells, modified, deletedValues := all, s.cells, map[], map[];
      snapshots, numbers := [Hashes(s.items)], [0];
      new;
      forall k | k in items
        ensures CellFits(cells, k, items[k].offset, items[k].hash) && items[k].hash == Hashes(s.items)[k]
      {
        AllReadable(s, k);
      }
    }

    /** `get_latest_reg_items`, for a buffer that parses. */
    method GetLatestRegItems(s: Snapshot, number: nat)
      requires Valid() && DistinctKeys(s.items) && Readable(s)
      modifies this
      ensures Valid()
      ensures snapshots == old(snapshots) + [Hashes(s.items)] && numbers == old(numbers) + [number]
    {
      hide HoldsDeletedVersions, ComesFrom;
      hide TracksLive, HoldsVersions, HoldsDeleted, Listed, AllWithoutDuplicates, KeysOf, ItemOf, Hashes, Differs, Get, Names,
        PriorFits, DistinctKeys, Readable;
      var latest, rest, keysNeeded, valuesNeeded, changedKeys, changedValues := CompareItems(s.items, items, number);
      Consequences(items, cells, snapshots, numbers, deletedValues);
      var m := FileModified(modified, keysNeeded, valuesNeeded, cells, number, changedKeys, changedValues, s.items, items);
      HoldsVersionsStep(items, cells, snapshots, numbers, s, number, modified, m);
      var d := FileDeleted(deletedValues, rest, latest, cells, number, s.items, items);
      HoldsDeletedStep(items, cells, snapshots, numbers, s, deletedValues, d);
      HoldsDeletedVersionsStep(items, cells, snapshots, numbers, s, number, deletedValues, d);
      TracksLiveStep(items, cells, snapshots, numbers, s, number, latest);
      items, cells, modified, deletedValues := latest, s.cells, m, d;
      snapshots, numbers := snapshots + [Hashes(s.items)], numbers + [number];
    }

    /** `get_latest_reg_items`, for a buffer that does not parse: nothing is filed and the items stay as they are, but
        the prior versions of the next entry are read from that buffer. As long as their cells are still there, the
        history goes on as if the entry had not been. */
    method SkipUnparsable(unparsed: map<nat, Cell>)
      requires Valid() && PriorFits(items, unparsed)
      modifies this`cells
      ensures Valid() && cells == unparsed
    {
      cells := unparsed;
    }
  }

  lemma Consequences(prior: RegItemMap, cells: map<nat, Cell>, h: Snapshots, n: seq<nat>, d: map<string, seq<DeletedValue>>)
    requires 0 < |h| == |n| && TracksLive(prior, cells, h, n) && HoldsDeleted(d, h)
    ensures PriorFits(prior, cells) && AllWithoutDuplicates(d)
    ensures forall k :: k in prior && k.name.Some? ==> !Listed(d, k.path, k.name.value, prior[k].hash)
  {
    forall k | k in prior && k.name.Some?
      ensures !Listed(d, k.path, k.name.value, prior[k].hash)
    {
      LiveIsNotListed(prior, cells, h, n, d, k);
    }
  }
}
