/** When looking up the keys of a hive by their own paths gives them back, and so when a comparison is exact. */
module BaseLookup {
  import opened Common
  import opened Paths
  import opened RegCompare
  import F = Filtering
  import I = Iteration
  import L = Lookup
  import T = Traversal

  // ----- The condition -----

  function PlaceOfRoot(b: Base): L.Place {
    L.PlaceOf(Root(b))
  }

  function ValuesAt(b: Base, n: F.Node): seq<Value> {
    b.content(n.offset).values
  }

  /** The place that a lookup of the path answers with. */
  ghost predicate Answers(b: Base, path: string, place: L.Place) {
    if L.BelowRoot(path, true) == [] then place == PlaceOfRoot(b)
    else L.IsAnswer(b.hive, PlaceOfRoot(b), L.Request(Root(b).path, path, true), place)
  }

  /** The lookup reads the values of what it answers with: that is the root, or has the path searched for. */
  predicate ReadsValues(b: Base, path: string) {
    L.BelowRoot(path, true) == [] || L.Same(path, L.Request(Root(b).path, path, true))
  }

  /** The value is the first of its name, ignoring ASCII case. */
  ghost predicate IsFirstNamed(values: seq<Value>, v: Value) {
    exists i :: IsFirstAt(values, v, i)
  }

  ghost predicate IsFirstAt(values: seq<Value>, v: Value, i: nat) {
    i < |values| && values[i] == v && forall j :: 0 <= j < i ==> Lower(values[j].name) != Lower(v.name)
  }

  /** A lookup of the key's own path answers with a key of the same path and hash, in which each of its values is the
      first of its name. */
  ghost predicate Findable(b: Base, n: F.Node) {
    exists place :: Answers(b, n.path, place) && HasItemsOf(b, place, n)
  }

  ghost predicate HasItemsOf(b: Base, place: L.Place, n: F.Node) {
    && place.path == n.path && b.content(place.offset).hash == b.content(n.offset).hash
    && (ValuesAt(b, n) == [] || ReadsValues(b, n.path))
    && forall v :: v in ValuesAt(b, n) ==> IsFirstNamed(b.content(place.offset).values, v)
  }

  /** Every key that iteration returns is findable. */
  ghost predicate Searchable(b: Base) {
    forall n :: n in Listed(b) ==> Findable(b, n)
  }

  // ----- Searchable hives are those whose items are found -----

  lemma {:induction false} FirstNamedIsFound(values: seq<Value>, v: Value)
    ensures FindValue(values, v.name) == Some(v) <==> IsFirstNamed(values, v)
    decreases |values|
  {
    hide Lower, IsFirstAt;
    if values == [] {
      assert forall i: nat :: !IsFirstAt(values, v, i) by { NoneIsFirst(values, v); }
    } else {
      var rest := values[1..];
      FirstNamedIsFound(rest, v);
      FirstOrLater(values, v);
    }
  }

  lemma NoneIsFirst(values: seq<Value>, v: Value)
    requires values == []
    ensures forall i: nat :: !IsFirstAt(values, v, i)
  {
  }

  lemma FirstOrLater(values: seq<Value>, v: Value)
    requires values != []
    ensures if Lower(values[0].name) == Lower(v.name) then IsFirstNamed(values, v) <==> values[0] == v
            else IsFirstNamed(values, v) <==> IsFirstNamed(values[1..], v)
  {
    hide Lower;
    var rest := values[1..];
    if Lower(values[0].name) == Lower(v.name) {
      assert values[0] == v ==> IsFirstAt(values, v, 0);
    } else {
      if i: nat :| IsFirstAt(values, v, i) {
        assert i > 0;
        assert IsFirstAt(rest, v, i - 1);
      }
      if i: nat :| IsFirstAt(rest, v, i) {
        LaterIsFirst(values, v, i);
      }
    }
  }

  lemma LaterIsFirst(values: seq<Value>, v: Value, i: nat)
    requires values != [] && Lower(values[0].name) != Lower(v.name) && IsFirstAt(values[1..], v, i)
    ensures IsFirstAt(values, v, i + 1)
  {
    hide Lower;
    assert forall j :: 0 < j < |values| ==> values[j] == values[1..][j - 1];
  }

  /** What a lookup finds, in terms of the place it answers with. */
  lemma FindKeyIs(b: Base, path: string, place: L.Place)
    requires Answers(b, path, place)
    ensures var content := b.content(place.offset);
            FindKey(b, path).Some? && FindKey(b, path).value.path == place.path && FindKey(b, path).value.hash == content.hash
    ensures place.path == path ==>
              FindKey(b, path).value.values == if ReadsValues(b, path) then b.content(place.offset).values else []
  {
    hide L.Search, L.IsAnswer, L.BelowRoot, L.Request, L.QueryFor, L.Same;
    L.SearchGives(b.hive, Root(b), L.Request(Root(b).path, path, true), place);
  }

  lemma FoundIsAnswered(b: Base, path: string) returns (place: L.Place)
    requires FindKey(b, path).Some?
    ensures Answers(b, path, place)
  {
    hide L.Search, L.IsAnswer, L.BelowRoot, L.Request, L.QueryFor, L.Same;
    place := L.PlaceOf(L.GetKey(b.hive, Root(b), path, true).value);
    L.SearchGives(b.hive, Root(b), L.Request(Root(b).path, path, true), place);
  }

  /** The items of a key are found as themselves. */
  ghost predicate FindsItemsOf(b: Base, n: F.Node) {
    && FindItem(b, ItemKey(n.path, None)) == Some(KeyItem(KeyAt(b, n)))
    && forall v :: v in ValuesAt(b, n) ==> FindItem(b, ItemKey(n.path, Some(v.name))) == Some(ValueItem(n.path, v))
  }

  lemma FindableIsFound(b: Base, n: F.Node)
    ensures Findable(b, n) <==> FindsItemsOf(b, n)
  {
    hide Answers, FindKey, FindValue, IsFirstNamed, ReadsValues;
    if Findable(b, n) {
      var place :| Answers(b, n.path, place) && HasItemsOf(b, place, n);
      FindKeyIs(b, n.path, place);
      forall v | v in ValuesAt(b, n)
        ensures FindItem(b, ItemKey(n.path, Some(v.name))) == Some(ValueItem(n.path, v))
      {
        FirstNamedIsFound(b.content(place.offset).values, v);
      }
    }
    if FindsItemsOf(b, n) {
      var place := FoundIsAnswered(b, n.path);
      FindKeyIs(b, n.path, place);
      FirstNamedAreThere(b, n, place);
    }
  }

  lemma FirstNamedAreThere(b: Base, n: F.Node, place: L.Place)
    requires FindsItemsOf(b, n) && FindKey(b, n.path).Some? && place.path == n.path
    requires FindKey(b, n.path).value.values == if ReadsValues(b, n.path) then b.content(place.offset).values else []
    ensures ValuesAt(b, n) == [] || ReadsValues(b, n.path)
    ensures forall v :: v in ValuesAt(b, n) ==> IsFirstNamed(b.content(place.offset).values, v)
  {
    hide FindKey, IsFirstNamed, ReadsValues;
    forall v | v in ValuesAt(b, n)
      ensures ReadsValues(b, n.path) && IsFirstNamed(b.content(place.offset).values, v)
    {
      var found := FindValue(FindKey(b, n.path).value.values, v.name);
      assert found.Some? && found.value.name == v.name && found.value.hash == v.hash;
      FirstNamedIsFound(b.content(place.offset).values, v);
    }
    if ValuesAt(b, n) != [] { assert ValuesAt(b, n)[0] in ValuesAt(b, n); }
  }

  /** Every item is found as itself if and only if every key is findable. */
  lemma SearchableFindsItems(b: Base)
    ensures Searchable(b) <==> FindsItems(b)
  {
    hide Items, KeysIn, Listed, Findable, FindItem, ValueItems;
    forall n | n in Listed(b)
      ensures Findable(b, n) <==> FindsItemsOf(b, n)
    {
      FindableIsFound(b, n);
      ItemsOfNode(b, n);
    }
    if Searchable(b) {
      forall item | item in Items(KeysIn(b))
        ensures FindItem(b, item.key) == Some(item)
      {
        var n := NodeOfItem(b, item);
        if item != KeyItem(KeyAt(b, n)) {
          var values := ValuesAt(b, n);
          var i :| 0 <= i < |values| && item == ValueItem(n.path, values[i]);
          assert values[i] in values;
        }
      }
    }
    if FindsItems(b) {
      forall n | n in Listed(b)
        ensures Findable(b, n)
      {
        ItemsOfNode(b, n);
        FindableIsFound(b, n);
        assert forall v :: v in ValuesAt(b, n) ==> FindItem(b, ValueItem(n.path, v).key) == Some(ValueItem(n.path, v));
      }
    }
  }

  /** The listed key that an item belongs to. */
  lemma NodeOfItem(b: Base, item: Item) returns (n: F.Node)
    requires item in Items(KeysIn(b))
    ensures n in Listed(b) && (item == KeyItem(KeyAt(b, n)) || item in ValueItems(n.path, ValuesAt(b, n)))
  {
    hide Items, Listed;
    ItemsMembers(KeysIn(b), item);
    var k :| k in KeysIn(b) && (item == KeyItem(k) || item in ValueItems(k.path, k.values));
    var i :| 0 <= i < |Listed(b)| && KeysIn(b)[i] == k;
    n := Listed(b)[i];
  }

  lemma ItemsOfNode(b: Base, n: F.Node)
    requires n in Listed(b)
    ensures KeyItem(KeyAt(b, n)) in Items(KeysIn(b))
    ensures forall v :: v in ValuesAt(b, n) ==> ValueItem(n.path, v) in Items(KeysIn(b))
  {
    hide Listed, Items;
    var i :| 0 <= i < |Listed(b)| && Listed(b)[i] == n;
    var k := KeyAt(b, n);
    assert KeysIn(b)[i] == k;
    ItemsMembers(KeysIn(b), KeyItem(k));
    forall v | v in ValuesAt(b, n)
      ensures ValueItem(n.path, v) in Items(KeysIn(b))
    {
      var j :| 0 <= j < |k.values| && k.values[j] == v;
      assert ValueItems(k.path, k.values)[j] == ValueItem(n.path, v);
      ItemsMembers(KeysIn(b), ValueItem(n.path, v));
    }
  }

  // ----- When comparisons are exact -----

  /** If every key is findable, every comparison with a hive of distinct items gives exactly the differences, without a
      panic. */
  lemma ComparisonIsExact(b: Base, comparison: seq<Key>, r: Option<Lists>)
    requires IsComparison(b, comparison, r) && Searchable(b) && Distinct(Items(comparison))
    ensures IsExact(b, comparison, r)
  {
    hide *;
    SearchableFindsItems(b);
    FindingIsEnough(b, comparison, r);
  }

  /** Every comparison with a hive of distinct items is exact. */
  ghost predicate AlwaysExact(b: Base) {
    forall comparison, r :: Distinct(Items(comparison)) && IsComparison(b, comparison, r) ==> IsExact(b, comparison, r)
  }

  /** A base hive of any shape, whose names are distinct, compares exactly with every other hive if and only if it is
      searchable. */
  lemma ExactIfSearchable(b: Base)
    requires NamesDistinct(KeysIn(b))
    ensures AlwaysExact(b) <==> Searchable(b)
  {
    hide NamesDistinct, Searchable, FindsItems, IsExact, IsComparison, Items, Distinct;
    SearchableFindsItems(b);
    if Searchable(b) {
      forall comparison, r | Distinct(Items(comparison)) && IsComparison(b, comparison, r)
        ensures IsExact(b, comparison, r)
      {
        ComparisonIsExact(b, comparison, r);
      }
    } else {
      var comparison, r := FindingIsNecessary(b);
    }
  }

  /** Every readable key that can be walked to is among the keys that iteration returns, with the path of the walk. */
  ghost predicate EveryWalkIsListed(b: Base) {
    forall ix :: L.Walk(b.hive, PlaceOfRoot(b), ix).Some? ==> IsListed(b, L.Walk(b.hive, PlaceOfRoot(b), ix).value)
  }

  ghost predicate IsListed(b: Base, place: L.Place) {
    exists n :: n in Listed(b) && L.PlaceOf(n) == place
  }

  lemma SamePath(b: Base, n: F.Node, place: L.Place)
    requires NamesDistinct(KeysIn(b)) && n in Listed(b) && IsListed(b, place) && place.path == n.path
    ensures place == L.PlaceOf(n)
  {
    hide Listed;
    var m :| m in Listed(b) && L.PlaceOf(m) == place;
    var i, j :| 0 <= i < |Listed(b)| && 0 <= j < |Listed(b)| && Listed(b)[i] == n && Listed(b)[j] == m;
    assert KeysIn(b)[i].path == KeysIn(b)[j].path;
  }

  lemma RootIsListed(b: Base)
    requires EveryWalkIsListed(b)
    ensures IsListed(b, PlaceOfRoot(b))
  {
    hide Listed, IsListed;
    assert L.Walk(b.hive, PlaceOfRoot(b), []) == Some(PlaceOfRoot(b));
  }

  lemma AnswerIsListed(b: Base, target: string, place: L.Place)
    requires EveryWalkIsListed(b) && L.IsAnswer(b.hive, PlaceOfRoot(b), target, place)
    ensures IsListed(b, place)
  {
    hide Listed, L.Walk, L.IsFirstParent, L.Kid, IsListed, L.OnTheWay;
    var p := PlaceOfRoot(b);
    var px, j :| L.IsFirstParent(b.hive, p, target, px) && L.IsAnswerAt(b.hive, p, target, px, j, place);
    L.WalkLast(b.hive, p, px, j);
  }

  // ----- Trees -----

  /** No key is a sub key twice, and the root is nobody's. */
  ghost predicate IsTree(b: Base) {
    && (forall o: nat, k: nat, p: nat, l: nat {:trigger L.HasKid(b.hive, o, k), L.HasKid(b.hive, p, l)} ::
          L.HasKid(b.hive, o, k) && L.HasKid(b.hive, p, l) && F.KidsOf(b.hive, o)[k] == F.KidsOf(b.hive, p)[l] ==>
            o == p && k == l)
    && forall o: nat, k: nat :: L.HasKid(b.hive, o, k) ==> F.KidsOf(b.hive, o)[k] != b.root
  }

  /** The place is the end of some walk from the root. */
  ghost predicate IsWalk(b: Base, place: L.Place) {
    exists ix :: L.Walk(b.hive, PlaceOfRoot(b), ix) == Some(place)
  }

  lemma WalkOn(b: Base, place: L.Place, k: nat)
    requires IsWalk(b, place) && L.HasKid(b.hive, place.offset, k)
    ensures IsWalk(b, L.Kid(b.hive, place, k))
  {
    hide L.Kid;
    var ix :| L.Walk(b.hive, PlaceOfRoot(b), ix) == Some(place);
    L.WalkLast(b.hive, PlaceOfRoot(b), ix, k);
  }

  /** What reading sub keys returns are sub keys. */
  lemma {:induction false} ReadAreKids(h: F.Hive, q: Option<F.Query>, parent: F.Node, i: nat, cache: nat, n: F.Node)
    requires i <= |F.KidsOf(h, parent.offset)|
    requires n in F.ReadSubKeys(h, q, parent, F.KidsOf(h, parent.offset)[i..], cache).nodes
    ensures exists k :: L.HasKid(h, parent.offset, k) && L.PlaceOf(n) == L.Kid(h, L.PlaceOf(parent), k)
    decreases |F.KidsOf(h, parent.offset)| - i
  {
    hide F.CheckCell, F.StateOf;
    var kids := F.KidsOf(h, parent.offset);
    assert kids[i..][0] == kids[i] && kids[i..][1..] == kids[i + 1..];
    var path := parent.path + [SLASH] + if kids[i] in h then h[kids[i]].name else [];
    if kids[i] in h && L.PlaceOf(n) == L.Place(kids[i], path) {
      assert L.PlaceOf(n) == L.Kid(h, L.PlaceOf(parent), i);
    } else {
      var cache' := if kids[i] in h then F.CheckCell(q, parent, h[kids[i]].isHiveEntry, path, cache).cache else cache;
      ReadAreKids(h, q, parent, i + 1, cache', n);
    }
  }

  /** Whatever iteration returns was walked to. */
  lemma {:induction false} IteratedAreWalks(b: Base, todo: seq<F.Node>, seen: set<nat>, cache: nat, n: F.Node)
    requires forall m :: m in todo ==> IsWalk(b, L.PlaceOf(m))
    requires n in I.FilteredPreorder(b.hive, None, false, todo, seen, cache)
    ensures IsWalk(b, L.PlaceOf(n))
    decreases T.Universe(I.GraphOf(b.hive)) - seen, |todo|
  {
    hide F.ReadSubKeys, I.NewNodes, I.GraphOf, IsWalk, T.Universe, I.FilteredPreorder, F.KidsOf;
    if todo == [] {
      I.PreorderEnds(b.hive, None, false, seen, cache);
    } else if n != todo[0] {
      var h := b.hive;
      I.PreorderPop(h, None, false, todo, seen, cache);
      var read := I.ReadNode(h, None, todo[0], cache);
      var pushed := I.NewNodes(read.nodes, seen);
      I.NewAreInUniverse(h, None, todo[0], cache, seen);
      forall m | m in pushed + todo[1..]
        ensures IsWalk(b, L.PlaceOf(m))
      {
        if m in pushed {
          assert F.KidsOf(h, todo[0].offset)[0..] == F.KidsOf(h, todo[0].offset);
          ReadAreKids(h, None, todo[0], 0, cache, m);
          var k :| L.HasKid(h, todo[0].offset, k) && L.PlaceOf(m) == L.Kid(h, L.PlaceOf(todo[0]), k);
          WalkOn(b, L.PlaceOf(todo[0]), k);
        }
      }
      IteratedAreWalks(b, pushed + todo[1..], seen + T.ToSet(I.Offsets(pushed)), read.cache, n);
    }
  }

  lemma ListedAreWalks(b: Base, n: F.Node)
    requires n in Listed(b)
    ensures IsWalk(b, L.PlaceOf(n))
  {
    hide I.FilteredPreorder;
    assert L.Walk(b.hive, PlaceOfRoot(b), []) == Some(L.PlaceOf(Root(b)));
    IteratedAreWalks(b, [Root(b)], {b.root}, 0, n);
  }

  /** In a tree only one walk leads to a key. */
  lemma {:induction false} UniqueWalk(b: Base, ix: seq<nat>, jx: seq<nat>)
    requires IsTree(b)
    requires L.Walk(b.hive, PlaceOfRoot(b), ix).Some? && L.Walk(b.hive, PlaceOfRoot(b), jx).Some?
    requires L.Walk(b.hive, PlaceOfRoot(b), ix).value.offset == L.Walk(b.hive, PlaceOfRoot(b), jx).value.offset
    ensures ix == jx
    decreases |ix|
  {
    hide F.KidsOf;
    var h, p := b.hive, PlaceOfRoot(b);
    if ix != [] { LastStep(h, p, ix); }
    if jx != [] { LastStep(h, p, jx); }
    if ix != [] && jx != [] {
      UniqueWalk(b, ix[..|ix| - 1], jx[..|jx| - 1]);
    }
  }

  lemma LastStep(h: F.Hive, p: L.Place, ix: seq<nat>)
    requires ix != [] && L.Walk(h, p, ix).Some?
    ensures var front, m := ix[..|ix| - 1], ix[|ix| - 1];
            && ix == front + [m] && L.Walk(h, p, front).Some?
            && L.HasKid(h, L.Walk(h, p, front).value.offset, m)
            && L.Walk(h, p, ix).value == L.Kid(h, L.Walk(h, p, front).value, m)
  {
    hide L.Kid;
    var front, m := ix[..|ix| - 1], ix[|ix| - 1];
    assert ix == front + [m];
    L.WalkLast(h, p, front, m);
  }

  lemma {:induction false} WalkIsReachable(b: Base, ix: seq<nat>)
    requires L.Walk(b.hive, PlaceOfRoot(b), ix).Some?
    ensures T.Reachable(I.GraphOf(b.hive), b.root, L.Walk(b.hive, PlaceOfRoot(b), ix).value.offset)
    decreases |ix|
  {
    hide T.Reachable, I.GraphOf;
    if ix == [] {
      T.ReachSelf(I.GraphOf(b.hive), b.root);
    } else {
      var front := ix[..|ix| - 1];
      LastStep(b.hive, PlaceOfRoot(b), ix);
      WalkIsReachable(b, front);
      var o := L.Walk(b.hive, PlaceOfRoot(b), front).value.offset;
      I.GraphKids(b.hive, o);
      T.ReachStep(I.GraphOf(b.hive), b.root, o, F.KidsOf(b.hive, o)[ix[|ix| - 1]]);
    }
  }

  /** In a tree, iteration returns every key with the path of its walk. */
  lemma TreeIsListed(b: Base)
    requires IsTree(b)
    ensures EveryWalkIsListed(b)
  {
    hide IsTree, I.FilteredPreorder, T.Reachable, T.Preorder, L.Walk;
    var h, p, g := b.hive, PlaceOfRoot(b), I.GraphOf(b.hive);
    I.UnfilteredPreorder(h, false, [Root(b)], {b.root}, 0);
    assert I.Offsets([Root(b)]) == [b.root];
    T.PreorderVisitsReachable(g, b.root);
    forall ix | L.Walk(h, p, ix).Some?
      ensures IsListed(b, L.Walk(h, p, ix).value)
    {
      WalkIsReachable(b, ix);
      var o := L.Walk(h, p, ix).value.offset;
      assert o in I.Offsets(Listed(b));
      var i :| 0 <= i < |Listed(b)| && Listed(b)[i].offset == o;
      var n := Listed(b)[i];
      ListedAreWalks(b, n);
      var jx :| L.Walk(h, p, jx) == Some(L.PlaceOf(n));
      UniqueWalk(b, ix, jx);
    }
  }

  // ----- Names without backslashes -----

  ghost predicate PlainNames(b: Base) {
    forall o :: o in b.hive ==> Plain(b.hive[o].name) && b.hive[o].name != []
  }

  /** A path below another: a backslash, and something that does not end in one. */
  lemma {:induction false} PathBelow(b: Base, p: L.Place, ix: seq<nat>) returns (rest: string)
    requires PlainNames(b) && ix != [] && L.Walk(b.hive, p, ix).Some?
    ensures L.Walk(b.hive, p, ix).value.path == p.path + [SLASH] + rest && rest != [] && rest[|rest| - 1] != SLASH
    decreases |ix|
  {
    var name := b.hive[F.KidsOf(b.hive, p.offset)[ix[0]]].name;
    var kid := L.Kid(b.hive, p, ix[0]);
    if |ix| == 1 {
      rest := name;
    } else {
      rest := PathBelow(b, kid, ix[1..]);
      assert kid.path + [SLASH] + rest == p.path + [SLASH] + (name + [SLASH] + rest);
      rest := name + [SLASH] + rest;
    }
  }

  /** A path that is looked up is searched for as it is. */
  lemma RequestIsPath(b: Base, ix: seq<nat>)
    requires PlainNames(b) && L.Walk(b.hive, PlaceOfRoot(b), ix).Some?
    ensures var path := L.Walk(b.hive, PlaceOfRoot(b), ix).value.path;
            if ix == [] then L.BelowRoot(path, true) == []
            else L.BelowRoot(path, true) != [] && L.Request(Root(b).path, path, true) == path
  {
    hide L.Walk, L.Request, L.BelowRoot;
    var name := b.hive[b.root].name;
    if ix == [] {
      L.WalkNowhere(b.hive, PlaceOfRoot(b));
      L.RootRequest(name);
    } else {
      var rest := PathBelow(b, PlaceOfRoot(b), ix);
      L.PathRequest(name, rest);
    }
  }

  /** Listed keys whose paths differ only in case are the same, if names differ in more than case. */
  lemma SameKey(b: Base, n: F.Node, place: L.Place)
    requires CaseDistinct(KeysIn(b)) && n in Listed(b) && IsListed(b, place) && L.Same(place.path, n.path)
    ensures place == L.PlaceOf(n)
  {
    hide Listed, Lower;
    var m :| m in Listed(b) && L.PlaceOf(m) == place;
    var i, j :| 0 <= i < |Listed(b)| && 0 <= j < |Listed(b)| && Listed(b)[i] == n && Listed(b)[j] == m;
    assert Lower(KeysIn(b)[i].path) == Lower(KeysIn(b)[j].path);
  }

  /** With names that differ in more than case, a lookup of a key's path answers with that key. */
  lemma PlainIsAnswered(b: Base, n: F.Node)
    requires PlainNames(b) && EveryWalkIsListed(b) && CaseDistinct(KeysIn(b)) && n in Listed(b)
    ensures Answers(b, n.path, L.PlaceOf(n)) && ReadsValues(b, n.path)
  {
    hide Listed, L.Walk, L.Request, L.BelowRoot, L.Search, L.QueryFor, IsListed, CaseDistinct, L.IsAnswer, Lower;
    var h, p := b.hive, PlaceOfRoot(b);
    ListedAreWalks(b, n);
    var ix :| L.Walk(h, p, ix) == Some(L.PlaceOf(n));
    RequestIsPath(b, ix);
    if ix == [] {
      L.WalkNowhere(h, p);
    } else {
      assert L.Leads(h, p, n.path, ix);
      L.PlainLookup(h, Root(b), n.path, true);
      var m := L.Search(h, L.QueryFor(n.path), Root(b)).value;
      var jx :| L.IsFirst(h, p, n.path, jx) && L.Walk(h, p, jx) == Some(L.PlaceOf(m));
      SameKey(b, n, L.PlaceOf(m));
      L.SearchGives(h, Root(b), n.path, L.PlaceOf(n));
    }
  }

  lemma CaseDistinctIsFindable(b: Base, n: F.Node)
    requires PlainNames(b) && EveryWalkIsListed(b) && CaseDistinct(KeysIn(b)) && n in Listed(b)
    ensures Findable(b, n)
  {
    hide Listed, Answers, ReadsValues, Lower, EveryWalkIsListed, PlainNames;
    PlainIsAnswered(b, n);
    var values := ValuesAt(b, n);
    KeyIsIn(b, n);
    forall v | v in values
      ensures IsFirstNamed(values, v)
    {
      var i :| 0 <= i < |values| && values[i] == v;
      assert IsFirstAt(values, v, i);
    }
    assert HasItemsOf(b, L.PlaceOf(n), n);
  }

  lemma KeyIsIn(b: Base, n: F.Node)
    requires n in Listed(b)
    ensures KeyAt(b, n) in KeysIn(b)
  {
    hide Listed;
    var i :| 0 <= i < |Listed(b)| && Listed(b)[i] == n;
    assert KeysIn(b)[i] == KeyAt(b, n);
  }

  /** Two findable keys whose paths differ only in case have the same path. */
  lemma FindableAreDistinct(b: Base, n: F.Node, m: F.Node)
    requires PlainNames(b) && n in Listed(b) && m in Listed(b)
    requires Findable(b, n) && Findable(b, m) && L.Same(n.path, m.path)
    ensures n.path == m.path
  {
    hide Listed, L.Walk, L.Request, L.BelowRoot, L.Search, L.QueryFor, L.IsAnswer, Lower;
    var h, p := b.hive, PlaceOfRoot(b);
    ListedAreWalks(b, n);
    ListedAreWalks(b, m);
    var ix, jx :| L.Walk(h, p, ix) == Some(L.PlaceOf(n)) && L.Walk(h, p, jx) == Some(L.PlaceOf(m));
    RequestIsPath(b, ix);
    RequestIsPath(b, jx);
    SameLength(n.path, m.path);
    L.WalkIsLonger(h, p, ix);
    L.WalkIsLonger(h, p, jx);
    L.WalkNowhere(h, p);
    if ix != [] && jx != [] {
      var x :| Answers(b, n.path, x) && HasItemsOf(b, x, n);
      var y :| Answers(b, m.path, y) && HasItemsOf(b, y, m);
      L.SameQuery(n.path, m.path);
      L.SearchGives(h, Root(b), n.path, x);
      L.SearchGives(h, Root(b), m.path, y);
    }
  }

  lemma SameLength(a: string, c: string)
    requires L.Same(a, c)
    ensures |a| == |c|
  {
    assert |Lower(a)| == |a| && |Lower(c)| == |c|;
  }

  /** In a tree, the values of a findable key differ in more than case. */
  lemma FindableValuesDiffer(b: Base, n: F.Node, i: nat, j: nat)
    requires NamesDistinct(KeysIn(b)) && EveryWalkIsListed(b) && n in Listed(b) && Findable(b, n)
    requires i < j < |ValuesAt(b, n)|
    ensures Lower(ValuesAt(b, n)[i].name) != Lower(ValuesAt(b, n)[j].name)
  {
    hide Listed, L.Request, L.BelowRoot, L.IsAnswer, Lower, EveryWalkIsListed, IsListed, ReadsValues, NamesDistinct;
    var values := ValuesAt(b, n);
    var place :| Answers(b, n.path, place) && HasItemsOf(b, place, n);
    if L.BelowRoot(n.path, true) == [] {
      RootIsListed(b);
    } else {
      AnswerIsListed(b, L.Request(Root(b).path, n.path, true), place);
    }
    SamePath(b, n, place);
    assert values[j] in values;
    var f :| IsFirstAt(values, values[j], f);
    KeyIsIn(b, n);
    OneName(b, KeyAt(b, n), f, j);
  }

  lemma OneName(b: Base, k: Key, f: nat, j: nat)
    requires NamesDistinct(KeysIn(b)) && k in KeysIn(b) && f < |k.values| && j < |k.values| && k.values[f] == k.values[j]
    ensures f == j
  {
    hide KeysIn;
  }

  /** In a tree whose names are distinct, hold no backslash and are not empty, all comparisons are exact if and only if
      names differ in more than case. */
  lemma ExactIfCaseDistinct(b: Base)
    requires IsTree(b) && PlainNames(b) && NamesDistinct(KeysIn(b))
    ensures AlwaysExact(b) <==> CaseDistinct(KeysIn(b))
  {
    hide IsTree, PlainNames, EveryWalkIsListed, Listed, AlwaysExact, Findable, Lower, NamesDistinct;
    TreeIsListed(b);
    ExactIfSearchable(b);
    var keys := KeysIn(b);
    assert forall i :: 0 <= i < |keys| ==> keys[i] == KeyAt(b, Listed(b)[i]) && Listed(b)[i] in Listed(b);
    if CaseDistinct(keys) {
      forall n | n in Listed(b)
        ensures Findable(b, n)
      {
        CaseDistinctIsFindable(b, n);
      }
    }
    if Searchable(b) {
      forall i, j | 0 <= i < j < |keys|
        ensures Lower(keys[i].path) != Lower(keys[j].path)
      {
        PathsDiffer(b, i, j);
      }
      forall k, i, j | k in keys && 0 <= i < j < |k.values|
        ensures Lower(k.values[i].name) != Lower(k.values[j].name)
      {
        var l :| 0 <= l < |keys| && keys[l] == k;
        FindableValuesDiffer(b, Listed(b)[l], i, j);
      }
    }
  }

  lemma PathsDiffer(b: Base, i: nat, j: nat)
    requires PlainNames(b) && NamesDistinct(KeysIn(b)) && i < j < |Listed(b)| && Searchable(b)
    ensures Lower(KeysIn(b)[i].path) != Lower(KeysIn(b)[j].path)
  {
    hide PlainNames, Listed, Findable, Lower;
    var n, m := Listed(b)[i], Listed(b)[j];
    if L.Same(n.path, m.path) { FindableAreDistinct(b, n, m); }
    assert KeysIn(b)[i].path != KeysIn(b)[j].path;
  }

  /** For a searchable base hive the six lists turn the one map into the other, are disjoint, and are empty if and only
      if the two hives have the same items with the same hashes. */
  lemma ComparisonIsADiff(b: Base, comparison: seq<Key>, r: Option<Lists>)
    requires IsComparison(b, comparison, r) && Searchable(b) && Distinct(Items(comparison))
    ensures var m, c := MapOf(Items(KeysIn(b))), MapOf(Items(comparison));
            && r.Some? && Patch(m, r.value) == c && (r.value == NO_LISTS <==> m == c)
            && KeysOf(r.value.keysDeleted) !! KeysOf(r.value.keysAdded) !! KeysOf(Currents(r.value.keysModified))
            !! KeysOf(r.value.valuesDeleted) !! KeysOf(r.value.valuesAdded) !! KeysOf(Currents(r.value.valuesModified))
  {
    ComparisonIsExact(b, comparison, r);
    var m, s := MapOf(Items(KeysIn(b))), Items(comparison);
    hide *;
    PatchGivesComparison(m, s, r.value);
    EmptyWhenEqual(m, s, r.value);
    ListsAreDisjoint(m, s, r.value);
  }

  // ----- Hives on which the comparison goes wrong -----

  /** A root with two sub keys that have none themselves, and no values. */
  function TwoKeys(first: string, second: string): Base {
    BaseData(map[0 := F.Key("r", true, [1, 2]), 1 := F.Key(first, false, []), 2 := F.Key(second, false, [])], 0,
             (o: nat) => Content(o, []))
  }

  lemma TwoKeysIsTree(first: string, second: string)
    ensures var b := TwoKeys(first, second);
            && IsTree(b)
            && F.KidsOf(b.hive, 0) == [1, 2] && F.KidsOf(b.hive, 1) == [] && F.KidsOf(b.hive, 2) == []
            && L.HasKid(b.hive, 0, 0) && L.HasKid(b.hive, 0, 1)
            && Root(b) == F.Node(0, "\\r", None)
            && L.Kid(b.hive, PlaceOfRoot(b), 0) == L.Place(1, "\\r\\" + first)
            && L.Kid(b.hive, PlaceOfRoot(b), 1) == L.Place(2, "\\r\\" + second)
  {
    assert [SLASH] + "r" == "\\r" && "\\r" + [SLASH] == "\\r\\";
  }

  /** The keys that iterating over such a hive returns. */
  lemma TwoKeysListed(first: string, second: string)
    ensures var b := TwoKeys(first, second);
            && IsListed(b, L.Place(2, "\\r\\" + second))
            && forall n :: n in Listed(b) ==>
                 L.PlaceOf(n) in {L.Place(0, "\\r"), L.Place(1, "\\r\\" + first), L.Place(2, "\\r\\" + second)}
  {
    var b := TwoKeys(first, second);
    TwoKeysIsTree(first, second);
    hide TwoKeys, Listed, IsTree, L.Kid, IsListed, F.KidsOf, Root;
    TreeIsListed(b);
    var h, p := b.hive, PlaceOfRoot(b);
    assert [1 as nat][1..] == [];
    L.WalkNowhere(h, L.Kid(h, p, 1));
    assert L.Walk(h, p, [1]) == Some(L.Kid(h, p, 1));
    forall n | n in Listed(b)
      ensures L.PlaceOf(n) in {p, L.Kid(h, p, 0), L.Kid(h, p, 1)}
    {
      ListedAreWalks(b, n);
      var ix :| L.Walk(h, p, ix) == Some(L.PlaceOf(n));
      if ix != [] {
        assert L.Walk(h, p, ix) == L.Walk(h, L.Kid(h, p, ix[0]), ix[1..]);
        assert ix[1..] == [];
      }
    }
  }

  lemma FindsPlace(b: Base, path: string, place: L.Place)
    requires L.BelowRoot(path, true) != []
    requires L.IsAnswer(b.hive, PlaceOfRoot(b), L.Request(Root(b).path, path, true), place)
    ensures FindItem(b, ItemKey(path, None)) == Some(Item(ItemKey(place.path, None), b.content(place.offset).hash))
  {
    hide L.Search, L.IsAnswer, L.BelowRoot, L.Request, L.QueryFor, L.Same;
    L.SearchGives(b.hive, Root(b), L.Request(Root(b).path, path, true), place);
  }

  /** The deletions that are listed when a hive of two keys, the first on the way to the second, is compared with an
      empty one: the second key is not among them. */
  lemma SecondIsMissed(first: string, second: string, r: Option<Lists>)
    requires first != [] && first[|first| - 1] != SLASH && second != [] && second[|second| - 1] != SLASH
    requires first != second && L.OnTheWay("\\r\\" + first, "\\r\\" + second)
    requires IsComparison(TwoKeys(first, second), [], r)
    ensures var b, missed := TwoKeys(first, second), Item(ItemKey("\\r\\" + second, None), 2);
            && FindItem(b, missed.key) == Some(Item(ItemKey("\\r\\" + first, None), 1))
            && missed in Items(KeysIn(b)) && r.Some? && missed !in r.value.keysDeleted
  {
    var b := TwoKeys(first, second);
    TwoKeysIsTree(first, second);
    TwoKeysListed(first, second);
    NoValues(first, second);
    hide TwoKeys, IsTree, F.KidsOf, Listed, Items, FindItem, IsComparison, L.Kid, Root, L.OnTheWay, L.IsAnswer, L.BelowRoot, L.Request;
    var h, p, missed := b.hive, PlaceOfRoot(b), Item(ItemKey("\\r\\" + second, None), 2);
    RootIsFound(b);
    L.CheckIs("\\r\\" + first, "\\r\\" + first);
    assert L.Matches(h, p, "\\r\\" + first, 0) && L.Matches(h, p, "\\r\\" + second, 1);
    SubKeyIsFound(b, first, first);
    SubKeyIsFound(b, first, second);
    var n :| n in Listed(b) && L.PlaceOf(n) == L.Place(2, "\\r\\" + second);
    ItemsOfNode(b, n);
    assert KeyItem(KeyAt(b, n)) == missed;
    forall k | k in KeysOf(Items(KeysIn(b)))
      ensures FindItem(b, k).Some? && FindItem(b, k) != Some(missed)
    {
      var item :| item in Items(KeysIn(b)) && item.key == k;
      var m := NodeOfItem(b, item);
      assert k == ItemKey(m.path, None);
    }
    MissingDeletion(b, r, missed);
  }

  lemma NoValues(first: string, second: string)
    ensures forall o: nat :: TwoKeys(first, second).content(o) == Content(o, [])
  {
  }

  lemma RootIsFound(b: Base)
    requires Root(b) == F.Node(0, "\\r", None)
    ensures FindItem(b, ItemKey("\\r", None)) == Some(Item(ItemKey("\\r", None), b.content(0).hash))
  {
    hide L.BelowRoot, L.Search, L.Request;
    L.RootRequest("r");
    assert [SLASH] + "r" == "\\r";
  }

  /** Whichever of the two keys is asked for, the answer is the first. */
  lemma SubKeyIsFound(b: Base, first: string, name: string)
    requires Root(b) == F.Node(0, "\\r", None) && name != [] && name[|name| - 1] != SLASH
    requires L.HasKid(b.hive, 0, 0) && L.Kid(b.hive, PlaceOfRoot(b), 0) == L.Place(1, "\\r\\" + first)
    requires L.HasMatch(b.hive, PlaceOfRoot(b), "\\r\\" + name) && L.OnTheWay("\\r\\" + first, "\\r\\" + name)
    ensures FindItem(b, ItemKey("\\r\\" + name, None)) == Some(Item(ItemKey("\\r\\" + first, None), b.content(1).hash))
  {
    hide L.OnTheWay, L.Kid, L.HasMatch, L.BelowRoot, L.Request, L.IsAnswer, FindItem;
    var path := "\\r\\" + name;
    L.PathRequest("r", name);
    assert [SLASH] + "r" + [SLASH] + name == path && [SLASH] + "r" == "\\r";
    L.FirstSubKeyAnswers(b.hive, PlaceOfRoot(b), path, 0);
    FindsPlace(b, path, L.Place(1, "\\r\\" + first));
  }

  /** Two sub keys whose names differ only in case: `\r\A` is listed as deleted for `\r\a`, which is missing. */
  lemma CaseVariants(r: Option<Lists>)
    requires IsComparison(TwoKeys("A", "a"), [], r)
    ensures var b, missed := TwoKeys("A", "a"), Item(ItemKey("\\r\\a", None), 2);
            && FindItem(b, missed.key) == Some(Item(ItemKey("\\r\\A", None), 1))
            && missed in Items(KeysIn(b)) && r.Some? && missed !in r.value.keysDeleted
  {
    hide TwoKeys, FindItem, IsComparison, Items, KeysIn;
    assert Lower("\\r\\A") == Lower("\\r\\a");
    L.CheckIs("\\r\\a", "\\r\\A");
    assert "\\r\\" + "A" == "\\r\\A" && "\\r\\" + "a" == "\\r\\a";
    SecondIsMissed("A", "a", r);
  }

  /** A sub key named `a\b` behind one named `a`: the names differ in more than case, and still `\r\a` is listed as
      deleted for `\r\a\b`, which is missing. */
  lemma BackslashVariants(r: Option<Lists>)
    requires IsComparison(TwoKeys("a", "a\\b"), [], r)
    ensures var b, missed := TwoKeys("a", "a\\b"), Item(ItemKey("\\r\\a\\b", None), 2);
            && CaseDistinct(KeysIn(b))
            && FindItem(b, missed.key) == Some(Item(ItemKey("\\r\\a", None), 1))
            && missed in Items(KeysIn(b)) && r.Some? && missed !in r.value.keysDeleted
  {
    hide TwoKeys, FindItem, IsComparison, Items, KeysIn;
    L.KidSegments("\\r\\a", "b");
    assert "\\r\\a" + [SLASH] + "b" == "\\r\\a\\b";
    assert "\\r\\" + "a" == "\\r\\a" && "\\r\\" + "a\\b" == "\\r\\a\\b";
    SecondIsMissed("a", "a\\b", r);
    DifferentLengths("a", "a\\b");
  }

  lemma DifferentLengths(first: string, second: string)
    requires first != [] && second != [] && |first| != |second|
    ensures CaseDistinct(KeysIn(TwoKeys(first, second)))
  {
    var b := TwoKeys(first, second);
    TwoKeysListed(first, second);
    NoValues(first, second);
    hide TwoKeys, Listed, Lower;
    var nodes := Listed(b);
    forall i, j | 0 <= i < j < |nodes|
      ensures Lower(nodes[i].path) != Lower(nodes[j].path)
    {
      OffsetsDiffer(b, i, j);
      assert L.PlaceOf(nodes[i]) != L.PlaceOf(nodes[j]);
      if L.Same(nodes[i].path, nodes[j].path) { SameLength(nodes[i].path, nodes[j].path); }
    }
  }

  /** Iteration returns no key twice. */
  lemma OffsetsDiffer(b: Base, i: nat, j: nat)
    requires i < j < |Listed(b)|
    ensures Listed(b)[i].offset != Listed(b)[j].offset
  {
    hide I.FilteredPreorder, T.Preorder;
    I.UnfilteredPreorder(b.hive, false, [Root(b)], {b.root}, 0);
    assert I.Offsets([Root(b)]) == [b.root];
    T.PreorderVisitsReachable(I.GraphOf(b.hive), b.root);
    assert I.Offsets(Listed(b))[i] == Listed(b)[i].offset && I.Offsets(Listed(b))[j] == Listed(b)[j].offset;
  }
}
