/** Filtered preorder iteration over a hive that is a tree: pruning returns what filtering the full preorder would. */
module FilteredTree {
  import opened Common
  import opened Paths
  import opened Filtering
  import opened Iteration
  import T = Traversal

  // ----- The unpruned reference -----

  /** A key of the full preorder with the names from the root down to it. */
  datatype Entry = Entry(offset: nat, names: seq<string>)

  function NameAt(h: Hive, o: nat): string {
    if o in h then h[o].name else []
  }

  /** The full preorder of the trees, below keys named `above`. */
  function Lineages(h: Hive, above: seq<string>, ts: seq<T.Tree>): seq<Entry>
    decreases ts
  {
    if ts == [] then []
    else
      var names := above + [NameAt(h, ts[0].offset)];
      [Entry(ts[0].offset, names)] + Lineages(h, names, ts[0].kids) + Lineages(h, above, ts[1..])
  }

  /** The part of a key's lineage that a query is compared with. */
  function Segments(q: Query, names: seq<string>): seq<string>
    requires names != []
  {
    if q.keyPathHasRoot then [[]] + names else names[1..]
  }

  /** The key, below the root, matches the whole query. */
  predicate MatchesExactly(q: Query, names: seq<string>) {
    |names| >= 2 && |Segments(q, names)| == |q.keyPath| && Prefixes(q.keyPath, Segments(q, names))
  }

  /** Some key above it, below the root, matches the whole query. */
  ghost predicate MatchesAbove(q: Query, names: seq<string>) {
    exists j :: 0 <= j < |names| && MatchesExactly(q, names[..j])
  }

  /** What filtering asks for: exact matches, their descendants if requested, and with ancestors included also the
      root and every key on the way to a possible match. */
  ghost predicate Wanted(q: Query, includeAncestors: bool, names: seq<string>)
    requires names != []
  {
    || MatchesExactly(q, names)
    || (q.children && MatchesAbove(q, names))
    || (includeAncestors && (|names| == 1 || Prefixes(q.keyPath, Segments(q, names))))
  }

  ghost function Keep(q: Query, a: bool, es: seq<Entry>): seq<nat>
    requires forall e :: e in es ==> e.names != []
  {
    if es == [] then []
    else (if Wanted(q, a, es[0].names) then [es[0].offset] else []) + Keep(q, a, es[1..])
  }

  lemma {:induction false} KeepConcat(q: Query, a: bool, es: seq<Entry>, fs: seq<Entry>)
    requires forall e :: e in es + fs ==> e.names != []
    ensures forall e :: e in es ==> e in es + fs
    ensures forall e :: e in fs ==> e in es + fs
    ensures Keep(q, a, es + fs) == Keep(q, a, es) + Keep(q, a, fs)
    decreases |es|
  {
    hide Wanted;
    if es == [] {
      assert es + fs == fs;
    } else {
      assert (es + fs)[1..] == es[1..] + fs;
      KeepConcat(q, a, es[1..], fs);
    }
  }

  lemma {:induction false} LineagesAreNamed(h: Hive, above: seq<string>, ts: seq<T.Tree>)
    ensures forall e :: e in Lineages(h, above, ts) ==> above < e.names
    decreases ts
  {
    if ts != [] {
      LineagesAreNamed(h, above + [NameAt(h, ts[0].offset)], ts[0].kids);
      LineagesAreNamed(h, above, ts[1..]);
    }
  }

  function EntryOffsets(es: seq<Entry>): (r: seq<nat>)
    ensures |r| == |es| && forall i :: 0 <= i < |r| ==> r[i] == es[i].offset
  {
    seq(|es|, i requires 0 <= i < |es| => es[i].offset)
  }

  /** The reference lists exactly the textbook preorder. */
  lemma {:induction false} LineagesArePreorder(h: Hive, above: seq<string>, ts: seq<T.Tree>)
    ensures EntryOffsets(Lineages(h, above, ts)) == T.ForestPreorder(ts)
    decreases ts
  {
    if ts != [] {
      var names := above + [NameAt(h, ts[0].offset)];
      LineagesArePreorder(h, names, ts[0].kids);
      LineagesArePreorder(h, above, ts[1..]);
      var first, below, rest := [Entry(ts[0].offset, names)], Lineages(h, names, ts[0].kids), Lineages(h, above, ts[1..]);
      assert EntryOffsets(first + below + rest) == [ts[0].offset] + EntryOffsets(below) + EntryOffsets(rest);
    }
  }

  // ----- Tree-shaped hives -----

  /** The hive holds the trees; names have no backslash, and no key below the root is flagged as hive entry. */
  ghost predicate Holds(h: Hive, ts: seq<T.Tree>)
    decreases ts
  {
    ts == [] ||
    (&& ts[0].offset in h && h[ts[0].offset].kids == T.Roots(ts[0].kids)
     && Plain(h[ts[0].offset].name) && !h[ts[0].offset].isHiveEntry
     && Holds(h, ts[0].kids) && Holds(h, ts[1..]))
  }

  /** The sub key as the filter reads it, whatever the cache holds. */
  function KidNode(q: Query, parent: Node, names: seq<string>, o: nat): Option<Node>
    requires names != []
  {
    var flags := if IsMatchOrDescendent(parent) && q.children then Iterate else CheckSegments(q.keyPath, Segments(q, names));
    if flags == NoMatch then None else Some(Node(o, PathOf(names), StateOf(Some(q), parent, flags)))
  }

  ghost predicate GoodCache(cache: nat, names: seq<string>)
    requires names != []
  {
    cache == 0 || cache == |names[0]| + 2
  }

  lemma LowerSegments(q: Query, names: seq<string>)
    requires names != []
    ensures CheckSegments(q.keyPath, Segments(q, LowerAll(names))) == CheckSegments(q.keyPath, Segments(q, names))
  {
    var s, t := Segments(q, names), Segments(q, LowerAll(names));
    forall i | 0 <= i < |s|
      ensures Lower(t[i]) == Lower(s[i])
    {
      LowerLaws(s[i], []);
    }
  }

  /** The string-level check of a sub key compares its segments, and keeps the cache right. */
  lemma CheckOfKid(q: Query, parent: Node, above: seq<string>, name: string, cache: nat)
    requires above != [] && AllPlain(above) && Plain(name) && parent.path == PathOf(above) && GoodCache(cache, above)
    ensures var names := above + [name];
            var path := parent.path + [SLASH] + name;
            var check := CheckCell(Some(q), parent, false, path, cache);
            && path == PathOf(names)
            && GoodCache(check.cache, above)
            && check.flags == if IsMatchOrDescendent(parent) && q.children then Iterate
                              else CheckSegments(q.keyPath, Segments(q, names))
  {
    hide CheckSegments, PathOf, Split, RootPathOffset, Lower;
    var names := above + [name];
    PathOfChild(above, name);
    LowerPath(names);
    LowerKeepsPlain(names);
    RootIsStripped(LowerAll(names));
    SplitPath(LowerAll(names));
    LowerSegments(q, names);
    assert |LowerAll(names)[0]| == |above[0]|;
  }

  /** The sub keys that pass, one tree at a time. */
  function Passing(h: Hive, q: Query, parent: Node, above: seq<string>, ts: seq<T.Tree>): (r: seq<Node>)
    ensures forall n :: n in r ==> n.offset in T.Roots(ts)
  {
    if ts == [] then []
    else
      var rest := Passing(h, q, parent, above, ts[1..]);
      assert T.Roots(ts) == [ts[0].offset] + T.Roots(ts[1..]);
      match KidNode(q, parent, above + [NameAt(h, ts[0].offset)], ts[0].offset)
      case None => rest
      case Some(n) => [n] + rest
  }

  lemma {:induction false} ReadIsPassing(h: Hive, q: Query, parent: Node, above: seq<string>, ts: seq<T.Tree>, cache: nat)
    requires above != [] && AllPlain(above) && parent.path == PathOf(above) && GoodCache(cache, above) && Holds(h, ts)
    ensures var r := ReadSubKeys(h, Some(q), parent, T.Roots(ts), cache);
            r.nodes == Passing(h, q, parent, above, ts) && GoodCache(r.cache, above)
    decreases |ts|
  {
    hide CheckSegments, CheckCell, PathOf, Segments, StateOf;
    if ts != [] {
      var o := ts[0].offset;
      assert T.Roots(ts)[0] == o && T.Roots(ts)[1..] == T.Roots(ts[1..]);
      CheckOfKid(q, parent, above, h[o].name, cache);
      var check := CheckCell(Some(q), parent, false, parent.path + [SLASH] + h[o].name, cache);
      ReadIsPassing(h, q, parent, above, ts[1..], check.cache);
    }
  }

  // ----- The iterator is a pruned recursion -----

  /** The offsets that a drain with query `q` returns. */
  function Run(h: Hive, q: Query, a: bool, todo: seq<Node>, seen: set<nat>, cache: nat): seq<nat> {
    Offsets(FilteredPreorder(h, Some(q), a, todo, seen, cache))
  }

  function Emitted(q: Query, a: bool, n: Node): seq<nat> {
    if IsReturned(Some(q), a, n) then [n.offset] else []
  }

  /** Preorder with pruning, as a recursion over the trees. */
  function Pruned(h: Hive, q: Query, a: bool, parent: Node, above: seq<string>, ts: seq<T.Tree>): seq<nat>
    decreases ts
  {
    if ts == [] then []
    else
      var names := above + [NameAt(h, ts[0].offset)];
      (match KidNode(q, parent, names, ts[0].offset)
       case None => []
       case Some(n) => Emitted(q, a, n) + Pruned(h, q, a, n, names, ts[0].kids)) +
      Pruned(h, q, a, parent, above, ts[1..])
  }

  lemma {:induction false} PassingAreDistinct(h: Hive, q: Query, parent: Node, above: seq<string>, ts: seq<T.Tree>, seen: set<nat>)
    requires T.Distinct(T.Roots(ts)) && T.ToSet(T.Roots(ts)) !! seen
    ensures NewNodes(Passing(h, q, parent, above, ts), seen) == Passing(h, q, parent, above, ts)
    decreases |ts|
  {
    hide KidNode, T.Roots, Passing, NameAt, PathOf, Pruned, Emitted, NewNodes;
    if ts == [] {
      NoneNew(h, q, parent, above, seen);
    } else {
      var roots, rest := T.Roots(ts), Passing(h, q, parent, above, ts[1..]);
      PassingStep(h, q, true, parent, above, ts);
      DistinctTail(ts, seen);
      PassingAreDistinct(h, q, parent, above, ts[1..], seen);
      assert ts[0].offset !in Offsets(rest) by { PassingOffsets(h, q, parent, above, ts[1..]); }
      if KidNode(q, parent, above + [NameAt(h, ts[0].offset)], ts[0].offset).Some? {
        NewNodesStep(KidNode(q, parent, above + [NameAt(h, ts[0].offset)], ts[0].offset).value, rest, seen);
      }
    }
  }

  lemma NoneNew(h: Hive, q: Query, parent: Node, above: seq<string>, seen: set<nat>)
    ensures Passing(h, q, parent, above, []) == [] && NewNodes([], seen) == []
  {
  }

  lemma DistinctTail(ts: seq<T.Tree>, seen: set<nat>)
    requires ts != [] && T.Distinct(T.Roots(ts)) && T.ToSet(T.Roots(ts)) !! seen
    ensures ts[0].offset !in seen && ts[0].offset !in T.ToSet(T.Roots(ts[1..]))
    ensures T.Distinct(T.Roots(ts[1..])) && T.ToSet(T.Roots(ts[1..])) !! seen
  {
    hide T.Roots;
    var roots := T.Roots(ts);
    assert roots[1..] == T.Roots(ts[1..]) && roots[0] in T.ToSet(roots);
  }

  lemma NewNodesStep(n: Node, rest: seq<Node>, seen: set<nat>)
    requires NewNodes(rest, seen) == rest && n.offset !in seen && n.offset !in Offsets(rest)
    ensures NewNodes([n] + rest, seen) == [n] + rest
  {
    hide Offsets;
    assert ([n] + rest)[1..] == rest;
  }

  lemma KidOffset(q: Query, parent: Node, names: seq<string>, o: nat)
    requires names != []
    ensures var k := KidNode(q, parent, names, o);
            k.Some? ==> k.value.offset == o && k.value.path == PathOf(names)
  {
  }

  /** What the shape of a forest says about its first tree. */
  lemma FirstTree(h: Hive, ts: seq<T.Tree>, seen: set<nat>)
    requires ts != [] && Holds(h, ts) && T.AllDistinct(ts) && T.Below(ts) !! seen
    ensures var t := ts[0];
            && Plain(NameAt(h, t.offset)) && KidsOf(h, t.offset) == T.Roots(t.kids)
            && Holds(h, t.kids) && Holds(h, ts[1..]) && T.AllDistinct(t.kids) && T.AllDistinct(ts[1..])
            && T.Below(ts) == T.Members(t.kids) + T.Below(ts[1..])
            && T.Below(ts[1..]) !! seen + T.Members(t.kids)
            && T.Members(t.kids) == T.ToSet(T.Roots(t.kids)) + T.Below(t.kids)
            && T.Distinct(T.Roots(t.kids)) && T.ToSet(T.Roots(t.kids)) !! T.Below(t.kids)
            && T.Members(t.kids) !! seen
  {
    T.RootsAndBelow(ts[0].kids);
  }

  lemma PassingOffsets(h: Hive, q: Query, parent: Node, above: seq<string>, ts: seq<T.Tree>)
    ensures T.ToSet(Offsets(Passing(h, q, parent, above, ts))) <= T.ToSet(T.Roots(ts))
  {
    hide Passing, T.Roots;
    var pushed := Passing(h, q, parent, above, ts);
    forall o | o in Offsets(pushed)
      ensures o in T.Roots(ts)
    {
      var i :| 0 <= i < |pushed| && pushed[i].offset == o;
      assert pushed[i] in pushed;
    }
  }

  /** Popping a key of a tree pushes exactly its passing sub keys. */
  lemma PopTree(h: Hive, q: Query, a: bool, n: Node, names: seq<string>, kids: seq<T.Tree>, rest: seq<Node>,
                seen: set<nat>, cache: nat) returns (seen': set<nat>, cache': nat)
    requires names != [] && AllPlain(names) && n.path == PathOf(names) && GoodCache(cache, names)
    requires Holds(h, kids) && KidsOf(h, n.offset) == T.Roots(kids)
    requires T.Distinct(T.Roots(kids)) && T.ToSet(T.Roots(kids)) !! seen
    ensures Grew(seen, seen', T.ToSet(T.Roots(kids))) && GoodCache(cache', names)
    ensures Run(h, q, a, [n] + rest, seen, cache) ==
            Emitted(q, a, n) + Run(h, q, a, Passing(h, q, n, names, kids) + rest, seen', cache')
  {
    hide Holds, FilteredPreorder, ReadSubKeys, NewNodes, IsReturned, T.Roots, PathOf, Passing, KidsOf, GoodCache, AllPlain;
    var pushed := Passing(h, q, n, names, kids);
    ReadIsPassing(h, q, n, names, kids, cache);
    PassingAreDistinct(h, q, n, names, kids, seen);
    PassingOffsets(h, q, n, names, kids);
    assert ([n] + rest)[0] == n && ([n] + rest)[1..] == rest;
    Iteration.PreorderPop(h, Some(q), a, [n] + rest, seen, cache);
    seen', cache' := seen + T.ToSet(Offsets(pushed)), ReadNode(h, Some(q), n, cache).cache;
    ReturnOffsets(q, a, n, FilteredPreorder(h, Some(q), a, pushed + rest, seen', cache'));
  }

  lemma PassingStep(h: Hive, q: Query, a: bool, parent: Node, above: seq<string>, ts: seq<T.Tree>)
    requires ts != []
    ensures var names := above + [NameAt(h, ts[0].offset)];
            match KidNode(q, parent, names, ts[0].offset)
            case None =>
              && Passing(h, q, parent, above, ts) == Passing(h, q, parent, above, ts[1..])
              && Pruned(h, q, a, parent, above, ts) == Pruned(h, q, a, parent, above, ts[1..])
            case Some(n) =>
              && n.offset == ts[0].offset && n.path == PathOf(names)
              && Passing(h, q, parent, above, ts) == [n] + Passing(h, q, parent, above, ts[1..])
              && Pruned(h, q, a, parent, above, ts) ==
                 Emitted(q, a, n) + Pruned(h, q, a, n, names, ts[0].kids) + Pruned(h, q, a, parent, above, ts[1..])
  {
    KidOffset(q, parent, above + [NameAt(h, ts[0].offset)], ts[0].offset);
    hide KidNode;
  }

  /** `s` grew to `t` by some of `d`. */
  ghost predicate Grew(s: set<nat>, t: set<nat>, d: set<nat>) {
    s <= t <= s + d
  }

  lemma GrewMore(s: set<nat>, t: set<nat>, d: set<nat>, e: set<nat>)
    requires Grew(s, t, d) && d <= e
    ensures Grew(s, t, e)
  {
  }

  lemma GrewOnce(s: set<nat>, roots: set<nat>, below: set<nat>, s1: set<nat>)
    requires Grew(s, s1, roots) && below !! roots && roots + below !! s
    ensures below !! s1
  {
  }

  lemma GrewThrice(s: set<nat>, roots: set<nat>, below: set<nat>, s1: set<nat>, s2: set<nat>, rest: set<nat>)
    requires Grew(s, s1, roots) && Grew(s1, s2, below) && rest !! s + (roots + below)
    ensures rest !! s2
    ensures forall s3 :: Grew(s2, s3, rest) ==> Grew(s, s3, roots + below + rest)
  {
  }

  /** With the passing keys of a forest on top of the stack, the iterator first returns the pruned preorder. */
  lemma {:induction false} IteratorPrunes(h: Hive, q: Query, a: bool, parent: Node, above: seq<string>, ts: seq<T.Tree>,
                                          rest: seq<Node>, seen: set<nat>, cache: nat)
    returns (seen': set<nat>, cache': nat)
    requires Holds(h, ts) && T.AllDistinct(ts) && T.Below(ts) !! seen
    requires above != [] && AllPlain(above) && parent.path == PathOf(above) && GoodCache(cache, above)
    ensures Grew(seen, seen', T.Below(ts)) && GoodCache(cache', above)
    ensures Run(h, q, a, Passing(h, q, parent, above, ts) + rest, seen, cache) ==
            Pruned(h, q, a, parent, above, ts) + Run(h, q, a, rest, seen', cache')
    decreases ts
  {
    hide Run, Emitted, T.Below, T.Members, T.AllDistinct, Holds, KidNode, Passing, Pruned, GoodCache, T.Roots, PathOf, KidsOf,
      NameAt, T.ToSet, Grew, T.Distinct, Plain;
    if ts == [] {
      seen', cache' := seen, cache;
      NoTrees(h, q, a, parent, above, ts, rest, seen);
    } else {
      var t := ts[0];
      var names := above + [NameAt(h, t.offset)];
      FirstTree(h, ts, seen);
      PassingStep(h, q, a, parent, above, ts);
      if KidNode(q, parent, names, t.offset).None? {
        seen', cache' := IteratorPrunes(h, q, a, parent, above, ts[1..], rest, seen, cache);
        GrewMore(seen, seen', T.Below(ts[1..]), T.Below(ts));
      } else {
        var n := KidNode(q, parent, names, t.offset).value;
        SameRoot(above, names);
        var tail := Passing(h, q, parent, above, ts[1..]) + rest;
        assert ([n] + Passing(h, q, parent, above, ts[1..])) + rest == [n] + tail;
        var seen1, cache1 := PopTree(h, q, a, n, names, t.kids, tail, seen, cache);
        GrewOnce(seen, T.ToSet(T.Roots(t.kids)), T.Below(t.kids), seen1);
        var seen2, cache2 := IteratorPrunes(h, q, a, n, names, t.kids, tail, seen1, cache1);
        GrewThrice(seen, T.ToSet(T.Roots(t.kids)), T.Below(t.kids), seen1, seen2, T.Below(ts[1..]));
        seen', cache' := IteratorPrunes(h, q, a, parent, above, ts[1..], rest, seen2, cache2);
        Associate(Emitted(q, a, n), Pruned(h, q, a, n, names, t.kids), Pruned(h, q, a, parent, above, ts[1..]),
                  Run(h, q, a, rest, seen', cache'));
      }
    }
  }

  lemma NoTrees(h: Hive, q: Query, a: bool, parent: Node, above: seq<string>, ts: seq<T.Tree>, rest: seq<Node>, seen: set<nat>)
    requires ts == []
    ensures Passing(h, q, parent, above, ts) + rest == rest && Pruned(h, q, a, parent, above, ts) == []
    ensures Grew(seen, seen, T.Below(ts))
  {
  }

  lemma Associate(a: seq<nat>, b: seq<nat>, c: seq<nat>, d: seq<nat>)
    ensures a + (b + (c + d)) == (a + b + c) + d
  {
  }

  lemma ReturnOffsets(q: Query, a: bool, n: Node, rest: seq<Node>)
    ensures Offsets((if IsReturned(Some(q), a, n) then [n] else []) + rest) ==
            Emitted(q, a, n) + Offsets(rest)
  {
    OffsetsConcat([n], rest);
  }

  lemma SameRoot(above: seq<string>, names: seq<string>)
    requires above != [] && names != [] && above[0] == names[0]
    ensures forall c: nat :: GoodCache(c, above) <==> GoodCache(c, names)
  {
  }

  // ----- Pruning loses nothing -----

  /** The filter state of a key says where its lineage stands. */
  ghost predicate StateFits(q: Query, n: Node, names: seq<string>)
    requires names != []
  {
    if |names| == 1 then n.state == None
    else if MatchesExactly(q, names) then n.state == Some(Exact)
    else if q.children && MatchesAbove(q, names) then n.state == Some(Descendent)
    else n.state == Some(NotMatched) && Prefixes(q.keyPath, Segments(q, names))
  }

  /** Neither the key nor anything below it is wanted. */
  ghost predicate Dead(q: Query, a: bool, names: seq<string>) {
    names != [] && forall below :: !Wanted(q, a, names + below)
  }

  lemma SegmentsOfChild(q: Query, above: seq<string>, below: seq<string>)
    requires above != []
    ensures Segments(q, above + below) == Segments(q, above) + below
  {
  }

  lemma PrefixIsClosed(q: Query, above: seq<string>, below: seq<string>)
    requires above != []
    ensures Prefixes(q.keyPath, Segments(q, above + below)) ==> Prefixes(q.keyPath, Segments(q, above))
  {
    SegmentsOfChild(q, above, below);
    var s := Segments(q, above);
    assert forall i :: 0 <= i < |s| ==> (s + below)[i] == s[i];
  }

  /** A match above a key below `names` is at or below `names`, or above it. */
  lemma MatchAboveSplits(q: Query, names: seq<string>, below: seq<string>)
    requires names != [] && MatchesAbove(q, names + below)
    ensures Prefixes(q.keyPath, Segments(q, names)) || MatchesAbove(q, names)
  {
    var all := names + below;
    var j :| 0 <= j < |all| && MatchesExactly(q, all[..j]);
    if j >= |names| {
      assert all[..j] == names + all[|names|..j];
      PrefixIsClosed(q, names, all[|names|..j]);
    } else {
      assert all[..j] == names[..j];
    }
  }

  lemma AboveChild(q: Query, above: seq<string>, name: string)
    requires above != []
    ensures MatchesAbove(q, above + [name]) <==> MatchesExactly(q, above) || MatchesAbove(q, above)
    ensures MatchesAbove(q, above) || MatchesExactly(q, above) ==> !MatchesExactly(q, above + [name])
  {
    hide Prefixes;
    var names := above + [name];
    assert names[..|above|] == above;
    if MatchesAbove(q, names) {
      var j :| 0 <= j < |names| && MatchesExactly(q, names[..j]);
      assert names[..j] == above[..j] && (j == |above| ==> above[..j] == above);
    }
    if MatchesAbove(q, above) {
      var j :| 0 <= j < |above| && MatchesExactly(q, above[..j]);
      assert names[..j] == above[..j];
    }
  }

  /** A sub key that the filter drops has nothing wanted at or below it. */
  lemma DroppedIsDead(q: Query, a: bool, parent: Node, above: seq<string>, name: string)
    requires above != [] && StateFits(q, parent, above)
    requires KidNode(q, parent, above + [name], 0).None?
    ensures Dead(q, a, above + [name])
  {
    var names := above + [name];
    AboveChild(q, above, name);
    forall below
      ensures !Wanted(q, a, names + below)
    {
      PrefixIsClosed(q, names, below);
      if MatchesAbove(q, names + below) { MatchAboveSplits(q, names, below); }
    }
  }

  /** A sub key that passes has a fitting state, and is returned exactly when it is wanted. */
  lemma PassedFits(q: Query, a: bool, parent: Node, above: seq<string>, name: string, o: nat)
    requires above != [] && StateFits(q, parent, above)
    requires KidNode(q, parent, above + [name], o).Some?
    ensures var n, names := KidNode(q, parent, above + [name], o).value, above + [name];
            && n.offset == o && StateFits(q, n, names)
            && (IsReturned(Some(q), a, n) <==> Wanted(q, a, names))
  {
    hide MatchesAbove, PathOf;
    var names := above + [name];
    AboveChild(q, above, name);
    SegmentsOfChild(q, above, [name]);
    if |above| == 1 { NoneAboveRoot(q, above); }
  }

  lemma NoneAboveRoot(q: Query, names: seq<string>)
    requires |names| == 1
    ensures !MatchesAbove(q, names)
  {
  }

  lemma {:induction false} NothingKept(h: Hive, q: Query, a: bool, above: seq<string>, ts: seq<T.Tree>)
    requires Dead(q, a, above)
    ensures forall e :: e in Lineages(h, above, ts) ==> e.names != []
    ensures Keep(q, a, Lineages(h, above, ts)) == []
    decreases ts
  {
    LineagesAreNamed(h, above, ts);
    if ts != [] {
      hide Wanted;
      var name := NameAt(h, ts[0].offset);
      var names := above + [name];
      forall below
        ensures !Wanted(q, a, names + below)
      {
        assert names + below == above + ([name] + below);
      }
      assert !Wanted(q, a, names) by { assert names + [] == names; }
      NothingKept(h, q, a, names, ts[0].kids);
      NothingKept(h, q, a, above, ts[1..]);
      KeepStep(h, q, a, above, ts);
    }
  }

  lemma KeepStep(h: Hive, q: Query, a: bool, above: seq<string>, ts: seq<T.Tree>)
    requires ts != []
    ensures var names := above + [NameAt(h, ts[0].offset)];
            && (forall e :: e in Lineages(h, above, ts) ==> e.names != [])
            && (forall e :: e in Lineages(h, names, ts[0].kids) ==> e.names != [])
            && (forall e :: e in Lineages(h, above, ts[1..]) ==> e.names != [])
            && Keep(q, a, Lineages(h, above, ts)) ==
               (if Wanted(q, a, names) then [ts[0].offset] else []) + Keep(q, a, Lineages(h, names, ts[0].kids)) +
               Keep(q, a, Lineages(h, above, ts[1..]))
  {
    hide Wanted;
    var names := above + [NameAt(h, ts[0].offset)];
    var first, below, rest := [Entry(ts[0].offset, names)], Lineages(h, names, ts[0].kids), Lineages(h, above, ts[1..]);
    LineagesAreNamed(h, above, ts);
    LineagesAreNamed(h, names, ts[0].kids);
    LineagesAreNamed(h, above, ts[1..]);
    KeepConcat(q, a, first + below, rest);
    KeepConcat(q, a, first, below);
    assert first[1..] == [];
  }

  /** Pruning during the descent keeps exactly the wanted keys of the full preorder. */
  lemma {:induction false} PrunedIsKept(h: Hive, q: Query, a: bool, parent: Node, above: seq<string>, ts: seq<T.Tree>)
    requires above != [] && StateFits(q, parent, above)
    ensures forall e :: e in Lineages(h, above, ts) ==> e.names != []
    ensures Pruned(h, q, a, parent, above, ts) == Keep(q, a, Lineages(h, above, ts))
    decreases ts
  {
    LineagesAreNamed(h, above, ts);
    if ts != [] {
      hide Wanted, StateFits, KidNode, Keep, Lineages, IsReturned;
      var name := NameAt(h, ts[0].offset);
      var names := above + [name];
      KeepStep(h, q, a, above, ts);
      PrunedIsKept(h, q, a, parent, above, ts[1..]);
      KidNodeOffset(q, parent, names, ts[0].offset);
      if KidNode(q, parent, names, ts[0].offset).None? {
        DroppedIsDead(q, a, parent, above, name);
        assert !Wanted(q, a, names) by { assert names + [] == names; }
        NothingKept(h, q, a, names, ts[0].kids);
      } else {
        PassedFits(q, a, parent, above, name, ts[0].offset);
        PrunedIsKept(h, q, a, KidNode(q, parent, names, ts[0].offset).value, names, ts[0].kids);
      }
    }
  }

  lemma KidNodeOffset(q: Query, parent: Node, names: seq<string>, o: nat)
    requires names != []
    ensures KidNode(q, parent, names, o).None? <==> KidNode(q, parent, names, 0).None?
  {
  }

  /** The root as `init_root` reads it: without a filter, so without a filter state. */
  function RootNode(h: Hive, t: T.Tree): Node {
    Node(t.offset, PathOf([NameAt(h, t.offset)]), None)
  }

  /**
    * Filtered preorder iteration returns exactly what filtering the full preorder would, in the same order: exact
    * segment-wise matches, their descendants when child keys are requested, and with ancestors included the root and
    * the keys on the way.
    */
  lemma FilteredIterationIsExact(h: Hive, q: Query, a: bool, t: T.Tree)
    requires t.offset in h && h[t.offset].kids == T.Roots(t.kids) && Plain(h[t.offset].name)
    requires Holds(h, t.kids) && T.AllDistinct([t])
    ensures forall e :: e in Lineages(h, [], [t]) ==> e.names != []
    ensures Run(h, q, a, [RootNode(h, t)], {t.offset}, 0) == Keep(q, a, Lineages(h, [], [t]))
    ensures EntryOffsets(Lineages(h, [], [t])) == T.TreePreorder(t)
  {
    RootFacts(h, q, a, t);
    LineagesArePreorder(h, [], [t]);
    RunFromRoot(h, q, a, t);
    KeptFromRoot(h, q, a, t);
  }

  lemma RunFromRoot(h: Hive, q: Query, a: bool, t: T.Tree)
    requires t.offset in h && h[t.offset].kids == T.Roots(t.kids) && Plain(h[t.offset].name)
    requires Holds(h, t.kids) && T.AllDistinct([t])
    ensures var root := RootNode(h, t);
            Run(h, q, a, [root], {t.offset}, 0) ==
            Emitted(q, a, root) + Pruned(h, q, a, root, [NameAt(h, t.offset)], t.kids)
  {
    var root, names, seen := RootNode(h, t), [NameAt(h, t.offset)], {t.offset};
    RootFacts(h, q, a, t);
    hide *;
    assert [root] + [] == [root] && Passing(h, q, root, names, t.kids) + [] == Passing(h, q, root, names, t.kids);
    var seen1, cache1 := PopTree(h, q, a, root, names, t.kids, [], seen, 0);
    GrewOnce(seen, T.ToSet(T.Roots(t.kids)), T.Below(t.kids), seen1);
    var seen2, cache2 := IteratorPrunes(h, q, a, root, names, t.kids, [], seen1, cache1);
    EndOfRun(h, q, a, seen2, cache2);
    var pruned := Pruned(h, q, a, root, names, t.kids);
    assert pruned + [] == pruned;
  }

  lemma KeptFromRoot(h: Hive, q: Query, a: bool, t: T.Tree)
    requires t.offset in h && h[t.offset].kids == T.Roots(t.kids) && Plain(h[t.offset].name)
    requires Holds(h, t.kids) && T.AllDistinct([t])
    ensures forall e :: e in Lineages(h, [], [t]) ==> e.names != []
    ensures var root := RootNode(h, t);
            Keep(q, a, Lineages(h, [], [t])) ==
            Emitted(q, a, root) + Pruned(h, q, a, root, [NameAt(h, t.offset)], t.kids)
  {
    var root, names := RootNode(h, t), [NameAt(h, t.offset)];
    RootFacts(h, q, a, t);
    hide *;
    PrunedIsKept(h, q, a, root, names, t.kids);
    KeepStep(h, q, a, [], [t]);
    EndOfRun(h, q, a, {}, 0);
    assert [t][0] == t && [t][1..] == [] && [] + names == names;
    var kept := Emitted(q, a, root) + Keep(q, a, Lineages(h, names, t.kids));
    assert kept + [] == kept;
  }

  lemma RootFacts(h: Hive, q: Query, a: bool, t: T.Tree)
    requires t.offset in h && h[t.offset].kids == T.Roots(t.kids) && Plain(h[t.offset].name)
    requires T.AllDistinct([t])
    ensures var root, names, seen := RootNode(h, t), [NameAt(h, t.offset)], {t.offset};
            && names != [] && AllPlain(names) && root.path == PathOf(names) && root.offset == t.offset
            && GoodCache(0, names) && StateFits(q, root, names) && KidsOf(h, t.offset) == T.Roots(t.kids)
            && T.AllDistinct(t.kids) && T.Distinct(T.Roots(t.kids))
            && T.ToSet(T.Roots(t.kids)) + T.Below(t.kids) !! seen && T.Below(t.kids) !! T.ToSet(T.Roots(t.kids))
            && Emitted(q, a, root) == (if Wanted(q, a, names) then [t.offset] else [])
    ensures T.ForestPreorder([t]) == T.TreePreorder(t)
  {
    T.RootsAndBelow(t.kids);
    assert [t][1..] == [];
    assert !MatchesAbove(q, [NameAt(h, t.offset)]);
  }

  lemma EndOfRun(h: Hive, q: Query, a: bool, seen: set<nat>, cache: nat)
    ensures Run(h, q, a, [], seen, cache) == []
    ensures forall e :: e in Lineages(h, [], []) ==> e.names != []
    ensures Keep(q, a, Lineages(h, [], [])) == []
  {
  }
}
