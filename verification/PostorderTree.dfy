/** Filtered postorder iteration: what a drain returns, in general and over a hive that is a tree. */
module PostorderTree {
  import opened Common
  import opened Paths
  import opened Filtering
  import opened Iteration
  import opened FilteredTree
  import T = Traversal

  // ----- With and without ancestors -----

  function NodesOf(frames: seq<NodeFrame>): seq<Node> {
    if frames == [] then [] else [frames[0].node] + NodesOf(frames[1..])
  }

  /** What a drain returns while something is left to traverse, and the keys that wait, top first, when nothing is. */
  datatype Parts = Parts(before: seq<Node>, end: seq<Node>)

  function PartsOf(h: Hive, q: Option<Query>, todo: seq<Node>, seen: set<nat>, frames: seq<NodeFrame>, cache: nat): Parts
    decreases T.Universe(GraphOf(h)) - seen, |todo|, |frames|
  {
    if todo == [] then Parts([], NodesOf(frames))
    else if frames != [] && frames[0].trackReturned == frames[0].toReturn then
      var p := PartsOf(h, q, todo, seen, frames[1..], cache);
      p.(before := [frames[0].node] + p.before)
    else
      var read := ReadNode(h, q, todo[0], cache);
      var pushed := NewNodes(read.nodes, seen);
      NewAreInUniverse(h, q, todo[0], cache, seen);
      PartsOf(h, q, pushed + todo[1..], seen + T.ToSet(Offsets(pushed)),
              [NodeFrame(todo[0], |read.nodes|, 0)] + Bump(frames), read.cache)
  }

  predicate IsUnmatched(n: Node) {
    n.state == Some(NotMatched)
  }

  /** The keys up to the first that is only on the way to a match. */
  function Upto(nodes: seq<Node>): seq<Node> {
    if nodes == [] || IsUnmatched(nodes[0]) then [] else [nodes[0]] + Upto(nodes[1..])
  }

  /** What is returned when nothing is left to traverse or the key on top has had all its sub keys. */
  lemma ReturnTop(h: Hive, q: Option<Query>, a: bool, todo: seq<Node>, seen: set<nat>, frames: seq<NodeFrame>, cache: nat)
    requires todo == [] || (frames != [] && frames[0].trackReturned == frames[0].toReturn)
    ensures FilteredPostorder(h, q, a, todo, seen, frames, cache) ==
            if frames == [] || (todo == [] && !a && IsUnmatched(frames[0].node)) then []
            else [frames[0].node] + FilteredPostorder(h, q, a, todo, seen, frames[1..], cache)
  {
    hide ReadSubKeys, NewNodes, GraphOf;
  }

  lemma {:induction false} ReturnRest(h: Hive, q: Option<Query>, a: bool, seen: set<nat>, frames: seq<NodeFrame>, cache: nat)
    ensures FilteredPostorder(h, q, a, [], seen, frames, cache) == if a then NodesOf(frames) else Upto(NodesOf(frames))
    decreases |frames|
  {
    hide FilteredPostorder;
    ReturnTop(h, q, a, [], seen, frames, cache);
    if frames != [] {
      ReturnRest(h, q, a, seen, frames[1..], cache);
      assert NodesOf(frames)[1..] == NodesOf(frames[1..]);
    }
  }

  /** One step of the parts: a key is returned, or one is read. */
  lemma PartsStep(h: Hive, q: Option<Query>, todo: seq<Node>, seen: set<nat>, frames: seq<NodeFrame>, cache: nat)
    requires todo != []
    ensures if frames != [] && frames[0].trackReturned == frames[0].toReturn then
              var p := PartsOf(h, q, todo, seen, frames[1..], cache);
              PartsOf(h, q, todo, seen, frames, cache) == Parts([frames[0].node] + p.before, p.end)
            else
              var read := ReadNode(h, q, todo[0], cache);
              var pushed := NewNodes(read.nodes, seen);
              PartsOf(h, q, todo, seen, frames, cache) ==
              PartsOf(h, q, pushed + todo[1..], seen + T.ToSet(Offsets(pushed)),
                      [NodeFrame(todo[0], |read.nodes|, 0)] + Bump(frames), read.cache)
  {
    hide ReadSubKeys, NewNodes, GraphOf, Bump;
  }

  lemma PartsEnd(h: Hive, q: Option<Query>, seen: set<nat>, frames: seq<NodeFrame>, cache: nat)
    ensures PartsOf(h, q, [], seen, frames, cache) == Parts([], NodesOf(frames))
  {
  }

  /** On any hive a drain with ancestors returns both parts. One without them returns the first part as it is, whether its
      keys match or not, and the second up to the first key that does not match. */
  lemma {:induction false} PostorderIsCut(h: Hive, q: Option<Query>, a: bool, todo: seq<Node>, seen: set<nat>,
                                          frames: seq<NodeFrame>, cache: nat)
    ensures var p := PartsOf(h, q, todo, seen, frames, cache);
            FilteredPostorder(h, q, a, todo, seen, frames, cache) == p.before + if a then p.end else Upto(p.end)
    decreases T.Universe(GraphOf(h)) - seen, |todo|, |frames|
  {
    hide ReadSubKeys, NewNodes, GraphOf, T.Universe, FilteredPostorder, PartsOf, Upto, NodesOf;
    if todo == [] {
      ReturnRest(h, q, a, seen, frames, cache);
      PartsEnd(h, q, seen, frames, cache);
    } else {
      PartsStep(h, q, todo, seen, frames, cache);
      if frames != [] && frames[0].trackReturned == frames[0].toReturn {
        ReturnTop(h, q, a, todo, seen, frames, cache);
        PostorderIsCut(h, q, a, todo, seen, frames[1..], cache);
        var p := PartsOf(h, q, todo, seen, frames[1..], cache);
        var end := if a then p.end else Upto(p.end);
        assert [frames[0].node] + (p.before + end) == ([frames[0].node] + p.before) + end;
      } else {
        PostorderPop(h, q, a, todo, seen, frames, cache);
        var read := ReadNode(h, q, todo[0], cache);
        var pushed := NewNodes(read.nodes, seen);
        NewAreInUniverse(h, q, todo[0], cache, seen);
        PostorderIsCut(h, q, a, pushed + todo[1..], seen + T.ToSet(Offsets(pushed)),
                       [NodeFrame(todo[0], |read.nodes|, 0)] + Bump(frames), read.cache);
      }
    }
  }

  // ----- Over a tree -----

  /** The postorder of the keys that pass the filter on the way down. */
  function PrunedPost(h: Hive, q: Query, parent: Node, above: seq<string>, ts: seq<T.Tree>): seq<Node>
    decreases ts
  {
    if ts == [] then []
    else
      var names := above + [NameAt(h, ts[0].offset)];
      var rest := PrunedPost(h, q, parent, above, ts[1..]);
      match KidNode(q, parent, names, ts[0].offset)
      case None => rest
      case Some(n) => PrunedPost(h, q, n, names, ts[0].kids) + [n] + rest
  }

  /** The path from the last key that passes up to a root of the forest. */
  function LastPath(h: Hive, q: Query, parent: Node, above: seq<string>, ts: seq<T.Tree>): seq<Node>
    decreases ts
  {
    if ts == [] then []
    else
      var names := above + [NameAt(h, ts[0].offset)];
      var kid := KidNode(q, parent, names, ts[0].offset);
      if Passing(h, q, parent, above, ts[1..]) != [] then LastPath(h, q, parent, above, ts[1..])
      else if kid.None? then []
      else LastPath(h, q, kid.value, names, ts[0].kids) + [kid.value]
  }

  /** The postorder of the keys that pass and are not on that path. */
  function BeforePath(h: Hive, q: Query, parent: Node, above: seq<string>, ts: seq<T.Tree>): seq<Node>
    decreases ts
  {
    if ts == [] then []
    else
      var names := above + [NameAt(h, ts[0].offset)];
      var kid := KidNode(q, parent, names, ts[0].offset);
      if Passing(h, q, parent, above, ts[1..]) != [] then
        (if kid.None? then [] else PrunedPost(h, q, kid.value, names, ts[0].kids) + [kid.value]) +
        BeforePath(h, q, parent, above, ts[1..])
      else if kid.None? then []
      else BeforePath(h, q, kid.value, names, ts[0].kids)
  }

  /** The two parts make up the pruned postorder. */
  lemma {:induction false} PathIsLast(h: Hive, q: Query, parent: Node, above: seq<string>, ts: seq<T.Tree>)
    ensures PrunedPost(h, q, parent, above, ts) ==
            BeforePath(h, q, parent, above, ts) + LastPath(h, q, parent, above, ts)
    ensures Passing(h, q, parent, above, ts) == [] ==> PrunedPost(h, q, parent, above, ts) == []
    decreases ts
  {
    hide KidNode, NameAt, Passing, PrunedPost, BeforePath, LastPath;
    if ts == [] {
      NoPost(h, q, parent, above);
    } else {
      var names := above + [NameAt(h, ts[0].offset)];
      var kid := KidNode(q, parent, names, ts[0].offset);
      PostStep(h, q, parent, above, ts);
      PathStep(h, q, parent, above, ts);
      PathIsLast(h, q, parent, above, ts[1..]);
      if kid.Some? {
        PathIsLast(h, q, kid.value, names, ts[0].kids);
        var before, path := BeforePath(h, q, kid.value, names, ts[0].kids), LastPath(h, q, kid.value, names, ts[0].kids);
        assert (before + path) + [kid.value] + [] == before + (path + [kid.value]);
      }
    }
  }

  lemma NoPost(h: Hive, q: Query, parent: Node, above: seq<string>)
    ensures PrunedPost(h, q, parent, above, []) == [] && Passing(h, q, parent, above, []) == []
    ensures BeforePath(h, q, parent, above, []) == [] && LastPath(h, q, parent, above, []) == []
  {
  }

  lemma PostStep(h: Hive, q: Query, parent: Node, above: seq<string>, ts: seq<T.Tree>)
    requires ts != []
    ensures var names := above + [NameAt(h, ts[0].offset)];
            match KidNode(q, parent, names, ts[0].offset)
            case None =>
              && Passing(h, q, parent, above, ts) == Passing(h, q, parent, above, ts[1..])
              && PrunedPost(h, q, parent, above, ts) == PrunedPost(h, q, parent, above, ts[1..])
            case Some(n) =>
              && n.offset == ts[0].offset && n.path == PathOf(names)
              && Passing(h, q, parent, above, ts) == [n] + Passing(h, q, parent, above, ts[1..])
              && PrunedPost(h, q, parent, above, ts) ==
                 PrunedPost(h, q, n, names, ts[0].kids) + [n] + PrunedPost(h, q, parent, above, ts[1..])
  {
    PassingStep(h, q, true, parent, above, ts);
    hide KidNode, Passing;
  }

  lemma PathStep(h: Hive, q: Query, parent: Node, above: seq<string>, ts: seq<T.Tree>)
    requires ts != []
    ensures var names := above + [NameAt(h, ts[0].offset)];
            var kid := KidNode(q, parent, names, ts[0].offset);
            var before, path := BeforePath(h, q, parent, above, ts), LastPath(h, q, parent, above, ts);
            if Passing(h, q, parent, above, ts[1..]) != [] then
              && path == LastPath(h, q, parent, above, ts[1..])
              && before == (if kid.None? then [] else PrunedPost(h, q, kid.value, names, ts[0].kids) + [kid.value]) +
                           BeforePath(h, q, parent, above, ts[1..])
            else if kid.None? then before == [] && path == []
            else
              && path == LastPath(h, q, kid.value, names, ts[0].kids) + [kid.value]
              && before == BeforePath(h, q, kid.value, names, ts[0].kids)
  {
    hide KidNode, Passing, PrunedPost, NameAt;
  }

  /** Popping a key of a tree pushes its passing sub keys and counts it for its parent. */
  lemma PopTreePost(h: Hive, q: Query, n: Node, names: seq<string>, kids: seq<T.Tree>, rest: seq<Node>, seen: set<nat>,
                    own: NodeFrame, frames: seq<NodeFrame>, cache: nat) returns (seen': set<nat>, cache': nat)
    requires names != [] && AllPlain(names) && n.path == PathOf(names) && GoodCache(cache, names)
    requires Holds(h, kids) && KidsOf(h, n.offset) == T.Roots(kids)
    requires T.Distinct(T.Roots(kids)) && T.ToSet(T.Roots(kids)) !! seen
    requires own.trackReturned != own.toReturn
    ensures Grew(seen, seen', T.ToSet(T.Roots(kids))) && GoodCache(cache', names)
    ensures var pushed := Passing(h, q, n, names, kids);
            var counted := own.(trackReturned := own.trackReturned + 1);
            PartsOf(h, Some(q), [n] + rest, seen, [own] + frames, cache) ==
            PartsOf(h, Some(q), pushed + rest, seen', [NodeFrame(n, |pushed|, 0)] + ([counted] + frames), cache')
  {
    hide Holds, PartsOf, ReadSubKeys, NewNodes, T.Roots, PathOf, Passing, KidsOf, GoodCache, AllPlain;
    var pushed := Passing(h, q, n, names, kids);
    ReadIsPassing(h, q, n, names, kids, cache);
    PassingAreDistinct(h, q, n, names, kids, seen);
    PassingOffsets(h, q, n, names, kids);
    assert ([n] + rest)[0] == n && ([n] + rest)[1..] == rest;
    PartsStep(h, Some(q), [n] + rest, seen, [own] + frames, cache);
    assert Bump([own] + frames) == [own.(trackReturned := own.trackReturned + 1)] + frames;
    seen', cache' := seen + T.ToSet(Offsets(pushed)), ReadNode(h, Some(q), n, cache).cache;
  }

  /** A key that has had all its sub keys is returned next, if something is left to traverse. */
  lemma ReturnFull(h: Hive, q: Query, todo: seq<Node>, seen: set<nat>, own: NodeFrame, frames: seq<NodeFrame>, cache: nat)
    requires own.trackReturned == own.toReturn && todo != []
    ensures var p := PartsOf(h, Some(q), todo, seen, frames, cache);
            PartsOf(h, Some(q), todo, seen, [own] + frames, cache) == Parts([own.node] + p.before, p.end)
  {
    hide PartsOf;
    PartsStep(h, Some(q), todo, seen, [own] + frames, cache);
    assert ([own] + frames)[1..] == frames;
  }

  /** With the passing keys of a forest on top of the stack, their parent waiting for them and more to traverse behind
      them, the iterator returns their pruned postorder, and then the parent has been told of all of them. */
  lemma {:induction false} PostorderPrunes(h: Hive, q: Query, parent: Node, above: seq<string>, ts: seq<T.Tree>,
                                           rest: seq<Node>, seen: set<nat>, own: NodeFrame, frames: seq<NodeFrame>, cache: nat)
    returns (seen': set<nat>, cache': nat)
    requires Holds(h, ts) && T.AllDistinct(ts) && T.Below(ts) !! seen && rest != []
    requires above != [] && AllPlain(above) && parent.path == PathOf(above) && GoodCache(cache, above)
    requires own.trackReturned + |Passing(h, q, parent, above, ts)| == own.toReturn
    ensures Grew(seen, seen', T.Below(ts)) && GoodCache(cache', above)
    ensures var p := PartsOf(h, Some(q), rest, seen', [own.(trackReturned := own.toReturn)] + frames, cache');
            PartsOf(h, Some(q), Passing(h, q, parent, above, ts) + rest, seen, [own] + frames, cache) ==
            Parts(PrunedPost(h, q, parent, above, ts) + p.before, p.end)
    decreases ts
  {
    hide PartsOf, T.Below, T.Members, T.AllDistinct, Holds, KidNode, Passing, PrunedPost, GoodCache, T.Roots, PathOf, KidsOf,
      NameAt, T.ToSet, Grew, T.Distinct, Plain;
    if ts == [] {
      seen', cache' := seen, cache;
      NoTrees(h, q, true, parent, above, ts, rest, seen);
      NoPost(h, q, parent, above);
      var p := PartsOf(h, Some(q), rest, seen', [own.(trackReturned := own.toReturn)] + frames, cache');
      assert [] + p.before == p.before;
    } else {
      var t := ts[0];
      var names := above + [NameAt(h, t.offset)];
      FirstTree(h, ts, seen);
      PostStep(h, q, parent, above, ts);
      if KidNode(q, parent, names, t.offset).None? {
        seen', cache' := PostorderPrunes(h, q, parent, above, ts[1..], rest, seen, own, frames, cache);
        GrewMore(seen, seen', T.Below(ts[1..]), T.Below(ts));
      } else {
        var n := KidNode(q, parent, names, t.offset).value;
        SameRoot(above, names);
        var tail, counted := Passing(h, q, parent, above, ts[1..]) + rest, own.(trackReturned := own.trackReturned + 1);
        assert ([n] + Passing(h, q, parent, above, ts[1..])) + rest == [n] + tail;
        var seen1, cache1 := PopTreePost(h, q, n, names, t.kids, tail, seen, own, frames, cache);
        GrewOnce(seen, T.ToSet(T.Roots(t.kids)), T.Below(t.kids), seen1);
        var f := NodeFrame(n, |Passing(h, q, n, names, t.kids)|, 0);
        var seen2, cache2 := PostorderPrunes(h, q, n, names, t.kids, tail, seen1, f, [counted] + frames, cache1);
        ReturnFull(h, q, tail, seen2, f.(trackReturned := f.toReturn), [counted] + frames, cache2);
        GrewThrice(seen, T.ToSet(T.Roots(t.kids)), T.Below(t.kids), seen1, seen2, T.Below(ts[1..]));
        seen', cache' := PostorderPrunes(h, q, parent, above, ts[1..], rest, seen2, counted, frames, cache2);
        AssociateNodes(PrunedPost(h, q, n, names, t.kids), [n], PrunedPost(h, q, parent, above, ts[1..]),
                       PartsOf(h, Some(q), rest, seen', [own.(trackReturned := own.toReturn)] + frames, cache').before);
      }
    }
  }

  lemma AssociateNodes(a: seq<Node>, b: seq<Node>, c: seq<Node>, d: seq<Node>)
    ensures a + (b + (c + d)) == (a + b + c) + d
  {
  }

  /** With nothing behind them, what is returned is all but the path from the last of the passing keys up; that path and
      the keys above it are left waiting. */
  lemma {:induction false} PathIsLeft(h: Hive, q: Query, parent: Node, above: seq<string>, ts: seq<T.Tree>, seen: set<nat>,
                                      own: NodeFrame, frames: seq<NodeFrame>, cache: nat)
    requires Holds(h, ts) && T.AllDistinct(ts) && T.Below(ts) !! seen
    requires above != [] && AllPlain(above) && parent.path == PathOf(above) && GoodCache(cache, above)
    requires own.trackReturned + |Passing(h, q, parent, above, ts)| == own.toReturn
    ensures PartsOf(h, Some(q), Passing(h, q, parent, above, ts), seen, [own] + frames, cache) ==
            Parts(BeforePath(h, q, parent, above, ts), LastPath(h, q, parent, above, ts) + ([own.node] + NodesOf(frames)))
    decreases ts
  {
    hide PartsOf, T.Below, T.Members, T.AllDistinct, Holds, KidNode, Passing, PrunedPost, GoodCache, T.Roots, PathOf, KidsOf,
      NameAt, T.ToSet, Grew, T.Distinct, Plain, BeforePath, LastPath, NodesOf;
    NodesOfFrames(own, frames);
    if ts == [] {
      NoPost(h, q, parent, above);
      PartsEnd(h, Some(q), seen, [own] + frames, cache);
      assert [] + ([own.node] + NodesOf(frames)) == [own.node] + NodesOf(frames);
    } else {
      var t := ts[0];
      var names := above + [NameAt(h, t.offset)];
      var tail, counted := Passing(h, q, parent, above, ts[1..]), own.(trackReturned := own.trackReturned + 1);
      FirstTree(h, ts, seen);
      PostStep(h, q, parent, above, ts);
      PathStep(h, q, parent, above, ts);
      if KidNode(q, parent, names, t.offset).None? {
        PathIsLeft(h, q, parent, above, ts[1..], seen, own, frames, cache);
        NoPath(h, q, parent, above, ts[1..]);
      } else {
        var n := KidNode(q, parent, names, t.offset).value;
        SameRoot(above, names);
        var seen1, cache1 := PopTreePost(h, q, n, names, t.kids, tail, seen, own, frames, cache);
        GrewOnce(seen, T.ToSet(T.Roots(t.kids)), T.Below(t.kids), seen1);
        var f := NodeFrame(n, |Passing(h, q, n, names, t.kids)|, 0);
        NodesOfFrames(counted, frames);
        if tail == [] {
          assert Passing(h, q, n, names, t.kids) + [] == Passing(h, q, n, names, t.kids);
          PathIsLeft(h, q, n, names, t.kids, seen1, f, [counted] + frames, cache1);
          var path, up := LastPath(h, q, n, names, t.kids), [own.node] + NodesOf(frames);
          assert path + ([n] + up) == (path + [n]) + up;
        } else {
          var seen2, cache2 := PostorderPrunes(h, q, n, names, t.kids, tail, seen1, f, [counted] + frames, cache1);
          ReturnFull(h, q, tail, seen2, f.(trackReturned := f.toReturn), [counted] + frames, cache2);
          GrewThrice(seen, T.ToSet(T.Roots(t.kids)), T.Below(t.kids), seen1, seen2, T.Below(ts[1..]));
          PathIsLeft(h, q, parent, above, ts[1..], seen2, counted, frames, cache2);
          var first, before := PrunedPost(h, q, n, names, t.kids), BeforePath(h, q, parent, above, ts[1..]);
          assert first + ([n] + before) == (first + [n]) + before;
        }
      }
    }
  }

  lemma NodesOfFrames(own: NodeFrame, frames: seq<NodeFrame>)
    ensures NodesOf([own] + frames) == [own.node] + NodesOf(frames)
  {
    assert ([own] + frames)[1..] == frames;
  }

  lemma {:induction false} NoPath(h: Hive, q: Query, parent: Node, above: seq<string>, ts: seq<T.Tree>)
    ensures Passing(h, q, parent, above, ts) == [] ==>
              BeforePath(h, q, parent, above, ts) == [] && LastPath(h, q, parent, above, ts) == []
  {
    PathIsLast(h, q, parent, above, ts);
  }

  // ----- What is returned and what is wanted -----

  /** The full postorder of the trees, below keys named `above`. */
  function PostLineages(h: Hive, above: seq<string>, ts: seq<T.Tree>): seq<Entry>
    decreases ts
  {
    if ts == [] then []
    else
      var names := above + [NameAt(h, ts[0].offset)];
      PostLineages(h, names, ts[0].kids) + [Entry(ts[0].offset, names)] + PostLineages(h, above, ts[1..])
  }

  /** The reference lists exactly the textbook postorder. */
  lemma {:induction false} PostLineagesArePostorder(h: Hive, above: seq<string>, ts: seq<T.Tree>)
    ensures EntryOffsets(PostLineages(h, above, ts)) == T.ForestPostorder(ts)
    decreases ts
  {
    if ts != [] {
      var names := above + [NameAt(h, ts[0].offset)];
      PostLineagesArePostorder(h, names, ts[0].kids);
      PostLineagesArePostorder(h, above, ts[1..]);
      var below, own, rest := PostLineages(h, names, ts[0].kids), [Entry(ts[0].offset, names)], PostLineages(h, above, ts[1..]);
      assert EntryOffsets(below + own + rest) == EntryOffsets(below) + [ts[0].offset] + EntryOffsets(rest);
    }
  }

  lemma {:induction false} PostAreNamed(h: Hive, above: seq<string>, ts: seq<T.Tree>)
    ensures forall e :: e in PostLineages(h, above, ts) ==> above < e.names
    decreases ts
  {
    if ts != [] {
      PostAreNamed(h, above + [NameAt(h, ts[0].offset)], ts[0].kids);
      PostAreNamed(h, above, ts[1..]);
    }
  }

  lemma KeepPostStep(h: Hive, q: Query, a: bool, above: seq<string>, ts: seq<T.Tree>)
    requires ts != []
    ensures var names := above + [NameAt(h, ts[0].offset)];
            && (forall e :: e in PostLineages(h, above, ts) ==> e.names != [])
            && (forall e :: e in PostLineages(h, names, ts[0].kids) ==> e.names != [])
            && (forall e :: e in PostLineages(h, above, ts[1..]) ==> e.names != [])
            && Keep(q, a, PostLineages(h, above, ts)) ==
               Keep(q, a, PostLineages(h, names, ts[0].kids)) +
               (if Wanted(q, a, names) then [ts[0].offset] else []) + Keep(q, a, PostLineages(h, above, ts[1..]))
  {
    hide Wanted;
    var names := above + [NameAt(h, ts[0].offset)];
    var below, own, rest := PostLineages(h, names, ts[0].kids), [Entry(ts[0].offset, names)], PostLineages(h, above, ts[1..]);
    assert PostLineages(h, above, ts) == below + own + rest;
    hide PostLineages, Keep;
    PostAreNamed(h, above, ts);
    PostAreNamed(h, names, ts[0].kids);
    PostAreNamed(h, above, ts[1..]);
    KeepAround(q, a, below, own[0], rest);
  }

  lemma KeepAround(q: Query, a: bool, below: seq<Entry>, own: Entry, rest: seq<Entry>)
    requires forall e :: e in below + [own] + rest ==> e.names != []
    ensures own in below + [own] + rest
    ensures forall e :: e in below || e in rest ==> e in below + [own] + rest
    ensures Keep(q, a, below + [own] + rest) ==
            Keep(q, a, below) + (if Wanted(q, a, own.names) then [own.offset] else []) + Keep(q, a, rest)
  {
    hide Wanted;
    KeepConcat(q, a, below + [own], rest);
    KeepConcat(q, a, below, [own]);
    KeepOne(q, a, own);
  }

  lemma KeepOne(q: Query, a: bool, e: Entry)
    requires e.names != []
    ensures Keep(q, a, [e]) == if Wanted(q, a, e.names) then [e.offset] else []
  {
    hide Wanted;
    assert [e][1..] == [];
  }

  lemma {:induction false} NothingKeptPost(h: Hive, q: Query, a: bool, above: seq<string>, ts: seq<T.Tree>)
    requires Dead(q, a, above)
    ensures forall e :: e in PostLineages(h, above, ts) ==> e.names != []
    ensures Keep(q, a, PostLineages(h, above, ts)) == []
    decreases ts
  {
    PostAreNamed(h, above, ts);
    if ts != [] {
      hide Wanted;
      var name := NameAt(h, ts[0].offset);
      var names := above + [name];
      forall below
        ensures !Wanted(q, a, names + below)
      {
        assert names + below == above + ([name] + below);
      }
      assert !Wanted(q, a, names) by { assert names + [] == names; }
      NothingKeptPost(h, q, a, names, ts[0].kids);
      NothingKeptPost(h, q, a, above, ts[1..]);
      KeepPostStep(h, q, a, above, ts);
    }
  }

  /** The keys that a preorder drain would return. */
  function Returned(q: Query, a: bool, nodes: seq<Node>): seq<Node> {
    if nodes == [] then []
    else (if IsReturned(Some(q), a, nodes[0]) then [nodes[0]] else []) + Returned(q, a, nodes[1..])
  }

  lemma {:induction false} ReturnedConcat(q: Query, a: bool, s: seq<Node>, t: seq<Node>)
    ensures Returned(q, a, s + t) == Returned(q, a, s) + Returned(q, a, t)
    decreases |s|
  {
    hide IsReturned;
    if s == [] {
      assert s + t == t;
    } else {
      assert (s + t)[1..] == s[1..] + t;
      ReturnedConcat(q, a, s[1..], t);
    }
  }

  lemma ReturnedAround(q: Query, a: bool, below: seq<Node>, n: Node, rest: seq<Node>)
    ensures Offsets(Returned(q, a, below + [n] + rest)) ==
            Offsets(Returned(q, a, below)) + Emitted(q, a, n) + Offsets(Returned(q, a, rest))
  {
    ReturnedConcat(q, a, below + [n], rest);
    ReturnedConcat(q, a, below, [n]);
    assert [n][1..] == [] && Returned(q, a, []) == [];
    assert Offsets(Returned(q, a, [n])) == Emitted(q, a, n);
    hide Returned, IsReturned, Emitted;
    OffsetsConcat(Returned(q, a, below) + Returned(q, a, [n]), Returned(q, a, rest));
    OffsetsConcat(Returned(q, a, below), Returned(q, a, [n]));
  }

  /** Among the keys that pass, the wanted ones are those that match or are below a match, and with ancestors all. */
  lemma {:induction false} PrunedPostIsKept(h: Hive, q: Query, a: bool, parent: Node, above: seq<string>, ts: seq<T.Tree>)
    requires above != [] && StateFits(q, parent, above)
    ensures forall e :: e in PostLineages(h, above, ts) ==> e.names != []
    ensures Offsets(Returned(q, a, PrunedPost(h, q, parent, above, ts))) == Keep(q, a, PostLineages(h, above, ts))
    decreases ts
  {
    hide Wanted, StateFits, KidNode, Keep, PostLineages, IsReturned, Returned, PrunedPost, Offsets, Passing, NameAt, PathOf, Dead,
      MatchesAbove, Segments;
    if ts == [] {
      NoneKept(h, q, a, parent, above);
    } else {
      var name := NameAt(h, ts[0].offset);
      var names := above + [name];
      KeepPostStep(h, q, a, above, ts);
      PostStep(h, q, parent, above, ts);
      PrunedPostIsKept(h, q, a, parent, above, ts[1..]);
      KidNodeOffset(q, parent, names, ts[0].offset);
      if KidNode(q, parent, names, ts[0].offset).None? {
        DroppedIsDead(q, a, parent, above, name);
        DeadIsUnwanted(q, a, names);
        NothingKeptPost(h, q, a, names, ts[0].kids);
        assert [] + [] + Keep(q, a, PostLineages(h, above, ts[1..])) == Keep(q, a, PostLineages(h, above, ts[1..]));
      } else {
        var n := KidNode(q, parent, names, ts[0].offset).value;
        PassedFits(q, a, parent, above, name, ts[0].offset);
        PrunedPostIsKept(h, q, a, n, names, ts[0].kids);
        ReturnedAround(q, a, PrunedPost(h, q, n, names, ts[0].kids), n, PrunedPost(h, q, parent, above, ts[1..]));
      }
    }
  }

  lemma NoneKept(h: Hive, q: Query, a: bool, parent: Node, above: seq<string>)
    ensures PostLineages(h, above, []) == [] && Keep(q, a, []) == []
    ensures Offsets(Returned(q, a, PrunedPost(h, q, parent, above, []))) == []
  {
  }

  lemma DeadIsUnwanted(q: Query, a: bool, names: seq<string>)
    requires Dead(q, a, names)
    ensures !Wanted(q, a, names)
  {
    hide Wanted;
    assert names + [] == names;
  }

  // ----- Matches come before the keys on the way -----

  /** Every key is a match, below one, or on the way to one. */
  predicate IsMarked(n: Node) {
    IsMatchOrDescendent(n) || IsUnmatched(n)
  }

  lemma KidIsMarked(q: Query, parent: Node, names: seq<string>, o: nat)
    requires names != []
    ensures var k := KidNode(q, parent, names, o);
            k.Some? ==> IsMarked(k.value) && (IsMatchOrDescendent(parent) ==> IsMatchOrDescendent(k.value))
  {
  }

  lemma {:induction false} PostIsMarked(h: Hive, q: Query, parent: Node, above: seq<string>, ts: seq<T.Tree>)
    ensures forall n :: n in PrunedPost(h, q, parent, above, ts) ==>
              IsMarked(n) && (IsMatchOrDescendent(parent) ==> IsMatchOrDescendent(n))
    decreases ts
  {
    hide KidNode, IsMarked, IsMatchOrDescendent, PrunedPost, NameAt, Passing;
    if ts == [] {
      NoPost(h, q, parent, above);
    } else {
      var names := above + [NameAt(h, ts[0].offset)];
      PostStep(h, q, parent, above, ts);
      PostIsMarked(h, q, parent, above, ts[1..]);
      KidIsMarked(q, parent, names, ts[0].offset);
      if KidNode(q, parent, names, ts[0].offset).Some? {
        PostIsMarked(h, q, KidNode(q, parent, names, ts[0].offset).value, names, ts[0].kids);
      }
    }
  }

  /** Above a key that is only on the way there are only such keys. */
  ghost predicate MatchesFirst(path: seq<Node>) {
    forall i, j :: 0 <= i < j < |path| && IsUnmatched(path[i]) ==> IsUnmatched(path[j])
  }

  lemma {:induction false} PathMatchesFirst(h: Hive, q: Query, parent: Node, above: seq<string>, ts: seq<T.Tree>)
    ensures MatchesFirst(LastPath(h, q, parent, above, ts))
    decreases ts
  {
    hide KidNode, PrunedPost, NameAt, Passing, LastPath, BeforePath;
    if ts == [] {
      NoPost(h, q, parent, above);
    } else {
      var names := above + [NameAt(h, ts[0].offset)];
      var kid := KidNode(q, parent, names, ts[0].offset);
      PathStep(h, q, parent, above, ts);
      PathMatchesFirst(h, q, parent, above, ts[1..]);
      if kid.Some? {
        PathMatchesFirst(h, q, kid.value, names, ts[0].kids);
        PathIsLast(h, q, kid.value, names, ts[0].kids);
        PostIsMarked(h, q, kid.value, names, ts[0].kids);
        KidIsMarked(q, parent, names, ts[0].offset);
        var path := LastPath(h, q, kid.value, names, ts[0].kids);
        assert forall n :: n in path ==> n in BeforePath(h, q, kid.value, names, ts[0].kids) + path;
        assert forall i :: 0 <= i < |path| ==> path[i] in path;
      }
    }
  }

  /** No key is both before the path and on it. */
  lemma {:induction false} PathIsApart(h: Hive, q: Query, parent: Node, above: seq<string>, ts: seq<T.Tree>)
    requires T.AllDistinct(ts)
    ensures forall n :: n in PrunedPost(h, q, parent, above, ts) ==> n.offset in T.Members(ts)
    ensures forall n :: n in LastPath(h, q, parent, above, ts) ==> n.offset in T.Members(ts)
    ensures forall n, m :: n in BeforePath(h, q, parent, above, ts) && m in LastPath(h, q, parent, above, ts) ==>
              n.offset != m.offset
    decreases ts
  {
    hide KidNode, PrunedPost, NameAt, Passing, LastPath, BeforePath;
    PathIsLast(h, q, parent, above, ts);
    if ts == [] {
      NoPost(h, q, parent, above);
    } else {
      var names := above + [NameAt(h, ts[0].offset)];
      var kid := KidNode(q, parent, names, ts[0].offset);
      PostStep(h, q, parent, above, ts);
      PathStep(h, q, parent, above, ts);
      PathIsApart(h, q, parent, above, ts[1..]);
      if kid.Some? {
        PathIsApart(h, q, kid.value, names, ts[0].kids);
        PathIsLast(h, q, kid.value, names, ts[0].kids);
      }
    }
  }

  // ----- Without ancestors -----

  ghost predicate HasUnmatched(nodes: seq<Node>) {
    exists n :: n in nodes && IsUnmatched(n)
  }

  /** The first key of a list and the others. */
  lemma NodesStep(q: Query, nodes: seq<Node>)
    requires nodes != [] && forall n :: n in nodes ==> IsMarked(n)
    ensures HasUnmatched(nodes) <==> IsUnmatched(nodes[0]) || HasUnmatched(nodes[1..])
    ensures forall n :: n in nodes[1..] ==> IsMarked(n)
    ensures Returned(q, false, nodes) == (if IsUnmatched(nodes[0]) then [] else [nodes[0]]) + Returned(q, false, nodes[1..])
    ensures nodes == [nodes[0]] + nodes[1..]
  {
    assert nodes[0] in nodes;
    assert forall n :: n in nodes <==> n == nodes[0] || n in nodes[1..];
  }

  lemma UptoStep(nodes: seq<Node>, root: Node)
    requires nodes != []
    ensures Upto(nodes + [root]) == if IsUnmatched(nodes[0]) then [] else [nodes[0]] + Upto(nodes[1..] + [root])
  {
    var all := nodes + [root];
    assert all[0] == nodes[0] && all[1..] == nodes[1..] + [root];
  }

  lemma UptoRoot(q: Query, root: Node)
    requires root.state == None
    ensures Upto([] + [root]) == [] + [root] && Returned(q, false, []) == [] && !HasUnmatched([])
  {
    assert [] + [root] == [root] && [root][1..] == [];
  }

  /** Up to the first key on the way, everything is returned that matches, and the root behind it if there is no such
      key. */
  lemma {:induction false} UptoIsReturned(q: Query, path: seq<Node>, root: Node)
    requires MatchesFirst(path) && root.state == None && forall n :: n in path ==> IsMarked(n)
    ensures if HasUnmatched(path) then Upto(path + [root]) == Returned(q, false, path)
            else Upto(path + [root]) == path + [root]
    decreases |path|
  {
    hide Upto, Returned, HasUnmatched, IsUnmatched, IsMarked;
    if path == [] {
      UptoRoot(q, root);
    } else {
      NodesStep(q, path);
      UptoStep(path, root);
      if IsUnmatched(path[0]) {
        NoneReturned(q, path);
      } else {
        UptoIsReturned(q, path[1..], root);
      }
    }
  }

  lemma {:induction false} NoneReturned(q: Query, nodes: seq<Node>)
    requires forall i :: 0 <= i < |nodes| ==> IsUnmatched(nodes[i])
    ensures Returned(q, false, nodes) == []
    decreases |nodes|
  {
    if nodes != [] { NoneReturned(q, nodes[1..]); }
  }

  lemma {:induction false} ReturnedIsShorter(q: Query, nodes: seq<Node>)
    requires forall n :: n in nodes ==> IsMarked(n)
    ensures if HasUnmatched(nodes) then |Returned(q, false, nodes)| < |nodes| else Returned(q, false, nodes) == nodes
    decreases |nodes|
  {
    hide Returned, HasUnmatched, IsUnmatched, IsMarked;
    if nodes == [] {
      NothingReturned(q);
    } else {
      NodesStep(q, nodes);
      ReturnedIsShorter(q, nodes[1..]);
    }
  }

  lemma NothingReturned(q: Query)
    ensures Returned(q, false, []) == [] && !HasUnmatched([])
  {
  }

  /** Both lists, from the keys before the path and on it. */
  lemma SameOffsets(q: Query, before: seq<Node>, path: seq<Node>, root: Node)
    requires MatchesFirst(path) && root.state == None && forall n :: n in before + path ==> IsMarked(n)
    ensures Offsets(before + Upto(path + [root])) == Offsets(Returned(q, false, before + path)) <==>
            HasUnmatched(path) && !HasUnmatched(before)
  {
    hide Upto, Returned, Offsets, IsMarked, MatchesFirst, HasUnmatched;
    assert forall n :: n in before || n in path ==> n in before + path;
    ReturnedConcat(q, false, before, path);
    ReturnedIsShorter(q, before);
    ReturnedIsShorter(q, path);
    UptoIsReturned(q, path, root);
    OffsetsLength(before + Upto(path + [root]));
    OffsetsLength(Returned(q, false, before + path));
  }

  lemma OffsetsLength(nodes: seq<Node>)
    ensures |Offsets(nodes)| == |nodes|
  {
  }

  /** The condition under which a filtered postorder without ancestors is right: some key below the root passes without
      matching, and all such keys are on the path from the last key that passes up to the root. */
  ghost predicate EndsOnTheWay(h: Hive, q: Query, t: T.Tree) {
    var root, names := RootNode(h, t), [NameAt(h, t.offset)];
    var passing, path := PrunedPost(h, q, root, names, t.kids), LastPath(h, q, root, names, t.kids);
    && (exists n :: n in passing && IsUnmatched(n))
    && forall n :: n in passing && IsUnmatched(n) ==> n in path
  }

  ghost predicate IsTree(h: Hive, t: T.Tree) {
    && t.offset in h && h[t.offset].kids == T.Roots(t.kids) && Plain(h[t.offset].name)
    && Holds(h, t.kids) && T.AllDistinct([t])
  }

  /**
    * Filtered postorder over a tree. With ancestors it returns exactly the wanted keys of the full postorder: the keys that
    * pass, and the root. Without them it returns all keys that pass and are not on the path from the last of them up to the
    * root, and of that path and the root the part up to the first key that is only on the way to a match. That is what
    * the filter wants if and only if the tree ends on the way.
    */
  lemma FilteredPostorderIsExact(h: Hive, q: Query, t: T.Tree)
    requires IsTree(h, t)
    ensures forall e :: e in PostLineages(h, [], [t]) ==> e.names != []
    ensures EntryOffsets(PostLineages(h, [], [t])) == T.TreePostorder(t)
    ensures var root, names, seen := RootNode(h, t), [NameAt(h, t.offset)], {t.offset};
            var before, path := BeforePath(h, q, root, names, t.kids), LastPath(h, q, root, names, t.kids) + [root];
            var all, some := FilteredPostorder(h, Some(q), true, [root], seen, [], 0),
                             FilteredPostorder(h, Some(q), false, [root], seen, [], 0);
            && all == before + path && some == before + Upto(path)
            && Offsets(all) == Keep(q, true, PostLineages(h, [], [t]))
            && (Offsets(some) == Keep(q, false, PostLineages(h, [], [t])) <==> EndsOnTheWay(h, q, t))
  {
    hide FilteredPostorder, PartsOf, Upto, BeforePath, LastPath, PrunedPost, Keep, PostLineages, Offsets, Returned, IsTree;
    var root, names, seen := RootNode(h, t), [NameAt(h, t.offset)], {t.offset};
    var before, path := BeforePath(h, q, root, names, t.kids), LastPath(h, q, root, names, t.kids);
    PostLineagesArePostorder(h, [], [t]);
    PostOfOne(t);
    PostorderIsCut(h, Some(q), true, [root], seen, [], 0);
    PostorderIsCut(h, Some(q), false, [root], seen, [], 0);
    PartsFromRoot(h, q, t);
    KeptPostFromRoot(h, q, true, t);
    KeptPostFromRoot(h, q, false, t);
    PathIsLast(h, q, root, names, t.kids);
    AllReturned(q, before + path + [root]);
    assert before + (path + [root]) == before + path + [root];
    RightWithoutAncestors(h, q, t);
  }

  lemma PostOfOne(t: T.Tree)
    ensures T.ForestPostorder([t]) == T.TreePostorder(t)
  {
    assert [t][1..] == [];
  }

  lemma {:induction false} AllReturned(q: Query, nodes: seq<Node>)
    ensures Returned(q, true, nodes) == nodes
    decreases |nodes|
  {
    if nodes != [] { AllReturned(q, nodes[1..]); }
  }

  /** The condition, in terms of the keys before the path and on it. */
  lemma RightWithoutAncestors(h: Hive, q: Query, t: T.Tree)
    requires IsTree(h, t)
    ensures var root, names := RootNode(h, t), [NameAt(h, t.offset)];
            var before, path := BeforePath(h, q, root, names, t.kids), LastPath(h, q, root, names, t.kids);
            Offsets(before + Upto(path + [root])) == Offsets(Returned(q, false, before + path)) <==> EndsOnTheWay(h, q, t)
  {
    hide Upto, BeforePath, LastPath, PrunedPost, Offsets, Returned, IsMarked, MatchesFirst, IsUnmatched, Holds, NameAt;
    var root, names := RootNode(h, t), [NameAt(h, t.offset)];
    var before, path := BeforePath(h, q, root, names, t.kids), LastPath(h, q, root, names, t.kids);
    PathIsLast(h, q, root, names, t.kids);
    PostIsMarked(h, q, root, names, t.kids);
    PathMatchesFirst(h, q, root, names, t.kids);
    PathIsApart(h, q, root, names, t.kids);
    SameOffsets(q, before, path, root);
    assert forall n :: n in before || n in path <==> n in before + path;
  }

  lemma PartsFromRoot(h: Hive, q: Query, t: T.Tree)
    requires IsTree(h, t)
    ensures var root, names := RootNode(h, t), [NameAt(h, t.offset)];
            PartsOf(h, Some(q), [root], {t.offset}, [], 0) ==
            Parts(BeforePath(h, q, root, names, t.kids), LastPath(h, q, root, names, t.kids) + [root])
  {
    var root, names, seen := RootNode(h, t), [NameAt(h, t.offset)], {t.offset};
    RootFacts(h, q, true, t);
    PopRoot(h, q, root, names, t.kids, seen);
    hide *;
    var pushed := Passing(h, q, root, names, t.kids);
    var seen1, cache1 := seen + T.ToSet(Offsets(pushed)), ReadNode(h, Some(q), root, 0).cache;
    GrewOnce(seen, T.ToSet(T.Roots(t.kids)), T.Below(t.kids), seen1);
    var f := NodeFrame(root, |pushed|, 0);
    PathIsLeft(h, q, root, names, t.kids, seen1, f, [], cache1);
    assert [f] + [] == [f] && [root] + [] == [root];
    NoFrames();
  }

  lemma NoFrames()
    ensures NodesOf([]) == []
  {
  }

  lemma PopRoot(h: Hive, q: Query, root: Node, names: seq<string>, kids: seq<T.Tree>, seen: set<nat>)
    requires names != [] && AllPlain(names) && root.path == PathOf(names)
    requires Holds(h, kids) && KidsOf(h, root.offset) == T.Roots(kids)
    requires T.Distinct(T.Roots(kids)) && T.ToSet(T.Roots(kids)) !! seen
    ensures var pushed, cache := Passing(h, q, root, names, kids), ReadNode(h, Some(q), root, 0).cache;
            var seen' := seen + T.ToSet(Offsets(pushed));
            && Grew(seen, seen', T.ToSet(T.Roots(kids))) && GoodCache(cache, names)
            && PartsOf(h, Some(q), [root], seen, [], 0) ==
               PartsOf(h, Some(q), pushed, seen', [NodeFrame(root, |pushed|, 0)], cache)
  {
    assert GoodCache(0, names);
    hide Holds, PartsOf, ReadSubKeys, NewNodes, T.Roots, PathOf, Passing, KidsOf, GoodCache, AllPlain;
    var pushed := Passing(h, q, root, names, kids);
    ReadIsPassing(h, q, root, names, kids, 0);
    PassingAreDistinct(h, q, root, names, kids, seen);
    PassingOffsets(h, q, root, names, kids);
    PartsStep(h, Some(q), [root], seen, [], 0);
    assert [root][1..] == [] && pushed + [] == pushed && Bump([]) == [];
    var f := NodeFrame(root, |pushed|, 0);
    assert [f] + [] == [f];
  }

  lemma RootFits(h: Hive, q: Query, t: T.Tree)
    requires IsTree(h, t)
    ensures StateFits(q, RootNode(h, t), [NameAt(h, t.offset)])
  {
    hide Holds;
    RootFacts(h, q, true, t);
  }

  /** Only a drain with ancestors should return the root. */
  lemma RootIsWanted(h: Hive, q: Query, a: bool, t: T.Tree)
    ensures Wanted(q, a, [NameAt(h, t.offset)]) <==> a
    ensures Emitted(q, a, RootNode(h, t)) == if a then [t.offset] else []
    ensures Offsets(Returned(q, a, [])) == []
  {
  }

  lemma KeptPostFromRoot(h: Hive, q: Query, a: bool, t: T.Tree)
    requires IsTree(h, t)
    ensures forall e :: e in PostLineages(h, [], [t]) ==> e.names != []
    ensures var root := RootNode(h, t);
            var passing := PrunedPost(h, q, root, [NameAt(h, t.offset)], t.kids);
            Keep(q, a, PostLineages(h, [], [t])) == Offsets(Returned(q, a, if a then passing + [root] else passing))
  {
    hide *;
    RootFits(h, q, t);
    RootIsWanted(h, q, a, t);
    var root, names := RootNode(h, t), [NameAt(h, t.offset)];
    var passing := PrunedPost(h, q, root, names, t.kids);
    KeepPostStep(h, q, a, [], [t]);
    NoneKept(h, q, a, root, []);
    ReturnedAround(q, a, passing, root, []);
    PrunedPostIsKept(h, q, a, root, names, t.kids);
    assert [t][0] == t && [t][1..] == [] && [] + names == names;
    var kept := Offsets(Returned(q, a, passing));
    assert kept + [] + [] == kept && kept + [t.offset] + [] == kept + [t.offset] && passing + [root] + [] == passing + [root];
  }

  // ----- Where it goes wrong -----

  /** If nothing below the root passes, a drain returns the root alone, with ancestors or without. */
  lemma RootAlone(h: Hive, q: Query, a: bool, t: T.Tree)
    requires IsTree(h, t) && Passing(h, q, RootNode(h, t), [NameAt(h, t.offset)], t.kids) == []
    ensures FilteredPostorder(h, Some(q), a, [RootNode(h, t)], {t.offset}, [], 0) == [RootNode(h, t)]
  {
    hide IsTree, FilteredPostorder, PartsOf, Passing, BeforePath, LastPath, PrunedPost;
    var root, names := RootNode(h, t), [NameAt(h, t.offset)];
    PostorderIsCut(h, Some(q), a, [root], {t.offset}, [], 0);
    PartsFromRoot(h, q, t);
    NoPath(h, q, root, names, t.kids);
    UptoRoot(q, root);
    assert [] + [root] == [root];
  }

  /** A root and one sub key. */
  const ONE_KEY: Hive := map[0 := Key("r", true, [1]), 1 := Key("a", false, [])]
  const ONE_KEY_TREE: T.Tree := T.Tree.Node(0, [T.Tree.Node(1, [])])

  /** Asked for that sub key, without ancestors, a drain returns the sub key and the root, which is not wanted. */
  lemma RootIsReturned()
    ensures var h, q, t := ONE_KEY, Query([Literal("a")], false, false), ONE_KEY_TREE;
            && IsTree(h, t) && (forall e :: e in PostLineages(h, [], [t]) ==> e.names != [])
            && Offsets(FilteredPostorder(h, Some(q), false, [RootNode(h, t)], {0}, [], 0)) == [1, 0]
            && Keep(q, false, PostLineages(h, [], [t])) == [1]
  {
    hide *;
    var h, q, t := ONE_KEY, Query([Literal("a")], false, false), ONE_KEY_TREE;
    OneKeyIsTree();
    OneKeyPasses();
    var root := RootNode(h, t);
    var n := KidNode(q, root, ["r", "a"], 1).value;
    PostorderIsCut(h, Some(q), false, [root], {0}, [], 0);
    PartsFromRoot(h, q, t);
    KeptPostFromRoot(h, q, false, t);
    TwoNodes(q, n, root);
  }

  lemma TwoNodes(q: Query, n: Node, root: Node)
    requires n.state == Some(Exact) && root.state == None
    ensures [] + Upto([n] + [root]) == [n, root] && Offsets([n, root]) == [n.offset, root.offset]
    ensures Offsets(Returned(q, false, [n])) == [n.offset]
  {
    assert [n] + [root] == [n, root] && [n, root][1..] == [root] && [root][1..] == [] && [n][1..] == [];
    assert Upto([root]) == [root] && Upto([n, root]) == [n, root];
    assert Returned(q, false, []) == [] && Returned(q, false, [n]) == [n];
  }

  lemma OneKeyIsTree()
    ensures IsTree(ONE_KEY, ONE_KEY_TREE) && NameAt(ONE_KEY, 0) == "r" && NameAt(ONE_KEY, 1) == "a"
    ensures ONE_KEY_TREE.offset == 0 && ONE_KEY_TREE.kids == [T.Tree.Node(1, [])]
    ensures RootNode(ONE_KEY, ONE_KEY_TREE).state == None && RootNode(ONE_KEY, ONE_KEY_TREE).offset == 0
  {
    var kids := [T.Tree.Node(1, [])];
    assert kids[1..] == [] && [ONE_KEY_TREE][1..] == [];
    assert T.Roots(kids) == [1] && T.Roots([]) == [];
  }

  lemma OneKeyPasses()
    ensures var q, root, ts := Query([Literal("a")], false, false), RootNode(ONE_KEY, ONE_KEY_TREE), [T.Tree.Node(1, [])];
            var n := KidNode(q, root, ["r", "a"], 1);
            && n.Some? && n.value.offset == 1 && n.value.state == Some(Exact)
            && PrunedPost(ONE_KEY, q, root, ["r"], ts) == [n.value] && BeforePath(ONE_KEY, q, root, ["r"], ts) == []
            && LastPath(ONE_KEY, q, root, ["r"], ts) == [n.value]
  {
    var q, root, ts := Query([Literal("a")], false, false), RootNode(ONE_KEY, ONE_KEY_TREE), [T.Tree.Node(1, [])];
    assert Segments(q, ["r", "a"]) == ["a"] && Lower("a") == "a";
    assert CheckSegments(q.keyPath, ["a"]) == IterateAndMatch;
    var n := KidNode(q, root, ["r", "a"], 1).value;
    hide KidNode, CheckSegments, Lower, RootNode;
    assert ts[1..] == [] && ["r"] + [NameAt(ONE_KEY, 1)] == ["r", "a"];
    PostStep(ONE_KEY, q, root, ["r"], ts);
    PathStep(ONE_KEY, q, root, ["r"], ts);
    NoPost(ONE_KEY, q, n, ["r", "a"]);
    NoPost(ONE_KEY, q, root, ["r"]);
  }
}
