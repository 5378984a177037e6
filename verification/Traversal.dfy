/**
  * The order in which the key iterators visit a hive, as functions of the offsets on their stacks. A hive is a
  * graph here: nothing is assumed about cycles or shared keys until trees are considered at the end.
  */
module Traversal {
  /** For every key offset, the offsets of its readable sub keys in list order. */
  type Graph = map<nat, seq<nat>>

  function Kids(g: Graph, o: nat): seq<nat> {
    if o in g then g[o] else []
  }

  function ToSet(s: seq<nat>): (r: set<nat>)
    ensures forall x :: x in r <==> x in s
  {
    set x | x in s
  }

  /** Every offset the graph mentions. */
  ghost function Universe(g: Graph): set<nat> {
    g.Keys + set o, k | o in g && k in g[o] :: k
  }

  /** The sub keys that pass the duplicate check when pushed last to first: of equal offsets the last is kept. */
  function NewKids(kids: seq<nat>, seen: set<nat>): (r: seq<nat>)
    ensures forall x :: x in r <==> x in kids && x !in seen
    ensures Distinct(r)
  {
    if kids == [] then []
    else
      var rest := NewKids(kids[1..], seen);
      if kids[0] in seen || kids[0] in rest then rest else [kids[0]] + rest
  }

  ghost predicate Distinct(s: seq<nat>) {
    forall i, j :: 0 <= i < j < |s| ==> s[i] != s[j]
  }

  lemma SeenShrinks(g: Graph, o: nat, seen: set<nat>)
    ensures var kids := NewKids(Kids(g, o), seen);
            || (kids == [] && seen + ToSet(kids) == seen)
            || Universe(g) - (seen + ToSet(kids)) < Universe(g) - seen
  {
    var kids := NewKids(Kids(g, o), seen);
    if kids != [] {
      assert kids[0] in Kids(g, o) && kids[0] in Universe(g) - seen;
    }
  }

  /** The preorder drain: pop, push the new sub keys, return what was popped. `todo` is the stack, top first. */
  function Preorder(g: Graph, todo: seq<nat>, seen: set<nat>): seq<nat>
    decreases Universe(g) - seen, |todo|
  {
    if todo == [] then []
    else
      var kids := NewKids(Kids(g, todo[0]), seen);
      SeenShrinks(g, todo[0], seen);
      [todo[0]] + Preorder(g, kids + todo[1..], seen + ToSet(kids))
  }

  /** A key waiting to be returned: how many sub keys were read, and how many keys were traversed above it so far. */
  datatype Frame = Frame(offset: nat, toReturn: nat, trackReturned: nat)

  /** Counts one more traversed key on the top frame. */
  function Bump(frames: seq<Frame>): seq<Frame> {
    if frames == [] then []
    else frames[0 := frames[0].(trackReturned := frames[0].trackReturned + 1)]
  }

  /** The postorder drain. Both stacks are top first. The number of sub keys is counted before the duplicate check. */
  function Postorder(g: Graph, todo: seq<nat>, seen: set<nat>, frames: seq<Frame>): seq<nat>
    decreases Universe(g) - seen, |todo|, |frames|
  {
    if todo == [] then
      if frames == [] then [] else [frames[0].offset] + Postorder(g, [], seen, frames[1..])
    else if frames != [] && frames[0].trackReturned == frames[0].toReturn then
      [frames[0].offset] + Postorder(g, todo, seen, frames[1..])
    else
      var kids := NewKids(Kids(g, todo[0]), seen);
      SeenShrinks(g, todo[0], seen);
      Postorder(g, kids + todo[1..], seen + ToSet(kids), [Frame(todo[0], |Kids(g, todo[0])|, 0)] + Bump(frames))
  }

  // ----- Any graph: every reachable key exactly once -----

  ghost predicate IsPath(g: Graph, p: seq<nat>) {
    p != [] && forall i, j :: 0 <= i < j < |p| && j == i + 1 ==> p[j] in Kids(g, p[i])
  }

  ghost predicate Reachable(g: Graph, from: nat, to: nat) {
    exists p :: IsPath(g, p) && p[0] == from && p[|p| - 1] == to
  }

  lemma ReachSelf(g: Graph, o: nat)
    ensures Reachable(g, o, o)
  {
    assert IsPath(g, [o]);
  }

  lemma ReachStep(g: Graph, from: nat, o: nat, kid: nat)
    requires Reachable(g, from, o) && kid in Kids(g, o)
    ensures Reachable(g, from, kid)
  {
    var p :| IsPath(g, p) && p[0] == from && p[|p| - 1] == o;
    assert IsPath(g, p + [kid]);
  }

  /** A set that holds `from` and is closed under sub keys holds everything reachable. */
  lemma {:induction false} ClosedHoldsReachable(g: Graph, s: set<nat>, p: seq<nat>)
    requires IsPath(g, p) && p[0] in s
    requires forall o, k :: o in s && k in Kids(g, o) ==> k in s
    ensures p[|p| - 1] in s
    decreases |p|
  {
    if |p| > 1 {
      assert p[1] in Kids(g, p[0]);
      assert IsPath(g, p[1..]);
      ClosedHoldsReachable(g, s, p[1..]);
    }
  }

  /** What a drain from these stacks returns: the waiting keys and newly found ones, each once, with all sub keys. */
  ghost predicate Sweeps(g: Graph, root: nat, waiting: set<nat>, seen: set<nat>, r: seq<nat>) {
    && Distinct(r)
    && (forall x :: x in waiting ==> x in r)
    && (forall x :: x in r && x in seen ==> x in waiting)
    && (forall x :: x in r ==> Reachable(g, root, x))
    && (forall x, k :: x in r && k in Kids(g, x) ==> k in seen || k in r)
  }

  /** Returning a waiting key whose sub keys have all been seen. */
  lemma Emit(g: Graph, root: nat, o: nat, waiting: set<nat>, seen: set<nat>, r: seq<nat>)
    requires Sweeps(g, root, waiting, seen, r)
    requires o in seen && o !in waiting && Reachable(g, root, o)
    requires forall k :: k in Kids(g, o) ==> k in seen
    ensures Sweeps(g, root, waiting + {o}, seen, [o] + r)
  {
    hide Reachable;
    assert o !in r;
  }

  /** Pushing new keys. */
  lemma Push(g: Graph, root: nat, pushed: set<nat>, waiting: set<nat>, seen: set<nat>, r: seq<nat>)
    requires Sweeps(g, root, waiting + pushed, seen + pushed, r)
    requires pushed !! seen
    ensures Sweeps(g, root, waiting, seen, r)
  {
    hide Reachable;
  }

  lemma DistinctConcat(a: seq<nat>, b: seq<nat>)
    requires Distinct(a) && Distinct(b) && ToSet(a) !! ToSet(b)
    ensures Distinct(a + b)
    ensures ToSet(a + b) == ToSet(a) + ToSet(b)
  {
    forall i, j | 0 <= i < j < |a + b|
      ensures (a + b)[i] != (a + b)[j]
    {
      if i < |a| <= j { assert a[i] in ToSet(a) && b[j - |a|] in ToSet(b); }
    }
  }

  lemma {:induction false} PreorderSweeps(g: Graph, root: nat, todo: seq<nat>, seen: set<nat>)
    requires Distinct(todo) && ToSet(todo) <= seen
    requires forall x :: x in todo ==> Reachable(g, root, x)
    ensures Sweeps(g, root, ToSet(todo), seen, Preorder(g, todo, seen))
    decreases Universe(g) - seen, |todo|
  {
    hide Reachable, Sweeps;
    if todo == [] {
      assert ToSet(todo) == {};
      SweepsNothing(g, root, seen);
    } else {
      var o := todo[0];
      var kids := NewKids(Kids(g, o), seen);
      var todo', seen' := kids + todo[1..], seen + ToSet(kids);
      SeenShrinks(g, o, seen);
      DistinctConcat(kids, todo[1..]);
      forall x | x in todo'
        ensures Reachable(g, root, x)
      {
        if x in kids { ReachStep(g, root, o, x); }
      }
      PreorderSweeps(g, root, todo', seen');
      Emit(g, root, o, ToSet(todo'), seen', Preorder(g, todo', seen'));
      assert ToSet(todo') + {o} == ToSet(todo) + ToSet(kids);
      Push(g, root, ToSet(kids), ToSet(todo), seen, Preorder(g, todo, seen));
    }
  }

  lemma SweepsNothing(g: Graph, root: nat, seen: set<nat>)
    ensures Sweeps(g, root, {}, seen, [])
  {
  }

  lemma PreorderVisitsReachable(g: Graph, root: nat)
    ensures var r := Preorder(g, [root], {root});
            Distinct(r) && forall o :: o in r <==> Reachable(g, root, o)
  {
    var r := Preorder(g, [root], {root});
    ReachSelf(g, root);
    PreorderSweeps(g, root, [root], {root});
    assert ToSet([root]) == {root};
    SweptAll(g, root, r);
  }

  lemma SweptAll(g: Graph, root: nat, r: seq<nat>)
    requires Sweeps(g, root, {root}, {root}, r)
    ensures forall o :: o in r <==> Reachable(g, root, o)
  {
    forall o | Reachable(g, root, o)
      ensures o in r
    {
      var p :| IsPath(g, p) && p[0] == root && p[|p| - 1] == o;
      ClosedHoldsReachable(g, ToSet(r), p);
    }
  }

  function OffsetsOf(frames: seq<Frame>): (r: seq<nat>)
    ensures |r| == |frames| && forall i :: 0 <= i < |r| ==> r[i] == frames[i].offset
  {
    seq(|frames|, i requires 0 <= i < |frames| => frames[i].offset)
  }

  /** All sub keys of the waiting frames have been seen. */
  ghost predicate Expanded(g: Graph, frames: seq<Frame>, seen: set<nat>) {
    forall i, k :: 0 <= i < |frames| && k in Kids(g, frames[i].offset) ==> k in seen
  }

  /** The invariant of the two postorder stacks. */
  ghost predicate StacksFit(g: Graph, root: nat, todo: seq<nat>, seen: set<nat>, frames: seq<Frame>) {
    var waiting := todo + OffsetsOf(frames);
    && Distinct(waiting) && ToSet(waiting) <= seen
    && (forall x :: x in waiting ==> Reachable(g, root, x))
    && Expanded(g, frames, seen)
  }

  lemma {:induction false} PostorderSweeps(g: Graph, root: nat, todo: seq<nat>, seen: set<nat>, frames: seq<Frame>)
    requires StacksFit(g, root, todo, seen, frames)
    ensures Sweeps(g, root, ToSet(todo + OffsetsOf(frames)), seen, Postorder(g, todo, seen, frames))
    decreases Universe(g) - seen, |todo|, |frames|
  {
    hide Sweeps, StacksFit, NewKids, Kids;
    var waiting := todo + OffsetsOf(frames);
    if todo == [] && frames == [] {
      assert ToSet(waiting) == {};
      SweepsNothing(g, root, seen);
    } else if todo == [] || (frames != [] && frames[0].trackReturned == frames[0].toReturn) {
      ReturnFits(g, root, todo, seen, frames);
      PostorderSweeps(g, root, todo, seen, frames[1..]);
      Emit(g, root, frames[0].offset, ToSet(todo + OffsetsOf(frames[1..])), seen, Postorder(g, todo, seen, frames[1..]));
    } else {
      var kids := NewKids(Kids(g, todo[0]), seen);
      var todo', seen' := kids + todo[1..], seen + ToSet(kids);
      var frames' := [Frame(todo[0], |Kids(g, todo[0])|, 0)] + Bump(frames);
      SeenShrinks(g, todo[0], seen);
      TraverseFits(g, root, todo, seen, frames);
      PostorderSweeps(g, root, todo', seen', frames');
      Push(g, root, ToSet(kids), ToSet(waiting), seen, Postorder(g, todo', seen', frames'));
    }
  }

  lemma ReturnFits(g: Graph, root: nat, todo: seq<nat>, seen: set<nat>, frames: seq<Frame>)
    requires StacksFit(g, root, todo, seen, frames) && frames != []
    ensures StacksFit(g, root, todo, seen, frames[1..])
    ensures var o, rest := frames[0].offset, todo + OffsetsOf(frames[1..]);
            && o in seen && o !in ToSet(rest) && ToSet(rest) + {o} == ToSet(todo + OffsetsOf(frames))
            && Reachable(g, root, o) && forall k :: k in Kids(g, o) ==> k in seen
  {
    hide Reachable, Kids;
    var waiting, o, rest := todo + OffsetsOf(frames), frames[0].offset, todo + OffsetsOf(frames[1..]);
    Dropped(waiting, |todo|);
    assert OffsetsOf(frames)[1..] == OffsetsOf(frames[1..]);
    assert waiting[..|todo|] + waiting[|todo| + 1..] == rest && waiting[|todo|] == o;
    assert o in waiting;
  }

  lemma TraverseFits(g: Graph, root: nat, todo: seq<nat>, seen: set<nat>, frames: seq<Frame>)
    requires StacksFit(g, root, todo, seen, frames) && todo != []
    ensures var o := todo[0];
            var kids := NewKids(Kids(g, o), seen);
            var frames' := [Frame(o, |Kids(g, o)|, 0)] + Bump(frames);
            && StacksFit(g, root, kids + todo[1..], seen + ToSet(kids), frames')
            && ToSet((kids + todo[1..]) + OffsetsOf(frames')) == ToSet(todo + OffsetsOf(frames)) + ToSet(kids)
            && ToSet(kids) !! seen
  {
    hide Reachable, Kids;
    var o := todo[0];
    var kids := NewKids(Kids(g, o), seen);
    var frames' := [Frame(o, |Kids(g, o)|, 0)] + Bump(frames);
    assert OffsetsOf(frames') == [o] + OffsetsOf(frames);
    Traversed(todo, OffsetsOf(frames), kids);
    assert o in todo + OffsetsOf(frames);
    forall x | x in (kids + todo[1..]) + OffsetsOf(frames')
      ensures Reachable(g, root, x)
    {
      if x in kids { ReachStep(g, root, o, x); }
    }
  }

  lemma Dropped(s: seq<nat>, i: nat)
    requires Distinct(s) && i < |s|
    ensures var rest := s[..i] + s[i + 1..];
            Distinct(rest) && s[i] !in rest && ToSet(rest) + {s[i]} == ToSet(s)
  {
    var rest := s[..i] + s[i + 1..];
    assert forall k :: 0 <= k < |rest| ==> rest[k] == s[if k < i then k else k + 1];
    forall x | x in s && x != s[i]
      ensures x in rest
    {
      var k :| 0 <= k < |s| && s[k] == x;
      assert rest[if k < i then k else k - 1] == x;
    }
  }

  lemma Traversed(todo: seq<nat>, returning: seq<nat>, kids: seq<nat>)
    requires todo != [] && Distinct(todo + returning) && Distinct(kids) && ToSet(kids) !! ToSet(todo + returning)
    ensures var waiting := (kids + todo[1..]) + ([todo[0]] + returning);
            Distinct(waiting) && ToSet(waiting) == ToSet(todo + returning) + ToSet(kids)
  {
    var old_ := todo + returning;
    var moved := old_[1..|todo|] + [todo[0]] + returning;
    var n := |todo| - 1;
    assert forall k :: 0 <= k < |moved| ==> moved[k] == old_[if k < n then k + 1 else if k == n then 0 else k];
    assert Distinct(moved);
    assert forall x :: x in moved <==> x in old_ by {
      forall x | x in old_
        ensures x in moved
      {
        var k :| 0 <= k < |old_| && old_[k] == x;
        assert moved[if k == 0 then n else if k <= n then k - 1 else k] == x;
      }
    }
    DistinctConcat(kids, moved);
    assert (kids + todo[1..]) + ([todo[0]] + returning) == kids + moved;
  }

  lemma PostorderVisitsReachable(g: Graph, root: nat)
    ensures var r := Postorder(g, [root], {root}, []);
            Distinct(r) && forall o :: o in r <==> Reachable(g, root, o)
  {
    hide Postorder, Reachable, Sweeps;
    var r := Postorder(g, [root], {root}, []);
    ReachSelf(g, root);
    assert [root] + OffsetsOf([]) == [root];
    PostorderSweeps(g, root, [root], {root}, []);
    assert ToSet([root]) == {root};
    SweptAll(g, root, r);
    SweepsDistinct(g, root, r);
  }

  lemma SweepsDistinct(g: Graph, root: nat, r: seq<nat>)
    requires Sweeps(g, root, {root}, {root}, r)
    ensures Distinct(r)
  {
  }

  /** On every graph the two orders return the same keys, each as often. */
  lemma OrdersArePermutations(g: Graph, root: nat)
    ensures multiset(Preorder(g, [root], {root})) == multiset(Postorder(g, [root], {root}, []))
  {
    hide Preorder, Postorder, Reachable;
    var r, s := Preorder(g, [root], {root}), Postorder(g, [root], {root}, []);
    PreorderVisitsReachable(g, root);
    PostorderVisitsReachable(g, root);
    forall x
      ensures multiset(r)[x] == multiset(s)[x]
    {
      CountDistinct(r, x);
      CountDistinct(s, x);
    }
  }

  lemma {:induction false} CountDistinct(s: seq<nat>, x: nat)
    requires Distinct(s)
    ensures multiset(s)[x] == if x in s then 1 else 0
  {
    if s != [] {
      var last := |s| - 1;
      assert s == s[..last] + [s[last]];
      CountDistinct(s[..last], x);
    }
  }

  // ----- Trees: the textbook orders -----

  datatype Tree = Node(offset: nat, kids: seq<Tree>)

  function Roots(ts: seq<Tree>): (r: seq<nat>)
    ensures |r| == |ts| && forall i :: 0 <= i < |r| ==> r[i] == ts[i].offset
  {
    seq(|ts|, i requires 0 <= i < |ts| => ts[i].offset)
  }

  /** Root first, then the sub trees in order. */
  function TreePreorder(t: Tree): seq<nat>
    decreases t, 0
  {
    [t.offset] + ForestPreorder(t.kids)
  }

  function ForestPreorder(ts: seq<Tree>): seq<nat>
    decreases ts
  {
    if ts == [] then [] else TreePreorder(ts[0]) + ForestPreorder(ts[1..])
  }

  /** The sub trees in order, then the root. */
  function TreePostorder(t: Tree): seq<nat>
    decreases t, 0
  {
    ForestPostorder(t.kids) + [t.offset]
  }

  function ForestPostorder(ts: seq<Tree>): seq<nat>
    decreases ts
  {
    if ts == [] then [] else TreePostorder(ts[0]) + ForestPostorder(ts[1..])
  }

  /** All offsets of the trees. */
  ghost function Members(ts: seq<Tree>): (r: set<nat>)
    ensures forall i :: 0 <= i < |ts| ==> ts[i].offset in r
    decreases ts
  {
    if ts == [] then {} else {ts[0].offset} + Members(ts[0].kids) + Members(ts[1..])
  }

  /** All offsets strictly below the roots of the trees. */
  ghost function Below(ts: seq<Tree>): (r: set<nat>)
    ensures r <= Members(ts)
  {
    if ts == [] then {} else Members(ts[0].kids) + Below(ts[1..])
  }

  /** No offset occurs twice in the trees. */
  ghost predicate AllDistinct(ts: seq<Tree>)
    decreases ts
  {
    ts == [] ||
    (&& ts[0].offset !in Members(ts[0].kids) && AllDistinct(ts[0].kids)
     && ({ts[0].offset} + Members(ts[0].kids)) !! Members(ts[1..]) && AllDistinct(ts[1..]))
  }

  /** The graph has the shape of the trees. */
  ghost predicate Shapes(g: Graph, ts: seq<Tree>)
    decreases ts
  {
    ts == [] || (Kids(g, ts[0].offset) == Roots(ts[0].kids) && Shapes(g, ts[0].kids) && Shapes(g, ts[1..]))
  }

  lemma {:induction false} MembersSplit(ts: seq<Tree>)
    ensures Members(ts) == ToSet(Roots(ts)) + Below(ts)
    decreases |ts|
  {
    if ts != [] {
      MembersSplit(ts[1..]);
      RootsCons(ts);
    }
  }

  lemma RootsCons(ts: seq<Tree>)
    requires ts != []
    ensures Roots(ts) == [ts[0].offset] + Roots(ts[1..])
    ensures ToSet(Roots(ts)) == {ts[0].offset} + ToSet(Roots(ts[1..]))
  {
  }

  lemma {:induction false} RootsAndBelow(ts: seq<Tree>)
    ensures Members(ts) == ToSet(Roots(ts)) + Below(ts)
    ensures AllDistinct(ts) ==> Distinct(Roots(ts)) && ToSet(Roots(ts)) !! Below(ts)
    decreases |ts|
  {
    MembersSplit(ts);
    if ts != [] && AllDistinct(ts) {
      RootsAndBelow(ts[1..]);
      RootsCons(ts);
      var first := [ts[0].offset];
      assert ToSet(first) == {ts[0].offset};
      DistinctConcat(first, Roots(ts[1..]));
    }
  }

  lemma {:induction false} NewKidsOfTree(kids: seq<nat>, seen: set<nat>)
    requires Distinct(kids) && ToSet(kids) !! seen
    ensures NewKids(kids, seen) == kids
  {
    if kids != [] {
      assert forall i :: 0 < i < |kids| ==> kids[0] != kids[i];
      assert kids[0] in ToSet(kids);
      NewKidsOfTree(kids[1..], seen);
    }
  }

  /** What pushing the sub keys of the first tree does: all are new, and what is below them stays unseen. */
  lemma FirstTree(g: Graph, ts: seq<Tree>, rest: seq<nat>, seen: set<nat>)
    requires ts != [] && Shapes(g, ts) && AllDistinct(ts) && Below(ts) !! seen
    ensures var t, todo := ts[0], Roots(ts) + rest;
            var seen' := seen + ToSet(Roots(t.kids));
            && Kids(g, t.offset) == NewKids(Kids(g, t.offset), seen) == Roots(t.kids)
            && todo != [] && todo[0] == t.offset && todo[1..] == Roots(ts[1..]) + rest
            && Below(t.kids) !! seen'
            && seen' + Below(t.kids) == seen + Members(t.kids)
            && Below(ts[1..]) !! seen + Members(t.kids)
            && (seen + Members(t.kids)) + Below(ts[1..]) == seen + Below(ts)
            && Shapes(g, t.kids) && Shapes(g, ts[1..]) && AllDistinct(t.kids) && AllDistinct(ts[1..])
  {
    hide Kids, NewKids;
    RootsAndBelow(ts[0].kids);
    NewKidsOfTree(Roots(ts[0].kids), seen);
  }

  /** With a forest on top of the stack, the iterator first returns the preorder of the forest. */
  lemma {:induction false} PreorderOfForest(g: Graph, ts: seq<Tree>, rest: seq<nat>, seen: set<nat>)
    requires Shapes(g, ts) && AllDistinct(ts) && Below(ts) !! seen
    ensures Preorder(g, Roots(ts) + rest, seen) == ForestPreorder(ts) + Preorder(g, rest, seen + Below(ts))
    decreases ts
  {
    hide Kids, NewKids, Members, Below, Shapes, AllDistinct, Preorder;
    if ts == [] {
      NothingBelow(ts, rest, seen);
    } else {
      var t := ts[0];
      FirstTree(g, ts, rest, seen);
      var seen', todo' := seen + ToSet(Roots(t.kids)), Roots(ts[1..]) + rest;
      PreorderPop(g, Roots(ts) + rest, seen);
      PreorderOfForest(g, t.kids, todo', seen');
      PreorderOfForest(g, ts[1..], rest, seen + Members(t.kids));
      var end := Preorder(g, rest, seen + Below(ts));
      assert [t.offset] + (ForestPreorder(t.kids) + (ForestPreorder(ts[1..]) + end)) ==
             (([t.offset] + ForestPreorder(t.kids)) + ForestPreorder(ts[1..])) + end;
    }
  }

  lemma PreorderEnds(g: Graph, seen: set<nat>)
    ensures Preorder(g, [], seen) == []
  {
  }

  lemma PreorderPop(g: Graph, todo: seq<nat>, seen: set<nat>)
    requires todo != []
    ensures var kids := NewKids(Kids(g, todo[0]), seen);
            Preorder(g, todo, seen) == [todo[0]] + Preorder(g, kids + todo[1..], seen + ToSet(kids))
  {
  }

  lemma PostorderPop(g: Graph, todo: seq<nat>, seen: set<nat>, frames: seq<Frame>)
    requires todo != [] && (frames == [] || frames[0].trackReturned != frames[0].toReturn)
    ensures var kids := NewKids(Kids(g, todo[0]), seen);
            Postorder(g, todo, seen, frames) ==
            Postorder(g, kids + todo[1..], seen + ToSet(kids), [Frame(todo[0], |Kids(g, todo[0])|, 0)] + Bump(frames))
  {
  }

  /** A key whose count is full is returned next, whether or not anything is left to traverse. */
  lemma PostorderReturn(g: Graph, todo: seq<nat>, seen: set<nat>, f: Frame, frames: seq<Frame>)
    requires f.trackReturned == f.toReturn
    ensures Postorder(g, todo, seen, [f] + frames) == [f.offset] + Postorder(g, todo, seen, frames)
  {
    assert ([f] + frames)[1..] == frames;
  }

  lemma NothingBelow(ts: seq<Tree>, rest: seq<nat>, seen: set<nat>)
    requires ts == []
    ensures Roots(ts) + rest == rest && seen + Below(ts) == seen
  {
  }

  /** With a forest on top of the stack and its parent waiting for exactly its trees, the iterator first returns the
      postorder of the forest, and then the parent has been told of all of them. */
  lemma {:induction false} PostorderOfForest(g: Graph, ts: seq<Tree>, rest: seq<nat>, seen: set<nat>, parent: Frame,
                                             frames: seq<Frame>)
    requires Shapes(g, ts) && AllDistinct(ts) && Below(ts) !! seen
    requires parent.trackReturned + |ts| == parent.toReturn
    ensures Postorder(g, Roots(ts) + rest, seen, [parent] + frames) ==
            ForestPostorder(ts) +
            Postorder(g, rest, seen + Below(ts), [parent.(trackReturned := parent.toReturn)] + frames)
    decreases ts
  {
    hide Kids, NewKids, Members, Below, Shapes, AllDistinct, Postorder, Bump;
    if ts == [] {
      NothingBelow(ts, rest, seen);
    } else {
      var t := ts[0];
      FirstTree(g, ts, rest, seen);
      var seen', todo', below := seen + ToSet(Roots(t.kids)), Roots(ts[1..]) + rest, seen + Members(t.kids);
      var parent' := parent.(trackReturned := parent.trackReturned + 1);
      var own := Frame(t.offset, |t.kids|, 0);
      PostorderPop(g, Roots(ts) + rest, seen, [parent] + frames);
      Bumped(parent, frames);
      PostorderOfForest(g, t.kids, todo', seen', own, [parent'] + frames);
      PostorderReturn(g, todo', below, own.(trackReturned := own.toReturn), [parent'] + frames);
      PostorderOfForest(g, ts[1..], rest, below, parent', frames);
      var end := Postorder(g, rest, seen + Below(ts), [parent.(trackReturned := parent.toReturn)] + frames);
      assert ForestPostorder(t.kids) + ([t.offset] + (ForestPostorder(ts[1..]) + end)) ==
             ((ForestPostorder(t.kids) + [t.offset]) + ForestPostorder(ts[1..])) + end;
    }
  }

  lemma Bumped(f: Frame, frames: seq<Frame>)
    ensures Bump([f] + frames) == [f.(trackReturned := f.trackReturned + 1)] + frames
  {
  }

  /** On a hive that is a tree, draining either iterator gives the textbook order. */
  lemma TreeOrders(g: Graph, t: Tree)
    requires Shapes(g, [t]) && AllDistinct([t])
    ensures Preorder(g, [t.offset], {t.offset}) == TreePreorder(t)
    ensures Postorder(g, [t.offset], {t.offset}, []) == TreePostorder(t)
  {
    var seen := {t.offset};
    assert [t][1..] == [];
    assert Below([t]) !! seen by { RootsAndBelow([t]); assert t.offset in ToSet(Roots([t])); }
    FirstTree(g, [t], [], seen);
    hide *;
    var own := Frame(t.offset, |t.kids|, 0);
    assert [t.offset] + [] == [t.offset] && Roots([t]) == [t.offset] && Roots(t.kids) + [] == Roots(t.kids);
    assert Preorder(g, [t.offset], seen) == TreePreorder(t) by {
      PreorderOfForest(g, [t], [], seen);
      EmptyOrders(g, t, seen + Below([t]));
    }
    PostorderPop(g, [t.offset], seen, []);
    EmptyOrders(g, t, seen + Members(t.kids));
    PostorderOfForest(g, t.kids, [], seen + ToSet(Roots(t.kids)), own, []);
    assert [own.(trackReturned := own.toReturn)] + [] == [own.(trackReturned := own.toReturn)];
    assert [own] + [] == [own];
  }

  lemma EmptyOrders(g: Graph, t: Tree, seen: set<nat>)
    ensures Preorder(g, [], seen) == [] && Bump([]) == []
    ensures ForestPreorder([t]) + [] == TreePreorder(t)
    ensures forall f: Frame :: Postorder(g, [], seen, [f]) == [f.offset]
    ensures TreePostorder(t) == ForestPostorder(t.kids) + [t.offset]
  {
    assert [t][1..] == [];
    forall f: Frame
      ensures Postorder(g, [], seen, [f]) == [f.offset]
    {
      assert [f][1..] == [];
    }
  }
}
