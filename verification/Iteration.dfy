/** The key iterators: what a drain returns, in general, without a filter, and for a filtered tree. */
module Iteration {
  import opened Common
  import opened Paths
  import opened Filtering
  import T = Traversal

  function Offsets(nodes: seq<Node>): (r: seq<nat>)
    ensures |r| == |nodes| && forall i :: 0 <= i < |r| ==> r[i] == nodes[i].offset
  {
    seq(|nodes|, i requires 0 <= i < |nodes| => nodes[i].offset)
  }

  lemma OffsetsConcat(a: seq<Node>, b: seq<Node>)
    ensures Offsets(a + b) == Offsets(a) + Offsets(b)
  {
  }

  lemma OffsetsOfTail(a: seq<Node>)
    requires a != []
    ensures Offsets(a) == [a[0].offset] + Offsets(a[1..]) && Offsets(a)[1..] == Offsets(a[1..])
  {
  }

  /** The nodes that pass the duplicate check when pushed last to first. */
  function NewNodes(nodes: seq<Node>, seen: set<nat>): (r: seq<Node>)
    ensures forall n :: n in r ==> n in nodes
  {
    if nodes == [] then []
    else
      var rest := NewNodes(nodes[1..], seen);
      if nodes[0].offset in seen || nodes[0].offset in Offsets(rest) then rest else [nodes[0]] + rest
  }

  lemma {:induction false} NewNodesAreNewKids(nodes: seq<Node>, seen: set<nat>)
    ensures Offsets(NewNodes(nodes, seen)) == T.NewKids(Offsets(nodes), seen)
    decreases |nodes|
  {
    if nodes != [] {
      hide Offsets;
      var rest := NewNodes(nodes[1..], seen);
      NewNodesAreNewKids(nodes[1..], seen);
      OffsetsOfTail(nodes);
      OffsetsConcat([nodes[0]], rest);
      assert Offsets([nodes[0]]) == [nodes[0].offset];
    }
  }

  /** Reads the sub keys of a node through the filter. */
  function ReadNode(h: Hive, q: Option<Query>, node: Node, cache: nat): Reading {
    ReadSubKeys(h, q, node, KidsOf(h, node.offset), cache)
  }

  /** The offsets among `kids` at which a key can be read. */
  function Present(h: Hive, kids: seq<nat>): (r: seq<nat>)
    ensures forall k :: k in r <==> k in kids && k in h
  {
    if kids == [] then [] else (if kids[0] in h then [kids[0]] else []) + Present(h, kids[1..])
  }

  function GraphOf(h: Hive): T.Graph {
    map o | o in h :: Present(h, h[o].kids)
  }

  lemma NewAreInUniverse(h: Hive, q: Option<Query>, node: Node, cache: nat, seen: set<nat>)
    ensures var fresh' := T.ToSet(Offsets(NewNodes(ReadNode(h, q, node, cache).nodes, seen)));
            var u := T.Universe(GraphOf(h));
            && fresh' <= u - seen
            && (fresh' == {} <==> NewNodes(ReadNode(h, q, node, cache).nodes, seen) == [])
  {
    hide ReadSubKeys, NewNodes, T.NewKids;
    var read, g := ReadNode(h, q, node, cache), GraphOf(h);
    var nodes := NewNodes(read.nodes, seen);
    NewNodesAreNewKids(read.nodes, seen);
    forall o | o in Offsets(nodes)
      ensures o in T.Universe(g) && o !in seen
    {
      var i :| 0 <= i < |nodes| && nodes[i].offset == o;
      assert nodes[i] in nodes && nodes[i] in read.nodes;
      assert node.offset in g && o in g[node.offset];
    }
    if nodes != [] { assert nodes[0].offset in Offsets(nodes); }
  }

  predicate IsReturned(q: Option<Query>, includeAncestors: bool, n: Node) {
    includeAncestors || q.None? || IsMatchOrDescendent(n)
  }

  /** Everything a preorder drain returns from these stacks (top first), visited offsets and root-offset cache. */
  function FilteredPreorder(h: Hive, q: Option<Query>, includeAncestors: bool, todo: seq<Node>, seen: set<nat>, cache: nat)
    : seq<Node>
    decreases T.Universe(GraphOf(h)) - seen, |todo|
  {
    if todo == [] then []
    else
      var read := ReadNode(h, q, todo[0], cache);
      var pushed := NewNodes(read.nodes, seen);
      NewAreInUniverse(h, q, todo[0], cache, seen);
      (if IsReturned(q, includeAncestors, todo[0]) then [todo[0]] else []) +
      FilteredPreorder(h, q, includeAncestors, pushed + todo[1..], seen + T.ToSet(Offsets(pushed)), read.cache)
  }

  /** A key waiting in `stack_to_return`. */
  datatype NodeFrame = NodeFrame(node: Node, toReturn: nat, trackReturned: nat)

  function Bump(frames: seq<NodeFrame>): seq<NodeFrame> {
    if frames == [] then []
    else frames[0 := frames[0].(trackReturned := frames[0].trackReturned + 1)]
  }

  /** Everything a postorder drain returns. Once nothing is left to traverse, an unmatched key ends the drain. */
  function FilteredPostorder(h: Hive, q: Option<Query>, includeAncestors: bool, todo: seq<Node>, seen: set<nat>,
                             frames: seq<NodeFrame>, cache: nat): seq<Node>
    decreases T.Universe(GraphOf(h)) - seen, |todo|, |frames|
  {
    if todo == [] then
      if frames == [] || !(includeAncestors || frames[0].node.state != Some(NotMatched)) then []
      else [frames[0].node] + FilteredPostorder(h, q, includeAncestors, [], seen, frames[1..], cache)
    else if frames != [] && frames[0].trackReturned == frames[0].toReturn then
      [frames[0].node] + FilteredPostorder(h, q, includeAncestors, todo, seen, frames[1..], cache)
    else
      var read := ReadNode(h, q, todo[0], cache);
      var pushed := NewNodes(read.nodes, seen);
      NewAreInUniverse(h, q, todo[0], cache, seen);
      FilteredPostorder(h, q, includeAncestors, pushed + todo[1..], seen + T.ToSet(Offsets(pushed)),
                        [NodeFrame(todo[0], |read.nodes|, 0)] + Bump(frames), read.cache)
  }

  // ----- Without a filter -----

  /** Without a filter every readable sub key passes, and no key is marked. */
  lemma {:induction false} UnfilteredRead(h: Hive, parent: Node, kids: seq<nat>, cache: nat)
    requires parent.state == None
    ensures var r := ReadSubKeys(h, None, parent, kids, cache);
            && Offsets(r.nodes) == Present(h, kids) && r.cache == cache
            && forall n :: n in r.nodes ==> n.state == None
    decreases |kids|
  {
    hide ReadSubKeys, Offsets, CheckCell, StateOf;
    ReadStep(h, None, parent, kids, cache);
    if kids == [] {
      NoOffsets();
    } else {
      UnfilteredRead(h, parent, kids[1..], cache);
      if kids[0] in h {
        var rest := ReadSubKeys(h, None, parent, kids[1..], cache);
        var path := parent.path + [SLASH] + h[kids[0]].name;
        UnfilteredCheck(parent, h[kids[0]].isHiveEntry, path, cache);
        OffsetsFirst(Node(kids[0], path, None), rest.nodes);
      }
    }
  }

  lemma UnfilteredCheck(parent: Node, isHiveEntry: bool, path: string, cache: nat)
    requires parent.state == None
    ensures CheckCell(None, parent, isHiveEntry, path, cache) == ReadKey(Iterate, cache)
    ensures StateOf(None, parent, Iterate) == None
  {
    hide CheckSegments, Split, Lower, RootPathOffset;
  }

  lemma NoOffsets()
    ensures Offsets([]) == []
  {
  }

  lemma OffsetsFirst(n: Node, rest: seq<Node>)
    ensures Offsets([n] + rest) == [n.offset] + Offsets(rest)
  {
  }

  ghost predicate Unmarked(nodes: seq<Node>) {
    forall n :: n in nodes ==> n.state == None
  }

  lemma {:induction false} UnfilteredPreorder(h: Hive, a: bool, todo: seq<Node>, seen: set<nat>, cache: nat)
    requires Unmarked(todo)
    ensures Offsets(FilteredPreorder(h, None, a, todo, seen, cache)) == T.Preorder(GraphOf(h), Offsets(todo), seen)
    decreases T.Universe(GraphOf(h)) - seen, |todo|
  {
    hide ReadSubKeys, GraphOf, NewNodes, T.NewKids, T.Kids, T.Universe, T.ToSet, FilteredPreorder, T.Preorder, Offsets;
    if todo == [] {
      NoOffsets();
      PreorderEnds(h, None, a, seen, cache);
      T.PreorderEnds(GraphOf(h), seen);
    } else {
      var node, g := todo[0], GraphOf(h);
      PreorderPop(h, None, a, todo, seen, cache);
      UnfilteredStep(h, todo, seen, cache);
      T.PreorderPop(g, Offsets(todo), seen);
      NewAreInUniverse(h, None, node, cache, seen);
      var pushed := NewNodes(ReadNode(h, None, node, cache).nodes, seen);
      var todo', seen' := pushed + todo[1..], seen + T.ToSet(Offsets(pushed));
      UnfilteredPreorder(h, a, todo', seen', cache);
      OffsetsFirst(node, FilteredPreorder(h, None, a, todo', seen', cache));
    }
  }

  lemma PreorderPop(h: Hive, q: Option<Query>, a: bool, todo: seq<Node>, seen: set<nat>, cache: nat)
    requires todo != []
    ensures var read := ReadNode(h, q, todo[0], cache);
            var pushed := NewNodes(read.nodes, seen);
            FilteredPreorder(h, q, a, todo, seen, cache) ==
            (if IsReturned(q, a, todo[0]) then [todo[0]] else []) +
            FilteredPreorder(h, q, a, pushed + todo[1..], seen + T.ToSet(Offsets(pushed)), read.cache)
  {
  }

  lemma PreorderEnds(h: Hive, q: Option<Query>, a: bool, seen: set<nat>, cache: nat)
    ensures FilteredPreorder(h, q, a, [], seen, cache) == []
  {
  }

  lemma PostorderPop(h: Hive, q: Option<Query>, a: bool, todo: seq<Node>, seen: set<nat>, frames: seq<NodeFrame>, cache: nat)
    requires todo != [] && (frames == [] || frames[0].trackReturned != frames[0].toReturn)
    ensures var read := ReadNode(h, q, todo[0], cache);
            var pushed := NewNodes(read.nodes, seen);
            FilteredPostorder(h, q, a, todo, seen, frames, cache) ==
            FilteredPostorder(h, q, a, pushed + todo[1..], seen + T.ToSet(Offsets(pushed)),
                              [NodeFrame(todo[0], |read.nodes|, 0)] + Bump(frames), read.cache)
  {
  }

  /** One step of the unfiltered iterators, seen through the offsets. */
  lemma UnfilteredStep(h: Hive, todo: seq<Node>, seen: set<nat>, cache: nat)
    requires todo != [] && Unmarked(todo)
    ensures var node, g := todo[0], GraphOf(h);
            var read := ReadNode(h, None, node, cache);
            var pushed := NewNodes(read.nodes, seen);
            && read.cache == cache && |read.nodes| == |T.Kids(g, node.offset)|
            && Offsets(pushed) == T.NewKids(T.Kids(g, node.offset), seen)
            && Offsets(todo) != [] && Offsets(todo)[0] == node.offset
            && Offsets(pushed + todo[1..]) == Offsets(pushed) + Offsets(todo)[1..]
            && Unmarked(pushed + todo[1..])
  {
    var node := todo[0];
    var read := ReadNode(h, None, node, cache);
    assert node in todo;
    UnfilteredRead(h, node, KidsOf(h, node.offset), cache);
    GraphKids(h, node.offset);
    NewNodesAreNewKids(read.nodes, seen);
    OffsetsConcat(NewNodes(read.nodes, seen), todo[1..]);
    OffsetsOfTail(todo);
    hide T.NewKids, ReadSubKeys, T.Kids, Present;
  }

  lemma GraphKids(h: Hive, o: nat)
    ensures T.Kids(GraphOf(h), o) == Present(h, KidsOf(h, o))
  {
  }

  function PlainFrames(frames: seq<NodeFrame>): (r: seq<T.Frame>)
    ensures |r| == |frames|
    ensures forall i :: 0 <= i < |r| ==> r[i] == T.Frame(frames[i].node.offset, frames[i].toReturn, frames[i].trackReturned)
  {
    seq(|frames|, i requires 0 <= i < |frames| =>
      T.Frame(frames[i].node.offset, frames[i].toReturn, frames[i].trackReturned))
  }

  lemma {:induction false} UnfilteredPostorder(h: Hive, a: bool, todo: seq<Node>, seen: set<nat>, frames: seq<NodeFrame>,
                                               cache: nat)
    requires Unmarked(todo) && forall f :: f in frames ==> f.node.state == None
    ensures Offsets(FilteredPostorder(h, None, a, todo, seen, frames, cache)) ==
            T.Postorder(GraphOf(h), Offsets(todo), seen, PlainFrames(frames))
    decreases T.Universe(GraphOf(h)) - seen, |todo|, |frames|
  {
    hide FilteredPostorder, T.Postorder, ReadSubKeys, GraphOf, NewNodes, T.NewKids, T.Kids, Offsets, T.Universe, Bump, T.Bump;
    if todo == [] && frames == [] {
      PostorderEnd(h, a, seen, cache);
    } else if todo == [] || (frames != [] && frames[0].trackReturned == frames[0].toReturn) {
      PostorderReturn(h, a, todo, seen, frames, cache) by { assert frames[0] in frames; }
      UnfilteredPostorder(h, a, todo, seen, frames[1..], cache);
      OffsetsConcat([frames[0].node], FilteredPostorder(h, None, a, todo, seen, frames[1..], cache));
      assert Offsets([frames[0].node]) == [frames[0].node.offset];
    } else {
      var node, g := todo[0], GraphOf(h);
      PostorderPop(h, None, a, todo, seen, frames, cache);
      UnfilteredStep(h, todo, seen, cache);
      T.PostorderPop(g, Offsets(todo), seen, PlainFrames(frames));
      NewAreInUniverse(h, None, node, cache, seen);
      var read := ReadNode(h, None, node, cache);
      var pushed := NewNodes(read.nodes, seen);
      var todo', seen' := pushed + todo[1..], seen + T.ToSet(Offsets(pushed));
      FramesAgree(node, |read.nodes|, frames);
      assert node in todo;
      UnfilteredPostorder(h, a, todo', seen', [NodeFrame(node, |read.nodes|, 0)] + Bump(frames), cache);
    }
  }

  lemma FramesAgree(node: Node, n: nat, frames: seq<NodeFrame>)
    ensures PlainFrames([NodeFrame(node, n, 0)] + Bump(frames)) == [T.Frame(node.offset, n, 0)] + T.Bump(PlainFrames(frames))
    ensures node.state == None && (forall f :: f in frames ==> f.node.state == None) ==>
              forall f :: f in [NodeFrame(node, n, 0)] + Bump(frames) ==> f.node.state == None
  {
    if frames != [] { assert frames[0] in frames; }
  }

  lemma PostorderEnd(h: Hive, a: bool, seen: set<nat>, cache: nat)
    ensures Offsets(FilteredPostorder(h, None, a, [], seen, [], cache)) == T.Postorder(GraphOf(h), Offsets([]), seen, PlainFrames([]))
  {
  }

  lemma PostorderReturn(h: Hive, a: bool, todo: seq<Node>, seen: set<nat>, frames: seq<NodeFrame>, cache: nat)
    requires frames != [] && frames[0].node.state == None
    requires todo == [] || frames[0].trackReturned == frames[0].toReturn
    ensures FilteredPostorder(h, None, a, todo, seen, frames, cache) ==
            [frames[0].node] + FilteredPostorder(h, None, a, todo, seen, frames[1..], cache)
    ensures T.Postorder(GraphOf(h), Offsets(todo), seen, PlainFrames(frames)) ==
            [frames[0].node.offset] + T.Postorder(GraphOf(h), Offsets(todo), seen, PlainFrames(frames[1..]))
  {
    assert PlainFrames(frames)[1..] == PlainFrames(frames[1..]);
    assert todo == [] <==> Offsets(todo) == [];
  }
}
