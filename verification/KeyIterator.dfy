/** The iterator object with its two stacks, visited offsets and cached root offset. */
module KeyIterators {
  import opened Common
  import opened Filtering
  import opened Iteration
  import T = Traversal

  /** A stack that grows at its end, read from the top. */
  function TopFirst<X>(s: seq<X>): (r: seq<X>)
    ensures |r| == |s| && forall i :: 0 <= i < |r| ==> r[i] == s[|s| - 1 - i]
  {
    seq(|s|, i requires 0 <= i < |s| => s[|s| - 1 - i])
  }

  lemma TopFirstPush<X>(s: seq<X>, x: X)
    ensures TopFirst(s + [x]) == [x] + TopFirst(s)
  {
  }

  lemma TopFirstPop<X>(s: seq<X>)
    requires s != []
    ensures TopFirst(s) == [s[|s| - 1]] + TopFirst(s[..|s| - 1])
    ensures TopFirst(s)[1..] == TopFirst(s[..|s| - 1])
  {
  }

  class KeyIterator {
    const hive: Hive
    const query: Option<Query>
    const includeAncestors: bool
    var stackToTraverse: seq<Node>
    var stackFileOffsets: set<nat>
    var stackToReturn: seq<NodeFrame>
    var rootOffset: nat

    constructor (hive: Hive, root: Node, query: Option<Query>, includeAncestors: bool)
      ensures PendingPreorder() == FilteredPreorder(hive, query, includeAncestors, [root], {root.offset}, 0)
      ensures PendingPostorder() == FilteredPostorder(hive, query, includeAncestors, [root], {root.offset}, [], 0)
      ensures stackToReturn == []
    {
      this.hive, this.query, this.includeAncestors := hive, query, includeAncestors;
      stackToTraverse, stackFileOffsets, stackToReturn, rootOffset := [root], {root.offset}, [], 0;
      new;
      assert TopFirst(stackToTraverse) == [root] && TopFirst(stackToReturn) == [];
    }

    /** What draining in preorder will still return. */
    ghost function PendingPreorder(): seq<Node>
      reads this
    {
      FilteredPreorder(hive, query, includeAncestors, TopFirst(stackToTraverse), stackFileOffsets, rootOffset)
    }

    /** What draining in postorder will still return. */
    ghost function PendingPostorder(): seq<Node>
      reads this
    {
      FilteredPostorder(hive, query, includeAncestors, TopFirst(stackToTraverse), stackFileOffsets,
                        TopFirst(stackToReturn), rootOffset)
    }

    /** Pushes the children last to first, each through the duplicate check. */
    method PushChildren(children: seq<Node>)
      modifies this`stackToTraverse, this`stackFileOffsets
      ensures var pushed := NewNodes(children, old(stackFileOffsets));
              && TopFirst(stackToTraverse) == pushed + TopFirst(old(stackToTraverse))
              && stackFileOffsets == old(stackFileOffsets) + T.ToSet(Offsets(pushed))
    {
      hide NewNodes, Offsets, TopFirst;
      var i := |children|;
      ghost var stack, seen := stackToTraverse, stackFileOffsets;
      PushNone(children, seen, TopFirst(stack));
      while i > 0
        invariant 0 <= i <= |children|
        invariant TopFirst(stackToTraverse) == NewNodes(children[i..], seen) + TopFirst(stack)
        invariant stackFileOffsets == seen + T.ToSet(Offsets(NewNodes(children[i..], seen)))
      {
        i := i - 1;
        var c := children[i];
        PushOne(children, i, seen);
        if c.offset !in stackFileOffsets {
          TopFirstPush(stackToTraverse, c);
          stackFileOffsets := stackFileOffsets + {c.offset};
          stackToTraverse := stackToTraverse + [c];
        }
      }
      assert children[0..] == children;
    }

    /** The step both orders share: pops a key, reads its sub keys through the filter and pushes the new ones. */
    method Traverse() returns (node: Node, children: nat)
      requires stackToTraverse != []
      modifies this`stackToTraverse, this`stackFileOffsets, this`rootOffset
      ensures var todo := TopFirst(old(stackToTraverse));
              var read := ReadNode(hive, query, todo[0], old(rootOffset));
              var pushed := NewNodes(read.nodes, old(stackFileOffsets));
              && node == todo[0] && children == |read.nodes|
              && TopFirst(stackToTraverse) == pushed + todo[1..]
              && stackFileOffsets == old(stackFileOffsets) + T.ToSet(Offsets(pushed))
              && rootOffset == read.cache
      ensures var u := T.Universe(GraphOf(hive));
              || u - stackFileOffsets < u - old(stackFileOffsets)
              || (u - stackFileOffsets == u - old(stackFileOffsets) && |stackToTraverse| < |old(stackToTraverse)|)
    {
      hide ReadSubKeys, NewNodes, GraphOf, T.Universe;
      ghost var before := stackToTraverse;
      TopFirstPop(stackToTraverse);
      node := stackToTraverse[|stackToTraverse| - 1];
      NewAreInUniverse(hive, query, node, rootOffset, stackFileOffsets);
      stackToTraverse := stackToTraverse[..|stackToTraverse| - 1];
      var nodes, cache := ReadChildren(hive, query, node, rootOffset);
      rootOffset := cache;
      children := |nodes|;
      PushChildren(nodes);
    }

    method NextPreorder() returns (r: Option<Node>)
      modifies this
      ensures match r
              case None => old(PendingPreorder()) == [] && PendingPreorder() == []
              case Some(n) => old(PendingPreorder()) == [n] + PendingPreorder()
    {
      hide FilteredPreorder, ReadSubKeys, NewNodes, IsReturned, GraphOf, Offsets, T.Universe, T.ToSet;
      ghost var pending := PendingPreorder();
      while stackToTraverse != []
        invariant PendingPreorder() == pending
        decreases T.Universe(GraphOf(hive)) - stackFileOffsets, |stackToTraverse|
      {
        Iteration.PreorderPop(hive, query, includeAncestors, TopFirst(stackToTraverse), stackFileOffsets, rootOffset);
        var node, _ := Traverse();
        if IsReturned(query, includeAncestors, node) {
          return Some(node);
        }
      }
      NothingPending(hive, query, includeAncestors, stackToTraverse, stackFileOffsets, rootOffset);
      r := None;
    }

    method NextPostorder() returns (r: Option<Node>)
      modifies this
      ensures match r
              case None => old(PendingPostorder()) == []
              case Some(n) => old(PendingPostorder()) == [n] + PendingPostorder()
    {
      hide FilteredPostorder, ReadSubKeys, NewNodes, GraphOf, Offsets, T.Universe, T.ToSet, Bump;
      ghost var pending := PendingPostorder();
      while stackToTraverse != []
        invariant PendingPostorder() == pending
        decreases T.Universe(GraphOf(hive)) - stackFileOffsets, |stackToTraverse|
      {
        ghost var todo, frames := TopFirst(stackToTraverse), TopFirst(stackToReturn);
        if stackToReturn != [] {
          var last := stackToReturn[|stackToReturn| - 1];
          if last.trackReturned == last.toReturn {
            ReturnTop(hive, query, includeAncestors, stackToTraverse, stackFileOffsets, stackToReturn, rootOffset);
            stackToReturn := stackToReturn[..|stackToReturn| - 1];
            return Some(last.node);
          }
        }
        Iteration.PostorderPop(hive, query, includeAncestors, todo, stackFileOffsets, frames, rootOffset);
        var node, children := Traverse();
        CountAndPush(stackToReturn, NodeFrame(node, children, 0));
        if stackToReturn != [] {
          var top := |stackToReturn| - 1;
          stackToReturn := stackToReturn[top := stackToReturn[top].(trackReturned := stackToReturn[top].trackReturned + 1)];
        }
        stackToReturn := stackToReturn + [NodeFrame(node, children, 0)];
      }
      ReturnTop(hive, query, includeAncestors, stackToTraverse, stackFileOffsets, stackToReturn, rootOffset);
      if stackToReturn != [] {
        var node := stackToReturn[|stackToReturn| - 1].node;
        stackToReturn := stackToReturn[..|stackToReturn| - 1];
        if includeAncestors || node.state != Some(NotMatched) {
          return Some(node);
        }
      }
      r := None;
    }

    /** Iterating in preorder until `None`. */
    method DrainPreorder() returns (out: seq<Node>)
      modifies this
      ensures out == old(PendingPreorder())
    {
      out := [];
      ghost var all := PendingPreorder();
      while true
        invariant all == out + PendingPreorder()
        decreases |PendingPreorder()|
      {
        ghost var before := PendingPreorder();
        var next := NextPreorder();
        if next.None? {
          return;
        }
        assert out + before == (out + [next.value]) + PendingPreorder();
        out := out + [next.value];
      }
    }

    /** Iterating in postorder until `None`. */
    method DrainPostorder() returns (out: seq<Node>)
      modifies this
      ensures out == old(PendingPostorder())
    {
      out := [];
      ghost var all := PendingPostorder();
      while true
        invariant all == out + PendingPostorder()
        decreases |PendingPostorder()|
      {
        ghost var before := PendingPostorder();
        var next := NextPostorder();
        if next.None? {
          return;
        }
        assert out + before == (out + [next.value]) + PendingPostorder();
        out := out + [next.value];
      }
    }
  }

  lemma NothingPending(h: Hive, q: Option<Query>, a: bool, stack: seq<Node>, seen: set<nat>, cache: nat)
    requires stack == []
    ensures FilteredPreorder(h, q, a, TopFirst(stack), seen, cache) == []
  {
  }

  /** What follows when the top of `stack_to_return` is due, or nothing is left to traverse. */
  lemma ReturnTop(h: Hive, q: Option<Query>, a: bool, stack: seq<Node>, seen: set<nat>, frames: seq<NodeFrame>, cache: nat)
    requires stack == [] || (frames != [] && frames[|frames| - 1].trackReturned == frames[|frames| - 1].toReturn)
    ensures var pending := FilteredPostorder(h, q, a, TopFirst(stack), seen, TopFirst(frames), cache);
            if frames == [] then pending == []
            else
              var top := frames[|frames| - 1];
              if stack == [] && !(a || top.node.state != Some(NotMatched)) then pending == []
              else pending == [top.node] + FilteredPostorder(h, q, a, TopFirst(stack), seen, TopFirst(frames[..|frames| - 1]), cache)
  {
    if frames != [] { TopFirstPop(frames); }
    assert stack == [] ==> TopFirst(stack) == [];
  }

  lemma PushNone(children: seq<Node>, seen: set<nat>, stack: seq<Node>)
    ensures NewNodes(children[|children|..], seen) + stack == stack
    ensures seen + T.ToSet(Offsets(NewNodes(children[|children|..], seen))) == seen
  {
  }

  lemma PushOne(children: seq<Node>, i: nat, seen: set<nat>)
    requires i < |children|
    ensures var c, rest := children[i], NewNodes(children[i + 1..], seen);
            NewNodes(children[i..], seen) ==
            if c.offset in seen + T.ToSet(Offsets(rest)) then rest else [c] + rest
    ensures var c, rest := children[i], NewNodes(children[i + 1..], seen);
            T.ToSet(Offsets([c] + rest)) == T.ToSet(Offsets(rest)) + {c.offset}
  {
    assert children[i..][0] == children[i] && children[i..][1..] == children[i + 1..];
    OffsetsConcat([children[i]], NewNodes(children[i + 1..], seen));
    assert Offsets([children[i]]) == [children[i].offset];
  }

  lemma CountAndPush(s: seq<NodeFrame>, f: NodeFrame)
    ensures var counted := if s == [] then s
                           else s[|s| - 1 := s[|s| - 1].(trackReturned := s[|s| - 1].trackReturned + 1)];
            TopFirst(counted + [f]) == [f] + Bump(TopFirst(s))
  {
  }
}
