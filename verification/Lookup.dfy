/** Looking up one key by its path. The hive may be any graph of readable keys, cycles included. */
module Lookup {
  import opened Common
  import opened Paths
  import opened Filtering

  // ----- The search -----

  function LiteralQuery(segments: seq<string>): (q: Query)
    ensures q.keyPathHasRoot && !q.children && |q.keyPath| == |segments|
  {
    Query(seq(|segments|, i requires 0 <= i < |segments| => Literal(Lower(segments[i]))), true, false)
  }

  /** How many more levels can still match: a path only gets longer on the way down. */
  function Room(q: Query, path: string): nat {
    var n := |Split(Lower(path))|;
    if n > |q.keyPath| then 0 else |q.keyPath| + 1 - n
  }

  function SubKeys(h: Hive, q: Query, node: Node): seq<Node> {
    ReadSubKeys(h, Some(q), node, KidsOf(h, node.offset), 0).nodes
  }

  predicate FoundKey(children: seq<Node>) {
    exists i :: 0 <= i < |children| && children[i].state == Some(Exact)
  }

  /** `get_sub_key_internal`: if some child is an exact match the first child is the answer, else search each in turn. */
  function Search(h: Hive, q: Query, node: Node): Option<Node>
    requires q.keyPathHasRoot && !q.children
    decreases Room(q, node.path), 1, 0
  {
    var children := SubKeys(h, q, node);
    if FoundKey(children) then Some(children[0])
    else
      RoomShrinks(h, q, node);
      SearchEach(h, q, node, children)
  }

  function SearchEach(h: Hive, q: Query, parent: Node, children: seq<Node>): Option<Node>
    requires q.keyPathHasRoot && !q.children
    requires forall c :: c in children ==> Room(q, c.path) < Room(q, parent.path)
    decreases Room(q, parent.path), 0, |children|
  {
    if children == [] then None
    else
      match Search(h, q, children[0])
      case Some(n) => Some(n)
      case None => SearchEach(h, q, parent, children[1..])
  }

  /** Every sub key that passes has a longer path, which still fits the query. */
  lemma RoomShrinks(h: Hive, q: Query, node: Node)
    requires q.keyPathHasRoot && !q.children
    ensures forall c :: c in SubKeys(h, q, node) ==> Room(q, c.path) < Room(q, node.path)
  {
    RoomShrinksIn(h, q, node, KidsOf(h, node.offset), 0);
  }

  lemma {:induction false} RoomShrinksIn(h: Hive, q: Query, node: Node, kids: seq<nat>, cache: nat)
    requires q.keyPathHasRoot && !q.children
    ensures forall c :: c in ReadSubKeys(h, Some(q), node, kids, cache).nodes ==> Room(q, c.path) < Room(q, node.path)
    decreases |kids|
  {
    hide Split, RootPathOffset, Lower;
    if kids != [] {
      if kids[0] !in h {
        RoomShrinksIn(h, q, node, kids[1..], cache);
      } else {
        var path := node.path + [SLASH] + h[kids[0]].name;
        var check := CheckCell(Some(q), node, h[kids[0]].isHiveEntry, path, cache);
        RoomShrinksIn(h, q, node, kids[1..], check.cache);
        LowerLaws(node.path + [SLASH], h[kids[0]].name);
        LowerLaws(node.path, [SLASH]);
        LowerSlash();
        SplitConcat(Lower(node.path), Lower(h[kids[0]].name));
      }
    }
  }

  lemma LowerSlash()
    ensures Lower([SLASH]) == [SLASH]
  {
  }

  // ----- Walks -----

  /** A key as a walk from another key meets it: its offset, and its path along the walk. */
  datatype Place = Place(offset: nat, path: string)

  function KidPath(h: Hive, path: string, kid: nat): string
    requires kid in h
  {
    path + [SLASH] + h[kid].name
  }

  predicate HasKid(h: Hive, o: nat, k: nat) {
    k < |KidsOf(h, o)| && KidsOf(h, o)[k] in h
  }

  /** The `k`-th sub key, which is readable. */
  function Kid(h: Hive, p: Place, k: nat): Place
    requires HasKid(h, p.offset, k)
  {
    var kid := KidsOf(h, p.offset)[k];
    Place(kid, KidPath(h, p.path, kid))
  }

  /** Where choosing sub key `ix[0]`, then its sub key `ix[1]`, and so on, leads. */
  function Walk(h: Hive, p: Place, ix: seq<nat>): Option<Place>
    decreases |ix|
  {
    if ix == [] then Some(p)
    else if !HasKid(h, p.offset, ix[0]) then None
    else Walk(h, Kid(h, p, ix[0]), ix[1..])
  }

  /** Walks in the order in which preorder makes them. */
  ghost predicate NotAfter(ix: seq<nat>, jx: seq<nat>)
    decreases |ix|
  {
    ix == [] || (jx != [] && (ix[0] < jx[0] || (ix[0] == jx[0] && NotAfter(ix[1..], jx[1..]))))
  }

  /** The paths are equal, ignoring ASCII case. */
  predicate Same(path: string, target: string) {
    Lower(path) == Lower(target)
  }

  /** The segments of the path are the first segments of the target, ignoring ASCII case. */
  predicate OnTheWay(path: string, target: string) {
    Split(Lower(path)) <= Split(Lower(target))
  }

  /** The walk ends at a key below `p` that has the requested path. */
  ghost predicate Leads(h: Hive, p: Place, target: string, ix: seq<nat>) {
    ix != [] && var end := Walk(h, p, ix); end.Some? && Same(end.value.path, target)
  }

  /** The walk is the first in preorder to a key that has the requested path. */
  ghost predicate IsFirst(h: Hive, p: Place, target: string, ix: seq<nat>) {
    Leads(h, p, target, ix) && forall jx :: Leads(h, p, target, jx) ==> NotAfter(ix, jx)
  }

  predicate Matches(h: Hive, p: Place, target: string, k: nat) {
    HasKid(h, p.offset, k) && Same(Kid(h, p, k).path, target)
  }

  /** Some sub key has the requested path. */
  ghost predicate HasMatch(h: Hive, p: Place, target: string) {
    exists k :: Matches(h, p, target, k)
  }

  ghost predicate IsParent(h: Hive, p: Place, target: string, px: seq<nat>) {
    var end := Walk(h, p, px); end.Some? && HasMatch(h, end.value, target)
  }

  /** The walk is the first in preorder to a key with a sub key that has the requested path. */
  ghost predicate IsFirstParent(h: Hive, p: Place, target: string, px: seq<nat>) {
    IsParent(h, p, target, px) && forall qx :: IsParent(h, p, target, qx) ==> NotAfter(px, qx)
  }

  /** Before any sub key that has the requested path comes one whose path is a proper beginning of it. With names that
      hold no backslash there is none: all sub keys have equally many segments. */
  ghost predicate IsBlocked(h: Hive, p: Place, target: string) {
    exists j :: HasKid(h, p.offset, j) && OnTheWay(Kid(h, p, j).path, target) && forall i :: i <= j ==> !Matches(h, p, target, i)
  }

  // ----- Segments -----

  function QueryFor(target: string): (q: Query)
    ensures q.keyPathHasRoot && !q.children
  {
    LiteralQuery(Split(target))
  }

  /** Requests that differ only in case are the same. */
  lemma SameQuery(target: string, other: string)
    requires Same(target, other)
    ensures QueryFor(target) == QueryFor(other)
  {
    hide Split, Lower;
    SplitLower(target);
    SplitLower(other);
    assert forall i :: 0 <= i < |Split(target)| ==> LowerAll(Split(target))[i] == LowerAll(Split(other))[i];
  }

  /** The check of a path against a literal request, in terms of the two paths. */
  lemma CheckIs(target: string, path: string)
    ensures CheckSegments(QueryFor(target).keyPath, Split(Lower(path))) ==
            if Same(path, target) then IterateAndMatch else if OnTheWay(path, target) then Iterate else NoMatch
    ensures Same(path, target) ==> OnTheWay(path, target)
  {
    var segments, wanted, components := Split(Lower(path)), Split(Lower(target)), QueryFor(target).keyPath;
    SplitLower(target);
    SplitLower(path);
    assert |components| == |wanted|;
    hide Split, Lower;
    forall i | 0 <= i < |segments| && i < |wanted|
      ensures Accepts(components[i], Lower(segments[i])) <==> segments[i] == wanted[i]
    {
      LowerLaws(Split(path)[i], []);
    }
    assert Prefixes(components, segments) <==> segments <= wanted;
    if segments == wanted { SplitInjective(Lower(path), Lower(target)); }
  }

  lemma KidSegments(path: string, name: string)
    ensures Split(Lower(path + [SLASH] + name)) == Split(Lower(path)) + Split(Lower(name))
  {
    hide Split, Lower;
    LowerLaws(path + [SLASH], name);
    LowerLaws(path, [SLASH]);
    LowerSlash();
    SplitConcat(Lower(path), Lower(name));
  }

  /** A key on the way, or at the target, is below keys on the way only. */
  lemma {:induction false} WalkOnTheWay(h: Hive, p: Place, target: string, ix: seq<nat>)
    requires ix != [] && Walk(h, p, ix).Some? && OnTheWay(Walk(h, p, ix).value.path, target)
    ensures HasKid(h, p.offset, ix[0]) && OnTheWay(Kid(h, p, ix[0]).path, target)
    decreases |ix|
  {
    hide Split, Lower;
    var kid := Kid(h, p, ix[0]);
    if |ix| > 1 {
      WalkOnTheWay(h, kid, target, ix[1..]);
      KidSegments(kid.path, h[KidsOf(h, kid.offset)[ix[1]]].name);
    }
  }

  // ----- One level -----

  function StateFor(node: Node, path: string, target: string): Option<MatchState> {
    StateOf(Some(QueryFor(target)), node, if Same(path, target) then IterateAndMatch else Iterate)
  }

  function SearchNode(h: Hive, node: Node, target: string, kid: nat): Node
    requires kid in h
  {
    var path := KidPath(h, node.path, kid);
    Node(kid, path, StateFor(node, path, target))
  }

  /** The sub keys on the way to the target, and at it. */
  function KidsOnTheWay(h: Hive, node: Node, target: string, kids: seq<nat>): seq<Node> {
    if kids == [] then []
    else
      var rest := KidsOnTheWay(h, node, target, kids[1..]);
      if kids[0] in h && OnTheWay(KidPath(h, node.path, kids[0]), target) then [SearchNode(h, node, target, kids[0])] + rest
      else rest
  }

  lemma {:induction false} ReadIsOnTheWay(h: Hive, node: Node, target: string, kids: seq<nat>, cache: nat)
    ensures ReadSubKeys(h, Some(QueryFor(target)), node, kids, cache).nodes == KidsOnTheWay(h, node, target, kids)
    decreases |kids|
  {
    hide QueryFor, Split, Lower, RootPathOffset, OnTheWay, Same, CheckSegments;
    if kids != [] {
      if kids[0] in h {
        var path := KidPath(h, node.path, kids[0]);
        CheckIs(target, path);
        var check := CheckCell(Some(QueryFor(target)), node, h[kids[0]].isHiveEntry, path, cache);
        ReadIsOnTheWay(h, node, target, kids[1..], check.cache);
      } else {
        ReadIsOnTheWay(h, node, target, kids[1..], cache);
      }
    }
  }

  lemma SubKeysAreOnTheWay(h: Hive, node: Node, target: string)
    ensures SubKeys(h, QueryFor(target), node) == KidsOnTheWay(h, node, target, KidsOf(h, node.offset))
  {
    ReadIsOnTheWay(h, node, target, KidsOf(h, node.offset), 0);
  }

  function PlaceOf(n: Node): Place {
    Place(n.offset, n.path)
  }

  /** The node is marked as an exact match if it is one. */
  predicate HasStateFor(n: Node, target: string) {
    n.state.Some? && (n.state == Some(Exact) <==> Same(n.path, target))
  }

  /** What the sub keys from `k` on say about those that pass: the first of them, and whether one of them matches. */
  lemma {:induction false} OnTheWayFrom(h: Hive, node: Node, target: string, k: nat)
    requires k <= |KidsOf(h, node.offset)|
    ensures var p, nodes := PlaceOf(node), KidsOnTheWay(h, node, target, KidsOf(h, node.offset)[k..]);
            && (FoundKey(nodes) <==> exists i :: k <= i && Matches(h, p, target, i))
            && (nodes == [] ==> forall i :: k <= i && HasKid(h, p.offset, i) ==> !OnTheWay(Kid(h, p, i).path, target))
            && (nodes != [] ==> HasStateFor(nodes[0], target))
            && (nodes != [] ==> exists j :: k <= j && FirstOnTheWay(h, p, target, k, j) && PlaceOf(nodes[0]) == Kid(h, p, j))
    decreases |KidsOf(h, node.offset)| - k
  {
    hide OnTheWay, Same, Lower, StateFor, KidPath;
    var p, kids := PlaceOf(node), KidsOf(h, node.offset);
    if k < |kids| {
      OnTheWayFrom(h, node, target, k + 1);
      assert kids[k..][0] == kids[k] && kids[k..][1..] == kids[k + 1..];
      var rest := KidsOnTheWay(h, node, target, kids[k + 1..]);
      if kids[k] in h && OnTheWay(KidPath(h, node.path, kids[k]), target) {
        var n := SearchNode(h, node, target, kids[k]);
        assert KidsOnTheWay(h, node, target, kids[k..]) == [n] + rest;
        MatchIsExact(node, n.path, target);
        assert FirstOnTheWay(h, p, target, k, k) && PlaceOf(n) == Kid(h, p, k);
        FoundInFront(n, rest);
        assert Matches(h, p, target, k) <==> n.state == Some(Exact);
      } else {
        assert KidsOnTheWay(h, node, target, kids[k..]) == rest;
        assert !Matches(h, p, target, k) by { if kids[k] in h { CheckIs(target, KidPath(h, node.path, kids[k])); } }
        if rest != [] {
          var j :| k + 1 <= j && FirstOnTheWay(h, p, target, k + 1, j) && PlaceOf(rest[0]) == Kid(h, p, j);
          assert FirstOnTheWay(h, p, target, k, j);
        }
      }
    }
  }

  lemma FoundInFront(n: Node, rest: seq<Node>)
    ensures FoundKey([n] + rest) <==> n.state == Some(Exact) || FoundKey(rest)
  {
    var all := [n] + rest;
    assert forall i :: 0 <= i < |rest| ==> rest[i] == all[i + 1];
    if FoundKey(all) {
      var i :| 0 <= i < |all| && all[i].state == Some(Exact);
      assert i > 0 ==> rest[i - 1] == all[i];
    }
    assert n == all[0];
  }

  lemma MatchIsExact(node: Node, path: string, target: string)
    ensures StateFor(node, path, target).Some?
    ensures StateFor(node, path, target) == Some(Exact) <==> Same(path, target)
  {
    hide Same, QueryFor;
  }

  /** Sub key `j` is the first from `k` on that is on the way. */
  ghost predicate FirstOnTheWay(h: Hive, p: Place, target: string, k: nat, j: nat) {
    && HasKid(h, p.offset, j) && OnTheWay(Kid(h, p, j).path, target)
    && forall i :: k <= i < j && HasKid(h, p.offset, i) ==> !OnTheWay(Kid(h, p, i).path, target)
  }

  // ----- The search -----

  /** The answer of the search below `node`, for every hive: nothing if and only if no key has the requested path; else
      the first sub key on the way of the first key, in preorder, that has a sub key with the requested path. */
  ghost predicate Answers(h: Hive, p: Place, target: string, r: Option<Node>, px: seq<nat>) {
    match r
    case None => forall ix :: !Leads(h, p, target, ix)
    case Some(n) =>
      && HasStateFor(n, target)
      && IsFirstParent(h, p, target, px)
      && var parent := Walk(h, p, px).value;
      && exists j :: FirstOnTheWay(h, parent, target, 0, j) && PlaceOf(n) == Kid(h, parent, j)
  }

  lemma {:induction false} SearchAnswers(h: Hive, node: Node, target: string) returns (px: seq<nat>)
    ensures Answers(h, PlaceOf(node), target, Search(h, QueryFor(target), node), px)
    decreases Room(QueryFor(target), node.path), 1, 0
  {
    hide QueryFor, Room, FirstOnTheWay, Matches, KidsOnTheWay;
    var p, kids, q := PlaceOf(node), KidsOf(h, node.offset), QueryFor(target);
    SubKeysAreOnTheWay(h, node, target);
    OnTheWayFrom(h, node, target, 0);
    assert kids[0..] == kids;
    RoomShrinks(h, q, node);
    if FoundKey(SubKeys(h, q, node)) {
      px := [];
    } else {
      px := EachAnswers(h, node, target, 0);
      NoneBelow(h, p, target, px, Search(h, q, node));
    }
  }

  /** The same for walks whose first choice is `k` or later, below a key without a matching sub key. */
  ghost predicate AnswersFrom(h: Hive, p: Place, target: string, k: nat, r: Option<Node>, px: seq<nat>) {
    match r
    case None => forall ix :: Leads(h, p, target, ix) ==> ix[0] < k
    case Some(n) =>
      && HasStateFor(n, target)
      && px != [] && k <= px[0] && IsParent(h, p, target, px)
      && (forall qx :: IsParent(h, p, target, qx) && qx != [] && k <= qx[0] ==> NotAfter(px, qx))
      && var parent := Walk(h, p, px).value;
      && exists j :: FirstOnTheWay(h, parent, target, 0, j) && PlaceOf(n) == Kid(h, parent, j)
  }

  lemma NoneBelow(h: Hive, p: Place, target: string, px: seq<nat>, r: Option<Node>)
    requires AnswersFrom(h, p, target, 0, r, px) && !HasMatch(h, p, target)
    ensures Answers(h, p, target, r, px)
  {
    hide HasMatch, FirstOnTheWay, Same;
    assert !IsParent(h, p, target, []);
  }

  lemma {:induction false} EachAnswers(h: Hive, node: Node, target: string, k: nat) returns (px: seq<nat>)
    requires k <= |KidsOf(h, node.offset)| && !HasMatch(h, PlaceOf(node), target)
    requires forall c :: c in KidsOnTheWay(h, node, target, KidsOf(h, node.offset)[k..]) ==>
               Room(QueryFor(target), c.path) < Room(QueryFor(target), node.path)
    ensures var nodes := KidsOnTheWay(h, node, target, KidsOf(h, node.offset)[k..]);
            AnswersFrom(h, PlaceOf(node), target, k, SearchEach(h, QueryFor(target), node, nodes), px)
    decreases Room(QueryFor(target), node.path), 0, |KidsOf(h, node.offset)| - k
  {
    hide QueryFor, Room, OnTheWay, Search, AnswersFrom, Answers, HasMatch;
    var p, kids, q := PlaceOf(node), KidsOf(h, node.offset), QueryFor(target);
    if k == |kids| {
      px := [];
      NoneFrom(h, p, target, k, px);
    } else {
      assert kids[k..][0] == kids[k] && kids[k..][1..] == kids[k + 1..];
      var later := KidsOnTheWay(h, node, target, kids[k + 1..]);
      assert forall c :: c in later ==> c in KidsOnTheWay(h, node, target, kids[k..]);
      if kids[k] in h && OnTheWay(KidPath(h, node.path, kids[k]), target) {
        var n := SearchNode(h, node, target, kids[k]);
        var nodes := [n] + later;
        assert nodes[1..] == later && n in nodes;
        px := SearchAnswers(h, n, target);
        if Search(h, q, n).Some? {
          TakeKid(h, p, target, k, Search(h, q, n), px);
          px := [k] + px;
        } else {
          NoneThrough(h, p, target, k, px);
          px := EachAnswers(h, node, target, k + 1);
          SkipKid(h, p, target, k, SearchEach(h, q, node, later), px);
        }
      } else {
        NotOnTheWay(h, p, target, k);
        px := EachAnswers(h, node, target, k + 1);
        SkipKid(h, p, target, k, SearchEach(h, q, node, later), px);
      }
    }
  }

  lemma NoneFrom(h: Hive, p: Place, target: string, k: nat, px: seq<nat>)
    requires k == |KidsOf(h, p.offset)|
    ensures AnswersFrom(h, p, target, k, None, px)
  {
  }

  /** Nothing with the requested path is at sub key `k` or below it. */
  ghost predicate LeadsNowhere(h: Hive, p: Place, target: string, k: nat) {
    forall ix :: Leads(h, p, target, ix) ==> ix[0] != k
  }

  lemma WalkThrough(h: Hive, p: Place, k: nat, ix: seq<nat>)
    requires HasKid(h, p.offset, k)
    ensures Walk(h, p, [k] + ix) == Walk(h, Kid(h, p, k), ix)
  {
    assert ([k] + ix)[1..] == ix;
  }

  lemma {:induction false} WalkLast(h: Hive, p: Place, ix: seq<nat>, m: nat)
    ensures Walk(h, p, ix + [m]) ==
            match Walk(h, p, ix)
            case None => None
            case Some(end) => if HasKid(h, end.offset, m) then Some(Kid(h, end, m)) else None
    decreases |ix|
  {
    hide Kid;
    if ix == [] {
      assert ix + [m] == [m] && [m][1..] == [];
    } else {
      assert (ix + [m])[1..] == ix[1..] + [m];
      if HasKid(h, p.offset, ix[0]) { WalkLast(h, Kid(h, p, ix[0]), ix[1..], m); }
    }
  }

  /** A parent leads on to its matching sub key. */
  lemma ParentLeads(h: Hive, p: Place, target: string, qx: seq<nat>) returns (m: nat)
    requires IsParent(h, p, target, qx)
    ensures Leads(h, p, target, qx + [m]) && Matches(h, Walk(h, p, qx).value, target, m)
  {
    hide Same, Kid;
    m :| Matches(h, Walk(h, p, qx).value, target, m);
    WalkLast(h, p, qx, m);
  }

  lemma NotOnTheWay(h: Hive, p: Place, target: string, k: nat)
    requires HasKid(h, p.offset, k) ==> !OnTheWay(Kid(h, p, k).path, target)
    ensures LeadsNowhere(h, p, target, k)
  {
    hide OnTheWay, Walk;
    forall ix | Leads(h, p, target, ix)
      ensures ix[0] != k
    {
      CheckIs(target, Walk(h, p, ix).value.path);
      WalkOnTheWay(h, p, target, ix);
    }
  }

  lemma NoneThrough(h: Hive, p: Place, target: string, k: nat, px: seq<nat>)
    requires HasKid(h, p.offset, k) && !HasMatch(h, p, target) && Answers(h, Kid(h, p, k), target, None, px)
    ensures LeadsNowhere(h, p, target, k)
  {
    hide Same;
    forall ix | Leads(h, p, target, ix)
      ensures ix[0] != k
    {
      assert ix[0] == k ==> Walk(h, p, ix) == Walk(h, Kid(h, p, k), ix[1..]);
      assert ix[0] == k && ix[1..] == [] ==> Matches(h, p, target, k);
      assert ix[0] == k && ix[1..] != [] ==> Leads(h, Kid(h, p, k), target, ix[1..]);
    }
  }

  lemma SkipKid(h: Hive, p: Place, target: string, k: nat, r: Option<Node>, px: seq<nat>)
    requires AnswersFrom(h, p, target, k + 1, r, px) && LeadsNowhere(h, p, target, k)
    ensures AnswersFrom(h, p, target, k, r, px)
  {
    hide FirstOnTheWay, IsParent, Leads;
    forall qx | IsParent(h, p, target, qx) && qx != []
      ensures qx[0] != k
    {
      var m := ParentLeads(h, p, target, qx);
      assert (qx + [m])[0] == qx[0];
    }
  }

  lemma TakeKid(h: Hive, p: Place, target: string, k: nat, r: Option<Node>, px: seq<nat>)
    requires HasKid(h, p.offset, k) && r.Some? && Answers(h, Kid(h, p, k), target, r, px)
    ensures AnswersFrom(h, p, target, k, r, [k] + px)
  {
    hide FirstOnTheWay, Matches;
    WalkThrough(h, p, k, px);
    forall qx | IsParent(h, p, target, qx) && qx != [] && k <= qx[0]
      ensures NotAfter([k] + px, qx)
    {
      if qx[0] == k {
        assert IsParent(h, Kid(h, p, k), target, qx[1..]);
        assert ([k] + px)[1..] == px;
      }
    }
  }

  // ----- When the answer is right -----

  /** The key is the first one in preorder that has the requested path. */
  ghost predicate IsFirstKey(h: Hive, p: Place, target: string, n: Node) {
    exists ix :: IsFirst(h, p, target, ix) && Walk(h, p, ix) == Some(PlaceOf(n))
  }

  /** No walk to the requested path comes before the one through the first sub key on the way of the first parent. */
  lemma {:induction false} NothingBefore(h: Hive, p: Place, target: string, px: seq<nat>, j: nat, jx: seq<nat>)
    requires Walk(h, p, px).Some? && FirstOnTheWay(h, Walk(h, p, px).value, target, 0, j)
    requires Leads(h, p, target, jx) && NotAfter(px, jx[..|jx| - 1])
    ensures NotAfter(px + [j], jx)
    decreases |px|
  {
    hide OnTheWay, Same;
    if px == [] {
      CheckIs(target, Walk(h, p, jx).value.path);
      WalkOnTheWay(h, p, target, jx);
      assert px + [j] == [j];
    } else {
      var front := jx[..|jx| - 1];
      assert front[0] == jx[0] && front[1..] == jx[1..][..|jx| - 2] && (px + [j])[1..] == px[1..] + [j];
      if px[0] == jx[0] {
        NothingBefore(h, Kid(h, p, px[0]), target, px[1..], j, jx[1..]);
      }
    }
  }

  /** The parent of a key that has the requested path. */
  lemma LeadsFromParent(h: Hive, p: Place, target: string, jx: seq<nat>)
    requires Leads(h, p, target, jx)
    ensures IsParent(h, p, target, jx[..|jx| - 1])
  {
    hide Same, Kid;
    var front, m := jx[..|jx| - 1], jx[|jx| - 1];
    assert jx == front + [m];
    WalkLast(h, p, front, m);
    assert Matches(h, Walk(h, p, front).value, target, m);
  }

  /** What the search finds is the first key with the requested path if and only if the sub keys of the first parent are
      not blocked. */
  lemma AnswerIsRight(h: Hive, p: Place, target: string, n: Node, px: seq<nat>)
    requires Answers(h, p, target, Some(n), px)
    ensures IsFirstKey(h, p, target, n) <==> !IsBlocked(h, Walk(h, p, px).value, target)
  {
    hide OnTheWay, Same, Kid;
    var parent := Walk(h, p, px).value;
    var j :| FirstOnTheWay(h, parent, target, 0, j) && PlaceOf(n) == Kid(h, parent, j);
    FirstDecides(h, parent, target, j);
    if Matches(h, parent, target, j) {
      WalkLast(h, p, px, j);
      forall jx | Leads(h, p, target, jx)
        ensures NotAfter(px + [j], jx)
      {
        LeadsFromParent(h, p, target, jx);
        NothingBefore(h, p, target, px, j, jx);
      }
      assert IsFirst(h, p, target, px + [j]);
    }
  }

  lemma FirstDecides(h: Hive, parent: Place, target: string, j: nat)
    requires FirstOnTheWay(h, parent, target, 0, j) && HasMatch(h, parent, target)
    ensures Matches(h, parent, target, j) <==> !IsBlocked(h, parent, target)
  {
    hide OnTheWay, Same, Kid;
    forall i | Matches(h, parent, target, i)
      ensures j <= i
    {
      CheckIs(target, Kid(h, parent, i).path);
    }
  }

  /** The place that a search of any hive comes back with: the first sub key on the way of the first parent. */
  ghost predicate IsAnswer(h: Hive, p: Place, target: string, place: Place) {
    exists px, j :: IsFirstParent(h, p, target, px) && IsAnswerAt(h, p, target, px, j, place)
  }

  ghost predicate IsAnswerAt(h: Hive, p: Place, target: string, px: seq<nat>, j: nat, place: Place) {
    var parent := Walk(h, p, px);
    parent.Some? && FirstOnTheWay(h, parent.value, target, 0, j) && place == Kid(h, parent.value, j)
  }

  lemma {:induction false} NotAfterEachOther(px: seq<nat>, qx: seq<nat>)
    requires NotAfter(px, qx) && NotAfter(qx, px)
    ensures px == qx
    decreases |px|
  {
    if px != [] {
      NotAfterEachOther(px[1..], qx[1..]);
      assert px == [px[0]] + px[1..] && qx == [qx[0]] + qx[1..];
    }
  }

  lemma SearchGives(h: Hive, node: Node, target: string, place: Place)
    ensures var r := Search(h, QueryFor(target), node);
            && (r.Some? ==> HasStateFor(r.value, target))
            && (r.Some? && PlaceOf(r.value) == place <==> IsAnswer(h, PlaceOf(node), target, place))
  {
    hide Search, QueryFor, OnTheWay, Kid, Walk, IsParent, Leads, Same;
    var p, r := PlaceOf(node), Search(h, QueryFor(target), node);
    var px := SearchAnswers(h, node, target);
    if r.Some? {
      ParentIsPlace(h, p, target, px);
      var parent := Walk(h, p, px).value;
      var j :| FirstOnTheWay(h, parent, target, 0, j) && PlaceOf(r.value) == Kid(h, parent, j);
      assert IsAnswerAt(h, p, target, px, j, PlaceOf(r.value));
    }
    if IsAnswer(h, p, target, place) {
      var qx, i :| IsFirstParent(h, p, target, qx) && IsAnswerAt(h, p, target, qx, i, place);
      var m := ParentLeads(h, p, target, qx);
      NotAfterEachOther(px, qx);
    }
  }

  lemma ParentIsPlace(h: Hive, p: Place, target: string, px: seq<nat>)
    requires IsParent(h, p, target, px)
    ensures Walk(h, p, px).Some?
  {
  }

  /** Searching below a key of any hive, cycles and names with backslashes included: nothing is found if and only if
      no key has the requested path; and what is found is the first such key in preorder if and only if the sub keys of
      the first parent are not blocked. */
  lemma SearchFinds(h: Hive, node: Node, target: string) returns (px: seq<nat>)
    ensures var p, r := PlaceOf(node), Search(h, QueryFor(target), node);
            && (r.None? <==> forall ix :: !Leads(h, p, target, ix))
            && (r.Some? ==>
                  && IsFirstParent(h, p, target, px)
                  && (IsFirstKey(h, p, target, r.value) <==> !IsBlocked(h, Walk(h, p, px).value, target)))
  {
    hide Search, QueryFor, IsFirstKey, IsBlocked, Leads;
    px := SearchAnswers(h, node, target);
    var p, r := PlaceOf(node), Search(h, QueryFor(target), node);
    if r.Some? {
      AnswerIsRight(h, p, target, r.value, px);
      var m := ParentLeads(h, p, target, px);
    }
  }

  /** A key with the requested path is the answer if and only if no earlier key has that path and nothing blocks the
      sub keys of the first parent. */
  lemma AnswerMeans(h: Hive, node: Node, target: string, n: Place)
    ensures var p := PlaceOf(node);
            IsAnswer(h, p, target, n) && Same(n.path, target) <==>
            && (exists ix :: IsFirst(h, p, target, ix) && Walk(h, p, ix) == Some(n))
            && forall px :: IsFirstParent(h, p, target, px) ==> !IsBlocked(h, Walk(h, p, px).value, target)
  {
    hide Search, QueryFor, OnTheWay, Same, IsBlocked, Walk, IsParent, Kid, IsAnswer, HasStateFor;
    var p, r := PlaceOf(node), Search(h, QueryFor(target), node);
    var px := SearchFinds(h, node, target);
    SearchGives(h, node, target, n);
    if r.Some? {
      SearchGives(h, node, target, PlaceOf(r.value));
      forall qx | IsFirstParent(h, p, target, qx)
        ensures qx == px
      {
        NotAfterEachOther(px, qx);
      }
      AnswerIsSame(h, p, target, PlaceOf(r.value), px);
      forall ix, jx | IsFirst(h, p, target, ix) && IsFirst(h, p, target, jx)
        ensures ix == jx
      {
        NotAfterEachOther(ix, jx);
      }
    }
  }

  lemma AnswerIsSame(h: Hive, p: Place, target: string, n: Place, px: seq<nat>)
    requires IsFirstParent(h, p, target, px) && IsAnswer(h, p, target, n)
    ensures Same(n.path, target) <==> !IsBlocked(h, Walk(h, p, px).value, target)
  {
    hide OnTheWay, Same, Kid, IsBlocked, Walk;
    var qx, j :| IsFirstParent(h, p, target, qx) && IsAnswerAt(h, p, target, qx, j, n);
    NotAfterEachOther(px, qx);
    FirstDecides(h, Walk(h, p, px).value, target, j);
  }

  /** The first sub key on the way is the answer when one of its brothers matches. */
  lemma FirstSubKeyAnswers(h: Hive, p: Place, target: string, j: nat)
    requires HasMatch(h, p, target) && FirstOnTheWay(h, p, target, 0, j)
    ensures IsAnswer(h, p, target, Kid(h, p, j))
  {
    hide OnTheWay, Same, Kid;
    assert Walk(h, p, []) == Some(p);
    assert IsFirstParent(h, p, target, []) && IsAnswerAt(h, p, target, [], j, Kid(h, p, j));
  }

  // ----- From path strings -----

  function TrimStart(s: string): (r: string)
    ensures r == [] || r[0] != SLASH
  {
    if s != [] && s[0] == SLASH then TrimStart(s[1..]) else s
  }

  function TrimEnd(s: string): (r: string)
    ensures r == [] || r[|r| - 1] != SLASH
    ensures r <= s
  {
    if s != [] && s[|s| - 1] == SLASH then TrimEnd(s[..|s| - 1]) else s
  }

  /** The part of a requested path below the root. */
  function BelowRoot(keyPath: string, keyPathHasRoot: bool): string {
    var p := TrimStart(keyPath);
    if !keyPathHasRoot then p else var i := Find(p); if i < |p| then p[i + 1..] else []
  }

  /** The path that is searched for: the part below the root, put below the root's path. */
  function Request(rootPath: string, keyPath: string, keyPathHasRoot: bool): string {
    TrimEnd(rootPath + [SLASH] + BelowRoot(keyPath, keyPathHasRoot))
  }

  /** `get_key`, through `get_sub_key_by_path`. */
  function GetKey(h: Hive, root: Node, keyPath: string, keyPathHasRoot: bool): Option<Node> {
    var below := BelowRoot(keyPath, keyPathHasRoot);
    if below == [] then Some(root)
    else Search(h, QueryFor(Request(root.path, keyPath, keyPathHasRoot)), root)
  }

  lemma {:induction false} TrimEndOfJoin(a: string, b: string)
    ensures TrimEnd(a + b) == if TrimEnd(b) == [] then TrimEnd(a) else a + TrimEnd(b)
    decreases |b|
  {
    if b == [] {
      assert a + b == a;
    } else {
      var last := |b| - 1;
      assert (a + b)[..|a + b| - 1] == a + b[..last] && (a + b)[|a + b| - 1] == b[last];
      if b[last] == SLASH { TrimEndOfJoin(a, b[..last]); }
    }
  }

  /**
    * Lookup by path, from the root of any hive. An empty request is the root. Any other finds nothing if and only if no
    * key below the root has the requested path, ignoring ASCII case; what it finds is the first such key in preorder if
    * and only if the sub keys of the first parent are not blocked. One of nothing but backslashes finds nothing.
    */
  lemma GetKeyFindsFirst(h: Hive, root: Node, keyPath: string, keyPathHasRoot: bool) returns (px: seq<nat>)
    ensures var p, below := PlaceOf(root), BelowRoot(keyPath, keyPathHasRoot);
            var target, r := Request(root.path, keyPath, keyPathHasRoot), GetKey(h, root, keyPath, keyPathHasRoot);
            && (below == [] ==> r == Some(root))
            && (below != [] ==>
                  && (r.None? <==> forall ix :: !Leads(h, p, target, ix))
                  && (r.Some? ==>
                        && IsFirstParent(h, p, target, px)
                        && (IsFirstKey(h, p, target, r.value) <==> !IsBlocked(h, Walk(h, p, px).value, target))))
            && (below != [] && TrimEnd(below) == [] ==> r == None)
  {
    hide Search, QueryFor, BelowRoot, TrimEnd, Leads, IsFirstParent, IsFirstKey, IsBlocked, Walk;
    var below, target := BelowRoot(keyPath, keyPathHasRoot), Request(root.path, keyPath, keyPathHasRoot);
    px := SearchFinds(h, root, target);
    if TrimEnd(below) == [] {
      TrimEndOfRequest(root.path, below);
      forall ix
        ensures !Leads(h, PlaceOf(root), target, ix)
      {
        TooShort(h, PlaceOf(root), target, ix);
      }
    }
  }

  /** In a hive whose names hold no backslash, lookup finds the first key in preorder that has the requested path, and
      none if there is none. */
  lemma PlainLookup(h: Hive, root: Node, keyPath: string, keyPathHasRoot: bool)
    requires PlainHive(h) && BelowRoot(keyPath, keyPathHasRoot) != []
    ensures var p, target := PlaceOf(root), Request(root.path, keyPath, keyPathHasRoot);
            match GetKey(h, root, keyPath, keyPathHasRoot)
            case None => forall ix :: !Leads(h, p, target, ix)
            case Some(n) => IsFirstKey(h, p, target, n)
  {
    hide QueryFor, Request, BelowRoot, Leads, IsFirstKey, GetKey, Walk, HasMatch, IsBlocked;
    var px := GetKeyFindsFirst(h, root, keyPath, keyPathHasRoot);
    var p, target := PlaceOf(root), Request(root.path, keyPath, keyPathHasRoot);
    if Walk(h, p, px).Some? && HasMatch(h, Walk(h, p, px).value, target) {
      PlainIsNotBlocked(h, Walk(h, p, px).value, target);
    }
  }

  ghost predicate PlainHive(h: Hive) {
    forall o :: o in h ==> Plain(h[o].name)
  }

  lemma PlainIsNotBlocked(h: Hive, p: Place, target: string)
    requires PlainHive(h) && HasMatch(h, p, target)
    ensures !IsBlocked(h, p, target)
  {
    hide Split, Lower;
    var m :| Matches(h, p, target, m);
    forall j | HasKid(h, p.offset, j) && OnTheWay(Kid(h, p, j).path, target)
      ensures Matches(h, p, target, j)
    {
      KidLevel(h, p, m);
      KidLevel(h, p, j);
      SplitInjective(Lower(Kid(h, p, j).path), Lower(target));
    }
  }

  /** With a plain name, a sub key has one segment more. */
  lemma KidLevel(h: Hive, p: Place, k: nat)
    requires PlainHive(h) && HasKid(h, p.offset, k)
    ensures |Split(Lower(Kid(h, p, k).path))| == |Split(Lower(p.path))| + 1
  {
    var name := h[KidsOf(h, p.offset)[k]].name;
    LowerKeepsPlain([name]);
    assert Plain(LowerAll([name])[0]);
    hide Split;
    KidSegments(p.path, name);
    SplitPlain(Lower(name));
  }

  lemma TrimEndOfRequest(path: string, below: string)
    ensures TrimEnd(path + [SLASH] + below) == if TrimEnd(below) == [] then TrimEnd(path) else path + [SLASH] + TrimEnd(below)
  {
    hide TrimEnd;
    TrimEndOfJoin(path + [SLASH], below);
    TrimEndOfJoin(path, [SLASH]);
    TrimSlash();
  }

  /** The path of a root whose name holds no backslash asks for the root. */
  lemma RootRequest(name: string)
    requires Plain(name) && name != []
    ensures BelowRoot([SLASH] + name, true) == []
  {
    hide Find;
    TrimRoot(name, []);
    assert name + [] == name && [SLASH] + name + [] == [SLASH] + name;
    assert Find(name) == |name|;
  }

  /** Any other path is searched for as it is, unless it ends in a backslash. */
  lemma PathRequest(name: string, rest: string)
    requires Plain(name) && name != [] && rest != [] && rest[|rest| - 1] != SLASH
    ensures var path := [SLASH] + name + [SLASH] + rest;
            BelowRoot(path, true) == rest && Request([SLASH] + name, path, true) == path
  {
    hide TrimStart, TrimEnd, Find;
    var path := [SLASH] + name + [SLASH] + rest;
    TrimRoot(name, [SLASH] + rest);
    assert [SLASH] + name + ([SLASH] + rest) == path;
    var trimmed := name + [SLASH] + rest;
    assert name + ([SLASH] + rest) == trimmed;
    FindAfter(name, rest);
    assert trimmed[|name| + 1..] == rest;
    NothingToTrim(path);
  }

  lemma TrimRoot(name: string, more: string)
    requires Plain(name) && name != []
    ensures TrimStart([SLASH] + name + more) == name + more
  {
    var s := name + more;
    assert ([SLASH] + name + more)[1..] == s && s[0] == name[0];
    assert TrimStart(s) == s;
  }

  lemma NothingToTrim(s: string)
    requires s != [] && s[|s| - 1] != SLASH
    ensures TrimEnd(s) == s
  {
  }

  lemma WalkNowhere(h: Hive, p: Place)
    ensures Walk(h, p, []) == Some(p)
  {
  }

  lemma TrimSlash()
    ensures TrimEnd([SLASH]) == []
  {
    assert [SLASH][..0] == [];
  }

  /** Every step makes the path longer. */
  lemma {:induction false} WalkIsLonger(h: Hive, p: Place, ix: seq<nat>)
    requires Walk(h, p, ix).Some?
    ensures |p.path| + |ix| <= |Walk(h, p, ix).value.path|
    decreases |ix|
  {
    if ix != [] { WalkIsLonger(h, Kid(h, p, ix[0]), ix[1..]); }
  }

  lemma TooShort(h: Hive, p: Place, target: string, ix: seq<nat>)
    requires |target| <= |p.path|
    ensures !Leads(h, p, target, ix)
  {
    if Walk(h, p, ix).Some? {
      WalkIsLonger(h, p, ix);
      assert |Lower(Walk(h, p, ix).value.path)| >= |p.path| + |ix|;
    }
  }

  const HIVE_WITH_BACKSLASH: Hive :=
    map[0 := Key("r", true, [1, 2]), 1 := Key("a", false, []), 2 := Key("a\\b", false, [])]

  /** Why names without backslashes matter: a sub key named `a\b` next to a first one named `a` makes the code answer
      a request for `a\b` with `a`. */
  lemma BackslashInName()
    ensures GetKey(HIVE_WITH_BACKSLASH, Node(0, "\\r", None), "a\\b", false) == Some(Node(1, "\\r\\a", Some(NotMatched)))
    ensures Walk(HIVE_WITH_BACKSLASH, Place(0, "\\r"), [1]) == Some(Place(2, "\\r\\a\\b"))
  {
    SecondKey();
    var root, q := Node(0, "\\r", None), LiteralQuery(["", "r", "a", "b"]);
    KnownSubKeys();
    KnownSplits();
    FirstChild(HIVE_WITH_BACKSLASH, q, root, 1);
    KnownRequest();
    hide *;
  }

  lemma SecondKey()
    ensures Walk(HIVE_WITH_BACKSLASH, Place(0, "\\r"), [1]) == Some(Place(2, "\\r\\a\\b"))
  {
    KnownHive();
    assert "\\r" + [SLASH] + "a\\b" == "\\r\\a\\b";
    hide HIVE_WITH_BACKSLASH;
    var h, p := HIVE_WITH_BACKSLASH, Place(0, "\\r");
    assert [1 as nat][1..] == [];
    WalkNowhere(h, Kid(h, p, 1));
  }

  lemma KnownRequest()
    ensures BelowRoot("a\\b", false) == "a\\b"
    ensures TrimEnd("\\r" + [SLASH] + "a\\b") == "\\r\\a\\b"
  {
    assert "\\r" + [SLASH] + "a\\b" == "\\r\\a\\b";
  }

  lemma KnownSubKeys()
    ensures var root, q := Node(0, "\\r", None), LiteralQuery(["", "r", "a", "b"]);
            SubKeys(HIVE_WITH_BACKSLASH, q, root) == [Node(1, "\\r\\a", Some(NotMatched)), Node(2, "\\r\\a\\b", Some(Exact))]
  {
    var root, q := Node(0, "\\r", None), LiteralQuery(["", "r", "a", "b"]);
    var path1, path2 := "\\r\\a", "\\r\\a\\b";
    assert path1 == root.path + [SLASH] + "a" && path2 == root.path + [SLASH] + "a\\b";
    KnownChecks(root, 0);
    KnownChecks(root, CheckCell(Some(q), root, false, path1, 0).cache);
    hide *;
    ReadTwo(HIVE_WITH_BACKSLASH, q, root, 1, 2, path1, path2) by { KnownHive(); }
  }

  lemma KnownHive()
    ensures var h := HIVE_WITH_BACKSLASH;
            && KidsOf(h, 0) == [1, 2] && 1 in h && 2 in h
            && h[1] == Key("a", false, []) && h[2] == Key("a\\b", false, [])
  {
  }

  /** Reading two sub keys of which the second is an exact match and the first is on the way. */
  lemma ReadTwo(h: Hive, q: Query, root: Node, o1: nat, o2: nat, path1: string, path2: string)
    requires KidsOf(h, root.offset) == [o1, o2] && o1 in h && o2 in h && root.state == None
    requires path1 == root.path + [SLASH] + h[o1].name && path2 == root.path + [SLASH] + h[o2].name
    requires CheckCell(Some(q), root, h[o1].isHiveEntry, path1, 0).flags == Iterate
    requires var cache := CheckCell(Some(q), root, h[o1].isHiveEntry, path1, 0).cache;
             CheckCell(Some(q), root, h[o2].isHiveEntry, path2, cache).flags == IterateAndMatch
    ensures SubKeys(h, q, root) == [Node(o1, path1, Some(NotMatched)), Node(o2, path2, Some(Exact))]
  {
    hide CheckCell;
    var cache := CheckCell(Some(q), root, h[o1].isHiveEntry, path1, 0).cache;
    assert [o1, o2][1..] == [o2] && [o2][1..] == [];
    assert ReadSubKeys(h, Some(q), root, [o2], cache).nodes == [Node(o2, path2, Some(Exact))];
  }

  lemma FirstChild(h: Hive, q: Query, node: Node, i: nat)
    requires q.keyPathHasRoot && !q.children && i < |SubKeys(h, q, node)| && SubKeys(h, q, node)[i].state == Some(Exact)
    ensures Search(h, q, node) == Some(SubKeys(h, q, node)[0])
  {
  }

  lemma KnownSplits()
    ensures Split("\\r\\a") == ["", "r", "a"] && Split("\\r\\a\\b") == ["", "r", "a", "b"]
  {
    SplitPlain("");
    SplitJoin("", "r");
    SplitJoin("\\r", "a");
    SplitJoin("\\r\\a", "b");
    assert "" + [SLASH] + "r" == "\\r" && "\\r" + [SLASH] + "a" == "\\r\\a" && "\\r\\a" + [SLASH] + "b" == "\\r\\a\\b";
    hide Split;
  }

  lemma KnownChecks(root: Node, cache: nat)
    requires root.state == None
    ensures var q := LiteralQuery(["", "r", "a", "b"]);
            && CheckCell(Some(q), root, false, "\\r\\a", cache).flags == Iterate
            && CheckCell(Some(q), root, false, "\\r\\a\\b", cache).flags == IterateAndMatch
  {
    KnownSplits();
    hide Split, RootPathOffset;
    var q := LiteralQuery(["", "r", "a", "b"]);
    assert Lower("\\r\\a") == "\\r\\a" && Lower("\\r\\a\\b") == "\\r\\a\\b";
    assert Lower("r") == "r" && Lower("a") == "a" && Lower("b") == "b";
    assert CheckSegments(q.keyPath, ["", "r", "a"]) == Iterate;
    assert CheckSegments(q.keyPath, ["", "r", "a", "b"]) == IterateAndMatch;
  }
}
