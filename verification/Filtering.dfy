/** Key queries, and how reading sub keys applies them. */
module Filtering {
  import opened Common
  import opened Paths

  /** One segment of a query: a lower-case literal, or a regular expression seen as a predicate. */
  datatype Component = Literal(text: string) | Regex(accepts: string -> bool)

  predicate Accepts(c: Component, segment: string) {
    match c
    case Literal(text) => text == segment
    case Regex(accepts) => accepts(segment)
  }

  datatype Query = Query(keyPath: seq<Component>, keyPathHasRoot: bool, children: bool)

  datatype Flags = NoMatch | Iterate | IterateAndMatch

  /** The segments are accepted one by one by the first components. */
  predicate Prefixes(components: seq<Component>, segments: seq<string>) {
    |segments| <= |components| && forall i :: 0 <= i < |segments| ==> Accepts(components[i], Lower(segments[i]))
  }

  function CheckSegments(components: seq<Component>, segments: seq<string>): Flags {
    if !Prefixes(components, segments) then NoMatch
    else if |segments| == |components| then IterateAndMatch
    else Iterate
  }

  /** What the outcomes mean: some segment is not the literal, or not accepted by the expression, in its place, or there are
      more segments than components; or else the path is on the way to a match, or is one. */
  lemma OutcomesMean(components: seq<Component>, segments: seq<string>)
    ensures CheckSegments(components, segments) == NoMatch <==>
            || |components| < |segments|
            || exists i :: 0 <= i < |segments|
                 && ((components[i].Literal? && Lower(segments[i]) != components[i].text)
                     || (components[i].Regex? && !components[i].accepts(Lower(segments[i]))))
    ensures CheckSegments(components, segments) == IterateAndMatch ==> |segments| == |components|
    ensures CheckSegments(components, segments) == Iterate ==> |segments| < |components|
  {
    hide Lower;
    if |segments| <= |components| && !Prefixes(components, segments) {
      var i :| 0 <= i < |segments| && !Accepts(components[i], Lower(segments[i]));
      assert components[i].Literal? || components[i].Regex?;
    }
  }

  function Literals(names: seq<string>): (r: seq<Component>)
    ensures |r| == |names| && forall i :: 0 <= i < |r| ==> r[i] == Literal(names[i])
  {
    seq(|names|, i requires 0 <= i < |names| => Literal(names[i]))
  }

  /** A query of literals matches the one path in lower case, and every path on the way to it, whatever their case. */
  lemma LiteralQuery(names: seq<string>, segments: seq<string>)
    ensures var f := CheckSegments(Literals(names), segments);
            && (f == IterateAndMatch <==> LowerAll(segments) == names)
            && (f == Iterate <==> LowerAll(segments) < names)
  {
    hide Lower;
  }

  /** `check_key_match`: walks the path segments and the query components side by side. */
  method CheckKeyMatch(q: Query, keyPath: string, rootOffset: nat) returns (f: Flags)
    requires q.keyPathHasRoot || rootOffset <= |keyPath|
    ensures f == CheckSegments(q.keyPath, Split(if q.keyPathHasRoot then keyPath else keyPath[rootOffset..]))
  {
    hide Accepts, Split, Lower;
    var segments := Split(if q.keyPathHasRoot then keyPath else keyPath[rootOffset..]);
    var i, next := 0, 0;
    while i < |segments|
      invariant 0 <= i == next <= |segments| && next <= |q.keyPath|
      invariant forall j :: 0 <= j < i ==> Accepts(q.keyPath[j], Lower(segments[j]))
    {
      if next == |q.keyPath| {
        return NoMatch;
      }
      if !Accepts(q.keyPath[next], Lower(segments[i])) {
        return NoMatch;
      }
      i, next := i + 1, next + 1;
    }
    f := if next == |q.keyPath| then IterateAndMatch else Iterate;
  }

  // ----- Reading keys -----

  datatype Key = Key(name: string, isHiveEntry: bool, kids: seq<nat>)

  /** The readable key nodes by offset. */
  type Hive = map<nat, Key>

  datatype MatchState = NotMatched | Descendent | Exact

  /** A key read from the hive, with its path and its filter state. */
  datatype Node = Node(offset: nat, path: string, state: Option<MatchState>)

  predicate IsMatchOrDescendent(n: Node) {
    n.state == Some(Exact) || n.state == Some(Descendent)
  }

  /** The cached length of the root part of paths (`State::get_root_path_offset`); 0 means not known yet. */
  function RootOffset(cache: nat, path: string): nat {
    if cache == 0 then RootPathOffset(path) else cache
  }

  datatype ReadKey = ReadKey(flags: Flags, cache: nat)

  /** The filter check of one sub key. */
  function CheckCell(q: Option<Query>, parent: Node, isHiveEntry: bool, path: string, cache: nat): ReadKey {
    if q.None? || (IsMatchOrDescendent(parent) && q.value.children) then ReadKey(Iterate, cache)
    else if isHiveEntry && !q.value.keyPathHasRoot then ReadKey(Iterate, cache)
    else
      var lower := Lower(path);
      var offset := RootOffset(cache, lower);
      if !q.value.keyPathHasRoot && |lower| < offset then ReadKey(NoMatch, offset) // would panic; no key of one hive gets here
      else ReadKey(CheckSegments(q.value.keyPath, Split(if q.value.keyPathHasRoot then lower else lower[offset..])), offset)
  }

  function StateOf(q: Option<Query>, parent: Node, flags: Flags): Option<MatchState> {
    if flags == IterateAndMatch then Some(Exact)
    else if IsMatchOrDescendent(parent) then Some(Descendent)
    else if q.Some? then Some(NotMatched)
    else None
  }

  datatype Reading = Reading(nodes: seq<Node>, cache: nat)

  /** The sub keys that pass the filter, in list order (`read_sub_keys_internal`). */
  function ReadSubKeys(h: Hive, q: Option<Query>, parent: Node, kids: seq<nat>, cache: nat): (r: Reading)
    ensures forall n :: n in r.nodes ==> n.offset in kids && n.offset in h
  {
    if kids == [] then Reading([], cache)
    else if kids[0] !in h then ReadSubKeys(h, q, parent, kids[1..], cache)
    else
      var key := h[kids[0]];
      var path := parent.path + [SLASH] + key.name;
      var check := CheckCell(q, parent, key.isHiveEntry, path, cache);
      var rest := ReadSubKeys(h, q, parent, kids[1..], check.cache);
      if check.flags == NoMatch then rest
      else Reading([Node(kids[0], path, StateOf(q, parent, check.flags))] + rest.nodes, rest.cache)
  }

  function KidsOf(h: Hive, o: nat): seq<nat> {
    if o in h then h[o].kids else []
  }

  /** `Filter::check_cell`, with the cache it updates. */
  method CheckSubKey(q: Option<Query>, parent: Node, isHiveEntry: bool, path: string, cache: nat)
    returns (flags: Flags, newCache: nat)
    ensures ReadKey(flags, newCache) == CheckCell(q, parent, isHiveEntry, path, cache)
  {
    hide CheckSegments, Split, Lower, RootPathOffset;
    flags, newCache := Iterate, cache;
    if q.Some? && !(IsMatchOrDescendent(parent) && q.value.children) {
      if !(isHiveEntry && !q.value.keyPathHasRoot) {
        var lower := Lower(path);
        newCache := RootOffset(cache, lower);
        if !q.value.keyPathHasRoot && |lower| < newCache {
          flags := NoMatch;
        } else {
          flags := CheckKeyMatch(q.value, lower, newCache);
        }
      }
    }
  }

  /** One sub key, and the others. */
  lemma ReadStep(h: Hive, q: Option<Query>, parent: Node, kids: seq<nat>, cache: nat)
    ensures ReadSubKeys(h, q, parent, kids, cache) ==
            if kids == [] then Reading([], cache)
            else if kids[0] !in h then ReadSubKeys(h, q, parent, kids[1..], cache)
            else
              var path := parent.path + [SLASH] + h[kids[0]].name;
              var check := CheckCell(q, parent, h[kids[0]].isHiveEntry, path, cache);
              var rest := ReadSubKeys(h, q, parent, kids[1..], check.cache);
              if check.flags == NoMatch then rest
              else Reading([Node(kids[0], path, StateOf(q, parent, check.flags))] + rest.nodes, rest.cache)
  {
    hide CheckCell, StateOf;
  }

  /** The loop of `read_sub_keys_internal`. */
  method ReadChildren(h: Hive, q: Option<Query>, parent: Node, cache: nat) returns (nodes: seq<Node>, newCache: nat)
    ensures Reading(nodes, newCache) == ReadSubKeys(h, q, parent, KidsOf(h, parent.offset), cache)
  {
    hide CheckCell, StateOf, ReadSubKeys;
    var kids := KidsOf(h, parent.offset);
    ghost var all := ReadSubKeys(h, q, parent, kids, cache);
    nodes, newCache := [], cache;
    var i := 0;
    assert kids[0..] == kids && [] + all.nodes == all.nodes;
    while i < |kids|
      invariant 0 <= i <= |kids|
      invariant var rest := ReadSubKeys(h, q, parent, kids[i..], newCache);
                all == Reading(nodes + rest.nodes, rest.cache)
    {
      var o := kids[i];
      assert kids[i..][0] == o && kids[i..][1..] == kids[i + 1..];
      ReadStep(h, q, parent, kids[i..], newCache);
      if o in h {
        var path := parent.path + [SLASH] + h[o].name;
        var flags;
        flags, newCache := CheckSubKey(q, parent, h[o].isHiveEntry, path, newCache);
        if flags != NoMatch {
          var node := Node(o, path, StateOf(q, parent, flags));
          ghost var rest := ReadSubKeys(h, q, parent, kids[i + 1..], newCache);
          assert nodes + ([node] + rest.nodes) == (nodes + [node]) + rest.nodes;
          nodes := nodes + [node];
        }
      }
      i := i + 1;
    }
    ReadStep(h, q, parent, kids[i..], newCache);
    assert nodes + [] == nodes;
  }
}
