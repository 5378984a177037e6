/** The diff that a comparison prints: one hunk per non-empty section, numbered like a unified diff. */
module UnifiedDiff {
  import opened Common
  import opened RegCompare
  import B = BaseLookup

  datatype Line = Header(lline: nat, llen: nat, rline: nat, rlen: nat) | Minus(item: Item) | Plus(item: Item)

  /** One section: removed and added items. */
  datatype Section = Section(left: seq<Item>, right: seq<Item>)

  function Originals(c: seq<Change>): (r: seq<Item>)
    ensures |r| == |c| && forall i :: 0 <= i < |r| ==> r[i] == c[i].original
  {
    seq(|c|, i requires 0 <= i < |c| => c[i].original)
  }

  function Sections(d: Lists): seq<Section> {
    [ Section(d.keysDeleted, []), Section([], d.keysAdded), Section(Originals(d.keysModified), Currents(d.keysModified)),
      Section(d.valuesDeleted, []), Section([], d.valuesAdded),
      Section(Originals(d.valuesModified), Currents(d.valuesModified)) ]
  }

  function Minuses(s: seq<Item>): (r: seq<Line>)
    ensures |r| == |s| && forall i :: 0 <= i < |r| ==> r[i] == Minus(s[i])
  {
    seq(|s|, i requires 0 <= i < |s| => Minus(s[i]))
  }

  function Pluses(s: seq<Item>): (r: seq<Line>)
    ensures |r| == |s| && forall i :: 0 <= i < |r| ==> r[i] == Plus(s[i])
  {
    seq(|s|, i requires 0 <= i < |s| => Plus(s[i]))
  }

  /** What one section prints when its sides start at the given lines; nothing when both sides are empty. */
  function Printed(lline: nat, rline: nat, s: Section): seq<Line> {
    if |s.left| == 0 && |s.right| == 0 then []
    else [Header(lline, |s.left|, rline, |s.right|)] + Minuses(s.left) + Pluses(s.right)
  }

  /** `write_diff_section`. */
  method WriteDiffSection(out: seq<Line>, lline: nat, left: seq<Item>, rline: nat, right: seq<Item>)
    returns (out': seq<Line>, lline': nat, rline': nat)
    ensures out' == out + Printed(lline, rline, Section(left, right))
    ensures lline' == lline + |left| && rline' == rline + |right|
  {
    hide Minuses, Pluses;
    out', lline', rline' := out, lline, rline;
    if |left| > 0 || |right| > 0 {
      out' := out' + [Header(lline, |left|, rline, |right|)];
      lline', rline' := lline + |left|, rline + |right|;
      for i := 0 to |left|
        invariant out' == out + ([Header(lline, |left|, rline, |right|)] + Minuses(left[..i]))
      {
        MinusesLast(left, i);
        out' := out' + [Minus(left[i])];
      }
      assert left[..|left|] == left;
      for i := 0 to |right|
        invariant out' == out + ([Header(lline, |left|, rline, |right|)] + Minuses(left) + Pluses(right[..i]))
      {
        PlusesLast(right, i);
        out' := out' + [Plus(right[i])];
      }
      assert right[..|right|] == right;
    }
  }

  lemma MinusesLast(s: seq<Item>, i: nat)
    requires i < |s|
    ensures Minuses(s[..i + 1]) == Minuses(s[..i]) + [Minus(s[i])]
  {
  }

  lemma PlusesLast(s: seq<Item>, i: nat)
    requires i < |s|
    ensures Pluses(s[..i + 1]) == Pluses(s[..i]) + [Plus(s[i])]
  {
  }

  /** All sections, each starting where the one before ends. */
  function PrintedAll(lline: nat, rline: nat, s: seq<Section>): seq<Line>
    decreases |s|
  {
    if s == [] then []
    else Printed(lline, rline, s[0]) + PrintedAll(lline + |s[0].left|, rline + |s[0].right|, s[1..])
  }

  lemma PrintStep(out: seq<Line>, lline: nat, rline: nat, s: seq<Section>, i: nat)
    requires i < |s|
    ensures out + PrintedAll(lline, rline, s[i..])
            == out + Printed(lline, rline, s[i]) + PrintedAll(lline + |s[i].left|, rline + |s[i].right|, s[i + 1..])
  {
    hide Printed;
    var t := s[i..];
    assert t[0] == s[i] && t[1..] == s[i + 1..];
    var first := Printed(lline, rline, t[0]);
    var rest := PrintedAll(lline + |t[0].left|, rline + |t[0].right|, t[1..]);
    assert out + (first + rest) == out + first + rest;
  }

  /** `write_diff`, after the two file names. */
  method WriteDiff(d: Lists) returns (out: seq<Line>)
    ensures out == PrintedAll(1, 1, Sections(d))
  {
    hide Printed, PrintedAll, Originals, Currents;
    var l, r := 1, 1;
    out := [];
    ghost var s := Sections(d);
    assert s[0..] == s && s[6..] == [];
    assert out + PrintedAll(1, 1, s) == PrintedAll(1, 1, s);
    PrintStep(out, l, r, s, 0);
    out, l, r := WriteDiffSection(out, l, d.keysDeleted, r, []);
    PrintStep(out, l, r, s, 1);
    out, l, r := WriteDiffSection(out, l, [], r, d.keysAdded);
    PrintStep(out, l, r, s, 2);
    out, l, r := WriteDiffSection(out, l, Originals(d.keysModified), r, Currents(d.keysModified));
    PrintStep(out, l, r, s, 3);
    out, l, r := WriteDiffSection(out, l, d.valuesDeleted, r, []);
    PrintStep(out, l, r, s, 4);
    out, l, r := WriteDiffSection(out, l, [], r, d.valuesAdded);
    PrintStep(out, l, r, s, 5);
    out, l, r := WriteDiffSection(out, l, Originals(d.valuesModified), r, Currents(d.valuesModified));
    PrintedNothing(l, r);
    assert out + [] == out;
  }

  lemma PrintedNothing(lline: nat, rline: nat)
    ensures PrintedAll(lline, rline, []) == []
  {
  }

  // ----- Which items are printed -----

  /** The items of the lines that remove. */
  function Removed(out: seq<Line>): seq<Item> {
    if out == [] then []
    else
      var last := out[|out| - 1];
      Removed(out[..|out| - 1]) + if last.Minus? then [last.item] else []
  }

  /** The items of the lines that add. */
  function Added(out: seq<Line>): seq<Item> {
    if out == [] then []
    else
      var last := out[|out| - 1];
      Added(out[..|out| - 1]) + if last.Plus? then [last.item] else []
  }

  lemma {:induction false} ItemsConcat(a: seq<Line>, b: seq<Line>)
    ensures Removed(a + b) == Removed(a) + Removed(b) && Added(a + b) == Added(a) + Added(b)
    decreases |b|
  {
    if b == [] {
      assert a + b == a;
    } else {
      assert (a + b)[..|a + b| - 1] == a + b[..|b| - 1];
      ItemsConcat(a, b[..|b| - 1]);
    }
  }

  lemma {:induction false} ItemsOfLines(s: seq<Item>)
    ensures Removed(Minuses(s)) == s && Added(Minuses(s)) == []
    ensures Removed(Pluses(s)) == [] && Added(Pluses(s)) == s
    decreases |s|
  {
    if s != [] {
      var front := s[..|s| - 1];
      assert Minuses(s)[..|s| - 1] == Minuses(front) && Pluses(s)[..|s| - 1] == Pluses(front);
      ItemsOfLines(front);
      assert s == front + [s[|s| - 1]];
    }
  }

  lemma ItemsOfSection(lline: nat, rline: nat, s: Section)
    ensures Removed(Printed(lline, rline, s)) == s.left && Added(Printed(lline, rline, s)) == s.right
  {
    hide Minuses, Pluses, Removed, Added;
    NoItems();
    if |s.left| != 0 || |s.right| != 0 {
      var h := Header(lline, |s.left|, rline, |s.right|);
      NoItemInHeader(h);
      ItemsConcat([h] + Minuses(s.left), Pluses(s.right));
      ItemsConcat([h], Minuses(s.left));
      ItemsOfLines(s.left);
      ItemsOfLines(s.right);
    }
  }

  lemma NoItems()
    ensures Removed([]) == [] && Added([]) == []
  {
  }

  lemma NoItemInHeader(h: Line)
    requires h.Header?
    ensures Removed([h]) == [] && Added([h]) == []
  {
    assert [h][..0] == [];
  }

  /** The removed items of all sections. */
  function Lefts(s: seq<Section>): seq<Item> {
    if s == [] then [] else s[0].left + Lefts(s[1..])
  }

  function Rights(s: seq<Section>): seq<Item> {
    if s == [] then [] else s[0].right + Rights(s[1..])
  }

  lemma {:induction false} ItemsOfSections(lline: nat, rline: nat, s: seq<Section>)
    ensures Removed(PrintedAll(lline, rline, s)) == Lefts(s) && Added(PrintedAll(lline, rline, s)) == Rights(s)
    decreases |s|
  {
    hide Printed;
    if s != [] {
      var l, r := lline + |s[0].left|, rline + |s[0].right|;
      ItemsOfSection(lline, rline, s[0]);
      ItemsOfSections(l, r, s[1..]);
      ItemsConcat(Printed(lline, rline, s[0]), PrintedAll(l, r, s[1..]));
    }
  }

  /** The printed removals are the deleted keys, the originals of the modified keys, the deleted values and the originals
      of the modified values; the additions are the added keys and values and what the modified ones are now. */
  lemma ItemsOfDiff(d: Lists)
    ensures var out := PrintedAll(1, 1, Sections(d));
            && Removed(out) == d.keysDeleted + Originals(d.keysModified) + d.valuesDeleted + Originals(d.valuesModified)
            && Added(out) == d.keysAdded + Currents(d.keysModified) + d.valuesAdded + Currents(d.valuesModified)
  {
    hide PrintedAll, Removed, Added;
    var s := Sections(d);
    ItemsOfSections(1, 1, s);
    SixSections(s[0], s[1], s[2], s[3], s[4], s[5]);
  }

  lemma SixSections(a: Section, b: Section, c: Section, d: Section, e: Section, f: Section)
    requires b.left == [] && e.left == [] && a.right == [] && d.right == []
    ensures Lefts([a, b, c, d, e, f]) == a.left + c.left + d.left + f.left
    ensures Rights([a, b, c, d, e, f]) == b.right + c.right + e.right + f.right
  {
    FirstSection(a, [b, c, d, e, f]);
    FirstSection(b, [c, d, e, f]);
    FirstSection(c, [d, e, f]);
    FirstSection(d, [e, f]);
    FirstSection(e, [f]);
    FirstSection(f, []);
    hide Lefts, Rights;
    var all := [a, b, c, d, e, f];
    assert all == [a] + [b, c, d, e, f] && [b, c, d, e, f] == [b] + [c, d, e, f] && [c, d, e, f] == [c] + [d, e, f];
    assert [d, e, f] == [d] + [e, f] && [e, f] == [e] + [f] && [f] == [f] + [];
  }

  lemma FirstSection(a: Section, rest: seq<Section>)
    ensures Lefts([a] + rest) == a.left + Lefts(rest) && Rights([a] + rest) == a.right + Rights(rest)
    ensures Lefts([]) == [] && Rights([]) == []
  {
    assert ([a] + rest)[1..] == rest;
  }

  lemma {:induction false} LineOfItem(out: seq<Line>, item: Item)
    ensures Minus(item) in out <==> item in Removed(out)
    ensures Plus(item) in out <==> item in Added(out)
    decreases |out|
  {
    if out != [] {
      LineOfItem(out[..|out| - 1], item);
      assert out == out[..|out| - 1] + [out[|out| - 1]];
    }
  }

  lemma OriginalOfModified(m: HashMap, s: seq<Item>, d: Lists, item: Item)
    requires Distinct(s) && ListsChanges(m, s, d)
    ensures item in Originals(d.keysModified) + Originals(d.valuesModified) <==>
            item.key in m && m[item.key] == item.hash && item !in s && item.key in KeysOf(s)
  {
    DistinctIsFunctional(s);
    hide Distinct;
    if item.key in m && m[item.key] == item.hash && item !in s && item.key in KeysOf(s) {
      var now :| now in s && now.key == item.key;
      var c := Change(item, now);
      assert IsModified(m, s, c);
      if c in d.keysModified {
        var i :| 0 <= i < |d.keysModified| && d.keysModified[i] == c;
        assert Originals(d.keysModified)[i] == item;
      } else {
        var i :| 0 <= i < |d.valuesModified| && d.valuesModified[i] == c;
        assert Originals(d.valuesModified)[i] == item;
      }
    }
  }

  /** Of exact lists, the diff removes just the items of the base hive that the comparison hive does not have with that
      hash, and adds just the items of the comparison hive that the base hive does not have with that hash. */
  lemma DiffIsExact(m: HashMap, s: seq<Item>, d: Lists, item: Item)
    requires Distinct(s) && ListsChanges(m, s, d) && ListsDeletions(m, s, d)
    ensures var out := PrintedAll(1, 1, Sections(d));
            && (Minus(item) in out <==> item.key in m && m[item.key] == item.hash && item !in s)
            && (Plus(item) in out <==> item in s && !(item.key in m && m[item.key] == item.hash))
  {
    ItemsOfDiff(d);
    LineOfItem(PrintedAll(1, 1, Sections(d)), item);
    WhatIsWritten(m, s, d);
    OriginalOfModified(m, s, d, item);
    hide PrintedAll, Removed, Added, Sections, Distinct, Originals, Currents;
    assert item in d.keysDeleted || item in d.valuesDeleted <==> IsDeleted(m, s, item);
    hide ListsChanges, ListsDeletions;
    assert item in d.keysAdded + d.valuesAdded + Currents(d.keysModified) + Currents(d.valuesModified) <==> Written(m, s, item);
  }

  /** So the diff of a base hive whose keys can be found again and any hive of distinct items is exact. */
  lemma PrintedComparison(b: Base, comparison: seq<Key>, r: Option<Lists>, item: Item)
    requires IsComparison(b, comparison, r) && B.Searchable(b) && Distinct(Items(comparison))
    ensures var m, s := MapOf(Items(KeysIn(b))), Items(comparison);
            && r.Some?
            && var out := PrintedAll(1, 1, Sections(r.value));
            && (Minus(item) in out <==> item.key in m && m[item.key] == item.hash && item !in s)
            && (Plus(item) in out <==> item in s && !(item.key in m && m[item.key] == item.hash))
  {
    B.ComparisonIsExact(b, comparison, r);
    var m, s := MapOf(Items(KeysIn(b))), Items(comparison);
    hide *;
    DiffIsExact(m, s, r.value, item);
  }

  // ----- How the hunks are numbered -----

  /** The header at `i` announces just the removals and additions that follow it. */
  ghost predicate IsHunk(out: seq<Line>, i: nat) {
    && i < |out| && out[i].Header?
    && var m := i + 1 + out[i].llen;
    var e := m + out[i].rlen;
    && i + 1 < e <= |out| && (e == |out| || out[e].Header?)
    && (forall j :: i < j < m ==> out[j].Minus?)
    && forall j :: m <= j < e ==> out[j].Plus?
  }

  lemma FirstHunk(lline: nat, rline: nat, s: Section, rest: seq<Line>, i: nat)
    requires var p := Printed(lline, rline, s); i < |p| && p[i].Header?
    requires rest == [] || rest[0].Header?
    ensures i == 0 && IsHunk(Printed(lline, rline, s) + rest, 0)
    ensures Printed(lline, rline, s)[0] == Header(lline, |s.left|, rline, |s.right|)
  {
  }

  /** Every hunk starts at the given line plus the number of lines earlier hunks have on that side. */
  lemma {:induction false} HunksAreNumbered(lline: nat, rline: nat, s: seq<Section>, i: nat)
    requires i < |PrintedAll(lline, rline, s)| && PrintedAll(lline, rline, s)[i].Header?
    ensures var out := PrintedAll(lline, rline, s);
            IsHunk(out, i) && out[i].lline == lline + |Removed(out[..i])| && out[i].rline == rline + |Added(out[..i])|
    decreases |s|
  {
    hide Removed, Added, Printed, IsHunk;
    var p := Printed(lline, rline, s[0]);
    var l, r := lline + |s[0].left|, rline + |s[0].right|;
    var rest := PrintedAll(l, r, s[1..]);
    var out := PrintedAll(lline, rline, s);
    assert out == p + rest;
    if i < |p| {
      StartsWithHeader(l, r, s[1..]);
      FirstHunk(lline, rline, s[0], rest, i);
      NoItems();
    } else {
      var k := i - |p|;
      HunksAreNumbered(l, r, s[1..], k);
      ItemsOfSection(lline, rline, s[0]);
      ItemsConcat(p, rest[..k]);
      assert out[..i] == p + rest[..k];
      ShiftHunk(p, rest, k);
    }
  }

  lemma ShiftHunk(p: seq<Line>, rest: seq<Line>, i: nat)
    requires IsHunk(rest, i)
    ensures IsHunk(p + rest, |p| + i)
  {
    var out := p + rest;
    assert forall j :: 0 <= j < |rest| ==> rest[j] == out[|p| + j];
    assert forall j :: |p| <= j < |out| ==> out[j] == rest[j - |p|];
  }

  lemma StartsWithHeader(lline: nat, rline: nat, s: seq<Section>)
    ensures PrintedAll(lline, rline, s) == [] || PrintedAll(lline, rline, s)[0].Header?
  {
  }
}
