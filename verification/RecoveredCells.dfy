/** How key and value cells are laid out, and where the cells that a pass recovers come from. */
module RecoveredCells {
  import opened Common
  import opened Bytes
  import opened SlackRecovery

  // ----- Layout -----

  /** The part of a cell that its parser reads: size, type, the length of the name between other fields, and the name. */
  function CellBytes(
    kind: Kind, size: u32, before: seq<byte>, lo: byte, hi: byte, after: seq<byte>, name: seq<byte>): seq<byte>
  {
    Le32(size) + (if kind == KeyCell then [0x6e, 0x6b] else [0x76, 0x6b]) + before + [lo, hi] + after + name
  }

  /** A key has 70 bytes before the length of its name and two behind it, a value 16 behind it; the name has that length. */
  ghost predicate IsLaidOut(kind: Kind, before: seq<byte>, lo: byte, hi: byte, after: seq<byte>, name: seq<byte>) {
    && (if kind == KeyCell then |before| == 70 && |after| == 2 else |before| == 0 && |after| == 16)
    && |name| == Digit(lo) + 0x100 * Digit(hi)
  }

  /** The size is at least 72 for a key and 24 for a value, and no more than what is there. */
  ghost predicate SizeFits(kind: Kind, size: u32, length: nat) {
    (if kind == KeyCell then 72 else 24) <= SizeNumber(size) <= length
  }

  lemma CellFields(
    kind: Kind, size: u32, before: seq<byte>, lo: byte, hi: byte, after: seq<byte>, name: seq<byte>, rest: seq<byte>)
    requires IsLaidOut(kind, before, lo, hi, after, name)
    ensures var cell := CellBytes(kind, size, before, lo, hi, after, name);
            var s := cell + rest;
            && |cell| == FixedLength(kind) + |name| && s[..4] == Le32(size)
            && s[4..6] == Signature(kind) && s[NameSizeAt(kind)] == lo && s[NameSizeAt(kind) + 1] == hi
  {
    hide Le32, Digit;
  }

  /** A cell written like that is parsed with that size, sign and length, and what follows up to its size is its slack. */
  lemma CellRoundTrip(
    kind: Kind, size: u32, before: seq<byte>, lo: byte, hi: byte, after: seq<byte>, name: seq<byte>, rest: seq<byte>)
    requires IsLaidOut(kind, before, lo, hi, after, name)
    requires SizeFits(kind, size, |CellBytes(kind, size, before, lo, hi, after, name)| + |rest|)
    ensures var cell := CellBytes(kind, size, before, lo, hi, after, name);
            var p := Parsed(SizeNumber(size), Byte3(size) < 0x80, |cell|);
            && ParseCell(kind, cell + rest) == Some(p)
            && Slack(cell + rest, p) == if |cell| <= SizeNumber(size) then rest[..SizeNumber(size) - |cell|] else []
  {
    hide CellBytes, Le32, Half, Digit, Byte3, SizeNumber, U32, ParseCell, Slack, FixedLength, NameSizeAt, Signature, Nat;
    var cell := CellBytes(kind, size, before, lo, hi, after, name);
    var s := cell + rest;
    CellFields(kind, size, before, lo, hi, after, name, rest);
    HoldsWord(s, 0, size);
    HalfIsNumber(lo, hi);
    FieldsParse(kind, s, size, lo, hi);
    SlackFollows(cell, rest, Parsed(SizeNumber(size), Byte3(size) < 0x80, |cell|));
  }

  lemma SlackFollows(cell: seq<byte>, rest: seq<byte>, p: Parsed)
    requires p.consumed == |cell| && p.size <= |cell| + |rest|
    ensures Slack(cell + rest, p) == if |cell| <= p.size then rest[..p.size - |cell|] else []
  {
  }

  lemma FieldsParse(kind: Kind, s: seq<byte>, size: u32, lo: byte, hi: byte)
    requires FixedLength(kind) + Half(lo, hi) <= |s| && SizeFits(kind, size, |s|)
    requires U32(s, 0) == size && s[4..6] == Signature(kind)
    requires s[NameSizeAt(kind)] == lo && s[NameSizeAt(kind) + 1] == hi
    ensures ParseCell(kind, s) == Some(Parsed(SizeNumber(size), Byte3(size) < 0x80, FixedLength(kind) + Half(lo, hi)))
  {
    hide Word, Half, Abs, IsFree, SizeNumber, Byte3, Nat;
    SizeIsAbs(size);
    FreeBySign(size);
  }

  lemma FreeBySign(x: u32)
    requires SizeNumber(x) != 0
    ensures IsFree(x) <==> Byte3(x) < 0x80
  {
    hide Abs, SizeNumber, Byte3, Nat;
    SizeIsAbs(x);
    AbsOfZero();
  }

  /** Every cell that is parsed was written like that. */
  lemma ParsedCellIsWritten(kind: Kind, s: seq<byte>)
    returns (size: u32, before: seq<byte>, lo: byte, hi: byte, after: seq<byte>, name: seq<byte>, rest: seq<byte>)
    requires ParseCell(kind, s).Some?
    ensures s == CellBytes(kind, size, before, lo, hi, after, name) + rest
    ensures IsLaidOut(kind, before, lo, hi, after, name) && SizeFits(kind, size, |s|)
  {
    hide ParseCell, Word, Digit, SizeFits, Le32, IsLaidOut, FixedLength, NameSizeAt;
    ParsedFields(kind, s);
    var end := ParseCell(kind, s).value.consumed;
    var at, fixed := NameSizeAt(kind), FixedLength(kind);
    size, lo, hi := U32(s, 0), s[at], s[at + 1];
    before, after, name, rest := s[6..at], s[at + 2..fixed], s[fixed..end], s[end..];
    InPieces(s, at, fixed, end);
    PiecesAreCell(kind, size, before, lo, hi, after, name);
  }

  lemma PiecesAreCell(
    kind: Kind, size: u32, before: seq<byte>, lo: byte, hi: byte, after: seq<byte>, name: seq<byte>)
    ensures CellBytes(kind, size, before, lo, hi, after, name) ==
            Le32(size) + Signature(kind) + before + [lo, hi] + after + name
  {
    hide Le32;
  }

  lemma ParsedFields(kind: Kind, s: seq<byte>)
    requires ParseCell(kind, s).Some?
    ensures var end, at, fixed := ParseCell(kind, s).value.consumed, NameSizeAt(kind), FixedLength(kind);
            && 6 <= at < at + 2 <= fixed <= end <= |s| && s[..4] == Le32(U32(s, 0)) && s[4..6] == Signature(kind)
            && IsLaidOut(kind, s[6..at], s[at], s[at + 1], s[at + 2..fixed], s[fixed..end])
            && SizeFits(kind, U32(s, 0), |s|)
  {
    hide Word, Half, Digit, Abs, IsFree, SizeNumber, Le32, Byte3, Nat;
    var at := NameSizeAt(kind);
    HalfIsNumber(s[at], s[at + 1]);
    SizeIsAbs(U32(s, 0));
    U32Injective(s, Le32(U32(s, 0)), 0);
  }

  lemma InPieces(s: seq<byte>, at: nat, fixed: nat, end: nat)
    requires 6 <= at && at + 2 <= fixed <= end <= |s|
    ensures s == s[..4] + s[4..6] + s[6..at] + [s[at], s[at + 1]] + s[at + 2..fixed] + s[fixed..end] + s[end..]
  {
    assert [s[at], s[at + 1]] == s[at..at + 2];
  }

  // ----- Where a recovered cell comes from -----

  /** The bytes before `end` show that the cell at `p` is a key or a value. */
  ghost predicate ShowsType(b: seq<byte>, p: nat, end: nat) {
    p + 6 <= end <= |b| && b[p + 5] == 0x6b && (b[p + 4] == 0x6e || b[p + 4] == 0x76)
  }

  /** The key or value at `p`, if one parses there. */
  ghost predicate IsAtPosition(b: seq<byte>, d: Cell, p: nat) {
    IsCell(b, d) && d.offset == p
  }

  /** What the cell of a bin at `p` gives away: itself, if it is a key or value of positive size; what lies in its slack;
      or, if it does not show that it is a key or a value, what lies in it. */
  ghost predicate ComesFrom(b: seq<byte>, c: Cell, p: nat, end: nat) {
    p + 4 <= |b| &&
    if ShowsType(b, p, end) then
      exists d :: IsAtPosition(b, d, p) && ((c == d && b[p + 3] < 0x80) || InSlackOf(c, d))
    else Within(c, p, p + SizeAt(b, p))
  }

  lemma ShownType(b: seq<byte>, p: nat, end: nat)
    requires p + 4 <= end <= |b|
    ensures ShowsType(b, p, end) <==> KindAt(b[p..end]).Some?
  {
    if p + 6 <= end {
      var s := b[p..end];
      assert s[4..6] == [b[p + 4], b[p + 5]];
    }
  }

  lemma Origin(b: seq<byte>, p: nat, end: nat, c: Cell)
    requires p + 4 <= end <= |b| && 1 <= SizeAt(b, p) && c in FromBinCell(b, p, end)
    ensures ComesFrom(b, c, p, end)
  {
    hide ShowsType, SizeAt, FromCell, FromSlack, KindAt, Sound, InSlackOf, IsAtPosition, IsCell;
    ShownType(b, p, end);
    var kind := KindAt(b[p..end]);
    if kind.Some? {
      var d := OriginInCell(b, kind.value, p, c);
      assert IsAtPosition(b, d, p) && ((c == d && b[p + 3] < 0x80) || InSlackOf(c, d));
    } else {
      FromBinCellIsSound(b, p, end);
      FoundIsWithin(b, FromBinCell(b, p, end), p, p + SizeAt(b, p), c);
    }
  }

  lemma OriginInCell(b: seq<byte>, kind: Kind, p: nat, c: Cell) returns (d: Cell)
    requires p + 4 <= |b| && c in FromCell(kind, b[p..], p, false)
    ensures IsAtPosition(b, d, p) && ((c == d && b[p + 3] < 0x80) || InSlackOf(c, d))
  {
    hide ParseCell, FromSlack, Sound, InSlackOf, IsCell, Slack;
    var slice := b[p..];
    var parsed := ParseCell(kind, slice).value;
    d := CellOf(kind, slice, p, parsed);
    CellIsThere(b, kind, slice, p);
    SignOfCell(kind, b, p);
    var inner := FromSlack(Slack(slice, parsed), d.slackStart);
    if c in inner {
      FromSlackIsSound(b, Slack(slice, parsed), d.slackStart);
      FoundIsInSlack(b, inner, d, c);
    }
  }

  /** A walk over the cells of a bin: each starts where the one before ends. */
  ghost predicate IsWalk(b: seq<byte>, ps: seq<nat>, binEnd: nat) {
    && |ps| > 0
    && (forall i :: 0 <= i < |ps| ==> ps[i] + 4 <= |b| && ps[i] < binEnd && 1 <= SizeAt(b, ps[i]))
    && forall i, j :: 0 <= i && j == i + 1 && j < |ps| ==> ps[j] == ps[i] + SizeAt(b, ps[i])
  }

  /** Where the bytes end from which the type of the last cell is read: as far behind its start as the cell before is
      long. */
  ghost function Window(b: seq<byte>, ps: seq<nat>, end: nat): nat
    requires |ps| > 0 && (|ps| > 1 ==> ps[|ps| - 2] + 4 <= |b|)
  {
    if |ps| == 1 then end else Min(ps[|ps| - 1] + SizeAt(b, ps[|ps| - 2]), |b|)
  }

  lemma {:induction false} OriginInBin(b: seq<byte>, offset: nat, end: nat, binEnd: nat, c: Cell) returns (ps: seq<nat>)
    requires offset < |b| && offset <= end <= |b| && c in ScanCells(b, offset, end, binEnd).cells
    ensures IsWalk(b, ps, binEnd) && ps[0] == offset && ComesFrom(b, c, ps[|ps| - 1], Window(b, ps, end))
    decreases binEnd - offset
  {
    hide FromBinCell, SizeAt, ComesFrom, IsWalk, Window;
    WalkOfOne(b, offset, end, binEnd);
    if c in FromBinCell(b, offset, end) {
      ps := [offset];
      Origin(b, offset, end, c);
    } else {
      var size := SizeAt(b, offset);
      var next := offset + size;
      var rest := OriginInBin(b, next, Min(next + size, |b|), binEnd, c);
      ps := [offset] + rest;
      WalkGrows(b, offset, rest, end, binEnd);
    }
  }

  lemma WalkOfOne(b: seq<byte>, offset: nat, end: nat, binEnd: nat)
    ensures Window(b, [offset], end) == end
    ensures offset + 4 <= |b| && offset < binEnd && 1 <= SizeAt(b, offset) ==> IsWalk(b, [offset], binEnd)
  {
    hide SizeAt;
  }

  lemma WalkGrows(b: seq<byte>, offset: nat, rest: seq<nat>, end: nat, binEnd: nat)
    requires IsWalk(b, rest, binEnd) && offset + 4 <= |b| && offset < binEnd
    requires 1 <= SizeAt(b, offset) && rest[0] == offset + SizeAt(b, offset)
    ensures var ps := [offset] + rest;
            && IsWalk(b, ps, binEnd) && ps[|ps| - 1] == rest[|rest| - 1]
            && Window(b, ps, end) == Window(b, rest, Min(rest[0] + SizeAt(b, offset), |b|))
  {
    hide SizeAt;
  }

  /** Every cell that a pass recovers comes from a cell on the walk over a bin that the pass visits. */
  lemma {:induction false} OriginInPass(b: seq<byte>, offset: nat, binsSize: nat, c: Cell) returns (bs: seq<nat>, ps: seq<nat>)
    requires c in ScanBins(b, offset, binsSize).cells
    ensures IsBinChain(b, bs) && bs[0] == offset
    ensures var last := bs[|bs| - 1];
            && last < binsSize && IsBin(b, last)
            && IsWalk(b, ps, BinEnd(b, last)) && ps[0] == last + HBIN_HEADER_LEN
            && ComesFrom(b, c, ps[|ps| - 1], Window(b, ps, |b|))
    decreases binsSize - offset
  {
    hide ComesFrom, ScanCells, IsWalk, Window, BinEnd;
    if c in ScanBin(b, offset).cells {
      bs := [offset];
      ps := OriginInBin(b, offset + HBIN_HEADER_LEN, |b|, BinEnd(b, offset), c);
    } else {
      var next := ScanBin(b, offset).next;
      var rest;
      rest, ps := OriginInPass(b, next, binsSize, c);
      bs := [offset] + rest;
      assert bs[1..] == rest;
    }
  }

  // ----- Nothing is missed -----

  /** The part of a cell of a bin that is searched: the slack of a key or value that parses, and all of any other cell. */
  ghost predicate IsSearched(b: seq<byte>, p: nat, lo: nat, hi: nat) {
    p + 4 <= |b| && lo <= hi <= |b| &&
    if ShowsType(b, p, |b|) then exists d :: IsAtPosition(b, d, p) && lo == d.slackStart && hi == d.offset + d.size
    else lo == p && hi == Min(p + SizeAt(b, p), |b|)
  }

  /** How far behind the type the window reaches makes no difference. */
  lemma WindowIsEnough(b: seq<byte>, p: nat, end: nat)
    requires p + 6 <= end <= |b|
    ensures FromBinCell(b, p, end) == FromBinCell(b, p, |b|)
  {
    hide FromCell, FromSlack, SizeAt;
    var near, far := b[p..end], b[p..|b|];
    assert near[4..6] == far[4..6] by { assert near[4] == far[4] && near[5] == far[5]; }
  }

  /** What a cell of the chain yields, the walk over the bin yields. */
  lemma {:induction false} ChainYields(b: seq<byte>, ps: seq<nat>, end: nat, binEnd: nat, c: Cell)
    requires IsChain(b, ps, binEnd) && ps[0] + 6 <= end <= |b|
    requires ps[|ps| - 1] + 4 <= |b| && c in FromBinCell(b, ps[|ps| - 1], |b|)
    ensures c in ScanCells(b, ps[0], end, binEnd).cells
    decreases |ps|
  {
    hide FromBinCell, SizeAt, ScanCells, IsChain, Min;
    ChainStep(b, ps, binEnd);
    ScanStep(b, ps[0], end, binEnd);
    if |ps| == 1 {
      WindowIsEnough(b, ps[0], end);
    } else {
      WindowIsWide(ps[1], SizeAt(b, ps[0]), |b|);
      ChainYields(b, ps[1..], Min(ps[1] + SizeAt(b, ps[0]), |b|), binEnd, c);
    }
  }

  /** What is searched is swept. */
  lemma CellIsSwept(b: seq<byte>, p: nat, lo: nat, hi: nat, kind: Kind, i: nat) returns (c: Cell)
    requires p + 6 <= |b| && IsSearched(b, p, lo, hi) && ParsesAt(kind, b[lo..hi], i)
    ensures c in FromBinCell(b, p, |b|) && SlackRecovery.Covers(c, lo + i)
  {
    hide ShowsType, ParseCell, FromSlack, SizeAt, KindAt, ParsesAt, SlackRecovery.Covers;
    ShownType(b, p, |b|);
    c := SlackIsSwept(b[lo..hi], lo, kind, i);
    if ShowsType(b, p, |b|) {
      var d :| IsAtPosition(b, d, p) && lo == d.slackStart && hi == d.offset + d.size;
      SlackIsSearched(b, d);
    }
  }

  lemma SlackIsSearched(b: seq<byte>, d: Cell)
    requires IsCell(b, d) && d.offset + 6 <= |b| && d.slackStart <= d.offset + d.size <= |b|
    ensures forall c :: c in FromSlack(b[d.slackStart..d.offset + d.size], d.slackStart) ==> c in FromBinCell(b, d.offset, |b|)
  {
    hide ParseCell, FromSlack, SizeAt, KindAt;
    var slice := b[d.offset..];
    assert slice == b[d.offset..|b|];
    ParsedKind(d.kind, slice);
    SlackIsThere(b, d);
  }

  lemma SlackIsThere(b: seq<byte>, d: Cell)
    requires IsCell(b, d)
    ensures var slice := b[d.offset..];
            d.slackStart <= d.offset + d.size <= |b|
            && Slack(slice, ParseCell(d.kind, slice).value) == b[d.slackStart..d.offset + d.size]
  {
    hide ParseCell, Slack;
    CellIsThere(b, d.kind, b[d.offset..], d.offset);
  }

  /** Wherever something in a searched part of a visited bin parses as a cell, the pass recovers a cell there. */
  lemma NothingIsMissed(
    b: seq<byte>, bs: seq<nat>, binsSize: nat, ps: seq<nat>, lo: nat, hi: nat, kind: Kind, i: nat) returns (c: Cell)
    requires IsBinChain(b, bs) && bs[0] == HIVE_BINS_START && bs[|bs| - 1] < binsSize && IsBin(b, bs[|bs| - 1])
    requires IsChain(b, ps, BinEnd(b, bs[|bs| - 1])) && ps[0] == bs[|bs| - 1] + HBIN_HEADER_LEN
    requires IsSearched(b, ps[|ps| - 1], lo, hi) && ParsesAt(kind, b[lo..hi], i)
    ensures c in ScanBins(b, HIVE_BINS_START, binsSize).cells && SlackRecovery.Covers(c, lo + i)
  {
    hide IsSearched, ParsesAt, ScanCells, ScanBins, BinEnd, SlackRecovery.Covers, FromBinCell, Sound;
    var bin, last := bs[|bs| - 1], ps[|ps| - 1];
    c := CellIsSwept(b, last, lo, hi, kind, i);
    ChainYields(b, ps, |b|, BinEnd(b, bin), c);
    var r := ScanBin(b, bin);
    ScanBinIsSound(b, bin);
    FoundIsWithin(b, r.cells, bin, r.next, c);
    assert c.size > 0 by { FoundIsCell(b, r.cells, bin, r.next, c); CellShape(b, c); }
    PassReachesBin(b, bs, binsSize, c);
  }

  lemma FoundIsCell(b: seq<byte>, cells: seq<Cell>, lo: nat, hi: nat, c: Cell)
    requires Sound(b, cells, lo, hi) && c in cells
    ensures IsCell(b, c)
  {
    hide IsCell, Swept;
  }
}
