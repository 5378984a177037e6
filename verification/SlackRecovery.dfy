/** Recovery of deleted keys and values from free cells and from the slack of other cells. */
module SlackRecovery {
  import opened Common
  import opened Bytes

  datatype Kind = KeyCell | ValueCell

  /** A recovered cell: where it starts, its size, and where its slack starts. */
  datatype Cell = Cell(kind: Kind, offset: nat, size: nat, slackStart: nat)

  const MIN_CELL_KEY_SIZE := 72
  const MIN_CELL_VALUE_SIZE := 24
  const HBIN_HEADER_LEN := 32
  const HBIN_TAG: seq<byte> := [0x68, 0x62, 0x69, 0x6e] // "hbin"

  function Signature(kind: Kind): seq<byte> {
    if kind == KeyCell then [0x6e, 0x6b] else [0x76, 0x6b] // "nk", "vk"
  }

  function MinSize(kind: Kind): nat {
    if kind == KeyCell then MIN_CELL_KEY_SIZE else MIN_CELL_VALUE_SIZE
  }

  /** The fixed part of the cell, before its name. */
  function FixedLength(kind: Kind): nat {
    if kind == KeyCell then 80 else 24
  }

  function NameSizeAt(kind: Kind): nat {
    if kind == KeyCell then 76 else 6
  }

  /** A cell is free when its size field is positive. */
  predicate IsFree(x: u32) {
    x != 0 && x & 0x80000000 == 0
  }

  datatype Parsed = Parsed(size: nat, isFree: bool, consumed: nat)

  /** `from_bytes` of a key or value cell, as far as sizes go. */
  function ParseCell(kind: Kind, slice: seq<byte>): (r: Option<Parsed>)
    ensures r.Some? ==> 4 <= |slice| && r.value.size == Abs(U32(slice, 0)) && r.value.size <= |slice|
    ensures r.Some? ==> 24 <= r.value.size && 24 <= r.value.consumed
  {
    if |slice| < 4 then None
    else
      var size := Abs(U32(slice, 0));
      if size < MinSize(kind) || |slice| < size || |slice| < FixedLength(kind) || slice[4..6] != Signature(kind) then None
      else
        var consumed := FixedLength(kind) + Word16(slice, NameSizeAt(kind));
        if |slice| < consumed then None else Some(Parsed(size, IsFree(U32(slice, 0)), consumed))
  }

  /** The slack that `parser_eat_remaining` leaves: what the cell's size covers beyond the bytes consumed. */
  function Slack(slice: seq<byte>, p: Parsed): seq<byte>
    requires p.size <= |slice|
  {
    if p.consumed < p.size then slice[p.consumed..p.size] else []
  }

  function CellOf(kind: Kind, slice: seq<byte>, offset: nat, p: Parsed): Cell
    requires p.size <= |slice|
  {
    Cell(kind, offset, p.size, offset + p.size - |Slack(slice, p)|)
  }

  /** The kind of cell the two bytes after the size announce. */
  function KindAt(slice: seq<byte>): Option<Kind> {
    if |slice| < 6 then None
    else if slice[4..6] == Signature(KeyCell) then Some(KeyCell)
    else if slice[4..6] == Signature(ValueCell) then Some(ValueCell)
    else None
  }

  // ----- The cells a scan recovers, in the order it files them -----

  /** From one cell: what its slack holds, then the cell itself if it is free or must be added. */
  function FromCell(kind: Kind, slice: seq<byte>, offset: nat, forceAdd: bool): seq<Cell>
    decreases |slice|, 0
  {
    hide ParseCell;
    match ParseCell(kind, slice)
    case None => []
    case Some(p) =>
      var c := CellOf(kind, slice, offset, p);
      FromSlack(Slack(slice, p), c.slackStart) + if forceAdd || p.isFree then [c] else []
  }

  /** How far reading a cell takes a slack scan. */
  function Step(kind: Kind, slice: seq<byte>): (r: nat)
    ensures 1 <= r && (r <= |slice| || r == 1)
  {
    var p := ParseCell(kind, slice);
    if p.Some? then p.value.size else 1
  }

  /** How far a slack scan moves on: over a cell that parses, else by one byte. */
  function StepAt(region: seq<byte>): (r: nat)
    ensures 1 <= r && (r <= |region| || r == 1)
  {
    var kind := KindAt(region);
    if kind.None? then 1 else Step(kind.value, region)
  }

  /** From the start of a region, if its type bytes announce a key or a value. */
  function FromStart(region: seq<byte>, start: nat): seq<Cell>
    decreases |region|, 1
  {
    var kind := KindAt(region);
    if kind.None? then [] else FromCell(kind.value, region, start, true)
  }

  /** From a region: from its start, then from the rest. */
  function FromSlack(region: seq<byte>, start: nat): seq<Cell>
    decreases |region|, 2
  {
    if |region| < 4 then []
    else
      var step := StepAt(region);
      FromStart(region, start) + FromSlack(region[step..], start + step)
  }

  // ----- A whole pass over the hive bins -----

  /** What a scan files, where it stops, and whether it stops without an error. */
  datatype Pass = Pass(cells: seq<Cell>, next: nat, ok: bool)

  function SizeAt(b: seq<byte>, offset: nat): nat
    requires offset + 4 <= |b|
  {
    Abs(U32(b, offset))
  }

  /** From the cell of a bin at `offset`. Its type is read from the bytes before `end`. A key or a value is read from
      the rest of the file; anything else is searched as one slack region. */
  function FromBinCell(b: seq<byte>, offset: nat, end: nat): seq<Cell>
    requires offset + 4 <= end <= |b|
  {
    var kind := KindAt(b[offset..end]);
    if kind.Some? then FromCell(kind.value, b[offset..], offset, false)
    else FromSlack(b[offset..Min(offset + SizeAt(b, offset), |b|)], offset)
  }

  /** `find_unused_cells_in_hbin`. After the first cell the window [offset, end) is as long as the previous cell. */
  function ScanCells(b: seq<byte>, offset: nat, end: nat, binEnd: nat): (r: Pass)
    requires offset < |b| && offset <= end <= |b|
    ensures offset <= r.next
    decreases binEnd - offset
  {
    if binEnd <= offset then Pass([], offset, true)
    else if end - offset < 4 then Pass([], offset, false)
    else
      var size := SizeAt(b, offset);
      var next := offset + size;
      if size == 0 then Pass([], offset, true)
      else if |b| <= next then Pass(FromBinCell(b, offset, end), next, true)
      else
        var rest := ScanCells(b, next, Min(next + size, |b|), binEnd);
        rest.(cells := FromBinCell(b, offset, end) + rest.cells)
  }

  /** Where the bin that starts at `offset` ends, by its header. */
  function BinEnd(b: seq<byte>, offset: nat): nat
    requires offset + HBIN_HEADER_LEN <= |b|
  {
    offset + U32(b, offset + 8) as nat
  }

  /** `find_free_keys_and_values`, of one bin. */
  function ScanBin(b: seq<byte>, offset: nat): (r: Pass)
    ensures offset <= r.next && (r.ok ==> offset < r.next)
  {
    if |b| < offset + HBIN_HEADER_LEN || b[offset..offset + 4] != HBIN_TAG || |b| == offset + HBIN_HEADER_LEN then
      Pass([], offset, false)
    else ScanCells(b, offset + HBIN_HEADER_LEN, |b|, BinEnd(b, offset))
  }

  /** All bins, as long as they start before `binsSize`. */
  function ScanBins(b: seq<byte>, offset: nat, binsSize: nat): (r: Pass)
    ensures offset <= r.next
    decreases binsSize - offset
  {
    if binsSize <= offset then Pass([], offset, true)
    else
      var bin := ScanBin(b, offset);
      if !bin.ok then bin
      else
        var rest := ScanBins(b, bin.next, binsSize);
        rest.(cells := bin.cells + rest.cells)
  }

  // ----- What recovery must keep -----

  /** The slice is the file's bytes at the offset it claims. */
  ghost predicate IsAt(buffer: seq<byte>, slice: seq<byte>, offset: nat) {
    offset + |slice| <= |buffer| && slice == buffer[offset..offset + |slice|]
  }

  /** The file, read at the cell's offset, really has that cell there. */
  ghost predicate IsCell(buffer: seq<byte>, c: Cell) {
    && c.offset <= |buffer|
    && var p := ParseCell(c.kind, buffer[c.offset..]);
    && p.Some? && c == CellOf(c.kind, buffer[c.offset..], c.offset, p.value)
  }

  ghost predicate Within(c: Cell, lo: nat, hi: nat) {
    lo <= c.offset && c.offset + c.size <= hi
  }

  ghost predicate InSlackOf(c: Cell, d: Cell) {
    Within(c, d.slackStart, d.offset + d.size)
  }

  /** Of two cells filed one after the other, the first ends before the second starts, or lies in its slack. */
  ghost predicate Apart(c: Cell, d: Cell) {
    c.offset + c.size <= d.offset || InSlackOf(c, d)
  }

  ghost predicate Covers(c: Cell, offset: nat) {
    c.offset <= offset < c.offset + c.size
  }

  /** The file's bytes at the slack of a cell. */
  ghost function SlackBytes(buffer: seq<byte>, c: Cell): seq<byte> {
    if c.slackStart <= c.offset + c.size <= |buffer| then buffer[c.slackStart..c.offset + c.size] else []
  }

  ghost predicate ParsesAt(kind: Kind, region: seq<byte>, p: nat) {
    p <= |region| && ParseCell(kind, region[p..]).Some?
  }

  /** Wherever something in the slack of `c` parses as a cell, one of the cells is there, inside that slack. */
  ghost predicate Swept(buffer: seq<byte>, cells: seq<Cell>, c: Cell) {
    var slack := SlackBytes(buffer, c);
    forall kind, p :: ParsesAt(kind, slack, p) ==>
      exists d :: d in cells && InSlackOf(d, c) && Covers(d, c.slackStart + p)
  }

  /** The cells lie in [lo, hi), are cells of the file, are filed in order, what is in a slack before its owner, and
      leave nothing behind in their slacks. */
  ghost predicate Sound(buffer: seq<byte>, cells: seq<Cell>, lo: nat, hi: nat) {
    && (forall i :: 0 <= i < |cells| ==> IsCell(buffer, cells[i]) && Within(cells[i], lo, hi))
    && (forall i, j :: 0 <= i < j < |cells| ==> Apart(cells[i], cells[j]))
    && forall i :: 0 <= i < |cells| ==> Swept(buffer, cells, cells[i])
  }

  lemma SweptByMore(buffer: seq<byte>, cells: seq<Cell>, more: seq<Cell>, c: Cell)
    requires Swept(buffer, cells, c) && forall d :: d in cells ==> d in more
    ensures Swept(buffer, more, c)
  {
    hide ParsesAt, InSlackOf, Covers;
    var slack := SlackBytes(buffer, c);
    forall kind, p | ParsesAt(kind, slack, p)
      ensures exists d :: d in more && InSlackOf(d, c) && Covers(d, c.slackStart + p)
    {
      var d :| d in cells && InSlackOf(d, c) && Covers(d, c.slackStart + p);
      assert d in more;
    }
  }

  /** Cells of two adjoining regions together. */
  lemma SoundConcat(buffer: seq<byte>, a: seq<Cell>, b: seq<Cell>, lo: nat, mid: nat, hi: nat)
    requires lo <= mid <= hi && Sound(buffer, a, lo, mid) && Sound(buffer, b, mid, hi)
    ensures Sound(buffer, a + b, lo, hi)
  {
    hide IsCell, Swept;
    var c := a + b;
    forall i, j | 0 <= i < j < |c|
      ensures Apart(c[i], c[j])
    {
      if i < |a| <= j { assert Within(a[i], lo, mid) && Within(b[j - |a|], mid, hi); }
    }
    forall i | 0 <= i < |c|
      ensures Swept(buffer, c, c[i])
    {
      SweptByMore(buffer, if i < |a| then a else b, c, c[i]);
    }
  }

  /** Cells found in the slack of a cell, and then the cell. */
  lemma SoundWithOwner(buffer: seq<byte>, inner: seq<Cell>, c: Cell)
    requires IsCell(buffer, c) && Sound(buffer, inner, c.slackStart, c.offset + c.size) && Swept(buffer, inner, c)
    ensures Sound(buffer, inner + [c], c.offset, c.offset + c.size)
    ensures Sound(buffer, inner, c.offset, c.offset + c.size)
  {
    hide IsCell, Swept;
    assert c.offset <= c.slackStart by { CellShape(buffer, c); }
    var all := inner + [c];
    forall i, j | 0 <= i < j < |all|
      ensures Apart(all[i], all[j])
    {
      if j == |inner| { assert Within(inner[i], c.slackStart, c.offset + c.size); }
    }
    forall i | 0 <= i < |all|
      ensures Swept(buffer, all, all[i])
    {
      SweptByMore(buffer, inner, all, all[i]);
    }
  }

  lemma CellShape(buffer: seq<byte>, c: Cell)
    requires IsCell(buffer, c)
    ensures c.offset + 24 <= c.slackStart <= c.offset + c.size
  {
  }

  lemma SoundWider(buffer: seq<byte>, a: seq<Cell>, lo: nat, hi: nat, lo': nat, hi': nat)
    requires Sound(buffer, a, lo, hi) && lo' <= lo && hi <= hi'
    ensures Sound(buffer, a, lo', hi')
  {
    hide IsCell, Swept;
  }

  /** No offset is recovered twice. */
  lemma OffsetsAreDistinct(buffer: seq<byte>, cells: seq<Cell>, lo: nat, hi: nat, i: nat, j: nat)
    requires Sound(buffer, cells, lo, hi) && i < j < |cells|
    ensures cells[i].offset != cells[j].offset
  {
    hide IsCell, Swept;
    assert IsCell(buffer, cells[i]) && IsCell(buffer, cells[j]) && Apart(cells[i], cells[j]);
    CellShape(buffer, cells[i]);
    CellShape(buffer, cells[j]);
  }

  lemma SliceIsAt(buffer: seq<byte>, slice: seq<byte>, offset: nat, i: nat, j: nat)
    requires IsAt(buffer, slice, offset) && i <= j <= |slice|
    ensures IsAt(buffer, slice[i..j], offset + i)
  {
    var part := buffer[offset + i..offset + j];
    assert |part| == j - i;
    forall k | 0 <= k < j - i
      ensures slice[i..j][k] == part[k]
    {
      assert slice[i + k] == buffer[offset..offset + |slice|][i + k];
    }
    assert slice[i..j] == part;
  }

  lemma SuffixIsAt(buffer: seq<byte>, slice: seq<byte>, offset: nat, i: nat)
    requires IsAt(buffer, slice, offset) && i <= |slice|
    ensures IsAt(buffer, slice[i..], offset + i)
  {
    SliceIsAt(buffer, slice, offset, i, |slice|);
    assert slice[i..] == slice[i..|slice|];
  }

  /** What parses on a slice parses to the same cell when more bytes follow. */
  lemma ParseMore(kind: Kind, slice: seq<byte>, more: seq<byte>)
    requires ParseCell(kind, slice).Some?
    ensures ParseCell(kind, slice + more) == ParseCell(kind, slice)
    ensures |Slack(slice + more, ParseCell(kind, slice).value)| == |Slack(slice, ParseCell(kind, slice).value)|
  {
    hide Abs, Word, IsFree, Half;
    assert (slice + more)[4..6] == slice[4..6];
  }

  /** A cell that parses is there in the file, and its slack is the file's bytes at the offset it claims. */
  lemma CellIsThere(buffer: seq<byte>, kind: Kind, slice: seq<byte>, offset: nat)
    requires IsAt(buffer, slice, offset) && ParseCell(kind, slice).Some?
    ensures var p := ParseCell(kind, slice).value;
            var c := CellOf(kind, slice, offset, p);
            && |Slack(slice, p)| < |slice|
            && IsAt(buffer, Slack(slice, p), c.slackStart) && c.slackStart + |Slack(slice, p)| == c.offset + c.size
            && IsCell(buffer, c)
  {
    hide Abs, Word, IsFree, Half, ParseCell;
    var p := ParseCell(kind, slice).value;
    SliceIsAt(buffer, slice, offset, if p.consumed < p.size then p.consumed else p.size, p.size);
    var more := buffer[offset + |slice|..];
    assert buffer[offset..] == slice + more;
    ParseMore(kind, slice, more);
  }

  lemma BinsStep(b: seq<byte>, offset: nat, binsSize: nat)
    ensures var bin := ScanBin(b, offset);
            ScanBins(b, offset, binsSize)
            == if binsSize <= offset then Pass([], offset, true)
               else if !bin.ok then bin
               else var rest := ScanBins(b, bin.next, binsSize); rest.(cells := bin.cells + rest.cells)
  {
    hide ScanBin;
  }

  // ----- Nothing in slack is missed -----

  /** Every position of a region at which a cell parses is inside a recovered cell. */
  lemma {:induction false} SlackIsSwept(region: seq<byte>, start: nat, kind: Kind, p: nat) returns (c: Cell)
    requires ParsesAt(kind, region, p)
    ensures c in FromSlack(region, start) && Covers(c, start + p)
    decreases |region|
  {
    hide ParseCell, FromSlack, FromStart, StepAt, Covers;
    assert 24 <= |region[p..]| by { ParsedKind(kind, region[p..]); }
    SlackStep(region, start);
    var step := StepAt(region);
    if p < step {
      assert region[0..] == region;
      c := FirstIsFiled(kind, region, start, p);
    } else {
      assert region[step..][p - step..] == region[p..];
      c := SlackIsSwept(region[step..], start + step, kind, p - step);
    }
  }

  lemma SlackStep(region: seq<byte>, start: nat)
    requires 4 <= |region|
    ensures var step := StepAt(region);
            FromSlack(region, start) == FromStart(region, start) + FromSlack(region[step..], start + step)
  {
    hide StepAt, FromStart;
  }

  lemma StartStep(region: seq<byte>, start: nat)
    ensures KindAt(region).None? ==> FromStart(region, start) == [] && StepAt(region) == 1
    ensures var kind := KindAt(region);
            kind.Some? ==> FromStart(region, start) == FromCell(kind.value, region, start, true)
                           && StepAt(region) == Step(kind.value, region)
  {
    hide KindAt, FromCell, Step;
  }

  lemma FirstIsFiled(kind: Kind, region: seq<byte>, start: nat, p: nat) returns (c: Cell)
    requires p < StepAt(region) && (p == 0 ==> ParseCell(kind, region).Some?)
    ensures c in FromStart(region, start) && Covers(c, start + p)
  {
    hide ParseCell, FromSlack, KindAt;
    if p == 0 { ParsedKind(kind, region); }
    var k := KindAt(region).value;
    c := CellOf(k, region, start, ParseCell(k, region).value);
    assert FromCell(k, region, start, true) == FromStart(region, start);
  }

  lemma ParsedKind(kind: Kind, slice: seq<byte>)
    requires ParseCell(kind, slice).Some?
    ensures 24 <= |slice| && KindAt(slice) == Some(kind)
  {
    hide Abs, Half, Word, IsFree;
  }

  lemma FoundIsInSlack(buffer: seq<byte>, cells: seq<Cell>, c: Cell, d: Cell)
    requires Sound(buffer, cells, c.slackStart, c.offset + c.size) && d in cells
    ensures InSlackOf(d, c)
  {
    hide IsCell, Swept;
  }

  /** The search of a cell's slack sweeps it. */
  lemma InnerSweeps(buffer: seq<byte>, slack: seq<byte>, c: Cell)
    requires IsAt(buffer, slack, c.slackStart) && c.slackStart + |slack| == c.offset + c.size
    requires Sound(buffer, FromSlack(slack, c.slackStart), c.slackStart, c.offset + c.size)
    ensures Swept(buffer, FromSlack(slack, c.slackStart), c)
  {
    hide ParsesAt, Sound, FromSlack, InSlackOf, Covers;
    assert SlackBytes(buffer, c) == slack;
    var inner := FromSlack(slack, c.slackStart);
    forall kind, p | ParsesAt(kind, slack, p)
      ensures exists d :: d in inner && InSlackOf(d, c) && Covers(d, c.slackStart + p)
    {
      hide *;
      var d := SlackIsSwept(slack, c.slackStart, kind, p);
      FoundIsInSlack(buffer, inner, c, d);
    }
  }

  /** What one cell yields lies within it. */
  lemma {:induction false} FromCellIsSound(buffer: seq<byte>, kind: Kind, slice: seq<byte>, offset: nat, forceAdd: bool)
    requires IsAt(buffer, slice, offset)
    ensures Sound(buffer, FromCell(kind, slice, offset, forceAdd), offset, offset + Step(kind, slice))
    decreases |slice|, 0
  {
    hide Sound, IsAt, IsCell, ParseCell, FromSlack, Swept;
    if ParseCell(kind, slice).Some? {
      var p := ParseCell(kind, slice).value;
      var c := CellOf(kind, slice, offset, p);
      CellIsThere(buffer, kind, slice, offset);
      FromSlackIsSound(buffer, Slack(slice, p), c.slackStart);
      var inner := FromSlack(Slack(slice, p), c.slackStart);
      InnerSweeps(buffer, Slack(slice, p), c);
      SoundWithOwner(buffer, inner, c);
      assert inner + [] == inner;
    } else {
      SoundNothing(buffer, offset, offset + 1);
    }
  }

  /** What a region yields lies in it; every cell is really in the file; of any two the first
      ends before the second starts, or lies in its slack. */
  lemma {:induction false} FromSlackIsSound(buffer: seq<byte>, region: seq<byte>, start: nat)
    requires IsAt(buffer, region, start)
    ensures Sound(buffer, FromSlack(region, start), start, start + |region|)
    decreases |region|, 2
  {
    hide Sound, IsAt, IsCell, StepAt, FromStart;
    if |region| < 4 {
      SoundNothing(buffer, start, start + |region|);
    } else {
      var step := StepAt(region);
      SuffixIsAt(buffer, region, start, step);
      FromStartIsSound(buffer, region, start);
      FromSlackIsSound(buffer, region[step..], start + step);
      var rest := FromSlack(region[step..], start + step);
      SoundConcat(buffer, FromStart(region, start), rest, start, start + step, start + |region|);
    }
  }

  lemma {:induction false} FromStartIsSound(buffer: seq<byte>, region: seq<byte>, start: nat)
    requires IsAt(buffer, region, start)
    ensures Sound(buffer, FromStart(region, start), start, start + StepAt(region))
    decreases |region|, 1
  {
    hide Sound, IsAt, FromCell, Step, KindAt;
    if KindAt(region).Some? {
      FromCellIsSound(buffer, KindAt(region).value, region, start, true);
    } else {
      SoundNothing(buffer, start, start + 1);
    }
  }

  lemma SoundNothing(buffer: seq<byte>, lo: nat, hi: nat)
    ensures Sound(buffer, [], lo, hi)
  {
  }

  lemma FromBinCellIsSound(b: seq<byte>, offset: nat, end: nat)
    requires offset + 4 <= end <= |b| && 1 <= SizeAt(b, offset)
    ensures Sound(b, FromBinCell(b, offset, end), offset, offset + SizeAt(b, offset))
  {
    hide Sound, FromCell, FromSlack, KindAt, Abs, Word;
    var size := SizeAt(b, offset);
    var kind := KindAt(b[offset..end]);
    if kind.Some? {
      FromCellIsSound(b, kind.value, b[offset..], offset, false);
      var step := Step(kind.value, b[offset..]);
      SoundWider(b, FromCell(kind.value, b[offset..], offset, false), offset, offset + step, offset, offset + size);
    } else {
      var stop := Min(offset + size, |b|);
      FromSlackIsSound(b, b[offset..stop], offset);
      SoundWider(b, FromSlack(b[offset..stop], offset), offset, stop, offset, offset + size);
    }
  }

  lemma {:induction false} ScanCellsIsSound(b: seq<byte>, offset: nat, end: nat, binEnd: nat)
    requires offset < |b| && offset <= end <= |b|
    ensures Sound(b, ScanCells(b, offset, end, binEnd).cells, offset, ScanCells(b, offset, end, binEnd).next)
    decreases binEnd - offset
  {
    hide Sound, FromBinCell, SizeAt;
    SoundNothing(b, offset, offset);
    if offset < binEnd && 4 <= end - offset && SizeAt(b, offset) != 0 {
      var size := SizeAt(b, offset);
      var next := offset + size;
      FromBinCellIsSound(b, offset, end);
      if next < |b| {
        ScanCellsIsSound(b, next, Min(next + size, |b|), binEnd);
        var rest := ScanCells(b, next, Min(next + size, |b|), binEnd);
        SoundConcat(b, FromBinCell(b, offset, end), rest.cells, offset, next, rest.next);
      }
    }
  }

  lemma ScanBinIsSound(b: seq<byte>, offset: nat)
    ensures Sound(b, ScanBin(b, offset).cells, offset, ScanBin(b, offset).next)
  {
    hide Sound, ScanCells, BinEnd;
    SoundNothing(b, offset, offset);
    if HBIN_HEADER_LEN + offset < |b| {
      var binEnd := BinEnd(b, offset);
      ScanCellsIsSound(b, offset + HBIN_HEADER_LEN, |b|, binEnd);
      var cells := ScanCells(b, offset + HBIN_HEADER_LEN, |b|, binEnd);
      SoundWider(b, cells.cells, offset + HBIN_HEADER_LEN, cells.next, offset, cells.next);
    }
  }

  /** A whole pass recovers real cells of the file, in the scanned range, disjoint or nested in slack, and in order. */
  lemma {:induction false} ScanBinsIsSound(b: seq<byte>, offset: nat, binsSize: nat)
    ensures Sound(b, ScanBins(b, offset, binsSize).cells, offset, ScanBins(b, offset, binsSize).next)
    decreases binsSize - offset
  {
    hide Sound, ScanBin;
    SoundNothing(b, offset, offset);
    if offset < binsSize {
      var bin := ScanBin(b, offset);
      ScanBinIsSound(b, offset);
      if bin.ok {
        ScanBinsIsSound(b, bin.next, binsSize);
        var rest := ScanBins(b, bin.next, binsSize);
        SoundConcat(b, bin.cells, rest.cells, offset, bin.next, rest.next);
      }
    }
  }

  // ----- Of the cells of a bin, exactly the free ones are recovered -----

  /** The cells of a bin from `ps[0]` on: each starts where the one before ends and holds at least a size and a type. */
  ghost predicate IsChain(b: seq<byte>, ps: seq<nat>, binEnd: nat) {
    && |ps| > 0
    && (forall i :: 0 <= i < |ps| ==> ps[i] + 6 <= |b| && ps[i] < binEnd && 6 <= SizeAt(b, ps[i]))
    && forall i, j :: 0 <= i && j == i + 1 && j < |ps| ==> ps[j] == ps[i] + SizeAt(b, ps[i])
  }

  /** A key or value of the chain that parses is recovered if and only if its size is positive, whatever else is in the
      bin. */
  lemma {:induction false} ChainCellIsRecovered(b: seq<byte>, ps: seq<nat>, end: nat, binEnd: nat, kind: Kind)
    requires IsChain(b, ps, binEnd) && ps[0] + 6 <= end <= |b|
    requires ParseCell(kind, b[ps[|ps| - 1]..]).Some?
    ensures var offset, r := ps[|ps| - 1], ScanCells(b, ps[0], end, binEnd);
            var c := CellOf(kind, b[offset..], offset, ParseCell(kind, b[offset..]).value);
            && offset + 24 <= |b| && (c in r.cells <==> b[offset + 3] < 0x80)
            && c.offset + c.size <= r.next
    decreases |ps|
  {
    hide ParseCell, FromBinCell, SizeAt, ScanCells, IsChain, Min, CellOf;
    ChainStep(b, ps, binEnd);
    if |ps| == 1 {
      FirstOfChain(b, ps[0], end, binEnd, kind);
    } else {
      var last, size := ps[|ps| - 1], SizeAt(b, ps[0]);
      WindowIsWide(ps[1], size, |b|);
      ChainCellIsRecovered(b, ps[1..], Min(ps[1] + size, |b|), binEnd, kind);
      SizeOfCell(kind, b, last);
      ChainAscends(b, ps[1..], binEnd);
      ScanStep(b, ps[0], end, binEnd);
      StartsBehind(b, ps[0], end, CellOf(kind, b[last..], last, ParseCell(kind, b[last..]).value));
    }
  }

  lemma FirstOfChain(b: seq<byte>, offset: nat, end: nat, binEnd: nat, kind: Kind)
    requires offset + 6 <= end <= |b| && offset < binEnd && ParseCell(kind, b[offset..]).Some?
    ensures var r := ScanCells(b, offset, end, binEnd);
            var c := CellOf(kind, b[offset..], offset, ParseCell(kind, b[offset..]).value);
            && offset + 24 <= |b| && (c in r.cells <==> b[offset + 3] < 0x80)
            && c.offset + c.size <= r.next
  {
    hide ParseCell, FromBinCell, SizeAt, ScanCells, CellOf;
    SizeOfCell(kind, b, offset);
    FreeCellIsFiled(b, offset, end, kind);
    ScanStep(b, offset, end, binEnd);
    var c := CellOf(kind, b[offset..], offset, ParseCell(kind, b[offset..]).value);
    var next := offset + c.size;
    if next < |b| { StartsBefore(b, next, Min(next + c.size, |b|), binEnd, c); }
  }

  /** What a cell yields starts before the cell ends. */
  lemma StartsBehind(b: seq<byte>, offset: nat, end: nat, c: Cell)
    requires offset + 4 <= end <= |b| && 1 <= SizeAt(b, offset) && offset + SizeAt(b, offset) <= c.offset && 1 <= c.size
    ensures c !in FromBinCell(b, offset, end)
  {
    hide Sound, FromBinCell, SizeAt;
    FromBinCellIsSound(b, offset, end);
    var found := FromBinCell(b, offset, end);
    if c in found { FoundIsWithin(b, found, offset, offset + SizeAt(b, offset), c); }
  }

  lemma SizeOfCell(kind: Kind, b: seq<byte>, offset: nat)
    requires offset <= |b| && ParseCell(kind, b[offset..]).Some?
    ensures offset + 24 <= |b|
    ensures var c := CellOf(kind, b[offset..], offset, ParseCell(kind, b[offset..]).value);
            c.offset == offset && c.size == SizeAt(b, offset) >= 24
  {
    hide Abs, Word, Half, IsFree;
  }

  /** The cells of a walk all start where it starts or later. */
  lemma StartsBefore(b: seq<byte>, offset: nat, end: nat, binEnd: nat, c: Cell)
    requires offset < |b| && offset <= end <= |b| && c.offset < offset
    ensures c !in ScanCells(b, offset, end, binEnd).cells
  {
    hide Sound, ScanCells;
    ScanCellsIsSound(b, offset, end, binEnd);
    var r := ScanCells(b, offset, end, binEnd);
    if c in r.cells { FoundIsWithin(b, r.cells, offset, r.next, c); }
  }

  /** The first cell of a chain, and the rest of it. */
  lemma ChainStep(b: seq<byte>, ps: seq<nat>, binEnd: nat)
    requires IsChain(b, ps, binEnd)
    ensures |ps| > 0 && ps[0] + 6 <= |b| && ps[0] < binEnd && 6 <= SizeAt(b, ps[0])
    ensures |ps| > 1 ==> IsChain(b, ps[1..], binEnd) && ps[1] == ps[0] + SizeAt(b, ps[0]) && ps[1] + 6 <= |b|
  {
    hide SizeAt;
  }

  lemma WindowIsWide(next: nat, size: nat, length: nat)
    requires 6 <= size && next + 6 <= length
    ensures next + 6 <= Min(next + size, length) <= length
  {
  }

  lemma ScanStep(b: seq<byte>, offset: nat, end: nat, binEnd: nat)
    requires offset + 4 <= end <= |b| && offset < binEnd && 1 <= SizeAt(b, offset)
    ensures var next, r := offset + SizeAt(b, offset), ScanCells(b, offset, end, binEnd);
            if |b| <= next then r.cells == FromBinCell(b, offset, end) && r.next == next
            else
              var rest := ScanCells(b, next, Min(next + SizeAt(b, offset), |b|), binEnd);
              r.cells == FromBinCell(b, offset, end) + rest.cells && r.next == rest.next >= next
  {
    hide FromBinCell, SizeAt;
  }

  /** The sign of a size field, by its top bit. */
  lemma SignOfCell(kind: Kind, b: seq<byte>, offset: nat)
    requires offset <= |b| && ParseCell(kind, b[offset..]).Some?
    ensures offset + 24 <= |b|
    ensures ParseCell(kind, b[offset..]).value.isFree <==> b[offset + 3] < 0x80
  {
    SizeOfCell(kind, b, offset);
    var slice := b[offset..];
    var x := U32(slice, 0);
    assert x == Word(b[offset], b[offset + 1], b[offset + 2], b[offset + 3]);
    SignOfBytes(b[offset], b[offset + 1], b[offset + 2], b[offset + 3]);
    assert Abs(x) != 0;
    assert x != 0 by { AbsOfZero(); }
    hide Word, Abs, Half;
  }

  lemma AbsOfZero()
    ensures Abs(0) == 0
  {
  }

  lemma FreeCellIsFiled(b: seq<byte>, offset: nat, end: nat, kind: Kind)
    requires offset + 6 <= end <= |b| && ParseCell(kind, b[offset..]).Some?
    ensures var c := CellOf(kind, b[offset..], offset, ParseCell(kind, b[offset..]).value);
            offset + 24 <= |b| && (c in FromBinCell(b, offset, end) <==> b[offset + 3] < 0x80)
  {
    hide ParseCell, FromSlack, SizeAt, Slack, Sound, IsAt, IsCell;
    SignOfCell(kind, b, offset);
    ParsedKind(kind, b[offset..]);
    var near, far := b[offset..end], b[offset..];
    assert near[4] == far[4] && near[5] == far[5];
    assert near[4..6] == far[4..6];
    CellIsNotInItsSlack(b, kind, far, offset);
  }

  lemma CellIsNotInItsSlack(b: seq<byte>, kind: Kind, slice: seq<byte>, offset: nat)
    requires offset <= |b| && slice == b[offset..] && ParseCell(kind, slice).Some?
    ensures var p := ParseCell(kind, slice).value;
            var c := CellOf(kind, slice, offset, p);
            c !in FromSlack(Slack(slice, p), c.slackStart)
  {
    hide ParseCell, FromSlack, Sound, IsCell, Slack;
    var p := ParseCell(kind, slice).value;
    var c := CellOf(kind, slice, offset, p);
    CellIsThere(b, kind, slice, offset);
    FromSlackIsSound(b, Slack(slice, p), c.slackStart);
    CellShape(b, c);
    var inner := FromSlack(Slack(slice, p), c.slackStart);
    if c in inner { FoundIsInSlack(b, inner, c, c); }
  }

  // ----- Which bins a pass visits -----

  /** Bins one behind the other: each but the last is scanned without error, up to where the next starts. */
  ghost predicate IsBinChain(b: seq<byte>, bs: seq<nat>)
    decreases |bs|
  {
    && |bs| > 0
    && (|bs| > 1 ==> ScanBin(b, bs[0]).ok && bs[1] == ScanBin(b, bs[0]).next && IsBinChain(b, bs[1..]))
  }

  /** A bin with a header at `offset`. */
  ghost predicate IsBin(b: seq<byte>, offset: nat) {
    offset + HBIN_HEADER_LEN < |b| && b[offset..offset + 4] == HBIN_TAG
  }

  /** The cell is a key or value in the chain of cells that starts behind the header of the bin. */
  ghost predicate IsCellIn(b: seq<byte>, offset: nat, c: Cell, ps: seq<nat>) {
    && IsBin(b, offset)
    && IsChain(b, ps, BinEnd(b, offset)) && ps[0] == offset + HBIN_HEADER_LEN && ps[|ps| - 1] == c.offset
    && IsCell(b, c)
  }

  lemma {:induction false} ChainAscends(b: seq<byte>, ps: seq<nat>, binEnd: nat)
    requires IsChain(b, ps, binEnd)
    ensures ps[0] <= ps[|ps| - 1]
    decreases |ps|
  {
    hide SizeAt;
    if |ps| > 1 {
      assert IsChain(b, ps[1..], binEnd);
      ChainAscends(b, ps[1..], binEnd);
    }
  }

  lemma CellOfBin(b: seq<byte>, offset: nat, c: Cell, ps: seq<nat>)
    requires IsCellIn(b, offset, c, ps)
    ensures c.offset + 24 <= |b| && (c in ScanBin(b, offset).cells <==> b[c.offset + 3] < 0x80)
    ensures offset + HBIN_HEADER_LEN <= c.offset && 24 <= c.size && c.offset + c.size <= ScanBin(b, offset).next
  {
    hide ScanCells, ParseCell, BinEnd, IsChain;
    assert ps[0] + 6 <= |b| && |ps| > 0 by { ChainHead(b, ps, BinEnd(b, offset)); }
    ChainCellIsRecovered(b, ps, |b|, BinEnd(b, offset), c.kind);
    ChainAscends(b, ps, BinEnd(b, offset));
  }

  lemma ChainHead(b: seq<byte>, ps: seq<nat>, binEnd: nat)
    requires IsChain(b, ps, binEnd)
    ensures |ps| > 0 && ps[0] + 6 <= |b|
  {
  }

  /** What lies in the last bin of a chain is recovered by the pass if and only if the pass visits that bin and recovers
      it there. */
  lemma {:induction false} PassReachesBin(b: seq<byte>, bs: seq<nat>, binsSize: nat, c: Cell)
    requires IsBinChain(b, bs) && bs[|bs| - 1] <= c.offset < c.offset + c.size <= ScanBin(b, bs[|bs| - 1]).next
    ensures var last := bs[|bs| - 1];
            c in ScanBins(b, bs[0], binsSize).cells <==> last < binsSize && c in ScanBin(b, last).cells
    decreases |bs|
  {
    hide ScanBin, ScanBins, Sound;
    BinsStep(b, bs[0], binsSize);
    BinsAscend(b, bs);
    var bin := ScanBin(b, bs[0]);
    if |bs| > 1 {
      PassReachesBin(b, bs[1..], binsSize, c);
      BinsAscend(b, bs[1..]);
      ScanBinIsSound(b, bs[0]);
      if c in bin.cells { FoundIsWithin(b, bin.cells, bs[0], bin.next, c); }
    } else {
      ScanBinsIsSound(b, bin.next, binsSize);
      var rest := ScanBins(b, bin.next, binsSize);
      if c in rest.cells { FoundIsWithin(b, rest.cells, bin.next, rest.next, c); }
    }
  }

  lemma {:induction false} BinsAscend(b: seq<byte>, bs: seq<nat>)
    requires IsBinChain(b, bs)
    ensures bs[0] <= bs[|bs| - 1]
    decreases |bs|
  {
    hide ScanBin;
    if |bs| > 1 { BinsAscend(b, bs[1..]); }
  }

  /** A key or value of a bin is recovered by the pass if and only if the bin starts before `binsSize` and the cell's size
      is positive. The pass compares offsets in the file with a size that does not count the header, so bins that start
      in the last 4096 bytes are not visited. */
  lemma CellOfPass(b: seq<byte>, bs: seq<nat>, binsSize: nat, c: Cell, ps: seq<nat>)
    requires IsBinChain(b, bs) && bs[0] == HIVE_BINS_START && IsCellIn(b, bs[|bs| - 1], c, ps)
    ensures c.offset + 24 <= |b|
    ensures c in ScanBins(b, HIVE_BINS_START, binsSize).cells <==> bs[|bs| - 1] < binsSize && b[c.offset + 3] < 0x80
  {
    hide ScanBin, ScanBins, IsCellIn;
    CellOfBin(b, bs[|bs| - 1], c, ps);
    PassReachesBin(b, bs, binsSize, c);
  }

  lemma FoundIsWithin(b: seq<byte>, cells: seq<Cell>, lo: nat, hi: nat, c: Cell)
    requires Sound(b, cells, lo, hi) && c in cells
    ensures Within(c, lo, hi)
  {
    hide IsCell, Swept;
  }

  /** A bin whose chain of cells fills it is scanned without error up to its end. */
  lemma {:induction false} FilledBin(b: seq<byte>, ps: seq<nat>, end: nat, binEnd: nat)
    requires IsChain(b, ps, binEnd) && ps[0] + 6 <= end <= |b|
    requires ps[|ps| - 1] + SizeAt(b, ps[|ps| - 1]) == binEnd
    ensures var r := ScanCells(b, ps[0], end, binEnd); r.ok && r.next == binEnd
    decreases |ps|
  {
    hide FromBinCell, SizeAt;
    var size := SizeAt(b, ps[0]);
    if |ps| > 1 {
      var next := ps[1];
      assert next == ps[0] + size;
      assert IsChain(b, ps[1..], binEnd);
      FilledBin(b, ps[1..], Min(next + size, |b|), binEnd);
    }
  }

  /** A file of one bin of 4096 bytes, filled by one free value, behind any header. */
  function OneBin(header: seq<byte>): (b: seq<byte>)
    requires |header| == HIVE_BINS_START
    ensures |b| == 8192
  {
    header
    + HBIN_TAG + [0, 0, 0, 0, 0, 0x10, 0, 0] + Zeros(20)
    + [0xe0, 0x0f, 0, 0, 0x76, 0x6b, 0, 0] + Zeros(4056)
  }

  /** The free value of that file is not recovered: the size of its bins is 4096, which is where the bin starts. */
  lemma OneBinIsMissed(header: seq<byte>)
    requires |header| == HIVE_BINS_START
    ensures var b, c := OneBin(header), Cell(ValueCell, 4128, 4064, 4152);
            && IsCellIn(b, HIVE_BINS_START, c, [4128]) && ScanBin(b, HIVE_BINS_START).ok && c in ScanBin(b, HIVE_BINS_START).cells
            && BinEnd(b, HIVE_BINS_START) == |b| == HIVE_BINS_START + 4096
            && c !in ScanBins(b, HIVE_BINS_START, 4096).cells
  {
    var b, c := OneBin(header), Cell(ValueCell, 4128, 4064, 4152);
    KnownNumbers();
    KnownBytes(header);
    hide OneBin, Word, Abs, Half, IsFree, ScanCells;
    assert BinEnd(b, HIVE_BINS_START) == 8192;
    assert SizeAt(b, 4128) == 4064;
    KnownCell(header);
    assert IsCellIn(b, HIVE_BINS_START, c, [4128]);
    CellOfBin(b, HIVE_BINS_START, c, [4128]);
    FilledBin(b, [4128], |b|, 8192);
    CellOfPass(b, [HIVE_BINS_START], 4096, c, [4128]);
  }

  lemma KnownNumbers()
    ensures Word(0xe0, 0x0f, 0, 0) == 4064 && Word(0, 0x10, 0, 0) == 4096
    ensures Abs(4064) == 4064 && IsFree(4064) && Half(0, 0) == 0
  {
  }

  lemma KnownBytes(header: seq<byte>)
    requires |header| == HIVE_BINS_START
    ensures var b := OneBin(header);
            && b[4096..4100] == HBIN_TAG && U32(b, 4104) == Word(0, 0x10, 0, 0)
            && U32(b, 4128) == Word(0xe0, 0x0f, 0, 0)
            && b[4131] == 0 && b[4132] == 0x76 && b[4133] == 0x6b && b[4134] == 0 && b[4135] == 0
  {
    hide Word;
  }

  lemma KnownCell(header: seq<byte>)
    requires |header| == HIVE_BINS_START
    ensures ParseCell(ValueCell, OneBin(header)[4128..]) == Some(Parsed(4064, true, 24))
  {
    KnownNumbers();
    KnownBytes(header);
    hide OneBin, Word, Abs, Half, IsFree;
    var slice := OneBin(header)[4128..];
    assert U32(slice, 0) == U32(OneBin(header), 4128);
    assert slice[4..6] == [0x76, 0x6b];
  }

  class ParserRecoverDeleted {
    const buffer: seq<byte>
    var recovered: seq<Cell>

    constructor (buffer: seq<byte>)
      ensures this.buffer == buffer && recovered == []
    {
      this.buffer, recovered := buffer, [];
    }

    /** `read_cell_key_value` and `read_cell_key_node`: looks into the cell's slack, then files the cell itself if it
        is free or must be added. Returns how far a slack scan moves on. */
    method ReadCell(kind: Kind, slice: seq<byte>, offset: nat, forceAdd: bool) returns (step: nat)
      requires IsAt(buffer, slice, offset)
      modifies this`recovered
      ensures recovered == old(recovered) + FromCell(kind, slice, offset, forceAdd)
      ensures forceAdd ==> step == Step(kind, slice)
      decreases |slice|, 0
    {
      hide IsAt, ParseCell, FromSlack, IsCell;
      step := 1;
      var parsed := ParseCell(kind, slice);
      if parsed.Some? {
        var p := parsed.value;
        var c := CellOf(kind, slice, offset, p);
        CellIsThere(buffer, kind, slice, offset);
        FindCellsInSlack(Slack(slice, p), c.slackStart);
        if forceAdd || p.isFree {
          step := p.size;
          recovered := recovered + [c];
        }
      }
    }

    /** `find_cells_in_slack_internal`: tries every position of the region, moving on by whole cells where one parses. */
    method FindCellsInSlack(region: seq<byte>, start: nat)
      requires IsAt(buffer, region, start)
      modifies this`recovered
      ensures recovered == old(recovered) + FromSlack(region, start)
      decreases |region|, 1
    {
      hide IsAt, FromCell, KindAt, Step, FromStart, StepAt;
      var offset: nat := 0;
      assert region[0..] == region;
      while offset < |region|
        invariant offset <= |region|
        invariant recovered + FromSlack(region[offset..], start + offset) == old(recovered) + FromSlack(region, start)
        decreases |region| - offset
      {
        var input := region[offset..];
        if |input| < 4 {
          break;
        }
        SuffixIsAt(buffer, region, start, offset);
        SlackStep(input, start + offset);
        StartStep(input, start + offset);
        ghost var soFar := recovered;
        var kind := KindAt(input);
        var step := 1;
        if kind.Some? {
          step := ReadCell(kind.value, input, start + offset, true);
        }
        assert recovered == soFar + FromStart(input, start + offset);
        assert input[step..] == region[offset + step..];
        offset := offset + step;
      }
    }

    /** One cell of a bin, by its type. */
    method FindInBinCell(offset: nat, end: nat, size: nat)
      requires offset + 4 <= end <= |buffer| && size == SizeAt(buffer, offset)
      modifies this`recovered
      ensures recovered == old(recovered) + FromBinCell(buffer, offset, end)
    {
      hide FromCell, FromSlack, SizeAt, KindAt;
      var kind := KindAt(buffer[offset..end]);
      if kind.Some? {
        var _ := ReadCell(kind.value, buffer[offset..], offset, false);
      } else {
        FindCellsInSlack(buffer[offset..Min(offset + size, |buffer|)], offset);
      }
    }

    /** `find_unused_cells_in_hbin`: walks the cells of a bin. Fails when a size field is cut off. */
    method FindUnusedCellsInHbin(start: nat, binEnd: nat) returns (ok: bool, offset: nat)
      modifies this`recovered
      ensures start < |buffer| ==>
                var r := ScanCells(buffer, start, |buffer|, binEnd);
                ok == r.ok && offset == r.next && recovered == old(recovered) + r.cells
      ensures |buffer| <= start ==> !ok && recovered == old(recovered)
    {
      hide SizeAt, FromBinCell;
      ok, offset := false, start;
      if |buffer| <= start {
        return;
      }
      ghost var all := ScanCells(buffer, start, |buffer|, binEnd);
      var end := |buffer|;
      while offset < binEnd
        invariant offset < |buffer| && offset <= end <= |buffer|
        invariant var rest := ScanCells(buffer, offset, end, binEnd);
                  rest.ok == all.ok && rest.next == all.next && recovered + rest.cells == old(recovered) + all.cells
        decreases binEnd - offset
      {
        if end - offset < 4 {
          return;
        }
        var size := SizeAt(buffer, offset);
        if size == 0 {
          break;
        }
        FindInBinCell(offset, end, size);
        offset := offset + size;
        if |buffer| <= offset {
          break;
        }
        end := if offset + size < |buffer| then offset + size else |buffer|;
      }
      ok := true;
    }

    /** `find_free_keys_and_values` of one bin. */
    method FindFreeInHbin(start: nat) returns (ok: bool, next: nat)
      modifies this`recovered
      ensures var r := ScanBin(buffer, start);
              ok == r.ok && (ok ==> next == r.next) && recovered == old(recovered) + r.cells
    {
      hide ScanCells, BinEnd;
      if |buffer| < start + HBIN_HEADER_LEN || buffer[start..start + 4] != HBIN_TAG {
        return false, start;
      }
      ok, next := FindUnusedCellsInHbin(start + HBIN_HEADER_LEN, BinEnd(buffer, start));
    }

    /** The whole pass over the bins, from the end of the header. */
    method FindFreeKeysAndValues(binsSize: nat) returns (ok: bool)
      modifies this`recovered
      ensures var r := ScanBins(buffer, HIVE_BINS_START, binsSize);
              ok == r.ok && recovered == old(recovered) + r.cells
      ensures old(recovered) == [] ==>
                Sound(buffer, recovered, HIVE_BINS_START, ScanBins(buffer, HIVE_BINS_START, binsSize).next)
    {
      hide ScanBin, ScanBins, Sound;
      ghost var all := ScanBins(buffer, HIVE_BINS_START, binsSize);
      ScanBinsIsSound(buffer, HIVE_BINS_START, binsSize);
      assert [] + all.cells == all.cells;
      var offset := HIVE_BINS_START;
      while offset < binsSize
        invariant var rest := ScanBins(buffer, offset, binsSize);
                  rest.ok == all.ok && recovered + rest.cells == old(recovered) + all.cells
        decreases binsSize - offset
      {
        ghost var soFar, rest := recovered, ScanBins(buffer, offset, binsSize);
        BinsStep(buffer, offset, binsSize);
        var more, next := FindFreeInHbin(offset);
        assert more || recovered == soFar + rest.cells;
        if !more {
          return false;
        }
        offset := next;
      }
      BinsStep(buffer, offset, binsSize);
      ok := true;
    }
  }
}
