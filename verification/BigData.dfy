/** Value content, and its reassembly from the segments of a big-data cell. */
module BigData {
  import opened Common
  import opened Bytes

  /** Content longer than this is stored in segments of this many bytes. */
  const THRESHOLD := 16344

  const DB: seq<byte> := [0x64, 0x62]

  /** `get_value_bytes`: types with a fixed length keep only that many bytes. */
  function ValueBytes(typeLength: Option<nat>, data: seq<byte>): seq<byte> {
    if typeLength.None? then data else data[..Min(typeLength.value, |data|)]
  }

  // ----- Reading -----

  predicate HasSegment(b: seq<byte>, at: nat) {
    at + 4 <= |b|
  }

  /** The most a segment can contribute: its stored size, at most a full segment. */
  function Room(b: seq<byte>, at: nat): nat
    requires HasSegment(b, at)
  {
    Min(Abs(U32(b, at)), THRESHOLD)
  }

  /** What the segment at `at` gives when `remaining` bytes are missing. None is the error of a segment that is not
      wholly in the file. */
  function Payload(b: seq<byte>, at: nat, remaining: nat): (r: Option<seq<byte>>)
    ensures r.Some? ==> HasSegment(b, at) && |r.value| == Min(Room(b, at), remaining)
  {
    if !HasSegment(b, at) then None
    else
      var n := Min(Room(b, at), remaining);
      if |b| < at + 4 + n then None else Some(b[at + 4..at + 4 + n])
  }

  /** The content found in the segments, `remaining` bytes at most. */
  function Gather(b: seq<byte>, hbin: nat, offsets: seq<nat>, remaining: nat): Option<seq<byte>> {
    if offsets == [] || remaining == 0 then Some([])
    else
      match Payload(b, hbin + offsets[0], remaining)
      case None => None
      case Some(p) =>
        match Gather(b, hbin, offsets[1..], remaining - |p|)
        case None => None
        case Some(rest) => Some(p + rest)
  }

  /** What the segments could hold in all. */
  function Capacity(b: seq<byte>, hbin: nat, offsets: seq<nat>): nat {
    if offsets == [] then 0
    else (if HasSegment(b, hbin + offsets[0]) then Room(b, hbin + offsets[0]) else 0) + Capacity(b, hbin, offsets[1..])
  }

  /** Reading stops at the declared size, or earlier only because the segments hold no more. */
  lemma {:induction false} GatherLength(b: seq<byte>, hbin: nat, offsets: seq<nat>, remaining: nat)
    requires Gather(b, hbin, offsets, remaining).Some?
    ensures |Gather(b, hbin, offsets, remaining).value| == Min(remaining, Capacity(b, hbin, offsets))
    decreases |offsets|
  {
    hide Room, Payload;
    if offsets != [] && remaining > 0 {
      var p := Payload(b, hbin + offsets[0], remaining).value;
      GatherLength(b, hbin, offsets[1..], remaining - |p|);
    }
  }

  /** The size field of a segment and the bytes to take from it. */
  method ReadSegment(b: seq<byte>, at: nat, remaining: nat) returns (r: Option<seq<byte>>)
    ensures r == Payload(b, at, remaining)
  {
    hide Abs, Word;
    if !HasSegment(b, at) {
      return None;
    }
    var n := Min(Abs(U32(b, at)), Min(remaining, THRESHOLD));
    r := if at + 4 + n <= |b| then Some(b[at + 4..at + 4 + n]) else None;
  }

  lemma GatherStep(b: seq<byte>, hbin: nat, offsets: seq<nat>, i: nat, missing: nat)
    requires i < |offsets| && missing > 0
    ensures var p := Payload(b, hbin + offsets[i], missing);
            Gather(b, hbin, offsets[i..], missing)
            == if p.None? then None
               else
                 var rest := Gather(b, hbin, offsets[i + 1..], missing - |p.value|);
                 if rest.None? then None else Some(p.value + rest.value)
  {
    hide Payload, Room, Min;
    assert offsets[i..][0] == offsets[i] && offsets[i..][1..] == offsets[i + 1..];
  }

  /** The loop of `get_big_data_bytes`. At every step, and so at the end, the bytes collected and the bytes still
      missing make up the declared size. */
  method CollectSegments(b: seq<byte>, hbin: nat, offsets: seq<nat>, size: nat)
    returns (r: Option<seq<byte>>, missing: nat)
    ensures r == Gather(b, hbin, offsets, size)
    ensures r.Some? ==> |r.value| + missing == size
  {
    hide Payload, Gather;
    var data: seq<byte> := [];
    missing := size;
    ghost var all := Gather(b, hbin, offsets, size);
    assert offsets[0..] == offsets && (all.Some? ==> [] + all.value == all.value);
    for i := 0 to |offsets|
      invariant |data| + missing == size
      invariant var rest := Gather(b, hbin, offsets[i..], missing);
                if rest.None? then all.None? else all == Some(data + rest.value)
    {
      if missing > 0 {
        GatherStep(b, hbin, offsets, i, missing);
        var p := ReadSegment(b, hbin + offsets[i], missing);
        if p.None? {
          return None, missing;
        }
        ghost var rest := Gather(b, hbin, offsets[i + 1..], missing - |p.value|);
        assert rest.Some? ==> data + (p.value + rest.value) == data + p.value + rest.value;
        data := data + p.value;
        missing := missing - |p.value|;
      } else {
        GatherNothing(b, hbin, offsets[i..], missing);
        GatherNothing(b, hbin, offsets[i + 1..], missing);
      }
    }
    GatherNothing(b, hbin, offsets[|offsets|..], missing);
    assert data + [] == data;
    r := Some(data);
  }

  lemma GatherNothing(b: seq<byte>, hbin: nat, offsets: seq<nat>, remaining: nat)
    requires offsets == [] || remaining == 0
    ensures Gather(b, hbin, offsets, remaining) == Some([])
  {
  }

  /** `count` little-endian words from `at` on; None when the file ends before. */
  function Words(b: seq<byte>, at: nat, count: nat): (r: Option<seq<nat>>)
    ensures r.Some? <==> at + 4 * count <= |b| || count == 0
    ensures r.Some? ==> |r.value| == count && forall i :: 0 <= i < count ==> r.value[i] == Nat(U32(b, at + 4 * i))
    decreases count
  {
    if count == 0 then Some([])
    else if |b| < at + 4 * count then None
    else
      var front := Words(b, at, count - 1).value;
      Some(front + [Nat(U32(b, at + 4 * (count - 1)))])
  }

  /** The segment offsets of the big-data cell at `offset`. */
  function SegmentOffsets(b: seq<byte>, hbin: nat, offset: nat): Option<seq<nat>> {
    if |b| < offset + 12 || b[offset + 4..offset + 6] != DB then None
    else
      var list := hbin + Nat(U32(b, offset + 8));
      if |b| < list + 4 then None else Words(b, list + 4, Word16(b, offset + 6))
  }

  /** `get_big_data_bytes`. */
  function BigDataBytes(b: seq<byte>, hbin: nat, offset: nat, typeLength: Option<nat>, size: nat): Option<seq<byte>> {
    match SegmentOffsets(b, hbin, offset)
    case None => None
    case Some(offsets) =>
      match Gather(b, hbin, offsets, size)
      case None => None
      case Some(data) => Some(ValueBytes(typeLength, data))
  }

  method GetBigDataBytes(b: seq<byte>, hbin: nat, offset: nat, typeLength: Option<nat>, size: nat)
    returns (r: Option<seq<byte>>)
    ensures r == BigDataBytes(b, hbin, offset, typeLength, size)
  {
    var offsets := SegmentOffsets(b, hbin, offset);
    if offsets.None? {
      return None;
    }
    var data, _ := CollectSegments(b, hbin, offsets.value, size);
    r := if data.None? then None else Some(ValueBytes(typeLength, data.value));
  }

  const RESIDENT: u32 := 0x80000000

  predicate IsBigDataBlock(b: seq<byte>, offset: nat) {
    offset + 6 <= |b| && b[offset + 4..offset + 6] == DB
  }

  predicate IsResident(sizeRaw: u32) {
    sizeRaw & RESIDENT != 0
  }

  /** The size of resident content. */
  function ResidentSize(sizeRaw: u32): nat {
    Nat(sizeRaw ^ RESIDENT)
  }

  /** Content that is not in the value cell: in segments, or in one cell. */
  function ReadCellBytes(b: seq<byte>, hbin: nat, offset: nat, size: nat, typeLength: Option<nat>): seq<byte> {
    if THRESHOLD < size && IsBigDataBlock(b, offset) then
      var r := BigDataBytes(b, hbin, offset, typeLength, size);
      if r.None? then [] else r.value
    else if offset + 4 + size <= |b| then ValueBytes(typeLength, b[offset + 4..offset + 4 + size])
    else []
  }

  /** Content in place of the offset. */
  function ReadResident(size: nat, data: seq<byte>, typeLength: Option<nat>): seq<byte> {
    if size <= |data| then ValueBytes(typeLength, data[..size]) else []
  }

  /** `read_value_bytes_direct`; nothing where the file has no such bytes. */
  function ReadValueBytes(b: seq<byte>, hbin: nat, sizeRaw: u32, dataOffset: u32, typeLength: Option<nat>): seq<byte> {
    if IsResident(sizeRaw) then ReadResident(ResidentSize(sizeRaw), Le32(dataOffset), typeLength)
    else ReadCellBytes(b, hbin, hbin + Nat(dataOffset), Nat(sizeRaw), typeLength)
  }

  // ----- Writing -----

  /** Content cut into full segments of 16344 bytes and a last one. */
  function Cut(content: seq<byte>): (r: seq<seq<byte>>)
    ensures |r| > 0
    decreases |content|
  {
    if |content| <= 16344 then [content] else [content[..16344]] + Cut(content[16344..])
  }

  /** A segment at `at` holds the payload behind its size, which is at least the payload's. */
  ghost predicate HoldsSegment(b: seq<byte>, at: nat, payload: seq<byte>) {
    at + 4 <= |b| && |payload| <= SizeNumber(U32(b, at)) && Holds(b, at + 4, payload)
  }

  ghost predicate HoldsSegments(b: seq<byte>, hbin: nat, offsets: seq<nat>, payloads: seq<seq<byte>>) {
    |payloads| <= |offsets| && forall i :: 0 <= i < |payloads| ==> HoldsSegment(b, hbin + offsets[i], payloads[i])
  }

  function Numbers(ws: seq<u32>): (r: seq<nat>) {
    seq(|ws|, i requires 0 <= i < |ws| => Nat(ws[i]))
  }

  /** A big-data cell behind its size field: "db", how many segments there are, and where the list of them is. The list
      holds the offsets of the segments, behind a size field. */
  ghost predicate HoldsList(b: seq<byte>, hbin: nat, offset: nat, lo: byte, hi: byte, list: u32, offsets: seq<u32>) {
    && Holds(b, offset + 4, [0x64, 0x62, lo, hi] + Le32(list))
    && |offsets| == Digit(lo) + 0x100 * Digit(hi) && Holds(b, hbin + Nat(list) + 4, LeWords(offsets))
  }

  /** Reading segments back gives the content that was cut. */
  lemma {:induction false} GatherInvertsCut(b: seq<byte>, hbin: nat, offsets: seq<nat>, content: seq<byte>)
    requires HoldsSegments(b, hbin, offsets, Cut(content)) && content != []
    ensures Gather(b, hbin, offsets, |content|) == Some(content)
    decreases |content|
  {
    hide Payload, HoldsSegment, Gather, Room;
    var parts := Cut(content);
    SegmentGives(b, hbin + offsets[0], parts[0], |content|);
    assert offsets[0..] == offsets;
    GatherStep(b, hbin, offsets, 0, |content|);
    if |content| <= 16344 {
      GatherNothing(b, hbin, offsets[1..], 0);
      assert content + [] == content;
    } else {
      var rest := content[16344..];
      assert parts == [content[..16344]] + Cut(rest);
      OtherSegments(b, hbin, offsets, parts[0], Cut(rest));
      GatherInvertsCut(b, hbin, offsets[1..], rest);
      assert content == content[..16344] + rest;
    }
  }

  lemma OtherSegments(b: seq<byte>, hbin: nat, offsets: seq<nat>, first: seq<byte>, rest: seq<seq<byte>>)
    requires HoldsSegments(b, hbin, offsets, [first] + rest)
    ensures HoldsSegments(b, hbin, offsets[1..], rest)
  {
    hide HoldsSegment;
    var all := [first] + rest;
    assert forall i :: 0 <= i < |rest| ==> rest[i] == all[i + 1] && offsets[1..][i] == offsets[i + 1];
  }

  lemma SegmentGives(b: seq<byte>, at: nat, payload: seq<byte>, remaining: nat)
    requires HoldsSegment(b, at, payload) && |payload| == Min(remaining, 16344)
    ensures Payload(b, at, remaining) == Some(payload)
  {
    hide Abs, Word, SizeNumber, Nat, Byte3;
    SizeIsAbs(U32(b, at));
  }

  /** A list that was written is read back. */
  lemma ListRoundTrip(b: seq<byte>, hbin: nat, offset: nat, lo: byte, hi: byte, list: u32, offsets: seq<u32>)
    requires HoldsList(b, hbin, offset, lo, hi, list, offsets)
    ensures IsBigDataBlock(b, offset) && SegmentOffsets(b, hbin, offset) == Some(Numbers(offsets))
  {
    hide Le32, LeWords, Half, Digit, U32, Words;
    HoldsBoth(b, offset + 4, [0x64, 0x62, lo, hi], Le32(list));
    HoldsWord(b, offset + 8, list);
    HalfIsNumber(lo, hi);
    HeaderBytes(b, offset + 4, [0x64, 0x62, lo, hi]);
    WordsOfList(b, hbin + Nat(list) + 4, offsets);
  }

  lemma HeaderBytes(b: seq<byte>, at: nat, s: seq<byte>)
    requires |s| == 4 && Holds(b, at, s)
    ensures at + 4 <= |b| && b[at..at + 2] == s[..2] && b[at + 2] == s[2] && b[at + 3] == s[3]
  {
    assert b[at..at + 4][..2] == b[at..at + 2];
    assert b[at..at + 4][2] == b[at + 2] && b[at..at + 4][3] == b[at + 3];
  }

  lemma WordsOfList(b: seq<byte>, at: nat, ws: seq<u32>)
    requires Holds(b, at, LeWords(ws))
    ensures Words(b, at, |ws|) == Some(Numbers(ws))
  {
    hide U32, Words;
    forall i | 0 <= i < |ws|
      ensures Words(b, at, |ws|).value[i] == Nat(ws[i])
    {
      HoldsWords(b, at, ws, i);
    }
    assert Words(b, at, |ws|).value == Numbers(ws);
  }

  // ----- Content read back, for each of the three ways to store it -----

  /** A type of length n keeps the first n bytes, or all if there are fewer; any other type keeps all. */
  lemma ValueBytesMeans(data: seq<byte>, n: nat)
    ensures ValueBytes(None, data) == data
    ensures n <= |data| ==> |ValueBytes(Some(n), data)| == n && ValueBytes(Some(n), data) <= data
    ensures |data| <= n ==> ValueBytes(Some(n), data) == data
  {
  }

  /** The top bit of the size tells where the content is; the other bits are its size (`WithoutTopBit`). */
  lemma ResidentByTopBit(x: u32)
    ensures IsResident(x) <==> Byte3(x) >= 0x80
  {
  }

  /** Long content stored in segments and read back is the content, or its head for types that are cut to a length. */
  lemma ReadInvertsStore(
    b: seq<byte>, hbin: nat, sizeRaw: u32, dataOffset: u32, typeLength: Option<nat>, content: seq<byte>,
    lo: byte, hi: byte, list: u32, offsets: seq<u32>)
    requires Byte3(sizeRaw) < 0x80 && 16344 < |content| == Nat(sizeRaw)
    requires HoldsList(b, hbin, hbin + Nat(dataOffset), lo, hi, list, offsets)
    requires HoldsSegments(b, hbin, Numbers(offsets), Cut(content))
    ensures ReadValueBytes(b, hbin, sizeRaw, dataOffset, typeLength) == ValueBytes(typeLength, content)
  {
    hide HoldsList, IsResident, Gather, SegmentOffsets, HoldsSegments, Byte3, IsBigDataBlock, Nat, ResidentSize;
    ResidentByTopBit(sizeRaw);
    ListRoundTrip(b, hbin, hbin + Nat(dataOffset), lo, hi, list, offsets);
    GatherInvertsCut(b, hbin, Numbers(offsets), content);
  }

  /** So is content that stands in one cell, behind its size field: unless it is long and its cell looks like a big-data
      cell. */
  lemma ReadInvertsCell(
    b: seq<byte>, hbin: nat, sizeRaw: u32, dataOffset: u32, typeLength: Option<nat>, content: seq<byte>)
    requires Byte3(sizeRaw) < 0x80 && |content| == Nat(sizeRaw)
    requires Holds(b, hbin + Nat(dataOffset) + 4, content)
    requires |content| <= 16344 || !Holds(b, hbin + Nat(dataOffset) + 4, [0x64, 0x62])
    ensures ReadValueBytes(b, hbin, sizeRaw, dataOffset, typeLength) == ValueBytes(typeLength, content)
  {
    hide IsResident, Byte3, BigDataBytes, Nat, ResidentSize;
    ResidentByTopBit(sizeRaw);
  }

  /** Without that exception it is lost: long content that starts with "db" and two zeros is taken for a big-data cell
      without segments. */
  lemma ContentLikeBigData(
    b: seq<byte>, hbin: nat, sizeRaw: u32, dataOffset: u32, typeLength: Option<nat>, content: seq<byte>)
    requires Byte3(sizeRaw) < 0x80 && 16344 < |content| == Nat(sizeRaw) && content[..4] == [0x64, 0x62, 0, 0]
    requires Holds(b, hbin + Nat(dataOffset) + 4, content)
    ensures ReadValueBytes(b, hbin, sizeRaw, dataOffset, typeLength) == []
  {
    hide IsResident, Byte3, Nat, ResidentSize, Half, U32, Digit;
    ResidentByTopBit(sizeRaw);
    var offset := hbin + Nat(dataOffset);
    assert Holds(b, offset + 4, content[..4]) by { HoldsBoth(b, offset + 4, content[..4], content[4..]); }
    HeaderBytes(b, offset + 4, content[..4]);
    HalfIsNumber(0, 0);
    DigitNext(0);
  }

  /** So is content of up to four bytes in place of the offset, first byte first. */
  lemma ReadInvertsResident(
    b: seq<byte>, hbin: nat, sizeRaw: u32, b0: byte, b1: byte, b2: byte, b3: byte, typeLength: Option<nat>, content: seq<byte>)
    requires |content| <= 4 && Nat(sizeRaw) == 0x8000_0000 + |content| && content == [b0, b1, b2, b3][..|content|]
    ensures ReadValueBytes(b, hbin, sizeRaw, Word(b0, b1, b2, b3), typeLength) == ValueBytes(typeLength, content)
  {
    hide Word, Nat, Byte0, Byte1, Byte2, Byte3, IsResident, ReadCellBytes, U32;
    TopBitBySize(sizeRaw);
    ResidentByTopBit(sizeRaw);
    WithoutTopBit(sizeRaw);
    WordBytes(b0, b1, b2, b3);
    assert Le32(Word(b0, b1, b2, b3)) == [b0, b1, b2, b3];
  }

  lemma TopBitBySize(x: u32)
    ensures Nat(x) >= 0x8000_0000 <==> Byte3(x) >= 0x80
  {
    hide Word, Nat, Byte0, Byte1, Byte2, Byte3, Digit;
    var b0, b1, b2, b3 := Byte0(x), Byte1(x), Byte2(x), Byte3(x);
    WordOfBytes(x);
    WordIsNumber(b0, b1, b2, b3);
    DigitRange(b0); DigitRange(b1); DigitRange(b2);
    TopDigit(b3);
  }

  /** When nothing is read: there is nothing to read, the type has no length, a resident value is longer than four bytes,
      the file ends before the content does, or a big-data cell has no list, an unreadable segment or empty segments. */
  lemma NothingIsRead(b: seq<byte>, hbin: nat, sizeRaw: u32, dataOffset: u32, typeLength: Option<nat>)
    ensures var at := hbin + Nat(dataOffset);
            ReadValueBytes(b, hbin, sizeRaw, dataOffset, typeLength) == [] <==>
            || typeLength == Some(0)
            || (if Byte3(sizeRaw) >= 0x80 then Nat(sizeRaw) == 0x8000_0000 || Nat(sizeRaw) > 0x8000_0004
                else if Nat(sizeRaw) > 16344 && Holds(b, at + 4, [0x64, 0x62]) then NoSegmentIsRead(b, hbin, at, Nat(sizeRaw))
                else Nat(sizeRaw) == 0 || |b| < at + 4 + Nat(sizeRaw))
  {
    hide IsResident, Byte3, Nat, Le32, BigDataBytes, NoSegmentIsRead;
    ResidentByTopBit(sizeRaw);
    if IsResident(sizeRaw) { WithoutTopBit(sizeRaw); }
    NothingInSegments(b, hbin, hbin + Nat(dataOffset), typeLength, Nat(sizeRaw));
  }

  ghost predicate NoSegmentIsRead(b: seq<byte>, hbin: nat, offset: nat, size: nat) {
    SegmentOffsets(b, hbin, offset).None? ||
    (var offsets := SegmentOffsets(b, hbin, offset).value;
     Gather(b, hbin, offsets, size).None? || Capacity(b, hbin, offsets) == 0)
  }

  lemma NothingInSegments(b: seq<byte>, hbin: nat, offset: nat, typeLength: Option<nat>, size: nat)
    ensures var r := BigDataBytes(b, hbin, offset, typeLength, size);
            r.None? || r.value == [] <==> NoSegmentIsRead(b, hbin, offset, size) || typeLength == Some(0) || size == 0
  {
    hide SegmentOffsets, Gather, Capacity;
    var offsets := SegmentOffsets(b, hbin, offset);
    if offsets.Some? && Gather(b, hbin, offsets.value, size).Some? { GatherLength(b, hbin, offsets.value, size); }
    if size == 0 && offsets.Some? { GatherNothing(b, hbin, offsets.value, size); }
  }
}
