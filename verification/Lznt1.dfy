/** The LZNT1 decoder, and what it makes of well-formed data (section 2.5 of [MS-XCA]). */
module Lznt1 {
  import opened Common

  // In this module None is a Rust panic on malformed data.

  /** A byte as a number. */
  type octet = x: int | 0 <= x < 256

  function Pow2(n: nat): (r: nat)
    ensures r >= 1
  {
    if n == 0 then 1 else 2 * Pow2(n - 1)
  }

  // ----- The table of displacement widths -----

  /** The table has room for `bits` at position `x`, and no smaller width of at least 4 does. */
  ghost predicate IsWidth(x: nat, bits: nat) {
    4 <= bits && x <= Pow2(bits) && (bits == 4 || Pow2(bits - 1) < x)
  }

  function Width(x: nat): (bits: nat)
    requires x < 4096
    ensures IsWidth(x, bits) && bits <= 12
  {
    SmallPowers();
    if x <= 16 then 4 else if x <= 32 then 5 else if x <= 64 then 6 else if x <= 128 then 7 else if x <= 256 then 8
    else if x <= 512 then 9 else if x <= 1024 then 10 else if x <= 2048 then 11 else 12
  }

  lemma SmallPowers()
    ensures Pow2(3) == 8 && Pow2(4) == 16 && Pow2(5) == 32 && Pow2(6) == 64 && Pow2(7) == 128 && Pow2(8) == 256
    ensures Pow2(9) == 512 && Pow2(10) == 1024 && Pow2(11) == 2048 && Pow2(12) == 4096
  {
    assert Pow2(0) == 1 && Pow2(1) == 2 && Pow2(2) == 4;
    assert Pow2(3) == 8 && Pow2(4) == 16 && Pow2(5) == 32 && Pow2(6) == 64;
    assert Pow2(7) == 128 && Pow2(8) == 256 && Pow2(9) == 512;
  }

  /** There is one least width. */
  lemma WidthIsUnique(x: nat, a: nat, b: nat)
    requires IsWidth(x, a) && IsWidth(x, b)
    ensures a == b
  {
    if a < b { Pow2Grows(a, b - 1); }
    if b < a { Pow2Grows(b, a - 1); }
  }

  lemma {:induction false} Pow2Grows(a: nat, b: nat)
    requires a <= b
    ensures Pow2(a) <= Pow2(b)
    decreases b
  {
    if a < b { Pow2Grows(a, b - 1); }
  }

  /** `calc_compression_bits`: one pass that widens after every power of two. */
  method CalcCompressionBits() returns (result: array<nat>)
    ensures fresh(result) && result.Length == 4096
    ensures forall x :: 0 <= x < 4096 ==> result[x] == Width(x)
  {
    hide Width;
    result := new nat[4096];
    var offsetBits, y, x := 0, 0x10, 0;
    SmallPowers();
    while x < result.Length
      invariant 0 <= x <= result.Length
      invariant y == Pow2(4 + offsetBits) && x <= y && (offsetBits == 0 || Pow2(4 + offsetBits - 1) < x)
      invariant forall i :: 0 <= i < x ==> result[i] == Width(i)
    {
      WidthIsUnique(x, 4 + offsetBits, Width(x));
      result[x] := 4 + offsetBits;
      if x == y {
        y := 2 * y;
        offsetBits := offsetBits + 1;
      }
      x := x + 1;
    }
  }

  // ----- The decoder as a function -----

  /** The little-endian 16-bit number at index `i`. */
  function Le16(source: seq<octet>, i: nat): nat
    requires i + 2 <= |source|
  {
    source[i] as nat + 256 * source[i + 1] as nat
  }

  /** `length` bytes copied from `displacement` bytes back: the last `displacement` bytes over and over. */
  function Repeat(out: seq<octet>, displacement: nat, length: nat): (r: seq<octet>)
    requires 1 <= displacement <= |out|
    ensures |r| == length
  {
    seq(length, i requires 0 <= i < length => out[|out| - displacement + i % displacement])
  }

  /** Output so far, and the next source index. */
  datatype Progress = Progress(out: seq<octet>, index: nat)

  /** The displacement and the length packed in a phrase token, for `bits` length bits. */
  function Displacement(token: nat, bits: nat): (r: nat)
    ensures r >= 1
  {
    token / Pow2(bits) + 1
  }

  function Length(token: nat, bits: nat): nat {
    token % Pow2(bits) + 3
  }

  /** One token: a literal if `literal`, else a phrase. */
  function DecodeToken(source: seq<octet>, index: nat, start: nat, out: seq<octet>, literal: bool): Option<Progress>
    requires start <= |out|
  {
    if literal then
      if index < |source| then Some(Progress(out + [source[index]], index + 1)) else None
    else if |out| - start >= 4096 || |source| < index + 2 then None
    else
      var token, bits := Le16(source, index), 16 - Width(|out| - start);
      if |out| < Displacement(token, bits) then None
      else Some(Progress(out + Repeat(out, Displacement(token, bits), Length(token, bits)), index + 2))
  }

  /** At most `count` tokens of one tag byte. */
  function DecodeTokens(source: seq<octet>, index: nat, end: nat, start: nat, out: seq<octet>, tag: nat, count: nat)
    : (r: Option<Progress>)
    requires start <= |out|
    ensures r.Some? ==> index <= r.value.index && start <= |r.value.out|
    decreases count
  {
    if count == 0 || index >= end then Some(Progress(out, index))
    else
      match DecodeToken(source, index, start, out, tag % 2 == 0)
      case None => None
      case Some(p) => DecodeTokens(source, p.index, end, start, p.out, tag / 2, count - 1)
  }

  /** The tag bytes and tokens of one compressed chunk that ends at `end`. */
  function DecodeGroups(source: seq<octet>, index: nat, end: nat, start: nat, out: seq<octet>): (r: Option<Progress>)
    requires start <= |out|
    ensures r.Some? ==> index <= r.value.index && end <= r.value.index
    decreases end - index
  {
    if index >= end then Some(Progress(out, index))
    else if index >= |source| then None
    else
      match DecodeTokens(source, index + 1, end, start, out, source[index], 8)
      case None => None
      case Some(p) => DecodeGroups(source, p.index, end, start, p.out)
  }

  /** All chunks from `index` on, until `end` or an empty header. */
  function DecodeChunks(source: seq<octet>, index: nat, end: nat, out: seq<octet>): Option<seq<octet>>
    decreases end - index
  {
    if index >= end then Some(out)
    else if |source| < index + 2 then None
    else
      var header := Le16(source, index);
      var size := header % 4096 + 1;
      if header == 0 then Some(out)
      else if header < 0x8000 then
        if |source| < index + 2 + size then None
        else DecodeChunks(source, index + 2 + size, end, out + source[index + 2..index + 2 + size])
      else
        match DecodeGroups(source, index + 2, index + 2 + size, |out|, out)
        case None => None
        case Some(p) => DecodeChunks(source, p.index, end, p.out)
  }

  // ----- The decoder as the source runs it -----

  /** The byte-by-byte copy loop reads bytes that it has just written when the phrase overlaps its own output. */
  method CopyPhrase(out: seq<octet>, back: nat, length: nat) returns (r: seq<octet>)
    requires back < |out|
    ensures r == out + Repeat(out, |out| - back, length)
  {
    r := out;
    var i, from := 0, back;
    ghost var d := |out| - back;
    while i < length
      invariant 0 <= i <= length && from == back + i
      invariant r == out + Repeat(out, d, i)
    {
      CopyStep(out, d, i);
      r := r + [r[from]];
      i, from := i + 1, from + 1;
    }
  }

  lemma CopyStep(out: seq<octet>, d: nat, i: nat)
    requires 1 <= d <= |out|
    ensures var r := out + Repeat(out, d, i);
            r[|out| - d + i] == out[|out| - d + i % d]
    ensures Repeat(out, d, i + 1) == Repeat(out, d, i) + [out[|out| - d + i % d]]
  {
    if i >= d {
      assert (i - d) % d == i % d by { ModLess(i, d); }
    } else {
      assert i % d == i by { ModSmall(i, d); }
    }
  }

  lemma ModLess(i: nat, d: nat)
    requires 1 <= d <= i
    ensures (i - d) % d == i % d
  {
    assert i == d * (i / d) + i % d;
    assert i - d == d * (i / d - 1) + i % d;
    DivModUnique(i - d, d, i / d - 1, i % d);
  }

  lemma ModSmall(i: nat, d: nat)
    requires i < d
    ensures i % d == i
  {
  }

  lemma DivModUnique(x: int, d: nat, q: int, r: int)
    requires d > 0 && 0 <= r < d && x == d * q + r
    ensures x / d == q && x % d == r
  {
    var k := q - x / d;
    assert d * q - d * (x / d) == d * k;
    assert d * k == x % d - r;
    MultipleIsFar(d, k);
  }

  lemma MultipleIsFar(d: int, k: int)
    requires d >= 0
    ensures (k >= 1 ==> d * k >= d) && (k <= -1 ==> d * k <= -d)
  {
    if k >= 1 { assert d * k == d + d * (k - 1); }
    if k <= -1 { assert d * k == -d + d * (k + 1); }
  }

  method DecodeTagGroup(source: seq<octet>, index: nat, end: nat, start: nat, out: seq<octet>, tag: octet, table: array<nat>)
    returns (r: Option<Progress>)
    requires start <= |out| && table.Length == 4096 && forall x :: 0 <= x < 4096 ==> table[x] == Width(x)
    ensures r == DecodeTokens(source, index, end, start, out, tag, 8)
  {
    hide Displacement, Length, Width, Repeat, Le16;
    ghost var all := DecodeTokens(source, index, end, start, out, tag, 8);
    var at: nat, o, t: nat, token := index, out, tag as nat, 0;
    while token < 8
      invariant 0 <= token <= 8 && start <= |o|
      invariant all == DecodeTokens(source, at, end, start, o, t, 8 - token)
    {
      if at >= end {
        break;
      }
      if t % 2 == 0 {
        if at >= |source| {
          return None;
        }
        o, at := o + [source[at]], at + 1;
      } else {
        if |o| - start >= 4096 || |source| < at + 2 {
          return None;
        }
        var lengthBits := 16 - table[|o| - start];
        var phrase := Le16(source, at);
        at := at + 2;
        if |o| < Displacement(phrase, lengthBits) {
          return None;
        }
        o := CopyPhrase(o, |o| - Displacement(phrase, lengthBits), Length(phrase, lengthBits));
      }
      t := t / 2;
      token := token + 1;
    }
    r := Some(Progress(o, at));
  }

  /** `decode_lznt1`. The index of the next output byte is always the length of the output. */
  method DecodeLznt1(source: seq<octet>, sourceOffset: nat, sourceLength: nat) returns (r: Option<seq<octet>>)
    ensures r == DecodeChunks(source, sourceOffset, sourceLength, [])
  {
    hide Width, DecodeTokens, Le16;
    var table := CalcCompressionBits();
    ghost var all := DecodeChunks(source, sourceOffset, sourceLength, []);
    var out: seq<octet>, destIndex: nat, index: nat := [], 0, sourceOffset;
    while index < sourceLength
      invariant destIndex == |out|
      invariant table.Length == 4096 && forall x :: 0 <= x < 4096 ==> table[x] == Width(x)
      invariant all == DecodeChunks(source, index, sourceLength, out)
      decreases sourceLength - index
    {
      if |source| < index + 2 {
        return None;
      }
      var header := Le16(source, index);
      index := index + 2;
      if header == 0 {
        return Some(out);
      }
      var size := header % 4096 + 1;
      if header < 0x8000 {
        if |source| < index + size {
          return None;
        }
        out := out + source[index..index + size];
        index, destIndex := index + size, destIndex + size;
      } else {
        var start, end := destIndex, index + size;
        ghost var groups := DecodeGroups(source, index, end, start, out);
        while index < end
          invariant start <= |out| && (index >= end ==> groups == Some(Progress(out, index)))
          invariant groups == DecodeGroups(source, index, end, start, out)
          invariant destIndex == |out|
          invariant table.Length == 4096 && forall x :: 0 <= x < 4096 ==> table[x] == Width(x)
          decreases end - index
        {
          if index >= |source| {
            return None;
          }
          var p := DecodeTagGroup(source, index + 1, end, start, out, source[index], table);
          if p.None? {
            return None;
          }
          out, index, destIndex := p.value.out, p.value.index, |p.value.out|;
        }
      }
    }
    r := Some(out);
  }

  // ----- Well-formed data -----

  datatype Token = Literal(b: octet) | Phrase(displacement: nat, length: nat)

  /** A chunk: stored bytes, or the tokens of a compressed one. */
  datatype Chunk = Stored(bytes: seq<octet>) | Compressed(tokens: seq<Token>)

  /** What the tokens add to the `out` bytes that the chunk has expanded to so far. */
  function ExpandToken(out: seq<octet>, t: Token): seq<octet>
    requires FitsToken(|out|, t)
  {
    match t
    case Literal(b) => out + [b]
    case Phrase(d, l) => out + Repeat(out, d, l)
  }

  function TokenLength(t: Token): nat {
    if t.Literal? then 1 else t.length
  }

  /** The token may stand where the chunk has expanded to `position` bytes: phrases reach back within the chunk, their
      length fits the bits left for it, and the chunk stays within 4096 bytes. */
  predicate FitsToken(position: nat, t: Token) {
    && position + TokenLength(t) <= 4096
    && (t.Phrase? ==> 1 <= t.displacement <= position < 4096 && 3 <= t.length < 3 + Pow2(16 - Width(position)))
  }

  predicate FitTokens(position: nat, ts: seq<Token>)
    decreases |ts|
  {
    ts == [] || (FitsToken(position, ts[0]) && FitTokens(position + TokenLength(ts[0]), ts[1..]))
  }

  function ExpandTokens(out: seq<octet>, ts: seq<Token>): seq<octet>
    requires FitTokens(|out|, ts)
    decreases |ts|
  {
    if ts == [] then out else ExpandTokens(ExpandToken(out, ts[0]), ts[1..])
  }

  function Split16(x: nat): (r: seq<octet>)
    requires x < 0x10000
    ensures |r| == 2 && Le16(r, 0) == x
  {
    [x % 256, x / 256]
  }

  function Pack(width: nat, high: nat, low: nat): (r: nat)
    requires 4 <= width <= 12 && high < Pow2(width) && low < Pow2(16 - width)
    ensures r < 0x10000
  {
    PhraseFits(width, high, low);
    Pow2(16 - width) * high + low
  }

  /** A phrase packed for its position. */
  function PhraseWord(position: nat, t: Token): (r: nat)
    requires t.Phrase? && FitsToken(position, t)
    ensures r < 0x10000
  {
    Pack(Width(position), t.displacement - 1, t.length - 3)
  }

  /** Unpacking gives the displacement and the length back. */
  lemma PhraseUnpacks(position: nat, t: Token)
    requires t.Phrase? && FitsToken(position, t)
    ensures var bits := 16 - Width(position);
            && Displacement(PhraseWord(position, t), bits) == t.displacement
            && Length(PhraseWord(position, t), bits) == t.length
  {
    hide Pow2, Width;
    var m := Pow2(16 - Width(position));
    DivModUnique(m * (t.displacement - 1) + (t.length - 3), m, t.displacement - 1, t.length - 3);
  }

  lemma PhraseFits(width: nat, high: nat, low: nat)
    requires 4 <= width <= 12 && high < Pow2(width) && low < Pow2(16 - width)
    ensures Pow2(16 - width) * high + low < 0x10000
  {
    SmallPowers();
    match width {
      case 4 => assert Pow2(12) * high <= 4096 * 15;
      case 5 => assert Pow2(11) * high <= 2048 * 31;
      case 6 => assert Pow2(10) * high <= 1024 * 63;
      case 7 => assert Pow2(9) * high <= 512 * 127;
      case 8 => assert Pow2(8) * high <= 256 * 255;
      case 9 => assert Pow2(7) * high <= 128 * 511;
      case 10 => assert Pow2(6) * high <= 64 * 1023;
      case 11 => assert Pow2(5) * high <= 32 * 2047;
      case _ => assert Pow2(4) * high <= 16 * 4095;
    }
  }

  function TokenBytes(position: nat, t: Token): (r: seq<octet>)
    requires FitsToken(position, t)
    ensures 1 <= |r|
  {
    match t
    case Literal(b) => [b]
    case Phrase(_, _) => Split16(PhraseWord(position, t))
  }

  function TokensBytes(position: nat, ts: seq<Token>): seq<octet>
    requires FitTokens(position, ts)
    decreases |ts|
  {
    if ts == [] then [] else TokenBytes(position, ts[0]) + TokensBytes(position + TokenLength(ts[0]), ts[1..])
  }

  /** The tag byte of up to eight tokens: bit `i` is set if token `i` is a phrase. */
  function Tag(ts: seq<Token>): (r: nat)
    requires |ts| <= 8
    ensures r < Pow2(|ts|)
  {
    if ts == [] then 0 else (if ts[0].Phrase? then 1 else 0) + 2 * Tag(ts[1..])
  }

  function PositionAfter(position: nat, ts: seq<Token>): nat
    decreases |ts|
  {
    if ts == [] then position else PositionAfter(position + TokenLength(ts[0]), ts[1..])
  }

  lemma {:induction false} FitSplit(position: nat, ts: seq<Token>, n: nat)
    requires FitTokens(position, ts) && n <= |ts|
    ensures FitTokens(position, ts[..n]) && FitTokens(PositionAfter(position, ts[..n]), ts[n..])
    decreases |ts|
  {
    hide FitsToken, TokenLength;
    if n == 0 {
      assert ts[..n] == [] && ts[n..] == ts;
    } else {
      FitSplit(position + TokenLength(ts[0]), ts[1..], n - 1);
      assert ts[..n][1..] == ts[1..][..n - 1] && ts[1..][n - 1..] == ts[n..] && ts[..n][0] == ts[0];
    }
  }

  function GroupSize(ts: seq<Token>): nat {
    if |ts| < 8 then |ts| else 8
  }

  /** Tokens in groups of eight, each after its tag byte. */
  function GroupsBytes(position: nat, ts: seq<Token>): seq<octet>
    requires FitTokens(position, ts)
    decreases |ts|
  {
    if ts == [] then []
    else
      var n := GroupSize(ts);
      FitSplit(position, ts, n);
      TagIsOctet(ts[..n]);
      [Tag(ts[..n])] + TokensBytes(position, ts[..n]) + GroupsBytes(PositionAfter(position, ts[..n]), ts[n..])
  }

  lemma TagIsOctet(ts: seq<Token>)
    requires |ts| <= 8
    ensures Tag(ts) < 256
  {
    SmallPowers();
    Pow2Grows(|ts|, 8);
  }

  /** The chunk can be written: one to 4096 bytes of data, expanding to at most 4096. */
  predicate FitsChunk(c: Chunk) {
    match c
    case Stored(bytes) => 1 <= |bytes| <= 4096
    case Compressed(ts) => FitTokens(0, ts) && 1 <= |GroupsBytes(0, ts)| <= 4096
  }

  /** The header holds the data size less one, the signature 3, and the flag for compressed data. */
  function ChunkBytes(c: Chunk): (r: seq<octet>)
    requires FitsChunk(c)
  {
    match c
    case Stored(bytes) => Split16(0x3000 + |bytes| - 1) + bytes
    case Compressed(ts) => Split16(0xB000 + |GroupsBytes(0, ts)| - 1) + GroupsBytes(0, ts)
  }

  function ExpandChunk(c: Chunk): seq<octet>
    requires FitsChunk(c)
  {
    match c
    case Stored(bytes) => bytes
    case Compressed(ts) => ExpandTokens([], ts)
  }

  predicate FitChunks(cs: seq<Chunk>) {
    forall i :: 0 <= i < |cs| ==> FitsChunk(cs[i])
  }

  function ChunksBytes(cs: seq<Chunk>): seq<octet>
    requires FitChunks(cs)
  {
    if cs == [] then [] else ChunkBytes(cs[0]) + ChunksBytes(cs[1..])
  }

  function Expansion(cs: seq<Chunk>): seq<octet>
    requires FitChunks(cs)
  {
    if cs == [] then [] else ExpandChunk(cs[0]) + Expansion(cs[1..])
  }

  // ----- Decoding what was written -----

  /** Expanding never looks before the chunk: the bytes before it can be put in front at any time. */
  lemma RepeatInChunk(before: seq<octet>, out: seq<octet>, d: nat, l: nat)
    requires 1 <= d <= |out|
    ensures Repeat(before + out, d, l) == Repeat(out, d, l)
  {
    forall i | 0 <= i < l
      ensures Repeat(before + out, d, l)[i] == Repeat(out, d, l)[i]
    {
      assert 0 <= i % d < d;
    }
  }

  /** The source holds `data` at `index`. */
  predicate HasAt(source: seq<octet>, index: nat, data: seq<octet>) {
    index + |data| <= |source| && source[index..index + |data|] == data
  }

  lemma HasSplit(source: seq<octet>, index: nat, a: seq<octet>, b: seq<octet>)
    requires HasAt(source, index, a + b)
    ensures HasAt(source, index, a) && HasAt(source, index + |a|, b)
  {
    var both := source[index..index + |a + b|];
    assert source[index..index + |a|] == both[..|a|] == a;
    assert source[index + |a|..index + |a| + |b|] == both[|a|..] == b;
  }

  lemma Has16(source: seq<octet>, index: nat, x: nat)
    requires x < 0x10000 && HasAt(source, index, Split16(x))
    ensures index + 2 <= |source| && Le16(source, index) == x
  {
    assert source[index] == source[index..index + 2][0] && source[index + 1] == source[index..index + 2][1];
  }

  lemma DecodesToken(source: seq<octet>, index: nat, before: seq<octet>, out: seq<octet>, t: Token)
    requires FitsToken(|out|, t) && HasAt(source, index, TokenBytes(|out|, t))
    ensures DecodeToken(source, index, |before|, before + out, t.Literal?) ==
            Some(Progress(before + ExpandToken(out, t), index + |TokenBytes(|out|, t)|))
  {
    hide Repeat, Width, Displacement, Length, Pow2;
    if t.Literal? {
      assert source[index] == source[index..index + 1][0];
      assert (before + out) + [t.b] == before + (out + [t.b]);
    } else {
      var word := PhraseWord(|out|, t);
      Has16(source, index, word);
      PhraseUnpacks(|out|, t);
      RepeatInChunk(before, out, t.displacement, t.length);
      assert (before + out) + Repeat(out, t.displacement, t.length) == before + (out + Repeat(out, t.displacement, t.length));
    }
  }

  /** A group decodes to its tokens, whether it is full or ends with the chunk. */
  lemma {:induction false} DecodesTokens(source: seq<octet>, index: nat, end: nat, before: seq<octet>, out: seq<octet>,
                                         ts: seq<Token>, count: nat)
    requires FitTokens(|out|, ts) && HasAt(source, index, TokensBytes(|out|, ts))
    requires |ts| <= count <= 8 && index + |TokensBytes(|out|, ts)| <= end
    requires |ts| == count || index + |TokensBytes(|out|, ts)| == end
    ensures DecodeTokens(source, index, end, |before|, before + out, Tag(ts), count) ==
            Some(Progress(before + ExpandTokens(out, ts), index + |TokensBytes(|out|, ts)|))
    decreases |ts|
  {
    hide DecodeToken, FitsToken, TokenBytes, ExpandToken, TokenLength, Pow2;
    if ts != [] {
      var t := ts[0];
      var first, rest := TokenBytes(|out|, t), TokensBytes(|out| + TokenLength(t), ts[1..]);
      HasSplit(source, index, first, rest);
      DecodesToken(source, index, before, out, t);
      TokenGrows(out, t);
      DecodesTokens(source, index + |first|, end, before, ExpandToken(out, t), ts[1..], count - 1);
      TagBits(ts);
    }
  }

  lemma TokenGrows(out: seq<octet>, t: Token)
    requires FitsToken(|out|, t)
    ensures |ExpandToken(out, t)| == |out| + TokenLength(t)
  {
  }

  lemma TagBits(ts: seq<Token>)
    requires 0 < |ts| <= 8
    ensures (Tag(ts) % 2 == 0 <==> ts[0].Literal?) && Tag(ts) / 2 == Tag(ts[1..])
  {
  }

  lemma {:induction false} ExpandSplit(out: seq<octet>, ts: seq<Token>, n: nat)
    requires FitTokens(|out|, ts) && n <= |ts| && FitTokens(|out|, ts[..n])
    ensures |ExpandTokens(out, ts[..n])| == PositionAfter(|out|, ts[..n])
    ensures FitTokens(|ExpandTokens(out, ts[..n])|, ts[n..])
    ensures ExpandTokens(out, ts) == ExpandTokens(ExpandTokens(out, ts[..n]), ts[n..])
    decreases |ts|
  {
    hide FitsToken, ExpandToken, TokenLength;
    if n == 0 {
      assert ts[..n] == [] && ts[n..] == ts;
    } else {
      TokenGrows(out, ts[0]);
      assert ts[..n][1..] == ts[1..][..n - 1] && ts[1..][n - 1..] == ts[n..] && ts[..n][0] == ts[0];
      ExpandSplit(ExpandToken(out, ts[0]), ts[1..], n - 1);
    }
  }

  lemma {:induction false} DecodesGroups(source: seq<octet>, index: nat, before: seq<octet>, out: seq<octet>, ts: seq<Token>)
    requires FitTokens(|out|, ts) && HasAt(source, index, GroupsBytes(|out|, ts))
    ensures var end := index + |GroupsBytes(|out|, ts)|;
            DecodeGroups(source, index, end, |before|, before + out) == Some(Progress(before + ExpandTokens(out, ts), end))
    decreases |ts|
  {
    hide DecodeTokens, DecodeGroups, GroupsBytes, TokensBytes, FitTokens, Tag, ExpandTokens, HasAt, PositionAfter, GroupSize;
    var end := index + |GroupsBytes(|out|, ts)|;
    if ts == [] {
      NoTokens(out);
      GroupsEnd(source, index, before + out, |before|, |out|);
    } else {
      var n := GroupSize(ts);
      FirstGroup(source, index, |out|, ts);
      var body := TokensBytes(|out|, ts[..n]);
      DecodesTokens(source, index + 1, end, before, out, ts[..n], 8);
      ExpandSplit(out, ts, n);
      DecodesGroups(source, index + 1 + |body|, before, ExpandTokens(out, ts[..n]), ts[n..]);
      GroupsStep(source, index, end, |before|, before + out);
    }
  }

  /** The first tag byte and its tokens, and where the other groups follow. */
  lemma FirstGroup(source: seq<octet>, index: nat, position: nat, ts: seq<Token>)
    requires ts != [] && FitTokens(position, ts) && HasAt(source, index, GroupsBytes(position, ts))
    ensures var n := GroupSize(ts);
            && n <= 8 && n <= |ts| && 0 < n && FitTokens(position, ts[..n])
            && var body := TokensBytes(position, ts[..n]);
            && FitTokens(PositionAfter(position, ts[..n]), ts[n..])
            && var rest := GroupsBytes(PositionAfter(position, ts[..n]), ts[n..]);
            && index < |source| && source[index] == Tag(ts[..n])
            && HasAt(source, index + 1, body) && HasAt(source, index + 1 + |body|, rest)
            && |GroupsBytes(position, ts)| == 1 + |body| + |rest|
            && (n < 8 ==> rest == [])
  {
    hide TokensBytes, FitTokens, Tag, HasAt, PositionAfter;
    var n := GroupSize(ts);
    FitSplit(position, ts, n);
    TagIsOctet(ts[..n]);
    var body, rest := TokensBytes(position, ts[..n]), GroupsBytes(PositionAfter(position, ts[..n]), ts[n..]);
    var tag: octet := Tag(ts[..n]);
    assert GroupsBytes(position, ts) == [tag] + body + rest;
    HasSplit(source, index, [tag] + body, rest);
    HasSplit(source, index, [tag], body);
    HasOne(source, index, tag);
  }

  lemma HasOne(source: seq<octet>, index: nat, b: octet)
    requires HasAt(source, index, [b])
    ensures index < |source| && source[index] == b
  {
    assert source[index] == source[index..index + 1][0];
  }

  lemma GroupsEnd(source: seq<octet>, index: nat, out: seq<octet>, start: nat, position: nat)
    requires start <= |out|
    ensures FitTokens(position, []) && GroupsBytes(position, []) == []
    ensures DecodeGroups(source, index, index, start, out) == Some(Progress(out, index))
  {
  }

  lemma GroupsStep(source: seq<octet>, index: nat, end: nat, start: nat, out: seq<octet>)
    requires start <= |out| && index < end && index < |source|
    ensures DecodeGroups(source, index, end, start, out) ==
            match DecodeTokens(source, index + 1, end, start, out, source[index], 8)
            case None => None
            case Some(p) => DecodeGroups(source, p.index, end, start, p.out)
  {
  }

  lemma NoTokens(out: seq<octet>)
    ensures FitTokens(|out|, []) && ExpandTokens(out, []) == out
  {
  }

  /** One chunk decodes to its expansion. */
  lemma DecodesChunk(source: seq<octet>, index: nat, end: nat, out: seq<octet>, c: Chunk)
    requires FitsChunk(c) && HasAt(source, index, ChunkBytes(c)) && index < end
    ensures DecodeChunks(source, index, end, out) == DecodeChunks(source, index + |ChunkBytes(c)|, end, out + ExpandChunk(c))
  {
    hide DecodeGroups, GroupsBytes, FitTokens, ExpandTokens, Split16, Le16, Pow2;
    match c {
      case Stored(bytes) =>
        var header := Split16(0x3000 + |bytes| - 1);
        HasSplit(source, index, header, bytes);
        Has16(source, index, 0x3000 + |bytes| - 1);
      case Compressed(ts) =>
        var data := GroupsBytes(0, ts);
        HasSplit(source, index, Split16(0xB000 + |data| - 1), data);
        Has16(source, index, 0xB000 + |data| - 1);
        DecodesGroups(source, index + 2, out, [], ts);
        assert out + [] == out;
    }
  }

  lemma {:induction false} DecodesChunks(source: seq<octet>, index: nat, end: nat, out: seq<octet>, cs: seq<Chunk>)
    requires FitChunks(cs) && HasAt(source, index, ChunksBytes(cs)) && index + |ChunksBytes(cs)| <= end
    ensures DecodeChunks(source, index, end, out) == DecodeChunks(source, index + |ChunksBytes(cs)|, end, out + Expansion(cs))
    decreases |cs|
  {
    hide DecodeChunks, ChunkBytes, ExpandChunk, FitsChunk, HasAt;
    if cs == [] {
      assert out + [] == out;
    } else {
      HasSplit(source, index, ChunkBytes(cs[0]), ChunksBytes(cs[1..]));
      ChunkHasHeader(cs[0]);
      DecodesChunk(source, index, end, out, cs[0]);
      DecodesChunks(source, index + |ChunkBytes(cs[0])|, end, out + ExpandChunk(cs[0]), cs[1..]);
      assert (out + ExpandChunk(cs[0])) + Expansion(cs[1..]) == out + (ExpandChunk(cs[0]) + Expansion(cs[1..]));
    }
  }

  lemma ChunkHasHeader(c: Chunk)
    requires FitsChunk(c)
    ensures |ChunkBytes(c)| > 2
  {
  }

  /**
    * Decoding any sequence of well-formed chunks, placed anywhere in the source, gives the concatenation of their
    * expansions, whether the data ends there or an empty header follows.
    */
  lemma DecodeInvertsEncode(source: seq<octet>, offset: nat, length: nat, cs: seq<Chunk>)
    requires FitChunks(cs) && HasAt(source, offset, ChunksBytes(cs))
    requires var end := offset + |ChunksBytes(cs)|;
             end == length || (end < length && HasAt(source, end, [0, 0]))
    ensures DecodeChunks(source, offset, length, []) == Some(Expansion(cs))
  {
    hide DecodeChunks, Expansion, ChunksBytes, HasAt, FitChunks, Split16;
    var end, all := offset + |ChunksBytes(cs)|, Expansion(cs);
    DecodesChunks(source, offset, length, [], cs);
    assert [] + all == all;
    if end < length {
      ZeroBytes();
      Has16(source, end, 0);
    }
    Stops(source, end, length, all);
  }

  lemma ZeroBytes()
    ensures Split16(0) == [0, 0]
  {
  }

  lemma Stops(source: seq<octet>, index: nat, end: nat, out: seq<octet>)
    requires index >= end || (index + 2 <= |source| && Le16(source, index) == 0)
    ensures DecodeChunks(source, index, end, out) == Some(out)
  {
  }
}
