/** Decoding of a sequence of NUL-terminated UTF-16LE strings (REG_MULTI_SZ). */
module Utf16 {
  import opened Bytes

  type u16 = bv16

  /** A decoded character: one code unit of the basic plane, or the two surrogates that stand for one beyond it. */
  datatype Char = Plain(unit: u16) | Pair(high: u16, low: u16)

  const NUL: Char := Plain(0)
  const REPLACEMENT: Char := Plain(0xfffd)

  predicate IsHigh(u: u16) {
    0xd800 <= u < 0xdc00
  }

  predicate IsLow(u: u16) {
    0xdc00 <= u < 0xe000
  }

  /** Unicode White_Space; all of it is in the basic plane. */
  predicate IsWhite(c: Char) {
    match c
    case Pair(_, _) => false
    case Plain(u) =>
      || 0x09 <= u <= 0x0d || u == 0x20 || u == 0x85 || u == 0xa0 || u == 0x1680 || 0x2000 <= u <= 0x200a
      || u == 0x2028 || u == 0x2029 || u == 0x202f || u == 0x205f || u == 0x3000
  }

  /** `trim().is_empty()`. */
  predicate IsBlank(s: seq<Char>) {
    forall c :: c in s ==> IsWhite(c)
  }

  function UnitOf(b0: byte, b1: byte): u16 {
    b0 as u16 | (b1 as u16 << 8)
  }

  function BytesOf(u: u16): seq<byte> {
    [(u & 0xff) as byte, (u >> 8) as byte]
  }

  lemma UnitOfBytes(u: u16)
    ensures UnitOf(BytesOf(u)[0], BytesOf(u)[1]) == u
  {
  }

  /** The code units of a buffer; an odd last byte is not looked at. */
  function Units(b: seq<byte>): seq<u16> {
    seq(|b| / 2, i requires 0 <= i < |b| / 2 => UnitOf(b[2 * i], b[2 * i + 1]))
  }

  /** `decode_utf16`, with the replacement character for a surrogate that has no partner. */
  function Decode(u: seq<u16>): seq<Char> {
    if u == [] then []
    else if IsHigh(u[0]) && |u| > 1 && IsLow(u[1]) then [Pair(u[0], u[1])] + Decode(u[2..])
    else [if IsHigh(u[0]) || IsLow(u[0]) then REPLACEMENT else Plain(u[0])] + Decode(u[1..])
  }

  /** The characters before the first NUL. */
  function UpToNul(s: seq<Char>): (r: seq<Char>)
    ensures r <= s
  {
    if s == [] || s[0] == NUL then [] else [s[0]] + UpToNul(s[1..])
  }

  /** `char_count` of `from_utf16_le_string_single`: characters looked at, without the last. */
  function CountOf(s: seq<Char>): nat {
    var n := |UpToNul(s)|;
    if n < |s| then n else if n > 0 then n - 1 else 0
  }

  /** The strings `from_utf16_le_strings` finds. */
  function Strings(u: seq<u16>): seq<seq<Char>> {
    var chars := Decode(u);
    var s, next := UpToNul(chars), CountOf(chars) + 1;
    if IsBlank(s) then []
    else [s] + if next <= |u| then Strings(u[next..]) else []
  }

  lemma StringsStep(u: seq<u16>)
    ensures var chars := Decode(u);
            var next := CountOf(chars) + 1;
            Strings(u)
            == if IsBlank(UpToNul(chars)) then [] else [UpToNul(chars)] + if next <= |u| then Strings(u[next..]) else []
    ensures Strings([]) == []
  {
    hide CountOf, Decode, UpToNul, IsBlank;
    NoUnits();
  }

  lemma NoUnits()
    ensures Strings([]) == []
  {
  }

  lemma UnitsFrom(b: seq<byte>, k: nat)
    requires 2 * k <= |b|
    ensures k <= |Units(b)| == |b| / 2 && Units(b[2 * k..]) == Units(b)[k..]
  {
    hide UnitOf;
    var rest := b[2 * k..];
    forall i | 0 <= i < |rest| / 2
      ensures Units(rest)[i] == Units(b)[k..][i]
    {
      assert rest[2 * i] == b[2 * (k + i)] && rest[2 * i + 1] == b[2 * (k + i) + 1];
    }
  }

  /** The loop of `from_utf16_le_strings`. It ends on every buffer: each turn moves on by two bytes at least. */
  method FromUtf16LeStrings(slice: seq<byte>, count: nat) returns (strings: seq<seq<Char>>)
    requires count <= |slice|
    ensures strings == Strings(Units(slice[..count]))
  {
    hide *;
    var b := slice[..count];
    strings := [];
    var offset := 0;
    ghost var u, k := Units(b), 0;
    UnitsFrom(b, 0);
    assert u[0..] == u && [] + Strings(u) == Strings(u);
    while offset < count
      invariant offset == 2 * k
      invariant Strings(u) == strings + if k <= |u| then Strings(u[k..]) else []
      decreases count - offset
    {
      UnitsFrom(b, k);
      StringsStep(u[k..]);
      var chars := Decode(Units(b[offset..]));
      var decoded, size := UpToNul(chars), CountOf(chars);
      if IsBlank(decoded) {
        assert strings + [] == strings;
        return;
      }
      AfterString(u, k, size, strings, decoded);
      offset, k := offset + size * 2 + 2, k + size + 1;
      strings := strings + [decoded];
    }
    StringsStep([]);
    assert k == |u| ==> u[k..] == [];
    assert strings + [] == strings;
  }

  lemma AfterString(u: seq<u16>, k: nat, size: nat, strings: seq<seq<Char>>, decoded: seq<Char>)
    requires k <= |u|
    ensures k + size + 1 <= |u| ==> u[k..][size + 1..] == u[k + size + 1..]
    ensures forall rest: seq<seq<Char>> :: strings + ([decoded] + rest) == strings + [decoded] + rest
  {
  }

  // ----- The encoding as numbers -----

  /** Code units are little-endian. */
  lemma UnitIsNumber(b0: byte, b1: byte)
    ensures UnitOf(b0, b1) as nat == Digit(b0) + 0x100 * Digit(b1)
  {
    HalfIsNumber(b0, b1);
  }

  /** The first unit of a pair has a second byte from d8 to db, the second unit one from dc to df. */
  lemma SurrogateBytes(b0: byte, b1: byte)
    ensures IsHigh(UnitOf(b0, b1)) <==> b1 == 0xd8 || b1 == 0xd9 || b1 == 0xda || b1 == 0xdb
    ensures IsLow(UnitOf(b0, b1)) <==> b1 == 0xdc || b1 == 0xdd || b1 == 0xde || b1 == 0xdf
  {
  }

  /** The 25 characters of white space. */
  lemma WhiteSpace(c: Char)
    ensures IsWhite(c) <==>
            c in [Plain(0x9), Plain(0xa), Plain(0xb), Plain(0xc), Plain(0xd), Plain(0x20), Plain(0x85), Plain(0xa0),
                  Plain(0x1680), Plain(0x2000), Plain(0x2001), Plain(0x2002), Plain(0x2003), Plain(0x2004), Plain(0x2005),
                  Plain(0x2006), Plain(0x2007), Plain(0x2008), Plain(0x2009), Plain(0x200a), Plain(0x2028), Plain(0x2029),
                  Plain(0x202f), Plain(0x205f), Plain(0x3000)]
  {
  }

  // ----- Encoding -----

  /** A character other than NUL. */
  predicate IsChar(c: Char) {
    match c
    case Plain(u) => !IsHigh(u) && !IsLow(u) && u != 0
    case Pair(high, low) => IsHigh(high) && IsLow(low)
  }

  predicate IsString(s: seq<Char>) {
    forall c :: c in s ==> IsChar(c)
  }

  function EncodeChar(c: Char): (r: seq<u16>) {
    match c
    case Plain(u) => [u]
    case Pair(high, low) => [high, low]
  }

  function Encode(s: seq<Char>): seq<u16> {
    if s == [] then [] else EncodeChar(s[0]) + Encode(s[1..])
  }

  /** Each string with its terminator, then an empty string. */
  function EncodeList(l: seq<seq<Char>>): seq<u16> {
    if l == [] then [0] else Encode(l[0]) + [0] + EncodeList(l[1..])
  }

  function ToBytes(u: seq<u16>): (r: seq<byte>)
    ensures |r| == 2 * |u|
  {
    if u == [] then [] else BytesOf(u[0]) + ToBytes(u[1..])
  }

  /** How many characters of the string take two code units. */
  function Pairs(s: seq<Char>): nat {
    if s == [] then 0 else (if s[0].Pair? then 1 else 0) + Pairs(s[1..])
  }

  lemma {:induction false} UnitsOfBytes(u: seq<u16>)
    ensures Units(ToBytes(u)) == u
    decreases |u|
  {
    hide UnitOf, BytesOf;
    if u != [] {
      var b, rest := ToBytes(u), ToBytes(u[1..]);
      FirstUnit(u[0], rest);
      UnitsOfBytes(u[1..]);
      assert b[2..] == rest;
      JoinUnits(b, u[1..]);
    }
  }

  lemma UnitsStart(b: seq<byte>)
    requires |b| >= 2
    ensures |Units(b)| >= 1 && Units(b)[0] == UnitOf(b[0], b[1])
  {
    hide UnitOf;
  }

  lemma JoinUnits(b: seq<byte>, more: seq<u16>)
    requires |b| >= 2 && Units(b[2..]) == more
    ensures Units(b) == [UnitOf(b[0], b[1])] + more
  {
    hide Units, UnitOf;
    UnitsFrom(b, 1);
    UnitsStart(b);
    var all := Units(b);
    assert all == [all[0]] + all[1..];
  }

  lemma FirstUnit(u: u16, rest: seq<byte>)
    ensures |BytesOf(u)| == 2 && UnitOf((BytesOf(u) + rest)[0], (BytesOf(u) + rest)[1]) == u
  {
    hide UnitOf;
    UnitOfBytes(u);
  }

  lemma {:induction false} EncodeLength(s: seq<Char>)
    ensures |Encode(s)| == |s| + Pairs(s)
    decreases |s|
  {
    if s != [] { EncodeLength(s[1..]); }
  }

  /** Decoding a string and its terminator, whatever follows. */
  lemma {:induction false} DecodeInvertsEncode(s: seq<Char>, rest: seq<u16>)
    requires IsString(s)
    ensures Decode(Encode(s) + [0] + rest) == s + [NUL] + Decode(rest)
    decreases |s|
  {
    hide Decode, EncodeChar, IsChar;
    var u := Encode(s) + [0] + rest;
    if s == [] {
      DecodeNul(rest);
      assert u == [0] + rest;
    } else {
      var tail := Encode(s[1..]) + [0] + rest;
      DecodeInvertsEncode(s[1..], rest);
      DecodeChar(s[0], tail);
      assert u == EncodeChar(s[0]) + tail;
      assert s == [s[0]] + s[1..];
    }
  }

  lemma DecodeNul(rest: seq<u16>)
    ensures Decode([0] + rest) == [NUL] + Decode(rest)
  {
    assert ([0] + rest)[1..] == rest;
  }

  lemma DecodeChar(c: Char, rest: seq<u16>)
    requires IsChar(c)
    ensures Decode(EncodeChar(c) + rest) == [c] + Decode(rest)
  {
    var u := EncodeChar(c) + rest;
    assert u[|EncodeChar(c)|..] == rest;
  }

  lemma {:induction false} UpToNulIs(s: seq<Char>, rest: seq<Char>)
    requires IsString(s)
    ensures UpToNul(s + [NUL] + rest) == s && CountOf(s + [NUL] + rest) == |s|
    decreases |s|
  {
    if s != [] {
      assert s[0] in s && s[0] != NUL;
      assert s == [s[0]] + s[1..];
      UpToNulIs(s[1..], rest);
      assert (s + [NUL] + rest)[1..] == s[1..] + [NUL] + rest;
    }
  }

  /** One turn of the loop reads one string. The next turn starts where the next string does if and only if the string
      has no surrogate pair; otherwise it starts as many units short of it as there are pairs. */
  lemma ReadOne(s: seq<Char>, rest: seq<u16>)
    requires IsString(s) && !IsBlank(s)
    ensures var u := Encode(s) + [0] + rest;
            && |s| + 1 <= |u|
            && Strings(u) == [s] + Strings(u[|s| + 1..])
            && |u[|s| + 1..]| == Pairs(s) + |rest|
            && (u[|s| + 1..] == rest <==> Pairs(s) == 0)
  {
    hide Decode, UpToNul, CountOf, Strings, IsBlank, IsString;
    var u := Encode(s) + [0] + rest;
    EncodeLength(s);
    DecodeInvertsEncode(s, rest);
    UpToNulIs(s, Decode(rest));
    StringsStep(u);
  }

  lemma EndOfStrings(rest: seq<u16>)
    ensures Strings([0] + rest) == []
  {
    DecodeNul(rest);
  }

  // ----- What is read back from a list of strings -----

  /** What the last `n` code units of a string decode to: the last characters, and a replacement character for the
      second half of a pair. */
  function LastUnits(s: seq<Char>, n: nat): seq<Char> {
    if |s| + Pairs(s) <= n then s
    else if s[0].Pair? && |s| + Pairs(s) == n + 1 then [REPLACEMENT] + s[1..]
    else LastUnits(s[1..], n)
  }

  /** The strings that come out of one, and whether reading then goes on with the next. */
  datatype Reads = Reads(strings: seq<seq<Char>>, goesOn: bool)

  /** A blank string ends the list. A string without surrogate pairs is read, and reading goes on behind it. Behind a
      string with `n` pairs, reading goes on at its last `n - 1` code units. */
  function ReadsOf(s: seq<Char>): Reads
    decreases |s| + Pairs(s)
  {
    if IsBlank(s) then Reads([], false)
    else if Pairs(s) == 0 then Reads([s], true)
    else
      LastUnitsLength(s, Pairs(s) - 1);
      var more := ReadsOf(LastUnits(s, Pairs(s) - 1));
      Reads([s] + more.strings, more.goesOn)
  }

  function ReadsOfAll(l: seq<seq<Char>>): seq<seq<Char>> {
    if l == [] then []
    else
      var r := ReadsOf(l[0]);
      r.strings + if r.goesOn then ReadsOfAll(l[1..]) else []
  }

  lemma {:induction false} LastUnitsLength(s: seq<Char>, n: nat)
    requires n <= |s| + Pairs(s)
    ensures var t := LastUnits(s, n); |t| + Pairs(t) == n
    decreases |s|
  {
    if |s| + Pairs(s) > n && !(s[0].Pair? && |s| + Pairs(s) == n + 1) {
      LastUnitsLength(s[1..], n);
    }
  }

  /** The code units decode to the string: they are its encoding, or start with the second half of a pair. */
  ghost predicate Decodes(w: seq<u16>, s: seq<Char>) {
    || w == Encode(s)
    || (s != [] && s[0] == REPLACEMENT && w != [] && IsLow(w[0]) && w[1..] == Encode(s[1..]))
  }

  /** The last code units of an encoding decode to `LastUnits`. */
  lemma {:induction false} SuffixDecodes(s: seq<Char>, n: nat)
    requires IsString(s) && n <= |Encode(s)|
    ensures |Encode(s)| == |s| + Pairs(s) && IsString(LastUnits(s, n))
    ensures Decodes(Encode(s)[|Encode(s)| - n..], LastUnits(s, n))
    decreases |s|
  {
    hide Encode, EncodeChar, IsChar, IsLow;
    EncodeLength(s);
    var w := Encode(s);
    if |w| == n {
      assert w[0..] == w;
    } else {
      EncodeFirst(s);
      EncodeLength(s[1..]);
      if s[0].Pair? && |w| == n + 1 {
        assert w[1..] == [s[0].low] + Encode(s[1..]);
        var t := [REPLACEMENT] + s[1..];
        assert t[1..] == s[1..];
        assert w[1..][1..] == Encode(t[1..]);
      } else {
        SuffixDecodes(s[1..], n);
        assert w[|w| - n..] == Encode(s[1..])[|Encode(s[1..])| - n..];
      }
    }
  }

  lemma EncodeFirst(s: seq<Char>)
    requires IsString(s) && s != []
    ensures IsString(s[1..]) && IsChar(REPLACEMENT)
    ensures match s[0]
            case Plain(u) => Encode(s) == [u] + Encode(s[1..])
            case Pair(high, low) => IsLow(low) && Encode(s) == [high, low] + Encode(s[1..])
  {
    assert s[0] in s && forall c :: c in s[1..] ==> c in s;
  }

  /** Decoding such code units and their terminator. */
  lemma DecodePart(w: seq<u16>, s: seq<Char>, rest: seq<u16>)
    requires IsString(s) && Decodes(w, s)
    ensures Decode(w + [0] + rest) == s + [NUL] + Decode(rest) && |w| == |s| + Pairs(s)
  {
    hide Decode, Encode, Decodes, IsString, Pairs, IsLow;
    EncodeLength(s);
    if w == Encode(s) {
      DecodeInvertsEncode(s, rest);
    } else {
      LonePart(w, s);
      DecodeInvertsEncode(s[1..], rest);
      var tail := Encode(s[1..]) + [0] + rest;
      assert w + [0] + rest == [w[0]] + tail;
      DecodeLow(w[0], tail);
      var end := Decode(rest);
      assert [REPLACEMENT] + (s[1..] + [NUL] + end) == ([REPLACEMENT] + s[1..]) + [NUL] + end;
    }
  }

  lemma DecodeLow(low: u16, rest: seq<u16>)
    requires IsLow(low)
    ensures Decode([low] + rest) == [REPLACEMENT] + Decode(rest)
  {
    assert ([low] + rest)[1..] == rest;
  }

  /** A part that starts with the second half of a pair. */
  lemma LonePart(w: seq<u16>, s: seq<Char>)
    requires Decodes(w, s) && w != Encode(s) && IsString(s)
    ensures s != [] && s == [REPLACEMENT] + s[1..] && w != [] && IsLow(w[0])
    ensures IsString(s[1..]) && w == [w[0]] + Encode(s[1..]) && |w| == |s| + Pairs(s)
  {
    hide Encode, Pairs, IsLow;
    assert forall c :: c in s[1..] ==> c in s;
    EncodeLength(s[1..]);
    PairsBehind(s);
    assert w == [w[0]] + w[1..];
  }

  lemma PairsBehind(s: seq<Char>)
    requires s != [] && s[0] == REPLACEMENT
    ensures Pairs(s) == Pairs(s[1..]) && s == [REPLACEMENT] + s[1..]
  {
  }

  /** The code units behind what one turn of the loop reads: the next string, or the end of this one. */
  lemma AfterPart(w: seq<u16>, s: seq<Char>, rest: seq<u16>)
    requires IsString(s) && Decodes(w, s) && !IsBlank(s)
    ensures var u := w + [0] + rest;
            && Pairs(s) <= |s| && |w| == |s| + Pairs(s)
            && Strings(u) == [s] + Strings(u[|s| + 1..])
            && u[|s| + 1..] == if Pairs(s) == 0 then rest else w[|w| - (Pairs(s) - 1)..] + [0] + rest
  {
    hide *;
    DecodePart(w, s, rest);
    PairsAreFew(s);
    ReadUnits(w + [0] + rest, s, Decode(rest));
    UnitsBehind(w, |s|, Pairs(s), rest);
  }

  /** One turn of the loop, on code units that decode to a string, its terminator and more. */
  lemma ReadUnits(u: seq<u16>, s: seq<Char>, more: seq<Char>)
    requires IsString(s) && !IsBlank(s) && Decode(u) == s + [NUL] + more && |s| + 1 <= |u|
    ensures Strings(u) == [s] + Strings(u[|s| + 1..])
  {
    hide *;
    UpToNulIs(s, more);
    StringsStep(u);
  }

  lemma UnitsBehind(w: seq<u16>, n: nat, pairs: nat, rest: seq<u16>)
    requires |w| == n + pairs && pairs <= n
    ensures (w + [0] + rest)[n + 1..] == if pairs == 0 then rest else w[|w| - (pairs - 1)..] + [0] + rest
  {
  }

  lemma {:induction false} PairsAreFew(s: seq<Char>)
    ensures Pairs(s) <= |s|
    decreases |s|
  {
    if s != [] { PairsAreFew(s[1..]); }
  }

  /** The last code units of such a part are those of the string's encoding. */
  lemma SameEnd(w: seq<u16>, s: seq<Char>, n: nat)
    requires Decodes(w, s) && n < |s| + Pairs(s)
    ensures |w| == |Encode(s)| == |s| + Pairs(s) && w[|w| - n..] == Encode(s)[|Encode(s)| - n..]
  {
    EncodeLength(s);
    if w != Encode(s) {
      EncodeLength(s[1..]);
      assert Encode(s) == [0xfffd] + Encode(s[1..]) && w == [w[0]] + w[1..];
    }
  }

  /** Everything read from a string and what follows it, for any number of surrogate pairs. */
  lemma {:induction false} StringsOfPart(w: seq<u16>, s: seq<Char>, rest: seq<u16>)
    requires IsString(s) && Decodes(w, s)
    ensures var r := ReadsOf(s);
            Strings(w + [0] + rest) == r.strings + if r.goesOn then Strings(rest) else []
    decreases |s| + Pairs(s)
  {
    hide Strings, IsBlank, Decodes, Decode, LastUnits, IsString, Encode;
    var u := w + [0] + rest;
    if IsBlank(s) {
      DecodePart(w, s, rest);
      UpToNulIs(s, Decode(rest));
      StringsStep(u);
    } else {
      AfterPart(w, s, rest);
      if Pairs(s) > 0 {
        var n := Pairs(s) - 1;
        PairsAreFew(s);
        SameEnd(w, s, n);
        SuffixDecodes(s, n);
        LastUnitsLength(s, n);
        StringsOfPart(w[|w| - n..], LastUnits(s, n), rest);
        var more := ReadsOf(LastUnits(s, n));
        assert forall t: seq<seq<Char>> :: [s] + (more.strings + t) == ([s] + more.strings) + t;
      }
    }
  }

  ghost predicate IsList(l: seq<seq<Char>>) {
    forall i :: 0 <= i < |l| ==> IsString(l[i])
  }

  /** What is read back from any encoded list of strings without NULs. */
  lemma {:induction false} StringsOfList(l: seq<seq<Char>>)
    requires IsList(l)
    ensures Strings(EncodeList(l)) == ReadsOfAll(l)
    decreases |l|
  {
    hide Strings, ReadsOf, IsString, Encode;
    if l == [] {
      EndOfStrings([]);
      assert [0] + [] == [0 as u16];
    } else {
      StringsOfList(l[1..]);
      StringsOfPart(Encode(l[0]), l[0], EncodeList(l[1..])) by { assert Decodes(Encode(l[0]), l[0]); }
    }
  }

  // ----- When a list comes back whole -----

  /** No string is blank; and none has a surrogate pair, or the first that has is read as itself and all strings behind
      it, where reading then ends. */
  ghost predicate ComesBack(l: seq<seq<Char>>)
    decreases |l|
  {
    || l == []
    || (!IsBlank(l[0]) && if Pairs(l[0]) == 0 then ComesBack(l[1..]) else ReadsOf(l[0]) == Reads(l, false))
  }

  ghost predicate GoesOn(s: seq<Char>) {
    ReadsOf(s).goesOn
  }

  /** A string behind which reading goes on yields at least itself, and only such strings. */
  lemma {:induction false} YieldsGoOn(s: seq<Char>)
    requires GoesOn(s)
    ensures ReadsOf(s).strings != [] && forall t :: t in ReadsOf(s).strings ==> GoesOn(t)
    decreases |s| + Pairs(s)
  {
    hide IsBlank, LastUnits, Pairs;
    if Pairs(s) > 0 {
      LastUnitsLength(s, Pairs(s) - 1);
      YieldsGoOn(LastUnits(s, Pairs(s) - 1));
    }
  }

  lemma {:induction false} AllGoOn(e: seq<seq<Char>>, a: seq<seq<Char>>)
    requires e != [] && forall s :: s in e ==> GoesOn(s)
    ensures ReadsOfAll(e) != [] && forall t :: t in ReadsOfAll(e) ==> GoesOn(t)
    ensures ReadsOfAll(e + a) == ReadsOfAll(e) + ReadsOfAll(a)
    decreases |e|
  {
    hide ReadsOf;
    assert e[0] in e && (e + a)[0] == e[0] && (e + a)[1..] == e[1..] + a;
    YieldsGoOn(e[0]);
    if |e| == 1 {
      assert e[1..] == [] && [] + a == a;
    } else {
      assert forall s :: s in e[1..] ==> s in e;
      AllGoOn(e[1..], a);
      assert ReadsOf(e[0]).strings + (ReadsOfAll(e[1..]) + ReadsOfAll(a)) == ReadsOfAll(e) + ReadsOfAll(a);
    }
  }

  /** Extra strings that reading goes on behind can not be made up for later. */
  lemma {:induction false} NeverWhole(e: seq<seq<Char>>, rest: seq<seq<Char>>)
    requires e != [] && forall s :: s in e ==> GoesOn(s)
    ensures rest != e + ReadsOfAll(rest)
    decreases |rest|
  {
    hide ReadsOfAll, GoesOn;
    var a := ReadsOfAll(rest);
    if |e| <= |rest| && rest[..|e|] == e {
      AllGoOn(e, rest[|e|..]);
      assert rest == e + rest[|e|..];
      NeverWhole(ReadsOfAll(e), rest[|e|..]);
    }
  }

  lemma {:induction false} ReadsWhole(l: seq<seq<Char>>)
    ensures ReadsOfAll(l) == l <==> ComesBack(l)
    decreases |l|
  {
    hide IsBlank, Pairs, LastUnits;
    if l != [] {
      var s, rest := l[0], l[1..];
      assert l == [s] + rest;
      ReadsWhole(rest);
      var r := ReadsOf(s);
      if !IsBlank(s) && Pairs(s) > 0 && r.goesOn {
        LastUnitsLength(s, Pairs(s) - 1);
        var more := ReadsOf(LastUnits(s, Pairs(s) - 1));
        YieldsGoOn(LastUnits(s, Pairs(s) - 1));
        NeverWhole(more.strings, rest);
        assert ReadsOfAll(l) == [s] + (more.strings + ReadsOfAll(rest));
      }
    }
  }

  /** Written as bytes and read back, a list of strings without NULs comes back whole if and only if it meets the
      condition, whatever surrogate pairs it holds. */
  lemma ListRoundTrip(l: seq<seq<Char>>)
    requires IsList(l)
    ensures Strings(Units(ToBytes(EncodeList(l)))) == l <==> ComesBack(l)
  {
    hide Strings, Units, ToBytes, EncodeList, ReadsOfAll, ComesBack;
    UnitsOfBytes(EncodeList(l));
    StringsOfList(l);
    ReadsWhole(l);
  }

  /** With no surrogate pairs and no blank string a list always comes back; with at most one pair to a string, if and only
      if no string but the last has one. */
  lemma {:induction false} FewPairs(l: seq<seq<Char>>)
    requires forall i :: 0 <= i < |l| ==> !IsBlank(l[i]) && Pairs(l[i]) <= 1
    ensures ComesBack(l) <==> forall i :: 0 <= i < |l| - 1 ==> Pairs(l[i]) == 0
    decreases |l|
  {
    hide Pairs, ReadsOf, IsBlank;
    if l != [] {
      FewPairs(l[1..]);
      assert forall i :: 1 <= i < |l| ==> l[i] == l[1..][i - 1];
      if Pairs(l[0]) == 1 { OnePair(l[0]); }
    }
  }

  lemma OnePair(s: seq<Char>)
    requires !IsBlank(s) && Pairs(s) == 1
    ensures ReadsOf(s) == Reads([s], false)
  {
    hide Pairs;
    LastUnitsLength(s, 0);
    assert LastUnits(s, 0) == [];
    assert ReadsOf([]) == Reads([], false);
    assert [s] + [] == [s];
  }

  // U+1F600.
  const SMILE: Char := Pair(0xd83d, 0xde00)
  const X: Char := Plain(0x78)

  /** The second of these two strings is lost. */
  lemma LostString()
    ensures Strings(EncodeList([[SMILE], [X]])) == [[SMILE]]
  {
    var l := [[SMILE], [X]];
    assert SMILE in l[0] && X in l[1];
    OnePair(l[0]);
    StringsOfList(l);
  }

  /** A string of one space ends the list. */
  lemma BlankString()
    ensures Strings(EncodeList([[X], [Plain(0x20)], [X]])) == [[X]]
  {
    var space := [Plain(0x20)];
    var l := [[X], space, [X]];
    assert !IsBlank([X]) by { assert X in [X]; }
    assert IsBlank(space);
    assert Pairs([X]) == 0 by { assert [X][1..] == []; }
    hide Strings, EncodeList, IsBlank, Pairs;
    assert l[1..] == [space, [X]] && l[1..][0] == space;
    assert ReadsOfAll(l[1..]) == [];
    assert ReadsOfAll(l) == [[X]];
    StringsOfList(l);
  }

  /** One string is read as two: the last code unit of it comes again. */
  lemma ExtraString()
    ensures Strings(EncodeList([[SMILE, SMILE, X]])) == [[SMILE, SMILE, X], [X]]
  {
    var s := [SMILE, SMILE, X];
    assert SMILE in s && X in [X];
    assert s[1..] == [SMILE, X] && [SMILE, X][1..] == [X] && [X][1..] == [];
    assert Pairs([X]) == 0 && Pairs([SMILE, X]) == 1 && Pairs(s) == 2;
    assert LastUnits([X], 1) == [X] && LastUnits([SMILE, X], 1) == [X] && LastUnits(s, 1) == [X];
    assert ReadsOf(s) == Reads([s, [X]], true);
    assert [s][1..] == [] && ReadsOfAll([]) == [];
    StringsOfList([s]);
  }

  /** A list that comes back whole by chance: the second string is what is read behind the first. */
  lemma ByChance()
    ensures Strings(EncodeList([[SMILE, SMILE, SMILE], [SMILE]])) == [[SMILE, SMILE, SMILE], [SMILE]]
  {
    var s := [SMILE, SMILE, SMILE];
    var l := [s, [SMILE]];
    assert SMILE in s && SMILE in [SMILE];
    assert s[1..] == [SMILE, SMILE] && [SMILE, SMILE][1..] == [SMILE] && [SMILE][1..] == [];
    assert Pairs([SMILE]) == 1 && Pairs([SMILE, SMILE]) == 2 && Pairs(s) == 3;
    assert LastUnits([SMILE], 2) == [SMILE] && LastUnits([SMILE, SMILE], 2) == [SMILE] && LastUnits(s, 2) == [SMILE];
    OnePair([SMILE]);
    assert ReadsOf(s) == Reads(l, false);
    StringsOfList(l);
  }
}
