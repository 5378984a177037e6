/** Little-endian reads and writes over byte sequences, as the parsers of the hive format use them. */
module Bytes {
  type byte = bv8
  type u32 = bv32
  type u64 = bv64

  /** Where the hive bins start in a file: behind the base block. */
  const HIVE_BINS_START := 4096

  /** Exclusive or, under a name so that proofs can treat it as a symbol. */
  function Xor(x: u32, y: u32): u32 {
    x ^ y
  }

  lemma XorLaws(x: u32, y: u32, z: u32)
    ensures Xor(Xor(x, y), z) == Xor(x, Xor(y, z))
    ensures Xor(x, 0) == x && Xor(0, x) == x
  {
  }

  lemma XorCommutes(x: u32, y: u32)
    ensures Xor(x, y) == Xor(y, x)
  {
  }

  lemma XorSelf(x: u32)
    ensures Xor(x, x) == 0
  {
  }

  /** The word whose bytes are `b0` (least significant) to `b3`. */
  function Word(b0: byte, b1: byte, b2: byte, b3: byte): u32 {
    b0 as u32 | (b1 as u32 << 8) | (b2 as u32 << 16) | (b3 as u32 << 24)
  }

  // The bytes of a word, least significant first.
  function Byte0(x: u32): byte { (x & 0xff) as byte }
  function Byte1(x: u32): byte { ((x >> 8) & 0xff) as byte }
  function Byte2(x: u32): byte { ((x >> 16) & 0xff) as byte }
  function Byte3(x: u32): byte { (x >> 24) as byte }

  lemma WordBytes(b0: byte, b1: byte, b2: byte, b3: byte)
    ensures var x := Word(b0, b1, b2, b3);
            Byte0(x) == b0 && Byte1(x) == b1 && Byte2(x) == b2 && Byte3(x) == b3
  {
  }

  lemma WordOfBytes(x: u32)
    ensures Word(Byte0(x), Byte1(x), Byte2(x), Byte3(x)) == x
  {
  }

  /** The little-endian 32-bit word that starts at index `i`. */
  function U32(b: seq<byte>, i: nat): u32
    requires i + 4 <= |b|
  {
    Word(b[i], b[i + 1], b[i + 2], b[i + 3])
  }

  /** A 64-bit word from its two halves. */
  function Join(lo: u32, hi: u32): u64 {
    lo as u64 | (hi as u64 << 32)
  }

  /** The little-endian 64-bit word that starts at index `i`. */
  function U64(b: seq<byte>, i: nat): u64
    requires i + 8 <= |b|
  {
    Join(U32(b, i), U32(b, i + 4))
  }

  /** The four bytes of `x`, least significant first. */
  function Le32(x: u32): (b: seq<byte>)
    ensures |b| == 4
    ensures U32(b, 0) == x
  {
    WordOfBytes(x);
    [Byte0(x), Byte1(x), Byte2(x), Byte3(x)]
  }

  /** Two inputs that share their first `n` bytes share every slice and every word within them. */
  lemma SharedPrefix(b: seq<byte>, c: seq<byte>, n: nat, i: nat, j: nat)
    requires n <= |b| && n <= |c| && b[..n] == c[..n]
    requires i <= j <= n
    ensures b[i..j] == c[i..j]
    ensures j == i + 4 ==> U32(b, i) == U32(c, i)
    ensures j == i + 8 ==> U64(b, i) == U64(c, i)
  {
    hide Word, Join;
    assert b[i..j] == b[..n][i..j] == c[..n][i..j] == c[i..j];
    assert forall k :: i <= k < j ==> b[k] == b[i..j][k - i] && c[k] == c[i..j][k - i];
  }

  /** A 32-bit word determines its four bytes. */
  lemma U32Injective(b: seq<byte>, c: seq<byte>, i: nat)
    requires i + 4 <= |b| && i + 4 <= |c|
    requires U32(b, i) == U32(c, i)
    ensures b[i..i + 4] == c[i..i + 4]
  {
    WordBytes(b[i], b[i + 1], b[i + 2], b[i + 3]);
    WordBytes(c[i], c[i + 1], c[i + 2], c[i + 3]);
    hide Word, Byte0, Byte1, Byte2, Byte3;
    assert b[i] == c[i] && b[i + 1] == c[i + 1] && b[i + 2] == c[i + 2] && b[i + 3] == c[i + 3];
  }

  /** A 64-bit word determines its eight bytes. */
  lemma U64Injective(b: seq<byte>, c: seq<byte>, i: nat)
    requires i + 8 <= |b| && i + 8 <= |c|
    requires U64(b, i) == U64(c, i)
    ensures b[i..i + 8] == c[i..i + 8]
  {
    hide Word, Join;
    JoinInjective(U32(b, i), U32(b, i + 4), U32(c, i), U32(c, i + 4));
    U32Injective(b, c, i);
    U32Injective(b, c, i + 4);
    assert b[i..i + 8] == b[i..i + 4] + b[i + 4..i + 8];
    assert c[i..i + 8] == c[i..i + 4] + c[i + 4..i + 8];
  }

  lemma JoinHalves(lo: u32, hi: u32)
    ensures Low(Join(lo, hi)) == lo && High(Join(lo, hi)) == hi
  {
  }

  lemma JoinInjective(lo: u32, hi: u32, lo': u32, hi': u32)
    requires Join(lo, hi) == Join(lo', hi')
    ensures lo == lo' && hi == hi'
  {
    hide Join, Low, High;
    JoinHalves(lo, hi);
    JoinHalves(lo', hi');
  }

  /** `i32::unsigned_abs` of the signed 32-bit number with these bits. */
  function Abs(x: u32): nat {
    NatRange(x);
    if x & 0x80000000 == 0 then Nat(x) else 0x1_0000_0000 - Nat(x)
  }

  /** The 16-bit value whose bytes are `b0` (least significant) and `b1`. */
  function Half(b0: byte, b1: byte): nat {
    (b0 as bv16 | (b1 as bv16 << 8)) as nat
  }

  function Word16(b: seq<byte>, i: nat): nat
    requires i + 2 <= |b|
  {
    Half(b[i], b[i + 1])
  }

  function Zeros(n: nat): (z: seq<byte>)
    ensures |z| == n && forall i :: 0 <= i < n ==> z[i] == 0
  {
    seq(n, _ => 0)
  }

  // ----- What a buffer holds -----

  /** The bytes `s` stand in `b` from `at` on. */
  ghost predicate Holds(b: seq<byte>, at: nat, s: seq<byte>) {
    at + |s| <= |b| && b[at..at + |s|] == s
  }

  lemma HoldsBoth(b: seq<byte>, at: nat, s: seq<byte>, t: seq<byte>)
    ensures Holds(b, at, s + t) <==> Holds(b, at, s) && Holds(b, at + |s|, t)
  {
    if at + |s| + |t| <= |b| {
      assert b[at..at + |s + t|] == b[at..at + |s|] + b[at + |s|..at + |s| + |t|];
      if b[at..at + |s + t|] == s + t {
        assert b[at..at + |s|] == (s + t)[..|s|] && b[at + |s|..at + |s| + |t|] == (s + t)[|s|..];
      }
    }
  }

  /** What stands at the front of a buffer. */
  lemma HoldsFront(s: seq<byte>, rest: seq<byte>)
    ensures Holds(s + rest, 0, s) && Holds(s + rest, |s|, rest)
  {
  }

  lemma HoldsWord(b: seq<byte>, at: nat, x: u32)
    requires Holds(b, at, Le32(x))
    ensures at + 4 <= |b| && U32(b, at) == x
  {
    hide Le32, Word;
    var s := Le32(x);
    assert s[0] == b[at] && s[1] == b[at + 1] && s[2] == b[at + 2] && s[3] == b[at + 3];
  }

  /** The eight bytes of `x`, least significant first. */
  function Le64(x: u64): (b: seq<byte>)
    ensures |b| == 8
  {
    Le32(Low(x)) + Le32(High(x))
  }

  function Low(x: u64): u32 { (x & 0xffffffff) as u32 }
  function High(x: u64): u32 { (x >> 32) as u32 }

  lemma JoinOfHalves(x: u64)
    ensures Join(Low(x), High(x)) == x
  {
  }

  lemma HoldsLong(b: seq<byte>, at: nat, x: u64)
    requires Holds(b, at, Le64(x))
    ensures at + 8 <= |b| && U64(b, at) == x
  {
    hide Le32, U32, Join, Low, High;
    HoldsBoth(b, at, Le32(Low(x)), Le32(High(x)));
    HoldsWord(b, at, Low(x));
    HoldsWord(b, at + 4, High(x));
    JoinOfHalves(x);
  }

  /** What is read at a place stands there. */
  lemma HoldsRead(b: seq<byte>, at: nat)
    requires at + 4 <= |b|
    ensures Holds(b, at, Le32(U32(b, at)))
  {
    hide Word, Byte0, Byte1, Byte2, Byte3;
    WordBytes(b[at], b[at + 1], b[at + 2], b[at + 3]);
  }

  lemma HoldsReadLong(b: seq<byte>, at: nat)
    requires at + 8 <= |b|
    ensures Holds(b, at, Le64(U64(b, at)))
  {
    hide Le32, U32, Join, Low, High, Holds;
    JoinHalves(U32(b, at), U32(b, at + 4));
    HoldsRead(b, at);
    HoldsRead(b, at + 4);
    HoldsBoth(b, at, Le32(U32(b, at)), Le32(U32(b, at + 4)));
  }

  lemma HoldsSlice(b: seq<byte>, i: nat, j: nat)
    requires i <= j <= |b|
    ensures Holds(b, i, b[i..j])
  {
  }

  /** Long words are little-endian, too. */
  lemma KnownLong()
    ensures U64([0xef, 0xcd, 0xab, 0x89, 0x67, 0x45, 0x23, 0x01], 0) == 0x0123456789abcdef
  {
  }

  // ----- Words and bytes as numbers -----

  /** A 32-bit field as a number. */
  function Nat(x: u32): nat {
    x as nat
  }

  /** A byte as a number. */
  function Digit(b: byte): nat {
    b as nat
  }

  lemma DigitRange(b: byte)
    ensures Digit(b) < 256
  {
  }

  lemma DigitNext(b: byte)
    ensures b != 0xff ==> Digit(b + 1) == Digit(b) + 1
    ensures Digit(0xff) == 255 && Digit(0) == 0
  {
  }

  lemma DigitInjective(a: byte, b: byte)
    requires Digit(a) == Digit(b)
    ensures a == b
  {
  }

  lemma NumberOfBytes(b0: bv8, b1: bv8, b2: bv8, b3: bv8)
    ensures (b0 as bv32 | (b1 as bv32 << 8) | (b2 as bv32 << 16) | (b3 as bv32 << 24)) as nat ==
            b0 as nat + 0x100 * (b1 as nat) + 0x10000 * (b2 as nat) + 0x1000000 * (b3 as nat)
  {
  }

  /** Words are little-endian. */
  lemma WordIsNumber(b0: byte, b1: byte, b2: byte, b3: byte)
    ensures Nat(Word(b0, b1, b2, b3)) == Digit(b0) + 0x100 * Digit(b1) + 0x10000 * Digit(b2) + 0x1000000 * Digit(b3)
  {
    NumberOfBytes(b0, b1, b2, b3);
  }

  /** So are half words. */
  lemma HalfIsNumber(b0: byte, b1: byte)
    ensures Half(b0, b1) == Digit(b0) + 0x100 * Digit(b1)
  {
  }

  /** Addition of one, which wraps around. */
  function Plus1(x: u32): u32 {
    x + 1
  }

  lemma Carry0(a: byte, b: byte, c: byte, d: byte)
    requires a != 0xff
    ensures Plus1(Word(a, b, c, d)) == Word(a + 1, b, c, d)
  {
  }

  lemma Carry1(b: byte, c: byte, d: byte)
    requires b != 0xff
    ensures Plus1(Word(0xff, b, c, d)) == Word(0, b + 1, c, d)
  {
  }

  lemma Carry2(c: byte, d: byte)
    requires c != 0xff
    ensures Plus1(Word(0xff, 0xff, c, d)) == Word(0, 0, c + 1, d)
  {
  }

  lemma Carry3(d: byte)
    ensures Plus1(Word(0xff, 0xff, 0xff, d)) == Word(0, 0, 0, d + 1)
  {
  }

  lemma NextNumber(x: u32)
    ensures Nat(Plus1(x)) == (Nat(x) + 1) % 0x1_0000_0000
  {
    hide Word, Byte0, Byte1, Byte2, Byte3, Nat, Plus1, Digit;
    var a, b, c, d := Byte0(x), Byte1(x), Byte2(x), Byte3(x);
    WordOfBytes(x);
    WordIsNumber(a, b, c, d);
    DigitRange(a); DigitRange(b); DigitRange(c); DigitRange(d);
    DigitNext(a); DigitNext(b); DigitNext(c); DigitNext(d);
    if a != 0xff {
      Carry0(a, b, c, d);
      WordIsNumber(a + 1, b, c, d);
      DigitRange(a + 1);
    } else if b != 0xff {
      Carry1(b, c, d);
      WordIsNumber(0, b + 1, c, d);
      DigitRange(b + 1);
    } else if c != 0xff {
      Carry2(c, d);
      WordIsNumber(0, 0, c + 1, d);
      DigitRange(c + 1);
    } else {
      Carry3(d);
      WordIsNumber(0, 0, 0, d + 1);
      if d != 0xff { DigitRange(d + 1); } else { assert d + 1 == 0; }
    }
  }

  /** Different words are different numbers. */
  lemma NatInjective(x: u32, y: u32)
    requires Nat(x) == Nat(y)
    ensures x == y
  {
    hide Word, Byte0, Byte1, Byte2, Byte3, Nat, Digit;
    WordOfBytes(x);
    WordOfBytes(y);
    var a, b, c, d := Byte0(x), Byte1(x), Byte2(x), Byte3(x);
    var e, f, g, h := Byte0(y), Byte1(y), Byte2(y), Byte3(y);
    WordIsNumber(a, b, c, d);
    WordIsNumber(e, f, g, h);
    DigitRange(a); DigitRange(b); DigitRange(c); DigitRange(d);
    DigitRange(e); DigitRange(f); DigitRange(g); DigitRange(h);
    SameDigits(Digit(a), Digit(b), Digit(c), Digit(d), Digit(e), Digit(f), Digit(g), Digit(h));
    DigitInjective(a, e);
    DigitInjective(b, f);
    DigitInjective(c, g);
    DigitInjective(d, h);
  }

  lemma SameDigits(a: nat, b: nat, c: nat, d: nat, e: nat, f: nat, g: nat, h: nat)
    requires a < 256 && b < 256 && c < 256 && d < 256 && e < 256 && f < 256 && g < 256 && h < 256
    requires a + 0x100 * b + 0x10000 * c + 0x1000000 * d == e + 0x100 * f + 0x10000 * g + 0x1000000 * h
    ensures a == e && b == f && c == g && d == h
  {
    SameDigit(a, b + 0x100 * c + 0x10000 * d, e, f + 0x100 * g + 0x10000 * h);
    SameDigit(b, c + 0x100 * d, f, g + 0x100 * h);
    SameDigit(c, d, g, h);
  }

  lemma SameDigit(a: nat, q: nat, b: nat, r: nat)
    requires a < 256 && b < 256 && a + 0x100 * q == b + 0x100 * r
    ensures a == b && q == r
  {
  }

  lemma NatRange(x: u32)
    ensures Nat(x) < 0x1_0000_0000
  {
  }

  // ----- Signed sizes -----

  /** The sign of a size field is the top bit of its last byte. */
  lemma SignOfBytes(b0: byte, b1: byte, b2: byte, b3: byte)
    ensures Word(b0, b1, b2, b3) & 0x80000000 == 0 <==> b3 < 0x80
  {
  }

  /** The size of a cell: its field as it is, or, with the top bit set, the field's complement to two to the 32. */
  lemma AbsIsNumber(b0: byte, b1: byte, b2: byte, b3: byte)
    ensures var x := Word(b0, b1, b2, b3);
            Abs(x) == if b3 < 0x80 then Nat(x) else 0x1_0000_0000 - Nat(x)
  {
    SignOfBytes(b0, b1, b2, b3);
    hide Word, Nat;
  }

  lemma TopDigit(b: byte)
    ensures b >= 0x80 <==> Digit(b) >= 128
  {
  }

  /** A cell's size: its size field without the sign. */
  function SizeNumber(size: u32): nat {
    NatRange(size);
    if Byte3(size) < 0x80 then Nat(size) else 0x1_0000_0000 - Nat(size)
  }

  lemma SizeIsAbs(x: u32)
    ensures Abs(x) == SizeNumber(x)
    ensures x & 0x80000000 == 0 <==> Byte3(x) < 0x80
  {
    hide Nat;
  }

  /** Clearing the top bit. */
  lemma TopBitOff(b0: byte, b1: byte, b2: byte, b3: byte)
    ensures Word(b0, b1, b2, b3) ^ 0x80000000 == Word(b0, b1, b2, b3 ^ 0x80)
  {
  }

  lemma TopBitOfByte(b: byte)
    requires b >= 0x80
    ensures Digit(b ^ 0x80) == Digit(b) - 128
  {
  }

  lemma WithoutTopBit(x: u32)
    requires Byte3(x) >= 0x80
    ensures Nat(x ^ 0x80000000) == Nat(x) - 0x8000_0000
  {
    hide Word, Byte0, Byte1, Byte2, Byte3, Nat, Digit;
    var b0, b1, b2, b3 := Byte0(x), Byte1(x), Byte2(x), Byte3(x);
    WordOfBytes(x);
    WordIsNumber(b0, b1, b2, b3);
    TopBitOff(b0, b1, b2, b3);
    WordIsNumber(b0, b1, b2, b3 ^ 0x80);
    TopBitOfByte(b3);
  }

  // ----- Lists of words -----

  function LeWords(ws: seq<u32>): (b: seq<byte>)
    ensures |b| == 4 * |ws|
  {
    if ws == [] then [] else Le32(ws[0]) + LeWords(ws[1..])
  }

  lemma {:induction false} HoldsWords(b: seq<byte>, at: nat, ws: seq<u32>, i: nat)
    requires Holds(b, at, LeWords(ws)) && i < |ws|
    ensures at + 4 * i + 4 <= |b| && U32(b, at + 4 * i) == ws[i]
    decreases ws
  {
    hide Le32, U32, Holds;
    HoldsBoth(b, at, Le32(ws[0]), LeWords(ws[1..]));
    if i == 0 { HoldsWord(b, at, ws[0]); } else { HoldsWords(b, at + 4, ws[1..], i - 1); }
  }
}
