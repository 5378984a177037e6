/**
  * The Marvin32 hash that protects transaction-log entries, in its Rust form and in the four C++ forms kept
  * beside it, and the error-detection law that log recovery rests on.
  */
module Marvin32 {
  import opened Bytes

  datatype State = State(s0: u32, s1: u32)

  /** The mixing step of the Rust and C++ macros, as its two rounds of xor, rotate, add, rotate. */
  function Block(s: State): State {
    RoundB(RoundA(s))
  }

  function RoundA(s: State): State {
    var b := Xor(s.s1, s.s0);
    State(Plus(Rol20(s.s0), b), Rol9(b))
  }

  function RoundB(s: State): State {
    var b := Xor(s.s1, s.s0);
    State(Plus(Rol27(s.s0), b), Rol19(b))
  }

  // The word operations under names, so that the proofs below can treat them as symbols.

  function Plus(x: u32, y: u32): u32 { x + y }
  function Minus(x: u32, y: u32): u32 { x - y }
  function Rol9(x: u32): u32 { x.RotateLeft(9) }
  function Ror9(x: u32): u32 { x.RotateRight(9) }
  function Rol19(x: u32): u32 { x.RotateLeft(19) }
  function Ror19(x: u32): u32 { x.RotateRight(19) }
  function Rol20(x: u32): u32 { x.RotateLeft(20) }
  function Ror20(x: u32): u32 { x.RotateRight(20) }
  function Rol27(x: u32): u32 { x.RotateLeft(27) }
  function Ror27(x: u32): u32 { x.RotateRight(27) }

  lemma PlusUnfolds(x: u32, y: u32)
    ensures Plus(x, y) == x + y
  {
  }

  lemma MinusUndoes(x: u32, y: u32)
    ensures Minus(x + y, y) == x && Minus(x + y, x) == y
  {
  }

  lemma PlusCancels(x: u32, y: u32)
    ensures Minus(Plus(x, y), y) == x && Minus(Plus(x, y), x) == y
  {
    hide Plus, Minus;
    PlusUnfolds(x, y);
    MinusUndoes(x, y);
  }

  lemma XorCancels(x: u32, y: u32)
    ensures Xor(Xor(x, y), y) == x
  {
  }

  lemma RotationsCancel(x: u32)
    ensures Ror9(Rol9(x)) == x && Ror19(Rol19(x)) == x
    ensures Ror20(Rol20(x)) == x && Ror27(Rol27(x)) == x
  {
  }

  /** Undoes `Block`. */
  function UnBlock(s: State): State {
    UnRoundA(UnRoundB(s))
  }

  function UnRoundA(s: State): State {
    var b := Ror9(s.s1);
    var a := Ror20(Minus(s.s0, b));
    State(a, Xor(b, a))
  }

  function UnRoundB(s: State): State {
    var b := Ror19(s.s1);
    var a := Ror27(Minus(s.s0, b));
    State(a, Xor(b, a))
  }

  lemma RoundsInvertible(s: State)
    ensures UnRoundA(RoundA(s)) == s
    ensures UnRoundB(RoundB(s)) == s
  {
    hide Plus, Minus, Xor, Rol9, Ror9, Rol19, Ror19, Rol20, Ror20, Rol27, Ror27;
    var b := Xor(s.s1, s.s0);
    RotationsCancel(s.s0);
    RotationsCancel(b);
    PlusCancels(Rol20(s.s0), b);
    PlusCancels(Rol27(s.s0), b);
    XorCancels(s.s1, s.s0);
  }

  /** `Block` loses nothing: the state before it can be computed from the state after it. */
  lemma BlockInvertible(s: State)
    ensures UnBlock(Block(s)) == s
  {
    hide RoundA, RoundB, UnRoundA, UnRoundB;
    RoundsInvertible(s);
    RoundsInvertible(RoundA(s));
  }

  /** Adds one word to the first half of the state. */
  function Feed(s: State, word: u32): State {
    State(Plus(s.s0, word), s.s1)
  }

  lemma FeedInjective(s: State, w: u32, s': State, w': u32)
    requires Feed(s, w) == Feed(s', w')
    ensures s == s' <==> w == w'
  {
    hide Plus, Minus;
    PlusCancels(s.s0, w);
    PlusCancels(s'.s0, w');
  }

  /** The last word: the zero to three bytes left over, closed by a 0x80 byte. */
  function Pad(tail: seq<byte>): u32
    requires |tail| < 4
  {
    match |tail|
    case 0 => 0x80
    case 1 => Word(tail[0], 0x80, 0, 0)
    case 2 => Word(tail[0], tail[1], 0x80, 0)
    case _ => Word(tail[0], tail[1], tail[2], 0x80)
  }

  /** The hash as a recursion over the data, four bytes at a time. */
  function Absorb(s: State, data: seq<byte>): State
    decreases |data|
  {
    if |data| < 4 then Block(Block(Feed(s, Pad(data))))
    else Absorb(Block(Feed(s, U32(data, 0))), data[4..])
  }

  function Init(seed: u64): State {
    State((seed & 0xffffffff) as u32, (seed >> 32) as u32)
  }

  function Digest(s: State): u64 {
    Join(s.s0, s.s1)
  }

  function Marvin(seed: u64, data: seq<byte>): u64 {
    Digest(Absorb(Init(seed), data))
  }

  lemma AbsorbWord(s: State, data: seq<byte>, i: nat, end: nat)
    requires i + 4 <= end <= |data|
    ensures Absorb(s, data[i..end]) == Absorb(Block(Feed(s, U32(data, i))), data[i + 4..end])
  {
    hide Block, Feed, Word;
    assert data[i..end][4..] == data[i + 4..end];
    assert U32(data[i..end], 0) == U32(data, i);
  }

  // ----- Error detection -----

  /** Different states stay different, whatever is absorbed afterwards. */
  lemma {:induction false} StatesStayDifferent(s: State, s': State, data: seq<byte>)
    requires s != s'
    ensures Absorb(s, data) != Absorb(s', data)
    decreases |data|
  {
    hide Block, UnBlock, Feed, Pad, Word;
    var w := if |data| < 4 then Pad(data) else U32(data, 0);
    if Feed(s, w) == Feed(s', w) { FeedInjective(s, w, s', w); }
    BlockInjective(Feed(s, w), Feed(s', w));
    if |data| < 4 {
      BlockInjective(Block(Feed(s, w)), Block(Feed(s', w)));
    } else {
      StatesStayDifferent(Block(Feed(s, w)), Block(Feed(s', w)), data[4..]);
    }
  }

  lemma BlockInjective(s: State, s': State)
    requires s != s'
    ensures Block(s) != Block(s')
  {
    hide Block, UnBlock;
    BlockInvertible(s);
    BlockInvertible(s');
  }

  /** Two tails of one length pad to different words unless they are equal. */
  lemma PadInjective(t: seq<byte>, t': seq<byte>)
    requires |t| == |t'| < 4
    requires Pad(t) == Pad(t')
    ensures t == t'
  {
    hide Word, Byte0, Byte1, Byte2, Byte3;
    if |t| == 1 {
      WordBytes(t[0], 0x80, 0, 0); WordBytes(t'[0], 0x80, 0, 0);
    } else if |t| == 2 {
      WordBytes(t[0], t[1], 0x80, 0); WordBytes(t'[0], t'[1], 0x80, 0);
    } else if |t| == 3 {
      WordBytes(t[0], t[1], t[2], 0x80); WordBytes(t'[0], t'[1], t'[2], 0x80);
    }
  }

  /** `b` and `c` have one length and differ, but only inside the aligned four-byte word that starts at `w`. */
  ghost predicate DifferInOneWord(b: seq<byte>, c: seq<byte>, w: nat) {
    && |b| == |c|
    && w % 4 == 0
    && (exists k :: w <= k < w + 4 && k < |b| && b[k] != c[k])
    && forall i :: 0 <= i < |b| && !(w <= i < w + 4) ==> b[i] == c[i]
  }

  /** A change confined to one aligned word, or to the tail, always changes the final state. */
  lemma {:induction false} OneWordChangesState(s: State, b: seq<byte>, c: seq<byte>, w: nat)
    requires DifferInOneWord(b, c, w)
    ensures Absorb(s, b) != Absorb(s, c)
    decreases |b|
  {
    hide Block, UnBlock, Feed, Pad, Word;
    if |b| < 4 {
      if Pad(b) == Pad(c) { PadInjective(b, c); }
      if Feed(s, Pad(b)) == Feed(s, Pad(c)) { FeedInjective(s, Pad(b), s, Pad(c)); }
      BlockInjective(Feed(s, Pad(b)), Feed(s, Pad(c)));
      BlockInjective(Block(Feed(s, Pad(b))), Block(Feed(s, Pad(c))));
    } else {
      var x, y := U32(b, 0), U32(c, 0);
      if w == 0 {
        assert b[4..] == c[4..];
        var k :| 0 <= k < 4 && b[k] != c[k];
        assert b[0..4][k] != c[0..4][k];
        if x == y { U32Injective(b, c, 0); }
        if Feed(s, x) == Feed(s, y) { FeedInjective(s, x, s, y); }
        BlockInjective(Feed(s, x), Feed(s, y));
        StatesStayDifferent(Block(Feed(s, x)), Block(Feed(s, y)), b[4..]);
      } else {
        assert x == y;
        var k :| w <= k < w + 4 && k < |b| && b[k] != c[k];
        assert b[4..][k - 4] != c[4..][k - 4];
        OneWordChangesState(Block(Feed(s, x)), b[4..], c[4..], w - 4);
      }
    }
  }

  /** A change confined to one aligned word, or to the tail, always changes the hash, for every seed. */
  lemma OneWordChangesHash(seed: u64, b: seq<byte>, c: seq<byte>, w: nat)
    requires DifferInOneWord(b, c, w)
    ensures Marvin(seed, b) != Marvin(seed, c)
  {
    hide Absorb, Join, Init;
    OneWordChangesState(Init(seed), b, c, w);
    var s, t := Absorb(Init(seed), b), Absorb(Init(seed), c);
    if Digest(s) == Digest(t) { JoinInjective(s.s0, s.s1, t.s0, t.s1); }
  }

  // ----- The implementations -----

  /** The Rust form: a loop over four-byte words, then a match on what is left. */
  method HashRust(seed: u64, data: seq<byte>, length: nat) returns (r: u64)
    requires length <= |data|
    ensures r == Marvin(seed, data[..length])
  {
    hide Block, Feed, Word, Init, Join;
    var s := Init(seed);
    var i, dlen := 0, length;
    while dlen > 3
      invariant i + dlen == length
      invariant Absorb(s, data[i..length]) == Absorb(Init(seed), data[..length])
    {
      AbsorbWord(s, data, i, length);
      s := Block(Feed(s, U32(data, i)));
      i, dlen := i + 4, dlen - 4;
    }
    var word := LastWord(data, i, dlen);
    s := Block(Feed(s, word));
    s := Block(s);
    r := Digest(s);
  }

  /** The Rust match and the C++ switches on the number of bytes left. */
  method LastWord(data: seq<byte>, i: nat, dlen: nat) returns (word: u32)
    requires dlen < 4 && i + dlen <= |data|
    ensures word == Pad(data[i..i + dlen])
  {
    match dlen {
      case 0 => word := 0x80;
      case 1 => word := 0x8000 | data[i] as u32;
      case 2 => word := 0x800000 | (data[i] as u32 | (data[i + 1] as u32 << 8));
      case _ => word := 0x80000000 | (data[i + 2] as u32 << 16) | (data[i] as u32 | (data[i + 1] as u32 << 8));
    }
  }

  /** The loop that three of the C++ forms share: two words a round while eight bytes are left. */
  method UnrolledRounds(seed: u64, data: seq<byte>) returns (s: State, i: nat)
    ensures i <= |data| < i + 8
    ensures Absorb(s, data[i..]) == Absorb(Init(seed), data)
  {
    hide Block, Feed, Word, Init;
    s, i := Init(seed), 0;
    assert data[0..|data|] == data;
    while |data| - i > 7
      invariant i <= |data|
      invariant Absorb(s, data[i..|data|]) == Absorb(Init(seed), data)
    {
      AbsorbWord(s, data, i, |data|);
      s := Block(Feed(s, U32(data, i)));
      AbsorbWord(s, data, i + 4, |data|);
      s := Block(Feed(s, U32(data, i + 4)));
      i := i + 8;
    }
  }

  /** C++ form 0: unrolled rounds, then a switch over zero to seven bytes; the last word is added behind it. */
  method HashCpp0(seed: u64, data: seq<byte>) returns (r: u64)
    ensures r == Marvin(seed, data)
  {
    hide Block, Feed, Init, Join, Absorb;
    var s, i := UnrolledRounds(seed, data);
    var tmp;
    s, tmp := FallThroughSwitch(s, data, i);
    s := Feed(s, tmp);
    s := Block(s);
    s := Block(s);
    r := Digest(s);
  }

  /** C++ form 1: the same, with the last word added inside the switch. */
  method HashCpp1(seed: u64, data: seq<byte>) returns (r: u64)
    ensures r == Marvin(seed, data)
  {
    hide Block, Feed, Init, Join, Absorb;
    var s, i := UnrolledRounds(seed, data);
    s := AddingSwitch(s, data, i);
    s := Block(s);
    s := Block(s);
    r := Digest(s);
  }

  /** The switch of form 1. */
  method AddingSwitch(s: State, data: seq<byte>, i: nat) returns (s': State)
    requires i <= |data| < i + 8
    ensures Block(Block(s')) == Absorb(s, data[i..])
  {
    hide Block, Feed, Word, Pad, Absorb;
    s' := s;
    var at := i;
    var w;
    match |data| - i {
      case 4 => s', at := OneMoreWord(s, i, data); AbsorbTail(s', data, at); w := LastWord(data, at, 0); s' := Feed(s', w);
      case 0 => AbsorbTail(s', data, at); w := LastWord(data, at, 0); s' := Feed(s', w);
      case 5 => s', at := OneMoreWord(s, i, data); AbsorbTail(s', data, at); w := LastWord(data, at, 1); s' := Feed(s', w);
      case 1 => AbsorbTail(s', data, at); w := LastWord(data, at, 1); s' := Feed(s', w);
      case 6 => s', at := OneMoreWord(s, i, data); AbsorbTail(s', data, at); w := LastWord(data, at, 2); s' := Feed(s', w);
      case 2 => AbsorbTail(s', data, at); w := LastWord(data, at, 2); s' := Feed(s', w);
      case 7 => s', at := OneMoreWord(s, i, data); AbsorbTail(s', data, at); w := LastWord(data, at, 3); s' := Feed(s', w);
      case _ => AbsorbTail(s', data, at); w := LastWord(data, at, 3); s' := Feed(s', w);
    }
  }

  /** The switch of form 0: cases four to seven take one more word and fall through into cases zero to three. */
  method FallThroughSwitch(s: State, data: seq<byte>, i: nat) returns (s': State, tmp: u32)
    requires i <= |data| < i + 8
    ensures Block(Block(Feed(s', tmp))) == Absorb(s, data[i..])
  {
    hide Block, Feed, Word, Pad, Absorb;
    s' := s;
    var at := i;
    match |data| - i {
      case 4 => s', at := OneMoreWord(s, i, data); tmp := LastWord(data, at, 0);
      case 0 => tmp := LastWord(data, at, 0);
      case 5 => s', at := OneMoreWord(s, i, data); tmp := LastWord(data, at, 1);
      case 1 => tmp := LastWord(data, at, 1);
      case 6 => s', at := OneMoreWord(s, i, data); tmp := LastWord(data, at, 2);
      case 2 => tmp := LastWord(data, at, 2);
      case 7 => s', at := OneMoreWord(s, i, data); tmp := LastWord(data, at, 3);
      case _ => tmp := LastWord(data, at, 3);
    }
    AbsorbTail(s', data, at);
  }

  lemma AbsorbTail(s: State, data: seq<byte>, i: nat)
    requires i <= |data| < i + 4
    ensures Absorb(s, data[i..]) == Block(Block(Feed(s, Pad(data[i..|data|]))))
  {
    assert data[i..|data|] == data[i..];
  }

  method OneMoreWord(s: State, i: nat, data: seq<byte>) returns (s': State, i': nat)
    requires i + 4 <= |data|
    ensures i' == i + 4
    ensures Absorb(s', data[i'..]) == Absorb(s, data[i..])
  {
    hide Block, Feed, Word;
    AbsorbWord(s, data, i, |data|);
    assert data[i..|data|] == data[i..] && data[i + 4..|data|] == data[i + 4..];
    s', i' := Block(Feed(s, U32(data, i))), i + 4;
  }

  /** C++ form 2: a plain loop over four-byte words, then a switch over zero to three bytes that adds the last word. */
  method HashCpp2(seed: u64, data: seq<byte>) returns (r: u64)
    ensures r == Marvin(seed, data)
  {
    hide Block, Feed, Word, Init, Join, Absorb, Pad;
    var s := Init(seed);
    var i := 0;
    assert data[0..] == data;
    while |data| - i > 3
      invariant i <= |data| && Absorb(s, data[i..]) == Absorb(Init(seed), data)
    {
      s, i := OneMoreWord(s, i, data);
    }
    AbsorbTail(s, data, i);
    var w;
    match |data| - i {
      case 0 => w := LastWord(data, i, 0); s := Feed(s, w);
      case 1 => w := LastWord(data, i, 1); s := Feed(s, w);
      case 2 => w := LastWord(data, i, 2); s := Feed(s, w);
      case _ => w := LastWord(data, i, 3); s := Feed(s, w);
    }
    s := Block(s);
    s := Block(s);
    r := Digest(s);
  }

  /** C++ form 3: unrolled rounds, at most one more word, then a switch over zero to three bytes. */
  method HashCpp3(seed: u64, data: seq<byte>) returns (r: u64)
    ensures r == Marvin(seed, data)
  {
    hide Block, Feed, Word, Init, Join;
    var s, i := UnrolledRounds(seed, data);
    if |data| - i > 3 {
      s, i := OneMoreWord(s, i, data);
    }
    var left := |data| - i;
    var tmp := LastWord(data, i, left);
    assert data[i..i + left] == data[i..];
    s := Block(Block(Feed(s, tmp)));
    r := Digest(s);
  }

  // ----- Known hashes -----

  lemma KnownHash0()
    ensures Marvin(0x4FB61A001BDBCC, []) == 0x30ED35C100CD3C7D
  {
  }

  lemma KnownHash1()
    ensures Marvin(0x4FB61A001BDBCC, [0xAF]) == 0x48E73FC77D75DDC1
  {
  }

  lemma KnownStates()
    ensures Block(Feed(Init(0x4FB61A001BDBCC), Word(0xAB, 0x42, 0x7E, 0xA8))) == State(0xAF836AEF, 0x4AF9D807)
    ensures Block(Feed(State(0xAF836AEF, 0x4AF9D807), Word(0xD1, 0x0F, 0xC7, 0x80))) == State(0xB328DED6, 0x4CDA0F99)
    ensures Digest(Block(State(0xB328DED6, 0x4CDA0F99))) == 0xE11847E4F0678C41
  {
  }

  lemma KnownHash7()
    ensures Marvin(0x4FB61A001BDBCC, [0xAB, 0x42, 0x7E, 0xA8, 0xD1, 0x0F, 0xC7]) == 0xE11847E4F0678C41
  {
    hide Block, Feed, Word, Init, Digest;
    KnownStates();
    var data: seq<byte> := [0xAB, 0x42, 0x7E, 0xA8, 0xD1, 0x0F, 0xC7];
    assert data[4..] == [0xD1, 0x0F, 0xC7];
    assert Absorb(State(0xAF836AEF, 0x4AF9D807), data[4..]) == Block(State(0xB328DED6, 0x4CDA0F99));
  }

  lemma KnownHash2()
    ensures Marvin(0x804FB61A001BDBCC, [0xE7, 0x0F]) == 0x64B581631F6AB378
  {
  }

  /** Four of the hashes that the program's tests expect, for inputs of zero, one, two and seven bytes. */
  lemma KnownHashes()
    ensures Marvin(0x4FB61A001BDBCC, []) == 0x30ED35C100CD3C7D
    ensures Marvin(0x4FB61A001BDBCC, [0xAF]) == 0x48E73FC77D75DDC1
    ensures Marvin(0x804FB61A001BDBCC, [0xE7, 0x0F]) == 0x64B581631F6AB378
    ensures Marvin(0x4FB61A001BDBCC, [0xAB, 0x42, 0x7E, 0xA8, 0xD1, 0x0F, 0xC7]) == 0xE11847E4F0678C41
  {
    hide Marvin;
    KnownHash0();
    KnownHash1();
    KnownHash2();
    KnownHash7();
  }
}
