/** The base block at the front of primary files and transaction logs: its fields and its XOR-32 checksum. */
module BaseBlock {
  import opened Bytes
  import opened LogEntries

  const SIGNATURE: seq<byte> := [0x72, 0x65, 0x67, 0x66] // "regf"
  const PRIMARY_SEQUENCE_NUMBER_OFFSET := 4
  const SECONDARY_SEQUENCE_NUMBER_OFFSET := 8
  const CHECKSUM_OFFSET := 508
  const BASE_BLOCK_LEN := 512

  datatype Header = Header(
    primarySequenceNumber: u32,
    secondarySequenceNumber: u32,
    isSupported: bool,
    hiveBinsDataSize: nat,
    checksum: u32)

  /** The 512 bytes that logs and primary files share. File types other than 0, 1 and 6 are unknown. */
  function ParseBase(b: seq<byte>): (r: Outcome<Header>)
    ensures !r.Panic? && (r.Ok? ==> BASE_BLOCK_LEN <= |b|)
  {
    if |b| < BASE_BLOCK_LEN || b[..4] != SIGNATURE then Err
    else
      var fileType := U32(b, 28);
      Ok(Header(U32(b, PRIMARY_SEQUENCE_NUMBER_OFFSET), U32(b, SECONDARY_SEQUENCE_NUMBER_OFFSET),
                fileType == 0 || fileType == 1 || fileType == 6, Nat(U32(b, 40)), U32(b, CHECKSUM_OFFSET)))
  }

  /** A primary file holds 3584 more bytes before its hive bins. */
  function ParsePrimary(b: seq<byte>): (r: Outcome<Header>)
    ensures !r.Panic? && (r.Ok? ==> HIVE_BINS_START <= |b|)
  {
    if |b| < HIVE_BINS_START then Err else ParseBase(b)
  }

  /** The exclusive or of the words in `b[i..508]`. */
  function XorWords(b: seq<byte>, i: nat): u32
    requires CHECKSUM_OFFSET <= |b| && i % 4 == 0
    decreases CHECKSUM_OFFSET - i
  {
    if i >= CHECKSUM_OFFSET then 0 else Xor(U32(b, i), XorWords(b, i + 4))
  }

  function Avoid(xsum: u32): u32 {
    if xsum == 0 then 1 else if xsum == 0xFFFFFFFF then 0xFFFFFFFE else xsum
  }

  function Checksum(b: seq<byte>): u32
    requires CHECKSUM_OFFSET <= |b|
  {
    Avoid(XorWords(b, 0))
  }

  method CalculateChecksum(bytes: seq<byte>) returns (r: Outcome<u32>)
    ensures r == if CHECKSUM_OFFSET <= |bytes| then Ok(Checksum(bytes)) else Err
  {
    hide U32, Xor;
    var index: nat, xsum: u32 := 0, 0;
    if CHECKSUM_OFFSET <= |bytes| { XorLaws(XorWords(bytes, 0), 0, 0); }
    while index <= 0x01FB
      invariant index % 4 == 0 && index <= CHECKSUM_OFFSET && index <= |bytes|
      invariant CHECKSUM_OFFSET <= |bytes| ==> Xor(xsum, XorWords(bytes, index)) == XorWords(bytes, 0)
    {
      if |bytes| < index + 4 {
        return Err;
      }
      if CHECKSUM_OFFSET <= |bytes| { XorLaws(xsum, U32(bytes, index), XorWords(bytes, index + 4)); }
      xsum := Xor(xsum, U32(bytes, index));
      index := index + 4;
    }
    XorLaws(xsum, 0, 0);
    r := Ok(Avoid(xsum));
  }

  /** The checksum covers exactly the 508 bytes before it. */
  lemma {:induction false} ChecksumIsLocal(b: seq<byte>, c: seq<byte>, i: nat)
    requires CHECKSUM_OFFSET <= |b| && CHECKSUM_OFFSET <= |c| && b[..CHECKSUM_OFFSET] == c[..CHECKSUM_OFFSET]
    requires i % 4 == 0
    ensures XorWords(b, i) == XorWords(c, i)
    decreases CHECKSUM_OFFSET - i
  {
    hide U32, Xor;
    if i < CHECKSUM_OFFSET {
      SharedPrefix(b, c, CHECKSUM_OFFSET, i, i + 4);
      ChecksumIsLocal(b, c, i + 4);
    }
  }

  /** `b` with the bytes from `at` on replaced by `s`. */
  function Splice(b: seq<byte>, at: nat, s: seq<byte>): (r: seq<byte>)
    requires at + |s| <= |b|
    ensures |r| == |b|
    ensures forall i :: 0 <= i < |b| ==> r[i] == if at <= i < at + |s| then s[i - at] else b[i]
  {
    b[..at] + s + b[at + |s|..]
  }

  /** The header as `update_header_after_transaction_logs` leaves it. */
  function WithSequenceNumber(b: seq<byte>, n: u32): (r: seq<byte>)
    requires HIVE_BINS_START <= |b|
    ensures |r| == |b|
  {
    var numbered := Splice(Splice(b, PRIMARY_SEQUENCE_NUMBER_OFFSET, Le32(n)), SECONDARY_SEQUENCE_NUMBER_OFFSET, Le32(n));
    Splice(numbered, CHECKSUM_OFFSET, Le32(Checksum(numbered[..BASE_BLOCK_LEN])))
  }

  lemma SpliceReads(b: seq<byte>, at: nat, x: u32, i: nat)
    requires at + 4 <= |b| && i + 4 <= |b|
    requires i == at || i + 4 <= at || at + 4 <= i
    ensures U32(Splice(b, at, Le32(x)), i) == if i == at then x else U32(b, i)
  {
    hide Word, Byte0, Byte1, Byte2, Byte3;
    var r := Splice(b, at, Le32(x));
    assert i == at ==> U32(r, i) == U32(Le32(x), 0);
  }

  lemma NumberedReads(b: seq<byte>, n: u32, i: nat)
    requires HIVE_BINS_START <= |b|
    requires 12 <= i <= CHECKSUM_OFFSET - 4 || i == 4 || i == 8
    ensures U32(WithSequenceNumber(b, n), i) == if i == 4 || i == 8 then n else U32(b, i)
  {
    hide U32, Checksum, Le32;
    var first := Splice(b, 4, Le32(n));
    var numbered := Splice(first, 8, Le32(n));
    SpliceReads(b, 4, n, i);
    SpliceReads(first, 8, n, i);
    SpliceReads(numbered, CHECKSUM_OFFSET, Checksum(numbered[..BASE_BLOCK_LEN]), i);
  }

  /** Reading the rewritten header back: both numbers are `n`, the type is kept, and the checksum is right. */
  lemma RewrittenHeader(b: seq<byte>, n: u32)
    requires ParsePrimary(b).Ok?
    ensures var r := WithSequenceNumber(b, n);
            var h := ParsePrimary(b).value;
            && ParsePrimary(r) == Ok(Header(n, n, h.isSupported, h.hiveBinsDataSize, Checksum(r[..BASE_BLOCK_LEN])))
            && r[BASE_BLOCK_LEN..] == b[BASE_BLOCK_LEN..]
  {
    hide U32, Checksum, Le32, Nat, Word;
    var r := WithSequenceNumber(b, n);
    var numbered := Splice(Splice(b, 4, Le32(n)), 8, Le32(n));
    NumberedReads(b, n, 4);
    NumberedReads(b, n, 8);
    NumberedReads(b, n, 28);
    NumberedReads(b, n, 40);
    SpliceReads(numbered, CHECKSUM_OFFSET, Checksum(numbered[..BASE_BLOCK_LEN]), CHECKSUM_OFFSET);
    SameChecksum(numbered[..BASE_BLOCK_LEN], r[..BASE_BLOCK_LEN]) by {
      assert numbered[..BASE_BLOCK_LEN][..CHECKSUM_OFFSET] == r[..BASE_BLOCK_LEN][..CHECKSUM_OFFSET];
    }
    assert r[..4] == b[..4];
  }

  lemma SameChecksum(b: seq<byte>, c: seq<byte>)
    requires CHECKSUM_OFFSET <= |b| && CHECKSUM_OFFSET <= |c| && b[..CHECKSUM_OFFSET] == c[..CHECKSUM_OFFSET]
    ensures Checksum(b) == Checksum(c)
  {
    ChecksumIsLocal(b, c, 0);
  }

  // ----- The layout of the header -----

  /** A header as it is written: signature, the two numbers, 16 bytes, file type, 8 bytes, size of the bins, 464 bytes
      and the checksum. */
  function HeaderBytes(primary: u32, secondary: u32, a: seq<byte>, fileType: u32, b: seq<byte>, binsSize: u32, c: seq<byte>,
                       checksum: u32): seq<byte> {
    [0x72, 0x65, 0x67, 0x66] + Le32(primary) + Le32(secondary) + a + Le32(fileType) + b + Le32(binsSize) + c + Le32(checksum)
  }

  /** Every field is read from its place. File types 0, 1 and 6 are supported. */
  lemma HeaderRoundTrip(primary: u32, secondary: u32, a: seq<byte>, fileType: u32, b: seq<byte>, binsSize: u32, c: seq<byte>,
                        checksum: u32, rest: seq<byte>)
    requires |a| == 16 && |b| == 8 && |c| == 464
    ensures ParseBase(HeaderBytes(primary, secondary, a, fileType, b, binsSize, c, checksum) + rest) ==
            Ok(Header(primary, secondary, fileType == 0 || fileType == 1 || fileType == 6, Nat(binsSize), checksum))
  {
    hide Le32, U32, Holds, Nat;
    var signature: seq<byte> := [0x72, 0x65, 0x67, 0x66];
    var s1 := signature + Le32(primary);
    var s2 := s1 + Le32(secondary);
    var s3 := s2 + a;
    var s4 := s3 + Le32(fileType);
    var s5 := s4 + b;
    var s6 := s5 + Le32(binsSize);
    var s7 := s6 + c;
    var header := s7 + Le32(checksum);
    assert header == HeaderBytes(primary, secondary, a, fileType, b, binsSize, c, checksum);
    var input := header + rest;
    HoldsFront(header, rest);
    HoldsBoth(input, 0, s7, Le32(checksum));
    HoldsBoth(input, 0, s6, c);
    HoldsBoth(input, 0, s5, Le32(binsSize));
    HoldsBoth(input, 0, s4, b);
    HoldsBoth(input, 0, s3, Le32(fileType));
    HoldsBoth(input, 0, s2, a);
    HoldsBoth(input, 0, s1, Le32(secondary));
    HoldsBoth(input, 0, signature, Le32(primary));
    HoldsWord(input, 4, primary);
    HoldsWord(input, 8, secondary);
    HoldsWord(input, 28, fileType);
    HoldsWord(input, 40, binsSize);
    HoldsWord(input, 508, checksum);
    assert input[..4] == signature;
  }

  /** Nothing else is taken for a header. */
  lemma WhatIsAHeader(b: seq<byte>)
    ensures ParseBase(b).Ok? <==> 512 <= |b| && b[..4] == [0x72, 0x65, 0x67, 0x66]
    ensures ParsePrimary(b).Ok? <==> 4096 <= |b| && b[..4] == [0x72, 0x65, 0x67, 0x66]
  {
  }

  // ----- What the checksum is -----

  /** Changing one of the 127 words changes the exclusive or by the difference. */
  lemma {:induction false} OneWordChangesXor(b: seq<byte>, c: seq<byte>, i: nat, w: nat)
    requires |b| >= 508 && |c| >= 508 && i % 4 == 0 && w % 4 == 0 && i <= w < 508
    requires forall j :: 0 <= j < 508 && !(w <= j < w + 4) ==> b[j] == c[j]
    ensures XorWords(c, i) == Xor(XorWords(b, i), Xor(U32(b, w), U32(c, w)))
    decreases 508 - i
  {
    hide Word, Xor;
    if i == w {
      SameWords(b, c, i + 4);
      var x, y, z := U32(b, w), U32(c, w), XorWords(b, i + 4);
      XorCommutes(x, z);
      XorLaws(z, x, Xor(x, y));
      XorLaws(x, x, y);
      XorSelf(x);
      XorLaws(y, 0, 0);
      XorCommutes(z, y);
    } else {
      OneWordChangesXor(b, c, i + 4, w);
      assert U32(b, i) == U32(c, i);
      XorLaws(U32(b, i), XorWords(b, i + 4), Xor(U32(b, w), U32(c, w)));
    }
  }

  lemma {:induction false} SameWords(b: seq<byte>, c: seq<byte>, i: nat)
    requires |b| >= 508 && |c| >= 508 && i % 4 == 0 && forall j :: i <= j < 508 ==> b[j] == c[j]
    ensures XorWords(c, i) == XorWords(b, i)
    decreases 508 - i
  {
    hide Word, Xor;
    if i < 508 { SameWords(b, c, i + 4); }
  }

  lemma {:induction false} ZerosXor(b: seq<byte>, i: nat)
    requires |b| >= 508 && i % 4 == 0 && forall j :: 0 <= j < 508 ==> b[j] == 0
    ensures XorWords(b, i) == 0
    decreases 508 - i
  {
    if i < 508 {
      ZerosXor(b, i + 4);
      assert U32(b, i) == 0;
      XorLaws(0, 0, 0);
    }
  }

  /** The checksum of zeros is 1; it is never 0 or 0xFFFFFFFF; and it is the exclusive or of the 127 words before it
      wherever that is neither. */
  lemma ChecksumValues(b: seq<byte>)
    requires |b| >= 508
    ensures (forall j :: 0 <= j < 508 ==> b[j] == 0) ==> Checksum(b) == 1
    ensures Checksum(b) != 0 && Checksum(b) != 0xFFFFFFFF
    ensures XorWords(b, 0) == 0xFFFFFFFF ==> Checksum(b) == 0xFFFFFFFE
    ensures XorWords(b, 0) != 0 && XorWords(b, 0) != 0xFFFFFFFF ==> Checksum(b) == XorWords(b, 0)
  {
    hide XorWords;
    if forall j :: 0 <= j < 508 ==> b[j] == 0 { ZerosXor(b, 0); }
  }
}
