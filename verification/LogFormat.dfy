/** The layout of log entries, as they are written, and that the parser reads it. */
module LogFormat {
  import opened Bytes
  import opened Marvin32
  import opened LogEntries

  // ----- Writing -----

  datatype WrittenPage = WrittenPage(offset: u32, size: u32, bytes: seq<byte>)

  datatype WrittenEntry = WrittenEntry(
    size: u32, flags: u32, sequenceNumber: u32, hiveBinsDataSize: u32, count: u32, hash1: u64, hash2: u64,
    pages: seq<WrittenPage>, padding: seq<byte>)

  /** The page references: offset and size of each page. */
  function References(pages: seq<WrittenPage>): (r: seq<byte>)
    ensures |r| == 8 * |pages|
  {
    if pages == [] then [] else Le32(pages[0].offset) + Le32(pages[0].size) + References(pages[1..])
  }

  function PageBytes(pages: seq<WrittenPage>): seq<byte> {
    if pages == [] then [] else pages[0].bytes + PageBytes(pages[1..])
  }

  /** What the first hash covers. */
  function Body(e: WrittenEntry): seq<byte> {
    References(e.pages) + PageBytes(e.pages) + e.padding
  }

  /** What the second hash covers. */
  function Head(e: WrittenEntry): (r: seq<byte>)
    ensures |r| == 32
  {
    [0x48, 0x76, 0x4c, 0x45] + Le32(e.size) + Le32(e.flags) + Le32(e.sequenceNumber) + Le32(e.hiveBinsDataSize)
    + Le32(e.count) + Le64(e.hash1)
  }

  function EntryBytes(e: WrittenEntry): (r: seq<byte>)
    ensures |r| == 40 + |Body(e)|
  {
    Head(e) + Le64(e.hash2) + Body(e)
  }

  /** The sizes and the count are what they say. */
  ghost predicate IsConsistent(e: WrittenEntry) {
    && Nat(e.size) == 40 + |Body(e)| && Nat(e.count) == |e.pages|
    && forall p :: p in e.pages ==> Nat(p.size) == |p.bytes|
  }

  function PagesRead(pages: seq<WrittenPage>): seq<DirtyPage> {
    if pages == [] then [] else [DirtyPage(Nat(pages[0].offset), pages[0].bytes)] + PagesRead(pages[1..])
  }

  /** The first hash is that of what follows the hashes, the second that of what precedes it. */
  predicate HasRightHashes(e: WrittenEntry) {
    e.hash1 == Marvin(0x82EF4D887A4E55C5, Body(e)) && e.hash2 == Marvin(0x82EF4D887A4E55C5, Head(e))
  }

  /** The entry as it should be read. */
  function EntryRead(e: WrittenEntry): LogEntry {
    LogEntry(Nat(e.size), e.flags, e.sequenceNumber, Nat(e.hiveBinsDataSize), e.hash1, e.hash2,
             PagesRead(e.pages), HasRightHashes(e))
  }

  // ----- Reading -----

  lemma {:induction false} PagesRoundTrip(input: seq<byte>, pages: seq<WrittenPage>, k: nat, count: nat, at: nat)
    requires k + |pages| == count && 40 + 8 * count <= |input|
    requires Holds(input, 40 + 8 * k, References(pages)) && Holds(input, at, PageBytes(pages))
    requires forall p :: p in pages ==> Nat(p.size) == |p.bytes|
    ensures TakePages(input, k, count, at) == Ok(Pages(PagesRead(pages), at + |PageBytes(pages)|))
    decreases |pages|
  {
    hide Nat, Le32, U32, Holds, References, PageBytes, PagesRead, TakePages;
    PagesStep(pages);
    if pages != [] {
      var p := pages[0];
      PageIsThere(input, p, pages[1..], k, at);
      assert p in pages && forall q :: q in pages[1..] ==> q in pages;
      PagesRoundTrip(input, pages[1..], k + 1, count, at + |p.bytes|);
      TakeFirst(input, k, count, at, p);
    } else {
      assert at <= |input| by { HoldsFits(input, at, []); }
      TakeNone(input, count, at);
    }
  }

  lemma PagesStep(pages: seq<WrittenPage>)
    ensures pages == [] ==> References(pages) == [] && PageBytes(pages) == [] && PagesRead(pages) == []
    ensures pages != [] ==>
              var p, rest := pages[0], pages[1..];
              && References(pages) == Le32(p.offset) + Le32(p.size) + References(rest)
              && PageBytes(pages) == p.bytes + PageBytes(rest)
              && PagesRead(pages) == [DirtyPage(Nat(p.offset), p.bytes)] + PagesRead(rest)
  {
    hide Le32, Nat;
  }

  lemma TakeFirst(input: seq<byte>, k: nat, count: nat, at: nat, p: WrittenPage)
    requires k < count && 40 + 8 * count <= |input| && at + |p.bytes| <= |input| && Nat(p.size) == |p.bytes|
    requires U32(input, 40 + 8 * k) == p.offset && U32(input, 40 + 8 * k + 4) == p.size
    requires input[at..at + |p.bytes|] == p.bytes && TakePages(input, k + 1, count, at + |p.bytes|).Ok?
    ensures var rest := TakePages(input, k + 1, count, at + |p.bytes|).value;
            TakePages(input, k, count, at) == Ok(Pages([DirtyPage(Nat(p.offset), p.bytes)] + rest.pages, rest.end))
  {
    hide U32, Nat;
  }

  lemma TakeNone(input: seq<byte>, count: nat, at: nat)
    requires 40 + 8 * count <= |input| && at <= |input|
    ensures TakePages(input, count, count, at) == Ok(Pages([], at))
  {
  }

  lemma HoldsFits(b: seq<byte>, at: nat, s: seq<byte>)
    requires Holds(b, at, s)
    ensures at + |s| <= |b| && b[at..at + |s|] == s
  {
  }

  lemma PageIsThere(input: seq<byte>, p: WrittenPage, rest: seq<WrittenPage>, k: nat, at: nat)
    requires Holds(input, 40 + 8 * k, Le32(p.offset) + Le32(p.size) + References(rest))
    requires Holds(input, at, p.bytes + PageBytes(rest))
    ensures 40 + 8 * k + 8 <= |input| && at + |p.bytes| <= |input|
    ensures U32(input, 40 + 8 * k) == p.offset && U32(input, 40 + 8 * k + 4) == p.size
    ensures input[at..at + |p.bytes|] == p.bytes
    ensures Holds(input, 40 + 8 * (k + 1), References(rest)) && Holds(input, at + |p.bytes|, PageBytes(rest))
  {
    hide Le32, U32, Holds, References, PageBytes;
    var i := 40 + 8 * k;
    HoldsBoth(input, i, Le32(p.offset) + Le32(p.size), References(rest));
    HoldsBoth(input, i, Le32(p.offset), Le32(p.size));
    HoldsWord(input, i, p.offset);
    HoldsWord(input, i + 4, p.size);
    HoldsBoth(input, at, p.bytes, PageBytes(rest));
    HoldsFits(input, at, p.bytes);
  }

  /** Where each field of an entry stands. */
  lemma FieldsAreThere(input: seq<byte>, e: WrittenEntry)
    requires Holds(input, 0, EntryBytes(e))
    ensures 40 <= |input| && input[..4] == [0x48, 0x76, 0x4c, 0x45]
    ensures U32(input, 4) == e.size && U32(input, 8) == e.flags && U32(input, 12) == e.sequenceNumber
    ensures U32(input, 16) == e.hiveBinsDataSize && U32(input, 20) == e.count
    ensures U64(input, 24) == e.hash1 && U64(input, 32) == e.hash2
    ensures Holds(input, 40, References(e.pages)) && Holds(input, 40 + 8 * |e.pages|, PageBytes(e.pages))
    ensures 40 + |Body(e)| <= |input| && input[40..40 + |Body(e)|] == Body(e) && input[..32] == Head(e)
  {
    hide Le32, Le64, U32, U64, Holds, References, PageBytes;
    var head, refs, data := Head(e), References(e.pages), PageBytes(e.pages);
    HoldsBoth(input, 0, head + Le64(e.hash2), Body(e));
    HoldsBoth(input, 0, head, Le64(e.hash2));
    HoldsLong(input, 32, e.hash2);
    HoldsFits(input, 0, head);
    HoldsFits(input, 40, Body(e));
    HoldsBoth(input, 40, refs + data, e.padding);
    HoldsBoth(input, 40, refs, data);
    HeadIsThere(input, e);
  }

  lemma HeadIsThere(input: seq<byte>, e: WrittenEntry)
    requires Holds(input, 0, Head(e))
    ensures 32 <= |input| && input[..4] == [0x48, 0x76, 0x4c, 0x45]
    ensures U32(input, 4) == e.size && U32(input, 8) == e.flags && U32(input, 12) == e.sequenceNumber
    ensures U32(input, 16) == e.hiveBinsDataSize && U32(input, 20) == e.count && U64(input, 24) == e.hash1
  {
    hide Le32, Le64, U32, U64, Holds;
    var signature: seq<byte> := [0x48, 0x76, 0x4c, 0x45];
    var s1 := signature + Le32(e.size);
    var s2 := s1 + Le32(e.flags);
    var s3 := s2 + Le32(e.sequenceNumber);
    var s4 := s3 + Le32(e.hiveBinsDataSize);
    var s5 := s4 + Le32(e.count);
    assert Head(e) == s5 + Le64(e.hash1);
    HoldsBoth(input, 0, s5, Le64(e.hash1));
    HoldsBoth(input, 0, s4, Le32(e.count));
    HoldsBoth(input, 0, s3, Le32(e.hiveBinsDataSize));
    HoldsBoth(input, 0, s2, Le32(e.sequenceNumber));
    HoldsBoth(input, 0, s1, Le32(e.flags));
    HoldsBoth(input, 0, signature, Le32(e.size));
    HoldsFits(input, 0, signature);
    HoldsWord(input, 4, e.size);
    HoldsWord(input, 8, e.flags);
    HoldsWord(input, 12, e.sequenceNumber);
    HoldsWord(input, 16, e.hiveBinsDataSize);
    HoldsWord(input, 20, e.count);
    HoldsLong(input, 24, e.hash1);
  }

  /** A written entry is read back field by field and page by page, and its hashes are valid if and only if they are
      right; nothing behind it is used. */
  lemma EntryRoundTrip(e: WrittenEntry, rest: seq<byte>)
    requires IsConsistent(e)
    ensures ParseEntry(EntryBytes(e) + rest) == Ok(Parsed(EntryRead(e), |EntryBytes(e)|))
  {
    hide U32, U64, Nat, Holds, EntryBytes, References, PageBytes, Head, PagesRead, TakePages, ValidHashes;
    hide ParseEntry, HasRightHashes;
    var input := EntryBytes(e) + rest;
    HoldsFront(EntryBytes(e), rest);
    FieldsAreThere(input, e);
    PagesRoundTrip(input, e.pages, 0, |e.pages|, 40 + 8 * |e.pages|);
    HashesFit(input, e);
    FieldsParse(input, Nat(e.size), |e.pages|, Pages(PagesRead(e.pages), 40 + 8 * |e.pages| + |PageBytes(e.pages)|));
  }

  lemma FieldsParse(input: seq<byte>, size: nat, count: nat, taken: Pages)
    requires 40 + 8 * count <= |input| && 40 <= size <= |input| && taken.end <= size
    requires input[..4] == [0x48, 0x76, 0x4c, 0x45] && Nat(U32(input, 4)) == size && Nat(U32(input, 20)) == count
    requires TakePages(input, 0, count, 40 + 8 * count) == Ok(taken)
    ensures ParseEntry(input) ==
            Ok(Parsed(LogEntry(size, U32(input, 8), U32(input, 12), Nat(U32(input, 16)), U64(input, 24), U64(input, 32),
                               taken.pages, ValidHashes(input, size)), size))
  {
    hide U32, U64, Nat, TakePages, ValidHashes;
  }

  lemma HashesFit(input: seq<byte>, e: WrittenEntry)
    requires 40 + |Body(e)| <= |input| && Nat(e.size) == 40 + |Body(e)|
    requires U64(input, 24) == e.hash1 && U64(input, 32) == e.hash2
    requires input[40..40 + |Body(e)|] == Body(e) && input[..32] == Head(e)
    ensures ValidHashes(input, Nat(e.size)) <==> HasRightHashes(e)
  {
    hide U64, Nat, Body, Head, Marvin;
  }

  // ----- What is read was written -----

  lemma {:induction false} TakenPages(input: seq<byte>, k: nat, count: nat, at: nat) returns (pages: seq<WrittenPage>)
    requires k <= count && 40 + 8 * count <= |input| && at <= |input| && TakePages(input, k, count, at).Ok?
    ensures k + |pages| == count && forall p :: p in pages ==> Nat(p.size) == |p.bytes|
    ensures Holds(input, 40 + 8 * k, References(pages)) && Holds(input, at, PageBytes(pages))
    ensures at + |PageBytes(pages)| == TakePages(input, k, count, at).value.end
    decreases count - k
  {
    hide Nat, Le32, U32, Holds, References, PageBytes;
    if k == count {
      pages := [];
      PagesStep([]);
      HoldsNothing(input, 40 + 8 * k);
      HoldsNothing(input, at);
    } else {
      var i := 40 + 8 * k;
      var size := U32(input, i + 4);
      var p := WrittenPage(U32(input, i), size, input[at..at + Nat(size)]);
      var rest := TakenPages(input, k + 1, count, at + Nat(size));
      pages := [p] + rest;
      PagesStep(pages);
      PageWasWritten(input, p, rest, k, at);
    }
  }

  lemma HoldsNothing(b: seq<byte>, at: nat)
    requires at <= |b|
    ensures Holds(b, at, [])
  {
  }

  lemma PageWasWritten(input: seq<byte>, p: WrittenPage, rest: seq<WrittenPage>, k: nat, at: nat)
    requires 40 + 8 * k + 8 <= |input| && at + |p.bytes| <= |input|
    requires U32(input, 40 + 8 * k) == p.offset && U32(input, 40 + 8 * k + 4) == p.size
    requires input[at..at + |p.bytes|] == p.bytes
    requires Holds(input, 40 + 8 * (k + 1), References(rest)) && Holds(input, at + |p.bytes|, PageBytes(rest))
    ensures Holds(input, 40 + 8 * k, Le32(p.offset) + Le32(p.size) + References(rest))
    ensures Holds(input, at, p.bytes + PageBytes(rest))
  {
    hide Le32, U32, Holds, References, PageBytes;
    var i := 40 + 8 * k;
    HoldsRead(input, i);
    HoldsRead(input, i + 4);
    HoldsBoth(input, i, Le32(p.offset), Le32(p.size));
    HoldsBoth(input, i, Le32(p.offset) + Le32(p.size), References(rest));
    HoldsSlice(input, at, at + |p.bytes|);
    HoldsBoth(input, at, p.bytes, PageBytes(rest));
  }

  lemma HeadWasWritten(input: seq<byte>, e: WrittenEntry)
    requires 32 <= |input| && input[..4] == [0x48, 0x76, 0x4c, 0x45]
    requires U32(input, 4) == e.size && U32(input, 8) == e.flags && U32(input, 12) == e.sequenceNumber
    requires U32(input, 16) == e.hiveBinsDataSize && U32(input, 20) == e.count && U64(input, 24) == e.hash1
    ensures Holds(input, 0, Head(e))
  {
    hide Le32, Le64, U32, U64, Holds;
    var signature: seq<byte> := [0x48, 0x76, 0x4c, 0x45];
    assert Holds(input, 0, signature) by { HoldsSlice(input, 0, 4); }
    HoldsRead(input, 4); HoldsRead(input, 8); HoldsRead(input, 12); HoldsRead(input, 16); HoldsRead(input, 20);
    HoldsReadLong(input, 24);
    var s1 := signature + Le32(e.size);
    HoldsBoth(input, 0, signature, Le32(e.size));
    var s2 := s1 + Le32(e.flags);
    HoldsBoth(input, 0, s1, Le32(e.flags));
    var s3 := s2 + Le32(e.sequenceNumber);
    HoldsBoth(input, 0, s2, Le32(e.sequenceNumber));
    var s4 := s3 + Le32(e.hiveBinsDataSize);
    HoldsBoth(input, 0, s3, Le32(e.hiveBinsDataSize));
    var s5 := s4 + Le32(e.count);
    HoldsBoth(input, 0, s4, Le32(e.count));
    HoldsBoth(input, 0, s5, Le64(e.hash1));
  }

  /** Every input that parses as an entry starts with a written entry, unless its pages run past its size. */
  lemma ParsedEntryIsWritten(input: seq<byte>) returns (e: WrittenEntry, rest: seq<byte>)
    requires ParseEntry(input).Ok? && ParseEntry(input).value.consumed == ParseEntry(input).value.entry.size
    ensures IsConsistent(e) && input == EntryBytes(e) + rest
  {
    hide U32, U64, Nat, Holds, References, PageBytes, Head, TakePages, ValidHashes, Le64;
    var size, count := Nat(U32(input, 4)), Nat(U32(input, 20));
    var pages := TakenPages(input, 0, count, 40 + 8 * count);
    var end := 40 + 8 * count + |PageBytes(pages)|;
    e := WrittenEntry(U32(input, 4), U32(input, 8), U32(input, 12), U32(input, 16), U32(input, 20), U64(input, 24),
                      U64(input, 32), pages, input[end..size]);
    rest := input[size..];
    HeadWasWritten(input, e);
    HoldsReadLong(input, 32);
    HoldsBoth(input, 40, References(pages), PageBytes(pages));
    HoldsSlice(input, end, size);
    HoldsBoth(input, 40, References(pages) + PageBytes(pages), e.padding);
    HoldsBoth(input, 0, Head(e), Le64(e.hash2));
    HoldsBoth(input, 0, Head(e) + Le64(e.hash2), Body(e));
    HoldsAll(input, EntryBytes(e));
  }

  lemma HoldsAll(b: seq<byte>, s: seq<byte>)
    requires Holds(b, 0, s)
    ensures |s| <= |b| && b == s + b[|s|..]
  {
  }

  // ----- Lists of entries -----

  function AllBytes(es: seq<WrittenEntry>): seq<byte> {
    if es == [] then [] else EntryBytes(es[0]) + AllBytes(es[1..])
  }

  function AllRead(es: seq<WrittenEntry>): seq<LogEntry> {
    if es == [] then [] else [EntryRead(es[0])] + AllRead(es[1..])
  }

  /** So is a list of entries, up to what is no entry. */
  lemma {:induction false} EntriesRoundTrip(es: seq<WrittenEntry>, rest: seq<byte>)
    requires (forall e :: e in es ==> IsConsistent(e)) && ParseEntry(rest).Err?
    ensures ParseEntries(AllBytes(es) + rest) == Ok(AllRead(es))
    decreases |es|
  {
    hide ParseEntry, EntryBytes, EntryRead, IsConsistent, ParseEntries, AllBytes, AllRead;
    EntriesStep(es);
    if es == [] {
      assert [] + rest == rest;
      NoEntries(rest);
    } else {
      var first, more := EntryBytes(es[0]), AllBytes(es[1..]);
      assert forall e :: e in es[1..] ==> e in es;
      EntryRoundTrip(es[0], more + rest);
      EntriesRoundTrip(es[1..], rest);
      Rejoin(first, more, rest);
      NextEntryRead(first + (more + rest), EntryRead(es[0]), |first|);
    }
  }

  lemma EntriesStep(es: seq<WrittenEntry>)
    ensures es == [] ==> AllBytes(es) == [] && AllRead(es) == []
    ensures es != [] ==> AllBytes(es) == EntryBytes(es[0]) + AllBytes(es[1..])
    ensures es != [] ==> AllRead(es) == [EntryRead(es[0])] + AllRead(es[1..])
  {
    hide EntryBytes, EntryRead;
  }

  lemma Rejoin(a: seq<byte>, b: seq<byte>, c: seq<byte>)
    ensures a + b + c == a + (b + c) && (a + (b + c))[|a|..] == b + c
  {
  }

  lemma NoEntries(input: seq<byte>)
    requires ParseEntry(input).Err?
    ensures ParseEntries(input) == Ok([])
  {
    hide ParseEntry;
  }

  lemma NextEntryRead(input: seq<byte>, e: LogEntry, n: nat)
    requires ParseEntry(input) == Ok(Parsed(e, n)) && ParseEntries(input[n..]).Ok?
    ensures ParseEntries(input) == Ok([e] + ParseEntries(input[n..]).value)
  {
    hide ParseEntry;
  }
}
