/** Parsing of transaction-log entries and of the damage their two hashes detect. */
module LogEntries {
  import opened Bytes
  import opened Marvin32

  /** The end of a parse or of a run: a value, a reported error, or a Rust panic. */
  datatype Outcome<+T> = Ok(value: T) | Err | Panic

  datatype DirtyPage = DirtyPage(offset: nat, bytes: seq<byte>)

  datatype LogEntry = LogEntry(
    size: nat,
    flags: u32,
    sequenceNumber: u32,
    hiveBinsDataSize: nat,
    hash1: u64,
    hash2: u64,
    pages: seq<DirtyPage>,
    hasValidHashes: bool)

  /** An entry and the number of bytes its parser consumed. */
  datatype Parsed = Parsed(entry: LogEntry, consumed: nat)

  const SIGNATURE: seq<byte> := [0x48, 0x76, 0x4c, 0x45] // "HvLE"
  const DEFAULT_SEED: u64 := 0x82EF4D887A4E55C5
  const HASH1_START := 40
  const HASH2_LENGTH := 32

  datatype Pages = Pages(pages: seq<DirtyPage>, end: nat)

  /** Takes the bytes of dirty pages `k..count` from position `at`; the references start at byte 40. */
  function TakePages(input: seq<byte>, k: nat, count: nat, at: nat): (r: Outcome<Pages>)
    requires k <= count && HASH1_START + 8 * count <= |input| && at <= |input|
    ensures !r.Panic?
    ensures r.Ok? ==> at <= r.value.end <= |input|
    decreases count - k
  {
    if k == count then Ok(Pages([], at))
    else
      var offset, size := Nat(U32(input, HASH1_START + 8 * k)), Nat(U32(input, HASH1_START + 8 * k + 4));
      if |input| < at + size then Err
      else
        match TakePages(input, k + 1, count, at + size)
        case Ok(rest) => Ok(Pages([DirtyPage(offset, input[at..at + size])] + rest.pages, rest.end))
        case Err => Err
        case Panic => Panic
  }

  /** Parses one log entry from the front of `input`. */
  function ParseEntry(input: seq<byte>): (r: Outcome<Parsed>)
    ensures r.Ok? ==> HASH1_START <= r.value.entry.size <= r.value.consumed <= |input|
  {
    if |input| < HASH1_START || input[..4] != SIGNATURE then Err
    else
      var size, count := Nat(U32(input, 4)), Nat(U32(input, 20));
      if |input| < HASH1_START + 8 * count then Err
      else
        match TakePages(input, 0, count, HASH1_START + 8 * count)
        case Err => Err
        case Panic => Panic
        case Ok(taken) =>
          if |input| < size then Err
          else if size < HASH1_START then Panic // `len - OFFSET` underflows in calc_hash1
          else
            var hash1, hash2 := U64(input, 24), U64(input, 32);
            Ok(Parsed(
                 LogEntry(size, U32(input, 8), U32(input, 12), Nat(U32(input, 16)), hash1, hash2, taken.pages,
                          ValidHashes(input, size)),
                 if taken.end < size then size else taken.end))
  }

  /** The stored hashes match: the first covers bytes 40 to `size`, the second bytes 0 to 32. */
  predicate ValidHashes(input: seq<byte>, size: nat)
    requires HASH1_START <= size <= |input|
  {
    && U64(input, 24) == Marvin(DEFAULT_SEED, input[HASH1_START..size])
    && U64(input, 32) == Marvin(DEFAULT_SEED, input[..HASH2_LENGTH])
  }

  /** The loop over the page references. */
  method ReadPages(input: seq<byte>, count: nat) returns (r: Outcome<Pages>)
    requires HASH1_START + 8 * count <= |input|
    ensures r == TakePages(input, 0, count, HASH1_START + 8 * count)
  {
    hide Nat, U32;
    ghost var expected := TakePages(input, 0, count, HASH1_START + 8 * count);
    var pages: seq<DirtyPage> := [];
    var k: nat, at: nat := 0, HASH1_START + 8 * count;
    while k < count
      invariant k <= count && at <= |input|
      invariant var rest := TakePages(input, k, count, at);
                if expected.Ok? then rest.Ok? && expected.value == Pages(pages + rest.value.pages, rest.value.end)
                else rest.Err?
    {
      var offset, pageSize := Nat(U32(input, HASH1_START + 8 * k)), Nat(U32(input, HASH1_START + 8 * k + 4));
      if |input| < at + pageSize {
        return Err;
      }
      var page := DirtyPage(offset, input[at..at + pageSize]);
      ghost var rest := TakePages(input, k + 1, count, at + pageSize);
      assert rest.Ok? ==> pages + ([page] + rest.value.pages) == (pages + [page]) + rest.value.pages;
      pages, at, k := pages + [page], at + pageSize, k + 1;
    }
    assert pages + [] == pages;
    r := Ok(Pages(pages, at));
  }

  /** The entry parser as the source runs it. */
  method ReadEntry(input: seq<byte>) returns (r: Outcome<Parsed>)
    ensures r == ParseEntry(input)
  {
    hide Marvin, Nat, Word, Join, TakePages;
    if |input| < HASH1_START || input[..4] != SIGNATURE {
      return Err;
    }
    var size, count := Nat(U32(input, 4)), Nat(U32(input, 20));
    if |input| < HASH1_START + 8 * count {
      return Err;
    }
    var taken := ReadPages(input, count);
    if !taken.Ok? || |input| < size {
      return Err;
    }
    if size < HASH1_START {
      return Panic;
    }
    var entry := LogEntry(size, U32(input, 8), U32(input, 12), Nat(U32(input, 16)), U64(input, 24), U64(input, 32),
                          taken.value.pages, ValidHashes(input, size));
    r := Ok(Parsed(entry, if taken.value.end < size then size else taken.value.end));
  }

  /** All entries of a log body: parse until the first entry that does not parse. */
  function ParseEntries(input: seq<byte>): (r: Outcome<seq<LogEntry>>)
    ensures !r.Err?
    decreases |input|
  {
    match ParseEntry(input)
    case Err => Ok([])
    case Panic => Panic
    case Ok(parsed) =>
      match ParseEntries(input[parsed.consumed..])
      case Ok(rest) => Ok([parsed.entry] + rest)
      case Err => Err
      case Panic => Panic
  }

  // ----- Damage is detected -----

  /** A parse depends only on the bytes it consumes and on the length of the input. */
  lemma {:induction false} PagesAreLocal(b: seq<byte>, c: seq<byte>, k: nat, count: nat, at: nat)
    requires |b| == |c| && k <= count && HASH1_START + 8 * count <= at <= |b|
    requires TakePages(b, k, count, at).Ok?
    requires var end := TakePages(b, k, count, at).value.end; b[..end] == c[..end]
    ensures TakePages(c, k, count, at) == TakePages(b, k, count, at)
    decreases count - k
  {
    hide Nat, U32;
    if k < count {
      var end := TakePages(b, k, count, at).value.end;
      var refAt := HASH1_START + 8 * k;
      SharedPrefix(b, c, end, refAt, refAt + 4);
      SharedPrefix(b, c, end, refAt + 4, refAt + 8);
      var size := Nat(U32(b, refAt + 4));
      PagesAreLocal(b, c, k + 1, count, at + size);
      SharedPrefix(b, c, end, at, at + size);
    }
  }

  lemma EntryIsLocal(b: seq<byte>, c: seq<byte>)
    requires |b| == |c| && ParseEntry(b).Ok?
    requires var n := ParseEntry(b).value.consumed; b[..n] == c[..n]
    ensures ParseEntry(c) == ParseEntry(b)
  {
    hide Nat, U32, U64, Marvin, TakePages;
    var n, size, count := ParseEntry(b).value.consumed, Nat(U32(b, 4)), Nat(U32(b, 20));
    var end := TakePages(b, 0, count, HASH1_START + 8 * count).value.end;
    SharedPrefix(b, c, n, 0, end);
    PagesAreLocal(b, c, 0, count, HASH1_START + 8 * count);
    SharedPrefix(b, c, n, 0, 4);
    SharedPrefix(b, c, n, 4, 8);
    SharedPrefix(b, c, n, 8, 12);
    SharedPrefix(b, c, n, 12, 16);
    SharedPrefix(b, c, n, 16, 20);
    SharedPrefix(b, c, n, 20, 24);
    SharedPrefix(b, c, n, 24, 32);
    SharedPrefix(b, c, n, 32, 40);
    SharedPrefix(b, c, n, 0, HASH2_LENGTH);
    SharedPrefix(b, c, n, HASH1_START, size);
  }

  /** `c` is `b` with some bytes of one aligned word of its first `size` bytes changed. */
  ghost predicate DamagedIn(b: seq<byte>, c: seq<byte>, size: nat) {
    && |b| == |c|
    && size <= |b|
    && b[size..] == c[size..]
    && exists w: nat :: DifferInOneWord(b[..size], c[..size], w)
  }

  /** A word of the first 32 bytes is damaged: the second hash no longer fits. */
  lemma HeadDamage(b: seq<byte>, c: seq<byte>, size: nat, w: nat)
    requires HASH1_START <= size <= |b| == |c|
    requires DifferInOneWord(b[..size], c[..size], w) && w < HASH2_LENGTH
    requires ValidHashes(b, size)
    ensures U64(c, 32) != Marvin(DEFAULT_SEED, c[..HASH2_LENGTH])
  {
    hide Marvin, Word, Join;
    var x, y := b[..HASH2_LENGTH], c[..HASH2_LENGTH];
    var k := Damage(b, c, size, w);
    assert x[k] != y[k];
    assert DifferInOneWord(x, y, w);
    OneWordChangesHash(DEFAULT_SEED, x, y, w);
    assert U64(b, 32) == U64(c, 32);
  }

  lemma Damage(b: seq<byte>, c: seq<byte>, size: nat, w: nat) returns (k: nat)
    requires size <= |b| == |c| && DifferInOneWord(b[..size], c[..size], w)
    ensures w <= k < w + 4 && k < size && b[k] != c[k]
    ensures forall i :: 0 <= i < size && !(w <= i < w + 4) ==> b[i] == c[i]
  {
    k :| w <= k < w + 4 && k < size && b[..size][k] != c[..size][k];
    forall i | 0 <= i < size && !(w <= i < w + 4)
      ensures b[i] == c[i]
    {
      assert b[..size][i] == c[..size][i];
    }
  }

  /** The stored second hash is damaged: it no longer fits the bytes it covers. */
  lemma StoredHashDamage(b: seq<byte>, c: seq<byte>, size: nat, w: nat)
    requires HASH1_START <= size <= |b| == |c|
    requires DifferInOneWord(b[..size], c[..size], w) && HASH2_LENGTH <= w < HASH1_START
    requires ValidHashes(b, size)
    ensures U64(c, 32) != Marvin(DEFAULT_SEED, c[..HASH2_LENGTH])
  {
    hide Marvin, Word, Join;
    var k := Damage(b, c, size, w);
    assert b[..HASH2_LENGTH] == c[..HASH2_LENGTH];
    assert b[32..40][k - 32] != c[32..40][k - 32];
    if U64(b, 32) == U64(c, 32) { U64Injective(b, c, 32); }
  }

  /** A word after the header is damaged: the first hash no longer fits. */
  lemma BodyDamage(b: seq<byte>, c: seq<byte>, size: nat, w: nat)
    requires HASH1_START <= size <= |b| == |c|
    requires DifferInOneWord(b[..size], c[..size], w) && HASH1_START <= w
    requires ValidHashes(b, size)
    ensures U64(c, 24) != Marvin(DEFAULT_SEED, c[HASH1_START..size])
  {
    hide Marvin, Word, Join;
    var x, y := b[HASH1_START..size], c[HASH1_START..size];
    var k := Damage(b, c, size, w);
    assert x[k - HASH1_START] != y[k - HASH1_START];
    assert DifferInOneWord(x, y, w - HASH1_START);
    OneWordChangesHash(DEFAULT_SEED, x, y, w - HASH1_START);
    assert U64(b, 24) == U64(c, 24);
  }

  /** Damage to one aligned word anywhere in a valid entry: a reparse that succeeds reports invalid hashes. */
  lemma DamagedEntryIsInvalid(b: seq<byte>, c: seq<byte>)
    requires ParseEntry(b).Ok? && ParseEntry(b).value.entry.hasValidHashes
    requires DamagedIn(b, c, ParseEntry(b).value.entry.size)
    ensures ParseEntry(c).Ok? ==> !ParseEntry(c).value.entry.hasValidHashes
  {
    hide Marvin, Word, Join, Nat, TakePages;
    var size := ParseEntry(b).value.entry.size;
    var w: nat :| DifferInOneWord(b[..size], c[..size], w);
    if ParseEntry(c).Ok? {
      if w < HASH2_LENGTH {
        HeadDamage(b, c, size, w);
      } else if w < HASH1_START {
        StoredHashDamage(b, c, size, w);
      } else {
        var _ := Damage(b, c, size, w);
        assert U32(b, 4) == U32(c, 4);
        BodyDamage(b, c, size, w);
      }
    }
  }

  /** Where entry `k` of a log body starts. */
  function EntryStart(input: seq<byte>, k: nat): (at: nat)
    requires ParseEntries(input).Ok? && k < |ParseEntries(input).value|
    ensures at <= |input|
    decreases k
  {
    var n := ParseEntry(input).value.consumed;
    if k == 0 then 0 else n + EntryStart(input[n..], k - 1)
  }

  /** `c` is the log body `b` with one aligned word of its entry `k` damaged. */
  ghost predicate DamagedAtEntry(b: seq<byte>, c: seq<byte>, k: nat)
    requires ParseEntries(b).Ok? && k < |ParseEntries(b).value|
  {
    var at := EntryStart(b, k);
    |b| == |c| && b[..at] == c[..at] && DamagedIn(b[at..], c[at..], ParseEntries(b).value[k].size)
  }

  /**
    * Damage to one aligned word of a valid entry: if the log still parses, the entries before the damaged one are
    * unchanged, and in its place stands an entry with invalid hashes or the end of the log.
    */
  lemma {:induction false} DamagedLog(b: seq<byte>, c: seq<byte>, k: nat)
    requires ParseEntries(b).Ok? && k < |ParseEntries(b).value|
    requires ParseEntries(b).value[k].hasValidHashes
    requires DamagedAtEntry(b, c, k)
    ensures ParseEntries(c).Ok? ==>
              var es, ds := ParseEntries(b).value, ParseEntries(c).value;
              k <= |ds| && ds[..k] == es[..k] && (k < |ds| ==> !ds[k].hasValidHashes)
    decreases k
  {
    hide ParseEntry, DamagedIn;
    var parsed := ParseEntry(b).value;
    var n := parsed.consumed;
    if k == 0 {
      assert b[0..] == b && c[0..] == c;
      DamagedEntryIsInvalid(b, c);
    } else {
      SplitDamage(b, c, k);
      DamagedLog(b[n..], c[n..], k - 1);
      if ParseEntries(c).Ok? {
        assert ParseEntries(b).value == [parsed.entry] + ParseEntries(b[n..]).value;
        assert ParseEntries(c).value == [parsed.entry] + ParseEntries(c[n..]).value;
        PrefixOfCons(parsed.entry, ParseEntries(b[n..]).value, ParseEntries(c[n..]).value, k);
      }
    }
  }

  /** Damage after the first entry leaves that entry as it was and is damage to the rest. */
  lemma SplitDamage(b: seq<byte>, c: seq<byte>, k: nat)
    requires ParseEntries(b).Ok? && 0 < k < |ParseEntries(b).value|
    requires DamagedAtEntry(b, c, k)
    ensures ParseEntry(c) == ParseEntry(b)
    ensures DamagedAtEntry(b[ParseEntry(b).value.consumed..], c[ParseEntry(b).value.consumed..], k - 1)
  {
    hide ParseEntry, DamagedIn;
    var n, at := ParseEntry(b).value.consumed, EntryStart(b, k);
    SharedPrefix(b, c, at, 0, n);
    EntryIsLocal(b, c);
    SharedPrefix(b, c, at, n, at);
    assert b[n..][at - n..] == b[at..] && c[n..][at - n..] == c[at..];
    assert b[n..][..at - n] == b[n..at] && c[n..][..at - n] == c[n..at];
  }

  lemma PrefixOfCons<T>(x: T, s: seq<T>, t: seq<T>, k: nat)
    requires 0 < k <= |s| + 1 && k <= |t| + 1 && s[..k - 1] == t[..k - 1]
    ensures ([x] + s)[..k] == ([x] + t)[..k]
  {
    assert ([x] + s)[..k] == [x] + s[..k - 1];
    assert ([x] + t)[..k] == [x] + t[..k - 1];
  }
}
