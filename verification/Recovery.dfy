/** Recovery of a primary file from its transaction logs, with `recover_deleted` off. */
module Recovery {
  import opened Common
  import opened Bytes
  import opened LogEntries
  import opened LogFormat
  import opened BaseBlock
  import opened Replay

  /** What `check_base_block` reports. */
  datatype Check = Check(isSupported: bool, hasBadChecksum: bool)

  function CheckHeader(b: seq<byte>, h: Header): Check
    requires BASE_BLOCK_LEN <= |b|
  {
    if h.isSupported then Check(true, Checksum(b[..BASE_BLOCK_LEN]) != h.checksum) else Check(false, false)
  }

  // ----- Logs from bytes -----

  function ParseLog(input: seq<byte>): (r: Outcome<Log>)
    ensures r.Ok? ==> WellFormed(r.value)
  {
    match ParseBase(input)
    case Err => Err
    case Panic => Panic
    case Ok(h) =>
      match ParseEntries(input[BASE_BLOCK_LEN..])
      case Ok(entries) =>
        PrefixIsEnough(input);
        Ok(Log(h, input[..BASE_BLOCK_LEN], entries))
      case Err => Err
      case Panic => Panic
  }

  /** The stored header bytes are a whole base block, and parse to the stored header. */
  predicate WellFormed(log: Log) {
    |log.headerBytes| == BASE_BLOCK_LEN && ParseBase(log.headerBytes) == Ok(log.header)
  }

  predicate AllWellFormed(logs: seq<Log>) {
    forall i :: 0 <= i < |logs| ==> WellFormed(logs[i])
  }

  lemma PrefixIsEnough(b: seq<byte>)
    requires BASE_BLOCK_LEN <= |b|
    ensures ParseBase(b[..BASE_BLOCK_LEN]) == ParseBase(b)
  {
    hide U32, Nat;
    var c := b[..BASE_BLOCK_LEN];
    assert c[..BASE_BLOCK_LEN] == b[..BASE_BLOCK_LEN];
    SharedHeader(b, c);
  }

  /** The header depends on the first 512 bytes only. */
  lemma SharedHeader(b: seq<byte>, c: seq<byte>)
    requires BASE_BLOCK_LEN <= |b| && BASE_BLOCK_LEN <= |c|
    requires b[..BASE_BLOCK_LEN] == c[..BASE_BLOCK_LEN]
    ensures ParseBase(b) == ParseBase(c)
  {
    hide U32, Nat;
    SharedPrefix(b, c, BASE_BLOCK_LEN, 0, 4);
    SharedPrefix(b, c, BASE_BLOCK_LEN, 4, 8);
    SharedPrefix(b, c, BASE_BLOCK_LEN, 8, 12);
    SharedPrefix(b, c, BASE_BLOCK_LEN, 28, 32);
    SharedPrefix(b, c, BASE_BLOCK_LEN, 40, 44);
    SharedPrefix(b, c, BASE_BLOCK_LEN, 508, 512);
  }

  /** Damage inside one word of a valid entry of a log file: the log still has its header, and replay applies of it
      exactly what it applied of the entries before the damaged one. */
  lemma DamagedLogFile(b: seq<byte>, c: seq<byte>, k: nat, secondary: u32)
    requires ParseLog(b).Ok? && k < |ParseLog(b).value.entries| && ParseLog(b).value.entries[k].hasValidHashes
    requires |b| == |c| && b[..BASE_BLOCK_LEN] == c[..BASE_BLOCK_LEN]
    requires DamagedAtEntry(b[BASE_BLOCK_LEN..], c[BASE_BLOCK_LEN..], k)
    ensures ParseLog(c).Ok? ==>
              var log, damaged := ParseLog(b).value, ParseLog(c).value;
              && damaged.header == log.header && damaged.headerBytes == log.headerBytes
              && Applied(damaged.entries, secondary, 0) == Applied(log.entries[..k], secondary, 0)
  {
    hide ParseBase, ParseEntries, Applied, DamagedAtEntry, WellFormed;
    SharedHeader(b, c);
    DamagedEntryIsNeverApplied(b[BASE_BLOCK_LEN..], c[BASE_BLOCK_LEN..], k, secondary);
  }

  /** A log file is its header and its entries: what is written behind a header is read back. */
  lemma LogRoundTrip(header: seq<byte>, es: seq<WrittenEntry>, rest: seq<byte>)
    requires |header| == 512 && ParseBase(header).Ok? && ParseEntry(rest).Err?
    requires forall e :: e in es ==> IsConsistent(e)
    ensures ParseLog(header + (AllBytes(es) + rest)) == Ok(Log(ParseBase(header).value, header, AllRead(es)))
  {
    hide ParseBase, ParseEntries, ParseEntry, AllBytes, AllRead, WellFormed, IsConsistent;
    var body := AllBytes(es) + rest;
    var input := header + body;
    assert input[..512] == header && input[512..] == body && header[..512] == header;
    SharedHeader(header, input);
    EntriesRoundTrip(es, rest);
  }

  // ----- Recovery as a function of the bytes -----

  /** `handle_bad_checksum`: the newest log's header replaces the primary's, and the oldest of several logs is dropped. */
  function Restore(b: seq<byte>, logs: seq<Log>): (r: seq<byte>)
    requires logs != [] && HIVE_BINS_START <= |b| && WellFormed(logs[|logs| - 1])
    ensures |r| == |b|
  {
    Splice(b, 0, logs[|logs| - 1].headerBytes)
  }

  function LogsAfter(hasBadChecksum: bool, logs: seq<Log>): seq<Log> {
    if hasBadChecksum && |logs| > 1 then logs[1..] else logs
  }

  /** Replays the logs and rewrites the header, unless the header says that nothing is pending. */
  function ReplayPending(b: seq<byte>, h: Header, logs: seq<Log>): (r: Outcome<seq<byte>>)
    requires HIVE_BINS_START <= |b|
    ensures !r.Panic? && (r.Ok? ==> |b| <= |r.value|)
  {
    if h.primarySequenceNumber == h.secondarySequenceNumber then Ok(b)
    else
      var run := RunLogs(logs, h.secondarySequenceNumber, 0);
      match ReplayAll(b, Flatten(run.runs), h.hiveBinsDataSize)
      case Ok(b') => Ok(WithSequenceNumber(b', run.number))
      case _ => Err
  }

  function Apply(b: seq<byte>, hasBadChecksum: bool, logs: seq<Log>): (r: Outcome<seq<byte>>)
    requires HIVE_BINS_START <= |b|
    requires AllWellFormed(logs)
    ensures !r.Panic?
  {
    if logs == [] then Ok(b)
    else
      var restored := if hasBadChecksum then Restore(b, logs) else b;
      match ParsePrimary(restored)
      case Ok(h) => ReplayPending(restored, h, LogsAfter(hasBadChecksum, logs))
      case _ => Err
  }

  /** Loading a primary file: read its header, and recover it when the file type is supported. */
  function Recover(b: seq<byte>, logs: seq<Log>): (r: Outcome<seq<byte>>)
    requires AllWellFormed(logs)
    ensures !r.Panic?
  {
    match ParsePrimary(b)
    case Ok(h) =>
      var check := CheckHeader(b, h);
      if check.isSupported then Apply(b, check.hasBadChecksum, logs) else Ok(b)
    case _ => Err
  }

  // ----- What recovery does -----

  /** A file with a good checksum whose numbers differ, and logs that follow on each other: every entry of every log is
      replayed and the header gets the last number, unless some page does not fit. */
  lemma ChainedRecovery(b: seq<byte>, h: Header, logs: seq<Log>)
    requires AllWellFormed(logs) && logs != [] && AreChained(logs, h.secondarySequenceNumber)
    requires ParsePrimary(b) == Ok(h) && h.isSupported && h.checksum == Checksum(b[..512])
    requires h.primarySequenceNumber != h.secondarySequenceNumber
    ensures var es := EntriesOf(logs);
            if PagesFit(|b|, es, h.hiveBinsDataSize) then
              var replayed := ReplayAll(b, es, h.hiveBinsDataSize);
              replayed.Ok? && Recover(b, logs) == Ok(WithSequenceNumber(replayed.value, LastNumber(es, 0)))
            else Recover(b, logs) == Err
  {
    hide RunLogs, ReplayAll, WithSequenceNumber, AreChained, Checksum, Nat, WellFormed, PagesFit;
    ZeroIsZero(0);
    ChainedLogsAreApplied(logs, h.secondarySequenceNumber, 0);
    ReplaySucceeds(b, EntriesOf(logs), h.hiveBinsDataSize);
  }

  /** A file with a bad checksum and one or two logs: the header is that of the last log, and only that log is replayed. */
  lemma BadChecksumRecovery(b: seq<byte>, h: Header, logs: seq<Log>)
    requires AllWellFormed(logs) && (|logs| == 1 || |logs| == 2)
    requires ParsePrimary(b) == Ok(h) && h.isSupported && h.checksum != Checksum(b[..512])
    ensures var newer := logs[|logs| - 1];
            var restored := newer.headerBytes + b[512..];
            && ParsePrimary(restored) == Ok(newer.header) && 4096 <= |restored|
            && Recover(b, logs) == ReplayPending(restored, newer.header, [newer])
  {
    hide ReplayPending, WellFormed, Checksum, ParsePrimary;
    var newer := logs[|logs| - 1];
    RestoredHeader(b, logs);
    RestoredBytes(b, newer, logs);
    assert LogsAfter(true, logs) == [newer];
  }

  lemma RestoredBytes(b: seq<byte>, newer: Log, logs: seq<Log>)
    requires logs != [] && logs[|logs| - 1] == newer && WellFormed(newer) && 4096 <= |b|
    ensures Restore(b, logs) == newer.headerBytes + b[512..]
  {
  }

  // ----- Recovering twice changes nothing -----

  /** A replay leaves the header readable as it was. */
  lemma ReplayKeepsHeader(b: seq<byte>, es: seq<LogEntry>, hiveSize: nat)
    requires HIVE_BINS_START <= |b| && ReplayAll(b, es, hiveSize).Ok?
    ensures ParsePrimary(ReplayAll(b, es, hiveSize).value) == ParsePrimary(b)
  {
    var r := ReplayAll(b, es, hiveSize).value;
    ReplayIsLastWriterWins(b, es, hiveSize);
    assert r[..BASE_BLOCK_LEN] == b[..BASE_BLOCK_LEN];
    SharedHeader(b, r);
  }

  /** What a recovery that replayed something leaves: equal numbers, a right checksum, the same file type, and
      after the header exactly the replayed bytes. */
  lemma RecoveredHeader(b: seq<byte>, h: Header, logs: seq<Log>)
    requires ParsePrimary(b) == Ok(h) && h.primarySequenceNumber != h.secondarySequenceNumber
    requires ReplayPending(b, h, logs).Ok?
    ensures var r, run := ReplayPending(b, h, logs).value, RunLogs(logs, h.secondarySequenceNumber, 0);
            && ParsePrimary(r) == Ok(Header(run.number, run.number, h.isSupported, h.hiveBinsDataSize,
                                            Checksum(r[..BASE_BLOCK_LEN])))
            && r[BASE_BLOCK_LEN..] == ReplayAll(b, Flatten(run.runs), h.hiveBinsDataSize).value[BASE_BLOCK_LEN..]
  {
    hide Checksum, WithSequenceNumber, RunLogs, ReplayAll;
    var run := RunLogs(logs, h.secondarySequenceNumber, 0);
    var replayed := ReplayAll(b, Flatten(run.runs), h.hiveBinsDataSize).value;
    ReplayKeepsHeader(b, Flatten(run.runs), h.hiveBinsDataSize);
    RewrittenHeader(replayed, run.number);
  }

  /** A file whose two numbers agree, and whose checksum is right or whose header is the newest log's, is left alone. */
  lemma Settled(b: seq<byte>, h: Header, logs: seq<Log>)
    requires AllWellFormed(logs)
    requires ParsePrimary(b) == Ok(h) && h.primarySequenceNumber == h.secondarySequenceNumber
    requires logs == [] || !CheckHeader(b, h).hasBadChecksum || Restore(b, logs) == b
    ensures Recover(b, logs) == Ok(b)
  {
    hide ParsePrimary, Checksum, RunLogs, ReplayAll, Splice;
  }

  lemma RestoredHeader(b: seq<byte>, logs: seq<Log>)
    requires logs != [] && HIVE_BINS_START <= |b| && WellFormed(logs[|logs| - 1])
    ensures ParsePrimary(Restore(b, logs)) == Ok(logs[|logs| - 1].header)
    ensures Restore(Restore(b, logs), logs) == Restore(b, logs)
  {
    var restored, bytes := Restore(b, logs), logs[|logs| - 1].headerBytes;
    assert restored[..BASE_BLOCK_LEN] == bytes == bytes[..BASE_BLOCK_LEN];
    SharedHeader(restored, bytes);
  }

  /** Recovery is idempotent: recovering what a successful recovery left, with the same logs, succeeds and changes
      no byte. This includes files whose checksum was wrong and took their header from a log. */
  lemma RecoveryIsIdempotent(b: seq<byte>, logs: seq<Log>)
    requires AllWellFormed(logs)
    requires Recover(b, logs).Ok?
    ensures Recover(Recover(b, logs).value, logs) == Recover(b, logs)
  {
    hide ParsePrimary, Checksum, RunLogs, ReplayAll, Restore, ReplayPending;
    var h := ParsePrimary(b).value;
    var check := CheckHeader(b, h);
    if check.isSupported && logs != [] {
      var restored := if check.hasBadChecksum then Restore(b, logs) else b;
      if check.hasBadChecksum { RestoredHeader(b, logs); }
      var g := ParsePrimary(restored).value;
      var rest := LogsAfter(check.hasBadChecksum, logs);
      if g.primarySequenceNumber == g.secondarySequenceNumber {
        NothingPending(restored, g, rest);
        Settled(restored, g, logs);
      } else {
        RecoveredHeader(restored, g, rest);
        var r := ReplayPending(restored, g, rest).value;
        Settled(r, ParsePrimary(r).value, logs);
      }
    }
  }

  lemma NothingPending(b: seq<byte>, h: Header, logs: seq<Log>)
    requires HIVE_BINS_START <= |b| && h.primarySequenceNumber == h.secondarySequenceNumber
    ensures ReplayPending(b, h, logs) == Ok(b)
  {
  }

  // ----- The parser that does this in place -----

  class Parser {
    var buffer: seq<byte>
    var hbinOffset: nat
    var header: Option<Header>

    /** The header field is the header of the buffer, so the bins start at 4096. */
    ghost predicate Valid()
      reads this
    {
      header.Some? && hbinOffset == HIVE_BINS_START && ParsePrimary(buffer) == Ok(header.value)
    }

    constructor (bytes: seq<byte>)
      ensures buffer == bytes && header == None
    {
      buffer, hbinOffset, header := bytes, 0, None;
    }

    method InitBaseBlock() returns (r: Outcome<Check>)
      modifies this`hbinOffset, this`header
      ensures r == (match ParsePrimary(buffer) case Ok(h) => Ok(CheckHeader(buffer, h)) case _ => Err)
      ensures r.Ok? ==> Valid()
    {
      var parsed := ParsePrimary(buffer);
      if !parsed.Ok? {
        return Err;
      }
      hbinOffset := HIVE_BINS_START;
      header := Some(parsed.value);
      if parsed.value.isSupported {
        var checksum := CalculateChecksum(buffer[..BASE_BLOCK_LEN]);
        r := Ok(Check(true, checksum.value != parsed.value.checksum));
      } else {
        r := Ok(Check(false, false));
      }
    }

    /** The loop over the dirty pages of one entry. */
    method WriteDirtyPages(pages: seq<DirtyPage>) returns (ok: bool)
      requires Valid()
      modifies this`buffer
      ensures ok == WritePages(old(buffer), pages).Ok?
      ensures ok ==> buffer == WritePages(old(buffer), pages).value
    {
      hide ParsePrimary;
      var i := 0;
      while i < |pages|
        invariant i <= |pages|
        invariant WritePages(buffer, pages[i..]) == WritePages(old(buffer), pages)
      {
        var at := pages[i].offset + hbinOffset;
        var end := at + |pages[i].bytes|;
        if |buffer| < end {
          return false;
        }
        assert pages[i..][0] == pages[i] && pages[i..][1..] == pages[i + 1..];
        buffer := Splice(buffer, at, pages[i].bytes);
        i := i + 1;
      }
      ok := true;
    }

    /** One applied entry: lengthens the buffer with zeros, then writes its pages. */
    method ApplyEntry(e: LogEntry) returns (ok: bool)
      requires Valid()
      modifies this`buffer
      ensures ok == ReplayEntry(old(buffer), e, header.value.hiveBinsDataSize).Ok?
      ensures ok ==> buffer == ReplayEntry(old(buffer), e, header.value.hiveBinsDataSize).value && Valid()
    {
      var hiveSize := header.value.hiveBinsDataSize;
      ghost var before := buffer;
      if hiveSize < e.hiveBinsDataSize {
        buffer := buffer + Zeros(e.hiveBinsDataSize - hiveSize);
        assert buffer[..BASE_BLOCK_LEN] == before[..BASE_BLOCK_LEN];
        SharedHeader(buffer, before);
      } else {
        assert buffer + Zeros(0) == buffer;
      }
      ok := WriteDirtyPages(e.pages);
      if ok {
        assert ReplayAll(before, [e], hiveSize) == Ok(buffer);
        ReplayKeepsHeader(before, [e], hiveSize);
      }
    }

    /** `update_parser`: skips, stops or applies, entry by entry. On an error the buffer is left part-written. */
    method UpdateParser(log: Log) returns (r: Outcome<u32>)
      requires Valid()
      modifies this`buffer
      ensures var applied := Applied(log.entries, header.value.secondarySequenceNumber, 0);
              match ReplayAll(old(buffer), applied, header.value.hiveBinsDataSize)
              case Ok(b) => r == Ok(LastNumber(applied, 0)) && buffer == b && Valid()
              case _ => r.Err?
    {
      hide ParsePrimary, Before, Next, HasWholePages, ReplayEntry, Applied, ReplayAll, LastNumber, Remains;
      var secondary, hiveSize := header.value.secondarySequenceNumber, header.value.hiveBinsDataSize;
      ghost var b0, all := buffer, Applied(log.entries, secondary, 0);
      var n: u32, i := 0, 0;
      AllRemains(buffer, log.entries, secondary, hiveSize);
      while i < |log.entries|
        invariant 0 <= i <= |log.entries|
        invariant Valid()
        invariant Remains(b0, log.entries, secondary, hiveSize, i, buffer, n)
      {
        var e := log.entries[i];
        NextEntry(b0, log.entries, secondary, hiveSize, i, buffer, n);
        if e.hasValidHashes {
          if Before(e.sequenceNumber, secondary) {
          } else if !HasWholePages(e) {
            break;
          } else if n != 0 && e.sequenceNumber != Next(n) {
            break;
          } else {
            n := e.sequenceNumber;
            var ok := ApplyEntry(e);
            if !ok {
              return Err;
            }
          }
        } else {
          break;
        }
        i := i + 1;
      }
      if i == |log.entries| {
        NothingRemains(b0, log.entries, secondary, hiveSize, buffer, n);
      }
      r := Ok(n);
    }

    /** `handle_bad_checksum`: copies the newest log's header over the file's and reads it again. */
    method HandleBadChecksum(logs: seq<Log>) returns (rest: seq<Log>)
      requires Valid() && logs != [] && AllWellFormed(logs)
      modifies this
      ensures Valid() && buffer == Restore(old(buffer), logs) && rest == LogsAfter(true, logs)
    {
      hide ParsePrimary;
      RestoredHeader(buffer, logs);
      buffer := Splice(buffer, 0, logs[|logs| - 1].headerBytes);
      rest := logs;
      if |rest| > 1 {
        rest := rest[1..];
      }
      var _ := InitBaseBlock();
    }

    /** `prepare_transaction_logs`: false when the two sequence numbers agree, so nothing is pending. */
    method PrepareTransactionLogs(hasBadChecksum: bool, logs: seq<Log>) returns (proceed: bool, rest: seq<Log>)
      requires Valid() && logs != [] && AllWellFormed(logs)
      modifies this
      ensures Valid()
      ensures buffer == (if hasBadChecksum then Restore(old(buffer), logs) else old(buffer))
      ensures rest == LogsAfter(hasBadChecksum, logs)
      ensures proceed <==> header.value.primarySequenceNumber != header.value.secondarySequenceNumber
    {
      rest := logs;
      if hasBadChecksum {
        rest := HandleBadChecksum(logs);
      }
      proceed := header.value.primarySequenceNumber != header.value.secondarySequenceNumber;
    }

    /** `update_header_after_transaction_logs`: three writes to the header, and a fresh read of it. */
    method UpdateHeader(number: u32)
      requires Valid()
      modifies this
      ensures Valid() && buffer == WithSequenceNumber(old(buffer), number)
    {
      hide ParsePrimary, U32, Checksum;
      RewrittenHeader(buffer, number);
      var bytes := Le32(number);
      buffer := Splice(buffer, PRIMARY_SEQUENCE_NUMBER_OFFSET, bytes);
      buffer := Splice(buffer, SECONDARY_SEQUENCE_NUMBER_OFFSET, bytes);
      var checksum := CalculateChecksum(buffer[..BASE_BLOCK_LEN]);
      buffer := Splice(buffer, CHECKSUM_OFFSET, Le32(checksum.value));
      var _ := InitBaseBlock();
    }

    /** The loop over the logs. */
    method RunAllLogs(logs: seq<Log>) returns (r: Outcome<u32>)
      requires Valid()
      modifies this`buffer
      ensures var run := RunLogs(logs, header.value.secondarySequenceNumber, 0);
              match ReplayAll(old(buffer), Flatten(run.runs), header.value.hiveBinsDataSize)
              case Ok(b) => r == Ok(run.number) && buffer == b && Valid()
              case _ => r.Err?
    {
      hide ParsePrimary, Before, Next, ReplayAll, Applied, LastNumber;
      var secondary, hiveSize := header.value.secondarySequenceNumber, header.value.hiveBinsDataSize;
      ghost var b0, all := buffer, RunLogs(logs, secondary, 0);
      var n: u32, i := 0, 0;
      assert logs[0..] == logs;
      while i < |logs|
        invariant 0 <= i <= |logs|
        invariant Valid()
        invariant var left := RunLogs(logs[i..], secondary, n);
                  && left.number == all.number
                  && ReplayAll(b0, Flatten(all.runs), hiveSize) == ReplayAll(buffer, Flatten(left.runs), hiveSize)
      {
        var log := logs[i];
        NextLog(buffer, logs, i, secondary, n, hiveSize);
        if !Before(log.header.primarySequenceNumber, secondary) {
          if n == 0 || log.header.primarySequenceNumber == Next(n) {
            var applied := UpdateParser(log);
            if !applied.Ok? {
              return Err;
            }
            n := applied.value;
          }
        }
        i := i + 1;
      }
      NoLogsLeft(buffer, logs, i, secondary, n, hiveSize);
      r := Ok(n);
    }

    /** `apply_transaction_logs`. */
    method ApplyTransactionLogs(hasBadChecksum: bool, logs: seq<Log>) returns (r: Outcome<()>)
      requires Valid() && AllWellFormed(logs)
      modifies this
      ensures match Apply(old(buffer), hasBadChecksum, logs)
              case Ok(b) => r.Ok? && buffer == b
              case _ => r.Err?
    {
      hide ParsePrimary, RunLogs, ReplayAll, WithSequenceNumber, Restore, CheckHeader;
      if logs != [] {
        var proceed, rest := PrepareTransactionLogs(hasBadChecksum, logs);
        if proceed {
          var number := RunAllLogs(rest);
          if !number.Ok? {
            return Err;
          }
          UpdateHeader(number.value);
        }
      }
      r := Ok(());
    }

    /** `init`, up to reading the root key: the method form of `Recover`. */
    method Init(logs: seq<Log>) returns (r: Outcome<()>)
      requires AllWellFormed(logs)
      modifies this
      ensures match Recover(old(buffer), logs)
              case Ok(b) => r.Ok? && buffer == b
              case _ => r.Err?
    {
      hide ParsePrimary, Apply, CheckHeader;
      var check := InitBaseBlock();
      if !check.Ok? {
        return Err;
      }
      r := Ok(());
      if check.value.isSupported {
        r := ApplyTransactionLogs(check.value.hasBadChecksum, logs);
      }
    }
  }

  lemma NextLog(b: seq<byte>, logs: seq<Log>, i: nat, secondary: u32, n: u32, hiveSize: nat)
    requires i < |logs|
    ensures var left := RunLogs(logs[i..], secondary, n);
            if Eligible(logs[i], secondary, n) then
              var applied := Applied(logs[i].entries, secondary, 0);
              var rest := RunLogs(logs[i + 1..], secondary, LastNumber(applied, 0));
              && left.number == rest.number
              && ReplayAll(b, Flatten(left.runs), hiveSize) ==
                 (match ReplayAll(b, applied, hiveSize)
                  case Ok(b') => ReplayAll(b', Flatten(rest.runs), hiveSize) case Err => Err case Panic => Panic)
            else left == RunLogs(logs[i + 1..], secondary, n)
  {
    hide Before, Next, ReplayAll, Applied;
    assert logs[i..][0] == logs[i] && logs[i..][1..] == logs[i + 1..];
    if Eligible(logs[i], secondary, n) {
      var applied := Applied(logs[i].entries, secondary, 0);
      var rest := RunLogs(logs[i + 1..], secondary, LastNumber(applied, 0));
      assert ([applied] + rest.runs)[1..] == rest.runs;
      ReplayConcat(b, applied, Flatten(rest.runs), hiveSize);
    }
  }

  lemma NoLogsLeft(b: seq<byte>, logs: seq<Log>, i: nat, secondary: u32, n: u32, hiveSize: nat)
    requires i == |logs|
    ensures RunLogs(logs[i..], secondary, n) == Run([], n)
    ensures ReplayAll(b, Flatten(RunLogs(logs[i..], secondary, n).runs), hiveSize) == Ok(b)
  {
  }

  /** A replay of `entries` onto `b0` has come to entry `i`, the buffer `b` and the last number `n`. */
  ghost predicate Remains(b0: seq<byte>, entries: seq<LogEntry>, secondary: u32, hiveSize: nat, i: nat, b: seq<byte>, n: u32)
    requires i <= |entries|
  {
    var all, left := Applied(entries, secondary, 0), Applied(entries[i..], secondary, n);
    ReplayAll(b0, all, hiveSize) == ReplayAll(b, left, hiveSize) && LastNumber(all, 0) == LastNumber(left, n)
  }

  /** The replay ends with the buffer `b` and the number `n`. */
  ghost predicate EndsWith(b0: seq<byte>, entries: seq<LogEntry>, secondary: u32, hiveSize: nat, b: seq<byte>, n: u32) {
    var all := Applied(entries, secondary, 0);
    ReplayAll(b0, all, hiveSize) == Ok(b) && LastNumber(all, 0) == n
  }

  lemma AllRemains(b0: seq<byte>, entries: seq<LogEntry>, secondary: u32, hiveSize: nat)
    ensures Remains(b0, entries, secondary, hiveSize, 0, b0, 0)
  {
    assert entries[0..] == entries;
  }

  lemma NothingRemains(b0: seq<byte>, entries: seq<LogEntry>, secondary: u32, hiveSize: nat, b: seq<byte>, n: u32)
    requires Remains(b0, entries, secondary, hiveSize, |entries|, b, n)
    ensures EndsWith(b0, entries, secondary, hiveSize, b, n)
  {
  }

  /** What the treatment of the next entry means for the rest of the replay. */
  lemma NextEntry(b0: seq<byte>, entries: seq<LogEntry>, secondary: u32, hiveSize: nat, i: nat, b: seq<byte>, n: u32)
    requires i < |entries| && Remains(b0, entries, secondary, hiveSize, i, b, n)
    ensures var e := entries[i];
            if Stops(e, secondary, n) then EndsWith(b0, entries, secondary, hiveSize, b, n)
            else if Before(e.sequenceNumber, secondary) then Remains(b0, entries, secondary, hiveSize, i + 1, b, n)
            else
              match ReplayEntry(b, e, hiveSize)
              case Ok(b') => Remains(b0, entries, secondary, hiveSize, i + 1, b', e.sequenceNumber)
              case _ => ReplayAll(b0, Applied(entries, secondary, 0), hiveSize).Err?
  {
    hide Before, Next, ReplayEntry, Stops;
    assert entries[i..][0] == entries[i] && entries[i..][1..] == entries[i + 1..];
    var rest := Applied(entries[i + 1..], secondary, entries[i].sequenceNumber);
    assert ([entries[i]] + rest)[1..] == rest;
  }
}
