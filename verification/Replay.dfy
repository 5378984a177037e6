/**
  * Replaying transaction logs onto the bytes of a hive: which entries are applied, and what the bytes become.
  * Sequence numbers are 32-bit words and wrap around, as in a release build.
  */
module Replay {
  import opened Bytes
  import opened LogEntries
  import opened BaseBlock

  const PAGE_SIZE := 4096

  datatype Log = Log(header: Header, headerBytes: seq<byte>, entries: seq<LogEntry>)

  // Comparison and successor of sequence numbers, under names so that proofs can treat them as symbols.
  predicate Before(x: u32, y: u32) { Nat(x) < Nat(y) }
  function Next(x: u32): u32 { Plus1(x) }

  // ----- Which entries are applied -----

  /** `is_valid_hive_bin_data_size`. */
  predicate HasWholePages(e: LogEntry) {
    e.hiveBinsDataSize % PAGE_SIZE == 0
  }

  /** The entry ends the replay of its log, given the number of the last entry applied (0 if none). */
  predicate Stops(e: LogEntry, secondary: u32, last: u32) {
    || !e.hasValidHashes
    || (&& !Before(e.sequenceNumber, secondary)
        && (!HasWholePages(e) || (last != 0 && e.sequenceNumber != Next(last))))
  }

  /** The entries of one log that are applied, in order. */
  function Applied(entries: seq<LogEntry>, secondary: u32, last: u32): seq<LogEntry> {
    if entries == [] || Stops(entries[0], secondary, last) then []
    else if Before(entries[0].sequenceNumber, secondary) then Applied(entries[1..], secondary, last)
    else [entries[0]] + Applied(entries[1..], secondary, entries[0].sequenceNumber)
  }

  function LastNumber(applied: seq<LogEntry>, otherwise: u32): u32 {
    if applied == [] then otherwise else applied[|applied| - 1].sequenceNumber
  }

  /** The entries that are not older than the primary file. */
  function NotOlder(entries: seq<LogEntry>, secondary: u32): seq<LogEntry> {
    if entries == [] then []
    else (if Before(entries[0].sequenceNumber, secondary) then [] else [entries[0]]) + NotOlder(entries[1..], secondary)
  }

  /** Each number follows the one before it. */
  ghost predicate Consecutive(es: seq<LogEntry>) {
    forall j, k :: 0 <= j < k < |es| && k == j + 1 ==> es[k].sequenceNumber == Next(es[j].sequenceNumber)
  }

  /** As `Consecutive`, except after an entry numbered 0. */
  ghost predicate ConsecutiveUnlessZero(es: seq<LogEntry>) {
    forall j, k :: 0 <= j < k < |es| && k == j + 1 && es[j].sequenceNumber != 0 ==>
      es[k].sequenceNumber == Next(es[j].sequenceNumber)
  }

  /** What an applied entry satisfies by itself. */
  ghost predicate Acceptable(e: LogEntry, secondary: u32) {
    e.hasValidHashes && HasWholePages(e) && !Before(e.sequenceNumber, secondary)
  }

  /** Applied entries have valid hashes and whole pages, are not older than the primary file, and are numbered
      consecutively wherever the number before is not 0 (0 is what the code uses for "none applied yet"). */
  lemma {:induction false} AppliedEntriesFollow(entries: seq<LogEntry>, secondary: u32, last: u32)
    ensures var a := Applied(entries, secondary, last);
            && (forall e :: e in a ==> e in entries && Acceptable(e, secondary))
            && (a != [] && last != 0 ==> a[0].sequenceNumber == Next(last))
            && ConsecutiveUnlessZero(a)
  {
    hide Before, Next;
    if entries != [] && !Stops(entries[0], secondary, last) {
      var older := Before(entries[0].sequenceNumber, secondary);
      var last' := if older then last else entries[0].sequenceNumber;
      AppliedEntriesFollow(entries[1..], secondary, last');
      var a, rest := Applied(entries, secondary, last), Applied(entries[1..], secondary, last');
      if older {
        assert a == rest;
      } else {
        assert a == [entries[0]] + rest;
        forall j, k | 0 <= j < k < |a| && k == j + 1 && a[j].sequenceNumber != 0
          ensures a[k].sequenceNumber == Next(a[j].sequenceNumber)
        {
          if j > 0 { assert a[k] == rest[k - 1] && a[j] == rest[j - 1]; }
        }
      }
    }
  }

  /** The applied entries are those not older than the primary file among the first `m`, where entry `m` is the
      one that stops the replay, if any does. */
  lemma {:induction false} AppliedUpToStop(entries: seq<LogEntry>, secondary: u32, last: u32) returns (m: nat)
    ensures m <= |entries|
    ensures Applied(entries, secondary, last) == NotOlder(entries[..m], secondary)
    ensures m < |entries| ==> Stops(entries[m], secondary, LastNumber(Applied(entries, secondary, last), last))
  {
    hide Before, Next, Stops, HasWholePages, Applied, NotOlder;
    AppliedStep(entries, secondary, last);
    if entries == [] || Stops(entries[0], secondary, last) {
      m := 0;
      NotOlderStep(entries, secondary, 0);
    } else {
      var older := Before(entries[0].sequenceNumber, secondary);
      var last' := if older then last else entries[0].sequenceNumber;
      m := AppliedUpToStop(entries[1..], secondary, last');
      m := m + 1;
      NotOlderStep(entries, secondary, m);
    }
  }

  /** The first entry, and the others. */
  lemma AppliedStep(entries: seq<LogEntry>, secondary: u32, last: u32)
    ensures entries == [] || Stops(entries[0], secondary, last) ==> Applied(entries, secondary, last) == []
    ensures entries != [] && !Stops(entries[0], secondary, last) ==>
              var older := Before(entries[0].sequenceNumber, secondary);
              var last' := if older then last else entries[0].sequenceNumber;
              var a, rest := Applied(entries, secondary, last), Applied(entries[1..], secondary, last');
              a == (if older then [] else [entries[0]]) + rest && LastNumber(a, last) == LastNumber(rest, last')
  {
    hide Before, Stops;
  }

  lemma NotOlderStep(entries: seq<LogEntry>, secondary: u32, m: nat)
    requires m <= |entries|
    ensures m == 0 ==> NotOlder(entries[..m], secondary) == []
    ensures m > 0 ==>
              NotOlder(entries[..m], secondary) ==
              (if Before(entries[0].sequenceNumber, secondary) then [] else [entries[0]]) +
              NotOlder(entries[1..][..m - 1], secondary)
  {
    hide Before;
    if m > 0 { assert entries[..m][1..] == entries[1..][..m - 1] && entries[..m][0] == entries[0]; }
  }

  // ----- The same in numbers -----

  /** The number of the last entry before `i` that is not older than the primary file; 0 if there is none. */
  ghost function LastNotOlder(entries: seq<LogEntry>, secondary: u32, i: nat): u32
    requires i <= |entries|
  {
    if i == 0 then 0
    else if Nat(entries[i - 1].sequenceNumber) >= Nat(secondary) then entries[i - 1].sequenceNumber
    else LastNotOlder(entries, secondary, i - 1)
  }

  /** Entry `i` can not be applied: its hashes are wrong; or it is not older than the primary file, and its size is no
      multiple of 4096 or its number is not one above that of the last not-older entry before it. */
  ghost predicate IsBad(entries: seq<LogEntry>, secondary: u32, i: nat)
    requires i < |entries|
  {
    var e, last := entries[i], Nat(LastNotOlder(entries, secondary, i));
    || !e.hasValidHashes
    || (&& Nat(e.sequenceNumber) >= Nat(secondary)
        && (e.hiveBinsDataSize % 4096 != 0 || (last != 0 && Nat(e.sequenceNumber) != (last + 1) % 0x1_0000_0000)))
  }

  /** The first bad entry is at `m`, or there is none and `m` is the end. */
  ghost predicate IsEnd(entries: seq<LogEntry>, secondary: u32, m: nat) {
    && m <= |entries| && (forall i :: 0 <= i < m ==> !IsBad(entries, secondary, i))
    && (m < |entries| ==> IsBad(entries, secondary, m))
  }

  ghost predicate Ascends(ix: seq<nat>, i: nat, m: nat) {
    && (forall k :: 0 <= k < |ix| ==> i <= ix[k] < m)
    && forall k, l :: 0 <= k < l < |ix| ==> ix[k] < ix[l]
  }

  /** The entries at the indices `ix`, which ascend and are those of the not-older entries from `i` to `m`. */
  ghost predicate AreNotOlder(a: seq<LogEntry>, entries: seq<LogEntry>, secondary: u32, i: nat, m: nat, ix: seq<nat>)
    requires i <= m <= |entries|
  {
    && Ascends(ix, i, m)
    && |a| == |ix| && (forall k :: 0 <= k < |ix| ==> a[k] == entries[ix[k]])
    && forall j :: i <= j < m ==> (j in ix <==> Nat(entries[j].sequenceNumber) >= Nat(secondary))
  }

  lemma StopsIsBad(entries: seq<LogEntry>, secondary: u32, i: nat)
    requires i < |entries|
    ensures Stops(entries[i], secondary, LastNotOlder(entries, secondary, i)) <==> IsBad(entries, secondary, i)
  {
    hide Nat, Plus1;
    var last := LastNotOlder(entries, secondary, i);
    NextNumber(last);
    ZeroIsZero(last);
    if Nat(entries[i].sequenceNumber) == Nat(Next(last)) { NatInjective(entries[i].sequenceNumber, Next(last)); }
  }

  lemma ZeroIsZero(x: u32)
    ensures Nat(x) == 0 <==> x == 0
  {
    assert Nat(0) == 0;
    hide Nat;
    if Nat(x) == 0 { NatInjective(x, 0); }
  }

  lemma {:induction false} AppliedFrom(entries: seq<LogEntry>, secondary: u32, i: nat) returns (m: nat, ix: seq<nat>)
    requires i <= |entries| && forall j :: 0 <= j < i ==> !IsBad(entries, secondary, j)
    ensures i <= m && IsEnd(entries, secondary, m)
    ensures AreNotOlder(Applied(entries[i..], secondary, LastNotOlder(entries, secondary, i)), entries, secondary, i, m, ix)
    decreases |entries| - i
  {
    hide Stops, Applied, Nat, IsBad, AreNotOlder;
    var last := LastNotOlder(entries, secondary, i);
    AppliedStep(entries[i..], secondary, last);
    if i < |entries| { StopsIsBad(entries, secondary, i); }
    if i == |entries| || IsBad(entries, secondary, i) {
      m, ix := i, [];
      NoneApplied(entries, secondary, i);
    } else {
      assert entries[i..][0] == entries[i] && entries[i..][1..] == entries[i + 1..];
      m, ix := AppliedFrom(entries, secondary, i + 1);
      var rest := Applied(entries[i + 1..], secondary, LastNotOlder(entries, secondary, i + 1));
      OneMoreApplied(rest, entries, secondary, i, m, ix);
      assert [] + rest == rest;
      if !Before(entries[i].sequenceNumber, secondary) {
        ix := [i] + ix;
      }
    }
  }

  lemma NoneApplied(entries: seq<LogEntry>, secondary: u32, i: nat)
    requires i <= |entries|
    ensures AreNotOlder([], entries, secondary, i, i, [])
  {
  }

  lemma OneMoreApplied(rest: seq<LogEntry>, entries: seq<LogEntry>, secondary: u32, i: nat, m: nat, ix: seq<nat>)
    requires i < m <= |entries| && AreNotOlder(rest, entries, secondary, i + 1, m, ix)
    ensures if Nat(entries[i].sequenceNumber) >= Nat(secondary) then
              AreNotOlder([entries[i]] + rest, entries, secondary, i, m, [i] + ix)
            else AreNotOlder(rest, entries, secondary, i, m, ix)
  {
    hide Nat, Ascends;
    OneMoreIndex(ix, i, m);
    var all, jx := [entries[i]] + rest, [i] + ix;
    assert forall j :: j in jx <==> j == i || j in ix;
  }

  lemma OneMoreIndex(ix: seq<nat>, i: nat, m: nat)
    requires i < m && Ascends(ix, i + 1, m)
    ensures Ascends([i] + ix, i, m) && Ascends(ix, i, m) && i !in ix
    ensures forall k :: 0 <= k < |ix| ==> 0 <= ix[k] < m
  {
  }

  /** A log applies exactly its not-older entries before the first bad one. */
  lemma AppliedExactly(entries: seq<LogEntry>, secondary: u32) returns (m: nat, ix: seq<nat>)
    ensures IsEnd(entries, secondary, m)
    ensures AreNotOlder(Applied(entries, secondary, 0), entries, secondary, 0, m, ix)
  {
    hide Applied, IsEnd, AreNotOlder;
    assert entries[0..] == entries;
    m, ix := AppliedFrom(entries, secondary, 0);
  }

  /** Entries with valid hashes and whole pages, not older than the primary file, with numbers that are not 0 and rise
      by one. */
  ghost predicate AreGood(entries: seq<LogEntry>, secondary: u32) {
    && (forall i :: 0 <= i < |entries| ==>
          && entries[i].hasValidHashes && entries[i].hiveBinsDataSize % 4096 == 0
          && Nat(entries[i].sequenceNumber) >= Nat(secondary) && Nat(entries[i].sequenceNumber) != 0)
    && forall i, j :: 0 <= i && j == i + 1 && j < |entries| ==>
         Nat(entries[j].sequenceNumber) == Nat(entries[i].sequenceNumber) + 1
  }

  /** All of them are applied. */
  lemma {:induction false} GoodAreApplied(entries: seq<LogEntry>, secondary: u32, last: u32)
    requires AreGood(entries, secondary)
    requires entries != [] && Nat(last) != 0 ==> Nat(entries[0].sequenceNumber) == Nat(last) + 1
    ensures Applied(entries, secondary, last) == entries
    decreases |entries|
  {
    hide Nat, Applied, Plus1, AreGood, Stops;
    AppliedStep(entries, secondary, last);
    if entries != [] {
      GoodStep(entries, secondary, last);
      GoodAreApplied(entries[1..], secondary, entries[0].sequenceNumber);
      assert entries == [entries[0]] + entries[1..];
    }
  }

  lemma GoodStep(entries: seq<LogEntry>, secondary: u32, last: u32)
    requires AreGood(entries, secondary) && entries != []
    requires Nat(last) != 0 ==> Nat(entries[0].sequenceNumber) == Nat(last) + 1
    ensures !Stops(entries[0], secondary, last) && !Before(entries[0].sequenceNumber, secondary)
    ensures AreGood(entries[1..], secondary)
    ensures |entries| > 1 ==> Nat(entries[1].sequenceNumber) == Nat(entries[0].sequenceNumber) + 1
  {
    hide Nat, Plus1;
    var e := entries[0];
    NextNumber(last);
    NatRange(e.sequenceNumber);
    ZeroIsZero(last);
    if Nat(last) != 0 { NatInjective(e.sequenceNumber, Next(last)); }
  }

  /** Logs that each start at their header's number, and where the last one ended. */
  ghost predicate AreChained(logs: seq<Log>, secondary: u32) {
    && (forall i :: 0 <= i < |logs| ==>
          && logs[i].entries != [] && AreGood(logs[i].entries, secondary)
          && logs[i].header.primarySequenceNumber == logs[i].entries[0].sequenceNumber)
    && forall i, j :: 0 <= i && j == i + 1 && j < |logs| ==>
         Nat(logs[j].header.primarySequenceNumber) == Nat(LastNumber(logs[i].entries, 0)) + 1
  }


  // ----- Across logs -----

  /** What each log that was run applied, in order, and the number left for the header. */
  datatype Run = Run(runs: seq<seq<LogEntry>>, number: u32)

  predicate Eligible(log: Log, secondary: u32, number: u32) {
    && !Before(log.header.primarySequenceNumber, secondary)
    && (number == 0 || log.header.primarySequenceNumber == Next(number))
  }

  function RunLogs(logs: seq<Log>, secondary: u32, number: u32): Run {
    if logs == [] then Run([], number)
    else if Eligible(logs[0], secondary, number) then
      var applied := Applied(logs[0].entries, secondary, 0);
      var rest := RunLogs(logs[1..], secondary, LastNumber(applied, 0));
      Run([applied] + rest.runs, rest.number)
    else
      RunLogs(logs[1..], secondary, number)
  }

  function Flatten<T>(ss: seq<seq<T>>): seq<T> {
    if ss == [] then [] else ss[0] + Flatten(ss[1..])
  }

  /** The log applies at least one entry, and the first one it applies carries the log header's number. */
  ghost predicate StartsAtHeader(log: Log, secondary: u32) {
    var a := Applied(log.entries, secondary, 0);
    a != [] && a[0].sequenceNumber == log.header.primarySequenceNumber
  }

  /** The logs that are run. */
  function Ran(logs: seq<Log>, secondary: u32, number: u32): seq<Log> {
    if logs == [] then []
    else if Eligible(logs[0], secondary, number) then
      [logs[0]] + Ran(logs[1..], secondary, LastNumber(Applied(logs[0].entries, secondary, 0), 0))
    else Ran(logs[1..], secondary, number)
  }

  /** Every entry that the log applies has a number other than 0. */
  ghost predicate AppliesNumbered(log: Log, secondary: u32) {
    forall e :: e in Applied(log.entries, secondary, 0) ==> e.sequenceNumber != 0
  }

  /** Every log that runs behind the first starts at its header's number. */
  ghost predicate Continue(ran: seq<Log>, secondary: u32) {
    forall i :: 0 < i < |ran| ==> StartsAtHeader(ran[i], secondary)
  }

  /** If every log that runs applies something and no number applied is 0, the entries applied over all logs form one
      consecutive run if and only if every log that runs behind the first starts at its header's number; and the header
      is left with the last number applied. */
  lemma {:induction false} ConsecutiveAcrossLogs(logs: seq<Log>, secondary: u32, number: u32)
    requires forall log :: log in Ran(logs, secondary, number) ==>
               Applied(log.entries, secondary, 0) != [] && AppliesNumbered(log, secondary)
    ensures var run, ran := RunLogs(logs, secondary, number), Ran(logs, secondary, number);
            var all := Flatten(run.runs);
            && (Consecutive(all) <==> Continue(ran, secondary))
            && (all == [] <==> ran == [])
            && (ran != [] && number != 0 ==>
                  (all[0].sequenceNumber == Next(number) <==> StartsAtHeader(ran[0], secondary)))
            && run.number == LastNumber(all, number)
  {
    hide Before, Next, Applied, RunLogs, Ran, Flatten, Consecutive, Continue, AppliesNumbered, StartsAtHeader, Eligible;
    if logs == [] {
      NoRuns(secondary, number);
    } else {
      RunStep(logs, secondary, number);
      if Eligible(logs[0], secondary, number) {
        var a := Applied(logs[0].entries, secondary, 0);
        var n := LastNumber(a, 0);
        var tail, ran := Flatten(RunLogs(logs[1..], secondary, n).runs), Ran(logs[1..], secondary, n);
        assert logs[0] in [logs[0]] + ran && forall log :: log in ran ==> log in [logs[0]] + ran;
        ConsecutiveAcrossLogs(logs[1..], secondary, n);
        JoinRuns(logs[0], secondary, number, a, tail, ran);
      } else {
        ConsecutiveAcrossLogs(logs[1..], secondary, number);
      }
    }
  }

  lemma NoRuns(secondary: u32, number: u32)
    ensures RunLogs([], secondary, number) == Run([], number) && Ran([], secondary, number) == []
    ensures Flatten<LogEntry>([]) == [] && Consecutive([]) && Continue([], secondary)
  {
  }

  /** One log: it runs, or it is passed over. */
  lemma RunStep(logs: seq<Log>, secondary: u32, number: u32)
    requires logs != []
    ensures if Eligible(logs[0], secondary, number) then
              var a := Applied(logs[0].entries, secondary, 0);
              var n := LastNumber(a, 0);
              var rest, run := RunLogs(logs[1..], secondary, n), RunLogs(logs, secondary, number);
              && run == Run([a] + rest.runs, rest.number) && Flatten(run.runs) == a + Flatten(rest.runs)
              && Ran(logs, secondary, number) == [logs[0]] + Ran(logs[1..], secondary, n)
            else
              && RunLogs(logs, secondary, number) == RunLogs(logs[1..], secondary, number)
              && Ran(logs, secondary, number) == Ran(logs[1..], secondary, number)
  {
    hide Eligible, Applied;
    var a := Applied(logs[0].entries, secondary, 0);
    var rest := RunLogs(logs[1..], secondary, LastNumber(a, 0));
    assert ([a] + rest.runs)[1..] == rest.runs;
  }

  /** A log that applies `a`, and what the logs behind it apply. */
  lemma JoinRuns(log: Log, secondary: u32, number: u32, a: seq<LogEntry>, tail: seq<LogEntry>, ran: seq<Log>)
    requires Eligible(log, secondary, number) && a == Applied(log.entries, secondary, 0) && a != []
    requires AppliesNumbered(log, secondary)
    requires (Consecutive(tail) <==> Continue(ran, secondary)) && (tail == [] <==> ran == [])
    requires ran != [] && LastNumber(a, 0) != 0 ==>
               (tail[0].sequenceNumber == Next(LastNumber(a, 0)) <==> StartsAtHeader(ran[0], secondary))
    ensures Consecutive(a + tail) <==> Continue([log] + ran, secondary)
    ensures number != 0 ==> (a[0].sequenceNumber == Next(number) <==> StartsAtHeader(log, secondary))
  {
    hide Before, Next, Applied, Continue;
    AppliedEntriesFollow(log.entries, secondary, 0);
    assert a[|a| - 1] in a;
    ConsecutiveJoin(a, tail);
    ContinueFrom(log, ran, secondary);
  }

  lemma ContinueFrom(log: Log, ran: seq<Log>, secondary: u32)
    ensures Continue([log] + ran, secondary) <==>
            (ran == [] || (StartsAtHeader(ran[0], secondary) && Continue(ran, secondary)))
  {
    hide StartsAtHeader;
    var all := [log] + ran;
    assert forall i :: 0 < i < |all| ==> all[i] == ran[i - 1];
    assert forall i :: 0 <= i < |ran| ==> ran[i] == all[i + 1];
  }

  lemma ConsecutiveJoin(a: seq<LogEntry>, b: seq<LogEntry>)
    requires Consecutive(a) && a != []
    ensures Consecutive(a + b) <==>
            Consecutive(b) && (b == [] || b[0].sequenceNumber == Next(a[|a| - 1].sequenceNumber))
  {
    hide Next;
    var c := a + b;
    if Consecutive(b) && (b == [] || b[0].sequenceNumber == Next(a[|a| - 1].sequenceNumber)) {
      JoinConsecutive(a, b);
    }
    if Consecutive(c) {
      assert b != [] ==> c[|a|] == b[0] && c[|a| - 1] == a[|a| - 1];
      forall j, k | 0 <= j < k < |b| && k == j + 1
        ensures b[k].sequenceNumber == Next(b[j].sequenceNumber)
      {
        assert c[|a| + k] == b[k] && c[|a| + j] == b[j];
      }
    }
  }

  lemma JoinConsecutive(a: seq<LogEntry>, b: seq<LogEntry>)
    requires Consecutive(a) && Consecutive(b) && a != []
    requires b != [] ==> b[0].sequenceNumber == Next(a[|a| - 1].sequenceNumber)
    ensures Consecutive(a + b)
  {
    hide Next;
    var c := a + b;
    forall j, k | 0 <= j < k < |c| && k == j + 1
      ensures c[k].sequenceNumber == Next(c[j].sequenceNumber)
    {
      if j >= |a| { assert c[k] == b[k - |a|] && c[j] == b[j - |a|]; }
    }
  }

  /** What the last log that ran applied decides the number left for the header. */
  lemma {:induction false} LastRun(logs: seq<Log>, secondary: u32, number: u32)
    ensures var run, ran := RunLogs(logs, secondary, number), Ran(logs, secondary, number);
            && |run.runs| == |ran|
            && (ran == [] ==> run.number == number)
            && (ran != [] ==>
                  && run.runs[|ran| - 1] == Applied(ran[|ran| - 1].entries, secondary, 0)
                  && run.number == LastNumber(run.runs[|ran| - 1], 0))
    decreases |logs|
  {
    hide Before, Next, Applied, RunLogs, Ran, Flatten, Eligible, LastNumber;
    if logs == [] {
      NoRuns(secondary, number);
    } else {
      RunStep(logs, secondary, number);
      if Eligible(logs[0], secondary, number) {
        var n := LastNumber(Applied(logs[0].entries, secondary, 0), 0);
        LastRun(logs[1..], secondary, n);
      } else {
        LastRun(logs[1..], secondary, number);
      }
    }
  }

  /** The number left for the header is the last number that the last log that ran applied, 0 if it applied nothing. So
      it is the last number applied by any log if and only if that log applied something, or nothing with a number
      other than 0 came last. */
  lemma HeaderNumber(logs: seq<Log>, secondary: u32, number: u32)
    ensures var run, ran := RunLogs(logs, secondary, number), Ran(logs, secondary, number);
            var all := Flatten(run.runs);
            && (ran == [] ==> run.number == number)
            && (ran != [] ==>
                  var last := Applied(ran[|ran| - 1].entries, secondary, 0);
                  && run.number == LastNumber(last, 0)
                  && (run.number == LastNumber(all, 0) <==> last != [] || LastNumber(all, 0) == 0))
  {
    hide Applied, RunLogs, Ran, Flatten;
    LastRun(logs, secondary, number);
    var runs := RunLogs(logs, secondary, number).runs;
    if runs != [] { LastOfFlatten(runs); }
  }

  function EntriesOf(logs: seq<Log>): seq<LogEntry> {
    if logs == [] then [] else logs[0].entries + EntriesOf(logs[1..])
  }

  /** Which logs run, in numbers. */
  lemma EligibleMeans(log: Log, secondary: u32, number: u32)
    ensures var p, n := Nat(log.header.primarySequenceNumber), Nat(number);
            Eligible(log, secondary, number) <==> p >= Nat(secondary) && (n == 0 || p == (n + 1) % 0x1_0000_0000)
  {
    hide Nat, Plus1;
    NextNumber(number);
    ZeroIsZero(number);
    if Nat(log.header.primarySequenceNumber) == Nat(Next(number)) {
      NatInjective(log.header.primarySequenceNumber, Next(number));
    }
  }

  /** Such logs are all run, and all their entries are applied. */
  lemma {:induction false} ChainedLogsAreApplied(logs: seq<Log>, secondary: u32, number: u32)
    requires AreChained(logs, secondary)
    requires logs != [] && Nat(number) != 0 ==> Nat(logs[0].header.primarySequenceNumber) == Nat(number) + 1
    ensures Ran(logs, secondary, number) == logs
    ensures Flatten(RunLogs(logs, secondary, number).runs) == EntriesOf(logs)
    ensures RunLogs(logs, secondary, number).number == LastNumber(EntriesOf(logs), number)
    decreases |logs|
  {
    hide Nat, Applied, RunLogs, Ran, Flatten, Eligible, AreChained, LastNumber;
    if logs == [] {
      NoRuns(secondary, number);
      LastOfNone(number);
    } else {
      var log := logs[0];
      ChainStep(logs, secondary, number);
      RunStep(logs, secondary, number);
      var n := LastNumber(log.entries, 0);
      ChainedLogsAreApplied(logs[1..], secondary, n);
      assert logs == [log] + logs[1..];
      LastOfBoth(log.entries, EntriesOf(logs[1..]), number);
    }
  }

  lemma LastOfNone(number: u32)
    ensures LastNumber([], number) == number
  {
  }

  lemma LastOfBoth(a: seq<LogEntry>, b: seq<LogEntry>, number: u32)
    requires a != []
    ensures LastNumber(a + b, number) == LastNumber(b, LastNumber(a, 0))
  {
  }

  lemma ChainStep(logs: seq<Log>, secondary: u32, number: u32)
    requires AreChained(logs, secondary) && logs != []
    requires Nat(number) != 0 ==> Nat(logs[0].header.primarySequenceNumber) == Nat(number) + 1
    ensures logs[0].entries != [] && Eligible(logs[0], secondary, number)
    ensures Applied(logs[0].entries, secondary, 0) == logs[0].entries && AreChained(logs[1..], secondary)
    ensures |logs| > 1 ==> Nat(logs[1].header.primarySequenceNumber) == Nat(LastNumber(logs[0].entries, 0)) + 1
  {
    hide Nat, Eligible, Applied, AreGood, Plus1;
    EligibleMeans(logs[0], secondary, number);
    NatRange(logs[0].header.primarySequenceNumber);
    assert Nat(logs[0].entries[0].sequenceNumber) >= Nat(secondary) by { GoodStart(logs[0].entries, secondary); }
    GoodAreApplied(logs[0].entries, secondary, 0) by { ZeroIsZero(0); }
  }

  lemma GoodStart(entries: seq<LogEntry>, secondary: u32)
    requires AreGood(entries, secondary) && entries != []
    ensures Nat(entries[0].sequenceNumber) >= Nat(secondary)
  {
  }

  /** A log with this header number and these entry numbers, whose entries have valid hashes and whole pages. */
  ghost predicate IsNumbered(log: Log, header: u32, numbers: seq<u32>) {
    && log.header.primarySequenceNumber == header && |log.entries| == |numbers|
    && forall i :: 0 <= i < |numbers| ==>
         log.entries[i].hasValidHashes && HasWholePages(log.entries[i]) && log.entries[i].sequenceNumber == numbers[i]
  }

  /** A second log headed 6 that starts at 9: both run, and the entries applied are numbered 5 and 9. */
  lemma GapBetweenLogs(logs: seq<Log>)
    requires |logs| == 2 && IsNumbered(logs[0], 5, [5]) && IsNumbered(logs[1], 6, [9])
    ensures var all := Flatten(RunLogs(logs, 5, 0).runs);
            |all| == 2 && all[0].sequenceNumber == 5 && all[1].sequenceNumber == 9 && !Consecutive(all)
  {
    RunOne(logs, 5, 0, 5, 5);
    RunOne(logs[1..], 5, 5, 6, 9);
    NoRuns(5, 9);
  }

  /** A second log that runs and applies nothing: 0 is stored, although the last entry applied is numbered 5. */
  lemma ZeroIsStored(logs: seq<Log>)
    requires |logs| == 2 && IsNumbered(logs[0], 5, [5]) && IsNumbered(logs[1], 6, [])
    ensures var run := RunLogs(logs, 5, 0);
            run.number == 0 && LastNumber(Flatten(run.runs), 0) == 5
  {
    RunOne(logs, 5, 0, 5, 5);
    RunStep(logs[1..], 5, 5);
    NoRuns(5, 0);
  }

  /** A log with one entry that is not too old runs and applies it. */
  lemma RunOne(logs: seq<Log>, secondary: u32, number: u32, header: u32, entry: u32)
    requires logs != [] && IsNumbered(logs[0], header, [entry])
    requires !Before(header, secondary) && !Before(entry, secondary) && (number == 0 || header == Next(number))
    ensures var a, rest := logs[0].entries, RunLogs(logs[1..], secondary, entry);
            && |a| == 1 && a[0].sequenceNumber == entry
            && RunLogs(logs, secondary, number) == Run([a] + rest.runs, rest.number)
            && Flatten(RunLogs(logs, secondary, number).runs) == a + Flatten(rest.runs)
  {
    hide Before, Next, RunLogs, Flatten, HasWholePages;
    var a := logs[0].entries;
    assert a[1..] == [];
    assert Applied(a, secondary, 0) == [a[0]] + Applied(a[1..], secondary, entry);
    assert Applied(a, secondary, 0) == a;
    RunStep(logs, secondary, number);
  }

  lemma {:induction false} LastOfFlatten(runs: seq<seq<LogEntry>>)
    requires runs != []
    ensures runs[|runs| - 1] != [] ==> LastNumber(Flatten(runs), 0) == LastNumber(runs[|runs| - 1], 0)
  {
    if |runs| == 1 {
      assert runs[0] + [] == runs[0];
    } else {
      LastOfFlatten(runs[1..]);
      if runs[|runs| - 1] != [] { FlattenHasLast(runs[1..]); }
    }
  }

  lemma {:induction false} FlattenHasLast(runs: seq<seq<LogEntry>>)
    requires runs != [] && runs[|runs| - 1] != []
    ensures Flatten(runs) != []
  {
    if |runs| > 1 { FlattenHasLast(runs[1..]); }
  }

  // ----- What the bytes become -----

  /** How much an entry lengthens the buffer: always measured against the size in the primary file's header. */
  function Growth(e: LogEntry, hiveSize: nat): (r: nat)
    ensures hiveSize + r >= e.hiveBinsDataSize && (r == 0 || hiveSize + r == e.hiveBinsDataSize)
  {
    if hiveSize < e.hiveBinsDataSize then e.hiveBinsDataSize - hiveSize else 0
  }

  function WritePages(b: seq<byte>, pages: seq<DirtyPage>): (r: Outcome<seq<byte>>)
    ensures !r.Panic?
    ensures r.Ok? ==> |r.value| == |b|
    decreases |pages|
  {
    if pages == [] then Ok(b)
    else
      var at := HIVE_BINS_START + pages[0].offset;
      if |b| < at + |pages[0].bytes| then Err
      else WritePages(Splice(b, at, pages[0].bytes), pages[1..])
  }

  function ReplayEntry(b: seq<byte>, e: LogEntry, hiveSize: nat): (r: Outcome<seq<byte>>)
    ensures !r.Panic?
    ensures r.Ok? ==> |r.value| == |b| + Growth(e, hiveSize)
  {
    WritePages(b + Zeros(Growth(e, hiveSize)), e.pages)
  }

  function ReplayAll(b: seq<byte>, es: seq<LogEntry>, hiveSize: nat): (r: Outcome<seq<byte>>)
    ensures !r.Panic?
    ensures r.Ok? ==> |b| <= |r.value|
    decreases |es|
  {
    if es == [] then Ok(b)
    else
      match ReplayEntry(b, es[0], hiveSize)
      case Ok(b') => ReplayAll(b', es[1..], hiveSize)
      case Err => Err
      case Panic => Panic
  }

  lemma {:induction false} ReplayConcat(b: seq<byte>, es: seq<LogEntry>, fs: seq<LogEntry>, hiveSize: nat)
    ensures ReplayAll(b, es + fs, hiveSize) ==
            (match ReplayAll(b, es, hiveSize) case Ok(b') => ReplayAll(b', fs, hiveSize) case Err => Err case Panic => Panic)
    decreases |es|
  {
    hide ReplayEntry;
    if es == [] {
      assert es + fs == fs;
    } else {
      assert (es + fs)[1..] == es[1..] + fs;
      if ReplayEntry(b, es[0], hiveSize).Ok? {
        ReplayConcat(ReplayEntry(b, es[0], hiveSize).value, es[1..], fs, hiveSize);
      }
    }
  }

  /** All pages of the entries, in the order they are written. */
  function PagesOf(es: seq<LogEntry>): seq<DirtyPage> {
    if es == [] then [] else es[0].pages + PagesOf(es[1..])
  }

  function TotalGrowth(es: seq<LogEntry>, hiveSize: nat): nat {
    if es == [] then 0 else Growth(es[0], hiveSize) + TotalGrowth(es[1..], hiveSize)
  }

  ghost predicate Covers(p: DirtyPage, i: int) {
    HIVE_BINS_START + p.offset <= i < HIVE_BINS_START + p.offset + |p.bytes|
  }

  ghost function ByteIn(p: DirtyPage, i: int): byte
    requires Covers(p, i)
  {
    p.bytes[i - HIVE_BINS_START - p.offset]
  }

  /** Byte `i` after writing the pages over a byte that was `base`. */
  ghost function Overwritten(base: byte, pages: seq<DirtyPage>, i: int): byte
    decreases |pages|
  {
    if pages == [] then base
    else Overwritten(if Covers(pages[0], i) then ByteIn(pages[0], i) else base, pages[1..], i)
  }

  lemma {:induction false} OverwrittenConcat(base: byte, ps: seq<DirtyPage>, qs: seq<DirtyPage>, i: int)
    ensures Overwritten(base, ps + qs, i) == Overwritten(Overwritten(base, ps, i), qs, i)
    decreases |ps|
  {
    if ps == [] {
      assert ps + qs == qs;
    } else {
      assert (ps + qs)[1..] == ps[1..] + qs;
      OverwrittenConcat(if Covers(ps[0], i) then ByteIn(ps[0], i) else base, ps[1..], qs, i);
    }
  }

  lemma {:induction false} WrittenBytes(b: seq<byte>, pages: seq<DirtyPage>, i: int)
    requires WritePages(b, pages).Ok? && 0 <= i < |b|
    ensures WritePages(b, pages).value[i] == Overwritten(b[i], pages, i)
    decreases |pages|
  {
    if pages != [] {
      WrittenBytes(Splice(b, HIVE_BINS_START + pages[0].offset, pages[0].bytes), pages[1..], i);
    }
  }

  /** The byte at `i` before any page is written: the original one, or zero where the buffer was lengthened. */
  ghost function BaseByte(b: seq<byte>, i: int): byte {
    if 0 <= i < |b| then b[i] else 0
  }

  lemma {:induction false} ReplayedBytes(b: seq<byte>, es: seq<LogEntry>, hiveSize: nat, i: int)
    requires ReplayAll(b, es, hiveSize).Ok? && 0 <= i
    ensures var r := ReplayAll(b, es, hiveSize).value;
            && |r| == |b| + TotalGrowth(es, hiveSize)
            && (0 <= i < |r| ==> r[i] == Overwritten(BaseByte(b, i), PagesOf(es), i))
            && (|r| <= i ==> Overwritten(BaseByte(b, i), PagesOf(es), i) == 0)
    decreases |es|
  {
    if es != [] {
      var grown := b + Zeros(Growth(es[0], hiveSize));
      var b' := ReplayEntry(b, es[0], hiveSize).value;
      if i < |grown| {
        WrittenBytes(grown, es[0].pages, i);
      } else {
        NotWritten(grown, es[0].pages, 0, i);
      }
      OverwrittenConcat(BaseByte(b, i), es[0].pages, PagesOf(es[1..]), i);
      ReplayedBytes(b', es[1..], hiveSize, i);
    }
  }

  /** A write that succeeds covers nothing beyond the end of the buffer. */
  lemma {:induction false} NotWritten(b: seq<byte>, pages: seq<DirtyPage>, base: byte, i: int)
    requires WritePages(b, pages).Ok? && |b| <= i
    ensures Overwritten(base, pages, i) == base
    decreases |pages|
  {
    if pages != [] {
      NotWritten(Splice(b, HIVE_BINS_START + pages[0].offset, pages[0].bytes), pages[1..], base, i);
    }
  }

  /** Page `k` of `pages` is the last one that covers byte `i`. */
  ghost predicate LastWriter(pages: seq<DirtyPage>, k: int, i: int) {
    0 <= k < |pages| && Covers(pages[k], i) && forall j :: k < j < |pages| ==> !Covers(pages[j], i)
  }

  lemma {:induction false} LastWriterWins(base: byte, pages: seq<DirtyPage>, i: int)
    ensures (forall p :: p in pages ==> !Covers(p, i)) ==> Overwritten(base, pages, i) == base
    ensures forall k :: LastWriter(pages, k, i) ==> Overwritten(base, pages, i) == ByteIn(pages[k], i)
    decreases |pages|
  {
    if pages != [] {
      var base' := if Covers(pages[0], i) then ByteIn(pages[0], i) else base;
      LastWriterWins(base', pages[1..], i);
      forall k | LastWriter(pages, k, i)
        ensures Overwritten(base, pages, i) == ByteIn(pages[k], i)
      {
        if k > 0 {
          assert LastWriter(pages[1..], k - 1, i);
        } else {
          assert forall p :: p in pages[1..] ==> !Covers(p, i);
        }
      }
    }
  }

  /**
    * A replay that succeeds is last-writer-wins: every byte is that of the last page covering it, in entry-then-page
    * order; else the original byte; else zero where the buffer grew. Bytes before the hive bins are untouched, and
    * the length is the initial length plus the growth of every applied entry.
    */
  lemma ReplayIsLastWriterWins(b: seq<byte>, es: seq<LogEntry>, hiveSize: nat)
    requires ReplayAll(b, es, hiveSize).Ok?
    ensures var r, pages := ReplayAll(b, es, hiveSize).value, PagesOf(es);
            && |r| == |b| + TotalGrowth(es, hiveSize)
            && (forall i, k :: 0 <= i < |r| && LastWriter(pages, k, i) ==> r[i] == ByteIn(pages[k], i))
            && (forall i :: 0 <= i < |r| && (forall p :: p in pages ==> !Covers(p, i)) ==> r[i] == BaseByte(b, i))
            && (forall i :: 0 <= i < HIVE_BINS_START && i < |b| ==> r[i] == b[i])
  {
    var r, pages := ReplayAll(b, es, hiveSize).value, PagesOf(es);
    ReplayedBytes(b, es, hiveSize, 0);
    forall i | 0 <= i < |r|
      ensures forall k :: LastWriter(pages, k, i) ==> r[i] == ByteIn(pages[k], i)
      ensures (forall p :: p in pages ==> !Covers(p, i)) ==> r[i] == BaseByte(b, i)
    {
      ReplayedBytes(b, es, hiveSize, i);
      LastWriterWins(BaseByte(b, i), pages, i);
    }
  }

  /** Every page of every entry lies in the buffer as long as that entry makes it. */
  ghost predicate PagesFit(length: nat, es: seq<LogEntry>, hiveSize: nat) {
    forall i, p :: 0 <= i < |es| && p in es[i].pages ==>
      4096 + p.offset + |p.bytes| <= length + TotalGrowth(es[..i + 1], hiveSize)
  }

  /** A replay succeeds if and only if all pages fit. */
  lemma {:induction false} ReplaySucceeds(b: seq<byte>, es: seq<LogEntry>, hiveSize: nat)
    ensures ReplayAll(b, es, hiveSize).Ok? <==> PagesFit(|b|, es, hiveSize)
    decreases |es|
  {
    hide WritePages, Growth, PagesFit;
    FitStep(|b|, es, hiveSize);
    if es != [] {
      WriteSucceeds(b + Zeros(Growth(es[0], hiveSize)), es[0].pages);
      var r := ReplayEntry(b, es[0], hiveSize);
      if r.Ok? { ReplaySucceeds(r.value, es[1..], hiveSize); }
    }
  }

  lemma {:induction false} WriteSucceeds(b: seq<byte>, pages: seq<DirtyPage>)
    ensures WritePages(b, pages).Ok? <==> forall p :: p in pages ==> 4096 + p.offset + |p.bytes| <= |b|
    decreases |pages|
  {
    if pages != [] && 4096 + pages[0].offset + |pages[0].bytes| <= |b| {
      WriteSucceeds(Splice(b, 4096 + pages[0].offset, pages[0].bytes), pages[1..]);
      assert forall p :: p in pages <==> p == pages[0] || p in pages[1..];
    }
  }

  lemma FitStep(length: nat, es: seq<LogEntry>, hiveSize: nat)
    ensures es == [] ==> PagesFit(length, es, hiveSize)
    ensures es != [] ==>
              var grown := length + Growth(es[0], hiveSize);
              PagesFit(length, es, hiveSize) <==>
              (forall p :: p in es[0].pages ==> 4096 + p.offset + |p.bytes| <= grown) && PagesFit(grown, es[1..], hiveSize)
  {
    hide Growth, TotalGrowth;
    if es != [] {
      var grown := length + Growth(es[0], hiveSize);
      forall i | 0 <= i < |es|
        ensures length + TotalGrowth(es[..i + 1], hiveSize) == grown + TotalGrowth(es[1..][..i], hiveSize)
      {
        GrowthStep(es, hiveSize, i);
      }
      assert TotalGrowth(es[1..][..0], hiveSize) == 0 by { NoGrowth(hiveSize); }
      forall i, p | 0 <= i < |es[1..]| && p in es[1..][i].pages
        ensures PagesFit(length, es, hiveSize) ==>
                  4096 + p.offset + |p.bytes| <= grown + TotalGrowth(es[1..][..i + 1], hiveSize)
      {
        assert es[i + 1] == es[1..][i];
      }
      forall i, p | 0 <= i < |es| && p in es[i].pages
        ensures PagesFit(grown, es[1..], hiveSize) && (forall q :: q in es[0].pages ==> 4096 + q.offset + |q.bytes| <= grown)
                ==> 4096 + p.offset + |p.bytes| <= length + TotalGrowth(es[..i + 1], hiveSize)
      {
        if i > 0 { assert es[1..][i - 1] == es[i]; }
      }
    }
  }

  lemma GrowthStep(es: seq<LogEntry>, hiveSize: nat, i: nat)
    requires i < |es|
    ensures TotalGrowth(es[..i + 1], hiveSize) == Growth(es[0], hiveSize) + TotalGrowth(es[1..][..i], hiveSize)
  {
    assert es[..i + 1][1..] == es[1..][..i];
  }

  lemma NoGrowth(hiveSize: nat)
    ensures TotalGrowth([], hiveSize) == 0
  {
  }

  /** If a log body is damaged inside one aligned word of a valid entry and still parses, nothing from that entry
      on is applied: the replay is that of the entries before it. */
  lemma DamagedEntryIsNeverApplied(b: seq<byte>, c: seq<byte>, k: nat, secondary: u32)
    requires ParseEntries(b).Ok? && k < |ParseEntries(b).value| && ParseEntries(b).value[k].hasValidHashes
    requires DamagedAtEntry(b, c, k)
    ensures ParseEntries(c).Ok? ==>
              Applied(ParseEntries(c).value, secondary, 0) == Applied(ParseEntries(b).value[..k], secondary, 0)
  {
    hide ParseEntries, DamagedAtEntry, Applied;
    DamagedLog(b, c, k);
    if ParseEntries(c).Ok? {
      NothingAfterInvalid(ParseEntries(c).value, k, secondary, 0);
    }
  }

  lemma {:induction false} NothingAfterInvalid(entries: seq<LogEntry>, k: nat, secondary: u32, last: u32)
    requires k <= |entries|
    requires k < |entries| ==> !entries[k].hasValidHashes
    ensures Applied(entries, secondary, last) == Applied(entries[..k], secondary, last)
    decreases k
  {
    hide Before, Next;
    if 0 < k && !Stops(entries[0], secondary, last) {
      assert entries[..k][1..] == entries[1..][..k - 1];
      var older := Before(entries[0].sequenceNumber, secondary);
      NothingAfterInvalid(entries[1..], k - 1, secondary, if older then last else entries[0].sequenceNumber);
    }
  }
}
