# Notatin: a verified model

Notatin reads offline Windows Registry hives. This project models the parts of it whose behaviour is hardest to see
from the code, and proves what they keep, undo and agree on. `dafny verify dfyconfig.toml` verifies all of it.

| file | part of the program |
|---|---|
| `Common.dfy`, `Bytes.dfy` | shared types; little-endian words |
| `Marvin32.dfy` | the hash of log entries, its invertible block, one Rust and four C++ forms |
| `LogEntries.dfy`, `LogFormat.dfy` | parsing and hash-checking of log entries, error detection; the layout they are read from |
| `BaseBlock.dfy` | the hive header, its checksum, and rewriting it |
| `Replay.dfy`, `Recovery.dfy` | which entries are applied, what that does to the bytes, and recovery as a whole |
| `History.dfy`, `Analyzer.dfy` | the version history of keys and values: what it should be, and how it is collected |
| `Traversal.dfy`, `Iteration.dfy`, `KeyIterator.dfy` | stack-driven iteration in both orders, on any graph of offsets |
| `Paths.dfy`, `Filtering.dfy`, `FilteredTree.dfy`, `PostorderTree.dfy` | paths, queries, pruned iteration in both orders |
| `Lookup.dfy` | looking up a key by its path |
| `Lznt1.dfy` | the LZNT1 decoder (section 2.5 of [MS-XCA]) |
| `SlackRecovery.dfy`, `RecoveredCells.dfy` | recovery of deleted cells from free cells and slack; the cells' layout, and which cells are recovered |
| `RegCompare.dfy`, `BaseLookup.dfy`, `UnifiedDiff.dfy` | comparing two hives, when that is exact, and the printed diff |
| `BigData.dfy` | value content, and its reassembly from segments |
| `Utf16.dfy` | lists of NUL-terminated UTF-16LE strings |

Code that changes state step by step is modelled by methods and classes with the same fields, loops and early exits, each
proved equal to a specification function or to a stated property; the lemmas are about those functions. Integers are
unbounded except where the width matters: hashes, checksums, sequence numbers and size fields are bit vectors and wrap as
in a release build.

## Main results

- **Error detection.** The Marvin32 block is a bijection, so two inputs that differ inside one aligned word never hash
  alike. A log entry with valid hashes that is damaged inside one word of `[0, size)` is reported as invalid by any reparse
  that succeeds, everything before it parses as before, and replay applies exactly the entries before it.
- **Layout.** A log entry written as its fields, page references, pages and padding is read back field by field, and its
  hashes are valid if and only if they are the right ones; what parses was written like that (`EntryRoundTrip`,
  `ParsedEntryIsWritten`). So it is with key and value cells
  (`CellRoundTrip`, `ParsedCellIsWritten`), and whole logs and headers are read back, too.
- **Recovery.** A log applies exactly its entries that are not older than the primary file, up to the first that is invalid,
  has a size that is no multiple of 4096, or does not follow (`AppliedExactly`); so entries in order are all applied, and so
  are logs that follow on each other (`ChainedRecovery`). A replay succeeds if and only if every page fits the buffer
  (`ReplaySucceeds`), and is last writer wins, byte by byte. The rewritten header always passes the program's own checks, so
  recovering twice with the same logs changes nothing, also on the bad-checksum path. Applied entries are valid, not older
  than the primary file, and consecutive within a log. Across logs, if every log that runs applies something, they are
  consecutive if and only if each log behind the first starts at its header's number (`GapBetweenLogs` shows two logs that
  do not). The header is left with what the last log that ran applied last, so with 0 when it applied nothing
  (`ZeroIsStored`).
- **History.** After every run of snapshots each live item carries the number of the entry since which its hash has stood,
  its recorded versions are exactly those replaced, and they chain without gap if and only if the item was never absent in
  between. The deleted-value lists hold, once each, exactly the versions dropped and not live with that hash since, each
  with the entry that brought it and the entry that dropped it last.
- **Iteration.** On any graph, cyclic or shared, both orders return each reachable offset exactly once and end. On trees
  they are the recursive preorder and postorder. Filtered iteration with pruning returns exactly what filtering the full
  preorder would. Filtered postorder does so with ancestors included. Without them it also returns every key that is only on
  the way to a match, except on the path from the last key that passes up to the root: of that path and the root it returns
  the part below the first such key, so the root as well if there is none (`RootIsReturned`, `RootAlone`). It is what the
  filter wants if and only if there are keys that are only on the way and all of them are on that path
  (`FilteredPostorderIsExact`).
- **Lookup.** On any hive, cycles and names with backslashes included, a lookup finds nothing if and only if no key has the
  requested path, ignoring ASCII case. What it finds is the first such key in preorder if and only if, among the sub keys of
  the first parent of one, none whose path is a proper beginning of the request comes before it. Names without backslashes
  always meet that; `BackslashInName` does not.
- **LZNT1.** Decoding any serialised sequence of well-formed chunks gives their expansion.
- **Slack recovery.** A pass ends; each recovered cell is really in the file at its offset; of any two the first ends before
  the second starts or lies in its slack; no offset is recovered twice. A key or value in the chain of cells of a bin is
  recovered if and only if its size is positive and the bin starts, in the file, before the size of the bins; since that
  size does not count the 4096 bytes of the header, the last bins are not visited (`CellOfPass`, and `OneBinIsMissed` for a
  file of one bin). Whatever else is recovered lies in the slack of a key or value, or in a cell that is neither
  (`OriginInPass`), and nothing that parses there is missed (`NothingIsMissed`).
- **Comparison.** `reg_compare` looks its originals up by path. A base hive of any shape whose names are distinct compares
  exactly with every other hive if and only if a lookup of each key's path answers with a key of the same path and hash, in
  which each value of the key is the first of its name, ignoring case (`ExactIfSearchable`). For trees with non-empty names
  that hold no backslash this says that names differ in more than case (`ExactIfCaseDistinct`); `CaseVariants` and
  `BackslashVariants` show the two ways to fail and the key that is missing from the list. An exact comparison turns one
  hash map into the other; its lists are disjoint, and empty if and only if the maps agree (`ComparisonIsADiff`). The printed
  diff then removes just the items that the base hive has and the comparison hive has not, and adds just the converse
  (`PrintedComparison`).
- **Value content** is read back from all three places it is stored in: segments, one cell, and the offset field. Long
  content in one cell is lost if it looks like a segment list (`ContentLikeBigData`).
- **UTF-16 lists.** The reader counts characters where it should count code units, so behind a string with `n` surrogate
  pairs it goes on at the last `n - 1` code units of that string. For every list of NUL-free strings `StringsOfList` says
  what is read and `ListRoundTrip` when the list comes back whole: always without pairs and blank strings, and otherwise only
  if the strings behind the first with a pair happen to be what is read from its end (`LostString`, `ExtraString`,
  `ByChance`).

## Model

| member | source | states |
|---|---|---|
| Marvin32.BlockInvertible | src/marvin32.rs:32-43 | `UnBlock` undoes the block macro on every state, so the block is a bijection |
| Marvin32.StatesStayDifferent | src/marvin32.rs:46-75 | different states stay different whatever data follows |
| Marvin32.OneWordChangesHash | src/marvin32.rs:46-75 | inputs of one length that differ only inside one aligned word, or only in the tail, never have the same hash |
| Marvin32.HashRust | src/marvin32.rs:46-75 | the Rust loop computes the reference hash of the first `length` bytes |
| Marvin32.HashCpp0 | marvin32/marvin32.cpp:36-89 | the unrolled form with a fall-through switch computes the reference hash |
| Marvin32.FallThroughSwitch | marvin32/marvin32.cpp:49-83 | the switch absorbs the up to seven bytes that are left, as word steps would |
| Marvin32.HashCpp1 | marvin32/marvin32.cpp:91-140 | the unrolled form that adds the last word inside the switch computes the reference hash |
| Marvin32.AddingSwitch | marvin32/marvin32.cpp:104-134 | its switch absorbs the up to seven bytes that are left |
| Marvin32.HashCpp2 | marvin32/marvin32.cpp:142-173 | the word-by-word form with its four-way switch computes the reference hash |
| Marvin32.HashCpp3 | marvin32/marvin32.cpp:175-215 | the mixed form computes the reference hash |
| Marvin32.LastWord | src/marvin32.rs:59-69 | the last word is the remaining bytes, a 0x80 byte and zeros |
| Marvin32.KnownHashes | src/marvin32.rs:81-108 | the hash has the values that the program's tests expect, for inputs of zero, one, two and seven bytes |
| Bytes.WordIsNumber | src/transaction_log.rs:98-107 | words are little-endian |
| Bytes.AbsIsNumber | src/cell_key_value.rs:407-409 | the size of a cell is its field, or two to the 32 less the field when its top bit is set |
| LogEntries.ReadPages | src/transaction_log.rs:109-120 | the page loop reads references and page bytes one after the other, or fails where the input ends |
| LogEntries.ReadEntry | src/transaction_log.rs:96-163 | the entry reader gives the specified entry, error or panic for every input |
| LogEntries.EntryIsLocal | src/transaction_log.rs:96-163 | what an entry parses to depends only on the bytes it consumes |
| LogEntries.DamagedEntryIsInvalid | src/transaction_log.rs:96-163 | damage inside one word of a valid entry makes any successful reparse report invalid hashes |
| LogEntries.DamagedLog | src/transaction_log.rs:174-187 | damage in entry k leaves the entries before it as they were and makes entry k invalid, if it is still there |
| LogFormat.EntryRoundTrip | src/transaction_log.rs:96-163 | an entry written field by field is read back with every field and page, nothing behind it is used, and its hashes are valid if and only if they are those of the bytes behind and before them |
| LogFormat.ParsedEntryIsWritten | src/transaction_log.rs:96-163 | every input that parses starts with an entry written like that, unless its pages run past its size |
| LogFormat.EntriesRoundTrip | src/transaction_log.rs:174-187 | a list of entries is read back in order, up to what is no entry |
| BaseBlock.CalculateChecksum | src/base_block.rs:143-164 | the loop gives the exclusive or of the header's words with 0 and -1 replaced, or an error on short input |
| BaseBlock.ChecksumIsLocal | src/base_block.rs:143-164 | the checksum depends only on the bytes before the checksum field |
| BaseBlock.RewrittenHeader | src/parser.rs:226-256 | after renumbering, the header parses with both numbers set, the other fields kept and a checksum that fits; nothing else changes |
| BaseBlock.HeaderRoundTrip | src/base_block.rs:103-141 | every header field is read from its place; the file types 0, 1 and 6 are supported |
| BaseBlock.WhatIsAHeader | src/base_block.rs:103-141 | a header needs its signature and 512 bytes, in a primary file 4096 |
| BaseBlock.OneWordChangesXor | src/base_block.rs:143-164 | changing any one of the 127 words changes the exclusive or by just that difference |
| BaseBlock.ChecksumValues | src/base_block.rs:143-164 | zeros have the checksum 1; it is never 0 or -1, and else the exclusive or itself |
| Replay.AppliedEntriesFollow | src/transaction_log.rs:236-264 | the entries a log applies are valid, page-multiple sized, not older than the primary file, and consecutive |
| Replay.AppliedUpToStop | src/transaction_log.rs:229-318 | exactly the not-older entries before the first that stops are applied, and the one after them does stop |
| Replay.AppliedExactly | src/transaction_log.rs:229-264 | in numbers: the entries applied are those not older than the primary file before the first that is invalid, or not older with a size that is no multiple of 4096, or not older and not one above the last not-older number, unless that is 0 |
| Replay.GoodAreApplied | src/transaction_log.rs:229-264 | valid entries of whole pages, not older, with numbers that rise by one, are all applied |
| Replay.EligibleMeans | src/parser.rs:281-283 | in numbers, which logs run |
| Replay.ChainedLogsAreApplied | src/parser.rs:279-296 | logs of such entries that follow on each other all run, with all their entries |
| Replay.ConsecutiveAcrossLogs | src/parser.rs:279-296 | if every log that runs applies something and no applied number is 0, the applied entries are consecutive across logs if and only if every log behind the first that runs starts at its header's number; and the header gets the last number |
| Replay.GapBetweenLogs | src/parser.rs:281-283 | any two logs headed 5 and 6 with entries 5 and 9: both run and leave a gap |
| Replay.HeaderNumber | src/parser.rs:279-304 | for all logs, the number stored is the last that the last log that ran applied, or 0; it is the last applied number of all if and only if that log applied something or that number is 0 |
| Replay.ZeroIsStored | src/parser.rs:289-292 | any two logs headed 5 and 6 of which the second has no entry: 0 is stored although entry 5 was applied |
| Replay.ReplayConcat | src/parser.rs:279-296 | replaying two lists of entries in turn is replaying them as one list |
| Replay.ReplayIsLastWriterWins | src/transaction_log.rs:255-285 | each byte is that of the last page covering it, else the original byte, else zero; length and header region are as specified |
| Replay.LastWriterWins | src/transaction_log.rs:273-285 | overwriting page by page gives the byte of the last covering page |
| Replay.ReplaySucceeds | src/transaction_log.rs:255-285 | a replay fails if and only if some page does not fit the buffer as long as its entry makes it |
| Replay.DamagedEntryIsNeverApplied | src/transaction_log.rs:229-318 | with damage in entry k of a log, replay applies exactly what it applied of the entries before k |
| Recovery.DamagedLogFile | src/transaction_log.rs:174-187 | the same for a whole log file: its header is kept, and replay applies exactly what it applied of the entries before the damaged one |
| Recovery.LogRoundTrip | src/transaction_log.rs:174-187 | a header and entries written behind it are read back as that log |
| Recovery.ChainedRecovery | src/parser.rs:258-309 | with logs that follow on each other, all entries are replayed and the header gets the last number, or a page does not fit and recovery fails |
| Recovery.BadChecksumRecovery | src/parser.rs:195-224 | with a bad checksum and one or two logs, the header is the last log's and only that log is replayed |
| Recovery.ReplayKeepsHeader | src/transaction_log.rs:273-285 | replay never changes what the header parses to |
| Recovery.RecoveredHeader | src/parser.rs:226-309 | recovery writes the run's number into both fields with a checksum that fits, and keeps every replayed byte behind the header |
| Recovery.Settled | src/parser.rs:173-193 | a file whose two numbers agree is left alone |
| Recovery.RestoredHeader | src/parser.rs:195-224 | after a bad checksum the header is the last log's, and restoring again changes nothing |
| Recovery.RecoveryIsIdempotent | src/parser.rs:98-309 | recovering the recovered file with the same logs changes no byte |
| Recovery.Parser.InitBaseBlock | src/parser.rs:98-140 | parses the header and reports what the checks find |
| Recovery.Parser.WriteDirtyPages | src/transaction_log.rs:273-285 | the page loop writes the pages into the buffer, or fails at one that does not fit |
| Recovery.Parser.ApplyEntry | src/transaction_log.rs:255-285 | one entry grows the buffer by its excess over the original size and writes its pages |
| Recovery.Parser.UpdateParser | src/transaction_log.rs:221-320 | one log replays exactly its applied entries and returns the last number, 0 if there is none |
| Recovery.Parser.HandleBadChecksum | src/parser.rs:195-224 | the header is taken from the last log, and of several logs the first is dropped |
| Recovery.Parser.PrepareTransactionLogs | src/parser.rs:173-193 | decides whether logs are needed, after restoring a bad header |
| Recovery.Parser.UpdateHeader | src/parser.rs:226-256 | writes the number twice, then the checksum |
| Recovery.Parser.RunAllLogs | src/parser.rs:279-296 | runs the logs whose header number follows, and returns the number of the last |
| Recovery.Parser.ApplyTransactionLogs | src/parser.rs:258-309 | the buffer becomes the specified recovered file, or an error is reported |
| Recovery.Parser.Init | src/parser.rs:57-71 | header check and log application together are `Recover` |
| History.Since | src/transaction_log.rs:531-577 | the first snapshot of the stretch in which the item has stood with its present hash |
| History.ChangeTimes | src/transaction_log.rs:531-577 | exactly the snapshots at which a live item's hash was replaced, in order |
| History.VersionsChain | src/transaction_log.rs:618-651 | versions are ordered intervals; one ends where the next begins if and only if the item was live in between |
| History.LiveVersionContinues | src/transaction_log.rs:531-577 | the last version ends where the live item begins if and only if it was live in between |
| History.DeletedStep | src/transaction_log.rs:467-526 | how one more snapshot changes which versions count as deleted |
| History.DeletedVersionIsKept | src/transaction_log.rs:512-526 | a deleted version stays what it is until the item is live with that hash again |
| History.DeletedVersionIsNew | src/transaction_log.rs:467-510 | the version that the new snapshot drops: since when it stood, and the new entry |
| Analyzer.CompareItems | src/transaction_log.rs:398-422 | new items take the entry's number, unchanged ones keep theirs, changed ones name what must be read from the prior buffer, the rest stay in the prior map |
| Analyzer.AddUpdated | src/transaction_log.rs:425-465 | each changed item whose prior cell can be read gets one more version with the prior hash, its number and the entry that replaced it; the others are passed over |
| Analyzer.AddDeleted | src/transaction_log.rs:467-510 | values left in the prior map whose cell can be read join the deleted lists, without duplicates; what joins has the prior hash, its number and the entry that dropped it |
| Analyzer.RemoveDeletedValue | src/state.rs:84-100 | removes exactly the triple (path, name, hash), and a list that becomes empty |
| Analyzer.RemoveLive | src/transaction_log.rs:512-526 | versions that are live again leave the deleted lists |
| Analyzer.TracksLiveStep | src/transaction_log.rs:531-577 | one entry keeps every live item's number at the entry since which its hash has stood |
| Analyzer.HoldsVersionsStep | src/transaction_log.rs:425-465 | one entry keeps the modified lists equal to the replaced versions |
| Analyzer.HoldsDeletedStep | src/transaction_log.rs:467-526 | one entry keeps the deleted lists equal to the versions dropped and not live since |
| Analyzer.HoldsDeletedVersionsStep | src/transaction_log.rs:467-526 | one entry keeps every listed value's numbers: that since which it had its hash when it was dropped last, and that of the entry that dropped it |
| Analyzer.LiveIsNotListed | src/transaction_log.rs:512-526 | no live value is in the deleted lists with its present hash |
| Analyzer.TransactionAnalyzer.constructor | src/transaction_log.rs:323-353 | the items of the original hive, all numbered 0 |
| Analyzer.TransactionAnalyzer.GetLatestRegItems | src/transaction_log.rs:384-529 | every snapshot keeps the statements about numbers, versions, deleted values and their versions over the whole run |
| Analyzer.TransactionAnalyzer.SkipUnparsable | src/transaction_log.rs:286-311 | an entry after which the buffer does not parse files nothing; the history goes on as long as the prior cells are still where they were |
| Traversal.PreorderVisitsReachable | src/parser.rs:452-482 | on any graph, preorder returns each reachable offset exactly once and nothing else |
| Traversal.PostorderVisitsReachable | src/parser.rs:389-450 | the same for postorder, with its counters |
| Traversal.OrdersArePermutations | src/parser.rs:389-482 | on any graph both orders return the same offsets equally often |
| Traversal.TreeOrders | src/parser.rs:389-482 | on a tree with distinct offsets they are the recursive preorder and postorder |
| Traversal.SeenShrinks | src/parser.rs:615-629 | every node read uses up unvisited offsets or pushes nothing, which is why iteration ends |
| Iteration.UnfilteredPreorder | src/parser.rs:452-482 | without a filter the iterator's preorder is the graph's |
| Iteration.UnfilteredPostorder | src/parser.rs:389-450 | without a filter the iterator's postorder is the graph's |
| KeyIterators.KeyIterator.PushChildren | src/parser.rs:615-629 | pushes the children not yet seen, the first on top, and marks them |
| KeyIterators.KeyIterator.Traverse | src/parser.rs:408-421 | pops a node, reads and pushes its children, and lowers the termination measure |
| KeyIterators.KeyIterator.NextPreorder | src/parser.rs:452-482 | returns the head of what is pending and leaves the tail; none exactly at the end |
| KeyIterators.KeyIterator.NextPostorder | src/parser.rs:389-450 | the same for postorder |
| KeyIterators.KeyIterator.DrainPreorder | src/parser.rs:640-654 | draining returns the whole pending preorder and ends |
| KeyIterators.KeyIterator.DrainPostorder | src/parser.rs:640-654 | draining returns the whole pending postorder and ends |
| Paths.SplitPath | src/filter.rs:163-176 | splitting a path of backslash-free names gives the names behind an empty piece |
| Paths.RootIsStripped | src/util.rs:336-345 | stripping the root offset leaves exactly the names below the root |
| Paths.LowerLetters | src/filter.rs:163-198 | the 26 pairs of letters that lower case changes |
| Paths.OtherCharacters | src/filter.rs:163-198 | every other character stays |
| Filtering.CheckKeyMatch | src/filter.rs:163-198 | the segment loop gives no match, prefix or exact match, segment by segment |
| Filtering.OutcomesMean | src/filter.rs:163-198 | no match if and only if there are too many segments, or one in lower case is not its literal or not accepted by its expression |
| Filtering.LiteralQuery | src/filter.rs:163-198 | a query of literals matches just the path that is equal in lower case, and iterates just the proper beginnings of it |
| Filtering.CheckSubKey | src/filter.rs:40-65 | the check of one sub key, with the root offset it caches |
| Filtering.ReadChildren | src/cell_key_node.rs:395-446 | reading sub keys keeps, in order, those that pass, with their filter states |
| FilteredTree.ReadIsPassing | src/cell_key_node.rs:395-446 | on a tree with backslash-free names, the sub keys kept are those whose segment-wise check passes |
| FilteredTree.IteratorPrunes | src/parser.rs:452-482 | the iterator's stack run equals a recursive pruned walk |
| FilteredTree.PrunedIsKept | src/filter.rs:48-72 | pruning drops nothing that the whole filter would keep |
| FilteredTree.FilteredIterationIsExact | src/parser.rs:452-482 | filtered iteration returns exactly the keys of the full preorder that the filter wants, in order |
| PostorderTree.PostorderIsCut | src/parser.rs:389-450 | on any hive, a postorder drain returns what is done while something is left to traverse, and of the keys still waiting then all with ancestors, and without them those before the first that does not match |
| PostorderTree.PostorderPrunes | src/parser.rs:389-432 | on a tree, with more to traverse, the two stacks and the counters give the recursive postorder of the keys that pass |
| PostorderTree.PathIsLeft | src/parser.rs:389-432 | on a tree, the keys still waiting are the path from the last key that passes up to the root |
| PostorderTree.FilteredPostorderIsExact | src/parser.rs:389-450 | on a tree: with ancestors exactly the wanted keys of the full postorder; without, which keys are returned, and that these are the wanted ones if and only if some key passes without matching and all such keys are on the last path |
| PostorderTree.RootIsReturned | src/parser.rs:438-447 | a root with one sub key: asked for the sub key, a drain without ancestors also returns the root |
| PostorderTree.RootAlone | src/parser.rs:438-447 | if nothing below the root passes, a drain returns just the root |
| Lookup.RoomShrinks | src/cell_key_node.rs:623-644 | each level of a search has fewer segments left, so it ends on cyclic hives |
| Lookup.CheckIs | src/filter.rs:163-198 | against a literal request, a path is a match if it is equal ignoring case, and on the way if its segments are the first ones |
| Lookup.SearchFinds | src/cell_key_node.rs:623-644 | on any hive: nothing is found if and only if no key has the path; what is found is the first in preorder if and only if the sub keys of the first parent are not blocked |
| Lookup.SearchGives | src/cell_key_node.rs:630-638 | on any hive: the answer is exactly the first sub key on the way of the first key, in preorder, that has a matching sub key |
| Lookup.AnswerMeans | src/cell_key_node.rs:623-644 | a key with the requested path is the answer if and only if no earlier key has that path and nothing blocks the first parent |
| Lookup.GetKeyFindsFirst | src/parser.rs:526-552 | the same for whole requests on any hive: leading and trailing backslashes, the root part and the empty path included |
| Lookup.PlainLookup | src/parser.rs:526-552 | with backslash-free key names, lookup finds the first key in preorder that has the path, and none if there is none |
| Lookup.BackslashInName | src/cell_key_node.rs:630-638 | a hive with a backslash inside a key name on which lookup returns a key that was not asked for |
| Lznt1.Width | src/util.rs:225-240 | the entry for x is the least b of at least 4 with x <= 2^b |
| Lznt1.CalcCompressionBits | src/util.rs:225-240 | the loop fills the table with those widths |
| Lznt1.WidthIsUnique | src/util.rs:225-240 | that description determines the entry |
| Lznt1.CopyPhrase | src/util.rs:318-326 | copying byte by byte repeats the last bytes periodically, also when source and target overlap |
| Lznt1.PhraseUnpacks | src/util.rs:307-320 | a packed phrase gives back its displacement and length |
| Lznt1.DecodeTagGroup | src/util.rs:297-329 | one tag byte decodes the specified literals and phrases |
| Lznt1.DecodeLznt1 | src/util.rs:254-334 | the decoder loop gives the specified output or panic for every input |
| Lznt1.DecodeInvertsEncode | src/util.rs:254-334 | decoding serialised well-formed chunks gives their concatenated expansion |
| SlackRecovery.SlackIsSwept | src/parser_recover_deleted.rs:182-234 | wherever something in a region parses as a cell, a recovered cell covers that place |
| SlackRecovery.CellIsThere | src/cell_key_value.rs:289-374 | a cell that parses on a slice is in the file at the claimed offset, and its slack is the file's bytes at the slack offset |
| SlackRecovery.FromSlackIsSound | src/parser_recover_deleted.rs:182-234 | what a region yields lies in it, is in the file, is disjoint or nested in slack, in order, and leaves nothing behind |
| SlackRecovery.ScanBinsIsSound | src/parser.rs:156-171 | the same for a whole pass over the bins |
| SlackRecovery.OffsetsAreDistinct | src/parser_recover_deleted.rs:110-180 | no file offset is recovered twice |
| SlackRecovery.ChainCellIsRecovered | src/parser_recover_deleted.rs:51-180 | the walk over a bin recovers a key or value in its chain of cells if and only if the top bit of its size is clear |
| SlackRecovery.FilledBin | src/parser_recover_deleted.rs:51-103 | a bin that its chain of cells fills is walked without error up to its end |
| SlackRecovery.CellOfPass | src/parser.rs:156-171 | for bins behind one another, the pass recovers a key or value of a bin if and only if the bin starts before the size of the bins and the top bit of the cell's size is clear |
| SlackRecovery.OneBinIsMissed | src/parser.rs:156-171 | a file of one bin, behind any header, whose free value the pass does not recover |
| RecoveredCells.CellRoundTrip | src/cell_key_value.rs:289-374 | a key or value cell written field by field is parsed with its size, sign and length, and what follows up to its size is its slack |
| RecoveredCells.ParsedCellIsWritten | src/cell_key_value.rs:289-374 | every cell that parses was written like that |
| RecoveredCells.OriginInPass | src/parser_recover_deleted.rs:51-180 | every recovered cell is a key or value of a visited bin with a positive size, or lies in the slack of one, or in a cell that does not show a key or value |
| RecoveredCells.NothingIsMissed | src/parser_recover_deleted.rs:51-180 | wherever something parses in such slack or such a cell, a recovered cell covers that place |
| SlackRecovery.ParserRecoverDeleted.ReadCell | src/parser_recover_deleted.rs:110-180 | files what the cell's slack holds, then the cell if it is free or forced, and returns the step |
| SlackRecovery.ParserRecoverDeleted.FindCellsInSlack | src/parser_recover_deleted.rs:182-234 | the scan of a region files exactly the specified cells and ends |
| SlackRecovery.ParserRecoverDeleted.FindUnusedCellsInHbin | src/parser_recover_deleted.rs:51-103 | the walk over a bin files exactly the specified cells, stops where the code stops, and fails where it fails |
| SlackRecovery.ParserRecoverDeleted.FindFreeInHbin | src/parser_recover_deleted.rs:33-49 | one bin, with its header |
| SlackRecovery.ParserRecoverDeleted.FindFreeKeysAndValues | src/parser.rs:156-171 | the whole pass ends, and from an empty state what it recovered is sound |
| RegCompare.LoadBase | bin/reg_compare.rs:257-278 | the map holds the items of the base hive |
| RegCompare.CompareHives | bin/reg_compare.rs:257-346 | the six lists, or a panic, for whatever order the map yields its remaining entries in; originals are looked up by path |
| RegCompare.ClassifiedExactly | bin/reg_compare.rs:300-331 | while every item is found as itself, the lists hold exactly the changes so far and the map the rest, after any part of the comparison hive |
| RegCompare.FindingIsEnough | bin/reg_compare.rs:300-346 | if every item of the base hive is found as itself, there is no panic and each list holds exactly its differences, once |
| RegCompare.FindingIsNecessary | bin/reg_compare.rs:300-346 | if one is not, there is a hive with which the comparison is wrong |
| RegCompare.PatchGivesComparison | bin/reg_compare.rs:257-346 | deleting, adding and replacing the lists on the base map gives the comparison map |
| RegCompare.ListsAreDisjoint | bin/reg_compare.rs:280-285 | no item is in two lists |
| RegCompare.EmptyWhenEqual | bin/reg_compare.rs:287-291 | all lists are empty if and only if the maps agree |
| BaseLookup.FindableIsFound | bin/reg_compare.rs:303-325 | the items of a key are found as themselves if and only if a lookup of its path answers with a key of the same path and hash that has its values first of their names |
| BaseLookup.SearchableFindsItems | bin/reg_compare.rs:303-345 | every item of a hive is found as itself if and only if every key is findable |
| BaseLookup.ComparisonIsExact | bin/reg_compare.rs:257-346 | on any hive whose keys are findable, every comparison is exact |
| BaseLookup.ExactIfSearchable | bin/reg_compare.rs:257-346 | on any hive of distinct names, shared and cyclic keys included, all comparisons are exact if and only if every key is findable |
| BaseLookup.TreeIsListed | src/parser.rs:452-482 | in a tree, iteration meets every key, with the path of the one walk to it |
| BaseLookup.ExactIfCaseDistinct | bin/reg_compare.rs:257-346 | for trees of non-empty, backslash-free names, all comparisons are exact if and only if names differ in more than case |
| BaseLookup.ComparisonIsADiff | bin/reg_compare.rs:257-346 | the lists turn one map into the other, are disjoint, and are empty if and only if the maps agree |
| BaseLookup.CaseVariants | bin/reg_compare.rs:333-346 | two sub keys that differ in case: one is looked up for the other, and the second is missing from the deleted keys |
| BaseLookup.BackslashVariants | bin/reg_compare.rs:333-346 | a sub key `a\b` behind `a`, names differing in more than case: `a` is looked up for it, and it is missing from the deleted keys |
| UnifiedDiff.WriteDiffSection | bin/reg_compare.rs:466-491 | one section prints a header and its lines, or nothing when empty, and moves both line numbers on |
| UnifiedDiff.WriteDiff | bin/reg_compare.rs:595-620 | six sections in order, each starting where the last ended |
| UnifiedDiff.ItemsOfDiff | bin/reg_compare.rs:595-620 | in order, the removals are the deleted items and the originals of the modified ones, the additions the added items and the current modified ones |
| UnifiedDiff.DiffIsExact | bin/reg_compare.rs:595-620 | of exact lists, an item is removed if and only if the base has it and the comparison has not, with that hash, and added if and only if the converse holds |
| UnifiedDiff.PrintedComparison | bin/reg_compare.rs:257-346 | so it is for every comparison of a hive whose keys are findable |
| UnifiedDiff.HunksAreNumbered | bin/reg_compare.rs:466-491 | each header counts exactly the lines that follow it and starts at 1 plus the lines earlier hunks have on that side |
| BigData.CollectSegments | src/cell_big_data.rs:55-70 | bytes collected plus bytes missing equal the declared size; the result is the specified content or error |
| BigData.GatherLength | src/cell_big_data.rs:55-70 | reading gives the declared size, or less only when the segments hold no more |
| BigData.GetBigDataBytes | src/cell_big_data.rs:41-75 | header, segment list, segments and type length together, or an error |
| BigData.Words | src/cell_big_data.rs:118-130 | the segment list is read word by word, or not at all |
| BigData.GatherInvertsCut | src/cell_big_data.rs:55-70 | reading back the segments of cut content gives the content |
| BigData.ListRoundTrip | src/cell_big_data.rs:87-130 | a written big-data cell and its list of segments are read back |
| BigData.ReadInvertsStore | src/cell_key_value.rs:431-450 | content over 16344 bytes, stored in segments anywhere in the file, is read back whole, or cut to its type's length |
| BigData.ReadInvertsCell | src/cell_key_value.rs:451-459 | content behind the size field of one cell is read back, unless it is over 16344 bytes and starts like a big-data cell |
| BigData.ContentLikeBigData | src/cell_key_value.rs:436-450 | such content with two zeros behind is read as nothing |
| BigData.ReadInvertsResident | src/cell_key_value.rs:476-483 | up to four bytes in the offset field are read back, first byte first, when the top bit of the size is set |
| BigData.ValueBytesMeans | src/cell_key_value.rs:202-207 | a type of length n keeps the first n bytes, or all if there are fewer; other types keep all |
| BigData.NothingIsRead | src/cell_key_value.rs:431-493 | when the content read is empty, in each of the three cases |
| Utf16.FromUtf16LeStrings | src/util.rs:72-92 | the loop ends on every buffer and gives the specified strings |
| Utf16.DecodeInvertsEncode | src/util.rs:28-48 | decoding an encoded string and its terminator gives the string, whatever follows |
| Utf16.UnitIsNumber | src/util.rs:28-48 | code units are little-endian |
| Utf16.SurrogateBytes | src/util.rs:28-48 | which units are the first and second of a pair |
| Utf16.ReadOne | src/util.rs:80-90 | one turn reads one string; the next starts at the next string if and only if it has no surrogate pair |
| Utf16.StringsOfPart | src/util.rs:72-92 | everything read from one string and what follows, for any number of surrogate pairs |
| Utf16.StringsOfList | src/util.rs:72-92 | what is read from any list of NUL-free strings |
| Utf16.ListRoundTrip | src/util.rs:72-92 | byte for byte, any list of NUL-free strings comes back whole if and only if no string is blank and the strings behind the first with a pair, if there is one, are just what is read from its end |
| Utf16.FewPairs | src/util.rs:72-92 | with at most one pair to a string, that is if and only if no string but the last has one |
| Utf16.LostString | src/util.rs:47-56 | two strings of which the second is lost |
| Utf16.BlankString | src/util.rs:80-90 | a string of one space ends the list |
| Utf16.ExtraString | src/util.rs:47-56 | one string that is read as two |
| Utf16.ByChance | src/util.rs:47-56 | a list with pairs that comes back whole all the same |

## Left out

- Reading files and streams, builders, progress output, log texts, command-line tools and folder walking.
- `pynotatin` and the jsonl, tsv, xlsx and common writers; the text form of the comparison.
- blake3, regular expressions and the parser combinators: hashes are values with equality, a regex segment is an arbitrary
  predicate, parsers are functions on byte sequences.
- Security descriptors, typed values and FILETIME formatting, field offsets and serialisers.
- Sub-key lists: `lf`, `lh`, `li` and `ri` lists are taken as already flattened; their recursion has no cycle check to
  reason from. The refusal of keys that claim more than 1024 * 1024 sub keys is not modelled either.
- Deleted-key lists: `ModifiedDeletedKeyMap::remove` searches the list of the parent path but erases the entry of the path
  (src/state.rs:130-142), so only the deleted-value lists are claimed to be exact.
- KeyIterators.KeyIterator.Traverse: deleted keys, which the iterators also push and return when there are any, are left
  out; so are modified versions.
- KeyIterators.KeyIterator.NextPreorder: without deleted keys.
- KeyIterators.KeyIterator.NextPostorder: without deleted keys.
- Overflow checks and the assertion on the number of logs in debug builds; parsing of the root after recovery.
- Recovery.RecoveryIsIdempotent: with `recover_deleted` off; the logs are given parsed and in order.
- Analyzer.CompareItems: for parses that show no item key twice. A second item of the same key would count as new and take
  the place of the first.
- Analyzer.TransactionAnalyzer.constructor: for an original hive with distinct item keys whose cells can be read again.
- Analyzer.TransactionAnalyzer.GetLatestRegItems: for snapshots with distinct item keys whose cells can be read again; a
  prior cell that can not be read is logged and has no version filed, so the lists then lack it.
- Analyzer.TransactionAnalyzer.SkipUnparsable: the prior map is kept and only the prior buffer moves on, so the prior cells
  must still be there; where the entry overwrote them the lists hold what is read in their place.
- FilteredTree.FilteredIterationIsExact: for trees with distinct offsets and backslash-free names, and no key below the
  root flagged as hive entry; PostorderTree.FilteredPostorderIsExact likewise.
- RegCompare.CompareHives: without a filter; the root that iteration starts from and the root that lookups start from are
  taken to be the same cell.
- BaseLookup.ComparisonIsExact: the items of the comparison hive are distinct as well.
- SlackRecovery.ChainCellIsRecovered: for chains whose cells hold at least a size and a type;
  RecoveredCells.NothingIsMissed likewise.
- LogFormat.ParsedEntryIsWritten: not for entries whose pages run past the size they claim.
- Recovery.BadChecksumRecovery: for one or two logs, as many as a hive has.
- Marvin32.KnownHashes: four of the values that the tests expect.
- SlackRecovery.ScanBinsIsSound: values and content of recovered cells are not read; only what is recovered, and where.
- Lznt1.DecodeInvertsEncode: chunks expand to at most 4096 bytes; nothing is claimed about malformed input except that the
  decoder does what its specification function does.
