# Verified models of dolphin's line protocol and controllers

A Dafny 4.11 model of the parts of dolphin that carry state machines and text formats, with proofs of what they are for.
`dafny verify dfyconfig.toml` checks everything; no file needs another project.

- **Line protocol** (`report/metric`): `ByteStrings`, `Escaping`, `Decimals`, `Lines`, `Building` (New), `TagLookup`,
  `FieldLookup`, `Splitting`, `SplitLaws` with `SplitPacking` and `SplitExact`, `LineGrammar` with `LineParser` (what the
  scanners accept, and the scanners loop by loop), `KeyGrammar` and `ScalarGrammar` (exactly which key blocks, numbers and
  booleans that is), `Timestamps`, `FieldBalance`, `FieldScanning`, `RoundTrip` with `RoundTripExact`, `LineReader` (the
  streaming reader), `Pipeline` (New, reader and Parse end to end), `TagEditing` with `TagShadowing`, `TaggedMetrics`, `Sorting`.
- **Registry** (`registry/generic`): `Compaction` (the etcd compactors), `FilteredWatch` with `WatchOutcome` (the watch and
  its cache).
- **Deployment** (`deploy/sync`, `controllers`, `types`): `ExclusivePool`, `RollingUpdate` with `MapSums`, `Admission`,
  `Routes` with `RouteBlanks`, `ZkPaths`, `Separators`, `Units`.

Conventions. A byte is a `char`; every statement holds for all strings, hence for byte strings. Where Go would index out of
range the model has an explicit outcome (`None`, `Broken`, `OutOfRange`), and a write to a nil map is `Panicked`. Walking a
Go map is a loop that takes any key that is left. Code that updates variables in loops or fields of objects is a `method`
or a `class`, each proved equal to a specification function; the laws are lemmas about those functions. Protocols with
several goroutines or processes are state machines whose steps are the atomic actions, and the laws hold in every run.
The package has three ways to see an escape: the parity of the backslashes, the one byte before, and skips over two bytes.
On the escaped form of a text they all mean the same if and only if the text is "clean" (`Escaping.RulesAgree`): no special
byte stands under an escape and the text does not end in a backslash. `a\,b` and a trailing backslash are not clean, `a\\,b`
is (`Escaping.RulesDiffer`). Laws about code that goes by one of the rules ask for that rule's half only, and line feeds
matter only where a buffer is cut into lines.

Where the code and its comments differ, the code is followed:

- `RemoveTag` and `HasTag` look for the text `key=`, so they also find a longer key that ends with the given one. The exact
  conditions under which they are right are `TagShadowing.RemoveRefines` and `AddRefines` and `TagEditing.HasRefines`;
  `TagShadowing.RemovePresentExample` and `TagEditing.RemoveShadowedExample` are inputs on which `RemoveTag` is wrong, and
  `TagEditing.HasWrongExample` one on which `HasTag` is.
- `Split` cuts at every bare comma, also inside a string: it keeps the fields at every size if and only if no key has a comma
  under an escape and no string one outside an escape (`SplitExact.SplitExactly`; `SplitExact.QuotedComma` for `k="a,b"`).
- The parser accepts numbers that start with a point, and Fields passes over them (`ScalarGrammar.AcceptedNumbersRead`,
  `ScalarGrammar.PointFirst`).
- `scanTime` lets a minus without digits through: it is kept as the time where no precision has to be applied, as is a time
  beyond int64 (`Timestamps.MinusAsTime`, `Timestamps.BeyondInt64`).
- Comment lines of a route configuration are skipped in version 2 only (`RouteBlanks.SkippedLines`).
- `addOneInstance` writes to a nil map, and panics, for a host that has no entry in the table. `RollingUpdate.ReplicaCtrl.Roll`
  says exactly when; a first deployment always does as soon as a host is drawn (`RollingUpdate.FirstDeployPanics`).
- `updateInstances` forgets the errors of its writes when it returns because enough was moved
  (`RollingUpdate.ReplicaCtrl.UpdateInstances`, `RollingUpdate.ForgottenFailure`); it moves one instance per host and call,
  so two legacy instances on one host leave `rollingUpdate` short (`RollingUpdate.TwoOnOneHost`).
- A cache that is loaded before its watch starts keeps keys deleted in between (`FilteredWatch.LoadedCacheIsFiltered` has
  the exact condition, `FilteredWatch.StaleKey` a run). The deploy config manager is such a cache; at this commit nothing
  calls its `watch`, so there it is only what was loaded.
- `getZKPath0` inverts `parseZKPathv4` only if there is no dot in the application's name (`ZkPaths.RoundTrip`,
  `ZkPaths.DottedExample`).
- `getZKPath0` tests for the type `instance` while the written paths say `instances`; `parseZKPathv4` maps such
  paths and `getZKPath0` refuses all of them (`ZkPaths.InstanceRefused`).
- `os.IsExist` is false of every error that `checkHostStatus` makes, so the second best host is never used.

## Model

| member | source | states |
|---|---|---|
| Escaping.UnescapeEscape | report/metric/escape.go:18-54 | unescape is a left inverse of escape, for all three tables and every string |
| Escaping.IndexUnescapedByte | report/metric/metric.go:94-111 | the search loop returns what a left-to-right escape automaton calls the first unescaped position, for every buffer and byte |
| Escaping.CountBackslashes | report/metric/metric.go:115-129 | an odd run of backslashes before a byte is the same as the automaton calling that byte escaped |
| Escaping.IndexBareLeast | report/metric/metric.go:92-111 | the searched position is the least unescaped one, and -1 exactly when there is none |
| Escaping.RulesAgree | report/metric/parse.go:217-219 | for every text, the previous-byte rule and the parity rule class every special byte of its escaped form and the delimiter behind it as intended if and only if no special byte stands under an escape and the text does not end in a backslash |
| Escaping.RulesDiffer | report/metric/parse.go:217-219 | concrete texts on both sides of that condition |
| Escaping.EscapeSealed | report/metric/escape.go:18-22 | for any set of special bytes, the escaped form shows none of them unescaped and leaves no escape open if and only if none stands under an escape in the text and the text leaves none open |
| Lines.Serialize | report/metric/metric.go:166-179 | the six copies fill the slice with exactly name, tags, fields and time in order |
| Lines.SerializeTo | report/metric/metric.go:181-221 | any buffer gets as much of the line as fits and is untouched behind it |
| Building.FillTags | report/metric/metric.go:47-69 | whatever orders the two passes walk the map in, the second ends exactly at the length the first computed, and writes each kept pair once |
| Building.FillFields | report/metric/metric.go:71-85 | each field is written once, with commas between and none at the ends |
| Building.New | report/metric/metric.go:19-88 | the error cases, and otherwise the four blocks for some walk of each map |
| Building.TagRoomWithout | report/metric/metric.go:47-55 | the room a pass over the tags needs does not depend on the order of the walk |
| TagLookup.Tags | report/metric/metric.go:342-372 | the index arithmetic cuts one tag after another off the block, for every byte string |
| TagLookup.TagsOfNew | report/metric/metric.go:342-372 | Tags of what New writes is exactly the pairs with non-empty key and value, in every walk order, if no such key has an '=' and no such value a comma under an escape, and none leaves an escape open |
| FieldLookup.Fields | report/metric/metric.go:274-340 | the loop reads one field after another, with every silent skip and every index that is out of range |
| FieldLookup.FieldsOfNew | report/metric/metric.go:274-340 | Fields of what New writes is exactly the given fields, unsigned integers capped at the largest int64, if no key has an '=' under an escape, no key before a number or boolean a comma, and no string a quote |
| FieldLookup.TokenReadBack | report/metric/metric.go:516-588 | a printed integer, boolean or float is read back as the value that was stored |
| ScalarGrammar.AcceptedNumbersRead | report/metric/metric.go:296-326 | Fields reads every accepted number back as what it says, except those that start with a point |
| ScalarGrammar.AcceptedBooleansRead | report/metric/metric.go:328-331 | Fields reads every accepted boolean back as what it says |
| ScalarGrammar.PassedOver | report/metric/metric.go:296-336 | a value that cannot be read is passed over, and the fields behind it are read as if it were not there |
| Splitting.Split | report/metric/metric.go:223-272 | the loop packs the comma segments from the left as specified, for every metric and size, and terminates |
| SplitLaws.SplitConserves | report/metric/metric.go:223-272 | parts keep name, tags and time; joined with commas their fields are the original; each part fits or is one segment |
| SplitLaws.PackSizes | report/metric/metric.go:240-262 | every packed block fits the size or is a single segment, and none is empty |
| SplitPacking.SplitIsGreedy | report/metric/metric.go:250-266 | for every metric and size no part could have taken the first piece of the next part as well |
| SplitPacking.SplitKeepsPieces | report/metric/metric.go:223-272 | for every metric and size, gaps and all, the pieces between commas that hold anything come out in order, each once |
| SplitPacking.PartsFit | report/metric/metric.go:240-262 | for every metric and size a part differs in its fields only, and fits or is one piece |
| SplitLaws.SplitKeepsFields | report/metric/metric.go:223-272 | where no key has a comma under an escape and every comma of a string is under one, the union of the parts' Fields is the original Fields |
| SplitExact.SplitExactly | report/metric/metric.go:223-272 | for every list of fields that Fields reads back, the union of the parts' Fields is the original at every size if and only if that condition holds |
| SplitExact.KeptIsUncut | report/metric/metric.go:240-262 | keeping the fields at size 0 is already enough for it |
| SplitExact.StringPieces | report/metric/metric.go:240-262 | whatever commas cut a written string field, either Fields indexes out of range on a piece or the string is whole and no key that is read has a comma under an escape |
| SplitExact.QuotedComma | report/metric/metric.go:240-262 | a concrete input: k="a,b" without room is cut into parts that Fields cannot read |
| LineParser.ScanMeasurement | report/metric/parse.go:202-235 | the scan agrees with the grammar's least plain delimiter, for every buffer |
| LineParser.ScanTags | report/metric/parse.go:238-325 | the tag scanners, called in turn, agree with the grammar and stay inside the buffer |
| KeyGrammar.KeyBlocksExactly | report/metric/parse.go:179-325 | a line has a key block from s to e if and only if blanks, a name and tags without a delimiter in the wrong place lie there, with a space behind |
| LineParser.ScanNumber | report/metric/parse.go:468-580 | the flag automaton and its final checks agree with the grammar, for every buffer |
| ScalarGrammar.NumbersExactly | report/metric/parse.go:468-580 | a number is accepted if and only if the text up to the next comma or space is an int64 with an i, or has the form of a decimal that strconv accepts where it is asked |
| LineParser.ScanBoolean | report/metric/parse.go:585-639 | exactly the one-letter words and the six spellings are accepted |
| ScalarGrammar.BooleansExactly | report/metric/parse.go:585-639 | a boolean is accepted if and only if the text up to the next comma or space is one of ten words |
| LineParser.ScanFields | report/metric/parse.go:329-428 | the loop over quotes, escapes, equals and commas agrees with the grammar, for every buffer |
| LineParser.ScanTime | report/metric/parse.go:430-459 | a sign only in front, digits, and the end at a blank, a line feed or the end |
| LineParser.ParseMetric | report/metric/parse.go:95-174 | for every buffer the three scans and the reassembly give what the grammar says, without an index out of range |
| LineParser.Parse | report/metric/parse.go:54-93 | lines that parse are collected in order and the others only add an error |
| LineGrammar.FindBlocks | report/metric/parse.go:95-136 | on success the three blocks are disjoint, in order, apart from the time not empty, with only blanks between |
| FieldBalance.AcceptedFieldsBalance | report/metric/parse.go:330-427 | an accepted field block, read byte by byte, has closed quotes and exactly one more unquoted, unescaped '=' than ',' |
| FieldBalance.WalkFields | report/metric/parse.go:338-404 | the jumps over escapes, numbers and booleans lose no delimiter |
| FieldScanning.FieldsRun | report/metric/parse.go:329-428 | a field block whose keys are not empty and have no comma, space or '=' under an escape, and whose strings have no quote under one, is scanned to its end with balanced counters |
| FieldScanning.FieldsNeeded | report/metric/parse.go:329-428 | without commas under an escape in the keys and quotes in the strings, a block that is scanned to its end has no other kind of key |
| FieldScanning.CommaByChance | report/metric/parse.go:329-428 | two fields whose keys have a comma under an escape and that are scanned to their end all the same |
| FieldScanning.IntegerEnd | report/metric/parse.go:468-580 | every printed int64 passes the number scan and its range check |
| RoundTrip.KeyBlockAt | report/metric/parse.go:179-325 | a written name and tag block, none of whose texts ends in a backslash, is scanned as one key block |
| RoundTrip.MetricOfRendered | report/metric/parse.go:95-174 | parsing one printed metric gives back its bytes, the time scaled by the precision with 64-bit wrap-around |
| RoundTrip.ParseSerialized | report/metric/parse.go:54-93 | Parse of the concatenated lines of any list of readable metrics gives those metrics in order and no error, in every precision |
| Timestamps.DefaultTime | report/metric/parse.go:160-168 | a line without a time gets the default time unscaled, in every precision |
| Timestamps.OneInstant | report/metric/parse.go:132-143 | one instant written in hours, minutes, seconds, milliseconds, microseconds or nanoseconds is kept as the same nanoseconds |
| Timestamps.BeyondInt64 | report/metric/parse.go:132-143 | a time beyond int64 is refused if and only if a precision has to be applied to it |
| Timestamps.MinusAsTime | report/metric/parse.go:430-459 | a minus alone is scanned as a time, and then kept or refused in the same way |
| RoundTripExact.MetricExactly | report/metric/parse.go:95-174 | for well-formed values, field keys without a comma under an escape, tag texts that do not end in a backslash and, before tags, a name that does not: one metric comes back if and only if its name has no comma under an escape, does not end in a backslash and, like the first field key, does not start with a tab or NUL, no field key is empty or has an '=' or a space under an escape, no tag has an empty key or value, and the key block is not too long |
| RoundTripExact.BackslashByChance | report/metric/parse.go:202-235 | behind a name that ends in an even number of backslashes, one tag is scanned as a part of the name, and the metric comes back all the same |
| RoundTrip.NewIsReadable | report/metric/metric.go:19-88 | whatever order New walks its maps in, what it makes from texts of these kinds satisfies the condition of the round trip |
| LineReader.Reader.Read | report/metric/reader.go:53-162 | each call adds exactly the bytes it wrote to the stream, leaves the rest of the buffer alone and reports EOF exactly with the last byte; it writes as many whole metrics as fit, or the first part, or as much of a line as there is room for, and never nothing into a buffer that is not empty |
| LineReader.Reader.TrySplit | report/metric/reader.go:75-97 | the metric is split at the buffer's length if and only if that gives several parts of which the first fits, and then that part's line is written |
| LineReader.Reader.ReadSplitOverflow | report/metric/reader.go:129-146 | the rest of a part is delivered from where it stopped, then the next part or metric follows |
| LineReader.ReadAll | report/metric/reader.go:53-162 | with any positive buffer lengths reading ends, and each metric comes in the one way the room it met asks for: whole if and only if it fitted, as the parts of one split if and only if it did not and splitting helped |
| LineReader.RoomForAll | report/metric/reader.go:53-72 | buffers that take every metric cut none, and the stream is the lines in order |
| Pipeline.LinesParse | report/metric/parse.go:54-93 | any concatenation of lines of readable metrics parses to those metrics, in every precision that leaves times alone |
| Pipeline.PartsGenuine | report/metric/metric.go:223-272 | every part of a split metric is again what New would make, under the same condition as the next row |
| Pipeline.StreamParses | report/metric/reader.go:53-162 | the stream of a reader, through any buffers, parses to exactly the metrics or their parts, in order, in every precision that leaves times alone, if the metrics can be read back whichever field comes first and Split cuts no key and no string of theirs |
| TagEditing.IndexInTags | report/metric/metric.go:414-437 | bytes.Index finds the first tag whose key ends with the given key, at that place in the key |
| TagEditing.RemovedBytes | report/metric/metric.go:422-437 | RemoveTag byte for byte on every block of tags that Tags reads back and whose values do not end in a backslash, for every key that does not and has no comma or '=' under an escape |
| TagShadowing.RemoveRefines | report/metric/metric.go:422-437 | for such tags with distinct keys and such a key, RemoveTag is deletion from the Tags map if and only if no longer key that ends with the given one comes first, or what is cut off the first such key ends in a comma and the tag right behind it is the one to be removed, with the same value |
| TagShadowing.AddRefines | report/metric/metric.go:409-412 | AddTag is update of the Tags map under exactly the same condition |
| TagShadowing.ReadBlock | report/metric/metric.go:342-437 | what Tags reads after a shadowed removal: the stump of the longer key and the tag behind it become one tag, and with no tag behind it the block is unreadable |
| TagShadowing.FusedIs | report/metric/metric.go:342-372 | the key of that tag: the last byte of what was cut off gives way to a comma, and so does a backslash before it unless that byte was a special one |
| TagShadowing.RemovePresentExample | report/metric/metric.go:422-437 | a concrete block where the key is set behind a longer one: from ,xa=1,a=2 removing a leaves ,,a=2, which Tags reads as one tag with the key ,a |
| TagShadowing.RemoveShadowedByChance | report/metric/metric.go:422-437 | the restored blocks byte for byte |
| TagEditing.AddedBytes | report/metric/metric.go:409-412 | AddTag keeps the block well-formed, so edits can be repeated |
| TagEditing.HasRefines | report/metric/metric.go:414-420 | HasTag is right about the Tags map if and only if the key is there or no key ends with it |
| TagEditing.HasWrongExample | report/metric/metric.go:414-420 | a concrete block, ,xa=v, on which HasTag finds the key a |
| TagEditing.RemoveAbsent | report/metric/metric.go:422-437 | removing an absent key changes nothing if and only if no key ends with it |
| TagEditing.RemoveShadowedFails | report/metric/metric.go:422-437 | removing a key where only a longer one ending with it is set leaves tags that Tags cannot read |
| TagEditing.RemoveShadowedExample | report/metric/metric.go:422-437 | a concrete input for that failure |
| TaggedMetrics.TaggedMetric.RemoveTag | report/metric/metric.go:422-437 | the slice arithmetic computes the specified edit, never indexes out of range, and drops the cached hash |
| TaggedMetrics.TaggedMetric.AddTag | report/metric/metric.go:409-412 | removal and appending compose to the specified edit and drop the cached hash |
| TaggedMetrics.TaggedMetric.HashID | report/metric/metric.go:493-514 | along every sequence of method calls a cached hash is zero or the hash of the current name and tag map |
| TaggedMetrics.HashMeans | report/metric/metric.go:493-514 | the hash takes in the name and then, in lexicographic order, every key with its value behind it |
| TaggedMetrics.OrderDoesNotMatter | report/metric/metric.go:493-514 | tags laid out in another order give the same tag map and the same hash |
| Sorting.SortedUnique | report/metric/metric.go:496-509 | a sorted list is determined by its members, so no walk of the map can change the hash |
| Compaction.Process.Conclude | registry/generic/compact.go:119-166 | how compactTime and rev follow from each answer of the transaction |
| Compaction.TxnOutcome | registry/generic/compact.go:137-166 | an answered transaction leaves its sender with the version and revision the store then has, and is followed by a Compact call for the value just put if and only if it swapped a key that was there before; told of a failure the sender keeps what it knew |
| Compaction.RoundGoesOn | registry/generic/compact.go:119-166 | a process whose interval is over can run its transaction, and one that has swapped can compact: afterwards the store has compacted its target or was past it |
| Compaction.StepKeeps | registry/generic/compact.go:119-166 | every step of any process keeps the protocol's invariant, with requests that are lost, answers that are lost, and requests that are applied only after their sender was told of a failure |
| Compaction.ArriveKeeps | registry/generic/compact.go:137-166 | a request that is applied late keeps it, at whatever time it arrives |
| Compaction.RunCompactsOld | registry/generic/compact.go:119-166 | in every run each Compact request, late ones included, names a revision that was the global one a full interval before |
| Compaction.QuietRunCompacts | registry/generic/compact.go:119-166 | in every run without crashes and lost, delayed or unanswered requests, whenever no process is between swap and Compact call, what is compacted is the value of the last swap |
| Compaction.LastIntervalKept | registry/generic/compact.go:70-75 | nothing that was current during the last interval is ever compacted |
| Compaction.SwapsApart | registry/generic/compact.go:137-148 | targets strictly increase with the key's version, and any two swaps are an interval apart |
| Compaction.ElseFindsKey | registry/generic/compact.go:152-155 | a failed comparison always finds the key |
| Compaction.OneCaller | registry/generic/compact.go:137-166 | no two Compact requests, made or under way, name the same target |
| FilteredWatch.TailEvent | registry/generic/watcher.go:235-295 | transforming one event of the log brings an agreeing cache from one revision to the next |
| WatchOutcome.TailSends | registry/generic/watcher.go:235-364 | the event for a revision: added, modified or deleted with the new, the new and the old object if and only if the key comes into the filtered store, stays in it or goes from it, and nothing otherwise |
| WatchOutcome.TailFails | registry/generic/watcher.go:337-364 | it is a decoding error if and only if the new value does not decode, or the old one is needed, not empty and does not decode |
| FilteredWatch.SyncEvent | registry/generic/watcher.go:131-158 | the same for one entry of the snapshot, although its previous value is its own value |
| WatchOutcome.SyncSends | registry/generic/watcher.go:131-158 | an entry of the snapshot is reported if and only if it is selected: as added if it was put once since the key was missing, else as modified |
| WatchOutcome.EntryMeans | registry/generic/watcher.go:145-157 | an entry holds the last put of its key and dates from the first put since the key was missing |
| FilteredWatch.Sync | registry/generic/watcher.go:145-157 | the loop sends one event per entry in the order received |
| FilteredWatch.StepKeeps | registry/generic/watcher.go:131-217 | every step of writer, sender, transformer and consumer keeps cache plus queues in agreement with the store |
| FilteredWatch.DrainedCacheIsFiltered | registry/generic/watcher.go:131-295 | in every run without a decoding error a drained cache that began empty equals the filtered store at the watched revision |
| WatchOutcome.FailsExactly | registry/generic/watcher.go:200-250 | in every run a decoding error has happened or is waiting if and only if an event that cannot be decoded was sent |
| WatchOutcome.NeverFails | registry/generic/watcher.go:200-250 | a watch over values that all decode never fails |
| WatchOutcome.CanGoOn | registry/generic/watcher.go:160-217 | a started watch can go on as long as it has not caught up or a queue is not empty |
| WatchOutcome.ComesToRest | registry/generic/watcher.go:160-217 | without writes a run takes no more steps than there was work, three for each event |
| WatchOutcome.Converges | registry/generic/watcher.go:131-295 | where only a write could go on and every value put decodes, a cache that began empty is the filtered store |
| FilteredWatch.LoadedCacheIsFiltered | controllers/types/impl/dc.go:40-88 | a preloaded cache ends up equal if and only if every loaded key passed the filter at some revision the watch saw |
| FilteredWatch.LoadedAtSnapshot | controllers/types/impl/dc.go:40-88 | before anything is written behind the snapshot, that is if and only if every loaded key is in the snapshot and passes the filter |
| FilteredWatch.StaleKey | controllers/types/impl/dc.go:40-88 | a concrete run in which a key that was loaded and then deleted stays in the cache |
| FilteredWatch.QueueKeeps | controllers/types/impl/dc.go:63-88 | the consumer's handler and the transformer take events off the queues without changing what the cache ends up as |
| ExclusivePool.RegisterKeeps | deploy/sync/exclusive_pool.go:48-60 | registering keeps counts and mutexes consistent in every state |
| ExclusivePool.ForgetKeeps | deploy/sync/exclusive_pool.go:68-74 | dropping the last user's mutex leaves no one referring to it |
| ExclusivePool.MutualExclusion | deploy/sync/exclusive_pool.go:48-75 | in every interleaving at most one goroutine holds an identity |
| ExclusivePool.WaitersCanGo | deploy/sync/exclusive_pool.go:48-75 | all who wait refer to the mutex now in the pool, and without a holder it is free |
| ExclusivePool.CheckInCanGo | deploy/sync/exclusive_pool.go:48-60 | whoever checks in registers as soon as p.lock is free, and waits for the same mutex as all other users of the identity |
| ExclusivePool.CountIsUsers | deploy/sync/exclusive_pool.go:48-75 | pool and count have the same keys and count is waiters plus holders |
| ExclusivePool.CheckOutCanGo | deploy/sync/exclusive_pool.go:64-75 | a holder can always check out completely |
| ExclusivePool.Pool.Register | deploy/sync/exclusive_pool.go:48-59 | the map updates of CheckIn on real mutex objects are the registering step |
| ExclusivePool.Pool.Forget | deploy/sync/exclusive_pool.go:69-74 | the map updates of CheckOut are the forgetting step |
| RollingUpdate.HcStat | controllers/scheduler/replica.go:447-462 | the nested loops sum the expected and the other versions, in any walk order |
| RollingUpdate.MovedCounts | controllers/scheduler/replica.go:323-331 | one move adds one expected and takes one legacy instance, and keeps counts positive |
| RollingUpdate.ReplicaCtrl.UpdateInstances | controllers/scheduler/replica.go:289-350 | every host keeps its total, the returned count is what moved, and it is the least of the request, the legacy instances and the hosts that have any; the exact outcome: an error if the context ends, or if a write fails and no host with a legacy instance is left over |
| RollingUpdate.ForgottenFailure | controllers/scheduler/replica.go:289-350 | a concrete table where a write fails and no error is reported |
| RollingUpdate.ReplicaCtrl.AddInstances | controllers/scheduler/replica.go:353-383 | each host has gained as many instances as it was drawn at the ticks that were used, and nothing else has changed; the exact outcome: a panic if and only if some drawn host had no entry at the start and fewer hosts than requested were drawn before it, and otherwise no error if and only if enough ticks came, none failed and every write succeeded |
| RollingUpdate.ReplicaCtrl.AddOneInstance | controllers/scheduler/replica.go:385-396 | a panic exactly for a host with a nil map; otherwise that host has one more expected instance, and its other versions and all other hosts are as before |
| RollingUpdate.ReplicaCtrl.RemoveLegacy | controllers/scheduler/replica.go:261-285 | exactly the expected counts remain, on the hosts that have them, and there is an error if and only if a write fails on a host that did not have the expected version alone |
| RollingUpdate.ReplicaCtrl.Roll | controllers/scheduler/replica.go:152-187 | the exact outcome of adding and moving; if they go well no legacy instance is left, the number reached is known, and it is the target if and only if enough hosts had a legacy instance; then no intermediate total falls below the least of target and start; it panics if and only if instances are added and AddInstances panics on the draws |
| RollingUpdate.FirstDeployPanics | controllers/scheduler/replica.go:152-187 | with an empty table and a positive target it panics if and only if any host is drawn |
| RollingUpdate.OnePerHost | controllers/scheduler/replica.go:289-350 | one legacy instance per host at most is enough |
| RollingUpdate.TwoOnOneHost | controllers/scheduler/replica.go:310-345 | a concrete table where it is not |
| Admission.DeployResource.Devide | types/resource.go:78-115 | the five successive minima with the final conversion to int64 |
| Admission.ShareFits | types/resource.go:78-115 | the result is never negative and that many units fit in every dimension |
| Admission.ShareIsGreatest | types/resource.go:78-115 | the result is the greatest number that is no larger than the memory asked for and that often free in every dimension |
| Admission.AdmitsRoom | controllers/scheduler/scheduler.go:93-106 | after the two saturating subtractions the quotient is positive exactly if memory is asked for and reserved plus used plus required is at most the total in every required dimension |
| Admission.CheckHostStatus | controllers/scheduler/scheduler.go:82-117 | the verdict on a host in every case |
| Admission.Scheduler.FindSuitableHost | controllers/scheduler/scheduler.go:119-162 | the host returned passed the check, all drawn before it failed, and at most 50 are drawn; from a list of at most 50 with a host that passes, one is returned |
| Admission.Scheduler.NextHost | controllers/scheduler/scheduler.go:164-178 | a host comes from the last refill and passed, and refills happen only when the list has run out; none is returned only after all or 50 of those on offer have failed |
| Admission.DrawnOnce | controllers/scheduler/scheduler.go:139-143 | swap-and-cut never draws a host twice between refills |
| Routes.String | controllers/java/router/types.go:76-97 | the loop prints header and items in order |
| Routes.Parse | controllers/java/router/types.go:150-171 | items of good lines in order, one error per bad line |
| Routes.ReadMatchAt | controllers/java/router/types.go:64-65 | a printed match is recognised whole wherever it stands |
| Routes.ParseItemGood | controllers/java/router/types.go:109-147 | whatever line is read, the item is well-formed |
| Routes.ParseString | controllers/java/router/types.go:76-171 | for both API versions, printing and parsing gives the configuration back if and only if it is well-formed |
| RouteBlanks.BlanksDoNotMatter | controllers/java/router/types.go:64-147 | for both API versions, a line that differs from the printed one only in its blanks is the same item |
| RouteBlanks.SkippedLines | controllers/java/router/types.go:66-129 | empty lines are skipped; comments are skipped in version 2 and refused in version 4 |
| RouteBlanks.Characters | controllers/java/router/types.go:64-65 | which characters keys and values are made of |
| ZkPaths.PathJoinPieces | controllers/java/zk/zkpath.go:209-214 | path.Join with its cleaning gives the pieces with one slash between any two |
| ZkPaths.EtcdPath | controllers/java/zk/zkpath.go:177-215 | what parseZKPathv4 makes of any path with clean segments |
| ZkPaths.RoundTrip | controllers/java/zk/path_util.go:71-129 | to etcd and back is the identity if and only if the application's name has no dot |
| ZkPaths.DottedComesBack | controllers/java/zk/path_util.go:71-129 | with a dot in it, all of the application's name before its last dot comes back as a part of the business |
| ZkPaths.DottedExample | controllers/java/zk/path_util.go:71-129 | a concrete path: /biz/x/a.b/config comes back as /biz/x.a/b/config |
| ZkPaths.InstanceRefused | controllers/java/zk/path_util.go:71-129 | every daemon or instance path is mapped to etcd and refused on the way back |
| ZkPaths.Injective | controllers/java/zk/zkpath.go:177-215 | two such paths with the same image are equal |
| Units.String | types/resource.go:188-211 | the loop finds the largest unit not above the number |
| Units.ParseString | types/resource.go:218-245 | parsing the printed text gives the number rounded to its unit |
| Units.HalfUnit | types/resource.go:188-245 | the result is at most half a unit away |
| Units.Idempotent | types/resource.go:188-245 | a second round trip changes nothing, also where 1024 is carried into the next unit |
| Units.MonotoneReread | types/resource.go:188-245 | larger numbers never come back smaller |
| Units.UnitLadder | types/resource.go:218-245 | k, m and g go up by 1000 and K, M and G by 1024 |
| Units.BytesSuffix | types/resource.go:170 | a b or B behind the letter changes nothing |
| Units.ParseAmount | types/resource.go:218-245 | digits, perhaps a point and digits, and a suffix give the decimal number times the unit, cut off |
| Units.ParseAccepts | types/resource.go:170 | no other text is accepted |

## Left out

- RoundTrip.ParseSerialized: the condition is sufficient: names without a comma under an escape, no text of a name or tag that ends in a backslash, field keys that are not empty and have no comma, space or '=' under an escape, strings without a quote under an escape, names and first field keys that do not start with a tab or NUL, no line feeds, at most 65535 bytes of name and tags. RoundTripExact.MetricExactly has the converse except for three kinds of text, for which none is stated because what comes back then depends on what else is written: tag texts that end in a backslash, which hide the delimiter behind them (a name that does comes back in RoundTripExact.BackslashByChance); commas under an escape in field keys, which spoil the counting (FieldScanning.CommaByChance); and quotes under an escape in strings, between which the string is scanned as if it stood outside quotes.
- FilteredWatch.DrainedCacheIsFiltered: assumes that decoding the empty text fails, as JSON does; raw byte objects with empty values are not covered. After a decoding error nothing is claimed of the cache; WatchOutcome.FailsExactly says when there is one.
- Units.ParseString: exact arithmetic; above 2^52 the original's floating point can round.
- FieldLookup.Fields: which texts strconv.ParseFloat accepts is a parameter, and a float is known by its text.
- RollingUpdate.ReplicaCtrl.Roll: only for at most as many expected instances as wanted; `removeExpectInstances` and its helpers do not write decremented counts back.
- LineReader.Reader.Read: for a list of at least one metric; with none the original indexes out of range.
- RollingUpdate.ReplicaCtrl.UpdateInstances: the counts in the table are taken to be at least one, as every step keeps them.
- Lines.SerializeTo: the seven guarded copies are the turns of one loop over the seven pieces.
- Nil and raw byte field values, the metric's value type and aggregate flag, RemoveField, HasField and AddField.
- ExclusivePool: a goroutine that checks out an identity it does not hold.
- RollingUpdate: the store behind the host table (its writes only succeed or fail), the other deploy keys, and the aliasing of inner maps between the table and its copies beyond the fact that writes go through.
- Routes: API versions other than 2.0 and 4.0, which Parse refuses for every text.
- ZkPaths: the version 2 paths with their service map, and `getZKPath`, which strips one segment too many to be an inverse.
- The hash is an abstract fold over bytes; FNV itself is not modelled.
- etcd, ZooKeeper, HTTP, process probing, logging, the command line and the API layer: input, output and plumbing.
