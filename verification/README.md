# Models and proofs for the Redis core and the order service

This project models the parts of the repository whose correctness is hardest to see from the
code, and proves what they are for. It is written in Dafny 4.11; `dafny verify dfyconfig.toml`
checks all of it. Code that changes state step by step is modelled by classes, methods and loops;
each such method is proved equal to a function, and the laws are proved about that function or
about every run of a state machine.

The parts, and the main result of each:

- **Append-only file, the log** (`AofLog`, `AofVerdict`, `AofEmit`, `AofDump`): a log cut at any byte is
  loaded and repaired as promised (`AofLog.CutAnywhere`), or refused and left alone where that is the
  setting (`AofVerdict.CutRefused`), as is anything unreadable or unknown; a value of any size is emitted as bounded commands
  that load and rebuild it, and so is a whole dataset (`AofEmit.EmittedValueLoads`,
  `AofDump.EmittedDatasetLoads`).
- **Append-only file, the manifest** (`AofManifest`, `ManifestText`, `Sds`, `Text`): the
  invariant of every run of manifest operations, fresh names, printing and parsing as inverses, and
  exactly which lines are read and what every accepted text lists.
- **Append-only file, the writer** (`AofFlush`): exactly when file plus buffer are the bytes fed, over
  every run (`AofFlush.RunConservesIff`, `AofFlush.EveryRunConservesIff`).
- **Append-only file, the rewrite** (`AofRewrite`): in every run of feeds, flushes, rewrites,
  failures, crashes and restarts the disk recovers exactly the flushed commands
  (`AofRewrite.EveryRunIsCrashSafe`).
- **Append-only file, a crash while writing** (`AofCrash`): writer, loader and rewrite joined; wherever
  in the bytes the writer is stopped, the server recovers the commands flushed before and those whose
  bytes are complete (`AofCrash.StoppedWriterRecovers`).
- **Background fsync** (`BioFsync`): files and buffer always hold exactly what was fed; the published
  replication offset never goes back and, unless the last fsync of a file fails, everything fed before it
  is in the synced part of a file at every moment; with such failures there is an exact condition
  (`BioFsync.RunLogs`, `BioFsync.PublishedOffsetSoundAndMonotone`).
- **Access control** (`AclRules`, `AclSelector`, `AclMeaning`, `AclReplay`, `AclBitmap`, `AclObject`): what
  each kind of operation allows, denies or refuses (`AclMeaning`); the kept rules
  regenerate the permissions after every sequence of operations, and their text does so throughout a run
  exactly when no accepted operation holds a quote or a blank (`AclReplay.RulesRegeneratePermissions`,
  `AclReplay.EveryRunComesBackIff`); the in-place removal of rules is a filter.
- **Blocked clients** (`Blocked`, `FairPass`, `BlockedServer`): the two-way index between clients
  and keys, its counters, and the fair pass over the waiters of a ready key, in which everyone a signal
  wakes is served (`BlockedServer.WokenIsServed`).
- **Bit operations** (`Bits`, `BitCount`, `BitPos`, `BitPosCommand`, `Bitfield`, `BitfieldStore`,
  `BitOp`): the word-at-a-time algorithms against bit-by-bit definitions, and BITFIELD arithmetic.
- **Doubly linked list** (`Adlist`): every operation against a sequence of nodes, and walks that
  delete the node they stand on. The modules above take their lists as sequences.
- **Orders and stock** (`Orders`): conservation of stock over every run, and what an accepted order costs
  and takes (`Orders.RunConserves`, `Orders.CreateBills`).

## Where the code does not do what one would expect

Each of these is a lemma with the failing inputs, and beside it the exact condition under which the
property holds.

- A cut in the middle of a command that stands inside an open MULTI leaves the MULTI in the repaired
  file, and it swallows the commands appended afterwards, though the
  code at aof.c:1578-1587 takes an unfinished MULTI out when the cut falls between commands (`AofLog.AppendAfterRepair`,
  `AofLog.OpenMultiSwallows`).
- `openNewIncrAofForAppend` opens the file without O_APPEND (aof.c:809). After a short write that is
  taken back with `ftruncate` the next write leaves a hole of zeros and the recorded size is wrong
  (`AofFlush.FlushConservesIff`, `AofFlush.RunConservesIff`, `AofFlush.EveryRunConservesIff`,
  `AofFlush.TakingBackSpoils`).
- A rewrite installs the dataset in memory at the fork. It is crash safe exactly when the commands still
  in the buffer, which the forced flush could not write, do not change that dataset
  (`AofRewrite.RewriteCrashSafeIff`, `AofRewrite.UnflushedRewriteIsUnsafe`).
- The close job of a file switch carries the whole replication offset; what it publishes is on disk
  outside files whose last fsync failed exactly when nothing older is still in the buffer
  (`BioFsync.SwitchSoundIff`, `BioFsync.SwitchTooEarly`).
- When the fsync before a close fails, the file is closed all the same, and the next fsync, of another
  file, publishes an offset that is not on disk (`BioFsync.PublishSoundIff`, `BioFsync.RunSoundIff`,
  `BioFsync.FailedCloseLoses`).
- `ACLSetSelector` accepts any first argument, but `ACLDescribeSelectorCommandRules` reads the rule text
  back with `sdssplitargs`. After `+select|'` its assertion on unbalanced quotes fails; after
  `+select|"a"` the first argument comes back without the quotes; after `+select|a -get` and `+get` the
  text names the first argument `a`. The text comes back exactly when no kept rule, or over a run no
  accepted operation, holds a quote or a blank (`AclReplay.ReloadsIff`, `AclReplay.OperationReloadsIff`,
  `AclReplay.EveryRunComesBackIff`, `AclReplay.QuoteNotReloaded`, `AclReplay.QuotesLost`,
  `AclReplay.SpacedRuleTakenApart`).
- A manifest name with a single quote and no other special character is printed without quotes and is
  not read back (`ManifestText.LineRoundTrip`, `ManifestText.ManifestRoundTripIff`,
  `ManifestText.QuotedNameIsLost`).
- `checkSignedBitfieldOverflow` compares with `maxincr` before it has checked the lower bound, contrary
  to its comment, so a saturating SET of a very negative value stores the largest value; an unsigned
  saturating SET of a negative value does so too (`Bitfield.SignedSet`, `Bitfield.SmallestSaturatesHigh`,
  `Bitfield.UnsignedSet`, `Bitfield.MinusOneSaturatesHigh`).
- BITCOUNT and BITPOS move an end that lies before the string to its first position, and BITCOUNT answers
  nothing for it only when the start is the larger of the two. So `BITCOUNT key -9 -8` of one byte counts that
  byte. Exactly the named positions are counted if and only if the string is empty or the end is not before
  it (`BitCount.CountsNamedIff`, `BitCount.CountsBeforeString`, `BitPosCommand.CoveredIs`).
- `createOrder` checks each item alone, so an order that names a product several times can take more than
  there is, and `restoreOrder` does not check at all (`Orders.CreateInStockIff`, `Orders.TwiceInOneOrder`,
  `Orders.RestoreInStockIff`, `Orders.RestoredWithoutStock`).

## Model

| member | source | states |
|---|---|---|
| `AofLog.CatAppendOnlyGenericCommand` | redis-7.2.4/src/aof.c:1268-1291 | the bytes appended are the encoding of the command, which the loader lemmas read back |
| `AofLog.LoadSingleAppendOnlyFile` | redis-7.2.4/src/aof.c:1395-1646 | the read loop and its end labels return, execute and truncate as the recursive loader function does, for every byte string, command table and truncation setting; what that is for whole, cut, unreadable and unknown input is in the rows of `AofLog` and `AofVerdict` below |
| `AofLog.ReadItem` | redis-7.2.4/src/aof.c:1485-1535 | one turn of the loop finds the annotation, command, short read, format error or end that is next in the bytes |
| `AofLog.ReadCommand` | redis-7.2.4/src/aof.c:1485-1535 | an encoded command followed by anything is read as that command and the rest |
| `AofLog.ReadCommandCut` | redis-7.2.4/src/aof.c:1485-1535 | an encoded command cut at any inner byte is a short read, never a format error |
| `AofLog.LoadCut` | redis-7.2.4/src/aof.c:1469-1626 | loading a cut log is executing its complete commands and then the end-of-file or short-read label |
| `AofLog.CutAnywhere` | redis-7.2.4/src/aof.c:1268-1626 | for every loadable log without nested MULTI and every cut: no format error, exactly the complete commands outside an open MULTI take effect, and the file is cut back to the complete commands or to just before the open MULTI |
| `AofLog.LoadWhole` | redis-7.2.4/src/aof.c:1268-1626 | loading a whole log gives back the commands written, less an open MULTI at its end |
| `AofLog.OpenAtIsLeftOpen` | redis-7.2.4/src/aof.c:1548-1587 | the position the loader remembers is that of the MULTI that is not closed, and there is one exactly when not all are closed |
| `AofLog.RunAllExplained` | redis-7.2.4/src/aof.c:1538-1576 | after any commands the loader's variables mean: commands in effect, valid offset, offset before the open MULTI |
| `AofLog.AppendAfterRepair` | redis-7.2.4/src/aof.c:1594-1626 | commands appended after a repair survive the next load if and only if no MULTI was open or the cut fell between commands |
| `AofLog.OpenMultiSwallows` | redis-7.2.4/src/aof.c:1594-1626 | a MULTI and a command one byte short, repaired and appended to: the appended command is lost |
| `AofVerdict.CutRefused` | redis-7.2.4/src/aof.c:1594-1626 | with `aof-load-truncated no`: for every log and every cut the file is left as it is, the complete commands outside an open MULTI have taken effect, and the verdict is success exactly when the cut is between commands with no MULTI open, failure otherwise |
| `AofVerdict.UnreadableFails` | redis-7.2.4/src/aof.c:1485-1646 | anything that reads as a format error behind any commands: failure whatever the setting, the file is left as it is, and the commands before it have taken effect |
| `AofVerdict.ForeignBytesFail` | redis-7.2.4/src/aof.c:1493 | a line that starts with neither a star nor a hash is such a format error |
| `AofVerdict.NoArgumentsFail` | redis-7.2.4/src/aof.c:1494-1497 | a command that announces no arguments is one |
| `AofVerdict.BadArgumentFails` | redis-7.2.4/src/aof.c:1508-1516 | a command whose first argument does not start with a dollar sign is one |
| `AofVerdict.UnknownFails` | redis-7.2.4/src/aof.c:1538-1547 | a command that is not in the table: failure, whatever follows it, and the file is left as it is |
| `AofVerdict.AnnotationSkipped` | redis-7.2.4/src/aof.c:1485-1492 | an annotation line anywhere between commands changes neither the verdict nor what is executed |
| `AofVerdict.EmptyFile` | redis-7.2.4/src/aof.c:1395-1425 | the answer that the file is empty is given if and only if it is |
| `AofEmit.RewriteObject` | redis-7.2.4/src/aof.c:1794-2006 | the loop shared by the list, set, sorted set and hash emitters writes exactly the encoding of the batches, so every header declares what follows it |
| `AofEmit.BatchesBounded` | redis-7.2.4/src/aof.c:1794-1832 | no batch carries more than the allowed number of items, and each can be loaded |
| `AofEmit.ReplayBatches` | redis-7.2.4/src/aof.c:1794-2006 | executing the batches, each by its command name, adds all items to the key's value, in order |
| `AofEmit.AddRebuilds` | redis-7.2.4/src/aof.c:1836-2006 | adding the listed items to an empty value gives the list, set, hash or sorted set they list |
| `AofEmit.EmittedValueLoads` | redis-7.2.4/src/aof.c:1794-2006 | the bytes emitted for a value of any size load without error, as bounded commands that, executed by name, rebuild the value |
| `AofDump.RewriteKey` | redis-7.2.4/src/aof.c:2275-2311 | one key is written as the encoding of its value's commands and its expiry time |
| `AofDump.RewriteAppendOnlyFileRio` | redis-7.2.4/src/aof.c:2235-2330 | the two loops write exactly the encoding of the SELECTs, values and expiry times of all databases that are not empty |
| `AofDump.ItemReplays` | redis-7.2.4/src/aof.c:2275-2311 | the commands written for a key, executed by name, add the key with its value and expiry time and change nothing else |
| `AofDump.WalkReplays` | redis-7.2.4/src/aof.c:2251-2330 | executing all the commands leaves a dataset with exactly the keys visited |
| `AofDump.EmittedDatasetLoads` | redis-7.2.4/src/aof.c:2235-2330 | the bytes written for a dataset, in any order of the keys, load without error and rebuild every database, value and expiry time |
| `Sds.TakeRepr` | redis-7.2.4/src/sds.c:912-936 | the quoted form of any byte string is split back to that string |
| `Sds.SplitPlainWord` | redis-7.2.4/src/sds.c:1008-1110 | an unquoted word and a blank split off, and the rest is split as before |
| `Sds.SplitShrinks` | redis-7.2.4/src/sds.c:1008-1110 | splitting never gives more characters than there were, and gives as many only if no word held a quote or a blank |
| `Sds.SplitQuotedWord` | redis-7.2.4/src/sds.c:1008-1110 | a quoted word splits off as the string it quotes |
| `Sds.TakeQuotedShort` | redis-7.2.4/src/sds.c:945-956 | a word with a single quote that needs no quoting never splits back to itself |
| `Sds.TakeSingleQuoted` | redis-7.2.4/src/sds.c:1060-1073 | a text written between single quotes, with a backslash before each quote, is read back as that text; it must not end with a backslash, for which the notation has no form |
| `AofManifest.ManifestObject.constructor` | redis-7.2.4/src/aof.c:148-157 | a new manifest is the empty one |
| `AofManifest.ManifestObject.GetNewBaseFileNameAndMarkPreAsHistory` | redis-7.2.4/src/aof.c:427-446 | the lists and counters change as the function on manifests does, and the name is the new base's |
| `AofManifest.ManifestObject.GetNewIncrAofName` | redis-7.2.4/src/aof.c:455-464 | a new INCR entry numbered past the counter is appended |
| `AofManifest.ManifestObject.GetLastIncrAofName` | redis-7.2.4/src/aof.c:473-485 | the last INCR name, or a new one when there is none |
| `AofManifest.ManifestObject.MarkRewrittenIncrAofAsHistory` | redis-7.2.4/src/aof.c:492-522 | the walk from the tail moves all INCR entries but the one being written to history, in order |
| `AofManifest.ManifestObject.DeleteHistory` | redis-7.2.4/src/aof.c:668-692 | history is emptied and its names are handed out in order, each once |
| `AofManifest.FreshName` | redis-7.2.4/src/aof.c:427-464 | a name numbered past the counter is in none of the three lists |
| `AofManifest.HistoryNotLive` | redis-7.2.4/src/aof.c:668-692 | no history file is the BASE or an INCR file, so deleting history deletes nothing in use |
| `AofManifest.LiveDistinct` | redis-7.2.4/src/aof.c:455-464 | the BASE and the INCR files have pairwise different names |
| `AofManifest.NewBaseKeepsWf` | redis-7.2.4/src/aof.c:427-446 | taking a new base keeps the invariant and its name is fresh |
| `AofManifest.NewIncrKeepsWf` | redis-7.2.4/src/aof.c:455-464 | taking a new INCR file keeps the invariant and its name is fresh |
| `AofManifest.MarkRewrittenKeepsWf` | redis-7.2.4/src/aof.c:492-522 | moving INCR files to history keeps the invariant |
| `AofManifest.EveryRunKeepsWf` | redis-7.2.4/src/aof.c:427-522 | every run of manifest operations keeps at most one BASE, right types, strictly increasing INCR numbers within the counter, and history older than what is live |
| `AofManifest.NothingForgotten` | redis-7.2.4/src/aof.c:427-522 | every operation but the deletion of history keeps all file names in the manifest and adds only the new one; the deletion keeps exactly the live ones |
| `AofManifest.WhatStaysLive` | redis-7.2.4/src/aof.c:427-522 | after each operation: which entries and counters are live, with their names, numbers and types, and whatever changes the manifest marks it to be persisted |
| `AofManifest.HistoryOrder` | redis-7.2.4/src/aof.c:427-522 | what becomes history stands before the older history, in its own order |
| `ManifestText.GetAofManifestAsString` | redis-7.2.4/src/aof.c:192-220 | the text is one line per entry: the BASE, history, then INCR files in order |
| `ManifestText.LoadManifestFromFile` | redis-7.2.4/src/aof.c:256-382 | the line loop accepts and refuses, and fills lists and counters, as the parsing function does |
| `ManifestText.LineRoundTrip` | redis-7.2.4/src/aof.c:121-134 | a printed line parses to its entry if and only if the name is a non-empty base name that is quoted or has no single quote |
| `ManifestText.ManifestRoundTrip` | redis-7.2.4/src/aof.c:192-382 | printing and parsing a non-empty well-formed manifest with good names and lines gives the same three lists |
| `ManifestText.ManifestRoundTripIff` | redis-7.2.4/src/aof.c:192-382 | it does so if and only if every name is a non-empty base name that is quoted or has no single quote, and every line fits the loader's buffer |
| `ManifestText.QuotedNameIsLost` | redis-7.2.4/src/aof.c:121-134 | a name with a single quote and nothing else special: its line is not read back |
| `ManifestText.CountersReload` | redis-7.2.4/src/aof.c:339-355 | with a BASE and the newest INCR listed the counters come back too |
| `ManifestText.LineRead` | redis-7.2.4/src/aof.c:298-338 | exactly the lines accepted: at least three pairs, no name that is a path, and a name, a number that is not zero and a type; where a key comes twice the last one counts |
| `ManifestText.AcceptedInOrder` | redis-7.2.4/src/aof.c:256-382 | of every accepted text: it is not empty, every line that is no comment is an entry, there is at most one BASE, and the INCR numbers go strictly up |
| `ManifestText.CommentPassed` | redis-7.2.4/src/aof.c:283-289 | a comment line is counted as a line and changes nothing else |
| `AofFlush.AofFile.AofWrite` | redis-7.2.4/src/aof.c:1026-1043 | interrupted and short writes together store one prefix of the data where the descriptor stands |
| `AofFlush.AofFile.FlushAppendOnlyFile` | redis-7.2.4/src/aof.c:1064-1266 | postponing, writing, truncating and starting the fsync change the state as the flush function does, under every environment |
| `AofFlush.WrittenIsAccepted` | redis-7.2.4/src/aof.c:1026-1043 | the write loop gets out what the system takes, up to the whole length |
| `AofFlush.PutOffIff` | redis-7.2.4/src/aof.c:1094-1117 | a flush is put off if and only if the policy is everysec, it is not forced, an fsync runs and the first one put off is less than two seconds ago; then nothing but that time changes |
| `AofFlush.FlushReports` | redis-7.2.4/src/aof.c:1129-1232 | after an attempt the status is good if and only if the system took the whole buffer, and buffer and recorded size say how much went out and stayed out |
| `AofFlush.NoAttemptNoReport` | redis-7.2.4/src/aof.c:1064-1117 | without an attempt status, buffer and file stay |
| `AofFlush.StartsFsyncIff` | redis-7.2.4/src/aof.c:1069-1265 | an fsync job is started if and only if one is due and everything is written, or, with an empty buffer, the file has bytes without a job |
| `AofFlush.FlushConservesIff` | redis-7.2.4/src/aof.c:1129-1232 | one flush keeps file plus buffer and the recorded size if and only if the descriptor stands at the end or no new byte stays |
| `AofFlush.FlushStaysAtEndIff` | redis-7.2.4/src/aof.c:1129-1232 | a descriptor without O_APPEND stays at the end if and only if no short write is taken back |
| `AofFlush.FlushAlwaysConservesIff` | redis-7.2.4/src/aof.c:1129-1232 | a flush conserves the bytes whatever the system answers if and only if the descriptor stands at the end or there is nothing to write |
| `AofFlush.RunConservesIff` | redis-7.2.4/src/aof.c:1026-1232 | at every moment of a run of feeds and flushes the file followed by the buffer is what was fed and the recorded size is the file's, if and only if no flush leaves new bytes while the descriptor stands past the end |
| `AofFlush.RunConserves` | redis-7.2.4/src/aof.c:1026-1232 | a run from the end of the file conserves the bytes throughout, always with O_APPEND, and without it when nothing is taken back |
| `AofFlush.EveryRunConservesIff` | redis-7.2.4/src/aof.c:809 | from a known size and with the descriptor not before the end, every run conserves the bytes if and only if the file was opened with O_APPEND |
| `AofFlush.TakingBackSpoils` | redis-7.2.4/src/aof.c:790-853 | without O_APPEND a short write taken back and one more write change the bytes and make the recorded size wrong |
| `AofFlush.RunSyncsOncePerTick` | redis-7.2.4/src/aof.c:1234-1265 | over every run at most one fsync job is started per tick of the clock, and never for more than the file has |
| `AofFlush.EverySecCovers` | redis-7.2.4/src/aof.c:1069-1265 | under everysec a flush that gets everything out, or finds nothing to write, with the clock moved on and no fsync running, leaves nothing in the file without an fsync job |
| `AofFlush.PostponedUnderTwoSeconds` | redis-7.2.4/src/aof.c:1094-1117 | however many flushes are put off in a row, none is two seconds or more after the first of them |
| `AofRewrite.FeedKeeps` | redis-7.2.4/src/aof.c:1320-1359 | feeding a command, with a SELECT where the database changes, keeps the invariant |
| `AofRewrite.FlushKeeps` | redis-7.2.4/src/aof.c:1129-1232 | one more entry in the current file keeps the invariant: recovery advances by that command |
| `AofRewrite.OpenKeeps` | redis-7.2.4/src/aof.c:790-820 | creating the next INCR file keeps the invariant, since nothing names it yet |
| `AofRewrite.PersistIncrKeeps` | redis-7.2.4/src/aof.c:790-853 | persisting the manifest that names the new INCR file, or failing to, keeps the invariant |
| `AofRewrite.ForkKeeps` | redis-7.2.4/src/aof.c:2425-2493 | the snapshot of the child followed by the new INCR file covers everything flushed |
| `AofRewrite.RenameKeeps` | redis-7.2.4/src/aof.c:2582-2660 | renaming the child's file to the new BASE keeps the invariant |
| `AofRewrite.PersistedBaseKeeps` | redis-7.2.4/src/aof.c:2582-2707 | persisting the manifest with the new BASE and only the current INCR file keeps the invariant: it recovers the same dataset |
| `AofRewrite.BaseNotPersistedKeeps` | redis-7.2.4/src/aof.c:2664-2675 | failing to persist that manifest keeps the invariant |
| `AofRewrite.UnlinkHistoryKeeps` | redis-7.2.4/src/aof.c:668-692 | unlinking a history file, or failing to, keeps the invariant |
| `AofRewrite.CrashKeeps` | redis-7.2.4/src/aof.c:1649-1772 | a crash at any step followed by a restart keeps the invariant |
| `AofRewrite.StepKeepsInv` | redis-7.2.4/src/aof.c:2425-2707 | every event keeps the invariant |
| `AofRewrite.EveryRunIsCrashSafe` | redis-7.2.4/src/aof.c:2425-2707 | after every run, crashes and failures included, all files the disk manifest names exist and loading BASE then INCRs gives exactly the dataset of the commands flushed |
| `AofRewrite.RewriteCrashSafeIff` | redis-7.2.4/src/aof.c:2425-2493 | an undisturbed rewrite is crash safe if and only if the commands still in the buffer do not change the dataset of the flushed ones |
| `AofRewrite.FlushedRewriteIsCrashSafe` | redis-7.2.4/src/aof.c:2425-2493 | a rewrite that finds no command in the buffer is crash safe |
| `AofRewrite.UnflushedRewriteIsUnsafe` | redis-7.2.4/src/aof.c:2425-2493 | one command that does something, fed and not flushed before a rewrite: not crash safe |
| `AofRewrite.HistoryIsRemoved` | redis-7.2.4/src/aof.c:668-692 | once a new BASE is installed and the deletion is through, exactly the history files are gone, the old BASE among them, and neither manifest lists history |
| `AofRewrite.FailedInstallLeavesNothing` | redis-7.2.4/src/aof.c:2664-2675 | a rewrite whose manifest cannot be persisted leaves files, manifests and data as they were |
| `AofRewrite.FailedChildLeavesNothing` | redis-7.2.4/src/aof.c:2710-2729 | a child that fails leaves files, manifests and data as they were |
| `BioFsync.StepKeepsInv` | redis-7.2.4/src/bio.c:152-311 | every main-thread and worker step keeps the queue, descriptor and coverage invariants, and the published offset does not decrease |
| `BioFsync.RunLogs` | redis-7.2.4/src/aof.c:829-846 | after every run the entries of the files in order and then the buffer are exactly the entries fed to the file, in order |
| `BioFsync.SoundMeansOnDisk` | redis-7.2.4/src/bio.c:205-300 | in every run, failures included: nothing below the published offset is unsynced if and only if every entry fed before it stands in a file within what is on stable storage |
| `BioFsync.FsyncPublishes` | redis-7.2.4/src/bio.c:205-300 | with an empty buffer and no fsync pending, once the worker is through with a job submitted now, however many are before it, the whole offset of this moment is published |
| `BioFsync.OneFsyncPending` | redis-7.2.4/src/aof.c:1234-1265 | over every run at most one fsync job is queued, and the counters are the numbers of jobs queued |
| `BioFsync.PublishKeeps` | redis-7.2.4/src/bio.c:259-277 | when the first job has done its fsync nothing below its offset is left to sync |
| `BioFsync.FailCovered` | redis-7.2.4/src/bio.c:259-277 | after a failed fsync an unsynced entry is promised by another job, is in the file being written, or is in a file that is closed and lost |
| `BioFsync.PublishSoundIff` | redis-7.2.4/src/bio.c:259-277 | what the worker publishes is on disk if and only if no file whose last fsync failed has an unsynced entry from before the job's offset |
| `BioFsync.RunSoundIff` | redis-7.2.4/src/bio.c:205-300 | over every run from a sound state in which every switch finds nothing older in the buffer: the published offset is on disk at every moment if and only if that holds before each publishing |
| `BioFsync.PublishedOffsetSoundAndMonotone` | redis-7.2.4/src/bio.c:205-300 | for every interleaving in which every switch finds nothing older than its offset in the buffer: the published offset never decreases; at every moment every entry fed before it stands in the synced part of a file if no fsync right before a close fails, and otherwise if and only if no publishing finds an older entry lost |
| `BioFsync.SwitchSoundIff` | redis-7.2.4/src/aof.c:829-846 | whatever jobs are queued before it, what the close job of a switch publishes is on disk, outside files whose last fsync failed, if and only if nothing in the buffer is older than its offset; without such files, in all files |
| `BioFsync.SwitchTooEarly` | redis-7.2.4/src/aof.c:829-846 | one command fed and not written before a switch: the offset behind it is published |
| `BioFsync.FailedCloseLoses` | redis-7.2.4/src/bio.c:259-284 | the fsync before a close fails, the next file is synced: an offset is published that is not on disk |
| `AofCrash.TornLoads` | redis-7.2.4/src/aof.c:1469-1626 | a file that ends anywhere in the bytes of its entries loads as the complete ones and is cut back to them |
| `AofCrash.FlushMany` | redis-7.2.4/src/aof.c:1129-1232 | flushing the first entries of the buffer keeps the invariant, appends them to the current file and changes no other |
| `AofCrash.TornCrashRecovers` | redis-7.2.4/src/aof.c:1129-1772 | a crash with any part of the buffer in the file: the loader does not fail, repairs the file to the complete entries, and recovers exactly the dataset of the commands flushed before and of those complete |
| `AofCrash.WriterLeavesPrefix` | redis-7.2.4/src/aof.c:1026-1232 | at every moment of a run that writes at the end only, the file is what was there and a prefix of what was fed |
| `AofCrash.StoppedWriterRecovers` | redis-7.2.4/src/aof.c:1026-1772 | a server stopped at any moment of writing its buffer recovers the commands flushed before and those whose bytes are complete |
| `AclRules.MoveDown` | redis-7.2.4/src/acl.c:580-583 | the memmove takes out the bytes between the two positions, terminator included |
| `AclRules.CompareRule` | redis-7.2.4/src/acl.c:576-579 | the byte comparison decides whether the rule is the same name or a subcommand or first argument of it |
| `AclRules.ConsiderRule` | redis-7.2.4/src/acl.c:557-588 | one turn of the loop removes a matching rule with one space, or passes it |
| `AclRules.RemoveCommandRule` | redis-7.2.4/src/acl.c:550-592 | for every text, stray spaces included, the in-place loop ends with exactly the joined rules that do not match, in order |
| `AclRules.CutFinds` | redis-7.2.4/src/acl.c:557-588 | rules without spaces are what the scan of their text finds |
| `AclSelector.FilterReplays` | redis-7.2.4/src/acl.c:596-604 | replaying with or without the rules a new one replaces is the same once the new one is replayed |
| `AclSelector.ReplacedIsCovered` | redis-7.2.4/src/acl.c:550-592 | a replaced rule has no effect that the new rule does not write over |
| `AclSelector.ReservedBitKept` | redis-7.2.4/src/acl.c:504-545 | no rule reaches the reserved last bit |
| `AclSelector.OperationActs` | redis-7.2.4/src/acl.c:1027-1180 | an accepted operation acts on bitmap and first arguments as the rule it leaves in the text |
| `AclMeaning.AllowsAll` | redis-7.2.4/src/acl.c:1027-1034 | `+@all` and `allcommands`, in any case, set every bit and the all-commands flag, and leave no first argument and no rule |
| `AclMeaning.DeniesAll` | redis-7.2.4/src/acl.c:1035-1041 | `-@all` and `nocommands` clear every bit and the flag, and leave no first argument and no rule |
| `AclMeaning.CommandOperation` | redis-7.2.4/src/acl.c:1097-1168 | a command: exactly its bit and those of its subcommands take the sign, its first arguments are forgotten, and a minus clears the flag |
| `AclMeaning.CategoryOperation` | redis-7.2.4/src/acl.c:1169-1174 | a category: exactly the commands and subcommands in it take the sign |
| `AclMeaning.SubcommandOperation` | redis-7.2.4/src/acl.c:1138-1168 | a subcommand: exactly its own bit takes the sign |
| `AclMeaning.FirstArgOperation` | redis-7.2.4/src/acl.c:1107-1158 | a first argument is allowed besides those that were, and no bit and no other command changes |
| `AclMeaning.UnknownRefused` | redis-7.2.4/src/acl.c:1097-1174 | a name that no command has, and a category that there is not, are refused with ENOENT |
| `AclMeaning.EmptyArgRefused` | redis-7.2.4/src/acl.c:1130-1136 | a command with a bar and nothing behind it is refused with EINVAL |
| `AclMeaning.SubArgRefused` | redis-7.2.4/src/acl.c:1107-1128 | a first argument of a subcommand is refused with ECHILD |
| `AclMeaning.DenyArgRefused` | redis-7.2.4/src/acl.c:1159-1168 | a first argument cannot be denied: refused with ENOENT |
| `AclMeaning.RulesThatStay` | redis-7.2.4/src/acl.c:550-604 | after an accepted operation without spaces the text holds exactly the earlier rules that are not about its name, and the operation itself at the end |
| `AclMeaning.ArgsStayDistinct` | redis-7.2.4/src/acl.c:918-944 | no first argument is listed twice, in whatever case |
| `AclReplay.UpdateReplays` | redis-7.2.4/src/acl.c:596-604 | after the text is updated, replaying it gives the updated permissions |
| `AclReplay.OperationKeepsInv` | redis-7.2.4/src/acl.c:1027-1180 | every operation without spaces, accepted or refused, keeps the rules and the permissions in agreement |
| `AclReplay.JoinSplits` | redis-7.2.4/src/acl.c:756-762 | splitting the text of rules without quotes and blanks gives back the rules |
| `AclReplay.RulesReapply` | redis-7.2.4/src/acl.c:733-786 | every kept rule is accepted again, and applying them all is replaying them |
| `AclReplay.Regenerates` | redis-7.2.4/src/acl.c:733-786 | for any selector whose rules and permissions agree, applying the rules behind the `@all` of the reserved bit gives the same bitmap, first arguments and rules |
| `AclReplay.ReloadedIsClean` | redis-7.2.4/src/acl.c:733-786 | if the text read back leaves the same text, it has no quote and no blank but spaces |
| `AclReplay.ReloadsIff` | redis-7.2.4/src/acl.c:733-786 | the text read back gives the same selector, and splits into the rules, if and only if no kept rule holds a quote, tab, carriage return or line feed |
| `AclReplay.RulesRegeneratePermissions` | redis-7.2.4/src/acl.c:504-786 | after any sequence of operations the kept rules regenerate bitmap, first arguments up to case, and rules; their text does if and only if no kept rule holds a quote or a blank |
| `AclReplay.SpacedNeverSame` | redis-7.2.4/src/acl.c:1104-1156 | after a first argument with a space the text read back never gives the same selector |
| `AclReplay.OperationReloadsIff` | redis-7.2.4/src/acl.c:1027-1180 | after an accepted operation other than the two on `@all` the text read back gives the same selector if and only if neither the operation nor a rule it does not replace holds a quote or a blank |
| `AclReplay.EveryRunComesBackIff` | redis-7.2.4/src/acl.c:504-786 | over every run, spaces included, the text read back gives the same selector at every moment if and only if no accepted operation holds a quote or a blank |
| `AclReplay.QuoteNotReloaded` | redis-7.2.4/src/acl.c:756-757 | one single quote as a first argument of `select` is accepted, and reading the text back fails the assertion on unbalanced quotes |
| `AclReplay.QuotesLost` | redis-7.2.4/src/acl.c:756-762 | `a` in double quotes as a first argument of `select` is accepted, and the text read back allows `a` without them |
| `AclReplay.SpacedRuleTakenApart` | redis-7.2.4/src/acl.c:550-592 | a first argument with a space, then a command named behind that space: the text then names another first argument than the one allowed |
| `AclBitmap.WordBitsSet` | redis-7.2.4/src/acl.c:504-545 | setting or clearing the mask of an id in its word changes that command's bit and no other |
| `AclBitmap.WordBitsFilled` | redis-7.2.4/src/acl.c:1027-1041 | filling the words with ones or zeros sets or clears every command's bit |
| `AclObject.SelectorObject.constructor` | redis-7.2.4/src/acl.c:314-332 | a new selector allows nothing and has no rules |
| `AclObject.SelectorObject.SetCommandBit` | redis-7.2.4/src/acl.c:536-545 | exactly that bit is set, an id past the bitmap is ignored, and clearing a bit clears the all-commands flag |
| `AclObject.SelectorObject.ChangePerm` | redis-7.2.4/src/acl.c:608-621 | exactly the bits of the command and its subcommands are set, and its first arguments forgotten |
| `AclObject.SelectorObject.SetCategory` | redis-7.2.4/src/acl.c:629-642 | exactly the bits of the commands of the category, and of the subcommands of those, are set, in whatever order the table is walked |
| `AclObject.SelectorObject.AddAllowedFirstArg` | redis-7.2.4/src/acl.c:918-944 | the argument is added unless it is there in any case |
| `AclObject.SelectorObject.UpdateCommandRules` | redis-7.2.4/src/acl.c:596-604 | for every text the new text is the rules that stay, a space and the new rule |
| `AclObject.SelectorObject.ApplyCategory` | redis-7.2.4/src/acl.c:682-691 | an unknown category is refused without change, a known one is applied with its rule |
| `AclObject.SelectorObject.SetSelectorOp` | redis-7.2.4/src/acl.c:1027-1180 | the branches for `@all`, commands, subcommands, first arguments and categories accept, refuse and change as the selector function does, for every text; after the words for all and none every bit, the flag, the first arguments and the rules are as the words say |
| `AclObject.SelectorObject.DescribeCommandRules` | redis-7.2.4/src/acl.c:733-786 | the description is the `@all` of the reserved bit followed by the rules, and the assertions and the check that panics at line 782 pass if no rule holds a quote or a blank |
| `AclObject.CommandIds.GetCommandID` | redis-7.2.4/src/acl.c:1501-1526 | names in any case share an id, different names differ, and the reserved id is never given out |
| `Adlist.List.LinkNodeHead` | redis-7.2.4/src/adlist.c:103-114 | links, ends and length stay consistent, and the node is first |
| `Adlist.List.LinkNodeTail` | redis-7.2.4/src/adlist.c:136-147 | links, ends and length stay consistent, and the node is last |
| `Adlist.List.InsertNode` | redis-7.2.4/src/adlist.c:149-176 | the new node stands right before or after the given one |
| `Adlist.List.UnlinkNode` | redis-7.2.4/src/adlist.c:192-206 | exactly that node leaves the sequence and its links are cleared |
| `Adlist.List.RotateTailToHead` | redis-7.2.4/src/adlist.c:361-373 | the last node becomes the first |
| `Adlist.List.RotateHeadToTail` | redis-7.2.4/src/adlist.c:376-388 | the first node becomes the last |
| `Adlist.List.Join` | redis-7.2.4/src/adlist.c:392-408 | this list is followed by the other, which is left empty and valid |
| `Adlist.List.Index` | redis-7.2.4/src/adlist.c:346-358 | the node at the index from the head or, for a negative one, from the tail, or null |
| `Adlist.List.Dup` | redis-7.2.4/src/adlist.c:276-310 | a fresh list of fresh nodes with the duplicated values in order |
| `Adlist.Iter.Next` | redis-7.2.4/src/adlist.c:255-266 | the node handed out is the one the iterator stood on, and the successor is read first |
| `Adlist.SweepFromHead` | redis-7.2.4/src/adlist.c:231-266 | a walk that unlinks some of the nodes it is on visits every original node once, in order, and exactly the others remain |
| `Adlist.SweepFromTail` | redis-7.2.4/src/adlist.c:236-266 | the same from the tail, in reverse order |
| `Blocked.AddAgrees` | redis-7.2.4/src/blocked.c:374-393 | entering a key keeps clients' tables and waiting lists in agreement |
| `Blocked.AddCounted` | redis-7.2.4/src/blocked.c:396-406 | the count of waiters that want deletions stays exact and absent when zero |
| `Blocked.ReleaseAgrees` | redis-7.2.4/src/blocked.c:512-545 | releasing an entry keeps tables and lists in agreement and leaves no empty list |
| `Blocked.ReleaseCountedAt` | redis-7.2.4/src/blocked.c:531-542 | the count is right after a release, and the entry the code asserts to exist does |
| `Blocked.WaitsOnce` | redis-7.2.4/src/blocked.c:374-393 | no client stands twice in a list |
| `Blocked.TallyBlock` | redis-7.2.4/src/blocked.c:88-99 | each per-type counter stays the number of clients blocked with that type |
| `Blocked.TallyUnblock` | redis-7.2.4/src/blocked.c:217-220 | the same when a client is unblocked |
| `BlockedServer.NoLostSignal` | redis-7.2.4/src/blocked.c:455-479 | if a waiter of the type would be woken, none of the early returns of the signal is taken |
| `BlockedServer.WokenIsServed` | redis-7.2.4/src/blocked.c:558-594 | a waiter that a signal wakes is served by the pass over the key: it leaves the list unless its command waits for the key again, and once its command is done it is unblocked and queued |
| `BlockedServer.Server.constructor` | redis-7.2.4/src/blocked.c:75-83 | with no client blocked the whole invariant holds |
| `BlockedServer.Server.BlockClient` | redis-7.2.4/src/blocked.c:88-99 | flag, type and both counters change, nothing else |
| `BlockedServer.Server.BlockForKeys` | redis-7.2.4/src/blocked.c:368-415 | the client joins the tail of the list of every named key once, other lists and clients stay, and the invariant is kept |
| `BlockedServer.Server.ReleaseBlockedEntry` | redis-7.2.4/src/blocked.c:512-545 | the entry leaves the list and the count as the release function says, and both assertions of the code hold |
| `BlockedServer.Server.UnblockClientWaitingData` | redis-7.2.4/src/blocked.c:419-433 | the client leaves every list it stands in, in whatever order its keys are walked, and nobody else moves |
| `BlockedServer.Server.UnblockClient` | redis-7.2.4/src/blocked.c:184-224 | the client is unblocked, left out of all lists and queued at most once, and the invariant is kept |
| `BlockedServer.Server.QueueClientForReprocessing` | redis-7.2.4/src/blocked.c:173-180 | the client is queued unless it already is |
| `BlockedServer.Server.SignalKeyAsReady` | redis-7.2.4/src/blocked.c:452-499 | a key is queued at most once, always when one of its waiters needs the signal, and never when nobody waits for it |
| `BlockedServer.Server.UnblockClientOnKey` | redis-7.2.4/src/blocked.c:636-675 | the client leaves all its lists and then stands at the tails of exactly the keys its command blocks on again, or is queued; whoever waits for what the command signals has its key queued |
| `BlockedServer.Server.HandleClientsBlockedOnKey` | redis-7.2.4/src/blocked.c:558-594 | every client waiting at the start is considered exactly once in blocking order; each whose type matches, or that wants to hear of deletions, has its command redone and is then queued or blocked on the keys of the outcome, and every other stays as it was; afterwards the list is those passed over, in order, followed by those that blocked again; every signal sent meanwhile reaches its waiters; the saved iterator node is always still in the list |
| `BlockedServer.Server.ServeReadyKeys` | redis-7.2.4/src/blocked.c:331-357 | one round handles the keys signalled so far once each, in order, each considering exactly the clients that wait for it at that moment and leaving those passed over and those that blocked again; later signals wait for the next round |
| `BlockedServer.Server.BlockPostponeClient` | redis-7.2.4/src/blocked.c:618-625 | the client is blocked, counted and listed as postponed |
| `BlockedServer.Server.TakeUnblocked` | redis-7.2.4/src/blocked.c:129-134 | the queue is served from its head and the flag follows |
| `FairPass.Advanced` | redis-7.2.4/src/blocked.c:568-574 | the successor read before a waiter was handled is still in the list afterwards and is the next of the initial waiters |
| `FairPass.PassedServed` | redis-7.2.4/src/blocked.c:573-592 | serving a waiter takes only it out of the walk, and it can come back only behind the initial waiters |
| `FairPass.PassEnds` | redis-7.2.4/src/blocked.c:573-592 | at the end the list is those passed over followed by those that blocked again |
| `FairPass.WhoIsInList` | redis-7.2.4/src/blocked.c:573-592 | a client of the initial list is in the final one if and only if it was passed over or its command waits for the key again |
| `BitCount.StepsCount` | redis-7.2.4/src/bitops.c:66-79 | after the three masked steps each byte of a word holds its own number of ones |
| `BitCount.AddTotal` | redis-7.2.4/src/bitops.c:80-86 | adding up to seven such words never carries between bytes |
| `BitCount.GatherTotal` | redis-7.2.4/src/bitops.c:80-86 | the multiplication and shift give the sum of the four bytes |
| `BitCount.CountStep` | redis-7.2.4/src/bitops.c:54-87 | the 28-byte step counts exactly the ones of its bytes |
| `BitCount.Popcount` | redis-7.2.4/src/bitops.c:40-92 | for every string and alignment the result is the number of one bits |
| `BitCount.TableHolds` | redis-7.2.4/src/bitops.c:44 | the table holds the number of ones of every byte |
| `BitCount.EdgesCount` | redis-7.2.4/src/bitops.c:838-872 | the masked edge bytes hold exactly the ones outside the range, also when both edges share a byte |
| `BitCount.Bitcount` | redis-7.2.4/src/bitops.c:806-873 | the reply is the number of ones of the clamped byte or bit range |
| `BitCount.CoveredIs` | redis-7.2.4/src/bitops.c:815-837 | the bits counted are those between the two named positions, and those of the first position when the end lies before the string |
| `BitCount.CountsNamedIff` | redis-7.2.4/src/bitops.c:815-837 | exactly the named positions are counted if and only if the string is empty or the end is not before it |
| `BitCount.CountsBeforeString` | redis-7.2.4/src/bitops.c:820-837 | from -9 to -8 of one byte: the byte is counted |
| `Bits.ClampRange` | redis-7.2.4/src/bitops.c:833-837 | negative indexes count from the end and the range is clamped |
| `Bits.RangeIs` | redis-7.2.4/src/bitops.c:833-837 | inside the converted range are the positions between the two named, and the first when the end lies before the string and the start is not behind it |
| `Bits.CountsFromEnd` | redis-7.2.4/src/bitops.c:833-834 | minus one names the last position, minus two the one before, and so on |
| `BitPos.LoadedBit` | redis-7.2.4/src/bitops.c:151-159 | the loaded word reads the zero-padded string from left to right |
| `BitPos.WordHasBit` | redis-7.2.4/src/bitops.c:132-166 | the word reached has a bit that is sought, unless a one is sought and it is zero |
| `BitPos.Scan` | redis-7.2.4/src/bitops.c:172-185 | the scan returns the first matching bit and its mask never runs out, so the panic is unreachable |
| `BitPos.Bitpos` | redis-7.2.4/src/bitops.c:101-186 | for every string and alignment the first matching bit of the zero-padded string, or -1 when a one is sought and there is none |
| `BitPosCommand.SearchFirst` | redis-7.2.4/src/bitops.c:961-974 | the masked first byte tells whether the range has a match in it and where |
| `BitPosCommand.Search` | redis-7.2.4/src/bitops.c:958-986 | the three searches together tell the first match of the whole range |
| `BitPosCommand.BitposCommand` | redis-7.2.4/src/bitops.c:905-1002 | the reply is the first matching bit of the clamped range, -1, or the position past the string only for a zero without an explicit end |
| `BitPosCommand.CoveredIs` | redis-7.2.4/src/bitops.c:905-945 | the bits searched are all, those from the named byte on, or those between the two named positions, with the same exception for an end before the string |
| `Bitfield.WrapSignedIs` | redis-7.2.4/src/bitops.c:358-377 | the wrapped signed value is the reading of the sum modulo the field size |
| `Bitfield.UnsignedVerdict` | redis-7.2.4/src/bitops.c:288-323 | for every stored value and increment: overflow is reported if and only if the sum does not fit, and the limit is the congruent value or the nearest bound |
| `Bitfield.SignedVerdict` | redis-7.2.4/src/bitops.c:325-378 | the same for signed fields of 1 to 64 bits |
| `Bitfield.ReadingCongruent` | redis-7.2.4/src/bitops.c:243-263 | the reading of a residue fits the field and is congruent |
| `Bitfield.SignedSet` | redis-7.2.4/src/bitops.c:325-378 | for a SET value: fit and wrap are right, and saturation gives the nearest bound if and only if the value is at least 2^(bits-1) - 2^63 |
| `Bitfield.SmallestSaturatesHigh` | redis-7.2.4/src/bitops.c:325-350 | the smallest 64-bit value saturates an eight-bit field to 127 |
| `Bitfield.UnsignedSet` | redis-7.2.4/src/bitops.c:288-323 | for an unsigned SET value: fit and wrap are right, and saturation gives the nearest bound if and only if the value is not negative |
| `Bitfield.MinusOneSaturatesHigh` | redis-7.2.4/src/bitops.c:288-323 | minus one set into a saturating unsigned eight-bit field becomes 255 |
| `BitfieldStore.GetUnsigned` | redis-7.2.4/src/bitops.c:229-241 | the value of the bits of the field, most significant first |
| `BitfieldStore.GetSigned` | redis-7.2.4/src/bitops.c:243-263 | the two's complement reading of the field |
| `BitfieldStore.SetUnsigned` | redis-7.2.4/src/bitops.c:209-227 | exactly the bits of the field become the digits of the value |
| `BitfieldStore.WrittenReads` | redis-7.2.4/src/bitops.c:209-263 | what fits and was written is what is read, signed or unsigned, and every other bit is unchanged |
| `BitfieldStore.NewValueStores` | redis-7.2.4/src/bitops.c:1157-1196 | what INCRBY stores is the true sum when it fits, else the congruent value, the nearest bound, or nothing |
| `BitfieldStore.IncrBy` | redis-7.2.4/src/bitops.c:1150-1215 | for every width, offset, stored value and 64-bit increment the field afterwards holds that value, the reply tells it, and every bit outside the field is unchanged |
| `BitfieldStore.SetField` | redis-7.2.4/src/bitops.c:1150-1215 | SET stores what fits, wraps or fails as INCRBY does, saturates under the exact condition above, and replies the old value |
| `BitfieldStore.GetField` | redis-7.2.4/src/bitops.c:1217-1250 | GET reads the field of the string padded with zeros, wherever it lies |
| `BitfieldStore.PaddedReads` | redis-7.2.4/src/bitops.c:1217-1250 | a field past the string reads as zero and one inside it as it stands there |
| `BitOp.OutBits` | redis-7.2.4/src/bitops.c:746-770 | bit by bit the result is the conjunction, disjunction, parity or negation of the zero-padded sources |
| `BitOp.Lengths` | redis-7.2.4/src/bitops.c:643-670 | no source is shorter than the minimum, a missing key counts as empty, and the maximum is the longest |
| `BitOp.LongestIs` | redis-7.2.4/src/bitops.c:643-670 | no source is longer than the maximum, and one is as long |
| `BitOp.MixRound` | redis-7.2.4/src/bitops.c:692-742 | a round of four words combines 32 bytes over all sources and touches no other |
| `BitOp.TailByte` | redis-7.2.4/src/bitops.c:747-770 | stopping early at an absorbing byte does not change the result |
| `BitOp.Bitop` | redis-7.2.4/src/bitops.c:643-771 | for every operation, number and length of sources the result is the bytewise combination of the zero-padded sources |
| `Orders.RunConserves` | controllers/orderController.js:8-365 | in every run of created, deleted and restored orders, committed or rolled back, stock plus what live orders hold is constant for every product, and every total is the sum of price times quantity |
| `Orders.StepConserves` | controllers/orderController.js:8-365 | each event conserves every product, also with repeated products |
| `Orders.StepKeepsOrders` | controllers/orderController.js:250-365 | no handler changes the items, price or customer of an order, and none removes one for good |
| `Orders.StepActs` | controllers/orderController.js:8-365 | an event adds an order exactly for an accepted request, and changes the deletion mark or the status of the order named exactly when the handler accepts |
| `Orders.CreateBills` | controllers/orderController.js:18-47 | an accepted order has the items asked for at the prices of the moment, costs the sum of price times quantity, is pending, and takes from the stock of each product exactly what was asked for |
| `Orders.CreateRefused` | controllers/orderController.js:8-64 | an order is refused if and only if a product is missing or short or the transaction fails, and then nothing has changed |
| `Orders.HandlersAnswer` | controllers/orderController.js:250-365 | which requests to delete, restore or patch an order are answered not found, bad request or done, in both directions, and a refused one changes nothing |
| `Orders.DeleteRestoreCancels` | controllers/orderController.js:278-365 | deleting puts back what the order took, and restoring it afterwards gives back the same shop with the order pending |
| `Orders.DeliveredIsFinal` | controllers/orderController.js:250-365 | a delivered order stays exactly as it is through every run |
| `Orders.CreateInStockIff` | controllers/orderController.js:18-26 | an accepted order leaves the stock non-negative if and only if no product is asked for more than there is in total |
| `Orders.DistinctInStock` | controllers/orderController.js:18-26 | without repeated products the check per item is enough |
| `Orders.TwiceInOneOrder` | controllers/orderController.js:18-47 | one piece left, named twice in an order: the order is accepted and the stock is -1 |
| `Orders.RestoreInStockIff` | controllers/orderController.js:319-356 | restoring leaves the stock non-negative if and only if the order's quantities are there |
| `Orders.RestoredWithoutStock` | controllers/orderController.js:319-356 | an order for one piece restored with none left makes the stock -1 |
| `Orders.Shop.CreateOrder` | controllers/orderController.js:8-64 | checks, item rows, decrements and total, or a rollback at any statement, change the shop as the create function does; what that charges and takes is in `Orders.CreateBills` |
| `Orders.Shop.SoftDeleteOrder` | controllers/orderController.js:278-317 | a missing or delivered order is refused; otherwise stock is put back and the order cancelled, or all is rolled back |
| `Orders.Shop.PatchOrderStatus` | controllers/orderController.js:250-276 | a missing, deleted or delivered order is refused without change, any other takes the status |
| `Orders.Shop.RestoreOrder` | controllers/orderController.js:319-365 | a missing or live order is refused; otherwise the order is pending again and its stock taken, or all is rolled back |

## Left out

- AOF stays on: turning it on and off, the `always` policy and the timestamp annotations written by the server are not modelled; annotation lines are skipped on load as the loader does.
- AOF disk model: a completed write is durable, a failed manifest write leaves the old manifest, `ftruncate` on load succeeds, and no file is lost; RDB preambles are a snapshot value.
- AOF lengths: header numbers are non-negative and below the limit of `atoi`; a dictionary id of -1 is not fed.
- AofEmit.RewriteObject: keys and elements are byte strings, so how a double or an integer element is printed is not part of the model; streams, modules and functions are left out.
- AofDump.EmittedDatasetLoads: lengths and expiry times have at most 29 digits in their own length lines; the timestamp annotation and the functions before the databases are left out.
- AofCrash.TornCrashRecovers: the log has ordinary commands only; an open MULTI at the cut is the subject of `AofLog.CutAnywhere` and `AofLog.AppendAfterRepair`.
- AofRewrite.EveryRunIsCrashSafe: assumes that the flush forced before a rewrite empties the buffer; `AofRewrite.RewriteCrashSafeIff` says exactly what that is needed for.
- BioFsync.PublishedOffsetSoundAndMonotone: the other two workers are not modelled; a switch with a full buffer is covered by `BioFsync.SwitchSoundIff`.
- ManifestText.ManifestRoundTripIff: names are byte strings without NUL.
- AclSelector: key patterns, channels, passwords, selectors in parentheses and the user level are left out, so an operation on patterns or channels, which never touches commands, is answered as an unknown word; the table of commands is fixed.
- AclReplay.RulesRegeneratePermissions: operations without spaces; `AclReplay.EveryRunComesBackIff` covers those with spaces.
- BlockedServer.Server.ServeReadyKeys: one round of the outer loop, since commands may signal keys for ever; module clients, WAIT, WAITAOF and shutdown blocking, timeouts and freeing clients are left out.
- BlockedServer.Server.UnblockClientOnKey: the command that is redone is an outcome given by the environment; it may signal keys and block its own client again on keys, but does not unblock or free other clients.
- BitOp.MixWord: a word is its eight bytes, on which the bitwise operators of C act one by one.
- Bitfield.CheckSigned: 64-bit arithmetic wraps around, which the code relies on for values it then does not use; masks with a power of two are written as remainders.
- Argument parsing and replies of the BIT commands, SETBIT and GETBIT: only the bit and field algorithms behind them are modelled.
- Orders.Shop.CreateOrder: prices are reals, so the rounding of decimals and JavaScript numbers is not part of the model; hooks, queue jobs, caches and concurrent requests are left out, and products are not removed.
- Not modelled at all: configuration, networking, the other workers of bio.c, crc, and the rest of the shop.
