# Firestone, verified

Firestone starts Linux machines from catalog images. This project models the parts of it whose
correctness is about more than one step, and proves what they promise for every input, every
interleaving and every crash point:

- **Crash-safe file replacement** (`CrashDisk`, `AtomicFile`). A disk directory with a visible
  listing, older listings that a power cut may bring back, and file contents that are arbitrary
  until synced. Every system call of a write works, fails, or is cut by a power failure before or
  after its effect. Over every history the destination holds the initial bytes or the complete
  bytes of one write, never older than the last write that returned Ok.
- **Seed publication** (`SeedPublication`). Four such writes over two directories.
- **Catalog lookup and suggestions** (`EditDistance`, `Catalog`). The two-row distance loop against
  edit scripts; validation, first-match lookup, and the ranked suggestions.
- **Processes** (`Supervision`, `Capture`, `LogTail`, `BusyRetry`). Signals under pid reuse, bounded
  capture for every chunking, log tails that agree with the whole log, the busy-retry loop.
- **Cloud-init rendering** (`Multipart`, `InstanceId`, `PublicKeys`). The multipart printer against
  a parser after section 5.1 of RFC 2046, injectivity of the hashed identity, key de-duplication.
- **The acceptance gate** (`Checkpoint`, `GateManifest`, `Gate`). Run, checkpoint, crash, resume, over
  any sequence of sessions and any behaviour of disk, harnesses and interrupts.
- **Wire codecs** (`WebSocket`, `Chunked`). Frames after sections 5.2 and 5.3 of RFC 6455 under every
  chunking; chunked bodies after section 7.1 of RFC 9112, and exactly when the decoder returns.

Objects that the program updates in place are classes (`CrashDisk.Directory`,
`Supervision.ManagedProcess`, `WebSocket.Client`, `Gate.Gate`), loops are methods with invariants,
and what is only computed is a function. Everything outside the program (fates of system calls,
clocks, arriving bytes, other processes, harness results) is an argument, so each contract speaks
of every behaviour of the outside.

Some promises turned out not to hold of the code. Each is stated with a concrete input and the
exact condition under which it does hold:

- *Removing network-config is not durable.* No directory sync follows the removal
  (crates/firestone-core/src/cloudinit.rs:335, 869-875), so a power cut may bring the old file back even after an Ok result; it
  stays away exactly when there was none to remove (`PublishRenderedSeed`, `RemovedNetworkReturns`).
- *`truncated` misreports one case.* In tail mode a single read that exactly fills the limit is
  reported as truncated (`MisreportsExactlyOnLoneFullRead`, `LoneFullReadExample`).
- *User-data may contain the multipart delimiter.* Nothing rejects it, and then the parts are not
  read back (`RenderedPartsReadBack`, `DelimiterInUserDataIsAccepted`).
- *`decode_chunked` may never return.* A negative chunk size can take the loop back
  (`NegativeSizeLoopsForEver`). Counting 2n + 1 passes over n bytes decides it
  (`NeverReturnsExactly`), and without a minus sign it returns (`NoMinusReturns`).
- *Reading a large frame depends on chunking.* Within one block of the 8 MiB cap the same bytes
  give the frame or an error (`ChunkingDecides`); `ReadAll` states exactly when each happens.
- *The gate can save "passed" over unfinished work.* An exception of a kind that `run_gate` does not
  catch leaves `failure` unset, and the `finally` block then writes a passed result
  (scripts/m5-linux-mvp-e2e.py:2616-2652), exactly when neither of its two looks for interrupts and
  cleanup errors finds any. The `OverflowError` of `evidence_number` on an integer beyond the range
  of a float (scripts/m5-linux-mvp-e2e.py:1250-1252) is such an exception, and readable evidence can
  hold such an integer; so is the `StopIteration` of `harness_record` on a manifest without one of
  the records, which the gate itself never writes. `run_gate` still does not report success; in every
  history without such an exception no verified checkpoint overstates (`RunGate`, `VerifiedIsSound`).
- *A refused resume overwrites the checkpoint it refused.* The same block saves the new manifest over
  a clean directory. Passed work is kept exactly when the directory was resumable or the refusal was
  for a missing record (`RunGate`); a run that loses all of it is `RefusedResumeLosesWork`.
- *A temporary file ends the directory.* A private write that stops between creating and renaming its
  temporary file, and dies or cannot unlink it, leaves an entry that nothing removes
  (`AtomicWrite`, `WriteCheckpoint`): no later session resumes or saves (`RunGate`). A run that does so
  is `DeathInWriteEndsDirectory`. After all other deaths a session may resume exactly when
  `ResumableExactly` says so.

## Model

| member | source | states |
|---|---|---|
| `AtomicFile.FailBeforeRename` | crates/firestone-core/src/atomic.rs:196-220 | whatever the removal's fate, no listing that may survive holds anything of the write, and the result says which step failed and whether cleanup failed too |
| `AtomicFile.WriteWithOptions` | crates/firestone-core/src/atomic.rs:95-161 | for all fates of all system calls: the first call that does not work decides the result; every listing that may survive is an old one or holds the complete new bytes; Ok means that only the new bytes can survive; a refusal before the rename leaves no trace of the write in any listing, one at the parent sync has the new bytes visible; a stale temp never blocks a write whose calls work |
| `AtomicFile.ReplaceNamed` | crates/firestone-core/src/atomic.rs:116-119 | the same from the opening of the parent on, stale temp or not |
| `AtomicFile.FillTemp` | crates/firestone-core/src/atomic.rs:121-132 | the same from the exclusive create on |
| `AtomicFile.WriteStaged` | crates/firestone-core/src/atomic.rs:134-151 | the same from the first byte written on |
| `AtomicFile.Publish` | crates/firestone-core/src/atomic.rs:153-160 | the same from the rename on: a synced temp becomes the destination as a whole |
| `AtomicFile.WriteJson` | crates/firestone-core/src/atomic.rs:18-48 | a serialization error touches nothing; otherwise the serialized bytes and a line feed are written atomically |
| `AtomicFile.RenameStaged` | crates/firestone-core/src/atomic.rs:153-154 | the rename adds one listing with the complete file and keeps all that might survive before |
| `AtomicFile.NoTrace` | crates/firestone-core/src/atomic.rs:106-154 | after a refusal before the rename everything that may survive under the destination is what might have survived before |
| `AtomicFile.EventStaysWithin` | crates/firestone-core/src/atomic.rs:95-161 | one write or power cut keeps every survivor among the old contents and the new bytes; Ok leaves only the new bytes, a refusal before the rename only the old contents |
| `AtomicFile.DestinationIsNeverTornOrStale` | crates/firestone-core/src/atomic.rs:95-161 | over every history of writes, failures, power cuts and retries, no survivor is torn and all are among the candidates |
| `AtomicFile.CandidatesExactly` | crates/firestone-core/src/atomic.rs:95-161 | the candidates are exactly: bytes of a write that may have got past its rename with no later Ok, or the initial contents while nothing returned Ok |
| `AtomicFile.OtherFilesAreKept` | crates/firestone-core/src/atomic.rs:175-194 | no history changes a file other than the destination and its temporary sibling |
| `SeedPublication.WriteArtifact` | crates/firestone-core/src/cloudinit.rs:319-328 | one artifact becomes wholly new or stays wholly old, and the others and the image are kept, also when the power cut hits both directories |
| `SeedPublication.RemoveNetwork` | crates/firestone-core/src/cloudinit.rs:869-875 | a missing file counts as removed; the listing before the removal may still survive |
| `SeedPublication.PublishNetwork` | crates/firestone-core/src/cloudinit.rs:330-336 | the visible network-config is the rendered one, absent exactly when there is none |
| `SeedPublication.PublishFiles` | crates/firestone-core/src/cloudinit.rs:319-336 | success means that the new meta-data and user-data are durable before the image is touched |
| `SeedPublication.EnsureSeedDirectory` | crates/firestone-core/src/cloudinit.rs:836-867 | an untrusted existing directory is refused; artifacts and image are unaffected |
| `SeedPublication.ImageWritten` | crates/firestone-core/src/cloudinit.rs:338-342 | a listing that holds the new image also holds the directory with the inspection files |
| `SeedPublication.PublishRenderedSeed` | crates/firestone-core/src/cloudinit.rs:309-343 | at every crash point each artifact is wholly old or wholly new, and a new image can only survive beside new inspection files in a machine directory that still lists them; it succeeds exactly when every check and every call it makes does, and then the files by their names match the rendered value, durably but for a removal; network-config is durably absent exactly when none was visible before |
| `SeedPublication.RemovedNetworkReturns` | crates/firestone-core/src/cloudinit.rs:309-343 | a run: two publications succeed, the second removes network-config, and a power cut afterwards brings it back |
| `EditDistance.NextRow` | crates/firestone-core/src/catalog.rs:707-719 | the inner loop turns the row of distances for one prefix of `left` into the row for the next |
| `EditDistance.Levenshtein` | crates/firestone-core/src/catalog.rs:704-722 | the two-row loop returns the least number of insertions, deletions and substitutions over all edit scripts |
| `EditDistance.NoCheaperScript` | crates/firestone-core/src/catalog.rs:704-722 | no edit script between two strings costs less than the recurrence |
| `EditDistance.DistanceIsLeastCost` | crates/firestone-core/src/catalog.rs:704-722 | some script attains the recurrence and none is cheaper |
| `EditDistance.ZeroOnlyForEqual` | crates/firestone-core/src/catalog.rs:704-722 | distance zero exactly for equal strings |
| `EditDistance.Symmetric` | crates/firestone-core/src/catalog.rs:704-722 | the distance is symmetric |
| `EditDistance.Triangle` | crates/firestone-core/src/catalog.rs:704-722 | the triangle inequality |
| `Catalog.CanonicalIsInjective` | crates/firestone-core/src/catalog.rs:130-132 | canonical references are equal exactly for the same distro and version |
| `Catalog.ComponentExamples` | crates/firestone-core/src/catalog.rs:547-555 | names of the catalog are accepted, empty ones and ones with a dash in front, a slash or a colon are not |
| `Catalog.FindIsFirst` | crates/firestone-core/src/catalog.rs:249-267 | a found entry matches; nothing found means that nothing matches |
| `Catalog.ValidateDefaults` | crates/firestone-core/src/catalog.rs:576-606 | accepts exactly the catalogs with one default release per distro |
| `Catalog.RecordNames` | crates/firestone-core/src/catalog.rs:612-634 | one entry's names are recorded with their owner, or the catalog is ambiguous |
| `Catalog.ValidateReferenceNames` | crates/firestone-core/src/catalog.rs:608-637 | accepts exactly the catalogs in which no name belongs to two entries |
| `Catalog.MatchMeansName` | crates/firestone-core/src/catalog.rs:249-267 | an entry matches exactly its canonical reference, its aliases and, as default, the bare distro |
| `Catalog.AtMostOneMatch` | crates/firestone-core/src/catalog.rs:243-267 | in a validated catalog at most one entry matches any string |
| `Catalog.FindIgnoresOrder` | crates/firestone-core/src/catalog.rs:249-267 | lookup gives the same entry in every iteration order |
| `Catalog.EveryNameFindsItsEntry` | crates/firestone-core/src/catalog.rs:249-267 | every entry is found by its canonical reference and aliases, every distro name finds its default |
| `Catalog.NamesAreTheDomainOfFind` | crates/firestone-core/src/catalog.rs:282-304 | the candidate names are exactly the strings that lookup resolves |
| `Catalog.CollectNames` | crates/firestone-core/src/catalog.rs:283-293 | the loop collects exactly the candidate names |
| `Catalog.BeforeMeans` | crates/firestone-core/src/catalog.rs:295-300 | names are ordered by the first place where they differ, a prefix first |
| `Catalog.ClosestNames` | crates/firestone-core/src/catalog.rs:282-304 | the result is ranked by (distance, name), has at most `limit` names, omits nothing that ranks ahead of a listed one, and is complete when shorter than `limit` |
| `Catalog.SuggestionsResolve` | crates/firestone-core/src/catalog.rs:269-304 | every suggestion resolves; one for an unknown reference has distance above zero |
| `Catalog.Resolve` | crates/firestone-core/src/catalog.rs:178-213 | the resolved canonical name finds the same entry as the reference, with that host's source and checksum algorithm, the firmware override, format and sshd path; an unknown image gets the three closest names, each resolvable; a missing architecture lists what there is |
| `Catalog.MergeOne` | crates/firestone-core/src/catalog.rs:339-367 | a document's entries replace those with the same reference and leave the others |
| `Catalog.MergeDocuments` | crates/firestone-core/src/catalog.rs:165-175 | every key holds the entry of the last document that defines it, and no reference is lost |
| `Catalog.CheckEntry` | crates/firestone-core/src/catalog.rs:402-455 | accepts exactly entries with well-formed names, no repeated alias, and at least one architecture, each known and with a valid source |
| `Catalog.CheckDocument` | crates/firestone-core/src/catalog.rs:384-399 | accepts exactly documents whose entries are accepted and whose references are pairwise different |
| `Catalog.Visit` | crates/firestone-core/src/catalog.rs:639-644 | visiting the merged map gives each of its entries once, with pairwise different references |
| `Catalog.SameEntriesSameVerdict` | crates/firestone-core/src/catalog.rs:243-247 | validation does not depend on the order of the entries |
| `Catalog.LastWordWins` | crates/firestone-core/src/catalog.rs:165-175 | of the extra catalogs a later one wins, any of them over the user's own, and that over the built-in one |
| `Catalog.Load` | crates/firestone-core/src/catalog.rs:165-175 | loading succeeds exactly when all documents are accepted and the entries they leave are valid; the loaded catalog is then valid and holds exactly the winning entries: a later extra catalog over an earlier one, an extra one over the user's, the user's over the built-in one |
| `Supervision.EventKeepsTable` | crates/firestone-core/src/cmd.rs:1188-1360 | fork, exit, reap and group changes keep pids unique and group ids tied to their founder |
| `Supervision.UnreapedStaysPinned` | crates/firestone-core/src/cmd.rs:1188-1360 | whatever other processes do, an unreaped child's pid and group id keep meaning that child and its group |
| `Supervision.ReapedPidIsRecycled` | crates/firestone-core/src/cmd.rs:1188-1360 | after a reap the very next process may get the pid |
| `Supervision.ManagedProcess.ConfirmSession` | crates/firestone-core/src/cmd.rs:1221-1243 | succeeds exactly when the pid leads its own group, and then records that group |
| `Supervision.ManagedProcess.ObserveExit` | crates/firestone-core/src/cmd.rs:1244-1272 | tells whether the child has exited, with an error exactly on a bad pid or a failed call, and changes nothing: the pid stays pinned |
| `Supervision.ManagedProcess.Reap` | crates/firestone-core/src/cmd.rs:1277-1314 | a zombie is reaped once and its status remembered for every later wait; a running child or a failed wait changes nothing |
| `Supervision.ManagedProcess.SignalProcess` | crates/firestone-core/src/cmd.rs:1316-1333 | the signal reaches the child only; after a reap it is refused and reaches nobody |
| `Supervision.ManagedProcess.SignalGroup` | crates/firestone-core/src/cmd.rs:1334-1360 | the signal reaches exactly the pinned group; without a group or after a reap it is refused |
| `Supervision.Perform` | crates/firestone-core/src/cmd.rs:1188-1360 | any call and any outside event keeps the process valid and all deliveries within the child or its group; only a wait sets `reaped` |
| `Supervision.Run` | crates/firestone-core/src/cmd.rs:1188-1360 | the same over every sequence; `reaped` is monotone and nothing is delivered after it |
| `Capture.KeepTail` | crates/firestone-core/src/cmd.rs:1573-1585 | one read keeps exactly the last `limit` bytes |
| `Capture.KeepHead` | crates/firestone-core/src/cmd.rs:1586-1591 | one read keeps exactly the first `limit` bytes |
| `Capture.CaptureStream` | crates/firestone-core/src/cmd.rs:1556-1597 | for every chunking: exactly the first or last min(limit, total) bytes, the whole stream in the log, the exact value of `truncated`, and an error exactly on a failed read, log write or flush |
| `Capture.ReportIsExactForLargeLimits` | crates/firestone-core/src/cmd.rs:1556-1597 | with a limit above the read buffer `truncated` says exactly whether bytes were lost |
| `Capture.MisreportsExactlyOnLoneFullRead` | crates/firestone-core/src/cmd.rs:1574-1577 | `truncated` is wrong exactly in tail mode with one read that fills the limit |
| `Capture.LoneFullReadExample` | crates/firestone-core/src/cmd.rs:1574-1577 | two bytes captured whole and reported as truncated |
| `LogTail.DecodeSplitsAtLineFeed` | crates/firestone-core/src/cmd.rs:1658-1662 | lossy decoding never reads across a line feed |
| `LogTail.DecodeEncoded` | crates/firestone-core/src/cmd.rs:1658-1660 | text encoded in UTF-8 is decoded to itself |
| `LogTail.CutCharacterIsReplaced` | crates/firestone-core/src/cmd.rs:1658-1660 | a character cut short becomes one replacement character |
| `LogTail.LinesSplitAtLineFeed` | crates/firestone-core/src/cmd.rs:1658-1662 | the lines of a text are the lines of its two halves at any line feed |
| `LogTail.Bounded` | crates/firestone-core/src/cmd.rs:1664-1681 | control characters become the replacement character, and a line of more than 4096 characters its first 4096 and the marker |
| `LogTail.LastLines` | crates/firestone-core/src/cmd.rs:1658-1685 | at most `count` lines, free of control characters, each at most 4096 characters and the marker |
| `LogTail.WrittenLinesComeBack` | crates/firestone-core/src/cmd.rs:1658-1685 | of lines written with LF or CR LF, and an open last one, exactly the last `count` come back, in order and bounded |
| `LogTail.PlainLinesComeBack` | crates/firestone-core/src/cmd.rs:1658-1685 | short lines without control characters come back as they are |
| `LogTail.SuffixHasTheSameLastLines` | crates/firestone-core/src/cmd.rs:1658-1685 | a suffix with `count` lines after a line feed has the same last lines as the whole output, even cut inside a character |
| `LogTail.LogTailAgreesWithLog` | crates/firestone-core/src/cmd.rs:1441-1449 | the ten lines read from the last 64 KiB are the last ten of the file whenever the tail holds ten after its first line feed |
| `BusyRetry.Pause` | crates/firestone-core/src/cmd.rs:1406-1415 | the loop goes on exactly when more than one delay is left, after one delay; otherwise exactly the rest is slept |
| `BusyRetry.SpawnWithBusyRetry` | crates/firestone-core/src/cmd.rs:1389-1422 | for all clocks and outcomes: at most 21 attempts and 100 ms of sleep, each attempt right after a reading before the deadline, no sleep beyond it, the exact time slept, and an end at the first outcome that is not busy, at the retry bound, or out of time |
| `Multipart.AppendMimePart` | crates/firestone-core/src/cloudinit.rs:802-812 | the buffer grows by exactly one part |
| `Multipart.RenderMultipart` | crates/firestone-core/src/cloudinit.rs:768-800 | the document of its parts, empty exactly without parts; a reader gets the user's part first, under the type and file name of its kind, and Firestone's part last, each with its body |
| `Multipart.DocumentOnTheWire` | crates/firestone-core/src/cloudinit.rs:768-812 | the bytes of a document with both parts, piece by piece |
| `Multipart.NoStraddling` | crates/firestone-core/src/cloudinit.rs:768-812 | a delimiter found before a body's end lies inside the body: it cannot overlap the real one |
| `Multipart.NextDelimiter` | crates/firestone-core/src/cloudinit.rs:802-812 | the parser's next delimiter is the real one exactly when the body is clean |
| `Multipart.ParsePartIsExact` | crates/firestone-core/src/cloudinit.rs:802-812 | only the text of a part parses to that part |
| `Multipart.PartsReadBack` | crates/firestone-core/src/cloudinit.rs:768-812 | the parts come back in order exactly when every body is clean |
| `Multipart.DocumentReadsBack` | crates/firestone-core/src/cloudinit.rs:768-812 | the same for a whole document, with the boundary read from its header |
| `Multipart.AcceptedUserDataStartsWithHash` | crates/firestone-core/src/cloudinit.rs:405-431 | user-data that is accepted starts with a hash |
| `Multipart.CloudConfigIsAccepted` | crates/firestone-core/src/cloudinit.rs:405-431 | user-data whose first line is #cloud-config, with any line end, is a cloud-config |
| `Multipart.ScriptIsAccepted` | crates/firestone-core/src/cloudinit.rs:405-431 | user-data that starts with #! is a shell script |
| `Multipart.RenderedPartsReadBack` | crates/firestone-core/src/cloudinit.rs:768-812 | type, file name, body and order of what is rendered come back exactly when no body contains the delimiter |
| `Multipart.RenderedPartsAre` | crates/firestone-core/src/cloudinit.rs:768-800 | type, file name, body and order of what a reader gets, for accepted user-data and bodies without the delimiter |
| `Multipart.DelimiterInUserDataIsAccepted` | crates/firestone-core/src/cloudinit.rs:405-431 | an accepted cloud-config that is not read back |
| `InstanceId.FramedIsInjective` | crates/firestone-core/src/cloudinit.rs:817-822 | the length-framed form determines user-data and network-config |
| `InstanceId.FramedFields` | crates/firestone-core/src/cloudinit.rs:817-822 | the framed form is the tag, the length of the user-data and the user-data, the length of the network-config and the network-config |
| `InstanceId.RenderedIsEmptyOrHeader` | crates/firestone-core/src/cloudinit.rs:768-778 | rendered user-data is empty without parts and begins with the whole multipart header otherwise |
| `InstanceId.PreimageIsInjective` | crates/firestone-core/src/cloudinit.rs:814-825 | over all rendered user-data, preimages agree exactly when user-data and optional network-config do |
| `InstanceId.TaggedUserDataCollides` | crates/firestone-core/src/cloudinit.rs:814-825 | outside the renderer's output the untagged form can equal a tagged one |
| `InstanceId.FormatIdentifier` | crates/firestone-core/src/cloudinit.rs:826-833 | the loop writes the first six digest bytes in hex |
| `InstanceId.HexAt` | crates/firestone-core/src/cloudinit.rs:828-832 | each byte gives its high digit and then its low one, in lower case |
| `InstanceId.IdentifierFields` | crates/firestone-core/src/cloudinit.rs:826-833 | the identifier is iid-, the name, a dash and the digits of six digest bytes |
| `InstanceId.IdentifierIsInjective` | crates/firestone-core/src/cloudinit.rs:826-834 | identifiers agree exactly when the name and six digest bytes do |
| `InstanceId.SameIdentityMeansSameInputs` | crates/firestone-core/src/cloudinit.rs:814-834 | unless the two digests collide, identities agree exactly when name, user-data and network-config do |
| `PublicKeys.DeduplicateUserKeys` | crates/firestone-core/src/cloudinit.rs:684-697 | the loop returns the lines of the first-seen keys |
| `PublicKeys.KeptData` | crates/firestone-core/src/cloudinit.rs:684-697 | exactly the key data other than Firestone's own is represented |
| `PublicKeys.KeptOnce` | crates/firestone-core/src/cloudinit.rs:684-697 | no key data is kept twice |
| `PublicKeys.KeepsFirstOccurrences` | crates/firestone-core/src/cloudinit.rs:684-697 | the result is the subsequence of first occurrences, in input order |
| `PublicKeys.Idempotent` | crates/firestone-core/src/cloudinit.rs:684-697 | running it again changes nothing |
| `PublicKeys.RepeatsChangeNothing` | crates/firestone-core/src/cloudinit.rs:684-697 | inserting a duplicate after a first occurrence changes nothing |
| `Checkpoint.TextSplitsIntoLines` | scripts/m5-linux-mvp-e2e.py:1145-1151 | the checksum file splits back into its lines |
| `Checkpoint.SplitAtReturn` | scripts/m5-linux-mvp-e2e.py:1160-1160 | a carriage return ends a line too, alone or before a line feed |
| `Checkpoint.SumExamples` | scripts/m5-linux-mvp-e2e.py:1161-1161 | sixty-four lower-case hex digits are a sum; a capital, another letter or another length is not |
| `Checkpoint.VerifyLines` | scripts/m5-linux-mvp-e2e.py:1158-1173 | the loop accepts exactly when every line fits, none repeats a name, and every file is named |
| `Checkpoint.AcceptsExactlyTheCovered` | scripts/m5-linux-mvp-e2e.py:1134-1173 | a checksum file accepts exactly the covered names with contents of the covered digests |
| `Checkpoint.AcceptsOnlyOneCheckpoint` | scripts/m5-linux-mvp-e2e.py:1134-1173 | without a collision: exactly the covered files, byte for byte |
| `GateManifest.HarnessesAreOk` | scripts/m5-linux-mvp-e2e.py:198-254 | the shipped harnesses have distinct evidence names and own every E2E and verify item exactly once |
| `GateManifest.FreshIsSound` | scripts/m5-linux-mvp-e2e.py:1616-1741 | a new manifest is sound: nothing passed, eleven E2E and seventeen verify items pending |
| `GateManifest.MarkHarnessPassed` | scripts/m5-linux-mvp-e2e.py:1749-1768 | the loops mark the record and exactly its items, with the evidence hash |
| `GateManifest.MarkedIsSound` | scripts/m5-linux-mvp-e2e.py:1749-1768 | marking the next harness in order keeps the passed ones a prefix, and every item with its own harness's hash |
| `GateManifest.AllPassedIsComplete` | scripts/m5-linux-mvp-e2e.py:1749-1768 | when all harnesses of a sound manifest have passed, all items have, with their own harness's hash |
| `Gate.Gate.AtomicWrite` | scripts/m5-linux-mvp-e2e.py:503-528 | wherever it stops, the target is old or new; in a directory without temporary files one is left exactly when the write stops between create and rename and dies or fails to unlink, and otherwise nothing else changes |
| `Gate.Gate.CheckpointNames` | scripts/m5-linux-mvp-e2e.py:1139-1144 | lists exactly the manifest and the evidence present, or finds an unreadable document |
| `Gate.Gate.WriteCheckpoint` | scripts/m5-linux-mvp-e2e.py:1134-1151 | wherever it stops, the checksum file still belongs to a completed, sound checkpoint and evidence is untouched; the fates of the two writes decide exactly how it ends on a clean directory: unchanged, a temporary file in the way, only the manifest new, or everything in place; when done, the directory is exactly this manifest's verified checkpoint |
| `Gate.Gate.VerifyCheckpoint` | scripts/m5-linux-mvp-e2e.py:1154-1187 | accepts exactly the verified directories and returns their manifest |
| `Gate.VerifiedExactlyWhenCovered` | scripts/m5-linux-mvp-e2e.py:1134-1187 | without a collision a directory verifies exactly when it is what the last completed checkpoint covered: a manifest replaced before a crash or uncovered evidence is refused |
| `Gate.VerifiedIsSound` | scripts/m5-linux-mvp-e2e.py:1154-1187 | whatever crashed before, a verified directory holds a sound manifest, and an honest one unless an exception escaped |
| `Gate.ResumableExactly` | scripts/m5-linux-mvp-e2e.py:1771-1840 | without a collision a session may resume exactly when the directory is what the last completed checkpoint covered, of the same identity |
| `Gate.Gate.Readmit` | scripts/m5-linux-mvp-e2e.py:1785-1821 | accepts exactly a passed prefix with valid, hashed, cleaned-up evidence of the same script, and carries it over; a refusal names the first record at fault, and why; it keeps all passed records exactly when that record is missing; the new manifest is sound either way |
| `Gate.Gate.Recheck` | scripts/m5-linux-mvp-e2e.py:1793-1813 | accepts exactly a record of the expected script whose evidence is there, validated, of the recorded hash and cleaned up |
| `Gate.Gate.ClearStale` | scripts/m5-linux-mvp-e2e.py:1823-1832 | removes exactly evidence of harnesses that must run again |
| `Gate.Gate.ValidateResume` | scripts/m5-linux-mvp-e2e.py:1771-1840 | the answer is accepted exactly for a resumable directory and then carries the same passed harnesses and hashes; a refusal is tied to the check that failed, changes no file, and keeps all passed work exactly when it is for a missing record |
| `Gate.OneReason` | scripts/m5-linux-mvp-e2e.py:1771-1840 | a directory and an identity determine the answer |
| `Gate.OwnCheckpointIsResumable` | scripts/m5-linux-mvp-e2e.py:1785-1821 | the gap and evidence checks never reject a checkpoint that the gate completed for the same identity |
| `Gate.Gate.Sanitize` | scripts/m5-linux-mvp-e2e.py:2088-2124 | older files and readable evidence stay; no complaint exactly when the only new file is readable evidence of this harness; any other new file goes, unless its removal fails |
| `Gate.Gate.RunHarness` | scripts/m5-linux-mvp-e2e.py:2207-2374 | a record is passed exactly when the process exited with zero, without interrupt, timeout, cleanup error or changed script or snapshot, and left exactly its own validated evidence; every record has the hash of the evidence that is there, the cleanup verdict and the script; when no call fails nothing but readable evidence is added |
| `Gate.Gate.ExecuteInDependencyOrder` | scripts/m5-linux-mvp-e2e.py:2419-2438 | without failure all harnesses have passed; soundness and earlier passes are kept however it ends; when no call fails and every run ends, a failed harness leaves a clean directory and a saved record |
| `Gate.Gate.RunNext` | scripts/m5-linux-mvp-e2e.py:2425-2437 | one round changes one record, and saves it, passed or not |
| `Gate.Gate.RunAndAccept` | scripts/m5-linux-mvp-e2e.py:2425-2432 | only this harness's record changes, and the manifest stays sound |
| `Gate.Gate.Accept` | scripts/m5-linux-mvp-e2e.py:2411-2433 | taking a record into the manifest keeps it sound |
| `Gate.Gate.Finish` | scripts/m5-linux-mvp-e2e.py:2639-2652 | the saved result says failed exactly when the session had failed or the late look for interrupts found one, in at most two rounds |
| `Gate.Gate.Conclude` | scripts/m5-linux-mvp-e2e.py:2618-2656 | success only for a complete, saved manifest; every session that is alive saves its manifest when nothing outside goes wrong; an escaped exception saves a passed result exactly when neither look for interrupts and cleanup errors finds any |
| `Gate.Gate.RunStarted` | scripts/m5-linux-mvp-e2e.py:2586-2656 | the same from the new manifest on, with the answer to a resume; a missing record escapes and saves a passed result |
| `Gate.Gate.RunGate` | scripts/m5-linux-mvp-e2e.py:2529-2656 | success only with all harnesses and items passed with their own evidence hashes, saved and verified; a failing session that saves says failed; when no call fails and every run ends, every session on a clean directory saves; a resume is accepted exactly when resumable, and the new manifest keeps passed work exactly then or when a record is missing; a refused resume of a clean directory saves its own manifest; a missing record or an exception escaping a harness saves a passed result over unfinished work; a write that leaves its temporary file litters the directory, litter stays for ever and no session saves over it; nothing going wrong outside means success; a death in a harness leaves the last checkpoint |
| `Gate.Gate.Session` | scripts/m5-linux-mvp-e2e.py:2529-2656 | whatever was found, the gate's own verified work under the same identity is accepted and kept, and the gap, evidence and record checks never refuse |
| `Gate.Gate.LosePower` | scripts/m5-linux-mvp-e2e.py:503-528 | after a power failure with any other files and any checksum file of the past, the invariant of the gate still holds |
| `Gate.Gate.RunHistory` | scripts/m5-linux-mvp-e2e.py:2529-2656 | over every sequence of sessions, deaths and power failures every report is truthful and every session takes over the gate's own work that it finds |
| `Gate.SavedIsContinued` | scripts/m5-linux-mvp-e2e.py:2529-2656 | in every history a resumed session takes over all that the session just before it saved |
| `Gate.RefusedResumeLosesWork` | scripts/m5-linux-mvp-e2e.py:2586-2652 | a run in which everything passes, a resume under another identity is refused and saves, and the first identity then finds nothing passed |
| `Gate.DeathIsSurvived` | scripts/m5-linux-mvp-e2e.py:2529-2656 | a run in which the process dies in a harness, and the resumed session has everything before it |
| `Gate.DeathInWriteEndsDirectory` | scripts/m5-linux-mvp-e2e.py:503-528 | a run in which the process dies inside the first private write, after which a resume is refused and saves nothing |
| `WebSocket.DecodeRecoversFrame` | scripts/m6-kvm-e2e.py:173-203 | a complete frame, minimal or not, is decoded exactly, whatever follows |
| `WebSocket.RefusedExactly` | scripts/m6-kvm-e2e.py:173-196 | the decoder refuses exactly a reserved bit, a masked frame, and an eight-byte length with its top bit set |
| `WebSocket.LaterBytesChangeNothing` | scripts/m6-kvm-e2e.py:173-203 | later bytes never change a decoded frame or an error |
| `WebSocket.ProperPrefixIsIncomplete` | scripts/m6-kvm-e2e.py:173-203 | the decoder waits on every proper prefix of a frame |
| `WebSocket.MaskTwice` | scripts/m6-kvm-e2e.py:168-170 | masking twice restores the payload |
| `WebSocket.XorIsBitwise` | scripts/m6-kvm-e2e.py:169-169 | each bit is set exactly when it is set in one of the two bytes |
| `WebSocket.XorWithNothingAndItself` | scripts/m6-kvm-e2e.py:169-169 | masking with zero changes nothing, masking a byte with itself gives zero |
| `WebSocket.EncodeRefusesExactly` | scripts/m6-kvm-e2e.py:153-158 | the encoder refuses exactly a mask of another length, an opcode beyond four bits, and a payload of 2^64 bytes or more |
| `WebSocket.ClientFrameIsReadBack` | scripts/m6-kvm-e2e.py:153-170 | a receiver recovers an encoded client frame; its header has the final and mask bits and two, four or ten bytes as the payload's length demands; the client's own decoder refuses it |
| `WebSocket.Client.ReadFrame` | scripts/m6-kvm-e2e.py:535-552 | says after how many arrivals a read ends and how: a frame, a protocol error, the time-out, the close or the full buffer; a frame is the first one of all the bytes that will arrive, and exactly its bytes are consumed |
| `WebSocket.EndsOneWay` | scripts/m6-kvm-e2e.py:535-552 | the arrivals determine how a read ends, so each error comes exactly in its case |
| `WebSocket.WaitsUntilComplete` | scripts/m6-kvm-e2e.py:535-552 | while a frame is coming the decoder waits exactly as long as it is incomplete |
| `WebSocket.ReadMovesOn` | scripts/m6-kvm-e2e.py:535-552 | one read of a run of frames gives the next one, or is stopped by a block that takes the buffer over the cap |
| `WebSocket.ReadAll` | scripts/m6-kvm-e2e.py:535-552 | for all frames and chunkings: repeated reads give the frames in order, all of them exactly when the chunking stays within the 8 MiB cap |
| `WebSocket.SmallFramesFit` | scripts/m6-kvm-e2e.py:546-552 | a frame that leaves room for one more block less a byte fits under every chunking |
| `WebSocket.FitsByteByByte` | scripts/m6-kvm-e2e.py:546-552 | every frame up to the cap fits under some chunking |
| `WebSocket.OverflowsInOneBlock` | scripts/m6-kvm-e2e.py:546-552 | every longer frame overflows under some chunking |
| `WebSocket.LargeFrameNeverFits` | scripts/m6-kvm-e2e.py:546-552 | a frame above the cap fits under none |
| `WebSocket.ChunkingDecides` | scripts/m6-kvm-e2e.py:546-552 | a frame of exactly 8 MiB that is read under one chunking and refused under another |
| `Chunked.DecodeChunked` | scripts/m6-kvm-e2e.py:269-287 | every encoded list of non-empty chunks gives its data; in general the decoding function, negative sizes and Python slices included |
| `Chunked.DecodeRecoversChunks` | scripts/m6-kvm-e2e.py:269-287 | every list of non-empty chunks with any hex spelling and extensions decodes to its data, whatever follows the zero chunk |
| `Chunked.EncodedChunksDecode` | scripts/m6-kvm-e2e.py:269-287 | chunks whose sizes are written by place in 0123456789abcdef or 0123456789ABCDEF, with leading zeros and extensions, decode to their data, whatever follows the zero chunk |
| `Chunked.PlacesStandFor` | scripts/m6-kvm-e2e.py:276-276 | every length has such a spelling |
| `Chunked.IntIsRead` | scripts/m6-kvm-e2e.py:276-276 | blanks around a size, a sign and a 0x prefix change only its sign |
| `Chunked.PassErrors` | scripts/m6-kvm-e2e.py:280-287 | after a readable size: the end exactly for zero, truncated exactly when bytes are missing, no trailing CRLF exactly when others are there |
| `Chunked.NoSizeErrors` | scripts/m6-kvm-e2e.py:273-279 | no delimiter exactly when there is no CRLF left, an invalid size exactly when the number cannot be read |
| `Chunked.SliceFromEnd` | scripts/m6-kvm-e2e.py:275-286 | negative indices count from the end and others are clipped |
| `Chunked.NeverReturnsExactly` | scripts/m6-kvm-e2e.py:272-287 | the decoder fails to return exactly when it is still going after 2n + 1 passes over n bytes, and then it goes on for ever |
| `Chunked.EveryCycleHasNegativeSize` | scripts/m6-kvm-e2e.py:272-287 | every way round the loop goes through a negative size |
| `Chunked.UnsignedSizesReturn` | scripts/m6-kvm-e2e.py:272-287 | where no size read has a minus sign the offset grows and the decoder returns |
| `Chunked.NoMinusReturns` | scripts/m6-kvm-e2e.py:272-287 | the decoder returns on every input without a minus sign |
| `Chunked.NegativeSizeLoopsForEver` | scripts/m6-kvm-e2e.py:277-287 | ten bytes on which the decoder never returns |

## Left out

- FAT images, template rendering, OpenSSH key parsing, JSON and SHA-256: foreign libraries. Where they matter they are arguments; the digest's freedom from collisions is assumed only for the contents at hand, and JSON only to read back what it wrote.
- TOML and URL decoding, error texts, file ownership, mode and symlink checks: single-branch checks; their verdicts are arguments (`Plan.valid`, `Plan.trusted`, `World.prepared`).
- CrashDisk.Directory: a failed system call has no effect, except that a failed write may leave any contents; a power cut is the only way to lose an unsynced listing.
- Catalog.ValidateReferenceNames: does not sort and de-duplicate an entry's selectors first, because that only decides which error text is shown.
- Catalog.CheckEntry: which addresses are valid is an argument; setting both or neither of a checksum address and a digest, and the lower-casing of a digest, are left to the parser.
- Catalog.ClosestNames: ranks by inserting names one by one where the source sorts, since the sort is a library call.
- Supervision.ManagedProcess.Reap: one step for `try_wait`, `wait` and `wait_timeout`, because blocking is time passing between steps.
- The free function `signal_process_group` has no reaped guard, so the pid-safety result does not cover it.
- `Cmd` builders, terminal and exec spawning, `open_log`: construction and host policy without a state machine.
- LogTail.LogTailAgreesWithLog: starts once the log file is open; the open flags and regular-file check are not modelled.
- Multipart.ParsePart: the parser knows one header layout, type before disposition with these parameters; it accepts no other header that section 5.1 of RFC 2046 would allow.
- Multipart.RenderedPartsReadBack: assumes that Firestone's own part starts with a hash, as its template does.
- Gate.Gate.AtomicWrite: a death of the process may come at every step, a power failure only between sessions (a session that dies first covers the rest); the size limit on a manifest is one of the errors before any effect.
- Gate.Gate.LosePower: takes from the crash-safe write only that a checksum file is old or new as a whole. It promises safety and not that work survives, because the gate never syncs the evidence that harnesses write.
- Gate.Gate.WriteCheckpoint: lists names in dependency order where the source sorts them; the two orders agree for the shipped harnesses.
- Gate.Gate.RunHarness: assumes that a harness only adds files to the evidence directory; how its process is started, timed and killed is the verdict it takes (`Verdict`).
- Gate.Gate.Recheck: the script's path and its expected hash are one value (`Spec.source`).
- Gate.Gate.RunGate: starts at the evidence directory; repository, release and host validation before it are `World.prepared`, and the manifest's repository, release, pins and deferrals are one `identity`.
- Gate.Gate.ValidateResume: knows one uncaught exception of its own, the missing harness record; the others are the fate `Escapes` of a harness run.
- `http_response_complete`, `action.rs`, `bounded.rs`, the other end-to-end and validation scripts: heuristics, finite tables, or network and KVM access.
