# Verified models of Operit2's host and build tools

This project models five parts of Operit2 in Dafny and proves what they promise.

- **Terminal command encoder** (`TerminalCommand`, `ShellDecoding`, `TerminalRoundTrip`). A script becomes one line of
  interactive input. `ShellDecoding` is an independent account of what a POSIX shell does with that line: single quotes,
  `printf '%b'` and command substitution.
- **Chromium automation host** (`Snapshots`, `SnapshotRefs`, `SnapshotRoots`, `RefOutcomes`, `HttpReader`, `Cdp`, `CdpRuns`,
  `CdpResults`, `BrowserEvents`, `EventRecords`, `TabEvents`, `TabRuns`, `UploadRequests`, `BrowserHost`). Element refs over
  nested documents, the DevTools response reader, the command and event session, the event fold of a tab with its file
  chooser, and the tab list with the browser process behind it.
- **Locale compiler** (`LocaleText`, `LocaleFiles`, `LocaleErrors`, `LocaleCodegen`). From the lines of two locale files to
  the generated lookup, and which files are refused where.
- **Plugin sync tool** (`SyncSignature`, `IncrementalBuild`, `BuildSoundness`, `PrebuildRuns`, `SyncMirror`, `SyncPlanning`,
  `SyncedBuild`, `HotReload`, `Base64`). Signatures, skipped builds, output directories, a whole run, and the chunked upload
  with the application's receiving endpoint.
- **Font lock** (`FontLock`, `FontRuns`). A pool of workers and the lock it verifies or writes.

`Wrappers`, `Sequences`, `Text`, `Utf8`, `Json` and `Ordering` hold what these share.

Where the source keeps mutable state there is a class. Its methods follow the source's loops and branches, and their
contracts equate the new state with a function of the old one. Properties of whole runs are lemmas about those functions,
and lemmas named `...Exactly` say what each function gives in terms of its input alone.
The outside world enters as data: what each coming socket read or send gives, whether a DevTools request succeeds, which
commands fail. A statement for all such data holds for every behaviour of the outside world.

`dafny verify dfyconfig.toml` checks the project.

## Findings

Several promises do not hold without a condition. The code is modelled as it is, and the lemma named states when the
promise holds or gives an input that breaks it.

- The encoder writes an apostrophe as `\047`, two octal digits where `%b` takes up to three. A following digit 0 to 7 is
  absorbed (`TerminalRoundTrip.LineRoundTrip`, `TerminalRoundTrip.PairIsLost`).
- The response reader depends on chunk boundaries exactly when bytes follow the declared end (`HttpReader.SplitsAgree`,
  `HttpReader.ChunkingMatters`, `HttpReader.ExcessExists`).
- Closing a tab before the focused one moves the focus to the next tab, unless the focused tab is the last
  (`BrowserHost.FocusKept`), and a failed spawn leaves its profile directory (`BrowserHost.ProfilesCounted`).
- A file chooser event that does not decode loses the rest of its batch (`TabRuns.EventsLost`).
- Key validation admits keys whose variants collide (`LocaleCodegen.VariantsEqual`), and a key whose variant is a reserved
  word (`LocaleCodegen.ReservedVariant`).
- A prebuild run that raises forgets what it compiled, and one that script-packs a child which was compiled before does
  not record it, so that a later run can skip a unit whose files are not those of its inputs. `BuildSoundness.RunSound`
  says exactly when; `BuildSoundness.StaleAfterRaise` is an instance.
- The compiler removes no file, so that an output whose source is gone stays in a child's directory and is packed
  (`BuildSoundness.ExactlyCompiled`, `BuildSoundness.StaleFileStays`).
- The signature depends on the order in which files are listed when two paths coincide after lower-casing
  (`SyncSignature.StreamOrder`). The signature stream separates lists without NUL, but every list of two files or more
  shares it with another list (`SyncSignature.StreamAmbiguous`).
- A directory under a planned name stays a directory (`SyncMirror.SyncMirrors`). The default output of the examples is the
  directory their scripts are compiled into, where a compiled script can never be copied (`SyncMirror.SharedExactly`).
- An empty artifact is never uploaded (`HotReload.ReloadPlugins`).

## Model

| member | source | states |
|---|---|---|
| `TerminalCommand.PosixCommandLine` | hosts/common/terminal_command.rs:6-25 | the encoder loop produces the specified line: untouched without a control character, else one `eval` of a `printf` with the escaped body |
| `TerminalCommand.PushControl` | hosts/common/terminal_command.rs:16-21 | every UTF-8 byte of a control character is appended as a zero-prefixed three-digit octal escape |
| `TerminalRoundTrip.LineHasNoControl` | hosts/common/terminal_command.rs:1-9 | no submitted line contains a control character, for every command |
| `TerminalRoundTrip.LineQuotesBody` | hosts/common/terminal_command.rs:12-24 | the single-quoted argument of an encoded line, as a POSIX shell reads it, is the whole escaped body |
| `TerminalRoundTrip.BodyDecodes` | hosts/common/terminal_command.rs:11-24 | for every text, `%b` accepts the escaped body and writes the text's bytes, except that an apostrophe and a following octal digit become one byte |
| `TerminalRoundTrip.AbsorbedLength` | hosts/common/terminal_command.rs:15 | the decoded text is short by exactly the number of apostrophe-digit pairs |
| `TerminalRoundTrip.BodyRoundTrip` | hosts/common/terminal_command.rs:11-24 | `%b` gives back the UTF-8 bytes if and only if no apostrophe is directly followed by 0 to 7 |
| `TerminalRoundTrip.LineRoundTrip` | hosts/common/terminal_command.rs:6-24 | the evaluated text is the command without its trailing newlines if and only if the command has no such pair and no NUL |
| `TerminalRoundTrip.CommandRuns` | hosts/common/terminal_command.rs:6-25 | for every command, the shell executes the command's own text if and only if it has no control character, or else no NUL and no apostrophe before an octal digit; without a control character the line is the command itself |
| `TerminalRoundTrip.PairIsLost` | hosts/common/terminal_command.rs:15 | a concrete two-line command whose quoted digit is not evaluated as written |
| `Snapshots.CheckWithinDepth` | hosts/common/chromium_browser.rs:1535-1545 | the parent walk answers whether the root is an ancestor at most `depth` steps up |
| `Snapshots.Collector.Collect` | hosts/common/chromium_browser.rs:1546-1576 | with one shared item guard in both loops and the recursion, the output is the first 300 entries of what was there followed by the unbounded traversal |
| `Snapshots.Collector.CollectElements` | hosts/common/chromium_browser.rs:1547-1564 | the element loop appends the first entries that fit of the document's eligible elements |
| `Snapshots.Collector.CollectFrames` | hosts/common/chromium_browser.rs:1565-1575 | the iframe loop appends the first entries that fit of the documents below, in iframe order |
| `Snapshots.TakeSnapshot` | hosts/common/chromium_browser.rs:1577-1581 | the script fails when its root selector matches nothing, and else returns the capped traversal from that root |
| `Snapshots.Resolve` | hosts/common/chromium_browser.rs:1480-1505 | the resolver loop: split at colons, walk the frame segments, index the selector list, with each of its failures |
| `SnapshotRefs.RefRoundTrip` | hosts/common/chromium_browser.rs:1480-1576 | every ref of a snapshot, for every root and depth, resolves to the very element it was emitted for |
| `SnapshotRefs.RefsDistinct` | hosts/common/chromium_browser.rs:1546-1576 | the refs of a snapshot are pairwise distinct |
| `SnapshotRefs.ListingTargets` | hosts/common/chromium_browser.rs:1546-1576 | no element is listed twice |
| `SnapshotRefs.ListingFiltered` | hosts/common/chromium_browser.rs:1532-1576 | root, depth and visibility filters only drop entries of the unfiltered listing; they never renumber, rename or reorder one |
| `SnapshotRefs.ListingComplete` | hosts/common/chromium_browser.rs:1546-1576 | every interactive element of a reachable document that passes the filters is listed before the cap applies |
| `SnapshotRoots.ListedExactly` | hosts/common/chromium_browser.rs:1532-1576 | the traversal lists an element if and only if it is interactive and visible and a chain of parent links, no longer than the depth limit in the top document, leads to the root from it or from the iframe it is below |
| `SnapshotRoots.SnapshotExactly` | hosts/common/chromium_browser.rs:1546-1581 | a snapshot is the first 300 of the traversal; all of its elements are of that kind, and up to 300 such elements it lists them all |
| `RefOutcomes.SelectorExactly` | hosts/common/chromium_browser.rs:1480-1505 | a target is looked up as a selector, as it stands, if and only if it is neither `el` nor starts with `el:` |
| `RefOutcomes.ResolveExactly` | hosts/common/chromium_browser.rs:1480-1505 | what a ref resolves to, for all segments: each `f` segment enters the iframe that has so many iframes before it; the last one finds the interactive element with so many before it, or none, or is no number; a segment of another form is an invalid ref, and an iframe that is absent or withheld is unavailable |
| `HttpReader.FindBytes` | hosts/common/chromium_browser.rs:1194-1198 | the first occurrence of the needle, or none exactly when it does not occur |
| `HttpReader.LengthLine` | hosts/common/chromium_browser.rs:1177-1184 | a `Content-Length` line in any letter case and with any whitespace around the number declares that number |
| `HttpReader.LengthExactly` | hosts/common/chromium_browser.rs:1177-1184 | a line declares n if and only if it is `content-length:` in any letter case, then whitespace, an optional plus sign, decimal digits that denote n below 2^64, and whitespace |
| `HttpReader.ReadHttpResponse` | hosts/common/chromium_browser.rs:1163-1192 | reading stops after the first chunk that makes the response complete, or at the end of the stream, or fails with it |
| `HttpReader.FindStable` | hosts/common/chromium_browser.rs:1174-1176 | the first header end of received bytes stays the first under every extension |
| `HttpReader.StopsAtBoundary` | hosts/common/chromium_browser.rs:1174-1189 | the loop stops at the first chunk boundary at or past the declared end of the whole stream |
| `HttpReader.ReadResult` | hosts/common/chromium_browser.rs:1163-1192 | only the declared end of the whole stream decides what is read |
| `HttpReader.ChunkingIrrelevant` | hosts/common/chromium_browser.rs:1163-1192 | without bytes past the declared end the whole stream is returned, for every chunking; without a declared length, everything up to the end |
| `HttpReader.SplitsAgree` | hosts/common/chromium_browser.rs:1163-1192 | two chunkings of the same bytes without excess give the same result |
| `HttpReader.ChunkingMatters` | hosts/common/chromium_browser.rs:1163-1192 | every response with bytes past its declared end has two valid chunkings of which one is read to that end and the other to one byte past it |
| `HttpReader.HeadDeclares` | hosts/common/chromium_browser.rs:1174-1184 | a header block without the delimiter whose first length line is a `Content-Length` of n declares its end n bytes after the delimiter, whatever follows |
| `HttpReader.ExcessMatters` | hosts/common/chromium_browser.rs:1163-1192 | such a block followed by more than n bytes is read differently under two chunkings of the same bytes |
| `HttpReader.ExcessExists` | hosts/common/chromium_browser.rs:1163-1192 | there is such a response for every length |
| `Cdp.CdpSession.RunCommand` | hosts/common/chromium_browser.rs:1221-1254 | the id is used up before the send; every value read before the reply is queued; the reply, a closed socket or bad JSON ends the call |
| `Cdp.CdpSession.DrainEvents` | hosts/common/chromium_browser.rs:1256-1288 | values are queued until the stream pauses, closes or fails or the deadline passes |
| `Cdp.CdpSession.TakeEvents` | hosts/common/chromium_browser.rs:1290-1292 | the queue is handed over whole and left empty |
| `CdpResults.CommandSends` | hosts/common/chromium_browser.rs:1221-1231 | a command that can send puts out one request, with the next id and its name and parameters; one that cannot puts out none |
| `CdpResults.CommandEnds` | hosts/common/chromium_browser.rs:1233-1253 | a command ends Ok if and only if its request went out and the first read that is not passed over is a reply with its id and without an `error` member, and it gives that reply's `result` |
| `CdpResults.DrainReads` | hosts/common/chromium_browser.rs:1256-1288 | a drain within its budget queues what it reads up to the first pause, close, failure or bad JSON, and which of these comes first decides whether it ends Ok |
| `CdpRuns.AwaitConserves` | hosts/common/chromium_browser.rs:1233-1253 | a command queues every value it reads but its own reply, in order, and its result is that reply's |
| `CdpRuns.CommandConserves` | hosts/common/chromium_browser.rs:1221-1254 | the same for a whole command, result included; it also uses up one id whether or not the send succeeds |
| `CdpRuns.DrainConserves` | hosts/common/chromium_browser.rs:1256-1288 | a drain queues every value it reads, in order |
| `CdpRuns.RunConserves` | hosts/common/chromium_browser.rs:1221-1292 | over every run, the values read are exactly the batches taken, the queue and one reply for each answered command, in order; ids strictly increase, and every reply that a command returned carries that command's own id |
| `TabEvents.TabState.RecordEvent` | hosts/common/chromium_browser.rs:952-985 | each event's effect on the logs and the chooser; a chooser event that does not decode changes nothing and fails |
| `EventRecords.ChooserExactly` | hosts/common/chromium_browser.rs:798-821 | an event identifies a chooser if and only if it holds that node as a 64-bit integer, that frame and one of the two modes |
| `EventRecords.InvalidatesExactly` | hosts/common/chromium_browser.rs:824-841 | an event invalidates a chooser if and only if a frame without a parent or its own frame navigates, or its own frame is detached |
| `EventRecords.ConsoleExactly` | hosts/common/chromium_browser.rs:2014-2081 | the console item of an event: exactly the one whose level and text its fields give |
| `EventRecords.NetworkExactly` | hosts/common/chromium_browser.rs:2084-2104 | the network item of an event: exactly the one whose four members its fields give |
| `EventRecords.RecordExactly` | hosts/common/chromium_browser.rs:952-985 | recording fails if and only if the event opens a chooser that it does not describe; otherwise each log gains in front exactly the item that the event adds to it, of which 300 are kept, and the chooser follows from the event's fields |
| `EventRecords.CollectedExactly` | hosts/common/chromium_browser.rs:932-939 | where the drain fails, all events stay queued and none is recorded; else none stays queued, those before the first open event that identifies no chooser are recorded, and collecting succeeds if and only if there is none such |
| `TabEvents.TabState.CollectEvents` | hosts/common/chromium_browser.rs:932-939 | a failed drain keeps its events queued; else they are recorded in order up to the first that fails, and the rest of the batch is lost |
| `TabEvents.TabState.ApplySelection` | hosts/common/chromium_browser.rs:849-896 | the checks and commands of a file selection, in order |
| `TabEvents.TabState.ApplyCancel` | hosts/common/chromium_browser.rs:898-919 | the commands of a cancellation; the remote object is released before the exception is reported |
| `TabEvents.TabState.FileUpload` | hosts/common/chromium_browser.rs:754-766 | collect, apply, reset, collect; a failure before the reset keeps the chooser |
| `TabEvents.RecordReflects` | hosts/common/chromium_browser.rs:952-985 | recording an event keeps the tab equal to its longer history |
| `TabEvents.AfterReflects` | hosts/common/chromium_browser.rs:932-985 | the same over every sequence of events and uploads |
| `TabEvents.RecordDetermined` | hosts/common/chromium_browser.rs:932-985 | the history alone determines logs and chooser, however the events were batched |
| `TabEvents.ActiveSnoc` | hosts/common/chromium_browser.rs:967-980 | a chooser is active exactly while nothing since its open event replaced, invalidated or consumed it |
| `TabEvents.UploadLeaves` | hosts/common/chromium_browser.rs:754-766 | a failed upload leaves the chooser as collected; a completed one leaves exactly the chooser opened by events queued meanwhile |
| `UploadRequests.SelectionSucceeds` | hosts/common/chromium_browser.rs:849-896 | a selection succeeds if and only if the paths are acceptable and both requests are answered without an error, the first by an input without a directory attribute; the last request sent is then the assignment of these paths to the chooser's node |
| `UploadRequests.SelectionRefused` | hosts/common/chromium_browser.rs:849-889 | too many paths, or one that is no regular file, send nothing and are reported as such, the first such path; an input that takes directories or has no attributes is never assigned files |
| `UploadRequests.AnsweredCancels` | hosts/common/chromium_browser.rs:898-919 | an answered cancellation sends its three requests and succeeds if and only if the call reports no exception; the object is released either way |
| `UploadRequests.CancellationSucceeds` | hosts/common/chromium_browser.rs:898-919 | a cancellation succeeds if and only if its three requests are answered without an error and the call reports no exception, and the three have then gone out in order |
| `UploadRequests.UploadSucceeds` | hosts/common/chromium_browser.rs:754-766 | the chooser is reset if and only if the first collection finishes, leaves a chooser and the page accepts the operation, whose requests have then gone out; the upload succeeds if and only if the collection after the reset finishes too |
| `TabEvents.TabRunReflects` | hosts/common/chromium_browser.rs:754-985 | after every run, failing calls included, each log is the newest 300 of its items in reverse order and the chooser is the one the history leaves active |
| `TabRuns.EventsLost` | hosts/common/chromium_browser.rs:932-939 | a run's history holds every event the session handed over if and only if all of them decode, and every event is looked at if and only if none but the last of a batch fails to |
| `TabRuns.TabRunAccounted` | hosts/common/chromium_browser.rs:932-939 | over every run, what the session read is the batches it handed over, its queue and replies, in order |
| `TabEvents.NewestPush` | hosts/common/chromium_browser.rs:2007-2012 | inserting in front and truncating keeps the newest 300 of the full history |
| `BrowserHost.BrowserState.SelectTab` | hosts/common/chromium_browser.rs:386-395 | selection checks the index, then DevTools, then moves the focus |
| `BrowserHost.BrowserState.CloseTab` | hosts/common/chromium_browser.rs:397-409 | closing removes the tab and clamps the focus; a failure changes nothing |
| `BrowserHost.ChromiumHost.StartState` | hosts/common/chromium_browser.rs:55-84 | starting spawns at most one child and cleans it up on each failing path after the spawn |
| `BrowserHost.ChromiumHost.ExecuteBrowserTool` | hosts/common/chromium_browser.rs:86-320 | the effect of every tool call on the session and its process |
| `BrowserHost.PerformSound` | hosts/common/chromium_browser.rs:55-184 | every call keeps: a session has tabs and one in focus, and exactly its own child is alive |
| `BrowserHost.RunSound` | hosts/common/chromium_browser.rs:55-335 | after every sequence of calls, failing ones included, one live child if there is a session and none otherwise, and no child cleaned up twice |
| `BrowserHost.DropLeavesNone` | hosts/common/chromium_browser.rs:331-335 | dropping the host after any run leaves no live child |
| `BrowserHost.ProfilesCounted` | hosts/common/chromium_browser.rs:55-76 | profile directories on disk are the session's own and one for each failed spawn |
| `BrowserHost.FocusAfterClose` | hosts/common/chromium_browser.rs:397-409 | which tab is in focus after closing any tab |
| `BrowserHost.FocusKept` | hosts/common/chromium_browser.rs:397-409 | closing another tab keeps the focus if and only if it comes after the focused tab or the focused tab is the last |
| `BrowserHost.FocusMoves` | hosts/common/chromium_browser.rs:140-161 | a created tab is appended and focused; a selected tab is focused and the list is unchanged |
| `BrowserHost.FailureKeepsSession` | hosts/common/chromium_browser.rs:86-184 | a call that fails before its action ran leaves the session and, if there was one, its processes as they were |
| `BrowserHost.ClosesExactly` | hosts/common/chromium_browser.rs:109-183 | the tabs, focus and process after `Close`, `TabsClose` and `CloseAll` |
| `BrowserHost.StartsExactly` | hosts/common/chromium_browser.rs:86-160 | which calls start a session where there is none, and with which tab |
| `BrowserHost.SucceedsExactly` | hosts/common/chromium_browser.rs:86-184 | each call succeeds if and only if the session, its tabs and the outside world allow it |
| `LocaleText.DecodeValue` | apps/cli/build.rs:261-284 | the decoder loop equals the specified decoding with its two errors |
| `LocaleText.DecodeAccepts` | apps/cli/build.rs:261-284 | accepts exactly the texts in which every backslash starts one of the four escapes |
| `LocaleText.DecodeSpelled` | apps/cli/build.rs:261-284 | every spelling decodes to the characters it spells |
| `LocaleText.DecodeEscape` | apps/cli/build.rs:261-284 | decoding undoes canonical escaping |
| `LocaleText.EscapeDecode` | apps/cli/build.rs:261-284 | without raw newline, return or tab a text has one spelling |
| `LocaleErrors.DecodeFails` | apps/cli/build.rs:261-284 | decoding fails with an error if and only if plain characters and good escapes are followed by the escape that the error names |
| `LocaleText.Placeholders` | apps/cli/build.rs:287-314 | the scanner loops give the sorted duplicate-free name list of the specified scan, or its first error |
| `LocaleText.ScanAccepts` | apps/cli/build.rs:287-330 | the scan succeeds exactly on sequences of brace-free characters and slots with valid names |
| `LocaleText.ScanRendered` | apps/cli/build.rs:287-330 | and then finds exactly the slots' names |
| `LocaleText.ParseUnique` | apps/cli/build.rs:287-330 | a text has one such parse |
| `LocaleErrors.ScanFails` | apps/cli/build.rs:287-330 | scanning fails with an error if and only if characters and good slots are followed by the brace that the error describes |
| `LocaleFiles.ReadLocaleFile` | apps/cli/build.rs:39-66 | the line loop equals the specified reading, with the number of the failing line and its error |
| `LocaleFiles.ReadCoherent` | apps/cli/build.rs:39-66 | a file that reads has valid distinct keys, and its keyed form is the map of its entries |
| `LocaleFiles.PairRoundTrip` | apps/cli/build.rs:48-59 | a printed pair reads back if and only if its value neither starts nor ends with whitespace that is not escaped |
| `LocaleFiles.LineRoundTrip` | apps/cli/build.rs:47-59 | every printed line, also with a carriage return, reads as its pair or is skipped |
| `LocaleFiles.FileRoundTrip` | apps/cli/build.rs:39-66 | a printed file reads back as its pairs in order, whatever blank lines, comments and padding surround them |
| `LocaleErrors.LineExactly` | apps/cli/build.rs:46-59 | a line is skipped if and only if it is blank or a comment; any other fails without an equals sign, then for its key, then for its value, and is else read as its trimmed key and decoded value |
| `LocaleErrors.FilesExactly` | apps/cli/build.rs:39-66 | a file is refused with a line number and an error if and only if that is the first line which is bad or repeats a key; else it reads to the entries of its lines, in order |
| `LocaleCodegen.VariantName` | apps/cli/build.rs:333-344 | the loop gives the capitalized pieces in a row, and panics exactly on an empty piece |
| `LocaleCodegen.VariantsEqual` | apps/cli/build.rs:333-344 | two keys get one variant if and only if they differ at most in underscores that precede digits |
| `LocaleCodegen.VariantInjective` | apps/cli/build.rs:333-344 | on keys whose pieces start with letters the key can be read back from the variant |
| `LocaleCodegen.KeysCollide` | apps/cli/build.rs:239-258 | two keys that pass validation and collide |
| `LocaleCodegen.ValidateLocaleFiles` | apps/cli/build.rs:69-108 | succeeds exactly when both files have the same keys and, under each, well-formed texts with the same placeholders |
| `LocaleCodegen.MatchArms` | apps/cli/build.rs:204-212 | one arm for each entry in order, with its variant and its own value, unless a key has no variant |
| `LocaleCodegen.TextMethods` | apps/cli/build.rs:155-197 | one accessor for each key that is not written by hand, with its sorted placeholders |
| `LocaleCodegen.AccessorsExactly` | apps/cli/build.rs:155-197 | one accessor for each key but the five written by hand, in the order of the entries, with the key's variant and its text's placeholders |
| `LocaleCodegen.GenerateRust` | apps/cli/build.rs:111-201 | generation succeeds exactly when no step panics, and gives the specified variants, arms, help lines and accessors |
| `LocaleCodegen.ValidatedGenerable` | apps/cli/build.rs:69-201 | after validation only an empty key piece or missing help lines makes generation panic |
| `LocaleCodegen.VariantsDistinct` | apps/cli/build.rs:114-120 | the enum has no duplicate variant if and only if no two keys differ only in underscores before digits |
| `LocaleCodegen.ReservedVariant` | apps/cli/build.rs:114-120 | the variant of a valid key is the reserved word `Self` if and only if the key is `self` |
| `LocaleCodegen.ArmsFaithful` | apps/cli/build.rs:204-212 | among arms without duplicate variants each entry's variant selects the entry's own value |
| `LocaleCodegen.LookupFaithful` | apps/cli/build.rs:122-145 | in a compiled lookup every key selects its own value in either language |
| `LocaleCodegen.ParametersFit` | apps/cli/build.rs:85-197 | after validation every accessor's parameters are exactly the placeholders of its text in both languages |
| `LocaleCodegen.CompiledLookup` | apps/cli/build.rs:25-145 | from the two printed files to the generated match: a key is looked up as the value written for it |
| `SyncSignature.IterSignatureFiles` | plugins/tools/sync_plugin_packages.py:341-350 | existing files once each, ordered by lower-cased path, and in input order where those are equal |
| `SyncSignature.ComputePathsStream` | plugins/tools/sync_plugin_packages.py:353-362 | the digest is fed path, NUL, content and NUL of each file in that order, however the content is read in chunks |
| `Utf8.EncodeTable` | plugins/tools/sync_plugin_packages.py:356 | paths are fed as UTF-8: the leading byte tells the length, and the code point's bits follow each other over the bytes (section 3 of RFC 3629) |
| `SyncSignature.OrderIrrelevant` | plugins/tools/sync_plugin_packages.py:341-350 | reordering or repeating the inputs changes nothing when no two files coincide after lower-casing |
| `SyncSignature.OrderMatters` | plugins/tools/sync_plugin_packages.py:341-350 | where two files do coincide, two orders of the same inputs give different lists |
| `SyncSignature.StreamInjective` | plugins/tools/sync_plugin_packages.py:353-362 | for NUL-free paths and contents the stream determines the list of paths and contents |
| `SyncSignature.StreamOrder` | plugins/tools/sync_plugin_packages.py:341-362 | for NUL-free files the digest is fed the same for every order and repetition of the inputs if and only if no two files coincide after lower-casing |
| `SyncSignature.StreamAmbiguous` | plugins/tools/sync_plugin_packages.py:353-362 | a list of files with NUL-free paths shares its stream with another such list if and only if it has two files or more, or its one content holds a NUL from which on it reads as a further path, NUL and content |
| `SyncSignature.NulAmbiguous` | plugins/tools/sync_plugin_packages.py:353-362 | for example, one file and two files with the same stream |
| `IncrementalBuild.PluginWorkspace.PrebuildPlans` | plugins/tools/sync_plugin_packages.py:547-618 | the root and child loops: what is compiled over the files already there, skipped, raised and saved |
| `PrebuildRuns.DueExactly` | plugins/tools/sync_plugin_packages.py:561-612 | a unit's command is due if and only if there are scripts whose saved signature differs or an output of which is gone, a child packs itself, or its saved signature differs |
| `PrebuildRuns.ErrorExactly` | plugins/tools/sync_plugin_packages.py:561-612 | a real run misses the tsconfig if and only if the root has scripts and none, and fails for a unit if and only if that unit's is the first due command that fails |
| `PrebuildRuns.DryRunRaises` | plugins/tools/sync_plugin_packages.py:547-618 | a dry run raises if and only if the root has scripts and no tsconfig, whatever would fail |
| `PrebuildRuns.RerunIdle` | plugins/tools/sync_plugin_packages.py:572-618 | after a run that finished, every next run over the same sources starts no command and changes nothing if and only if no child packs itself and every compiled script is there |
| `BuildSoundness.RunSaves` | plugins/tools/sync_plugin_packages.py:547-618 | a real run raises exactly where its sources, the saved signatures and the failing commands say so, and saves signatures exactly when it does not raise |
| `BuildSoundness.ChildAfter` | plugins/tools/sync_plugin_packages.py:588-618 | the files and the saved signature of each child after a real run |
| `BuildSoundness.OtherAfter` | plugins/tools/sync_plugin_packages.py:561-618 | the same for the root, and for units that the run does not touch |
| `BuildSoundness.RunSound` | plugins/tools/sync_plugin_packages.py:547-618 | a real run, raising or not, keeps every saved signature true of the unit's files if and only if each command whose inputs it does not save, because it raised or the child is script-packed, writes nothing that differs from the compilation of the inputs on record |
| `BuildSoundness.SoundExactly` | plugins/tools/sync_plugin_packages.py:573-612 | saved signatures are true of the files if and only if every next run that finishes, over whatever sources, leaves the files that its inputs compile to |
| `BuildSoundness.IncrementalIsFull` | plugins/tools/sync_plugin_packages.py:564-618 | where a real run finishes, every file that compiling the present inputs emits is there and right, for compiled and skipped units alike |
| `BuildSoundness.ExactlyCompiled` | plugins/tools/sync_plugin_packages.py:553-612 | a child's directory then holds exactly those files if and only if every file it held before is among them |
| `BuildSoundness.StaleFileStays` | plugins/tools/sync_plugin_packages.py:553-612 | a file whose source is gone is still there after the next run |
| `BuildSoundness.HistorySound` | plugins/tools/sync_plugin_packages.py:547-618 | over every history of edits, real and dry runs with failing commands, and deleted outputs, the signatures are true at every moment if and only if no real run and no deletion broke its condition |
| `BuildSoundness.HistoryFull` | plugins/tools/sync_plugin_packages.py:547-618 | after such a history the next run that finishes leaves every file its present inputs compile to |
| `BuildSoundness.DryRunChangesNothing` | plugins/tools/sync_plugin_packages.py:547-618 | a dry run changes neither outputs nor the saved state |
| `BuildSoundness.StaleAfterRaise` | plugins/tools/sync_plugin_packages.py:609-618 | after a run that raised, a unit whose inputs return to the recorded ones is left as it is, and its files are right if and only if both compilations agree on the files they share |
| `BuildSoundness.DeletionSound` | plugins/tools/sync_plugin_packages.py:572-612 | deleting a file of a unit keeps the saved signatures true if and only if it is the root's or no inputs on record compile to it |
| `BuildSoundness.FreshHistory` | plugins/tools/sync_plugin_packages.py:547-618 | from a fresh workspace, where no command fails and no child changes how it is packed, after every history of edits, real and dry runs and deleted root outputs the next run finishes and leaves every file its inputs compile to |
| `BuildSoundness.DeletedChildStaysGone` | plugins/tools/sync_plugin_packages.py:606-612 | a deleted child output is not rebuilt while its inputs stay the same |
| `SyncMirror.CollectSyncPlan` | plugins/tools/sync_plugin_packages.py:86-120 | the plan loop equals the specified plan |
| `SyncMirror.PlanSyncable` | plugins/tools/sync_plugin_packages.py:86-120 | every planned destination has a syncable suffix |
| `SyncPlanning.PlanExactly` | plugins/tools/sync_plugin_packages.py:86-120 | the plan is, in the order of the children, exactly the items that those outside `types` and `node_modules` give: a script or archive its copy, a TypeScript file its stem with `.js`, a directory with a manifest its name with `.toolpkg` |
| `SyncMirror.OutputDirectory.DeleteUnplannedOutputs` | plugins/tools/sync_plugin_packages.py:654-667 | deletes exactly the unplanned syncable files and counts them; a dry run only counts |
| `SyncMirror.OutputDirectory.Sync` | plugins/tools/sync_plugin_packages.py:671-711 | a dry run changes nothing and returns the counts of the real run from the same start |
| `SyncMirror.SyncedEntry` | plugins/tools/sync_plugin_packages.py:671-711 | planned names hold the result of their last item, unplanned syncable files are gone, all else is untouched |
| `SyncMirror.SyncMirrors` | plugins/tools/sync_plugin_packages.py:671-711 | the syncable files are exactly the planned names if and only if no planned name was a directory |
| `SyncPlanning.CopiesArrive` | plugins/tools/sync_plugin_packages.py:671-711 | after a successful synchronization a script or archive of the source is in the output with its own content, if no later item takes its name and it is no directory there |
| `SyncPlanning.CopiesCounted` | plugins/tools/sync_plugin_packages.py:671-711 | the first returned count is the number of items that are copied or compiled |
| `SyncMirror.SecondRunDeletesNothing` | plugins/tools/sync_plugin_packages.py:654-711 | a second run finds nothing to delete |
| `SyncMirror.SyncsExactly` | plugins/tools/sync_plugin_packages.py:671-711 | a real synchronization succeeds if and only if every item has its content, none is compiled while compiler and output directory coincide, and no folder is packed onto a directory |
| `SyncMirror.SharedExactly` | plugins/tools/sync_plugin_packages.py:691-697 | where compiler and output directory coincide, a plan synchronizes if and only if it compiles no script and could be synchronized into a directory of its own |
| `SyncMirror.SharedNeverSyncs` | plugins/tools/sync_plugin_packages.py:691-697 | there, a plan with a compiled script always raises |
| `SyncedBuild.SyncedUpToDate` | plugins/tools/sync_plugin_packages.py:671-711 | after a finished prebuild and a successful synchronization the output file of each compiled script and each script-packed archive is what its present inputs compile to |
| `HotReload.SlicesConcat` | plugins/tools/sync_plugin_packages.py:531-537 | the slices concatenate to the encoded text |
| `HotReload.Slices` | plugins/tools/sync_plugin_packages.py:533-535 | each slice is non-empty and at most 24000 long, and there are as many as the length divided by 24000, rounded up |
| `HotReload.SliceDecodes` | plugins/tools/sync_plugin_packages.py:531-535 | each slice decodes on its own to its piece of the file |
| `HotReload.PiecesFlat` | plugins/tools/sync_plugin_packages.py:531-535 | the pieces concatenate to the file |
| `Base64.RoundTrip64` | plugins/tools/sync_plugin_packages.py:532 | decoding undoes encoding (section 4 of RFC 4648) |
| `Base64.EncodedGroup` | plugins/tools/sync_plugin_packages.py:532 | every four characters stand for the sextets that make up their three bytes, and padding replaces those that no byte reaches (section 4 of RFC 4648) |
| `HotReload.SendArtifact` | plugins/tools/sync_plugin_packages.py:531-535 | sending an artifact uploads its whole encoding under its name; an empty one sends nothing |
| `HotReload.AcceptedExactly` | apps/flutter/app/lib/core/application/PluginHotReload.dart:30-35 | a name is accepted if and only if it is one or more letters, digits, underscores, dots and dashes before `.js` or `.toolpkg` |
| `HotReload.Endpoint.Chunk` | apps/flutter/app/lib/core/application/PluginHotReload.dart:30-35 | an accepted name's text grows by the chunk; any other name fails and clears the uploads |
| `HotReload.Endpoint.Commit` | apps/flutter/app/lib/core/application/PluginHotReload.dart:36-48 | uploads are written decoded, in order, up to the first that does not decode or is refused, and what was written before it stays |
| `HotReload.ReloadPlugins` | plugins/tools/sync_plugin_packages.py:529-537 | the reload succeeds if and only if some artifact is not empty, all such have accepted names and the storage takes and loads them; those before the first refused one arrive, byte for byte |
| `HotReload.ArrivedExactly` | plugins/tools/sync_plugin_packages.py:531-537 | which files arrive and with what content |
| `FontLock.FontCache.MaterializeFont` | tools/prepare_flutter_web_fonts.py:41-59 | the cache, fetch and lock checks of one path, and what they leave in the cache |
| `FontLock.FontCache.PrepareFonts` | tools/prepare_flutter_web_fonts.py:69-92 | a run against the lock, whose paths must be the engine's, or to write it |
| `FontLock.FontCache.VerifyFonts` | tools/prepare_flutter_web_fonts.py:79-90 | collection over the pool in completion order, then the sort, or the failures in that order |
| `FontLock.OrderIrrelevant` | tools/prepare_flutter_web_fonts.py:79-90 | the completion order changes neither the cache nor which failures are reported nor, without failures, the entries; two orders give the same report if and only if the failing paths complete in the same order |
| `FontRuns.LockedExactly` | tools/prepare_flutter_web_fonts.py:69-92 | a run against a lock verifies if and only if the lock lists the engine's paths and, for each entry, the cached data, or else the fetched, non-empty and of allowed size, begins as a font and has the entry's length and digest; it then reports the lock's own entries |
| `FontRuns.UnlockedExactly` | tools/prepare_flutter_web_fonts.py:69-92 | a run that writes the lock verifies if and only if there is a font for every path, and its entries are then the engine's paths with each font's length and digest |
| `FontRuns.FailureExactly` | tools/prepare_flutter_web_fonts.py:41-59 | which of the three failures a path reports |
| `FontRuns.CacheExactly` | tools/prepare_flutter_web_fonts.py:41-59 | a run keeps what is cached and adds exactly the fetched fonts that pass every check; one that fails never enters the cache |
| `FontLock.WrittenLockVerifies` | tools/prepare_flutter_web_fonts.py:41-92 | a lock just written lists the engine's paths and verifies with the same entries and cache, in any order and whatever the network then gives |

## Left out

- Process control, sockets, WebSocket framing, clocks, sleeps and timeouts: their outcomes are inputs. A kill, a wait and the removal of a profile directory are taken to succeed.
- TabEvents.TabRunReflects: console and network items carry no timestamp, because the clock is outside the model.
- CdpRuns.RunConserves: ids are unbounded integers, so that overflow of the 64-bit counter is not modelled.
- HttpReader.ReadHttpResponse: the sum of header end, delimiter and declared length is unbounded; the lossy UTF-8 decoding of the header block is an arbitrary function.
- Snapshots.Resolve: JavaScript's `Number` is an arbitrary function. The round trip asks only that it reads decimal numerals below 2^53 exactly, as doubles do, and that no document has more elements than that.
- Snapshots.Collector.Collect: texts, labels and coordinates of an entry, and an exception thrown inside a frame, are not modelled; visibility and the selector match are given for each element.
- `visit_with_chromium`, page text extraction, screenshots, mouse and key dispatch and the parameter accessors: single-branch plumbing.
- The DevTools status line check and body split of `devtools_text`: short linear code after the reader.
- BrowserHost.ChromiumHost.ExecuteBrowserTool: an action on the active tab is one success or failure here; what actions do to the tab is in `TabEvents`.
- A shell's history expansion of `!` and the PowerShell encoder: not part of POSIX evaluation.
- LocaleCodegen.GenerateRust: the generated source is a structure, not text; string literal formatting is the standard library's. Which of several validation errors is reported first is not stated.
- BuildSoundness.IncrementalIsFull: compiling is a function of the unit and its collected inputs (other files, such as `.json` or `.tsx`, are not collected), hashes do not collide and inputs hold no NUL. A missing tool is a failing command, though without `corepack` a dry run raises as well.
- SyncMirror.CollectSyncPlan: the children come sorted, and reading `package.json` is an input. `git`, zip, `pnpm`, `tsc` and `cargo` are outside the model.
- SyncMirror.OutputDirectory.Sync: what a run that raises half-way leaves in the directory is not stated; symbolic links are not modelled.
- HotReload.ReloadPlugins: every service call reaches the endpoint and is answered; a connection lost on the way is not modelled.
- LocaleCodegen.ReservedVariant: accessor and parameter names that are reserved words of Rust are not treated.
- Toolchain discovery, VM service discovery and URL handling: host-specific heuristics.
- FontLock.FontCache.PrepareFonts: reading the engine's font paths, the lock's format and origin fields and copying the staged files are inputs and plumbing; workers on different paths are taken as atomic on their own cache file.
- `hosts/unix/daemon.rs`, `plugins/sdk/build_native.py`, `edge/tools/check-sdk-dependencies.py`, `plugins/tools/sync_v1_types.py` and the type declarations: short scripts and declarations without deep invariants.
- Sync, Binding and Space: their code is not part of this model.
