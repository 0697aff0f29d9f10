# hmny core, modelled in Dafny

hmny is a desktop shell whose content comes from WebAssembly plug-ins. *Wraps* are guests that answer
typed queries: metadata, home screens and mimetype renderers. *Elements* are guests that turn a signal
into entities. The host loads each guest, checks its interface version and registers it under a key.
It then talks to the guest through the guest's linear memory:

- it writes a request at a known offset;
- it calls the exported `signal` function;
- it reads back a reply whose location the guest packs into one 64-bit word (length in the low half,
  pointer in the high half).

The guest side of this protocol is generated by a procedural macro: handler names are derived from
query type names, and an unknown query id gets an error reply. Around this sit:

- a launcher that runs at most three build tasks at once, from a queue;
- monitors that turn `cargo build` output into progress counts and status text;
- a `cargo tree` parser that counts a package's dependencies;
- two markdown converters, one to text dimensions and one to entities;
- the canvas helpers that lay out styled text and convert Cairo pixels to RGBA;
- a test element that increments the bytes of its signal.

The model follows the source files: most Dafny modules model one source file each. A few modules
are shared:

- `MemoryBridge` holds the memory-slicing helpers that both loaders define identically.
- `BuildLog` holds the build-output rule that both build monitors apply.
- `Mdast` holds the markdown tree that both markdown converters walk.
- `Text`, `Bytes` and `Wrappers` hold string, byte and result helpers used throughout.

- Pure code is written as datatypes, functions and lemmas.
- Objects whose fields the source mutates are classes: the registries, the loaded guests, the
  launcher state, the build monitors and the cargo command.
- A guest's linear memory is an `array<bv8>`.
- Loops become methods with invariants, each proved against a specification function.

Code the model cannot see is passed in as a parameter:

- The WebAssembly engine is an `Engine`: a compile oracle that yields a module with a memory and an
  optional `signal` export. A call returns a word and the new memory, or traps.
- The bincode codec is a `SignalCodec`: a query id plus encode and decode functions.
- Files are given as their contents (`Option<seq<bv8>>`), with `None` for an unreadable file.

### The launcher queue gate

`process_queue` (crates/launcher/src/state.rs:106-119) only acts while `is_initiated()` is false.
That means it acts while the task-update receiver is still held, before `initiate` takes it.
`LauncherState.State.ProcessQueue` models the gate exactly as written:

- Before initiation, each call to it starts queued tasks until either three are active or the queue
  is empty.
- After initiation, it leaves the state unchanged.

## Model

| member | source | states |
|---|---|---|
| Interface.NewVersion | crates/common/src/interface/mod.rs:15-17 | the host's own version always matches its own version, and renders as the interface version string |
| Interface.FromStr | crates/common/src/interface/mod.rs:19-21 | parsing keeps the tag verbatim; the result matches the host exactly when the tag equals the interface version |
| Interface.MatchesOwnIffHostVersion | crates/common/src/interface/mod.rs:24-33 | a version matches exactly when it equals the host's own version; converting to a string and parsing again gives the same version back |
| Interface.OneCharacterOff | crates/common/src/interface/mod.rs:24-26 | matching is exact string equality: a tag that differs from the interface version in one position never matches |
| Interface.WrapErrorFrom | crates/common/src/interface/mod.rs:74-84 | converting a string gives the `Other` error carrying exactly that message |
| Interface.PublisherNew | crates/common/src/interface/mod.rs:92-98 | the publisher keeps the given name and signer |
| Interface.PublisherFrom | crates/common/src/interface/mod.rs:101-117 | a publisher built from a name keeps that name and has no signer |
| ElementInterface.NewVersion | crates/common/src/interface.rs:9-11 | the host's own version matches its own version |
| ElementInterface.FromStr | crates/common/src/interface.rs:13-15 | parsing keeps the tag; the result matches exactly when the tag equals the element interface version |
| ElementInterface.MatchesOwnIffHostVersion | crates/common/src/interface.rs:18-27 | matches exactly the host's version; converting to a string and parsing again gives the same version back |
| ElementInterface.NewPacket | crates/common/src/interface.rs:48-55 | a new signal packet carries the host's version and the given payload unchanged |
| ElementInterface.PublisherNew | crates/common/src/interface.rs:100-107 | the publisher keeps the given name and signer |
| ElementInterface.PublisherFrom | crates/common/src/interface.rs:109-125 | a publisher built from a name keeps that name and has no signer |
| MemoryBridge.MemSlice | src/wrap/loader.rs:42-50 | succeeds exactly when `upper` is within memory, and then yields the bytes at `lower..upper`; otherwise it fails with a shortfall of `upper - len` bytes |
| MemoryBridge.MemSliceMutAsWritten | src/wrap/loader.rs:33-40 | as written: it fails with the shortfall exactly when `lower` is past the end; otherwise the window starts at `lower` and ends at `len - lower`, and inputs where that slice would panic are excluded |
| MemoryBridge.MemSliceMut | src/element/loader.rs:32-39 | corrected: it fails with a positive shortfall exactly when `lower` is past the end; otherwise the window runs from `lower` to the end of memory |
| MemoryBridge.MemSliceMutAtZero | src/wrap/loader.rs:130-131 | at offset 0, the version as written and the corrected version give the same whole-memory window |
| MemoryBridge.MemSliceMutAsWrittenLosesBytes | src/element/loader.rs:130-131 | at any offset `lower > 0` where the written version does not panic, its window ends `lower` bytes before the corrected one |
| MemoryBridge.MemSliceMutAsWrittenPanicWitness | src/element/loader.rs:130-131 | in one 64 KiB page at offset 40000 (after a 40000-byte signal), the written slice would run from 40000 to 25536, where the source panics; the corrected window is 40000..65536 |
| MemoryBridge.Unpack | src/wrap/loader.rs:153-155 | the length (low half) and the pointer (high half) each fit in 32 bits and recombine into the word |
| WrapLoader.ReadReplyBounds | src/wrap/loader.rs:151-168 | an out-of-range reply gives `MemoryTooSmall` with the shortfall; an in-range reply is decoded from exactly that window, and a decoded guest error becomes a `WrapError` |
| WrapLoader.SendSignalRequestLayout | src/wrap/loader.rs:129-145 | an encoding larger than memory fails with `EncodeFailed` and no call, the memory kept as it was; otherwise it is written at offset 0 with the rest of memory kept, and `signal` is called with the query id, 0 and the encoded length |
| WrapLoader.ReadReplyOkIsDecodedWindow | src/wrap/loader.rs:151-168 | a successful reply is the decoded value of the packed window |
| WrapLoader.SendSignalOkIsReply | src/wrap/loader.rs:121-169 | a successful signal is a guest call that returned, followed by a successful reply read |
| WrapLoader.FromBytesGate | src/wrap/loader.rs:55-111 | loading fails, in this order, on invalid wasm, a missing `signal` export, undecodable metadata, then an interface version mismatch; a loaded wrap's version matches the host |
| WrapLoader.VersionGate | src/wrap/loader.rs:102-107 | a wrap whose metadata decodes is rejected exactly when its version does not match the host |
| WrapLoader.GetWrapKey | src/wrap/loader.rs:246-257 | home-screen wraps share one key; mimetype wraps are keyed by their mimetype; all others by type and name |
| WrapLoader.SameKeyIff | src/wrap/loader.rs:246-257 | two metadata records share a key exactly when both are home screens, or both are mimetype wraps for the same mimetype, or their type and name agree |
| WrapLoader.LoadedWrap.constructor | src/wrap/loader.rs:85-91 | the temporary wrap holds a fresh copy of the module's memory, the guest call, and no metadata yet |
| WrapLoader.LoadedWrap.WriteRequest | src/wrap/loader.rs:131-134 | an encoding that fits is written at offset 0 and the rest of memory is unchanged |
| WrapLoader.LoadedWrap.ReadReplyFromMemory | src/wrap/loader.rs:147-168 | the reply read from memory is the specification's reply for that word and memory |
| WrapLoader.LoadedWrap.SendSignal | src/wrap/loader.rs:121-169 | the result and the new guest memory are those of the signal specification |
| WrapLoader.FromBytes | src/wrap/loader.rs:55-111 | it fails exactly when the load specification fails, with the same error; otherwise a fresh wrap with the specification's metadata and memory, which passes the version gate |
| WrapLoader.Wraps.constructor | src/wrap/loader.rs:199-206 | the registry starts with no loaded wraps and no known sources |
| WrapLoader.Wraps.Load | src/wrap/loader.rs:219-244 | a failure changes nothing; a success registers a new wrap under its key, replacing any previous occupant, and records the source's key; the stored wrap has the loaded metadata, the module's own `signal` export, and its memory after the handshake and the test ping |
| WrapLoader.Wraps.LoadFromPath | src/wrap/loader.rs:214-217 | an unreadable file gives `FileNotFound`; otherwise it succeeds exactly when the file loads, and a success leaves the registry as `Load` of the file's contents does; any failure changes nothing |
| WrapLoader.Wraps.Unload | src/wrap/loader.rs:263-270 | the source is forgotten; the call succeeds exactly when the source was known and a wrap was loaded under its key, and removes that key |
| WrapLoader.Wraps.Signal | src/wrap/loader.rs:272-282 | no registration changes; an absent key gives `WrapDoesNotExist`; otherwise the result is the signal specification for that wrap |
| WrapLoader.HomeScreenReplacement | src/wrap/loader.rs:239-252 | after loading two home-screen wraps, the home-screen key holds the second: its metadata, its `signal` export and its memory, so a later `Signal` to that key is answered by the second wrap |
| ElementLoader.WriteAt | src/element/loader.rs:120-134 | writing puts the bytes at the offset and leaves every other byte unchanged |
| ElementLoader.RequestLayout | src/element/loader.rs:118-144 | the signal is written at 0; the packet, carrying the host version and a pointer to `0..signal size`, is written right after it; `__signal` is then called with that packet's window |
| ElementLoader.SendSignalAsWrittenAgrees | src/element/loader.rs:113-144 | when twice the signal size plus the packet size fits in memory, the source's packet window and the corrected one give the same result and the same memory |
| ElementLoader.SendSignalAsWrittenDiverges | src/element/loader.rs:113-144 | when signal and packet fit but not with the signal's size to spare, the corrected version calls the guest, while the source's version panics (signal longer than the memory after it) or fails with `EncodeFailed` after writing only the signal |
| ElementLoader.ReplyVersionCheckedFirst | src/element/loader.rs:160-170 | a reply packet whose version does not match is rejected before its payload is read |
| ElementLoader.PayloadHandling | src/element/loader.rs:172-179 | the payload is the window at the packet's pointer and length; if the window falls outside memory the read fails with the shortfall |
| ElementLoader.NoVersionGateAtLoad | src/element/loader.rs:92-100 | any `Metadata` answer is accepted, whatever its version, so loading can only fail afterwards, at the ping |
| ElementLoader.LoadedElement.constructor | src/element/loader.rs:84-90 | the temporary element holds a fresh copy of the module's memory, the guest call, and no metadata yet |
| ElementLoader.LoadedElement.Write | src/element/loader.rs:120-134 | the bytes are placed at the offset and every other byte is unchanged |
| ElementLoader.LoadedElement.ReadReplyFromMemory | src/element/loader.rs:146-170 | the packet read back is the specification's reply for that word and memory |
| ElementLoader.LoadedElement.ReadPayloadFromMemory | src/element/loader.rs:172-181 | the payload read is the specification's payload for that packet and memory |
| ElementLoader.LoadedElement.SendSignal | src/element/loader.rs:113-182 | the result and the new guest memory are those of the element signal specification |
| ElementLoader.FromBytes | src/element/loader.rs:54-103 | it fails exactly when the load specification fails, with the same error; otherwise a fresh element with the metadata and memory of the handshake |
| ElementLoader.FileStem | src/element/loader.rs:241-247 | there is a stem exactly when the path names a file; the stem is the file name cut before its last '.', or the whole name when its only '.' is the first character or it has none |
| ElementLoader.TrailingComponentsIgnored | src/element/loader.rs:241-247 | a trailing '/' or a trailing "." component does not change the file a path names |
| ElementLoader.FileStemOfWasmPath | src/element/loader.rs:241-247 | the stem of `dir/name.wasm` is `name`, also with a trailing '/' or "/." |
| ElementLoader.Elements.constructor | src/element/loader.rs:207-211 | the registry starts empty |
| ElementLoader.Elements.Load | src/element/loader.rs:218-239 | it succeeds exactly when the load specification does (load, then ping); a failure changes nothing; a success registers a new element under its metadata name, replacing any previous one, with the module's own `signal` export and its memory after the handshake and the ping |
| ElementLoader.Elements.LoadFromPath | src/element/loader.rs:213-216 | an unreadable file gives `FileNotFound`; otherwise it succeeds exactly when the file loads, and a success leaves the registry as `Load` of the file's contents does; any failure changes nothing |
| ElementLoader.Elements.Unload | src/element/loader.rs:252-260 | it succeeds exactly when the name is registered, and then removes exactly that name |
| ElementLoader.Elements.UnloadFromPath | src/element/loader.rs:241-250 | it behaves as `Unload` on the path's file stem |
| GuestRouter.ToSnakeCaseAndRemoveLast | crates/macros/src/lib.rs:39-62 | the loop's result is the snake-case conversion, cut at the last underscore when there is one |
| GuestRouter.SnakeHasNoUpper | crates/macros/src/lib.rs:41-53 | a snake-case name contains no upper-case letter |
| GuestRouter.SnakeConcat | crates/macros/src/lib.rs:41-53 | converting a concatenation gives the concatenation of the conversions |
| GuestRouter.SnakeOfWord | crates/macros/src/lib.rs:41-53 | a capitalised word becomes an underscore followed by the lowered word |
| GuestRouter.SnakeOfTail | crates/macros/src/lib.rs:41-53 | a lower-case tail is left unchanged |
| GuestRouter.SnakeOfCamel | crates/macros/src/lib.rs:41-53 | a camel-case name of capitalised words becomes its lowered words joined by underscores |
| GuestRouter.CamelNameDropsLastWord | crates/macros/src/lib.rs:39-62 | a one-word name is only lowered; a longer one loses its last word and joins the rest with underscores |
| GuestRouter.TruncateJoined | crates/macros/src/lib.rs:57-59 | cutting a joined name at its last underscore drops exactly its last word |
| GuestRouter.CommonQueryHandlerName | crates/macros/src/lib.rs:96-101 | the `CommonQuery` handler is `common_query` |
| GuestRouter.HomescreenQueryHandlerName | crates/macros/src/lib.rs:96-101 | the `HomescreenQuery` handler is `homescreen_query` |
| GuestRouter.MimetypeQueryHandlerName | crates/macros/src/lib.rs:96-101 | the `MimetypeQuery` handler is `mimetype_query` |
| GuestRouter.TwoWordHandler | crates/macros/src/lib.rs:96-101 | for a query type named by two capitalised words, the handler is the first word lowered, followed by `_query` |
| GuestRouter.ArmOutcomes | crates/macros/src/lib.rs:103-113 | an arm answers `Ok` exactly when the request decodes and the handler's response encodes, with that encoding; a decode failure gives `DecodeFailed`, and an encode failure gives `EncodeFailed` |
| GuestRouter.Dispatch | crates/macros/src/lib.rs:138-142 | an id that no arm declares gives `UnsupportedInterface` with that id |
| GuestRouter.DispatchFirstMatch | crates/macros/src/lib.rs:138-142 | the first arm declared for the id is the one that answers |
| GuestRouter.PackUnpack | crates/macros/src/lib.rs:150-156 | the host's unpack of a packed word gives the low 32 bits of the length and of the pointer, so both come back whole when they fit in 32 bits |
| GuestRouter.UnpackPack | crates/macros/src/lib.rs:150-156 | packing the halves of an unpacked word gives the word back |
| GuestRouter.HostReadsPlacedOutput | crates/macros/src/lib.rs:144-156 | the host's reply for a placed output is the decoded output: its decode error, the guest's error, or the response |
| GuestRouter.PlacedWindow | crates/macros/src/lib.rs:150-156 | the packed word unpacks to the output's length and pointer, and that window of memory holds exactly the output |
| GuestRouter.UnknownIdReachesHost | crates/macros/src/lib.rs:138-148 | an unknown query id reaches the host as an `UnsupportedInterface` error |
| GuestRouter.Metadata | crates/macros/src/lib.rs:159-170 | the generated metadata carries the host's interface version, the crate's name, version and description, and the declared wrap type and publisher |
| GuestRouter.CommonQuery | crates/macros/src/lib.rs:172-179 | `AskMetadata` is answered with the metadata; any other query goes to the user's arms, or gives `UnsupportedSignal` when they have none for it |
| GuestRouter.GeneratedWrapPassesVersionGate | crates/macros/src/lib.rs:159-170 | a wrap that answers the handshake with the generated metadata loads, with that metadata |
| LauncherState.PromoteSpec | crates/launcher/src/state.rs:106-119 | promotion pops a prefix of the queue and starts exactly the tasks in it, in order, until the queue is empty or three tasks are active, never more than three |
| LauncherState.Blank | crates/launcher/src/state.rs:94-98 | every slot holding that task becomes empty and every other slot is kept |
| LauncherState.Without | crates/launcher/src/state.rs:68-70 | no remaining task has the handle, and every remaining task was in the list |
| LauncherState.WithoutRemovesOne | crates/launcher/src/state.rs:68-70 | with distinct handles, removing one handle removes exactly that task and keeps the others in order |
| LauncherState.WithoutAbsent | crates/launcher/src/state.rs:68-70 | removing an absent handle changes nothing |
| LauncherState.Activate | crates/launcher/src/state.rs:113-114 | the tasks are started in order under consecutive handles |
| LauncherState.State.constructor | crates/launcher/src/state.rs:34-46 | the state starts with an empty queue, no active tasks, and the receiver still present |
| LauncherState.State.ProcessQueue | crates/launcher/src/state.rs:106-119 | after initiation nothing changes; before it, the queue and active list become what promotion specifies, leaving the queue empty or three tasks active; three is never exceeded |
| LauncherState.State.PopFront | crates/launcher/src/state.rs:109-116 | the front slot leaves the queue; a task in it becomes active under the next handle |
| LauncherState.State.EnqueueTask | crates/launcher/src/state.rs:85-103 | earlier copies of the new task are blanked and it is appended; before initiation the queue is then promoted |
| LauncherState.State.Initiate | crates/launcher/src/state.rs:48-83 | the receiver is taken, so the state becomes initiated, and the queue and active tasks are unchanged |
| LauncherState.State.OnCompleted | crates/launcher/src/state.rs:62-73 | the tasks with the completed handle leave the active list; after initiation the queue is untouched; before it the queue is then promoted into the freed places, so it ends empty or with three tasks active |
| LauncherState.BlankThenAppendNoDuplicates | crates/launcher/src/state.rs:94-100 | after blanking and appending, no task is queued twice and the new task is held only by the last slot |
| LauncherState.WithoutKeepsDistinct | crates/launcher/src/state.rs:68-70 | removing a handle keeps handles distinct, and every remaining task was in the list |
| BuildLog.StepGate | crates/launcher/src/task/cargo/build_wraps.rs:87 | once the count has reached the total, a line changes nothing and sends nothing |
| BuildLog.StepSendsIff | crates/launcher/src/task/cargo/build_wraps.rs:88-111 | below the total, an update is sent exactly when a compile was pending, or the line is `Fresh` (and not `Compiling`), or the line is `Finished` |
| BuildLog.StepPendingCounted | crates/launcher/src/task/cargo/build_wraps.rs:92-96 | a pending compile counts as one finished crate when any other line arrives, and is cleared |
| BuildLog.StepPrefixes | crates/launcher/src/task/cargo/build_wraps.rs:98-107 | below the total, `Compiling` makes a compile pending, `Fresh` counts one crate, and `Finished` sets the count to the total, each after counting the pending compile |
| BuildLog.StepBounds | crates/launcher/src/task/cargo/build_wraps.rs:87-107 | the count never goes down, and from at most the total plus one it stays there |
| BuildLog.CountCanOvershoot | crates/launcher/src/task/cargo/build_wraps.rs:87-102 | the count is not capped: with a total of 1, a pending compile followed by `Fresh` reaches 2 |
| BuildLog.RunBounds | crates/launcher/src/task/cargo/build_wraps.rs:81-112 | over any stream the count never goes down and stays within the total plus one |
| BuildLog.RunFrozen | crates/launcher/src/task/cargo/build_wraps.rs:87 | once the total is reached, no later line changes the state or sends an update |
| BuildLog.FinishedEndsCount | crates/launcher/src/task/cargo/build_wraps.rs:104-107 | a `Finished` line below the total sets the count to the total for good, with one update |
| BuildLog.StatusTextInjective | crates/launcher/src/task/cargo/build_wraps.rs:119 | the status text `Completed a/b` determines both numbers |
| BuildWrapsTask.Inner.StartTask | crates/launcher/src/task/cargo/build_wraps.rs:19-28 | a new task keeps its handle, with no error, an empty log, a zero total and count, and nothing pending |
| BuildWrapsTask.Inner.GetStatus | crates/launcher/src/task/cargo/build_wraps.rs:117-132 | the status carries the handle, the title, the error and the text `Completed count/total` |
| BuildWrapsTask.Inner.Initiate | crates/launcher/src/task/cargo/build_wraps.rs:44-60 | a failed dependency count records its error and sends nothing; otherwise the total is set and the first status is sent, and a failed spawn records its error |
| BuildWrapsTask.Inner.HandleLine | crates/launcher/src/task/cargo/build_wraps.rs:81-112 | the count and pending flag take one step of the rule; a status is sent exactly when the step says so; the trimmed line is logged |
| BuildWrapsTask.Inner.HandleStream | crates/launcher/src/task/cargo/build_wraps.rs:71-115 | after the stream the state is the rule run over every line, as many statuses are sent as the run's updates, and every trimmed line is logged |
| BuildWrapsTask.CountWithinOneAboveTotal | crates/launcher/src/task/cargo/build_wraps.rs:87-107 | from the start state, whatever the output, the count never exceeds the total plus one |
| LoaderWrapProgress.WrapLoader.NewBoxed | crates/launcher/src/loader/wrap.rs:29-38 | a created monitor has the dependency count as its total; a failed one has total 0 and the error; both start at zero with an empty log |
| LoaderWrapProgress.WrapLoader.GetStatus | crates/launcher/src/loader/wrap.rs:116-132 | the status carries the title, the error and the text `Completed count/total` |
| LoaderWrapProgress.WrapLoader.ReadLine | crates/launcher/src/loader/wrap.rs:50-81 | one line is one step of the rule, notifying exactly when the step sends; the trimmed line is logged |
| LoaderWrapProgress.WrapLoader.ReadLines | crates/launcher/src/loader/wrap.rs:49-83 | after reading, the state is the rule run over every line, with as many notifications as the run's updates |
| LoaderWrapProgress.FailedMonitorIsInert | crates/launcher/src/loader/wrap.rs:29-38 | a monitor whose creation failed, with total 0, never counts or notifies, whatever it reads |
| LoaderCommand.PackageArgsLayout | crates/loader/src/command.rs:20-24 | each package adds `-p` followed by its name, in order |
| LoaderCommand.CargoCommand.New | crates/loader/src/command.rs:8-13 | the command runs `cargo` with the subcommand as its only argument |
| LoaderCommand.CargoCommand.Args | crates/loader/src/command.rs:15-18 | the arguments are appended in order |
| LoaderCommand.CargoCommand.Packages | crates/loader/src/command.rs:20-24 | the package arguments are appended in order |
| LoaderCommand.PackageDependencyCount | crates/loader/src/command.rs:42-53 | the result is the number of distinct dependency names in the tree output |
| LoaderCommand.DependenciesMembers | crates/loader/src/command.rs:48-51 | a name is counted exactly when it is the trimmed form of some line that does not end in the `(*)` marker |
| LoaderCommand.CountAtMostLines | crates/loader/src/command.rs:42-53 | the count is at most the number of lines |
| LoaderCommand.RepeatedLineCountsOnce | crates/loader/src/command.rs:41-51 | a dependency listed twice is counted once |
| LoaderCommand.BlankLineCountsAsEmpty | crates/loader/src/command.rs:48-50 | a line of spaces passes the filter and counts as the empty name |
| LoaderCommand.MarkerBeforeTrailingSpace | crates/loader/src/command.rs:48 | the marker is looked for before trimming, so a marker followed by a space is counted, with the marker |
| Mdast.ChildrenToString | wraps/mimetypes/markdown/src/mdast.rs:121-135 | the result is the non-empty renderings of the children, joined by single spaces |
| Mdast.EmptyChildAddsNothing | wraps/mimetypes/markdown/src/mdast.rs:121-135 | a child that renders as empty does not change the result |
| Mdast.TwoChildren | wraps/mimetypes/markdown/src/mdast.rs:121-135 | two non-empty children render as their texts with one space between them |
| Mdast.FindTitle | wraps/mimetypes/markdown/src/mdast.rs:42-50 | there is a title exactly when a depth-1 heading exists, and it is the string of the first one |
| Mdast.FirstHeadingWins | wraps/mimetypes/markdown/src/mdast.rs:42-51 | the title is the string of the first depth-1 heading, whatever follows |
| MarkdownWrap.FromHeaderDepth | wraps/mimetypes/markdown/src/mdast.rs:14-23 | depths 1 to 5 step down from 30 by 3 points each; any other depth gets the H6 size |
| MarkdownWrap.HeadingSizesOrdered | wraps/mimetypes/markdown/src/mdast.rs:6-23 | a deeper heading is never larger, strictly smaller up to depth 6, and smaller than paragraph text exactly from depth 6 |
| MarkdownWrap.TextSpansAppend | wraps/mimetypes/markdown/src/mdast.rs:137-161 | the spans of a child list are the concatenation of each child's spans |
| MarkdownWrap.TextSpansInherit | wraps/mimetypes/markdown/src/mdast.rs:137-161 | every span has no colour, the inherited style or italic, and the inherited weight or bold |
| MarkdownWrap.NodeSpansInherit | wraps/mimetypes/markdown/src/mdast.rs:140-157 | the same holds for the spans of one node |
| MarkdownWrap.StrongEmphasisCommute | wraps/mimetypes/markdown/src/mdast.rs:147-156 | strong inside emphasis and emphasis inside strong give the same spans |
| MarkdownWrap.PlainText | wraps/mimetypes/markdown/src/mdast.rs:141-146 | a text node gives one span carrying its text, with no colour and the inherited style and weight |
| MarkdownWrap.NodeToText | wraps/mimetypes/markdown/src/mdast.rs:65-118 | only headings and paragraphs convert, to black text of line height 1.5 (headings semi-bold at their depth's size, paragraphs normal at 16); every other kind is `<Kind> not implemented` |
| MarkdownWrap.TextWeights | wraps/mimetypes/markdown/src/mdast.rs:79-96 | heading spans are semi-bold and paragraph spans normal, unless bolded, and none has a colour |
| MarkdownWrap.CollectTexts | wraps/mimetypes/markdown/src/mdast.rs:53-57 | it succeeds exactly when every child converts, with one text per child in order; otherwise it gives the first failing child's error |
| MarkdownWrap.RootToDimension | wraps/mimetypes/markdown/src/mdast.rs:41-63 | it succeeds exactly when every child is a heading or paragraph, with the title and one canvas holding each child's text in order; otherwise it fails on the first other child |
| MarkdownWrap.TitledDocument | wraps/mimetypes/markdown/src/mdast.rs:41-63 | a depth-1 heading followed by a paragraph gives the heading's string as title and texts at the H1 and paragraph sizes |
| MarkdownElement.NodeToEntities | elements/mimetypes/markdown/src/mdast.rs:28-70 | every node kind, headings and paragraphs included, gives `<Kind> not implemented` |
| MarkdownElement.CollectEntities | elements/mimetypes/markdown/src/mdast.rs:16-23 | it succeeds exactly when every child converts; otherwise it gives the first failing child's error |
| MarkdownElement.CollectEntitiesConcat | elements/mimetypes/markdown/src/mdast.rs:20-23 | collecting a concatenation gives the concatenation of the collections |
| MarkdownElement.RootToDimension | elements/mimetypes/markdown/src/mdast.rs:4-26 | a successful conversion carries the title of the first depth-1 heading |
| MarkdownElement.OnlyEmptyRootConverts | elements/mimetypes/markdown/src/mdast.rs:4-70 | only an empty root converts, to an untitled (`None`) dimension with no children; any other root fails with its first child's error |
| Canvas.ChunkOrder | src/canvas/mod.rs:137-147 | each output position takes one of the four input bytes |
| Canvas.ChunkOrderIsPermutation | src/canvas/mod.rs:137-147 | on either byte order, each input byte goes to exactly one output position |
| Canvas.ChunkToRgba | src/canvas/mod.rs:137-147 | a pixel's four output bytes are its input bytes in the chosen order |
| Canvas.ChunkToRgbaCorrect | src/canvas/mod.rs:137-147 | on either byte order, Cairo's native-endian ARGB pixel becomes red, green, blue, alpha |
| Canvas.PixelsToRgba | src/canvas/mod.rs:327-334 | the output is the input's length rounded down to whole pixels |
| Canvas.PixelsToRgbaAt | src/canvas/mod.rs:327-334 | byte i of output pixel k is the byte of input pixel k that the chunk order picks |
| Canvas.SurfaceToImage | src/canvas/mod.rs:318-334 | a Cairo surface of pixels, with any trailing partial pixel, becomes the RGBA image of the same pixels |
| Canvas.ChunkOrders | src/canvas/mod.rs:137-147 | the little-endian conversion undoes itself; the big-endian one is a rotation that returns after four applications |
| Canvas.ToPangoWeight | src/canvas/mod.rs:210-225 | the Pango weight stands for the same number, and is `Unknown` exactly for the weights the canvas does not name |
| Canvas.WeightInjective | src/canvas/mod.rs:210-225 | different span weights give different Pango weights |
| Canvas.ToPangoStyle | src/canvas/mod.rs:226-230 | the Pango style maps back to the span's style |
| Canvas.StyleBijective | src/canvas/mod.rs:226-230 | the style mapping is one-to-one and onto |
| Canvas.Shift | src/canvas/mod.rs:246-248 | each grapheme becomes the byte range at its offset past the span's start |
| Canvas.MergeEmoji | src/canvas/mod.rs:246-261 | the loop produces the specification's merge of the shifted emoji ranges |
| Canvas.MergeLast | src/canvas/mod.rs:246-261 | the merged ranges end where the last grapheme ends |
| Canvas.MergeWellFormed | src/canvas/mod.rs:246-261 | merged ranges never end before they start |
| Canvas.MergeCovers | src/canvas/mod.rs:246-261 | the merged ranges cover exactly the bytes the graphemes cover |
| Canvas.MergeSeparates | src/canvas/mod.rs:246-261 | for graphemes in order, each merged range starts strictly after the previous one ends |
| Canvas.MergeWithin | src/canvas/mod.rs:246-261 | merged ranges stay within any bounds the grapheme ranges respect |
| Canvas.StepCovers | src/canvas/mod.rs:250-258 | one fold step covers what the ranges so far cover plus the new range |
| Canvas.Utf8Len | src/canvas/mod.rs:198 | a string's UTF-8 length is between one and four bytes per character |
| Canvas.Utf8LenAppend | src/canvas/mod.rs:197-198 | byte length adds up over concatenation |
| Canvas.SpanStartIsPrefixLength | src/canvas/mod.rs:188-198 | a span starts at the byte length of the text before it |
| Canvas.LayoutSpans | src/canvas/mod.rs:185-277 | the loop builds the concatenated text, ends at its UTF-8 length, and sets exactly the specified attributes: the default colour, then per span its colour override, font and emoji ranges |
| Canvas.EmojiAttrsWithin | src/canvas/mod.rs:263-274 | the emoji attributes of ranges inside a bound stay inside it |
| Canvas.SpanAttrsWithin | src/canvas/mod.rs:200-274 | every attribute of a span ends no later than the span does |
| Canvas.AttributesWithin | src/canvas/mod.rs:188-277 | after n spans every attribute ends no later than the start of span n |
| Canvas.AttributesInsideText | src/canvas/mod.rs:188-277 | every attribute of the finished list ends inside the whole text |
| TestElement.Bumped | elements/test/src/lib.rs:8-12 | a byte is increased by its position plus one, modulo 256 |
| TestElement.Signal | elements/test/src/lib.rs:1-16 | byte k of the buffer is raised by k + 1 modulo 256, bytes outside the buffer are unchanged, and the length is returned |
| TestElement.IncrementCycles | elements/test/src/lib.rs:8-11 | positions 256 apart get the same increment |
| TestElement.NoWrapWhenSmall | elements/test/src/lib.rs:8-12 | when the sum stays below 256, byte k is raised by exactly k + 1 |
| Bytes.WrappingAdd | elements/test/src/lib.rs:11 | adding two bytes and dropping the carry out of the top bit gives the sum modulo 256 |
| Text.LastIndexOf | crates/macros/src/lib.rs:57 | the result is the last occurrence of the character, or none when the character is absent |
| Text.TrimIsCore | crates/loader/src/command.rs:50 | the trimmed text is a slice of the input with only whitespace before and after it, and it neither starts nor ends with whitespace |
| Text.TrimIdempotent | crates/launcher/src/task/cargo/build_wraps.rs:81 | trimming twice is the same as trimming once |
| Text.Lower | crates/macros/src/lib.rs:46 | the result is never upper case, and it differs from the input exactly when the input is upper case |
| Text.NatToStringRoundTrip | crates/launcher/src/task/cargo/build_wraps.rs:119 | reading back the decimal digits of a number gives the number |

## Left out

- WebAssembly compilation, instantiation and calls (wasmer): modelled as an oracle. The engine
  either rejects the bytes (`InvalidWasm`) or yields an instantiated module with its memory. The
  source's `expect` panics on memory allocation and instantiation failure are not modelled.
- bincode: modelled as an oracle codec. `encode_into_slice` fails when the encoding does not fit in
  its window. The bytes it writes into the window before it fails are not modelled: the model keeps
  the memory as it was.
- Paths, the file system and URLs: a file is given as its contents, and the source URL is an opaque
  value. The panics of `path_to_url` on canonicalization are not modelled.
- The file watchers (src/wrap/file_watcher.rs and src/element/file_watcher.rs): they are channel
  plumbing, and their directory load is commented out.
- tokio, tauri, threads, `Mutex` and channels: each operation runs alone. A channel send is modelled
  as a returned status or a counted notification.
- Pango, Cairo and ECS rendering, beyond the byte conversion and the attribute layout.
- The markdown parser and `Node::to_string`: the rendering of a node is a `render` parameter.
- Grapheme segmentation and emoji detection: these are inputs to the canvas layout.
- The `syn` and `quote` parsing in the guest macro: a wrap definition is given as its parts.
- The utf-8 `expect` panic in the `cargo tree` parser (crates/loader/src/command.rs:44-45): the
  output is given as lines of text.
- The wrap registry's ping result: the source only logs it, so the model ignores it.
- Entities are modelled as ids.
- UUID task handles are modelled as a counter, which keeps them distinct.
- Floats are not modelled: `done_ratio`/`doing_ratio`, `get_foreground`
  (src/canvas/mod.rs:129-135), `on_canvas_change` (src/canvas/mod.rs:359-388) and the line spacing.
- BuildWrapsTask.Inner.GetStatus: leaves out the float ratios of the status.
- LoaderWrapProgress.WrapLoader.GetStatus: leaves out the float ratios of the status.
- LauncherState.State.ProcessQueue: requires that every task it would start is a cargo task,
  because starting a `CompileWrap` task hits `unimplemented!` (crates/launcher/src/task/mod.rs:42).
  EnqueueTask and OnCompleted carry the same requirement.
- ElementLoader.FromBytes: requires the module to export `signal`, because the source panics when
  it does not (src/element/loader.rs:79-82). Elements.Load and Elements.LoadFromPath carry the
  same requirement.
- LoaderCommand.CargoCommand.New: the working directory is not modelled.
- Interface.NewVersion: the interface version is a fixed stand-in string, because the real one is
  the package version injected at build time. No lemma depends on its text.
- Text.Lower: covers ASCII letters only; Unicode case mapping is not modelled.
- ElementLoader.FileStem: handles only '/'-separated paths; empty and "." components are skipped and
  a final ".." names no file, as `Path::file_name` does, but a non-UTF-8 name is not modelled.
- ElementLoader.LoadedElement.SendSignal: writes the packet into the corrected window, from the
  signal's end to the end of memory. The source's window ends `size` bytes earlier; that version is
  ElementLoader.SendSignalSpecAsWritten, and ElementLoader.SendSignalAsWrittenAgrees and
  ElementLoader.SendSignalAsWrittenDiverges say where the two agree and where they differ.
  ElementLoader.RequestLayout describes the corrected version.
- Canvas.LayoutSpans: span offsets are unbounded, so u32 overflow of the attribute indices is not
  modelled.
- ElementLoader.LoadedElement.ReadPayloadFromMemory: pointer plus length is unbounded, so overflow
  is not modelled.
- GuestRouter.PlacedWindow: requires the reply to be shorter than 2^32 bytes and to lie below 2^32.
  For longer buffers the source's masking truncates the length, and that case is not modelled.
- TestElement.Signal: uses u8 wrapping addition, as a release build does; a debug build would
  panic on overflow instead.

## Findings

| source | as written | input that shows it | evidently intended | confidence | as-written member | corrected member |
|---|---|---|---|---|---|---|
| src/element/loader.rs:32-39 | `mem_slice_mut` takes the window `lower..max - lower` | one 64 KiB page with the packet written after a 40000-byte signal asks for the slice 40000..25536, which panics; at any offset `lower > 0` the window is `lower` bytes short, so a packet that fits after the signal can still fail to encode | the window `lower..max` | not executed | MemoryBridge.MemSliceMutAsWritten | MemoryBridge.MemSliceMut |
