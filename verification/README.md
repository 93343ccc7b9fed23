# Verified model of the MiniLang compiler's cache codec, declaration view and media bridge

The project models five parts of the MiniLang compiler repository and proves what they are for.

1. **The cache record codec** (`mlc/cache_codec.ml`). `MiniLang.dfy` has the dynamic values and the
   61-bit integer operators; `CodecSpec.dfy` the byte format and the images a reader may accept;
   `CodecWriter.dfy` and `CodecReader.dfy` the encoder and the decoder as classes that change their
   buffers, counters and flags in place; `CodecDecode.dfy` the function that the reader refines, and
   the theorems about whole records. Acceptance is kept apart from the value, because
   `decodeRecord` answers void both for a rejected record and for an encoded void.
2. **The declaration view** (`tools/generate_incremental_ast.py` and visitors of the kind it
   emits). `AstProjection.dfy` says what is written for a program under any schema of node kinds
   and any choice of the fields a visitor writes, when there is a record, what erasure means and
   which edits a record shows; `AstVisitor.dfy` is the visitor, writing through the shared
   encoder. Claims are about the bytes before hashing.
3. **The media bridge's event queues** (`native/video/linux/minilang_video.c`,
   `native/video/windows/minilang_video.cpp`). `EventQueue.dfy` is one abstract drop-oldest queue
   with its run-level accounting; `LinuxBridge.dfy` and `WindowsBridge.dfy` are the two rings, with
   the calls and messages that move each player's state.
4. **The Windows callbacks**. `NotifyTeardown.dfy` is a state machine over the atomic steps of
   unboundedly many media threads and one API thread: shared and exclusive lock, owner pointer,
   reference counts, engine and player lifetime, over any number of attaches. `PlayerSteps.dfy` is
   the state machine of what happens inside the player: the check, the store and the push of any
   number of callbacks, interleaved with the stores and the push of play, pause, stop, attach and
   close.
5. **Three loops**: relocation folding with the blob refresh (`Relocations.dfy`), the stable
   in-place sort (`StableSort.dfy`) and the process-tree fixpoint (`ProcessTree.dfy`).

Reading conventions. A string is its payload bytes. An integer is a signed 61-bit number; `>>`
is arithmetic and `<<` wraps (`mlc/codegen/codegen_expr.ml:3927-3960`). `count > (len - pos) / 2` is
read as `2 * count > len - pos`. Native copies are sequence copies. The long branch of `read`, of
`write` and of the visitor is cut into one method per branch. A class's ghost field holds its
abstract value. In the codec an AST struct is a value without a primitive representation; in the
view it is a node whose fields follow the schema's declared order.

What the proofs brought out:

- An integer payload has 64 bits of which 61 are kept, so a record may differ from the canonical
  encoding in the top three bits of a payload's last byte and still be accepted (`DecodeSound`).
- The view identifies every program that conforms (`InterfaceExact`). Conformance is sufficient;
  that it is necessary is not claimed. It describes what the parser builds: parameters are name
  lists except in extern functions, a function body is a list, and the field behind it is a written
  flag (`mlc/minilang_parser.ml:533-563`, `mlc/minilang_parser.ml:983-985`). Some condition of the
  kind is needed: `BareStringsCollide` gives two trees with one record. The parser builds neither,
  since both have a string where a tree belongs.
- The visitor in the repository, `mlc/incremental_ast.ml`, is not what the generator makes of the
  parser's declarations today, although its head says so. It leaves out fifteen fields of a struct
  definition (`mlc/minilang_parser.ml:811-828`) and the bases of an interface
  (`mlc/minilang_parser.ml:844`), which the generator would write. `InterfaceExact` holds of either
  visitor with respect to what that visitor writes; `OmittedFieldsCollide` shows what the older one
  misses: two programs that differ only in `is_abstract`, say, have one record.
- On Windows the pause that carries out a stop can be reported as a pause: before the stop
  (`PauseBeforeStop`), since the engine is paused before STOPPED is stored, and after it
  (`PauseAfterStop`), since the callback checks for STOPPED in one step and stores PAUSED in
  another; the player is then paused. `PauseUnreported` says exactly when the check holds the report
  back.
- On Windows the events do not in general tell the state: callbacks can cross (`ReportsCross`), and
  open, attach, play, pause and close store without reporting (`ReadyThenLoading`).
  `LastStoreDecides` gives the exact condition, at the last store of a run.

## Model

| member | source | states |
|---|---|---|
| CodecSpec.IntRoundTrip | mlc/cache_codec.ml:59-65 | every 61-bit integer, negatives and both extremes included, survives writing eight shifted-and-masked bytes and reading them back with wraparound |
| CodecSpec.UnsignedRoundTrip | mlc/cache_codec.ml:159-167 | tags and lengths are exact while they fit their width |
| CodecSpec.IntPayload | mlc/cache_codec.ml:159-167 | an 8-byte payload decodes to n if and only if it is n's payload up to the top three bits of the last byte |
| CodecSpec.EncMatches | mlc/cache_codec.ml:84-113 | an encoding is a readable image of its value at whatever offset it is placed |
| CodecSpec.MatchUnique | mlc/cache_codec.ml:172-202 | the bytes at one position denote at most one value |
| CodecSpec.EncUnique | mlc/cache_codec.ml:84-113 | the code is self-delimiting: no encoding is a proper prefix of another value's, and what follows one is determined |
| CodecSpec.EncAllUnique | mlc/cache_codec.ml:104-108 | a concatenation of encodings parses in only one way |
| CodecWriter.DoublesWithinLimit | mlc/cache_codec.ml:45-48 | capacities stay 256 times a power of two and never pass 2^26 |
| CodecWriter.Writer.constructor | mlc/cache_codec.ml:33-36 | a new writer is valid and empty |
| CodecWriter.Writer.Ensure | mlc/cache_codec.ml:41-54 | growth keeps the written bytes and succeeds exactly while the total stays within 2^26, otherwise the record is given up for good |
| CodecWriter.Writer.AppendNumber | mlc/cache_codec.ml:59-65 | appends the low bytes of the number, or gives the record up and changes nothing |
| CodecWriter.Writer.AppendPayload | mlc/cache_codec.ml:70-79 | appends the payload, or gives the record up and changes nothing |
| CodecWriter.Writer.Write | mlc/cache_codec.ml:84-113 | the writer stays valid if and only if it was, everything in the value is supported and the total fits; it then holds the old bytes followed by the encoding |
| CodecWriter.Writer.WriteText | mlc/cache_codec.ml:95-102 | the same for the string and bytes branches, which differ in their tag |
| CodecWriter.Writer.WriteHeader | mlc/cache_codec.ml:96-97 | tag and length are appended together or the record is given up |
| CodecWriter.Writer.WriteArray | mlc/cache_codec.ml:104-108 | the same for the array branch and its item loop |
| CodecWriter.Writer.Finish | mlc/cache_codec.ml:117-120 | the written bytes when valid, nothing otherwise |
| CodecWriter.Encode | mlc/cache_codec.ml:124-128 | a record exists exactly for supported values of at most 2^26 bytes, and is their encoding |
| CodecReader.Reader.constructor | mlc/cache_codec.ml:206-208 | a new reader stands at the start, valid, with the whole node budget |
| CodecReader.Reader.Number | mlc/cache_codec.ml:159-167 | in bounds it returns the wrapped little-endian number and moves past it, otherwise it fails without moving |
| CodecReader.OrNextByte | mlc/cache_codec.ml:162-164 | or-ing in the next shifted byte with 61-bit wraparound is appending it to the number |
| CodecReader.Reader.Read | mlc/cache_codec.ml:172-202 | position, validity, node budget, claimed slots, call count and value all move as the decoding function says, on failing paths too |
| CodecReader.Reader.ReadTagged | mlc/cache_codec.ml:175-202 | the same for the branches on the tag |
| CodecReader.Reader.ReadArray | mlc/cache_codec.ml:188-199 | the same for the array branch: both count checks come before anything is claimed |
| CodecReader.Reader.ReadItems | mlc/cache_codec.ml:192-197 | the array is filled slot by slot and the first failure ends the loop |
| CodecReader.DecodeRecord | mlc/cache_codec.ml:206-212 | the value of an accepted record, void for any other, at a cost of at most 129/2 slots per byte and len/2 + 1 reads on any input |
| CodecDecode.Read | mlc/cache_codec.ml:172-202 | the position never decreases or passes the end, and the node budget strictly decreases on success |
| CodecDecode.ReadSound | mlc/cache_codec.ml:172-202 | an accepted tree is an image of the returned value, consumes its length, and costs one budget unit per node |
| CodecDecode.ReadComplete | mlc/cache_codec.ml:172-202 | an image within depth and node budget is never rejected |
| CodecDecode.DecodeExactly | mlc/cache_codec.ml:206-212 | a record decodes to v if and only if it is one whole image of v within the size, depth and node bounds |
| CodecDecode.RoundTrip | mlc/cache_codec.ml:84-128 | decode after encode gives the value back for exactly the finished values nested at most 128 deep with at most 2,000,000 nodes; for all others the record is rejected and the answer void |
| CodecDecode.Normalises | mlc/cache_codec.ml:206-212 | decode-then-encode keeps length and value and is idempotent |
| CodecDecode.SameValueSameNormalForm | mlc/cache_codec.ml:206-212 | accepted records decode alike if and only if they normalise alike |
| CodecDecode.DecodeSound | mlc/cache_codec.ml:172-212 | a record decodes to a value if and only if, byte for byte, it is the canonical encoding except in the top three bits of the last byte of integer payloads, within the size, depth and node bounds |
| CodecDecode.NoAcceptedExtension | mlc/cache_codec.ml:206-212 | of a byte string and a proper extension of it at most one is accepted |
| CodecDecode.VoidIsAmbiguous | mlc/cache_codec.ml:206-212 | the answer is void exactly for rejected input and for the two-byte record of void |
| CodecDecode.ReadCost | mlc/cache_codec.ml:186-199 | a failed read claims at most half the remaining bytes per open level, a successful one at most half of what it consumed |
| CodecDecode.DecodeCost | mlc/cache_codec.ml:206-212 | on any input, accepted or not, at most 129/2 array slots per byte are claimed and at most len/2 + 1 reads are made |
| CodecDecode.ReadCalls | mlc/cache_codec.ml:172-174 | every read past the budget check takes one unit of the budget, and every read but the first fills a slot claimed for it |
| AstVisitor.Write | tools/generate_incremental_ast.py:36-42 | the depth counter is restored; the writer stays valid exactly when the value is accepted within the remaining levels and fits, and then holds its view |
| AstVisitor.WriteNode | tools/generate_incremental_ast.py:48-57 | lists, nodes and plain values each write their view |
| AstVisitor.WriteStruct | mlc/incremental_ast.ml:41-60 | kind and file name come first; an unknown kind gives the record up |
| AstVisitor.WriteItems | tools/generate_incremental_ast.py:49-53 | the items in order, each within the same remaining levels |
| AstVisitor.WriteFields | tools/generate_incremental_ast.py:87-105 | the fields in declared order, with the body decision taken once per node; which bodies that keeps is KeptBodyShows and OrdinaryBodyInvisible |
| AstVisitor.WriteField | tools/generate_incremental_ast.py:88-104 | positions and bookkeeping are skipped, children visited, scalars encoded, and a kept body visited with nothing left out |
| AstVisitor.Interface | tools/generate_incremental_ast.py:113-117 | the bytes that are hashed exist exactly for accepted programs of at most 128 levels that fit the size limit |
| AstProjection.LevelsExact | mlc/incremental_ast.ml:15-22 | a supported value is accepted within a budget if and only if its visits nest no deeper |
| AstProjection.RecordExists | mlc/incremental_ast.ml:328-332 | there is a record if and only if every value the visitor reaches has a known kind and supported scalars, a float literal included, at most 128 visits nest and the view fits; erased bodies count for none of it |
| AstProjection.ViewOfErased | tools/generate_incremental_ast.py:45-109 | erasing a program changes neither its view nor its acceptance, and erasing twice is erasing once |
| AstProjection.SameErasureSameRecord | tools/generate_incremental_ast.py:87-96 | programs equal after erasure get the same answer, having no record included |
| AstProjection.ViewUnique | tools/generate_incremental_ast.py:45-109 | the view determines the erased value and where the view ends |
| AstProjection.BodyPresenceShows | tools/generate_incremental_ast.py:90-96 | whether a body was written cannot be mistaken, although the flags that decide it are written later |
| AstProjection.InterfaceExact | tools/generate_incremental_ast.py:36-117 | for any choice of written fields that includes the flags deciding a body: two conforming programs that have a record have the same one if and only if they are equal after erasing positions, bookkeeping, unwritten fields and ordinary function bodies |
| AstProjection.EraseReplace | tools/generate_incremental_ast.py:45-109 | an edit at any place the visitor walks changes the erased program if and only if it changes the erasure of the value there |
| AstProjection.EditShows | tools/generate_incremental_ast.py:36-117 | so it changes the record of a conforming program under exactly that condition |
| AstProjection.HiddenEditInvisible | tools/generate_incremental_ast.py:87-96 | editing a field that is not written, or the body of an ordinary function, never changes the record, at top level, in a method, in a namespace or wherever else the visitor walks |
| AstProjection.OrdinaryBodyInvisible | mlc/incremental_ast.ml:194-214 | for the parser's own function fields, followed by any bookkeeping: the body of a function that is not inline, has no return type and is not a generated lambda never shows in the record |
| AstProjection.KeptBodyShows | tools/generate_incremental_ast.py:90-96 | the converse: the body of a function that is inline, or has a return type, or is a generated lambda, or stands beneath a kept body, shows entirely; bodies of different length never share a record |
| AstProjection.EraseNothingElse | tools/generate_incremental_ast.py:94-95 | beneath a kept body nothing is left out but positions, bookkeeping and unwritten fields |
| AstProjection.FieldShows | tools/generate_incremental_ast.py:87-105 | every other field shows wherever its node stands: a scalar whenever it changes, a tree whenever its erasure does |
| AstProjection.VisitorMatches | mlc/incremental_ast.ml:62-318 | for every field the checked-in visitor writes, the generator's rule says the same: walk it or encode it |
| AstProjection.OmittedFieldsCollide | mlc/incremental_ast.ml:285-295 | the checked-in visitor gives one record to struct definitions that differ in a field it leaves out; the regenerated one tells them apart |
| AstProjection.BareStringsCollide | tools/generate_incremental_ast.py:48-58 | without any conformance the claim fails: two different trees share one record |
| EventQueue.PushAllKeepsLast | native/video/linux/minilang_video.c:253-266 | pushing any number of events keeps exactly the last 64 |
| EventQueue.RunAccounted | native/video/linux/minilang_video.c:253-285 | over every run deliveries are an in-order subsequence of pushes, losses are the oldest of 64, and pushed = delivered + dropped + queued |
| EventQueue.RecentNotLost | native/video/linux/minilang_video.c:255-258 | the 64 most recent events are never lost |
| EventQueue.PopsDeliver | native/video/linux/minilang_video.c:268-285 | as many polls as there are queued events deliver them all, in order |
| EventQueue.DeliveredText | native/video/linux/minilang_video.c:262-277 | a delivered text is the prefix of length min(length, 511, capacity - 1) |
| LinuxBridge.Player.constructor | native/video/linux/minilang_video.c:431-486 | an opened player is loading, with an empty queue and readiness still to report |
| LinuxBridge.Player.PushEvent | native/video/linux/minilang_video.c:253-266 | refines the abstract push, dropping the oldest of 64 and truncating the text |
| LinuxBridge.Player.Advance | native/video/linux/minilang_video.c:255-258 | giving up a slot drops exactly the oldest event |
| LinuxBridge.Player.PopEvent | native/video/linux/minilang_video.c:268-285 | takes the oldest event; the caller's buffer gets the truncated text, a terminator and keeps its other bytes; an empty queue changes only the first byte |
| LinuxBridge.Print | native/video/linux/minilang_video.c:276-276 | bounded printing copies up to the first NUL or until one byte is left |
| LinuxBridge.Replay | native/video/linux/minilang_video.c:253-285 | every run of pushes and pops gives exactly the abstract queue's outputs |
| LinuxBridge.Player.ReportMessage | native/video/linux/minilang_video.c:327-357 | each message's effect on state and queue |
| LinuxBridge.Player.Drain | native/video/linux/minilang_video.c:323-373 | all pending messages in order, then at most one readiness report |
| LinuxBridge.Player.ReportPrepared | native/video/linux/minilang_video.c:361-372 | readiness is reported once per prepared pipeline and moves only a loading player |
| LinuxBridge.Player.AttachWindow | native/video/linux/minilang_video.c:490-518 | succeeds exactly before playback with a window, a sink and a pausable pipeline, and then expects a new readiness report |
| LinuxBridge.Player.StartPlaying | native/video/linux/minilang_video.c:520-535 | state and event change together, or not at all |
| LinuxBridge.Player.PausePlaying | native/video/linux/minilang_video.c:537-548 | the same for pausing |
| LinuxBridge.Player.StopPlaying | native/video/linux/minilang_video.c:550-563 | the same for stopping |
| LinuxBridge.Player.SetLooping | native/video/linux/minilang_video.c:607-612 | sets what the end of the stream leads to, and reports nothing |
| LinuxBridge.Player.Perform | native/video/linux/minilang_video.c:323-563 | each call moves status, log and queue as its specification says |
| LinuxBridge.ReplayCalls | native/video/linux/minilang_video.c:323-677 | every run of calls on one player ends in the specified state with the specified reports, and its polls get the abstract queue's outputs |
| LinuxBridge.RunPushed | native/video/linux/minilang_video.c:253-373 | what a run reports is what its queue accounts for |
| LinuxBridge.RunReports | native/video/linux/minilang_video.c:323-373 | over every run, exactly what is reported: each error with code and text, each end, each percentage and each carried-out call in order; READY/100 each time the buffer is full again while buffering; READY/0 once in every period from open or attach in which the pipeline was found prepared, and readiness counts as reported if and only if it was |
| LinuxBridge.ReadyWhenPrepared | native/video/linux/minilang_video.c:361-372 | a drain that finds the pipeline prepared never leaves the player loading, and the first of its period ends with READY/0 |
| LinuxBridge.RunCounts | native/video/linux/minilang_video.c:323-373 | for every message sequence and call order, READY/0 events number at most one more than successful attaches and READY/100 events never outnumber BUFFERING events |
| LinuxBridge.EventsTellState | native/video/linux/minilang_video.c:323-373 | over every run, a caller who knows which attaches succeeded, the loop setting it made and the events of each call knows the state |
| WindowsBridge.Player.constructor | native/video/windows/minilang_video.cpp:94-124 | a new player is empty |
| WindowsBridge.Player.Push | native/video/windows/minilang_video.cpp:136-148 | refines the same abstract push |
| WindowsBridge.Player.Append | native/video/windows/minilang_video.cpp:142-146 | the slot behind the youngest event gets the truncated event and no other slot changes |
| WindowsBridge.Player.Pop | native/video/windows/minilang_video.cpp:150-170 | refines the same abstract pop, with the same buffer contract |
| WindowsBridge.Length | native/video/windows/minilang_video.cpp:163-163 | the number of characters before the first NUL |
| WindowsBridge.CopyOut | native/video/windows/minilang_video.cpp:161-167 | copies the text's prefix and a terminator and leaves the rest |
| WindowsBridge.Replay | native/video/windows/minilang_video.cpp:136-170 | every run of pushes and pops gives exactly the abstract queue's outputs |
| WindowsBridge.Player.PlayerEvent | native/video/windows/minilang_video.cpp:535-589 | each access of a callback by itself: what its check, its store or its push does to state and queue, and which access comes next |
| WindowsBridge.Player.ApiCall | native/video/windows/minilang_video.cpp:714-773 | the same for the API calls, of which only a stop reports |
| PlayerSteps.StepInv | native/video/windows/minilang_video.cpp:535-589 | every access of every thread keeps stores, stages and reports tied together |
| PlayerSteps.ReportsAreTrue | native/video/windows/minilang_video.cpp:535-589 | in every interleaving an event names a state that its activity had stored, no activity reports twice, and none that stored in order to report ends without reporting |
| PlayerSteps.ReportSays | native/video/windows/minilang_video.cpp:535-589 | over every run, in terms of what was notified: an error is reported with the engine's code and the first 511 characters of its message, everything else with code 0 and no text |
| PlayerSteps.StateSays | native/video/windows/minilang_video.cpp:535-589 | over every run, the state in terms of who stored it last |
| PlayerSteps.EndedHasActed | native/video/windows/minilang_video.cpp:535-589 | a callback or call that has ended has stored and reported what it is there for; only a pause may do neither |
| PlayerSteps.AttachWaits | native/video/windows/minilang_video.cpp:461-473 | once an attach has connected its engine, every callback begun before it has ended |
| PlayerSteps.NoAttachDuringPlayback | native/video/windows/minilang_video.cpp:681-685 | an attach is taken up only when the last store was not one of playing or buffering |
| PlayerSteps.NoEngineNoCalls | native/video/windows/minilang_video.cpp:715-757 | without an engine nothing plays, pauses or stops |
| PlayerSteps.CloseIsFinal | native/video/windows/minilang_video.cpp:976-988 | after a close has ended nothing moves any more |
| PlayerSteps.AgreeExactly | native/video/windows/minilang_video.cpp:535-589 | from any reachable state, all schedules without a further store end with the last event naming the state if and only if every report still due names it, and one is due or the last event names it already |
| PlayerSteps.LastStoreDecides | native/video/windows/minilang_video.cpp:535-589 | at the last store of a run: the events tell the state, however the threads are scheduled, if and only if every callback between its store and its report named the same state, and a report follows or the last event names it |
| PlayerSteps.ReportsCross | native/video/windows/minilang_video.cpp:538-546 | two callbacks that cross leave the player playing with READY as its last event |
| PlayerSteps.ReadyThenLoading | native/video/windows/minilang_video.cpp:516-528 | LOADING can overwrite a readiness already reported |
| PlayerSteps.PauseUnreported | native/video/windows/minilang_video.cpp:547-552 | over every run, a pause callback that has ended reported nothing if and only if the last store before its check was a stop's |
| PlayerSteps.PauseBeforeStop | native/video/windows/minilang_video.cpp:746-773 | a callback that runs between the engine's pause and the stop's store reports the stop as a pause first |
| PlayerSteps.PauseAfterStop | native/video/windows/minilang_video.cpp:746-773 | a pause whose check comes before the stop's store can be reported after the stop, and the player ends up paused |
| PlayerSteps.Interleave | native/video/windows/minilang_video.cpp:535-589 | any interleaving, carried out access by access on one player, gives the specified state and the last 64 events of the log |
| PlayerSteps.PollAfter | native/video/windows/minilang_video.cpp:150-170 | a poll after any interleaving delivers the oldest of the last 64 events, an error with its code and as much of its message as fits |
| NotifyTeardown.StepInv | native/video/windows/minilang_video.cpp:46-92 | every step of every thread keeps the invariant that ties counters, lock, owner pointers and the API thread's position together |
| NotifyTeardown.PlayerInUse | native/video/windows/minilang_video.cpp:80-86 | in every interleaving a thread inside the player finds it alive, through a live notify object whose owner pointer is still set |
| NotifyTeardown.AllDetached | native/video/windows/minilang_video.cpp:461-473 | from the end of detach on, and while the player is deleted, no owner pointer leads to the player |
| NotifyTeardown.TeardownExclusive | native/video/windows/minilang_video.cpp:461-473 | no thread is inside the player while its engine is freed or the player deleted, nor later |
| NotifyTeardown.NeverUsedAfterDelete | native/video/windows/minilang_video.cpp:74-78 | no step touches a deleted notify object |
| NotifyTeardown.ChangesOnlyAccessed | native/video/windows/minilang_video.cpp:74-86 | a step changes no notify object but the one it is said to access |
| NotifyTeardown.DeletedExactlyOnce | native/video/windows/minilang_video.cpp:70-78 | a notify object is deleted once, exactly when its last reference goes |
| NotifyTeardown.DetachedForever | native/video/windows/minilang_video.cpp:50-57 | after detach returns no event of that object changes the player, in any continuation |
| NotifyTeardown.ReattachIsolated | native/video/windows/minilang_video.cpp:674-693 | once release_engine has returned inside an attach, every later effect comes from a newer notify object |
| NotifyTeardown.NewEventsArrive | native/video/windows/minilang_video.cpp:475-529 | events of the current notify object reach an idle player without waiting for anyone |
| NotifyTeardown.NoDeadlock | native/video/windows/minilang_video.cpp:461-473 | teardown never gets stuck: the API thread can step, or a thread that holds the lock can |
| NotifyTeardown.CloseDeletes | native/video/windows/minilang_video.cpp:976-988 | a close never comes back to serving calls and deletes the player with its sixth step, or its third without a notify object |
| NotifyTeardown.AttachReturns | native/video/windows/minilang_video.cpp:674-693 | an attach never ends the player and is back within thirteen steps, with an engine if and only if the load succeeded |
| NotifyTeardown.OpenEnds | native/video/windows/minilang_video.cpp:475-529 | within nine steps an open serves calls, exactly when the load succeeded, or has deleted the player |
| NotifyTeardown.NothingLeaks | native/video/windows/minilang_video.cpp:976-988 | after close, once the media framework has let go, every notify object has been deleted |
| Relocations.Fold | scripts/check_linux_runtime_blob.py:33-39 | the loop patches the buffer as the folding function says and stops where packing raises; what it collects is, in order, exactly the relocations whose target is no label of this assembler |
| Relocations.Pack | scripts/check_linux_runtime_blob.py:37-37 | writes the four bytes of a signed displacement and nothing else |
| Relocations.FoldLands | scripts/check_linux_runtime_blob.py:33-39 | with disjoint fields folding succeeds if and only if every local field lies in the code and its displacement is a signed 32-bit number; then every local rel32, read from the end of its field, lands on its label and all other bytes are unchanged |
| Relocations.FoldTwice | scripts/check_linux_runtime_blob.py:33-39 | folding folded code changes nothing |
| Relocations.RefreshIdempotent | scripts/check_linux_runtime_blob.py:45-63 | refreshing a refreshed blob and its offsets changes nothing, whatever the file said before |
| Relocations.RefreshLayout | scripts/check_linux_runtime_blob.py:45-63 | when a refresh succeeds, and where each part of the blob, the thunks, the offsets and the labels come from |
| Relocations.LegacyPreserved | scripts/check_linux_runtime_blob.py:45-60 | the legacy range survives at its new offsets, the exit field holds 60 and the other prefix bytes are the assembler's |
| StableSort.PreviousStableSort | benchmarks/stdlib_collections_copy.ml:23-35 | the shifting loops compute stable insertion in place |
| StableSort.Place | benchmarks/stdlib_collections_copy.ml:26-32 | the inner loop inserts one element into the sorted prefix behind those that are not greater |
| StableSort.SortSorted | benchmarks/stdlib_collections_copy.ml:23-35 | the result is sorted for any strict weak order |
| StableSort.SortPermutes | benchmarks/stdlib_collections_copy.ml:23-35 | the result is a permutation |
| StableSort.SortStable | benchmarks/stdlib_collections_copy.ml:23-35 | elements that compare equal keep their original order |
| ProcessTree.Tree | tests/bench_incremental.py:59-64 | for any map, cyclic ones included, the loop ends with exactly the root and every process whose parent chain reaches it |
| ProcessTree.CycleLeftOut | tests/bench_incremental.py:59-64 | a cycle that avoids the root is never selected |

## Left out

- CRC-32, CRC-32C, `_hex32`, `identity` and `key`: checksums and file names add nothing to the claims, which are about the bytes before hashing.
- UTF-8 validation in `decode`: a string is its payload, so a decoding error on ill-formed text is not modelled.
- Compact AST handles: leaf and binary nodes are read through accessors in the source and are ordinary nodes here.
- Truthiness of `is_inline`: the parser only stores booleans there, and only `true` keeps a body.
- The concrete table of node kinds: the schema is a parameter of every statement; the fixed branches for literals, names and binary nodes are entries of it in the visitor's order.
- GStreamer, Media Foundation, COM, MCI and path resolution: their answers are parameters of the calls. MIDI playback, volume, rate, seek and dimensions are not modelled.
- MIDI playback on Windows reports its own state changes and is not part of `PlayerSteps.dfy`; neither are weak memory orders of the atomic state.
- The queue's mutex and critical section: each queue operation is one atomic step. The stored error text is not modelled.
- The bytes behind the terminator of a stored message: they are kept, where a debug C runtime may overwrite them; no caller can see them.
- NotifyTeardown.StepInv: steps are sequentially consistent, and the media framework is assumed to call on references that outlive the call, as COM requires; weak memory orders are not modelled.
- The refused branches of the Windows API calls change neither state nor queue and are not steps.
- Relocations.Refresh: regular expressions over the source text and the label inventory checks are not modelled; the embedded values are record fields.
- The xorshift byte stream of `benchmarks/crypto_compression.ml`: a bijection on 32-bit words that would add only an easy member.
- The fragment replay of `mlc/incremental.ml`, the collector, threads and benchmark drivers.
