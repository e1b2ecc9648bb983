# Inex: a verified model of its hard parts

Dafny 4.11 project: `dafny verify dfyconfig.toml` checks all of it. Every file holds one module.

Inex keeps Markdown encrypted at rest. This project models the algorithms around the vault whose correctness cannot be
seen from one function body, and proves what each of them is for:

* **Residue scan** (`ResidueScan`, `PipeReader`, `Base64`): the release drill looks for secrets in files and process
  output, raw, in hex, as base64 of their own and inside base64 streams at any alignment, through a sliding window.
  Proved complete for every secret written on its own and, inside a stream, from 12, 14 or 13 bytes on, by alignment;
  exact for any chunking, and 14 shown to be sharp.
* **RPC client** (`Framing`, `Base64`, `JsonValue`, `RpcCalls`, `RpcRuns`, `RpcGuarantees`, `RpcOutcomes`): incremental framing agrees
  with one parse of the whole stream; base64url is a canonical bijection; the iterative JSON check is the recursive
  definition; call correlation is a state machine of the client's critical sections, and its guarantees hold over every
  interleaving of any number of threads, down to what each response leads to and why each call ended. The object `InexRpcClient` and the state machine share their table functions.
* **Render map and annotation routing** (`UmbraMap`, `AnnotationRouting`).
* **Import** (`ImportModel`, `ImportMeaning`, `ImportScan`, `ImportPlans`, `ImportRescan`, `StagingPlan`, `StagingAudit`, `StagingSeal`, `VaultListing`,
  with `Gathering`, `Sorting`): the planner accepts a tree exactly when an order-free condition holds and plans the same
  whatever the listing order; the scan before publication passes exactly on the same source; the staging audit accepts exactly the expected namespace, and the dry-run budget covers it.
* **Archive and binary checks** (`ArchiveKeys`, `Binary`, `PeReader`, `PeCheck`, `SmallPe`, `ElfReader`, `SmallElf`,
  `Dependencies`, `Reachability`, `Batching`): a small image and a small file, given byte by byte, are accepted.
* **Documents and saving** (`DocumentModel`, `ManagedDocuments`, `PlaintextCustody`, `OpenFlow`, `SaveProtocol`,
  `SaveSteps`): the document object over its real buffer; the ownership of every plaintext buffer, in which no buffer is
  handed out while it is held, through the whole flow of opening a document; and the save protocol over all runs against
  a compare-and-swap store.
* **KDF report** (`KdfReport`, `KdfCalibration`, `Decimal`, `Strings`): the Rust printer and the Python parser are
  inverses, and the calibration search only yields evidence that the validator accepts.

Everything that comes from elsewhere is a parameter: Unicode decoding, normalisation and case folding, digests, random
tokens, the order of logical paths, JSON body parsing, process tables, timings. Python and Rust integers that cannot
overflow in the modelled ranges are mathematical integers; 32-bit and 53-bit limits are written out where the code
checks them.

## What the proofs found

* The re-check in the pipe reader's `finish` is redundant in every case but one: an empty stream met by an empty needle
  (`PipeReader.RecheckIsRedundant`). A needle list of empty needles only makes the overlap size -1.
* A 13-byte secret can lie in a base64 stream without any of the needles occurring (`ResidueScan.ThirteenBytesCanBeMissed`).
* A call of the frame decoder that raises drops the responses it had completed in that call. A broken stream delivers
  the bodies of all chunks before the failing one (`Framing.ReadStdout`), and nothing is lost exactly when the failing
  chunk completes no body (`Framing.LostWithTheChunk`); `Framing.BodiesLost` is a stream that delivers every body in two
  reads and none in one.
* "The client has ended" implies neither "no call is pending" nor "no session is held". Once the pending map is cleared,
  a call is pending exactly if it registered after the clearing and has not left since
  (`RpcGuarantees.PendingAfterTheEnd`): it had passed its check before the end (`RpcGuarantees.LateCall`). A session is
  held exactly if an unlock installed one after the end and nothing took it since (`RpcGuarantees.SessionAfterTheEnd`,
  with the trace `RpcGuarantees.LateUnlock`). The "response is unavailable" error cannot be raised
  (`RpcGuarantees.FatalErrorsEndTheClient`).
* In the PE check the `name_limit is None` branch is dead: the second section search always finds the section that
  `map_rva` used (`PeReader.NameLimit`). In the ELF check only the last dynamic and the last interpreter segment count,
  so the statements about libraries are about the last dynamic segment.
* The printed KDF report reads back exactly when every value is one line of ASCII text and the whole fits the output
  limit (`KdfReport.RawAfterReport`); for valid observations that is a condition on the version alone
  (`KdfReport.ParseAfterPrint`).
* A caret between two adjacent private slots edits the earlier one (`AnnotationRouting.CaretBetweenSlots`).
* The archive index takes the name `.` as a member with the empty key, where the HEAD-tree check refuses it
  (`ArchiveKeys.DotDiffers`). On lists of files that, and the number of entries, is the only difference between the two
  checks (`ArchiveKeys.TreeAgreesWithArchive`).
* The calibration search measures at most one candidate per halving of the range, and exactly that many when it ends at
  the maximum; with times that grow with the operations it ends in the window whenever some candidate lies there
  (`KdfCalibration.WindowFound`).

## Model

| member | source | states |
|---|---|---|
| `ResidueScan.SensitiveVariants` | scripts/drill_release_lifecycle.py:168-205 | Fails exactly when a secret is empty; otherwise returns every needle of every secret exactly once. |
| `ResidueScan.AlignmentNeedleOccurs` | scripts/drill_release_lifecycle.py:186-200 | From the bound of its alignment on, a needle of the secret stands in the base64 or base64url text of any bytes around it. |
| `ResidueScan.AlignmentBoundExact` | scripts/drill_release_lifecycle.py:189-200 | An alignment has needles exactly from 12, 14 or 13 bytes on, after 0, 1 or 2 bytes of the first group. |
| `ResidueScan.WindowSuffices` | scripts/drill_release_lifecycle.py:213-251 | A needle not seen before is in the data read so far exactly if it is in overlap plus chunk. |
| `ResidueScan.FileContainsAny` | scripts/drill_release_lifecycle.py:213-251 | For any split into non-empty reads, the scan answers whether some needle occurs in the (non-empty) file. |
| `ResidueScan.ResidueScanComplete` | scripts/drill_release_lifecycle.py:168-251 | Contents with a secret raw, in hex, as base64 of its own, in a spelling as text, or from its alignment's bound on inside a base64 stream, hold one of the needles. |
| `ResidueScan.AloneIsVariant` | scripts/drill_release_lifecycle.py:173-185 | Whatever its length, the base64 or base64url of a secret alone, padded or not, is one of its needles. |
| `ResidueScan.AlphabetsDiffer` | scripts/drill_release_lifecycle.py:173-184 | The two alphabets byte by byte. |
| `ResidueScan.ScanForSecrets` | scripts/drill_release_lifecycle.py:168-251 | Making the needles and scanning one file, in any split, reports every secret so written, and reports only where a needle stands. |
| `ResidueScan.ThirteenBytesCanBeMissed` | scripts/drill_release_lifecycle.py:186-200 | A concrete 13-byte secret none of whose needles occurs in a base64 text holding it after one other byte: 14 is sharp there. |
| `PipeReader.BoundedPipeReader.Read` | scripts/drill_release_lifecycle.py:936-958 | After any chunking: data is the stream's prefix up to the limit, overflow iff longer, sensitive iff a needle occurs. |
| `PipeReader.BoundedPipeReader.Finish` | scripts/drill_release_lifecycle.py:965-977 | Overflow is reported first, then any needle anywhere in the stream; otherwise the whole stream is released. |
| `PipeReader.RecheckIsRedundant` | scripts/drill_release_lifecycle.py:975-976 | The re-check changes the verdict only for an empty stream and an empty needle. |
| `Base64.DecodeAfterEncode` | editors/sublime/inex_rpc.py:1272-1291 | decode(encode(b)) == b for every byte string within the bound. |
| `Base64.EncodeAfterDecode` | editors/sublime/inex_rpc.py:1272-1291 | encode(decode(s)) == s for every accepted text. |
| `Base64.AcceptedAreEncodings` | editors/sublime/inex_rpc.py:1278-1291 | The accepted texts are exactly the encodings of byte strings up to the maximum; spare bits and the length test lose nothing. |
| `Base64.GroupIsNumber` | editors/sublime/inex_rpc.py:1272-1275 | The four digits of a group are the three bytes read as one number. |
| `Base64.AlphabetsAreRfc` | editors/sublime/inex_rpc.py:1272-1275 | The alphabets are A-Z, a-z, 0-9 in order and the two characters each ends with. |
| `Framing.MatchHeaderExact` | editors/sublime/inex_rpc.py:206-217 | Left-to-right matching of the header pattern captures exactly what the pattern denotes. |
| `Framing.LengthExact` | editors/sublime/inex_rpc.py:206-224 | A header gives a length exactly if it has the pattern's shape with at most twenty digits, and the length is the number they spell. |
| `Framing.ReadHeaderExtends` | editors/sublime/inex_rpc.py:274-302 | A decided header stays decided the same way when more bytes arrive. |
| `Framing.HeaderStepMeans` | editors/sublime/inex_rpc.py:276-289 | More is awaited exactly without a boundary in at most 8192 bytes; a frame starts exactly at a header ending within them. |
| `Framing.DrainedAreFrames` | editors/sublime/inex_rpc.py:274-302 | Whatever is delivered stands framed in the stream, from its first byte on and without a gap. |
| `Framing.PendingIsBounded` | editors/sublime/inex_rpc.py:274-302 | What waits for more is at most 8192 bytes, or shorter than the announced body. |
| `Framing.FrameDecoder.Feed` | editors/sublime/inex_rpc.py:274-302 | One chunk yields the frames the whole pending stream completes, or its first violation and nothing else. |
| `Framing.FrameDecoder.Finish` | editors/sublime/inex_rpc.py:304-306 | End of stream is legal exactly between frames. |
| `Framing.DrainExtends` | editors/sublime/inex_rpc.py:274-302 | Parsing a stream in two pieces is parsing it at once, for good and for broken streams. |
| `Framing.ReadStdout` | editors/sublime/inex_rpc.py:1163-1186 | Under every split: the bodies and ending of one whole-stream parse; on a violation its error, and the bodies completed before the chunk that breaks the stream. |
| `Framing.StopUnique` | editors/sublime/inex_rpc.py:1163-1186 | That chunk, and so what is delivered, is determined by the split. |
| `Framing.LostWithTheChunk` | editors/sublime/inex_rpc.py:274-302 | The valid bodies of a broken stream are those delivered and then those the failing chunk completes; nothing is lost exactly if it completes none. |
| `Framing.FramesRoundTrip` | editors/sublime/inex_rpc.py:184-204 | Framed bodies parse back to themselves with nothing left over, whatever bytes they hold. |
| `Framing.FramedStreamDelivers` | editors/sublime/inex_rpc.py:184-306 | Any split of framed bodies delivers exactly those bodies and ends cleanly. |
| `Framing.BodiesLost` | editors/sublime/inex_rpc.py:274-302 | Framed bodies and then an empty header deliver every body in two reads and none in one. |
| `JsonValue.IsJsonValue` | editors/sublime/inex_rpc.py:147-181 | The worklist answers the recursive definition: every node and key valid, depth at most 64, at most 100000 nodes. |
| `JsonValue.IsJsonValueInOrder` | editors/sublime/inex_rpc.py:147-181 | So does the same loop with any other order of taking entries. |
| `JsonValue.EntryExpands` | editors/sublime/inex_rpc.py:147-181 | A worklist entry is good exactly if its node is and its children are one level down. |
| `JsonValue.NestedLimit` | editors/sublime/inex_rpc.py:147-155 | Arrays in arrays are accepted exactly to depth 64. |
| `JsonValue.WideLimit` | editors/sublime/inex_rpc.py:147-155 | A list and its elements are accepted exactly up to 100000 nodes together. |
| `JsonValue.LeafLimits` | editors/sublime/inex_rpc.py:156-181 | Safe integers, finite numbers, text without surrogates and text keys, and nothing else. |
| `RpcCalls.InexRpcClient.Register` | editors/sublime/inex_rpc.py:1106-1114 | The next id goes to the call and grows by one, unless 128 calls are pending or the ids are past 2^53-1. |
| `RpcCalls.InexRpcClient.Forget` | editors/sublime/inex_rpc.py:1115-1120 | A request that cannot be encoded loses its own entry only. |
| `RpcCalls.InexRpcClient.FailTerminal` | editors/sublime/inex_rpc.py:1236-1260 | Only the first failure acts: error kept, session gone, map cleared, every waiting call woken with that error. |
| `RpcCalls.InexRpcClient.AcceptResponse` | editors/sublime/inex_rpc.py:1213-1224 | A known id wakes its own call and no other; a null or unknown id ends the client, and every pending call is woken with that error. |
| `RpcCalls.InexRpcClient.LoseSession` | editors/sublime/inex_rpc.py:1226-1234 | The session is dropped, and reported only if there was one. |
| `RpcCalls.InexRpcClient.InstallSession` | editors/sublime/inex_rpc.py:490-493 | The unlock installs its session, whatever else happened meanwhile. |
| `RpcRuns.NextKeeps` | editors/sublime/inex_rpc.py:1098-1264 | Every step of every thread keeps the invariant: each waiting object is in exactly one place with the slot that fits it. |
| `RpcRuns.PoppedKeeps` | editors/sublime/inex_rpc.py:1218-1224 | Taking up a response for a pending id keeps the invariant. |
| `RpcRuns.ClearKeeps` | editors/sublime/inex_rpc.py:1244-1249 | Clearing the map moves every pending call to the failing thread and keeps the invariant. |
| `RpcRuns.IssueKeepsCalls` | editors/sublime/inex_rpc.py:1106-1114 | A newly issued id belongs to no other call. |
| `RpcGuarantees.PendingBounded` | editors/sublime/inex_rpc.py:1106-1114 | In every run at most 128 calls are pending, each under the id it drew. |
| `RpcGuarantees.RefusedExactly` | editors/sublime/inex_rpc.py:1106-1114 | A call is refused for room exactly with 128 pending, and for ids exactly past 2^53-1. |
| `RpcGuarantees.IdsNeverReused` | editors/sublime/inex_rpc.py:1109-1112 | Ids issued later in a run are larger; all lie between 1 and 2^53-1. |
| `RpcGuarantees.LeavesOnce` | editors/sublime/inex_rpc.py:1098-1264 | A pending entry leaves the map at most once in a run. |
| `RpcGuarantees.HowEntriesLeave` | editors/sublime/inex_rpc.py:1115-1249 | It leaves by its response, by the client's failure, or by its own encoding error. |
| `RpcGuarantees.ReturnedValueIsTheAnswer` | editors/sublime/inex_rpc.py:1142-1161 | The value a call returns was received in a response with that call's id while it was pending for that call. |
| `RpcOutcomes.OutcomeFollowsResponse` | editors/sublime/inex_rpc.py:1142-1161 | In every run a received value is returned, a lost session taken and owed a report, another remote error raised, a broken contract ends the client; else the call failed by itself. |
| `RpcOutcomes.RunExplained` | editors/sublime/inex_rpc.py:1115-1161 | Why every call of a run ended: its own encoding, write or timeout failure, its response, or the client's error. |
| `RpcOutcomes.SessionLossIsReported` | editors/sublime/inex_rpc.py:1158-1160 | A call that reports a lost session had that answer, and a step of the run took the session and owed its loss. |
| `RpcOutcomes.WakingIsPrivate` | editors/sublime/inex_rpc.py:1142-1161 | A call that wakes up changes only its own phase; another remote error leaves session and client alone. |
| `RpcOutcomes.DeliveryAnswers` | editors/sublime/inex_rpc.py:1213-1224 | From any state of any run, delivering the response of a waiting call ends it as the response says. |
| `RpcOutcomes.LastStep` | editors/sublime/inex_rpc.py:1155-1160 | A call with a lost session takes the session away; a failing one ends the client with its own error, if it lives. |
| `RpcOutcomes.InstallHasAnAnswer` | editors/sublime/inex_rpc.py:463-493 | A session is installed only for a call that was answered with a value, and once for each. |
| `RpcGuarantees.NobodyForgotten` | editors/sublime/inex_rpc.py:1136-1146 | A waiting call is pending, held by the reader, held by the failing thread, or woken with exactly one outcome. |
| `RpcGuarantees.FatalErrorsEndTheClient` | editors/sublime/inex_rpc.py:1130-1161 | A call that ends with a write, timeout or protocol error ended the client; none reports a missing response. |
| `RpcGuarantees.FirstErrorStands` | editors/sublime/inex_rpc.py:1236-1242 | The first terminal error is never replaced. |
| `RpcOutcomes.TheEndTakesTheSession` | editors/sublime/inex_rpc.py:1236-1243 | The step that ends the client takes the session and owes its loss, unless told to keep quiet. |
| `RpcOutcomes.UnknownResponseEnds` | editors/sublime/inex_rpc.py:1213-1222 | A response nobody waits for ends the client with the error that fits its id. |
| `RpcOutcomes.TheEndCanReachAll` | editors/sublime/inex_rpc.py:1244-1249 | From every run that set the error, the failing thread alone can clear the map and wake every pending call with that error. |
| `RpcOutcomes.TheEndReachesAll` | editors/sublime/inex_rpc.py:1244-1249 | It does so whatever order the snapshot of the map lists the calls in. |
| `RpcGuarantees.LateCallsRefused` | editors/sublime/inex_rpc.py:1102-1105 | A call begun after the end raises the first error for ever after. |
| `RpcGuarantees.PendingAfterTheEnd` | editors/sublime/inex_rpc.py:1102-1114 | Once the end has cleared the map, an id is pending exactly if it was issued since then and has not left. |
| `RpcGuarantees.LossesNeverExceedSessions` | editors/sublime/inex_rpc.py:463-493 | Losses reported or owed, plus the session held, never exceed the unlock calls that installed a session. |
| `RpcGuarantees.SessionAfterTheEnd` | editors/sublime/inex_rpc.py:490-493 | An ended client holds a session exactly if an unlock installed one after the end and nothing took it since. |
| `RpcGuarantees.HowSessionsGo` | editors/sublime/inex_rpc.py:1226-1234 | After the end a session goes only by a drop or by a call that finds it invalid. |
| `RpcGuarantees.LateUnlock` | editors/sublime/inex_rpc.py:463-493 | A whole run, from the unlock call's check to its install, after which an ended client holds a session. |
| `RpcGuarantees.LateCall` | editors/sublime/inex_rpc.py:1102-1114 | A whole run in which a call is pending after the end cleared the map. |
| `UmbraMap.ParseUmbraRenderMap` | editors/sublime/inex_rpc.py:1389-1477 | Accepts exactly the raw maps that denote a well-formed map of the projection, and returns that map. |
| `UmbraMap.GenerationsAreEncodings` | editors/sublime/inex_rpc.py:1405-1408 | The accepted generations are exactly the encodings of 32 bytes. |
| `UmbraMap.LengthSpellings` | editors/sublime/inex_rpc.py:1403-1404 | The length may be spelled as a number, a boolean or a float that Python finds equal, and as nothing else. |
| `UmbraMap.SegmentsInOrder` | editors/sublime/inex_rpc.py:1439-1471 | Each position of the projection has one segment, and later positions lie further out. |
| `UmbraMap.ParseSlots` | editors/sublime/inex_rpc.py:1420-1438 | Accepts exactly non-empty, ordered, disjoint slots with unique ids. |
| `UmbraMap.ParseSegments` | editors/sublime/inex_rpc.py:1439-1471 | Accepts exactly segments that are monotone in both coordinates. |
| `UmbraMap.RevalidationIsIdentity` | editors/sublime/inex_rpc.py:1389-1477 | The normal form denotes its map, and no other map of that length. |
| `UmbraMap.Revalidate` | editors/sublime/inex_rpc.py:755-764 | Validating an accepted map again, before it is sent back, returns it unchanged. |
| `AnnotationRouting.Toggle` | editors/sublime/Inex.py:2503-2536 | The command's loops take exactly the route of the quantified rule. |
| `AnnotationRouting.RoutesByBytes` | editors/sublime/Inex.py:2503-2536 | Each of the six routes exactly, by the bytes that selections and slots cover; the count is refused exactly for 0 or more than 64. |
| `AnnotationRouting.AcceptedMapSlots` | editors/sublime/inex_rpc.py:1420-1438 | The slots of an accepted map have a name of at most 64 bytes and bytes of their own, all in the projection and none in two slots. |
| `AnnotationRouting.ApplyIsOutside` | editors/sublime/Inex.py:2530-2536 | Apply only if every selection is non-empty and disjoint from every slot. |
| `AnnotationRouting.RemoveIsWholeSlots` | editors/sublime/Inex.py:2512-2519 | Remove only if every selection is exactly one slot. |
| `AnnotationRouting.EditIsInside` | editors/sublime/Inex.py:2520-2526 | Edit only for one selection inside a slot and not equal to it. |
| `AnnotationRouting.MixedTouchesPrivate` | editors/sublime/Inex.py:2527-2536 | A refusal for mixing means a selection covers a private byte or a caret stands inside a slot; with apply none does. |
| `AnnotationRouting.FindEditTarget` | editors/sublime/Inex.py:2364-2411 | The range that edit submits lies inside one slot, the first that holds the selection. |
| `AnnotationRouting.EditSlotUnique` | editors/sublime/Inex.py:2364-2411 | For a non-empty selection that slot is unique. |
| `AnnotationRouting.CaretBetweenSlots` | editors/sublime/Inex.py:2364-2411 | A caret has a choice only where two slots meet. |
| `AnnotationRouting.RoutedEditHasSlot` | editors/sublime/Inex.py:2503-2526 | Whenever the toggle routes to edit, the edit command finds a slot. |
| `ImportModel.AbsorbsIffAcceptable` | crates/inex-cli/src/import.rs:998-1130 | Taking the entries one by one succeeds exactly under the order-free condition, and the state then holds the totals, keys and plans. |
| `ImportMeaning.AcceptableMeans` | crates/inex-cli/src/import.rs:998-1130 | That condition entry by entry and pair by pair: each entry permitted, no two meeting in the vault, the totals within their limits. |
| `ImportModel.AcceptablePermutes` | crates/inex-cli/src/import.rs:998-1130 | Acceptance does not depend on the order of the entries. |
| `ImportModel.AcceptableStep` | crates/inex-cli/src/import.rs:1012-1130 | One more entry is acceptable exactly if it passes the checks against the state reached so far. |
| `ImportModel.KeysStep` | crates/inex-cli/src/import.rs:1113-1130 | Keys stay pairwise distinct exactly if the next entry's keys are new. |
| `ImportScan.LinuxScanState.InspectEntry` | crates/inex-cli/src/import.rs:1012-1066 | One directory entry is taken exactly if it fits; the new state and the grown stack are given. |
| `ImportScan.LinuxScanState.InspectFile` | crates/inex-cli/src/import.rs:1072-1111 | A file is skipped, refused, or planned with its size, digest and both keys. |
| `ImportScan.LinuxScanState.RegisterPhysical` | crates/inex-cli/src/import.rs:1121-1130 | A path is registered exactly if it parses and its key is new. |
| `ImportScan.LinuxScanState.ScanDirectory` | crates/inex-cli/src/import.rs:998-1070 | All entries of a directory are taken in listing order, or the scan stops. |
| `ImportScan.InventorySplits` | crates/inex-cli/src/import.rs:952-1070 | Walking with a stack visits every entry of the tree exactly once. |
| `ImportScan.LinuxScanState.Run` | crates/inex-cli/src/import.rs:952-961 | The worklist ends; it succeeds exactly on acceptable trees and has then taken every entry once. |
| `ImportPlans.ScanResolvedSource` | crates/inex-cli/src/import.rs:952-961 | Succeeds exactly on acceptable trees, with the plan for them; inspected = directories + files + skipped. |
| `ImportPlans.PlansAgree` | crates/inex-cli/src/import.rs:1132-1157 | Two scans of the same entries in any order give equal plans. |
| `ImportPlans.FinishedIsPlan` | crates/inex-cli/src/import.rs:1132-1157 | Sorting leaves the planned entries and puts them in the one strict order. |
| `ImportPlans.EnsureSourceUnchanged` | crates/inex-cli/src/import.rs:931-949 | The re-scan passes exactly if the tree is acceptable and still has this plan. |
| `ImportRescan.PlanThenRescan` | crates/inex-cli/src/import.rs:931-949 | With a digest that tells contents apart, the re-scan passes exactly on an acceptable tree with the same directories, the same Markdown files and contents, and as many other files. |
| `ImportRescan.PlannedFileIsThere` | crates/inex-cli/src/import.rs:1103-1109 | Every planned file is a Markdown file of the tree: path, name, size and digest. |
| `ImportRescan.MarkdownIsPlanned` | crates/inex-cli/src/import.rs:1072-1111 | Every Markdown file of an acceptable tree is planned. |
| `ImportRescan.DirectoryIsPlanned` | crates/inex-cli/src/import.rs:1038-1054 | Every directory of an acceptable tree is planned under its normalised name. |
| `ImportPlans.UnchangedPasses` | crates/inex-cli/src/import.rs:931-949 | A tree that did not change passes it, however it is listed at every level. |
| `ImportPlans.SameEntriesPass` | crates/inex-cli/src/import.rs:931-949 | So does any tree with the same entries. |
| `ImportPlans.RelistedInventory` | crates/inex-cli/src/import.rs:1009-1013 | Listing a tree again, with the children of every directory in another order, leaves the entries the same. |
| `ImportPlans.ParentsFirst` | crates/inex-cli/src/import.rs:1132-1141 | With component-wise normalisation each planned directory comes after its parent. |
| `ImportPlans.SiblingsSwap` | crates/inex-cli/src/import.rs:1009-1013 | Listing two neighbours the other way round leaves the entries the same. |
| `ImportPlans.SubtreeSwaps` | crates/inex-cli/src/import.rs:1009-1013 | So does re-listing a subdirectory, at any depth. |
| `StagingPlan.ExpectedStagingEntries` | crates/inex-cli/src/import.rs:529-583 | The expected namespace, exactly when no two of its paths collide: which paths are files and which directories. |
| `StagingPlan.MapKinds` | crates/inex-cli/src/import.rs:529-583 | With distinct paths every expected entry keeps its kind. |
| `StagingPlan.MarkerAddsOne` | crates/inex-cli/src/import.rs:572-581 | Allowing the marker adds that one file to the namespace. |
| `StagingPlan.ValidatePlannedStagingBudget` | crates/inex-cli/src/import.rs:585-608 | Passes exactly if the namespace with the marker has no collision and fits both budgets. |
| `StagingAudit.StagingWalk.InspectEntry` | crates/inex-cli/src/import.rs:634-668 | An entry passes exactly if all entries so far can belong to an accepted tree. |
| `StagingAudit.StagingWalk.Run` | crates/inex-cli/src/import.rs:611-675 | The walk succeeds exactly on the expected namespace within the budgets. |
| `StagingAudit.AuditStagingAllowlist` | crates/inex-cli/src/import.rs:611-675 | The audit succeeds exactly if paths do not collide, the tree is the expected one, and it fits. |
| `StagingAudit.WalkedPermutes` | crates/inex-cli/src/import.rs:623-674 | The verdict does not depend on the listing order. |
| `StagingAudit.DryRunCoversAudit` | crates/inex-cli/src/import.rs:585-653 | After a dry run that fits, no exact tree fails the audit's budgets, with the marker or without. |
| `StagingAudit.ExactLists` | crates/inex-cli/src/import.rs:611-675 | The paths of an exact tree list the expected namespace, each once. |
| `StagingSeal.SealStaging` | crates/inex-cli/src/import.rs:764-785 | A seal holds the root and exactly the expected files, each digest read after an exact audit; after a passed audit it fails only on an unreadable file or another root. |
| `StagingSeal.VerifyStagingSeal` | crates/inex-cli/src/import.rs:792-826 | Accepts exactly if the root is the sealed one, the files are the expected ones, each hashes as sealed, and the walk after all hashes is exact. |
| `StagingSeal.UnchangedSealPasses` | crates/inex-cli/src/import.rs:764-826 | A seal of a tree that does not change passes later. |
| `StagingSeal.AcceptedContentIsSealed` | crates/inex-cli/src/import.rs:817-821 | With a digest that tells contents apart, an accepted file has its sealed content. |
| `StagingSeal.FileFound` | crates/inex-cli/src/import.rs:829-854 | Following the path of a listed file through the directories reaches that file. |
| `StagingSeal.OnlyLargeFilesFail` | crates/inex-cli/src/import.rs:855-862 | In an audited tree a file has no digest exactly if it is over the size limit. |
| `VaultListing.VerifyObservedTree` | crates/inex-cli/src/import.rs:490-521 | Passes exactly if the sizes agree and every listed entry is planned under its kind; an asset never is. |
| `VaultListing.PassesIffPlanned` | crates/inex-cli/src/import.rs:490-521 | A listing without repeats passes exactly if it is the planned one. |
| `ArchiveKeys.ArchiveIndex.Register` | scripts/release_common.py:469-489 | A member is accepted exactly if it has a key and is compatible with every member before it. |
| `ArchiveKeys.RegisterAll` | scripts/release_common.py:469-489 | A sequence is accepted exactly if every pair is compatible. |
| `ArchiveKeys.PermutationInvariant` | scripts/release_common.py:469-489 | So acceptance is invariant under permutation. |
| `ArchiveKeys.CheckTreePaths` | scripts/release_common.py:697-736 | The set-based file check accepts exactly 1 to 16384 paths that are keyed, pairwise compatible, and not ".". |
| `ArchiveKeys.TreeAgreesWithArchive` | scripts/release_common.py:452-489 | On lists of files it agrees with the archive index, but for "." and the number of entries. |
| `ArchiveKeys.DotDiffers` | scripts/release_common.py:452-489 | The index takes "." as a member with the empty key; the tree check refuses it. |
| `ArchiveKeys.SameKey` | scripts/release_common.py:452-466 | Two portable names share a key exactly if their folded components agree. |
| `ArchiveKeys.KeyedExactly` | scripts/release_common.py:414-466 | A name other than "." has a key exactly if all its characters and all its parts are permitted. |
| `ArchiveKeys.AncestorMeansComponents` | scripts/release_common.py:452-489 | The string-prefix test on keys is the proper-prefix relation on components. |
| `PeReader.ReadSections` | scripts/release_common.py:296-324 | The section table is read exactly if every section fits and raw ranges are pairwise disjoint. |
| `PeReader.SectionJoins` | scripts/release_common.py:302-324 | One more section fits exactly if it fits alone and overlaps none before it. |
| `PeReader.SpanIsLarger` | scripts/release_common.py:305-324 | A section spans the larger of its virtual and raw size. |
| `PeReader.MapRva` | scripts/release_common.py:326-334 | Maps through the first covering section, if its raw data holds the range. |
| `PeReader.MappedExactly` | scripts/release_common.py:326-334 | An address maps through the first section around the range, as far from its start, if its raw data holds the range. |
| `PeReader.MappedInside` | scripts/release_common.py:326-334 | A mapped range lies in one section's raw data, inside the file and apart from every other section's. |
| `PeReader.NameLimit` | scripts/release_common.py:363-371 | The second search always finds the section that the mapping used. |
| `PeReader.ReadName` | scripts/release_common.py:362-382 | A name is read exactly if it is terminated in its section and 4096 bytes, ASCII and without path characters. |
| `Binary.ReadsTwo` | scripts/release_common.py:145-262 | A two-byte field reads as n exactly where the little-endian layout of n stands. |
| `Binary.ReadsFour` | scripts/release_common.py:145-262 | So does a four-byte field. |
| `Binary.ReadsEight` | scripts/release_common.py:145-198 | So does an eight-byte field. |
| `PeCheck.ReadImports` | scripts/release_common.py:354-385 | Succeeds exactly if every descriptor before a zero one inside the table has a name; returns those names. |
| `PeCheck.ImportsUnique` | scripts/release_common.py:354-383 | A table has at most one list of imports. |
| `PeCheck.ValidateWindowsPe` | scripts/release_common.py:241-390 | Total and in bounds on every byte string; accepts exactly the acceptable images. |
| `SmallPe.ImageIsAccepted` | scripts/release_common.py:241-390 | An image of 320 given bytes is accepted as an x64 executable that imports k.dll, and not for the other machine. |
| `PeCheck.AcceptedHeaderBytes` | scripts/release_common.py:241-290 | The header bytes of an accepted image: this machine, an executable, no library, 64 bits. |
| `PeCheck.AcceptedImage` | scripts/release_common.py:310-352 | Every section of an accepted image is not empty and in the image; the entry point lies in an executable one. |
| `PeCheck.AcceptedSectionsApart` | scripts/release_common.py:296-324 | Raw section data lies behind the headers, inside the file, pairwise disjoint. |
| `PeCheck.AcceptedNamesInside` | scripts/release_common.py:362-383 | Every import name with its terminator lies in one section's raw data. |
| `PeCheck.AcceptedWithoutLibsodium` | scripts/release_common.py:384-390 | No import before the terminator is libsodium*.dll in any case. |
| `ElfReader.ValidateLinuxElf` | scripts/release_common.py:141-238 | Total and in bounds on every byte string; accepts exactly the acceptable files. |
| `SmallElf.FileIsAccepted` | scripts/release_common.py:141-238 | A file of 375 given bytes is accepted as an x64 executable, and its dynamic table is read as it was written. |
| `ElfReader.AcceptedHeaderBytes` | scripts/release_common.py:141-165 | The first bytes of an accepted file: ELF, 64 bits, little-endian, executable, this machine. |
| `ElfReader.ReadCString` | scripts/release_common.py:129-138 | Reads a zero-terminated string inside the limit, or refuses. |
| `ElfReader.ReadSegments` | scripts/release_common.py:166-184 | Accepts exactly segments inside the file with readable interpreters; the last of each kind counts. |
| `ElfReader.ReadDynamic` | scripts/release_common.py:194-209 | Collects the entries before the null tag; the last string table wins. |
| `ElfReader.CollectedAll` | scripts/release_common.py:198-209 | No library or search-path entry before the null tag is missed. |
| `ElfReader.OffsetInside` | scripts/release_common.py:209-221 | The string table's address is found in the first loaded segment around it. |
| `ElfReader.ActiveWithoutLibsodium` | scripts/release_common.py:235-238 | No active library entry of a sound table is libsodium.so, in any case and with any suffix. |
| `ElfReader.ActivePathsRelocatable` | scripts/release_common.py:222-234 | Every active search path is made of $ORIGIN components only. |
| `ElfReader.AcceptedIsClean` | scripts/release_common.py:141-238 | In an accepted file no active entry of the last dynamic table names libsodium.so or a search path that is not relocatable. |
| `ElfReader.RelocatableStaysBelow` | scripts/release_common.py:224-234 | Such a component has no empty, "." or ".." part. |
| `Dependencies.NativeResolvedPackages` | scripts/release_common.py:1450-1541 | Fails exactly on a repeated id, another root, a workspace that is not the reviewed one, or a needed package without node, metadata or source; otherwise returns the needed packages outside the workspace in metadata order. |
| `Dependencies.ResolvedExactly` | scripts/release_common.py:1528-1541 | When resolving works, workspace and result are exactly the needed packages, and every one in the result has a source. |
| `Dependencies.WorkspaceMembers` | scripts/release_common.py:1478-1500 | The members pass exactly if each reviewed package is described once and they list those packages, each once. |
| `Dependencies.MembersAreReviewed` | scripts/release_common.py:1478-1500 | The members are exactly the local packages under a reviewed name and manifest. |
| `Dependencies.Closure` | scripts/release_common.py:1502-1527 | The worklist ends with exactly the packages reachable through edges that are not dev-only. |
| `Dependencies.EdgesByKinds` | scripts/release_common.py:1510-1527 | An edge is followed exactly if its list of kinds is empty or holds one that is not dev. |
| `Dependencies.RefusedRecords` | scripts/release_common.py:1510-1526 | A record is refused exactly without a shape, without a list of kinds, or if it counts and names no package. |
| `Dependencies.LinuxDescendants` | scripts/drill_release_lifecycle.py:838-849 | Exactly the descendant processes, unless there are more than the ceiling. |
| `Reachability.WorklistDone` | scripts/release_common.py:1502-1527 | When nothing is pending the expanded set is the reachable set. |
| `Batching.MakeBatches` | scripts/release_common.py:1233-1264 | Non-empty batches within the limit that concatenate to the sorted arguments, unless one is too long by itself. |
| `Batching.CostIsText` | scripts/release_common.py:1253-1259 | A run fits exactly if its text and one terminator each take at most 32 KiB. |
| `Batching.FewestBatches` | scripts/release_common.py:1233-1264 | No partition into consecutive fitting runs has fewer batches. |
| `Batching.CheckIgnored` | scripts/release_common.py:1233-1264 | The verdict does not depend on where the batches are cut. |
| `ManagedDocuments.ManagedDocument.Open` | editors/sublime/inex_core.py:395-436 | The opening checks: view, path, handle, map, etags and size; a recovered document starts dirty. |
| `ManagedDocuments.OpenedIsSound` | editors/sublime/inex_core.py:395-436 | What is opened meets the document invariant. |
| `DocumentModel.OperationsKeep` | editors/sublime/inex_core.py:446-564 | Every operation keeps it: a valid etag, text within 16 MiB, no saved or drafted version ahead, and a handle exactly without a render map. |
| `ManagedDocuments.ManagedDocument.Replace` | editors/sublime/inex_core.py:446-459 | New content is taken over and the old wiped, or refused and wiped, or refused with the document read-only. |
| `ManagedDocuments.ManagedDocument.Snapshot` | editors/sublime/inex_core.py:461-464 | The version with a private copy of the content. |
| `ManagedDocuments.ManagedDocument.MarkSaved` | editors/sublime/inex_core.py:466-473 | The etag is recorded always, the saved version only for the current one. |
| `ManagedDocuments.ManagedDocument.ReplaceUmbraProjection` | editors/sublime/inex_core.py:475-496 | A projection is taken over as saved, or refused and wiped with nothing changed. |
| `ManagedDocuments.ManagedDocument.InvalidateDrafts` | editors/sublime/inex_core.py:522-527 | An open document gets a new draft epoch; a closed one is left alone. |
| `ManagedDocuments.ManagedDocument.TransitionToUmbra` | editors/sublime/inex_core.py:498-516 | All or nothing: a refused transition restores every field. |
| `ManagedDocuments.ManagedDocument.RenameClean` | editors/sublime/inex_core.py:536-548 | Only a clean open document is renamed. |
| `ManagedDocuments.ManagedDocument.Close` | editors/sublime/inex_core.py:553-564 | The buffer is wiped and let go; closing twice does nothing. |
| `DocumentModel.ProjectionIsSaved` | editors/sublime/inex_core.py:475-496 | An Umbra document takes a projection as saved, under its etag and map, or stays as it is. |
| `DocumentModel.UmbraEntry` | editors/sublime/inex_core.py:498-516 | A clean normal document becomes an Umbra one and gives up its handle, or stays as it is. |
| `DocumentModel.RenameMoves` | editors/sublime/inex_core.py:536-548 | A clean open document is renamed under its new etag and its drafts go out of date; no other changes. |
| `DocumentModel.ClosedIsFinal` | editors/sublime/inex_core.py:553-564 | Closing leaves no text, handle or map, and what is closed takes no text, map or name again. |
| `PlaintextCustody.PlaintextHandoffRegistry.Put` | editors/sublime/inex_core.py:147-157 | The value is held under a new token, or refused and wiped. |
| `PlaintextCustody.PlaintextLedger.PutHandoff` | editors/sublime/inex_core.py:147-157 | Conservation: every buffer handed in is in exactly one place or wiped. |
| `PlaintextCustody.PlaintextLedger.TakeHandoff` | editors/sublime/inex_core.py:159-164 | A held buffer is handed out and no longer held; conservation holds. |
| `PlaintextCustody.PlaintextLedger.DiscardHandoff` | editors/sublime/inex_core.py:166-170 | A discarded buffer is wiped; conservation holds. |
| `PlaintextCustody.PlaintextLedger.ClearHandoffs` | editors/sublime/inex_core.py:172-177 | All waiting buffers are wiped; conservation holds. |
| `PlaintextCustody.PlaintextLedger.AddPending` | editors/sublime/inex_core.py:204-216 | A new owner holds its buffer, or the buffer is refused and wiped; conservation holds. |
| `PlaintextCustody.PlaintextLedger.AddPendingBuffer` | editors/sublime/inex_core.py:218-225 | The buffer joins its owner or is wiped; conservation holds. |
| `PlaintextCustody.PlaintextLedger.TakePending` | editors/sublime/inex_core.py:227-229 | An owner's buffers are handed out together and no longer held; conservation holds. |
| `PlaintextCustody.PlaintextLedger.WipeTaken` | editors/sublime/Inex.py:370-378 | Buffers that were handed out are zeroed by their caller; conservation holds. |
| `PlaintextCustody.PlaintextLedger.CancelPending` | editors/sublime/Inex.py:370-378 | A cancelled owner's buffers are all wiped; conservation holds. |
| `PlaintextCustody.PlaintextLedger.DrainPending` | editors/sublime/inex_core.py:231-235 | All owners are handed out at once; conservation holds. |
| `PlaintextCustody.PlaintextLedger.AddDocument` | editors/sublime/inex_core.py:572-575 | A document over a new buffer, or over one that was handed out, comes to hold it unless its view is taken; conservation holds. |
| `PlaintextCustody.PlaintextLedger.SnapshotDocument` | editors/sublime/inex_core.py:461-464 | A snapshot is a new buffer that goes to the caller; conservation holds. |
| `PlaintextCustody.PlaintextLedger.ReplaceContent` | editors/sublime/inex_core.py:446-459 | The document trades buffers and the one dropped is wiped; conservation holds. |
| `PlaintextCustody.PlaintextLedger.ReplaceProjection` | editors/sublime/inex_core.py:475-496 | A projection trades buffers the same way; conservation holds. |
| `PlaintextCustody.PlaintextLedger.EnterUmbra` | editors/sublime/inex_core.py:498-516 | So does the Umbra transition; refused, it leaves the document as it was. |
| `PlaintextCustody.PlaintextLedger.ScrubThenRemove` | editors/sublime/inex_core.py:611-626 | The document leaves with its view and its buffer is wiped; conservation holds. |
| `PlaintextCustody.PlaintextLedger.ClearDocuments` | editors/sublime/inex_core.py:603-608 | Every document is closed, every buffer wiped, no view left; conservation holds. |
| `PlaintextCustody.TradedBalances` | editors/sublime/inex_core.py:446-459 | Trading a document's buffer for a new one keeps every buffer in one place. |
| `OpenFlow.FinishOpen` | editors/sublime/Inex.py:1010-1098 | A claimed buffer becomes the content of the registered document, with the fields it opens with, or is wiped, and nothing else changes. |
| `OpenFlow.FinishPendingOpen` | editors/sublime/Inex.py:987-1008 | Of a claimed owner every buffer ends in the document or wiped; an unknown token changes nothing. |
| `OpenFlow.FinishRecovery` | editors/sublime/Inex.py:1131-1170 | Restoring opens the draft's text, dirty and against its base; a completed discard opens the saved one, clean; the other buffer is wiped, and otherwise both are. |
| `OpenFlow.OpenDocument` | editors/sublime/Inex.py:935-1098 | A whole open: the buffer read from the vault waits, is claimed, and is the document's content or all zeros. |
| `PlaintextCustody.RemovedOwner` | editors/sublime/inex_core.py:227-229 | Removing an owner removes exactly its buffers. |
| `PlaintextCustody.AddedBuffer` | editors/sublime/inex_core.py:218-225 | Adding a buffer to an owner adds exactly that buffer. |
| `SaveProtocol.StepKeeps` | editors/sublime/Inex.py:1378-1473 | Every step of edits, saves, renames, other writers and completions keeps the protocol's invariant. |
| `SaveProtocol.SavedMeansStored` | editors/sublime/Inex.py:1378-1473 | After any run a normal document that is not dirty has exactly the plaintext stored under its etag. |
| `SaveProtocol.DeliveredSave` | editors/sublime/inex_core.py:466-473 | After any run, a delivered save records its etag; it leaves the document clean, matching the store, exactly if nothing was edited since. |
| `SaveProtocol.UndisturbedSave` | editors/sublime/Inex.py:1378-1473 | From any state of any run, an undisturbed save ends with the view's text clean and stored. |
| `SaveProtocol.BegunSaveIsTheView` | editors/sublime/Inex.py:1224-1240 | What a save sends is the text the view showed, as the current version. |
| `SaveProtocol.EditTakesText` | editors/sublime/Inex.py:3589-3613 | After any run, an edit takes the text and makes the document dirty, or locks it. |
| `SaveProtocol.CommitIsCompareAndSwap` | editors/sublime/Inex.py:1378-1473 | The store takes a request exactly if its etag is current, and then holds what it carries. |
| `SaveProtocol.StaleDeliveryHarmless` | editors/sublime/Inex.py:1378-1473 | A failed completion, or one of an earlier session, leaves the document as it is. |
| `SaveProtocol.DeliveredRename` | editors/sublime/Inex.py:2849-2945 | A delivered rename moves a document that is still the one it was sent for, and no other. |
| `SaveProtocol.BegunRename` | editors/sublime/Inex.py:2849-2945 | A rename is sent exactly for a clean document that can be written, with its path and etag. |
| `SaveProtocol.ClosingAndEnding` | editors/sublime/Inex.py:1378-1473 | Closing lets go of the text; a new session keeps the document and leaves the old completions behind. |
| `SaveProtocol.LateCompletionHarmless` | editors/sublime/inex_core.py:466-473 | A completion of an older version leaves a newer clean document exactly as it is. |
| `SaveProtocol.NoLostUpdate` | editors/sublime/Inex.py:1378-1473 | A write that goes through replaces only the ciphertext the document had last seen. |
| `SaveProtocol.NoOlderWriteOverClean` | editors/sublime/inex_core.py:466-473 | A stored write of an older version finds the document dirty. |
| `SaveSteps.CaptureView` | editors/sublime/Inex.py:1224-1240 | The view's text is adopted and a private snapshot of it taken; refused text is wiped. |
| `SaveSteps.OnModified` | editors/sublime/Inex.py:3589-3613 | The modification hook is the protocol's edit step. |
| `SaveSteps.OnSaved` | editors/sublime/Inex.py:1378-1473 | The save completion is the protocol's delivery step. |
| `SaveSteps.OnRenamed` | editors/sublime/Inex.py:2849-2945 | The rename completion, with its test of the logical path, is the protocol's delivery step. |
| `KdfReport.ParseCalibrationReport` | scripts/drill_kdf_calibration.py:418-471 | Returns the valid observation whose printed report the text is, for a safe version and a fitting text, and refuses every other text. |
| `KdfReport.RawAfterReport` | scripts/drill_kdf_calibration.py:418-465 | Printed values read back exactly if each is one line of ASCII and the whole is short enough. |
| `KdfReport.ReportAfterRaw` | scripts/drill_kdf_calibration.py:418-465 | Whatever text is read prints back byte for byte. |
| `KdfReport.ParseAfterPrint` | scripts/drill_kdf_calibration.py:346-471 | A valid observation is returned by parsing its own report exactly if its version is safe and the report fits. |
| `KdfReport.PrintAfterParse` | scripts/drill_kdf_calibration.py:312-471 | Printing a parsed report gives the same bytes back. |
| `KdfReport.OutcomeDetermined` | scripts/drill_kdf_calibration.py:380-415 | The point and its time leave one outcome at most. |
| `KdfReport.OutcomeExists` | scripts/drill_kdf_calibration.py:380-415 | Some outcome fits exactly if the point is in range and a time below the window is the maximum's. |
| `KdfCalibration.RustReportIsPrinted` | crates/inex-cli/src/lib.rs:208-251 | The Rust template and the Python line table describe the same text. |
| `KdfCalibration.Calibrate` | crates/inex-core/src/sodium.rs:1001-1092 | On every permitted range: sound evidence, that is a measured point, its outcome and its count against the halvings of the range; or the candidate that failed. |
| `KdfCalibration.WindowFound` | crates/inex-core/src/sodium.rs:985-991 | When time grows with the operations, the search ends in the window exactly if some candidate lies in it. |
| `KdfCalibration.SoundEvidenceIsValid` | scripts/drill_kdf_calibration.py:346-415 | Sound evidence passes the Python validator. |
| `KdfCalibration.CountIsPossible` | scripts/drill_kdf_calibration.py:380-415 | The validator takes no more measurements than a search of the whole range can make. |
| `KdfCalibration.ReportedEvidenceParses` | crates/inex-cli/src/lib.rs:208-251 | A printed calibration parses back to its evidence. |

## Left out

- The crates behind the vault (storage, cryptography, daemon, Git bridge): a compare-and-swap store, digests and path rules stand for them.
- File identity checks, mount boundaries, links and special files: an entry is a directory, a file or something refused; changes under a running scan are not modelled, only changes between scans.
- Error variants and messages: which error an import or a reader reports first depends on order and is no invariant; only acceptance is stated.
- Directory identities recorded by the scan, source and destination paths of the plan, and target revalidation.
- The platform-independent variant of the import scan and of the audit (crates/inex-cli/src/import.rs, lines 1189-1420 and 677-760), which has the same shape.
- Draft files on disk: a late callback may delete by name, so their presence is not an invariant of the code.
- Timing: pipe-reader join timeouts, idle deadlines, process kills, and the moment at which a callback runs; every order of completions is covered instead.
- Byte quotas of the RPC write queue, capability negotiation, and the validation of each method's result.
- Parsing of JSON text and of ZIP archives, Unicode tables, and the sorting of needles; zeroing inside the frame decoder.
- Blob and mode checks of the HEAD-tree verifier, license inventories and evidence-report schemas: long comparisons with fixed data.
- The JSON and UTF-16 spellings of a secret that is text: a parameter of the scanner stands for them.
- Command classification, bypass counters, and the Sublime interface; in the open flow what the view and the settings allow is a yes or no.
- A view that cannot be scrubbed after a failed open, which locks the plugin: the buffer is wiped there too.
- `_serialize_umbra_selections`, and the selections' conversion from text to bytes.
- RpcGuarantees.ReturnedValueIsTheAnswer: speaks of the raw result of a call; what each facade method makes of it is not modelled.
- RpcRuns.NextKeeps: a call's raised error becomes visible as soon as the state lock section of its failure is done, before the other calls are woken; this allows more interleavings than the code.
- StagingSeal.VerifyStagingSeal: each file and each walk is read at one moment; a change in the middle of a walk, and the tests of the staging directory's name and parent, are not modelled.
- StagingSeal.SealStaging: the same; the file system shows one tree at each moment.
- SaveProtocol.SavedMeansStored: covers one document; the store gives every write a fresh etag.
- PlaintextCustody.PlaintextLedger.ReplaceContent: aliasing a document's own buffer as its replacement is excluded, as every caller passes a new buffer.
- Batching.MakeBatches: the batches are made first and then checked, where the code interleaves the two.
- Dependencies.NativeResolvedPackages: records without an id are not modelled; paths are compared after they are resolved.
- Dependencies.LinuxDescendants: the process table is held still.
- KdfCalibration.Calibrate: a candidate's time is one number, as no candidate is measured twice.
