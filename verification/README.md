# Open Servo: a verified model

A Dafny model of the parts of the open-servo repository that keep state over unbounded
runs or compute a fast form of something simple, with proofs about every input, every
run or every drain, probe or event schedule. Verify with `dafny verify dfyconfig.toml`.

| file | models |
|---|---|
| `WireTimeline.dfy`, `LivePolling.dfy` | merging two 16-bit edge-capture rings onto one 32-bit timeline, and what live polling gets from it |
| `LinkSession.dfy`, `WireCapture.dfy` | the record link: adapter encoders, client session, and edge capture end to end |
| `UidPrefix.dfy`, `DiscoveryWalk.dfy`, `RawReplies.dfy` | UID prefixes, the ENUM discovery walk over a bus that may lie, and what it needs of single replies |
| `Cobs.dfy`, `RttTransport.dfy` | the COBS code, its stream semantics and the receiver that shifts its buffer |
| `Persist.dfy` | the write-through EEPROM cache over flash that may fail at any operation |
| `Pid.dfy`, `Kernel.dfy`, `HostWrites.dfy` | the PID, the servo kernel, and host writes through the shadow commit |
| `Executor.dfy`, `OpLatency.dfy` | the interrupt/main-loop queue protocol, and how soon it answers |
| `Bits.dfy`, `EepromMap.dfy`, `AdcChannels.dfy` | the two compile-time generators against plain scans and ranks |
| `Thermal.dfy`, `Filter.dfy`, `Compliance.dfy`, `Gain.dfy` | the fixed-point thermal, filter, limiter and text-format code |
| `Basics.dfy`, `FixedPoint.dfy`, `Words.dfy` | shared value types, machine arithmetic and little-endian words |

Code that updates state in place is a class or a method with a loop, proved equal to a
function of the old state; the theorems are about those functions over whole runs.
Integer widths are explicit: every wrap, saturation and cast of the source is written
out, and the absence of overflow is proved where it holds. Plain `+`, `-`, `*`, `abs`
and shifts are those of the release profile, which wraps and masks; a build with
overflow checks (firmware-old/Cargo.toml:88-92 leaves them on in the dev profile)
panics at exactly the operations the lemmas name.

## Where the code and its comments disagree

The model follows the code. Each disagreement is a lemma.

- An empty drain within a wrap of an edge is said to keep absolute placement exact
  (client/src/wire.rs:18-20). It does, unless the anchor has already fallen 2^31 - 1
  ticks behind: then the floor no longer lifts it. `WireTimeline.TimelineRefined` gives
  the exact condition, `WireTimeline.StalledFloorMisplaces` an input.
- "Phantoms die at the confirm probes" (client/src/mgmt.rs:132-135) fails when
  superimposed replies read as the same UID at a prefix and again at its child.
  `DiscoveryWalk.PhantomExact` says exactly when a roster holds a phantom,
  `DiscoveryWalk.EchoDeceives` gives two servos and a bus on which a walk reports a
  third, and `DiscoveryWalk.DiscoveryPhantomExact` shows that repeating walks until two
  agree does not help. `DiscoveryWalk.MissingExact` says exactly when one is missed.
- The recovery step multiplies in i32 (compliance_model.rs:178). With p the product of
  rate and dt modulo 2^32, the cap rises exactly when p is between 1000000 and 2^31 - 1,
  stays exactly when p is within 999999 of 0 either way, and falls otherwise. At 10% per
  second a one-second step takes the cap below its floor, and steps under one effort unit
  recover nothing, ever. `Compliance.RecoveryRises`, `Compliance.RecoveryNeverFalls`,
  `Compliance.StepBandExact`, `Compliance.LongStepFalls`,
  `Compliance.TinyStepsNeverRecover`.
- `take_snapshot` counts failed reads in a u8 (persist.rs:412), so a multiple of 256
  failed reads counts as none and a save may report success for fields it never read.
  `Persist.PersistTask.HandleSave` states when a report can be trusted: no read failed,
  or there are fewer than 256 fields.
- With more than 65535 samples between slow updates the mean square can exceed 2^30, the
  heat can leave i64, and the estimate then jumps to the far end of its range.
  `Thermal.HeatBalance`, `Thermal.MoreCurrentIsHotter`.
- The two gain printers differ, and the text does not parse back, at exactly one value,
  i32::MIN, where `abs` wraps (gain.rs:59-89). `Gain.PrintersAgree`, `Gain.RoundTrip`.
- The comment on `to_q8_8` gives 8388607 as the safe bound and the code clamps at
  838860 (gain.rs:52-53); `Gain.ToQ88IsExact` shows that nothing is lost.
- The persist policy looks at a field's encoded length, not its size: it is exact if and
  only if every field reports its size or none has a byte, so a 64-bit or array field
  spoils it (`EepromMap.PolicyExactIffReported`). And `len as u16` drops whole multiples
  of 65536: a range of 65536 bytes pushes no key at all (`EepromMap.PolicyCutsLength`).
- With the derivative on error, the default mode, a PID step overflows i32 exactly when
  its derivative product does, which depends on the inputs alone
  (`Pid.OnErrorRunExact`); two legal samples are enough (`Pid.OnErrorOverflows`). On
  measurement it never does (`Pid.StepIsIdeal`).
- The receiver hands a message over if and only if it is not empty, fits the output
  buffer, and fits the receive buffer together with its delimiter
  (`Cobs.StreamRoundTrip`). Empty messages and frames of exactly the buffer's size
  vanish without trace (`Cobs.LostFrames`).
- The executor never runs a System tick, so a mode request or a soft reset waits for ever
  and the mode is the one booted (`Executor.CommandsStayLimited`).

## Model

| member | source | states |
|---|---|---|
| `WireTimeline.EdgeAnchor.constructor` | client/src/wire.rs:182-190 | a reset anchor has no tick, expects a fall and carries nothing |
| `WireTimeline.EdgeAnchor.Merge` | client/src/wire.rs:225-260 | the two-index loop consumes exactly what alternation can order: phase, leftover falls and edges are those pending at its start |
| `WireTimeline.EdgeAnchor.UnwrapDrain` | client/src/wire.rs:219-272 | the two-index loop, its early exit, the deferred falls and the floor lift are the pure `Drained`, about which every theorem below and `LivePolling` speak |
| `WireTimeline.OrderConserves` | client/src/wire.rs:228-261 | on any rings, missed captures included: all rises are emitted, falls are emitted or left over, each polarity keeps its order, and a leftover means a rise is due |
| `WireTimeline.DrainConserves` | client/src/wire.rs:219-272 | one drain: every raw tick is emitted once or carried, keeps its low 16 bits and lies less than a wrap after its predecessor; only a drain with nothing to emit or carry lifts the anchor, never backward |
| `WireTimeline.RunConserves` | client/src/wire.rs:219-272 | conservation over every sequence of drains: emitted falls followed by the carry are all falls, emitted rises are all rises |
| `WireTimeline.OrderInverts` | client/src/wire.rs:228-261 | splitting any alternating edge stream into rings and merging them by alternation is the identity |
| `WireTimeline.PlaceIsTruth` | client/src/wire.rs:249-253 | the 32-bit tick placed for a 16-bit capture is the true tick if and only if that tick is less than a wrap past the anchor (or before `now` when there is none) |
| `WireTimeline.ChainIsTruth` | client/src/wire.rs:249-255 | a chain of placements equals the true edges if and only if each is in reach of its predecessor |
| `WireTimeline.StepIsTruth` | client/src/wire.rs:219-272 | one drain of a torn or clamped schedule yields exactly the true edges that became orderable, if and only if they are in reach |
| `WireTimeline.StepTracks` | client/src/wire.rs:261-270 | a correct drain leaves anchor, phase and carry standing for the truth |
| `WireTimeline.TimelineRefined` | client/src/wire.rs:200-272 | for every true timeline and every legal drain schedule the concatenated output is the timeline modulo 2^32 up to the last orderable edge, if and only if every edge is in reach of its anchor |
| `WireTimeline.RunTracks` | client/src/wire.rs:176-272 | after such a run the carry is exactly the falls not yet orderable and the anchor stands for the last true reference |
| `WireTimeline.PromptRunReaches` | client/src/wire.rs:205-214 | the comment's own condition, without modular arithmetic, puts every edge in reach |
| `WireTimeline.PromptHostReadsTruth` | client/src/wire.rs:200-218 | from a capture reset a host that meets that condition reads the true timeline, with the remaining falls in the carry |
| `WireTimeline.StalledFloorMisplaces` | client/src/wire.rs:264-269 | a concrete legal schedule whose empty drain, its floor exactly 2^31 - 1 ticks past the anchor, lands within a wrap of an edge and still misplaces it |
| `LivePolling.LivePollingReadsTruth` | client/src/wire.rs:192-218 | from a reset, with drains in time order, if an edge that missed a quiet drain is at most 4096 ticks older than its `now`, each edge is less than 65536 ticks after its predecessor or after 4096 before a quiet drain between them, and a quiet drain comes less than 2^31 - 1 ticks after the last reference, then every edge is in reach and the output is the true timeline |
| `LivePolling.MissedEdgeExact` | client/src/wire.rs:192-198 | a first fall that missed an empty drain is placed where it happened if and only if it is at most 4096 ticks older than that drain and less than a wrap newer than that |
| `LivePolling.MissedIsLive` | client/src/wire.rs:192-198 | the assumptions can be met: a fall that missed an empty drain inside the window and ships in the next is a live schedule |
| `LivePolling.StoodNext` | client/src/wire.rs:261-270 | between drains the anchor is the last edge or the last quiet drain's floor, never past an edge still to come |
| `LinkSession.Session.constructor` | client/src/session.rs:78-83 | an empty buffer and sequence number zero |
| `LinkSession.Session.AllocSeq` | client/src/session.rs:85-92 | never issues the reserved number and advances to the next of the cycle |
| `LinkSession.SeqNeverAmbiguous` | client/src/session.rs:85-92 | over any number of commands: no number is 0xFFFF, and two commands share one if and only if they are a multiple of 65535 apart |
| `LinkSession.Session.OnBytes` | client/src/session.rs:190-192 | the chunk is appended |
| `LinkSession.Session.NextRecord` | client/src/session.rs:195-209 | answers with the first record of the buffer, "not yet" or "malformed", and consumes exactly that record or nothing |
| `LinkSession.AwaitRecord` | client/src/client.rs:130-138 | however the pipe cuts the stream, the answer is the first record of everything received, and nothing behind it is consumed |
| `LinkSession.UnframeInverts` | client/src/session.rs:95-98 | a framed body comes back whole, with the rest of the stream, if and only if it has 1 to 65535 bytes |
| `LinkSession.FramesInvert` | client/src/session.rs:95-98 | a list of bodies framed one after the other comes back if and only if each has 1 to 65535 bytes |
| `LinkSession.NextExtends` | client/src/session.rs:195-209 | what has arrived decides: later bytes change neither a complete record nor an error |
| `LinkSession.ServeIsParse` | client/src/session.rs:190-209 | under every interleaving of chunks and polls the records handed out and those still buffered are the records of the whole stream, with the same suffix left over |
| `LinkSession.BrokenForever` | client/src/session.rs:195-209 | a malformed record is never skipped: every later poll breaks and no byte is lost |
| `LinkSession.DecodeInverts` | client/src/session.rs:212-280 | the client's decoder gives back what the adapter's encoder wrote, for exactly the records the encoder can say (version 1, at most 255 ticks a ring) |
| `LinkSession.DecodeAccepts` | client/src/session.rs:212-280 | a body is accepted if and only if its type byte is known, it is long enough for that type and names a known outcome; it is read as the kind the byte says, and the encoders set that byte |
| `LinkSession.NextInverts` | firmware/lib/host/src/link/record.rs:139-251 | a sealed record at the head of any stream is received as itself if and only if it is carriable |
| `LinkSession.StreamRoundTrip` | firmware/lib/host/src/link/record.rs:139-251 | a list of records survives encoding and parsing if and only if every one is carriable |
| `LinkSession.LinkDelivers` | firmware/lib/host/src/link/record.rs:1-11 | under any chunking and polling, a session polled dry has handed out exactly the records sent |
| `WireCapture.WireClient.DrainEdges` | client/src/wire.rs:123-140 | an EDGES record is unwrapped against the anchor; any other answer is reported and leaves the anchor alone |
| `WireCapture.ReadTimeline` | client/src/wire.rs:121-140 | reading n drains in turn consumes exactly their records and yields the run of the unwrap over them |
| `WireCapture.CaptureIsTruth` | client/src/wire.rs:11-20 | end to end: adapter records, any chunking, session, unwrap. The edges are the true timeline if and only if each is in reach |
| `UidPrefix.MaskIsShift` | client/src/mgmt.rs:29-31 | the bit tests of the model are the source's shifts |
| `UidPrefix.ChildSplits` | client/src/mgmt.rs:50-56 | the two children of a prefix partition the UIDs under it |
| `UidPrefix.FullIsUnique` | client/src/mgmt.rs:33-35 | a 128-bit prefix is matched by one UID |
| `UidPrefix.ServoAndClientAgree` | firmware/lib/osc-protocol/src/frame.rs:180-194 | the servo's byte-and-mask matcher is the client's bit-by-bit one, for every length |
| `DiscoveryWalk.ProbeSettled` | client/src/mgmt.rs:110-125 | the retry loop is `Settled`: silence only after three silences |
| `DiscoveryWalk.ResolveLeaf` | client/src/mgmt.rs:178-193 | the full-depth loop takes the first clean reply of three re-rolls, or none |
| `DiscoveryWalk.WalkOnce` | client/src/mgmt.rs:157-198 | one loop iteration is `Step` |
| `DiscoveryWalk.WalkBus` | client/src/mgmt.rs:152-202 | terminates for any verdicts whatever and returns a roster ascending by UID |
| `DiscoveryWalk.StepShrinks` | client/src/mgmt.rs:157-198 | each iteration shrinks the total size of the subtrees on the stack |
| `DiscoveryWalk.FinishApart` | client/src/mgmt.rs:152-202 | for any verdicts: stack prefixes stay pairwise incompatible and no found UID is under one |
| `DiscoveryWalk.RosterAscends` | client/src/mgmt.rs:200-201 | for any verdicts the roster is strictly ascending, so without duplicate UIDs |
| `DiscoveryWalk.StepRealExact` | client/src/mgmt.rs:157-198 | with silence and garble anywhere, an iteration records a servo that does not exist if and only if it is fooled: two or more matchers under its own child re-elect the UID and the sibling is silent |
| `DiscoveryWalk.PhantomExact` | client/src/mgmt.rs:132-136 | a roster holds only servos that exist if and only if no iteration of the walk was fooled |
| `DiscoveryWalk.StepKeepsExact` | client/src/mgmt.rs:157-198 | on a sound bus an iteration keeps a servo on the way to the roster if and only if it does not prune the entry above it as silent, take it for another servo, or skip it as an unresolved leaf |
| `DiscoveryWalk.MissingExact` | client/src/mgmt.rs:132-136 | a servo is missing from a roster if and only if some iteration of the walk dropped it so |
| `DiscoveryWalk.RosterExact` | client/src/mgmt.rs:152-202 | on a sound bus a roster is exactly the servos on the bus if and only if the walk was never fooled and dropped none |
| `DiscoveryWalk.WalkOnlyUndercounts` | client/src/mgmt.rs:132-136 | a bus that never echoes a superposition fools no walk |
| `DiscoveryWalk.WalkIsExact` | client/src/mgmt.rs:152-202 | if silence means nobody, one matcher reads clean and several may lie but not at a prefix and its child, the roster is exactly the servos on the bus |
| `DiscoveryWalk.WalkIsCheap` | client/src/mgmt.rs:127-130 | when several matchers always collide: at most 1 + 128 N entries popped and 1 + 130 N settled probes for N servos |
| `DiscoveryWalk.HonestBusExists` | client/src/mgmt.rs:75-106 | every set of servos has a bus that meets the assumptions above |
| `DiscoveryWalk.EchoDeceives` | client/src/mgmt.rs:161-171 | a concrete bus with two servos, sound everywhere else, on which the walk returns one servo that is not there |
| `DiscoveryWalk.Discover` | client/src/mgmt.rs:131-150 | the repeat-until-two-agree loop returns `Discovered`, about which the rows below speak |
| `DiscoveryWalk.DiscoveryStops` | client/src/mgmt.rs:139-149 | with every walk made in turn, discovery returns the first that agrees with the one before it, or the fifth of five when no two neighbours among them before it agree; there always is such a walk |
| `DiscoveryWalk.AgreedWalksAreExact` | client/src/mgmt.rs:132-149 | two exact walks in a row among the five, before any other two agree, make discovery exact, whatever the other walks read |
| `DiscoveryWalk.DiscoveryIsExact` | client/src/mgmt.rs:131-150 | discovery as a whole inherits both: no phantom servo, and exactness on a truthful bus |
| `DiscoveryWalk.DiscoveryPhantomExact` | client/src/mgmt.rs:131-150 | discovery reports a phantom if and only if the walk it returns was fooled, and misses a servo if and only if that walk dropped it |
| `DiscoveryWalk.AscendingIsUnique` | client/src/mgmt.rs:141-147 | two walks that found the same servos compare equal |
| `RawReplies.JudgeExact` | client/src/mgmt.rs:84-101 | a reply is read as silence if and only if it has no status, no garble and no trailing energy, and as a servo if and only if it is one clean Ok status with a UID under the prefix |
| `RawReplies.SettledExact` | client/src/mgmt.rs:110-125 | a settled verdict is silence if and only if three replies in a row are, and otherwise the verdict of the first that is not |
| `RawReplies.RerollExact` | client/src/mgmt.rs:178-193 | a full-depth collision is given up if and only if none of three more replies is clear |
| `RawReplies.RawIsSound` | client/src/mgmt.rs:75-125 | replies that are clear only for the one servo that matches give sound verdicts |
| `RawReplies.RawIsTruthful` | client/src/mgmt.rs:75-125 | if nobody answers where nobody matches, no three replies in a row are silent where somebody does, and a lone servo is heard clear or not at all, the verdicts are truthful |
| `RawReplies.QuietBusIsRaw` | client/src/mgmt.rs:75-106 | a bus without interference meets these assumptions |
| `RawReplies.RepliesDecide` | client/src/mgmt.rs:131-202 | from assumptions on single replies alone: no phantom in any walk or discovery, and exactness of both |
| `Cobs.EncodeFits` | firmware-old/open-servo-services/src/rpc_transport.rs:39-78 | n bytes encode to at most n + n/254 + 2 with no zero before the delimiter, and fit the 130-byte buffer if and only if n is at most 128 |
| `Cobs.RoundTrip` | firmware-old/open-servo-services/src/rpc_transport.rs:126-157 | decoding an encoding gives the data back if and only if it fits the output |
| `Cobs.DecodeExact` | firmware-old/open-servo-services/src/rpc_transport.rs:126-157 | a zero-free frame decodes to a message if and only if it encodes it, with or without the empty group that closes a full last one, and the message fits |
| `Cobs.CutFrameIsNotTheMessage` | firmware-old/open-servo-services/src/rpc_transport.rs:139-142 | a frame cut short never yields the message it was cut from, save that a full last group may lose the empty one that closes it |
| `Cobs.MessagesResync` | firmware-old/open-servo-services/src/rpc_transport.rs:83-120 | after any bytes ended by a zero the rest of the stream is received as if fresh |
| `Cobs.FrameDelivered` | firmware-old/open-servo-services/src/rpc_transport.rs:83-120 | one frame gives at most one message, and its own exactly when that is not empty and fits both buffers |
| `Cobs.StreamRoundTrip` | firmware-old/open-servo-services/src/rpc_transport.rs:39-120 | for all buffer sizes a list of messages is received as sent if and only if each is not empty, fits the output, and fits the receive buffer with its delimiter |
| `Cobs.TransportRoundTrip` | firmware-old/open-servo-services/src/rpc_transport.rs:9-18 | at the transport's own sizes: any list of non-empty messages of at most 128 bytes, also behind arbitrary garbage |
| `Cobs.LostFrames` | firmware-old/open-servo-services/src/rpc_transport.rs:83-120 | an empty message, and one whose frame fills the receive buffer, yield nothing |
| `RttTransport.CobsDecode` | firmware-old/open-servo-services/src/rpc_transport.rs:126-157 | the in-place decoder writes the decoded message, or reports nothing |
| `RttTransport.RttTransport.CloseGroup` | firmware-old/open-servo-services/src/rpc_transport.rs:48-54 | patches the open group's code byte and opens the next group behind it |
| `RttTransport.RttTransport.EncodeTx` | firmware-old/open-servo-services/src/rpc_transport.rs:39-72 | back-patching code bytes in a bounded buffer produces the encoding exactly for data of at most 128 bytes |
| `RttTransport.RttTransport.Send` | firmware-old/open-servo-services/src/rpc_transport.rs:39-78 | what is written is that encoding |
| `RttTransport.RttTransport.Shift` | firmware-old/open-servo-services/src/rpc_transport.rs:93-104 | the in-place move drops the first n bytes held |
| `RttTransport.RttTransport.Recv` | firmware-old/open-servo-services/src/rpc_transport.rs:83-120 | however reads are cut, a call returns the next message owed by the bytes held and pending, or nothing is lost |
| `RttTransport.ReceiveMany` | firmware-old/open-servo-services/src/rpc_transport.rs:83-120 | any number of calls: the messages returned followed by those still owed are those owed at the start |
| `RttTransport.DryPipeOwesNothing` | firmware-old/open-servo-services/src/rpc_transport.rs:83-120 | once the pipe is dry and no delimiter is held nothing is owed, so the returned messages are all of them |
| `RttTransport.SendAll` | firmware-old/open-servo-services/src/rpc_transport.rs:39-78 | messages of at most 128 bytes sent one after the other put their stream on the pipe |
| `RttTransport.ReceiveStream` | firmware-old/open-servo-services/src/rpc_transport.rs:83-120 | a new transport that reads such a stream dry, in chunks of any size, has returned exactly the messages sent if and only if each is deliverable |
| `Persist.IndexIsPosition` | firmware-old/open-servo-registry/src/lib.rs:124-144 | with distinct hashes the hash map finds each field at its own index |
| `Persist.StoreAgrees` | firmware-old/open-servo-services/src/persist.rs:376-401 | updating one cache entry with its flash item keeps all entries in agreement |
| `Persist.PersistTask.RestoreField` | firmware-old/open-servo-services/src/persist.rs:314-369 | a restored field puts the stored bytes into shadow and cache; absence, a length mismatch or a failure changes neither |
| `Persist.PersistTask.SaveField` | firmware-old/open-servo-services/src/persist.rs:376-401 | cache and flash change together or not at all |
| `Persist.PersistTask.TakeSnapshot` | firmware-old/open-servo-services/src/persist.rs:407-447 | refused while torque is on; otherwise each entry is the field's shadow bytes, all are present if no read failed, and the error count is the number of failed reads modulo 256 |
| `Persist.PersistTask.SaveChangedFields` | firmware-old/open-servo-services/src/persist.rs:452-488 | stores are tried exactly for the entries of at most 8 bytes that are not empty and differ from the cache; without errors flash and cache hold the whole snapshot, and no other key changes |
| `Persist.PersistTask.HandleSave` | firmware-old/open-servo-services/src/persist.rs:501-534 | without faults, NoChange if and only if every persisted field of the shadow is already cached, and as many stores as fields that are not; Ok or NoChange means flash holds every persisted field, if no read failed or there are fewer than 256 fields; WriteFailed means exactly that a write failed or the failed reads are no multiple of 256; the generation counts Ok saves modulo 2^16 |
| `Persist.PersistTask.HandleFactoryReset` | firmware-old/open-servo-services/src/persist.rs:539-593 | Ok means that only address 7, unless all is reset, and address 8, if ID and baud rate are kept, remain; these and foreign keys are never touched |
| `Persist.PersistTask.Init` | firmware-old/open-servo-services/src/persist.rs:608-649 | without errors the shadow holds every matching stored field; FirstBoot if and only if none matches, Ok if and only if there are fields and all match, LengthMismatch otherwise; WriteFailed if and only if something failed |
| `Persist.RestoreKeeps` | firmware-old/open-servo-services/src/persist.rs:314-369 | restoring one field keeps those already restored when ranges are disjoint |
| `Persist.Service` | firmware-old/open-servo-services/src/persist.rs:608-670 | over every run of init, saves and resets with arbitrary failures a non-empty cache entry equals the flash item under that key |
| `Persist.SaveThenReboot` | firmware-old/open-servo-services/src/persist.rs:501-649 | what a trusted report says is stored is what a fresh task's error-free init puts back into the shadow |
| `Persist.SaveAgain` | firmware-old/open-servo-services/src/persist.rs:461-533 | a save without faults of a table the cache holds tries no store and reports NoChange |
| `Persist.SaveTwice` | firmware-old/open-servo-services/src/persist.rs:501-534 | a second save straight after a trusted one reports NoChange, and both together make the first one's stores |
| `Pid.NewAutoAntiWindup` | firmware-old/open-servo-math/src/pid.rs:74-90 | for i16 limits in either order the integrator bounds are 256 times the output bounds |
| `Pid.PidI16.WithIntegralLimits` | firmware-old/open-servo-math/src/pid.rs:95-131 | both pairs of limits are put in order and the history starts at zero |
| `Pid.PidI16.StepOnce` | firmware-old/open-servo-math/src/pid.rs:146-203 | the in-place step is `Step` |
| `Pid.PidI16.SetOutputLimitsAutoAntiWindup` | firmware-old/open-servo-math/src/pid.rs:247-267 | new limits, in either order, re-derive the integrator bounds and clamp the integrator |
| `Pid.StepIsIdeal` | firmware-old/open-servo-math/src/pid.rs:146-203 | with i16 inputs and the derivative on measurement no i32 operation wraps: the step is the exact one, its output within limits |
| `Pid.OnErrorExact` | firmware-old/open-servo-math/src/pid.rs:146-203 | with the derivative on error a step overflows if and only if the derivative product does, and is otherwise the exact one |
| `Pid.OnErrorRunExact` | firmware-old/open-servo-math/src/pid.rs:146-203 | a whole run overflows nowhere if and only if every sample's own product fits, a condition on the inputs alone, and is then the exact run |
| `Pid.OnErrorOverflows` | firmware-old/open-servo-math/src/pid.rs:173-191 | from a newly constructed controller two legal samples drive the output to the wrong limit |
| `Pid.RunStaysValid` | firmware-old/open-servo-math/src/pid.rs:74-267 | over every run of samples, limit and gain changes and resets: never an overflow, output in the current limits, integrator in 256 times them |
| `Pid.OutputAlwaysClamped` | firmware-old/open-servo-math/src/pid.rs:155-203 | even where an operation wraps, output and integrator stay within their limits |
| `Pid.WindupUnwinds` | firmware-old/open-servo-math/src/pid.rs:155-171 | in either derivative mode, under sustained error of at most -e the integrator falls by ki times e a step, down to its clamp |
| `Pid.SaturationRecovers` | firmware-old/open-servo-math/src/pid.rs:155-171 | in either mode and however long it was saturated, the integrator is at its lower clamp after (max - min) / (ki e) steps |
| `Kernel.ServoKernel.constructor` | firmware-old/open-servo-kernel/src/kernel.rs:45-52 | a booted kernel |
| `Kernel.ServoKernel.UpdateFrame` | firmware-old/open-servo-kernel/src/state.rs:128-137 | the frame is stored and the position updated when present |
| `Kernel.ServoKernel.TickFast` | firmware-old/open-servo-kernel/src/kernel.rs:92-144 | state and command are `FastTick` |
| `Kernel.ServoKernel.PositionPid` | firmware-old/open-servo-kernel/src/kernel.rs:219-229 | one PID step, clamped to i16 |
| `Kernel.ServoKernel.TickSystem` | firmware-old/open-servo-kernel/src/kernel.rs:164-199 | state and pending work are `SystemTick` |
| `Kernel.ServoKernel.ApplyOp` | firmware-old/open-servo-kernel/src/kernel.rs:289-328 | state and result are `Apply` |
| `Kernel.ServoKernel.CommitShadow` | firmware-old/open-servo-kernel/src/kernel.rs:475-588 | kernel, dirty set and result are `Commit`, whose effect register by register the `HostWrites` rows state |
| `Kernel.FastTickIsGated` | firmware-old/open-servo-kernel/src/kernel.rs:92-144 | the driver is enabled if and only if engaged, driver ok and no fault; otherwise the command is the safe one, the controller does not step, and the reason kept is the first that fails in that order |
| `Kernel.CoastsNearSetpoint` | firmware-old/open-servo-kernel/src/kernel.rs:114-143 | an enabled driver coasts without effort exactly inside the hold deadband, for gaps that fit an i32, and otherwise drives with the effort of the mode in force; larger gaps wrap as stated |
| `Kernel.AfterLimited` | firmware-old/open-servo-kernel/src/kernel.rs:43-249 | every frame, tick, op and commit keeps the PID's limits at the configured effort limit |
| `Kernel.RunLimited` | firmware-old/open-servo-kernel/src/kernel.rs:43-249 | and so does every sequence of them |
| `Kernel.EffortStaysLimited` | firmware-old/open-servo-kernel/src/kernel.rs:219-229 | for every i16 limit, after any run from boot the position-mode effort is within it |
| `Kernel.ModeChangesOnlyAtSystemTick` | firmware-old/open-servo-kernel/src/kernel.rs:164-249 | the mode changes only at a System tick while disengaged, to the pending mode, with the integrator and both previous values cleared |
| `Kernel.SettledModeStays` | firmware-old/open-servo-kernel/src/kernel.rs:231-249 | with nothing pending and no new request the mode never changes |
| `Kernel.PendingModeSurvives` | firmware-old/open-servo-kernel/src/kernel.rs:164-249 | over every run a pending mode waits unchanged until a disengaged System tick applies it, unless superseded |
| `Kernel.CommitIsAllOrNothing` | firmware-old/open-servo-kernel/src/kernel.rs:475-588 | a rejected commit changes neither state nor dirty bits; it is rejected exactly for a dirty mode byte above 1 |
| `Kernel.PulsesRound` | firmware-old/open-servo-registry/src/facade.rs:116-119 | the pulse conversion rounds to nearest if and only if its i32 product does not overflow |
| `Kernel.DisengageResets` | firmware-old/open-servo-kernel/src/kernel.rs:564-570 | a commit clears the integrator and both previous values exactly when it disengages the servo |
| `Kernel.AcknowledgeClears` | firmware-old/open-servo-kernel/src/kernel.rs:277-308 | an acknowledge clears the bit it names and no other of the 32, and changes nothing else; an id of 32 or more is refused |
| `Kernel.LatchThenAcknowledge` | firmware-old/open-servo-kernel/src/kernel.rs:309-313 | acknowledging all clears every bit; a latched fault sets its own bits and clears none |
| `Kernel.SoftResetServed` | firmware-old/open-servo-kernel/src/kernel.rs:164-199 | an accepted soft reset waits through any run without a System tick, and the next System tick clears the controller's history |
| `Kernel.RequestedModeIsServed` | firmware-old/open-servo-kernel/src/kernel.rs:231-299 | a mode request is refused while engaged; otherwise, unless replaced, the first System tick that finds the servo disengaged puts it in force |
| `HostWrites.GoalIsCommitted` | firmware-old/open-servo-kernel/src/kernel.rs:532-578 | writing any i32 goal and committing changes the setpoint to it and nothing else, unless a facade goal is waiting, which wins |
| `HostWrites.FacadeGoalWins` | firmware-old/open-servo-kernel/src/kernel.rs:532-578 | a facade goal commits its centidegrees whatever the vendor register holds |
| `HostWrites.TorqueIsCommitted` | firmware-old/open-servo-kernel/src/kernel.rs:518-570 | a torque byte at 581 engages when not zero and disengages when zero, clears the controller if that disengages, and changes nothing else, unless a facade torque byte is waiting, which wins |
| `HostWrites.FacadeTorqueWins` | firmware-old/open-servo-kernel/src/kernel.rs:518-570 | a facade torque byte at 64 does the same whatever the vendor register holds |
| `HostWrites.ModeIsCommitted` | firmware-old/open-servo-kernel/src/kernel.rs:488-574 | mode byte 0 makes position control pending and 1 open loop, and changes nothing else; any other byte rejects the commit |
| `HostWrites.EffortIsCommitted` | firmware-old/open-servo-kernel/src/kernel.rs:550-582 | any i16 written to the PWM register becomes the open-loop effort and changes nothing else, unless a facade PWM is waiting, which wins |
| `HostWrites.FacadeEffortWins` | firmware-old/open-servo-kernel/src/kernel.rs:550-582 | a facade PWM becomes the open-loop effort whatever the vendor register holds |
| `Executor.Queue.Enqueue` | firmware-old/open-servo-runtime/src/executor.rs:246-254 | a bounded FIFO that refuses when full |
| `Executor.ControlExecutor.ServeOps` | firmware-old/open-servo-runtime/src/executor.rs:208-221 | the op loop over kernel and queues is `Serve` |
| `Executor.ControlExecutor.ApplyPendingOps` | firmware-old/open-servo-runtime/src/executor.rs:194-221 | the stashed result goes first, and while it is stuck nothing is served |
| `Executor.ControlExecutor.OnAdcComplete` | firmware-old/open-servo-runtime/src/executor.rs:117-187 | executor, queues and dirty set after one interrupt are `Adc`, whose service `OpLatency.SlowTickServes` states; a medium tick leaves the table as published; the returned command is the fast tick's on the new frame |
| `Executor.EnqueueOps` | firmware-old/open-servo-runtime/src/main_loop.rs:65-80 | ops are queued in order while there is room, each of the others is answered Busy, and an error is reported exactly when one was refused |
| `Executor.ParseAndEnqueue` | firmware-old/open-servo-runtime/src/main_loop.rs:49-81 | all bytes are parsed, and the ops they and earlier bytes make are queued so |
| `Executor.DrainAndRespond` | firmware-old/open-servo-runtime/src/main_loop.rs:100-115 | every queued result is answered once, in order |
| `Executor.ServeKeepsResults` | firmware-old/open-servo-runtime/src/executor.rs:208-221 | queued and stuck results are the old ones followed by those of the ops applied, at most the budget |
| `Executor.ServeThreads` | firmware-old/open-servo-runtime/src/executor.rs:208-221 | each result is `apply_op` of its op on the kernel the previous op left |
| `Executor.AdcConserves` | firmware-old/open-servo-runtime/src/executor.rs:117-221 | one interrupt loses and invents nothing, applies at most 4 ops, and touches no op while a result is stuck behind a full queue |
| `Executor.RunConserves` | firmware-old/open-servo-runtime/src/executor.rs:117-221 | over every run with arbitrary queue fullness: delivered, queued and stuck results are the ops applied, mapped in order; applied and queued ops are those accepted; n fast ticks give n/10 medium and n/50 slow ticks |
| `Executor.BootConserved` | firmware-old/open-servo-runtime/src/executor.rs:84-92 | the boot state meets both invariants |
| `Executor.RunReplays` | firmware-old/open-servo-runtime/src/executor.rs:117-221 | after any interleaving the kernel is its own run of the frames, ticks, commits and applied ops in order, and the log is that run's ops with the kernel each met |
| `Executor.ResultsReplayKernel` | firmware-old/open-servo-runtime/src/executor.rs:117-221 | from boot every result delivered, queued or stashed is `apply_op` of its op on the kernel the run before it left |
| `Executor.CommandsStayLimited` | firmware-old/open-servo-runtime/src/executor.rs:117-187 | in every run from boot each command is gated, within the configured effort, and in the mode booted |
| `Executor.Outstanding` | firmware-old/open-servo-runtime/src/executor.rs:194-221 | accepted ops are those answered, in the result queue, stuck or still queued |
| `Executor.PoliteNeverRefused` | firmware-old/open-servo-runtime/src/main_loop.rs:49-115 | for any k that both queues can hold, a host with at most k ops outstanding is never refused and never sees a stuck result |
| `OpLatency.ServeCounts` | firmware-old/open-servo-runtime/src/executor.rs:208-221 | the op loop serves until its budget, the ops or the room run out; the op that finds no room is applied and its result stashed |
| `OpLatency.SlowTickServes` | firmware-old/open-servo-runtime/src/executor.rs:117-221 | exactly the tenth fast tick of the fifth medium tick touches the queues: it flushes the stash first and serves four ops, or as many as there are or have room; without room for the stash it serves none |
| `OpLatency.AnsweredWithin` | firmware-old/open-servo-runtime/src/executor.rs:117-221 | over every run in which the host has emptied the result queue before each slow tick, n slow ticks apply n times min(4, queue) ops, and one more answers them |
| `OpLatency.OpsAreDelivered` | firmware-old/open-servo-runtime/src/executor.rs:117-221 | in such a run every op queued is delivered, with its own result and in order, once the host has collected after 50 interrupts for every min(4, queue) ops and 50 more |
| `OpLatency.CollectingEmpties` | firmware-old/open-servo-runtime/src/main_loop.rs:100-115 | collecting until the queue is dry delivers every result in it, in order, so a host can always do so |
| `EepromMap.CollectFields` | firmware-old/open-servo-macros/src/regmap.rs:621-745 | the layout loop is `LaidOut`, u16 wrap-around included |
| `EepromMap.LayoutExact` | firmware-old/open-servo-macros/src/regmap.rs:621-745 | the computed layout is the unbounded one if and only if every EEPROM field of it begins below 65536 |
| `EepromMap.LaidOutRecorded` | firmware-old/open-servo-macros/src/regmap.rs:614-626 | it always has u16 addresses and u8 sizes |
| `EepromMap.LayoutPacks` | firmware-old/open-servo-macros/src/regmap.rs:621-745 | in the unbounded layout fields follow in order from the base and never share a byte |
| `EepromMap.BuildBitmaps` | firmware-old/open-servo-macros/src/regmap.rs:875-898 | rejects exactly when some EEPROM byte is outside the two windows, and otherwise sets exactly the bits of the EEPROM bytes |
| `EepromMap.RangeMaskBits` | firmware-old/open-servo-registry/src/lib.rs:223-231 | the mask has exactly the bits from start to the lesser of end and 64 |
| `EepromMap.TouchesIsScan` | firmware-old/open-servo-registry/src/lib.rs:195-221 | for every offset and length the bitmap test is true if and only if the range shares a byte with some EEPROM field |
| `EepromMap.PushPersistKeys` | firmware-old/open-servo-registry/src/policy.rs:38-61 | the loop pushes `Pushed` on the truncated length and reports whether it pushed any |
| `EepromMap.PolicyIsScan` | firmware-old/open-servo-registry/src/policy.rs:38-61 | when every field reports its size the keys pushed are exactly the hashes of the fields touched, in order |
| `EepromMap.PolicyCutsLength` | firmware-old/open-servo-registry/src/policy.rs:38-61 | for every `usize` length the keys are those of the length modulo 65536, and those of the whole range if and only if no field is lost |
| `EepromMap.PolicyExactIffReported` | firmware-old/open-servo-registry/src/policy.rs:38-61 | on every layout whose addresses do not wrap, the policy is exact on all ranges if and only if every field reports its size or none has a byte |
| `EepromMap.LayoutLaid` | firmware-old/open-servo-macros/src/regmap.rs:324-434 | every unbounded layout of the generator meets that lemma's assumption |
| `EepromMap.ScalarLayout` | firmware-old/open-servo-macros/src/regmap.rs:324-434 | EEPROM fields that are scalars of at most 4 bytes report their size |
| `AdcChannels.CollectFeatures` | firmware-old/open-servo-macros/src/adc_channels.rs:220-230 | first occurrences, in order |
| `AdcChannels.GenerateIndex` | firmware-old/open-servo-macros/src/adc_channels.rs:324-369 | the generated constants are `Constants` |
| `AdcChannels.ActiveIsMask` | firmware-old/open-servo-macros/src/adc_channels.rs:172-202 | a combination's cfg is active if and only if its channel is enabled and it is the combination of the enabled prior features |
| `AdcChannels.ActiveValue` | firmware-old/open-servo-macros/src/adc_channels.rs:204-217 | that combination's value is the number of enabled channels before it |
| `AdcChannels.IndexIsRank` | firmware-old/open-servo-macros/src/adc_channels.rs:324-369 | for every channel list and feature set an enabled channel has exactly one active constant, its rank, and a disabled one none |
| `AdcChannels.CountIsRank` | firmware-old/open-servo-macros/src/adc_channels.rs:292-316 | the generated count is the number of enabled channels |
| `AdcChannels.IndexIsNumbering` | firmware-old/open-servo-macros/src/adc_channels.rs:292-369 | for every channel list and feature set the active constants are numbered 0 to count - 1, each once, in channel order |
| `Thermal.ThermalModel.constructor` | firmware-old/open-servo-math/src/thermal.rs:50-60 | starts at 25 degrees |
| `Thermal.ThermalModel.UpdateFast` | firmware-old/open-servo-math/src/thermal.rs:70-76 | saturating accumulation of current squared |
| `Thermal.ThermalModel.UpdateSlow` | firmware-old/open-servo-math/src/thermal.rs:89-137 | the new estimate is `Slow`, and the reported value is within -40 to 200 degrees |
| `Thermal.ThermalModel.Init` | firmware-old/open-servo-math/src/thermal.rs:157-162 | the estimate is ambient |
| `Thermal.RunInRange` | firmware-old/open-servo-math/src/thermal.rs:132-136 | under any current, ambient and parameters the estimate is in range from the first slow update on |
| `Thermal.RelaxStep` | firmware-old/open-servo-math/src/thermal.rs:107-136 | an idle update no longer than R times C moves the reported temperature toward ambient and not past it |
| `Thermal.RelaxRun` | firmware-old/open-servo-math/src/thermal.rs:70-137 | and so does every idle run |
| `Thermal.CoarseStepCrosses` | firmware-old/open-servo-math/src/thermal.rs:118-130 | any longer step, from a gap of R centidegrees, lands below ambient |
| `Thermal.TickMoves` | firmware-old/open-servo-math/src/thermal.rs:112-133 | an idle update changes nothing exactly when rounding swallows the drift, and otherwise uses up travel |
| `Thermal.TicksSettle` | firmware-old/open-servo-math/src/thermal.rs:107-136 | every idle run stalls after at most as many updates as there are Q16 counts to travel |
| `Thermal.MeanIsExact` | firmware-old/open-servo-math/src/thermal.rs:70-97 | up to 65535 samples give the exact mean of the squares |
| `Thermal.HeatNeverWraps` | firmware-old/open-servo-math/src/thermal.rs:103-127 | with such a mean no i32 or i64 product overflows |
| `Thermal.MoreCurrentIsHotter` | firmware-old/open-servo-math/src/thermal.rs:103-136 | from the same temperature a larger mean square reads at least as hot if its heat fits an i64, and otherwise at most as hot |
| `Thermal.HeatBalance` | firmware-old/open-servo-math/src/thermal.rs:115-133 | the estimate never falls under net heating nor rises under net cooling, unless the heat leaves i64: then it is at the far end of its range |
| `Filter.LowPass.Sample` | firmware-old/open-servo-math/src/filter.rs:91-109 | the in-place update is `Update`, at either width and for every shift |
| `Filter.UpdateIsIdeal` | firmware-old/open-servo-math/src/filter.rs:147-165 | up to shift 15 (i16) and 31 (i32) no operation overflows |
| `Filter.WiderShiftWraps` | firmware-old/open-servo-math/src/filter.rs:99-106 | one shift more and the least sample pushes the state of the greatest up |
| `Filter.RunInHull` | firmware-old/open-servo-math/src/filter.rs:91-165 | since the last reset every output lies between the least and the greatest sample |
| `Filter.HoldStep` | firmware-old/open-servo-math/src/filter.rs:99-106 | on a constant input the distance shrinks until it is under one count and then stays, output s from above, s or s - 1 from below |
| `Filter.FilterSettles` | firmware-old/open-servo-math/src/filter.rs:91-165 | the filter itself settles within as many samples as counts of distance |
| `Compliance.ComplianceModel.constructor` | firmware-old/open-servo-math/src/compliance_model.rs:86-93 | full cap, normal, no count |
| `Compliance.ComplianceModel.Update` | firmware-old/open-servo-math/src/compliance_model.rs:103-161 | the three-state update is `Step`; the limits returned are plus and minus the cap |
| `Compliance.ComplianceModel.ApplyBackoff` | firmware-old/open-servo-math/src/compliance_model.rs:164-171 | the cut cap, not below 10% |
| `Compliance.ComplianceModel.ApplyRecovery` | firmware-old/open-servo-math/src/compliance_model.rs:174-187 | the raised cap, saturating |
| `Compliance.BackoffNeverRises` | firmware-old/open-servo-math/src/compliance_model.rs:164-171 | a factor of at most 256 gives the cap times factor / 256, rounded down, or the floor, and never raises the cap |
| `Compliance.RecoveryNeverFalls` | firmware-old/open-servo-math/src/compliance_model.rs:174-187 | recovery never lowers the cap if and only if rate times dt, modulo 2^32, is at most 2^31 - 1 or above 2^32 - 1000000 |
| `Compliance.LongStepFalls` | firmware-old/open-servo-math/src/compliance_model.rs:178-181 | from a new model three readings, the last a second long at 10% per second, leave the cap 1017 below its floor |
| `Compliance.StepBandExact` | firmware-old/open-servo-math/src/compliance_model.rs:103-187 | one reading takes a cap out of 3277 to 32767 if and only if it is a recovery whose negative product exceeds what the cap has to give |
| `Compliance.RunBandExact` | firmware-old/open-servo-math/src/compliance_model.rs:103-187 | a whole run stays in the band if and only if none of its readings is such a step |
| `Compliance.RunInBand` | firmware-old/open-servo-math/src/compliance_model.rs:103-187 | a run whose products are safe stays in the band |
| `Compliance.CapMoves` | firmware-old/open-servo-math/src/compliance_model.rs:112-158 | the cap falls only on an over-limit reading and rises only in Recovering on a reading below limit minus hysteresis |
| `Compliance.FallsOnlyDeglitched` | firmware-old/open-servo-math/src/compliance_model.rs:113-127 | after any history a normal limiter cuts the cap only if at least `deglitch_samples` present readings in a row were over the limit |
| `Compliance.SustainedOverLimits` | firmware-old/open-servo-math/src/compliance_model.rs:113-138 | and that many in a row always end in limiting |
| `Compliance.RecoversWithin` | firmware-old/open-servo-math/src/compliance_model.rs:140-157 | clear readings whose product is at least `step` million each restore the full cap once they add up |
| `Compliance.RecoveryRises` | firmware-old/open-servo-math/src/compliance_model.rs:174-187 | a cap that is not full rises if and only if rate times dt, modulo 2^32, is between a million and 2^31 - 1 |
| `Compliance.TinyStepsNeverRecover` | firmware-old/open-servo-math/src/compliance_model.rs:174-187 | with steps under one effort unit the cap only falls, over every run |
| `Gain.ScanDecimal` | firmware-old/open-servo-math/src/gain.rs:136-173 | the byte loop is the left-to-right scan, the first error winning |
| `Gain.ParseGain2dp` | firmware-old/open-servo-math/src/gain.rs:112-187 | sign, scan, padding and scaling are `Parse`, error kinds included |
| `Gain.ParseMeans` | firmware-old/open-servo-math/src/gain.rs:110-187 | a text is accepted if and only if it is a decimal whose hundredths fit an i32, with that value cut to two decimals |
| `Gain.PrintersAgree` | firmware-old/open-servo-math/src/gain.rs:59-89 | both printers write the same text for every value but i32::MIN |
| `Gain.RoundTrip` | firmware-old/open-servo-math/src/gain.rs:59-187 | parsing the printed text gives the value back for every value but i32::MIN |
| `Gain.ToQ88IsExact` | firmware-old/open-servo-math/src/gain.rs:48-56 | the early clamp loses nothing: the result is the exact conversion, saturated |

## Left out

- Pipe and exchange errors in the client (`?` on send and receive): they end the call; the walk is modelled on a bus that answers every probe.
- Wall-clock pauses, settling delays and timeouts: no bearing on the properties.
- Client encoders for SUBMIT and the wire verbs: fixed layouts over `frame` and `alloc_seq`, which are modelled.
- The adapter's output buffer: its encoders are modelled as the bytes they write, so a too small buffer is not.
- Persist telemetry (`write_telemetry`): written but never read back by the service.
- Kernel telemetry (`publish_telemetry`, `publish_vendor_to_facade`) and the debug log: output only; a run may commit any shadow contents at any time, so nothing is assumed of what they write.
- Thermal.ThermalModel.UpdateSlow: a thermal resistance of zero makes the source panic on its division, so the update requires it not to be.
- `FilterU16`: its wrapping subtraction divides a wrapped difference, so the signed filters' claims do not carry over.
- Persist.PersistTask.HandleSave: with 256 fields or more and failed reads, a success report promises nothing about the fields not read, because the source's counter wraps.
- Executor.ControlExecutor.OnAdcComplete: which telemetry bytes a medium tick publishes is a parameter.
- `from_f32` and `as_f32` of a gain, `ntc_gen.rs` and the CAD and drawing scripts: floating point.
- `client/src/cyclic.rs`, `blocking.rs`, the fake adapter and the examples: sequencing over the modelled parts.
- USB, RTT, UART, flash-driver, interrupt and embassy code: plumbing over hardware and unseen libraries. The SPSC queue is a bounded FIFO, the flash map a map in which a failed operation changes nothing, the shadow a byte table with dirty addresses.
