# dvrbridge media path, verified

dvrbridge turns the byte stream of an old CCTV recorder into RTP, and promises a byte-for-byte stream copy
with reframing only. This project models the code that does the reframing and proves what that promise
amounts to, from the device's bytes to the NAL units a client ends up with.

`dafny verify dfyconfig.toml` checks everything. The files follow the path of a frame:

| file | models |
|---|---|
| `Bytes.dfy`, `Arithmetic.dfy`, `Results.dfy` | byte strings with `find` and `struct` fields, division, outcomes |
| `AnnexB.dfy` | `iter_nals` and the incremental `AnnexBSplitter` (ITU-T Rec. H.264, Annex B) |
| `SplitterLoss.dfy` | what the size cap of `AnnexBSplitter` costs, and exactly when it costs nothing |
| `Emulation.dfy` | `strip_emulation_prevention` and the standard's insertion (section 7.4.1) |
| `Bits.dfy` | `_BitReader` and the Exp-Golomb codes (section 9.1) |
| `Sps.dfy`, `SpsEncoding.dfy` | `parse_sps`, and an encoder for the syntax of section 7.3.2.1.1 |
| `Simulator.dfy` | `frame_header` and `split_access_units`, the printers of `testing.py` |
| `NetDvr3.dfy`, `NetDvr3Streams.dfy` | the NetDvrV3 driver, and what it makes of whole streams |
| `NetDvr3Recovery.dfy` | its recovery from any number of damaged units and false headers |
| `NetDvr3Emission.dfy` | exactly when only units that were sent come out of a damaged stream |
| `Timestamps.dfy` | `TimestampMapper` |
| `Hub.dfy`, `HubRuns.dfy` | `Stream._on_frame`, its subscribers, and whole runs of a hub with reconnects and restarts |
| `HubDecoding.dfy` | which parameter sets subscribers get, and what readiness means, over whole runs |
| `Supervisor.dfy` | the one-driver-per-stream supervision of `_run` |
| `Rtp.dfy`, `RtpLaws.dfy` | `H264Packetizer`, the receiver, the packet-stream laws, `$` framing |
| `Pump.dfy`, `EndToEnd.dfy` | the media pump, its client, and the theorem about the whole path |

## How the model is built

A byte is an `int` in 0..255, and masks and shifts are written as division and remainder. Code that mutates
an object or a buffer is a class or a method with loops, proved equal to a specification function; the
theorems are about those functions. The driver has two specifications. `FrameLoop` is exact: it follows
positions in the stream and how far the buffer reaches ahead, and the buffer code is proved to do the same,
for every size of the preamble reads. `PureFrames` knows no buffers and no limits, and every run is proved to
emit a prefix of its frames. A device is the finite string of bytes that arrive before the connection closes
or a read times out; the driver's run on a longer string emits the same frames and perhaps more
(`NetDvr3Streams.RunOnlyGrows`, and `TimeoutOnlyShortens` for whole runs), so a timeout only decides where the
frames stop. The supervisor is a state machine whose steps are the stretches of code between two awaits.

## Where the code and its comments part

- `dvrbridge/hub.py:183-188` says a subscriber that arrives during teardown is always served by the restart at the end of
  `_run`. It is not: `Supervisor.RacingSubscriberIsStranded` gives the run, `Supervisor.StrandedIff` the exact
  condition for a step and `Supervisor.StrandedRunIff` for whole runs, and `Supervisor.OnlyCallersStartRunners`
  shows that the restart never starts anything.
- `dvrbridge/hub.py:206` says a decoder joining at a keyframe has parameter sets. `Hub.ColdKeyframe` and `Hub.SpsAlone`
  are inputs where it has not; `Hub.KeyframeParameterSets` is the exact condition for every cache, and
  `HubDecoding.ConsumedKeyframes` the same for whatever a subscriber consumes first, in every run.
- `dvrbridge/hub.py:168-172` says a DESCRIBE must wait for the new parameter sets of a reconnected device. That holds
  in every run without a restart of `_run` (`HubDecoding.ReadyIsFresh`). A restart leaves the cached sets alone:
  `HubDecoding.StalePps` is a run that ends up ready with a new SPS and the PPS of the connection before.
  `HubDecoding.StaleIff` says for every run exactly when readiness is stale and which set is the old one, and
  `HubDecoding.RestartIsStale` which first units make it so.
- `dvrbridge/h264.py:60-61` says nothing is dropped inside a NAL. The size cap drops one that outgrows it:
  `SplitterLoss.CapLosesNal` is an input, `SplitterLoss.FedIsAllIff` says for all inputs exactly which drops lose
  nothing, and where dropped residues hold data at all, `SplitterLoss.ChunkingInvarianceIff` leaves just one
  condition: that nothing is ever dropped.
- `docs/DESIGN.md:117-121` says a magic inside a payload is rejected, because a frame is corroborated before it is
  emitted. It is corroborated, on every stream (`NetDvr3Streams.EmittedAreCorroborated`), but a payload can corroborate
  itself: in `NetDvr3Emission.EmbeddedWitness` an overlong unit ends in a whole framed unit, and that is what comes out.
  `NetDvr3Emission.OnlySentIff` is the exact condition for every damaged stream and every run: only undamaged units
  are emitted if and only if no header on the way is corroborated. `QuietOnlySentIff` puts it in the bytes sent.
- `dvrbridge/rtsp/rtp.py` accepts any MTU and any NAL. `RtpLaws.TinyMtu` and `RtpLaws.TypeFuAIsLost` are inputs that
  do not survive; `RtpLaws.RoundTripIff` is exact about it.

## Model

| member | source | states |
|---|---|---|
| EndToEnd.StreamCopy | dvrbridge/rtsp/server.py:311-326 | end to end: for every delivery schedule, any damage the driver can recover from, every interleaving at the hub and every time of joining, a client that dropped nothing and is drained gets exactly the NALs of the undamaged units since it joined, from the first keyframe on, all but the last |
| EndToEnd.StreamCopyToPromptClient | dvrbridge/hub.py:212-222 | the same with conditions on the bytes sent alone: a run exists, it is the only one, and a client that takes what it is offered after every frame gets all undamaged units from the first keyframe on |
| EndToEnd.ClientCopy | dvrbridge/rtsp/server.py:311-326 | whatever frames the driver makes and over however many connections, every client, however slow, gets byte for byte the NALs of an ordered choice of the units relayed, in gap-free segments that start with a keyframe |
| EndToEnd.DrainedClientCopy | dvrbridge/rtsp/server.py:311-326 | for the same frames: a client that dropped nothing gets all units relayed since it joined, from the first keyframe on; they are the driver's own if all keyframes carry an SPS |
| EndToEnd.PromptClient | dvrbridge/hub.py:107-112 | such a client never drops anything, whatever the frames |
| EndToEnd.DriverEmits | dvrbridge/drivers/netdvr3.py:122-190 | on a clean stream every run emits all units but the last, unchanged, and never resynchronises |
| EndToEnd.ItemsOfRun | dvrbridge/hub.py:193-211 | for any frames and any run: the hub's items are the NALs of the non-empty frames in order, with nothing added but, in front of a keyframe without an SPS, the last SPS and PPS heard since the cache was cleared, if both were |
| EndToEnd.HandedFromFirstKey | dvrbridge/hub.py:212-222 | a subscriber that dropped nothing has been handed exactly the items from the first keyframe since it joined, whenever that was |
| EndToEnd.ConsumedTimes | dvrbridge/hub.py:211 | in every run, what a client is sent carries the time stamps of the very frames it was made of |
| AnnexB.IterNals | dvrbridge/h264.py:28-52 | the index loop delivers the NALs of the recursive specification, on every buffer |
| AnnexB.NalsFramable | dvrbridge/h264.py:28-52 | whatever the input, no NAL is empty or holds a start code, and only the last may end in a zero byte |
| AnnexB.RoundTripIffFramable | dvrbridge/h264.py:28-52 | a list survives joining with start codes and re-parsing if and only if it is framable |
| AnnexB.Renormalise | dvrbridge/h264.py:28-52 | parsing, joining with 4-byte start codes and parsing again changes nothing, for every byte string |
| AnnexB.AnnexBSplitter.Feed | dvrbridge/h264.py:68-91 | delivers all NALs closed by a start code, keeps the rest subject to the cap, and leaves at most max(cap, 2) bytes |
| AnnexB.DrainResumes | dvrbridge/h264.py:68-91 | draining early and feeding on is draining everything at once |
| AnnexB.DrainIsNalsOf | dvrbridge/h264.py:68-91 | the NALs delivered and the one still open are the batch splitter's |
| AnnexB.ChunkingInvariance | dvrbridge/h264.py:55-91 | for every cut into chunks that never hits the cap, the incremental splitter and the batch splitter agree |
| SplitterLoss.ChunkingInvarianceIff | dvrbridge/h264.py:83-84 | where every residue over the cap holds a non-zero byte, the two splitters agree if and only if no residue ever exceeds the cap |
| SplitterLoss.FedIsAllIff | dvrbridge/h264.py:83-84 | for all chunks and every cap: never more NALs than the batch splitter finds, and the same ones if and only if every dropped residue is harmless |
| SplitterLoss.HarmlessIff | dvrbridge/h264.py:83-84 | dropping a residue loses nothing if and only if it is all zeros and the bytes behind it make these zeros part of a start code that is still found or has nothing behind it |
| SplitterLoss.NalsSuffix | dvrbridge/h264.py:28-52 | dropping a prefix of any buffer loses a number of first NALs and changes no other |
| SplitterLoss.CapLosesNal | dvrbridge/h264.py:60-61 | an input for which the documented promise fails: a NAL over the cap disappears |
| Emulation.StripIsDecode | dvrbridge/h264.py:94-95 | the search-and-replace is the standard's zero-counting decoder on all inputs |
| Emulation.StripInsert | dvrbridge/h264.py:94-95 | stripping undoes section 7.4.1 insertion on every RBSP |
| Emulation.SafeHasNoForbidden | dvrbridge/h264.py:94-95 | a scan-safe NAL holds none of the byte patterns the standard forbids at any position |
| Emulation.InsertIsSafe | dvrbridge/h264.py:94-95 | insertion produces scan-safe bytes from any RBSP |
| Emulation.RbspsSurviveFraming | dvrbridge/h264.py:28-52 | RBSPs ending in a non-zero byte survive insertion, start-code framing, splitting and stripping, header and body |
| Bits.BitsOfAt | dvrbridge/h264.py:103-107 | the shift-and-mask bit is the bit of the byte string's big-endian expansion |
| Bits.BitReader.Bit | dvrbridge/h264.py:103-107 | takes the next bit, or reports that the data is exhausted |
| Bits.BitReader.Bits | dvrbridge/h264.py:109-113 | the big-endian value of the next n bits, position only forward and never past the end |
| Bits.ToBitsOfValue | dvrbridge/h264.py:109-113 | an n-bit value is below 2^n and determines its bits |
| Bits.BitReader.Ue | dvrbridge/h264.py:115-121 | reads what the Exp-Golomb parser reads, including both errors |
| Bits.UeOfEncUe | dvrbridge/h264.py:115-121 | decoding undoes section 9.1 encoding for 0..2^32-2, leaves any suffix, takes twice the zeros plus one bits |
| Bits.UeIffCode | dvrbridge/h264.py:115-121 | the decoder succeeds exactly on the section 9.1 codes |
| Bits.InvalidIff | dvrbridge/h264.py:117-120 | a code is invalid if and only if it begins with 32 zero bits |
| Bits.BitReader.Se | dvrbridge/h264.py:123-125 | reads the signed mapping of the next code |
| Bits.SeBijection | dvrbridge/h264.py:123-125 | the section 9.1.1 mapping is a bijection |
| Sps.ParseSps | dvrbridge/h264.py:136-193 | on every byte string a result or one of two errors, as the stage parsers on the stripped bits say |
| Sps.SkipScalingList | dvrbridge/h264.py:154-159 | consumes the differences of one list with its early stop |
| Sps.CycleIsBounded | dvrbridge/h264.py:168-169 | the loop whose count comes from the data gets through at most as many rounds as there are bits, whether it is completed or cut short by an error |
| SpsEncoding.EntriesRoundTrip | dvrbridge/h264.py:153-159 | every scaling list, sent in full, stopped early or defaulted, is skipped exactly |
| SpsEncoding.BitsRoundTrip | dvrbridge/h264.py:136-193 | for every assignment of the fields: same profile and level, and the size of the standard's cropping equations |
| SpsEncoding.SpsRoundTrip | dvrbridge/h264.py:136-193 | the same through bit packing, emulation prevention and the NAL header |
| SpsEncoding.TablesAgree | dvrbridge/h264.py:144-159 | the profiles with chroma fields and the sizes of scaling lists are those of section 7.3.2.1.1, which the encoder has on its own |
| Simulator.FrameHeader | dvrbridge/testing.py:53-59 | the in-place packing yields the 24 bytes of the wire format |
| Simulator.HeaderLayout | dvrbridge/testing.py:53-59 | every field of the header in place and in little-endian order, the length short by 4 and cut to 16 bits |
| Simulator.SplitAccessUnits | dvrbridge/testing.py:35-50 | one access unit a VCL NAL, with the non-VCL NALs before it |
| Simulator.AccessUnitsReparse | dvrbridge/testing.py:35-50 | units re-parse to groups with one slice, by the bits of the header byte, in last place; together they are the NALs up to the last slice; the flag says if that slice, or any NAL of the unit, is an IDR slice |
| NetDvr3.HeaderOfBuffer | dvrbridge/drivers/netdvr3.py:55-62 | a header with its magic always parses, and its length is below the frame limit, so two resync branches are dead |
| NetDvr3Streams.HeaderReadBack | dvrbridge/drivers/netdvr3.py:55-62 | the driver reads back every field the simulator writes, each modulo its width |
| NetDvr3Streams.KeyframeIff | dvrbridge/drivers/netdvr3.py:187-189 | on any frame: a keyframe if and only if the type byte is 0x64 or some NAL has 5 in the low five bits of its header byte |
| NetDvr3Streams.SentKeyframeIff | dvrbridge/drivers/netdvr3.py:187-189 | a simulated access unit comes out as a keyframe if and only if its one slice is an IDR slice |
| NetDvr3.NetDvr3Driver.Preamble | dvrbridge/drivers/netdvr3.py:135-163 | finds the first magic if it has 4 bytes before it, for all read sizes, having read at most one chunk beyond 64 KiB; says there is none only on a longer stream without one in its first 64 KiB, and closed only on a shorter one without any |
| NetDvr3.NetDvr3Driver.Resync | dvrbridge/drivers/netdvr3.py:198-219 | the buffer code does the scan on stream positions, counts one resync, and reports starvation and the scan limit |
| NetDvr3.NetDvr3Driver.Pass | dvrbridge/drivers/netdvr3.py:166-190 | one pass emits the corroborated frame, or lands on a later header, or ends the run |
| NetDvr3.NetDvr3Driver.Loop | dvrbridge/drivers/netdvr3.py:166-190 | at every loop head the buffer starts with a header; the frames, resyncs and ending are those of the position machine |
| NetDvr3.NetDvr3Driver.Frames | dvrbridge/drivers/netdvr3.py:122-190 | a whole run is a preamble failure, or the position machine from the first magic with less than one read ahead and at most one chunk beyond the preamble limit |
| NetDvr3Streams.PreambleOutcome | dvrbridge/drivers/netdvr3.py:135-153 | when a run fails in the preamble and with which error, in bytes of stream and positions of the magic |
| NetDvr3Streams.RescanFindsNext | dvrbridge/drivers/netdvr3.py:204-219 | keeping a tail of 7 bytes loses no header |
| NetDvr3Streams.LoopIsPrefix | dvrbridge/drivers/netdvr3.py:166-219 | every run emits a prefix of the position parser's frames, and all of them if the stream ends inside a frame |
| NetDvr3Streams.SchedulesAgree | dvrbridge/drivers/netdvr3.py:137-219 | of two runs under any delivery schedules, one emits a prefix of the other's frames |
| NetDvr3Streams.FramesOnlyGrow | dvrbridge/drivers/netdvr3.py:89-95 | for the position parser, more bytes never change frames already determined |
| NetDvr3Streams.RunOnlyGrows | dvrbridge/drivers/netdvr3.py:166-219 | for the driver itself: with the same bytes buffered, its run on a longer stream emits the same frames and perhaps more, and a run that gave up resynchronising is the same run |
| NetDvr3Streams.TimeoutOnlyShortens | dvrbridge/drivers/netdvr3.py:89-95 | every run on a stream cut short emits a prefix of what some run on the whole stream emits |
| NetDvr3Streams.Progress | dvrbridge/drivers/netdvr3.py:166-190 | 28 bytes of stream a frame and 8 a completed resync bound the number of passes |
| NetDvr3Streams.RescanSkipsHeader | dvrbridge/drivers/netdvr3.py:202-212 | the header that failed is found first and skipped, at the price of one read |
| NetDvr3Streams.FirstHeaderFound | dvrbridge/drivers/netdvr3.py:135-153 | if preamble and sequence number hold and form no magic, the first header of the stream is the one found |
| NetDvr3Streams.RunFromFirstHeader | dvrbridge/drivers/netdvr3.py:135-163 | then every run gets through the preamble and runs the frame loop from that header |
| NetDvr3Streams.CleanStream | dvrbridge/drivers/netdvr3.py:177-190 | regular units written by the simulator come out as sent, all but the last, without resync |
| NetDvr3Recovery.RescanReaches | dvrbridge/drivers/netdvr3.py:198-219 | a rescan lands on the next header within the scan limit if one read of bytes follows it and one more for each magic skipped on the way |
| NetDvr3Recovery.GivesUpIff | dvrbridge/drivers/netdvr3.py:215-219 | behind a bad header with no other magic, the driver gives up if and only if it can discard more than 4 MiB in whole reads, and is cut off by the end of the stream otherwise |
| NetDvr3Recovery.DropUncorroborated | dvrbridge/drivers/netdvr3.py:177-185 | any uncorroborated frame is dropped, and the driver lands on the next header for exactly one resync |
| NetDvr3Recovery.Wander | dvrbridge/drivers/netdvr3.py:177-219 | any chain of uncorroborated headers is passed for exactly one resync each, and nothing is emitted on the way |
| NetDvr3Recovery.RejectedIff | docs/DESIGN.md:117-121 | on any chain of headers, nothing is emitted before its end if and only if none of them is corroborated |
| NetDvr3Recovery.Recovers | dvrbridge/drivers/netdvr3.py:122-219 | for any number of damaged units, with any number of false headers behind each: every run loses exactly these units and counts one resync for each header dropped |
| NetDvr3Recovery.QuietRecovery | dvrbridge/drivers/netdvr3.py:122-219 | with conditions on the bytes sent alone, for bodies shorter or longer than announced or with a damaged start code: if the bytes behind no damaged header corroborate it, a run exists, and every run loses exactly these units with one resync each |
| NetDvr3Recovery.RecoversFromDamage | dvrbridge/drivers/netdvr3.py:177-219 | the same for any mixture of garbage behind units, damaged start codes, and units too long for the 16-bit field, which are dropped whole and never truncated |
| NetDvr3Streams.EmittedAreCorroborated | docs/DESIGN.md:117-121 | on any stream, whatever a run emits are disjoint pieces of it in order, each behind a header, starting with a start code and followed by a magic where the header says |
| NetDvr3Emission.OnlySentIff | docs/DESIGN.md:117-121 | for every damaged stream and every run: only undamaged units are emitted if and only if no damaged header and no false one on the way is corroborated, and then all of them are |
| NetDvr3Emission.QuietOnlySentIff | docs/DESIGN.md:117-121 | the same as a condition on the bytes sent, for gaps without other magics |
| NetDvr3Emission.EmbeddedUnitIsEmitted | docs/DESIGN.md:117-121 | inputs for which the documented promise fails: an overlong unit that ends in a framed unit makes every run emit the inner one |
| NetDvr3Emission.EmbeddedWitness | docs/DESIGN.md:117-121 | one such stream in full: units of 65540 and 9004 bytes are sent, and a unit of four bytes is all that comes out |
| Timestamps.TimestampMapper.Map | dvrbridge/hub.py:54-70 | the whole new state after one call |
| Timestamps.StepBounds | dvrbridge/hub.py:54-70 | the average stays in 1..5000, a step in 0..450000 ticks, and a clock jump still advances by at least 90 |
| Timestamps.RunBounds | dvrbridge/hub.py:54-70 | over any run the result is the unwrapped total modulo 2^32, and that total is bounded |
| Timestamps.Monotone | dvrbridge/hub.py:41-46 | the unwrapped timeline never goes backwards |
| Timestamps.SteadyIsExact | dvrbridge/hub.py:62-67 | with steps up to 5 seconds, the RTP difference is exactly 90 ticks a millisecond modulo 2^32, across clock wraps |
| Timestamps.ResultOfReadings | dvrbridge/hub.py:48-70 | the state machine is a function of the readings alone: each adds its distance from the one before, by device clock, average or wall clock, in whole ticks modulo 2^32 |
| Timestamps.AverageOfEqualSteps | dvrbridge/hub.py:66-67 | after n equal steps 0.9^n of the distance between average and step is left |
| Timestamps.JumpAdvances | dvrbridge/hub.py:64-65 | a clock jump advances by the average and leaves it alone |
| Timestamps.JumpAfterOneStep | dvrbridge/hub.py:64-70 | in numbers: a new mapper, one step of 40 ms, and a jump that adds 8460 ticks |
| Hub.Stream.OnFrame | dvrbridge/hub.py:193-222 | ignores frames without NALs; otherwise updates the cache and offers every subscriber the same item |
| Hub.LastOfFinds | dvrbridge/hub.py:197-202 | the cached parameter set is the last of its type in the unit, or the one known before |
| Hub.KeyframeParameterSets | dvrbridge/hub.py:206-210 | for every cache: exactly when a keyframe item holds an SPS, a PPS, and both |
| Hub.ColdKeyframe | dvrbridge/hub.py:206-210 | an input that fails: a lone IDR slice right after connecting opens the gate without parameter sets |
| Hub.SpsAlone | dvrbridge/hub.py:206-210 | another one: a unit with an SPS alone goes out without a PPS though one is cached |
| HubDecoding.ConsumedKeyframes | dvrbridge/hub.py:193-222 | in every run, the first item a subscriber consumes and every later keyframe hold both sets if and only if the unit brings a PPS with its SPS or what it lacks was heard before |
| HubDecoding.ReadyIff | dvrbridge/hub.py:168-182 | in every run, the hub is ready if and only if this connection has delivered a NAL and both sets were heard since the cache was last cleared; the cache holds the last ones heard |
| HubDecoding.ReadyIsFresh | dvrbridge/hub.py:168-172 | without a restart of `_run`, ready means that this connection has delivered both sets |
| HubDecoding.StaleIff | dvrbridge/hub.py:168-182 | in every run: ready without both sets from this connection if and only if it has spoken and each set it lacks was heard on an earlier one; the cached set of a type is old exactly if this connection has not delivered one |
| HubDecoding.RestartIsStale | dvrbridge/hub.py:181-182 | after a restart the first unit makes the hub ready without having brought both sets if and only if it lacks one and each one it lacks was cached before |
| HubDecoding.StalePps | dvrbridge/hub.py:181-182 | a run that fails: the hub ends up ready with a new SPS and the PPS of the connection before |
| HubRuns.EnqueuedIff | dvrbridge/hub.py:212-222 | an item is enqueued if and only if there is room and it is a keyframe or follows the last one enqueued |
| HubRuns.StepKeeps | dvrbridge/hub.py:107-116 | frames, gets, subscriptions, unsubscriptions, reconnects and restarts all keep the gate invariant |
| HubRuns.RunKeeps | dvrbridge/hub.py:193-222 | the gate invariant in every run: order, gap-free segments from keyframes, queue bound, and completeness without drops |
| HubRuns.WholeRun | dvrbridge/hub.py:34-38 | what was consumed and what is queued is that ordered, gated selection of items, and starts with a keyframe |
| HubRuns.TimesOfRun | dvrbridge/hub.py:205-211 | in every run, the items carry the time stamps of the frames that hold a NAL, in order, and these frames are counted |
| HubRuns.DroppedIsMissed | dvrbridge/hub.py:212-222 | in every run, the drop counter of a subscriber is the number of items since it joined that it should have got, as keyframes or behind their predecessors, and did not |
| HubRuns.Unsubscribed | dvrbridge/hub.py:114-116 | once a subscriber has left, no event changes what it has |
| Supervisor.OneDriverAtATime | dvrbridge/hub.py:129-191 | in every run at most one driver generator is open, and readiness means one is open and both parameter sets are cached |
| Supervisor.StreamingEndsIff | dvrbridge/hub.py:146-160 | a step ends an open stream if and only if the device stops it, or it is idle with nobody subscribed |
| Supervisor.WatchedStreamsOn | dvrbridge/hub.py:135-156 | over a whole run in which somebody stays subscribed, only the device ends a stream, however long it lasts |
| Supervisor.WatchedReconnects | dvrbridge/hub.py:165-180 | a watched stream whose generator ended is opened again behind the wait, and its parameter sets are forgotten |
| Supervisor.OpensIff | dvrbridge/hub.py:142-149 | a generator is opened if and only if a waiting runner goes on with a driver that can be made, and it is not idle with nobody subscribed |
| Supervisor.NobodyConnects | dvrbridge/hub.py:145-166 | over a whole run in which nobody comes and the linger time is over, no connection is made |
| Supervisor.UnwantedEnds | dvrbridge/hub.py:145-191 | an idle runner nobody wants ends, wherever it waits |
| Supervisor.ReadyNeedsTeaching | dvrbridge/hub.py:168-172 | once the parameter sets are dropped, the stream is ready again only behind a frame that makes them known |
| Supervisor.StrandedIff | dvrbridge/hub.py:142-191 | a step strands a subscriber if and only if it leaves `_run` by a return or an exception while one is subscribed |
| Supervisor.StrandedRunIff | dvrbridge/hub.py:129-191 | a whole run ends with a subscriber nobody serves if and only if some step strands more subscribers than leave later and no touch or subscription follows |
| Supervisor.SubscribedOnTheWayOut | dvrbridge/hub.py:142-162 | a subscription made while the runner is on its way out is unserved when the generator is closed, exactly if somebody is still subscribed; nothing in between helps |
| Supervisor.RacingSubscriberIsStranded | dvrbridge/hub.py:154-156 | a run in which a subscriber arriving during the teardown is left without a driver |
| Supervisor.OnlyCallersStartRunners | dvrbridge/hub.py:189-191 | the restart at the end of `_run` never starts a runner |
| Supervisor.TouchRescues | dvrbridge/hub.py:98-112 | the next touch or subscription ends any such situation |
| Rtp.H264Packetizer.Emit | dvrbridge/rtsp/rtp.py:23-34 | one packet in wire form under the current number, and the new counters |
| Rtp.H264Packetizer.Packetize | dvrbridge/rtsp/rtp.py:36-61 | the packets of all loads under consecutive numbers, counters that agree with the loads and with the number and bytes of the packets, and the ValueError case |
| Rtp.ParseOfWire | dvrbridge/rtsp/rtp.py:23-28 | a receiver reads back every header field and the payload |
| RtpLaws.CallReassembles | tests/test_rtp.py:24-42 | depacketizing gives back the non-empty NALs byte for byte, header byte included, and leaves the receiver ready |
| RtpLaws.RoundTripIff | dvrbridge/rtsp/rtp.py:36-61 | for every MTU and every NAL list: the round trip holds if and only if each NAL carries |
| RtpLaws.TypeFuAIsLost | dvrbridge/rtsp/rtp.py:43-44 | an input family that fails: a fitting NAL of type 28 is sent as it is and taken for a fragment |
| RtpLaws.TinyMtu | dvrbridge/rtsp/rtp.py:49-50 | two more: an MTU of 2 rejects a longer NAL, and one of 1 or less sends nothing of it |
| RtpLaws.LongNalLaws | dvrbridge/rtsp/rtp.py:45-60 | exactly ceil((L-1)/(mtu-2)) fragments, at least two, start bit on the first, end bit on the last, none with both, all within the MTU |
| RtpLaws.CallLaws | dvrbridge/rtsp/rtp.py:36-61 | for any list of NALs: payloads within the MTU, and the marker on exactly the last packet, or on none if the list ends in an empty NAL |
| RtpLaws.SessionNumbers | dvrbridge/rtsp/rtp.py:27 | sequence numbers are consecutive modulo 2^16 across calls |
| RtpLaws.DemuxOfInterleave | dvrbridge/rtsp/server.py:318-323 | demultiplexing undoes the `$` framing, which exists if and only if all lengths fit 16 bits |
| Pump.PumpFrame | dvrbridge/rtsp/server.py:316-323 | the blob of one frame, and the packetizer's new counters |
| Pump.FrameBlobPackets | dvrbridge/rtsp/server.py:316-323 | whatever a frame's blob is, its packets are all on the session's channel and parse to its payload type, source, consecutive numbers, the frame's time stamp and the markers of the loads |
| Pump.PumpedPackets | dvrbridge/rtsp/server.py:311-326 | the same over any number of frames, each packet with the time stamp of its own frame |
| Pump.PumpRoundTrip | dvrbridge/rtsp/server.py:311-326 | the client of any number of pumped frames gets back all their NALs in order |

## Left out

- Sockets, asyncio, wall-clock timeouts, logging, command line, configuration, authentication, SDP and RTSP requests: input and output around the media path.
- `build_start_stream` and `_parse_preamble`: a fixed layout and best-effort metadata with one-branch properties.
- `stop()` and cancellation: the supervisor's runs are those without them.
- Rounding of floats in the timestamp average: it is computed in reals.
- NetDvr3.NetDvr3Driver.Frames: collects the yielded frames instead of suspending after each; a consumer that stops early sees a prefix.
- Rtp.H264Packetizer.constructor: asks for a payload type below 128, because a larger one runs into the marker bit or does not fit the byte; the program uses 96.
- EndToEnd.StreamCopy: speaks of one connection to the device and of TCP interleaved transport; `ClientCopy` takes the frames of any number of connections, and UDP may lose packets.
- EndToEnd.StreamCopy: asks that the keyframes sent carry an SPS, so that the copy is byte for byte; where they do not, `DrainedClientCopy` says what the hub adds.
- EndToEnd.StreamCopy: speaks of NALs only; channel, numbers and time stamps of the packets are in `PumpedPackets`, `ConsumedTimes` and `ResultOfReadings`.
- The lengths of the reconnect waits: the supervisor's runs are those for any.
- Supervisor.OneDriverAtATime: treats the two cached parameter sets as one flag, and the idle test as a choice that needs the subscriber count to be zero.
- The memory a rescan may take: the code does not bound it.
- NetDvr3Recovery.QuietRecovery: asks for bytes behind the damage, one read for each damaged unit, one more and what a header announces too much, because a rescan waits for a whole read before it goes on; without them the run ends there.
