# Widuino: verified models

Widuino connects small radio nodes to a hub.  This project models the parts of it that carry state or arithmetic, in
Dafny, and proves what they promise.  `dafny verify dfyconfig.toml` checks everything.

- **Resampling** (`TimeSeries`, `Curve`, `Interpol8`, `Trim`, `StepMeaning`, `Conservation`, `Extremes`, `Insertion`,
  `Counters`). Irregular samples of a gauge or a counter become evenly spaced steps with average, minimum and maximum.
  `TimeSeries.IsStep` says what a step has to be: the exact integral and covered length of the piecewise linear curve
  clipped to the step, and its extremes; `StepMeaning` says so again in plain numbers.  The loops, cursors and cases
  of the resampler are proved against that on the caller's own array, and the properties of steps (additivity, exact
  extremes, insertion of samples) follow from it.
- **Catching up and subscribing** (`MessageKeys`, `Replay`, `RFSubscribe`, `RFSubscribeProofs`, `SubscriptionLaws`,
  `SubscriptionGuarantees`, `SubscriptionTraces`, `RFHub`).  A new subscriber replays the message store under the
  publish lock, gives the lock up when its channel is full, and registers after a pass that kept it.  `RFSubscribe` is
  the protocol as a system of steps with one invariant over every interleaving; `RFHub` is the same work on the
  parallel lists themselves, loop by loop.
- **Transmit queue** (`NetQueue`, `QueueLaws`, `NetNode`).  Three packet slots shifted in place, retries, ACKs.
  `NetQueue` gives the queue as a function of events with the history of frames on the air; the class in `NetNode` is
  proved equal to it.
- **Checksums, configuration, boot images** (`Crc16`, `ConfigLayout`, `StoreLaws`, `EEConf`, `Boot`, `IntelHex`,
  `HexFiles`, `FirmwareLaws`, `Delivery`).  One theory of CRC-16 serves the configuration store of a node and the boot
  server of the hub.  HEX files follow "General Record Format" and "Data Record" of Intel's Hexadecimal Object File
  Format Specification, Revision A (1988).
- **Rolling extremes** (`MinMaxWindow`, `SensorBus`, `SensorLaws`, `OwTemp`).  Six four-hour slots of minimum and
  maximum per thermometer, over whole runs of polling.

The modules named `...Laws`, and `StepMeaning`, state what single steps and whole runs do in the figures of the
protocols -- addresses, header bits, milliseconds, bytes -- without the names the rest of the project gives them.

Where the code differs from what it sets out to do, the model follows the code, and a lemma says exactly when the
promise is kept:

- The left trim of the resampler is meant to be invisible; it is not when several gauge samples sit exactly at `start`
  (`Trim.TrimmingIsInvisibleIff`).
- A counter reset inside a step counts as covered time without growth: the average is diluted, can fall below the
  minimum, and is 0 without any minimum or maximum if there is nothing but resets (`Counters.RateIsTrueMeanIff`,
  `Counters.ResetDilutesAverageIff`, `Extremes.NotANumberIff`).  Steps that cover no reset are not affected
  (`Extremes.AverageIsBetweenExtremes`).
- A registering pass that replays nothing registers with start time 1, so that one message can arrive twice, or every
  later message older than asked for once (`SubscriptionGuarantees.ExactlyOnceIff` and the runs in
  `SubscriptionTraces`).
- Retries can come at once after a transmission within 50 ms of a wrap of the millisecond clock, and only then
  (`NetQueue.RetryTestIff`, `NetQueue.RetryAtOnce`, `NetQueue.RepeatsAreSpaced`).
- A reset of the configuration store goes unnoticed if any module writes before the next start-up, or if the store
  began with the reset word, and only then (`EEConf.ResetIsNoticedIff`).
- The HEX loader does not grow the image for a record that ends one byte past it; a file whose last standard record
  holds one byte loses that byte (`HexFiles.ByteShortIff`, `HexFiles.RoundTrip`).  The error for a record cut short is
  formatted without its line number, so `IntelHex.Error.CutShort` has none.
- The boot server computes offsets and lengths in 16 bits: a program of 64 KB is never handed out, and indices wrap at
  1024 (`Boot.DownloadedIff`, `Boot.IndicesWrap`).
- The minimum of a thermometer reads -40 as long as its window holds a period without a reading, the current one
  included; and a reading that finds the oldest of the six periods without one wipes out the others, so that both
  extremes can then miss readings until five more rotations have passed (`MinMaxWindow.ExtremesIff`,
  `MinMaxWindow.WipeIff`, `MinMaxWindow.RightAgainIff`, and the runs `MinMaxWindow.GapHidesMinimum` and
  `MinMaxWindow.GapLosesReadings`).

## Model

| member | source | states |
|---|---|---|
| Interpol8.Raw | interpol8/interpol8.go:50-312 | which error each bad argument gives and only then; otherwise `ceil((end-start)/step)` outputs, each one exactly a step of the left-trimmed array; on the caller's own array every output after the first is one too, and the first unless two gauge samples sit exactly at `start`; the internal error never happens and no unsigned subtraction wraps |
| Interpol8.AdjustEnd | interpol8/interpol8.go:330-341 | the number of steps and the pushed-out end in 64 bits, or an error for an empty range or more than a million steps |
| Interpol8.LTrim | interpol8/interpol8.go:344-353 | exactly the samples from the last one not past `start` on are kept, all of them if none is past it |
| Interpol8.RTrim | interpol8/interpol8.go:356-365 | kept is everything up to the sample following the last inner one before `end+step`, as 64 bits hold that, or everything if there is no such inner sample |
| Interpol8.MakeNaNs | interpol8/interpol8.go:317-327 | `count` outputs, all not a number, at `start + i*step` |
| Interpol8.CheckSorted | interpol8/interpol8.go:63-67 | accepted exactly when no sample is earlier than one before it |
| Interpol8.Interpolate | interpol8/interpol8.go:198-199 | the height of the line through two samples at the given time |
| Interpol8.AddInside | interpol8/interpol8.go:171-188 | a segment inside the step adds its exact share, and its extremes |
| Interpol8.AddEntering | interpol8/interpol8.go:195-220 | the same for a segment that enters the step |
| Interpol8.AddLeaving | interpol8/interpol8.go:223-248 | the same for a segment that leaves the step |
| Interpol8.AddSpanning | interpol8/interpol8.go:251-286 | the same for a gauge segment reaching beyond both ends; for a counter the sums become the whole, unclipped segment |
| Interpol8.AddSegment | interpol8/interpol8.go:156-291 | the case split is complete: one of the cases applies to every sorted pair, each adds the exact share of the clipped segment, and the last case is never reached |
| Interpol8.UnscaledMean | interpol8/interpol8.go:273-285 | the unclipped counter branch gives the same average as the clipped formula of the other branches |
| Interpol8.AddSample | interpol8/interpol8.go:127-134 | the extremes after taking in a sample in [ts, te] |
| Interpol8.Aggregate | interpol8/interpol8.go:119-292 | the sums over the inner scan are the exact sums over all segments and samples of the array, not only those scanned |
| Interpol8.AdvanceCursor | interpol8/interpol8.go:101-105 | the carried cursor is the last sample before `ts`, wherever it was before |
| Interpol8.FindLast | interpol8/interpol8.go:109-112 | the last sample not after `te` |
| Interpol8.StepPoint | interpol8/interpol8.go:114-308 | the output of one step, the single-sample special case included |
| Interpol8.Resample | interpol8/interpol8.go:91-312 | every output is a step of the array; no internal error |
| Interpol8.TrimAndResample | interpol8/interpol8.go:78-312 | once the arguments are accepted every output is a step of the array, as said for `Raw`, and there is no internal error |
| Interpol8.UntrimAll | interpol8/interpol8.go:81-82 | what holds of the outputs on the trimmed array holds on the whole one |
| Curve.TrapezoidIsIntegral | interpol8/interpol8.go:176-230 | the trapezoid under a stretch of a line is the increase of its antiderivative |
| Curve.RiseOverStretch | interpol8/interpol8.go:209-247 | how much a line rises over a stretch, and between which ends it stays |
| Curve.MeanWithinEnds | interpol8/interpol8.go:295-296 | the integral over a stretch is bounded by the heights of its ends |
| Trim.RightTrimInvisible | interpol8/interpol8.go:356-365 | for sorted input, duplicates or not, no step before the end sees what the right trim cut off |
| Trim.LeftTrimInvisible | interpol8/interpol8.go:344-353 | no step after `start` sees what the left trim dropped, nor does one at `start` unless a dropped gauge sample sits there |
| Trim.StrictTimesAreTrimSafe | interpol8/interpol8.go:344-353 | for strictly increasing times none does |
| Trim.DroppedSampleIsVisible | interpol8/interpol8.go:344-353 | if one does, there are values for which the first step comes out differently |
| Trim.TrimmingIsInvisibleIff | interpol8/interpol8.go:344-353 | exactly when no dropped gauge sample sits at `start` is the left trim invisible in the first step whatever the values |
| StepMeaning.FarApart | interpol8/interpol8.go:191-194 | two samples more than `maxFill` apart share nothing with any step: no amount, no covered length, no extremes |
| StepMeaning.Share | interpol8/interpol8.go:156-286 | what a joined pair adds to a step: the overlap in length, and over it the trapezoid of the line (gauge) or its rise (counter), nothing for a counter that falls |
| StepMeaning.Sums | interpol8/interpol8.go:119-292 | the totals are the sums of those shares, pair by pair |
| StepMeaning.GaugeMarksIff | interpol8/interpol8.go:127-247 | the extremes of a gauge step are taken over the samples in the closed step and the ends of the covered stretches of lines, nothing else |
| StepMeaning.CounterMarksIff | interpol8/interpol8.go:177-247 | those of a counter step over the rates per second of the joined pairs it overlaps that do not fall |
| StepMeaning.NumberIff | interpol8/interpol8.go:191-308 | the average is a number exactly when a pair at most `maxFill` apart overlaps the step, falling counters that span it excepted, or a gauge sample lies in [ts, te) |
| StepMeaning.LoneSample | interpol8/interpol8.go:299-306 | where nothing is covered all three fields are the first gauge sample in [ts, te) |
| StepMeaning.CoveredStep | interpol8/interpol8.go:294-298 | elsewhere the average is the amount over the covered length, and Min and Max are the extremes |
| StepMeaning.OutputsInNumbers | interpol8/interpol8.go:92-296 | what the sums of outputs and covered lengths over a range are |
| StepMeaning.RiseInNumbers | interpol8/interpol8.go:177-187 | what the rise of a counter, and the length over which its growth is known, are |
| StepMeaning.ReachedIff | interpol8/interpol8.go:117-247 | which values a step reaches: its samples, and the lines between samples at most `maxFill` apart while they are inside it |
| StepMeaning.ResetsIff | interpol8/interpol8.go:177-187 | when a step covers a reset: a falling counter overlaps it without reaching beyond both its ends |
| StepMeaning.KnownIff | interpol8/interpol8.go:172-291 | when anything is known of a step |
| StepMeaning.CoveredOrReset | interpol8/interpol8.go:172-291 | a step is covered exactly where something is known of it or it covers a reset |
| StepMeaning.InsertionInNumbers | interpol8/interpol8.go:198-199 | what inserting a sample on the line is |
| StepMeaning.StepsAre | interpol8/interpol8.go:91-99 | the k-th step is [start + k*step, start + (k+1)*step), and just as many as reach the end |
| Conservation.SegmentAdds | interpol8/interpol8.go:156-286 | the amounts of one segment in two adjoining windows add up to its amount in both together, and so do the covered lengths unless a counter falls |
| Conservation.ArrayAdds | interpol8/interpol8.go:114-292 | so do those of the whole array |
| Conservation.OutputConserves | interpol8/interpol8.go:92-296 | averages times covered lengths add up to the integral of the curve clipped to the whole range, or the growth of a counter, resets or not, and covered lengths to its coverage unless a counter falls: nothing is lost or counted twice |
| Conservation.GrowthIsConserved | interpol8/interpol8.go:139-285 | the outputs for a counter that never pauses too long add up to all it rose, which without a reset is its growth |
| Extremes.ExtremesAreExact | interpol8/interpol8.go:117-134 | with anything covered, Min and Max are reached by a sample in [ts, te] or by the covered curve, and everything reached lies between them |
| Extremes.AverageIsBetweenExtremes | interpol8/interpol8.go:294-296 | Min <= Avg <= Max, for gauges and for any counter wherever the step covers no reset |
| Extremes.AverageIsAtMostMax | interpol8/interpol8.go:172-296 | Avg <= Max whenever there is a Max, resets or not |
| Extremes.NotANumberIff | interpol8/interpol8.go:295-308 | Avg is not a number exactly when nothing is covered and no gauge sample lies in [ts, te), Min and Max exactly when nothing known overlaps and no gauge sample lies there; the three disagree exactly when resets are all that is covered, and then Avg is 0 |
| Insertion.HalvesAddUp | interpol8/interpol8.go:171-286 | a sample on the line splits a segment's share into two that add up |
| Insertion.InsertedExtremes | interpol8/interpol8.go:117-134 | and leaves both extremes of the step as they were |
| Insertion.InsertedSampleIsInvisible | interpol8/interpol8.go:99-308 | inserting a sample on the line between two neighbours at most `maxFill` apart leaves Avg, Min and Max of every step unchanged, for strictly increasing times |
| Counters.AmountIsGrowth | interpol8/interpol8.go:177-247 | over the covered part of a segment a counter that does not fall contributes the growth of its interpolated reading |
| Extremes.TotalKnownIff | interpol8/interpol8.go:172-187 | the covered length is the length over which the growth is known exactly when no reset is covered |
| Counters.RateIsTrueMeanIff | interpol8/interpol8.go:172-296 | the reported rate is the mean over the known part exactly when the step covers no reset, or something is known and nothing grew there |
| Counters.ResetDilutesAverageIff | interpol8/interpol8.go:172-296 | where all known rates are the same, Avg falls below Min exactly when that rate is positive and a reset is covered |
| Counters.ResetDilutesAverage | interpol8/interpol8.go:172-187 | an input: a reset inside a step, and the average comes out below Min |
| Counters.OnlyAReset | interpol8/interpol8.go:172-187 | an input: nothing but a reset in a step, and Avg is 0 while Min and Max are not numbers |
| MessageKeys.KeyOrder | hub/database/rfmessage.go:49-51 | keys of 13-digit timestamps sort like the timestamps |
| MessageKeys.EndKeyCovers | hub/database/rfmessage.go:60-65 | the open-ended end key lies above exactly the keys up to 9223372036854 |
| MessageKeys.KeyRoundTrip | hub/database/rfmessage.go:49-58 | parsing a key gives back its timestamp, for every non-negative 64-bit one |
| MessageKeys.KeyInDigits | hub/database/rfmessage.go:49-51 | a key is `raw/` and the decimal digits of the timestamp, at least 13 |
| MessageKeys.ParsedIff | hub/database/rfmessage.go:53-58 | a key is parsed exactly if decimal digits follow its first four characters, perhaps after a sign, and the number fits in 64 bits; it is then that number |
| MessageKeys.KeyLessIff | hub/database/rfmessage.go:60-65 | the byte order of the store |
| MessageKeys.RangeEnd | hub/database/rfmessage.go:60-65 | the end key in figures: of the 13-digit timestamps it lies above exactly those up to 9223372036854 |
| Replay.IterateIsFrom | hub/database/rfmessage.go:60-72 | iterating the ordered keys from a start time yields exactly the messages stamped that or later, in order |
| Replay.FromIsSuffix | hub/database/rfmessage.go:60-72 | which, in a chronological store, is a suffix |
| Replay.FromAfter | hub/database/rf_subscribe.go:103-111 | replaying from behind the last message replayed yields exactly the messages stored after it |
| RFSubscribeProofs.PassReplaysTheRest | hub/database/rf_subscribe.go:94-112 | a pass from where the last one stopped replays exactly what has not been sent yet |
| RFSubscribeProofs.SubscribeKeeps | hub/database/rf_subscribe.go:15-19 | a new subscriber keeps the invariant |
| RFSubscribeProofs.PutKeeps | hub/database/rfmessage.go:31-44 | storing a message keeps it |
| RFSubscribeProofs.PublishLockKeeps | hub/database/rf_subscribe.go:43-45 | so does starting to publish |
| RFSubscribeProofs.PublishNextKeeps | hub/database/rf_subscribe.go:46-50 | handing the message to one subscriber |
| RFSubscribeProofs.PublishUnlockKeeps | hub/database/rf_subscribe.go:45-52 | and having published |
| RFSubscribeProofs.StartPassKeeps | hub/database/rf_subscribe.go:97-98 | starting a pass under the lock |
| RFSubscribeProofs.ReplaySendKeeps | hub/database/rf_subscribe.go:70-76 | replaying a message into a channel with room |
| RFSubscribeProofs.ReplayUnlockKeeps | hub/database/rf_subscribe.go:77-83 | giving the lock up when the channel is full |
| RFSubscribeProofs.EndPassKeeps | hub/database/rf_subscribe.go:98-111 | registering, or going for another pass |
| RFSubscribeProofs.TakeKeeps | hub/database/rf_subscribe.go:15-19 | a consumer taking a message |
| RFSubscribeProofs.UnsubscribeKeeps | hub/database/rf_subscribe.go:21-41 | unsubscribing |
| RFSubscribeProofs.RegisteringIsExact | hub/database/rf_subscribe.go:100-109 | when a subscriber registers it has been sent exactly what is stored from its start time on |
| RFSubscribeProofs.StepKeeps | hub/database/rf_subscribe.go:15-113 | every step keeps the invariant |
| RFSubscribeProofs.ReachableKeeps | hub/database/rf_subscribe.go:15-113 | the invariant holds in every state any interleaving can reach |
| SubscriptionLaws.WriterCan | hub/database/rf_subscribe.go:43-52 | when a message can be stored, and publishing start, go on and end: under the lock, to one listed channel after the other, waiting for a channel that holds 100 |
| SubscriptionLaws.WriterDoes | hub/database/rf_subscribe.go:43-52 | all that these steps change: a listed channel gets the message exactly if its start time has been reached |
| SubscriptionLaws.SubscriberCan | hub/database/rf_subscribe.go:65-113 | when a pass can start, send, give up the lock, end, and a channel be taken from or unsubscribed |
| SubscriptionLaws.PassStarts | hub/database/rf_subscribe.go:96-98 | a pass is to replay exactly what is stored from its start time on |
| SubscriptionLaws.PassSends | hub/database/rf_subscribe.go:70-83 | it sends in order, and gives up the lock without sending |
| SubscriptionLaws.PassEnds | hub/database/rf_subscribe.go:98-111 | it registers just behind the last message sent if it kept the lock, and is repeated from there if not |
| SubscriptionLaws.UnsubscribeDoes | hub/database/rf_subscribe.go:21-41 | the channel leaves both lists at its position and is closed, the others keep their order and start times; an unlisted one changes nothing |
| SubscriptionLaws.NothingAfterClosing | hub/database/rf_subscribe.go:21-52 | in every run nothing is sent on a channel once it has been closed |
| SubscriptionGuarantees.NothingIsLost | hub/database/rf_subscribe.go:43-113 | once a subscriber is registered and the writer is not between storing and publishing, every stored message stamped start or later has been put on its channel, however often the lock was given up |
| SubscriptionGuarantees.NothingIsInvented | hub/database/rf_subscribe.go:43-113 | only stored messages are put on a channel, in whatever phase its subscriber is |
| SubscriptionGuarantees.TakenAndQueued | hub/database/rf_subscribe.go:15-113 | what a consumer has taken and what is still queued for it are together what was put on its channel, in that order, in every run |
| SubscriptionGuarantees.TakenIsInOrder | hub/database/rf_subscribe.go:65-112 | so a consumer takes stored messages only, with timestamps that never go back, and at most one of them twice |
| SubscriptionGuarantees.OrderIsKept | hub/database/rf_subscribe.go:65-112 | in every phase timestamps on a channel never go back and at most one message appears twice |
| SubscriptionGuarantees.ExactlyOnceIff | hub/database/rf_subscribe.go:65-112 | a registered subscriber was sent exactly the stored messages stamped start or later, once each and in order, up to where it has got, if and only if no message slipped in; none does if the registering pass replayed anything |
| SubscriptionTraces.MutualExclusion | hub/database/rf_subscribe.go:22-113 | a pass that holds the lock excludes publishing and any other such pass |
| SubscriptionTraces.PublisherIsSafe | hub/database/rf_subscribe.go:43-52 | while publishing, every list position names a registered channel and has a start time |
| SubscriptionTraces.OlderMessageSlipsIn | hub/database/rf_subscribe.go:67-103 | a run in which a message older than the start asked for is delivered |
| SubscriptionTraces.MessageIsDeliveredTwice | hub/database/rf_subscribe.go:65-103 | a run in which a full channel makes a pass give up the lock and one message is delivered twice |
| RFHub.Hub.constructor | hub/database/rf_subscribe.go:21-113 | no subscribers to begin with |
| RFHub.Hub.RFPublish | hub/database/rf_subscribe.go:43-52 | every registered channel whose start time has been reached gets the message once, all others nothing |
| RFHub.Hub.RFUnsubscribe | hub/database/rf_subscribe.go:21-41 | the channel is closed and taken out of both lists at its position, everything else stays in place; an unknown channel changes nothing |
| RFHub.Hub.DoCatchUp | hub/database/rf_subscribe.go:65-89 | what is stored from the start on is put on the channel in order; the last timestamp (0 if there was none), and whether every send found room |
| RFHub.Hub.Register | hub/database/rf_subscribe.go:100-109 | both lists grow by one |
| RFHub.Hub.PassAndRegister | hub/database/rf_subscribe.go:96-111 | the channel is registered at the end of a pass exactly if every send of it found room, from time 1 if it had nothing to send and from just behind the newest message otherwise |
| RFHub.Hub.Pass | hub/database/rf_subscribe.go:96-111 | after a pass all of the store in view has been sent, whatever was sent before |
| RFHub.Hub.CatchUp | hub/database/rf_subscribe.go:91-113 | however passes were interrupted and the store grew, what was sent is exactly what was stored from the start asked for when the last pass began, each message once and in order; the start time registered |
| RFHub.PublishingIsSteps | hub/database/rf_subscribe.go:43-52 | taking the lock, one publishing step per listed channel and giving it back put exactly the messages on the channels that the loop of `RFPublish` does |
| NetNode.Net.constructor | nodes/Net2/Net.cpp:295-297 | the empty queue |
| NetNode.Net.DoSend | nodes/Net2/Net.cpp:92-132 | the head goes out; the eighth copy does not ask for an ACK; a packet that does not ask for one leaves the queue |
| NetNode.Net.PopHead | nodes/Net2/Net.cpp:120-124 | the other packets move down one slot, in place |
| NetNode.Net.RawSend | nodes/Net2/Net.cpp:144-161 | a packet is accepted if a slot is free, and sent at once if it is alone and the radio is ready |
| NetNode.Net.Send | nodes/Net2/Net.cpp:135-141 | the header of a unicast packet |
| NetNode.Net.Bcast | nodes/Net2/Net.cpp:164-175 | the header of a broadcast packet |
| NetNode.Net.ReXmit | nodes/Net2/Net.cpp:265-292 | the queued ACK first, then a fresh packet, then a repeat that is due |
| NetNode.Net.ReceiveAck | nodes/Net2/Net.cpp:232-249 | an ACK for this node pops the head if and only if it has been sent |
| NetNode.Net.Poll | nodes/Net2/Net.cpp:214-263 | one poll is one step of the node, and returns the first byte of a data frame |
| NetNode.Net.Flush | nodes/Net2/Net.cpp:201-209 | polls until nothing is queued or a packet comes in, and no longer: something was queued before every poll but a lone first one |
| NetQueue.CopiesAre | nodes/Net2/Net.cpp:97-100 | the k-th copy of a packet is the packet itself, but an eighth copy never asks for an ACK |
| NetQueue.AckReachesSender | nodes/Net2/Net.cpp:189-196 | the ACK for a frame is taken as an ACK by the node the frame came from, and by no other |
| NetQueue.StepKeeps | nodes/Net2/Net.cpp:92-292 | every event keeps the queue invariant |
| NetQueue.AirLog | nodes/Net2/Net.cpp:92-292 | after any events the data frames sent are the accepted packets in order, each repeated consecutively; each packet that left was sent 1 to 8 times, once without ACK request; at most 3 queued, at most 7 sends counted, and those only for a head that asks for an ACK |
| NetQueue.TransmissionCosts | nodes/Net2/Net.cpp:92-132 | every data transmission uses up retry budget |
| NetQueue.AckCosts | nodes/Net2/Net.cpp:232-249 | so does every accepted ACK |
| NetQueue.RetryBudget | nodes/Net2/Net.cpp:38-40 | at most 8 data frames per accepted packet, in any run |
| NetQueue.RepeatsAreSpaced | nodes/Net2/Net.cpp:265-292 | in any run, across any number of wraps of the clock, repeats of a packet are at least 50 ms apart unless the earlier one was sent within 50 ms of a wrap |
| NetQueue.RetryTestIff | nodes/Net2/Net.cpp:278 | the retry test waits out the interval, for every later time, exactly when the last transmission was not within 50 ms of a wrap |
| NetQueue.RetryAtOnce | nodes/Net2/Net.cpp:144-161 | a run for every such time: two copies of a packet go out in the same millisecond |
| QueueLaws.AcceptedIff | nodes/Net2/Net.cpp:144-161 | all that sending changes: refused with three waiting, sent at once if none was and the radio is ready, otherwise queued |
| QueueLaws.DataFrameIsOwedAnAck | nodes/Net2/Net.cpp:189-196 | a data frame leaves the queue alone; with its ACK flag set the node owes 0xC0 and the number of the sender, or 0x80 and its own |
| QueueLaws.OtherPoll | nodes/Net2/Net.cpp:232-292 | what any other poll does to the queue: which ACK takes off the head, when a frame goes out, as which copy, and what then stays queued |
| QueueLaws.RadioAfterPoll | nodes/Net2/Net.cpp:232-270 | and to the rest: signal strengths, and an owed ACK sent once |
| QueueLaws.AckedIffForSender | nodes/Net2/Net.cpp:234-242 | a packet sent from an empty queue is taken off by the ACK for its sender, not by one for a third node |
| QueueLaws.NothingSentNothingAcked | nodes/Net2/Net.cpp:236 | before the head has been sent no ACK takes it off |
| QueueLaws.Handshake | nodes/Net2/Net.cpp:189-270 | from node to node and back: a packet asking for an ACK is answered, the answer takes it off the queue of its sender and nothing off that of a third node |
| QueueLaws.RepeatComes | nodes/Net2/Net.cpp:277-289 | from 50 ms on an unacknowledged packet goes out at the next poll with a ready radio, away from a wrap of the clock |
| QueueLaws.EightCopies | nodes/Net2/Net.cpp:92-132 | polled every 50 ms or more and never acknowledged, a packet goes out eight times in all, the last time without asking for an ACK, and is given up |
| QueueLaws.AirInOrder | nodes/Net2/Net.cpp:92-292 | after any events, frame by frame: the frames of each accepted packet are consecutive, in order of acceptance, one to eight of them, one if no ACK was asked for, the first seven as accepted and the eighth without the flag; at most seven of the head and none of those behind it |
| Crc16.TableEntry | hub/boot_proto.go:171-174 | every table entry is four bits' worth of shifting |
| Crc16.Shift4IsLinear | hub/boot_proto.go:171-174 | four bits of shifting, and so the table, are linear over exclusive or |
| Crc16.TwoNibblesAreOneByte | hub/boot_proto.go:180-181 | two table steps are one byte of the bitwise form |
| Crc16.TableUpdate | hub/boot_proto.go:179-182 | one byte of the table form equals one byte of the bitwise form |
| Crc16.TableCrc | hub/boot_proto.go:177-201 | the table form returns what the bitwise reference returns, for every byte sequence |
| FirmwareLaws.CrcBitByBit | hub/boot_proto.go:168-201 | the checksum in full: from 0xFFFF, each byte added to the low half, eight shifts to the right, adding 0xA001 for every one that falls out |
| Crc16.UpdateIsBijective | nodes/EEConf/EEConf.cpp:20-26 | every byte step is a bijection of the 16-bit state |
| Crc16.FoldIsInjective | nodes/EEConf/EEConf.cpp:20-26 | different states stay different whatever bytes follow |
| Crc16.ResidueIsZero | nodes/EEConf/EEConf.cpp:28-34 | a state followed by its own two bytes, low byte first, leaves zero |
| Crc16.TwoBytesAreDetermined | nodes/EEConf/EEConf.cpp:123-125 | two bytes map injectively to the state after them |
| Crc16.ChecksIff | nodes/EEConf/EEConf.cpp:20-34 | data followed by two bytes checks exactly when they are its checksum |
| FirmwareLaws.StoredLowByteFirst | nodes/EEConf/EEConf.cpp:28-34 | data followed by its checksum, low byte first, checks |
| Crc16.FirstTwoBytesMatter | nodes/EEConf/EEConf.cpp:123-125 | changing the first two bytes of anything changes its checksum |
| ConfigLayout.SizeCoversLayoutIff | nodes/EEConf/EEConf.cpp:45-59 | the counted size covers the blocks exactly when no module is oversized |
| ConfigLayout.UniqueIdsIff | nodes/EEConf/EEConf.cpp:127-132 | every module is found under its own number exactly when no two share one |
| StoreLaws.BlocksInNumbers | nodes/EEConf/EEConf.cpp:127-155 | blocks lie one behind the other from address 0x20 on |
| StoreLaws.SizeInNumbers | nodes/EEConf/EEConf.cpp:45-59 | the counted size: the modules of at most 64 bytes, and two bytes |
| StoreLaws.ChecksumInNumbers | nodes/EEConf/EEConf.cpp:20-34 | which bytes the checksum covers, and where it is stored |
| StoreLaws.WriteInNumbers | nodes/EEConf/EEConf.cpp:127-151 | a write changes the block of the first module with that number, and the checksum |
| StoreLaws.ResetAndStart | nodes/EEConf/EEConf.cpp:63-125 | a reset writes 0x0D, 0xF0 at 0x20; a start hands out the blocks exactly if the checksum of the store is 0 |
| ConfigLayout.WithCrcChecks | nodes/EEConf/EEConf.cpp:28-34 | after the checksum is brought up to date the store checks, and nothing else has changed |
| ConfigLayout.WriteThenRead | nodes/EEConf/EEConf.cpp:127-194 | a written module reads back its data, every other module what it read before, and the store checks |
| ConfigLayout.LastWriteWins | nodes/EEConf/EEConf.cpp:127-194 | the same after any number of writes |
| ConfigLayout.ResetIsDetectedIff | nodes/EEConf/EEConf.cpp:123-125 | a store that checked fails to check after a reset, whatever its size, unless it already began with the reset word |
| ConfigLayout.WriteHidesReset | nodes/EEConf/EEConf.cpp:123-149 | once any module has been written after a reset the store checks again; an unwritten first module reads the reset word and the rest of its old block |
| EEConf.Store.constructor | nodes/EEConf/EEConf.cpp:16-18 | no modules before the list is set up |
| EEConf.Store.CheckCrc | nodes/EEConf/EEConf.cpp:20-26 | whether the store checks |
| EEConf.Store.WriteCrc | nodes/EEConf/EEConf.cpp:28-34 | the checksum is written behind the data, and nothing else changes |
| EEConf.Store.Register | nodes/EEConf/EEConf.cpp:38-59 | the counted size of the list |
| EEConf.Store.Init | nodes/EEConf/EEConf.cpp:36-96 | every module is given exactly its stored block if the store checks, otherwise a rain-check |
| EEConf.Store.Write | nodes/EEConf/EEConf.cpp:127-160 | the first module of that number has its block written and the checksum updated; an unknown number changes nothing |
| EEConf.Store.Read | nodes/EEConf/EEConf.cpp:162-194 | the stored block of the first module of that number, or nothing |
| EEConf.Store.Reset | nodes/EEConf/EEConf.cpp:123-125 | the reset word over the first two bytes, low byte first |
| EEConf.NextStartHandsOut | nodes/EEConf/EEConf.cpp:36-160 | after any writes the next start-up over the same list hands every module the block written last |
| EEConf.ResetMeansRainChecksIff | nodes/EEConf/EEConf.cpp:63-73 | after a reset the next start-up hands out rain-checks only, unless the store began with the reset word |
| EEConf.FirstWriteInitialises | nodes/EEConf/EEConf.cpp:127-151 | from the first write on the store checks, whatever it held before |
| EEConf.ResetIsNoticedIff | nodes/EEConf/EEConf.cpp:36-160 | after a reset and any writes the next start-up hands out rain-checks exactly when no known module was written and the store did not begin with the reset word; otherwise every module is handed its last write, or its old block with the reset word in it |
| Boot.DeWhiten | hub/boot_proto.go:161-166 | the buffer starts with the whitened bytes, the rest of it is untouched |
| FirmwareLaws.UpgradeInNumbers | hub/boot_proto.go:118-132 | an upgrade reply in figures: the type asked for twice, the length over 16 in 16 bits, the checksum |
| FirmwareLaws.DownloadInNumbers | hub/boot_proto.go:134-166 | a download reply byte by byte: id and index mixed, then 64 bytes from 64 times the index on, each mixed with 211 times its position, zeros past the end; no reply past the end in 16 bits |
| FirmwareLaws.PieceAdded | hub/boot_proto.go:158-166 | a node adds the bytes of a reply, each mixed again with 211 times its position |
| Boot.WhiteningTwice | hub/boot_proto.go:158-166 | whitening undoes itself, also after padding |
| Boot.Upgrade | hub/boot_proto.go:118-132 | the size in units of 16 bytes and the bitwise checksum of the program found |
| Boot.Download | hub/boot_proto.go:134-156 | the whitened piece, padded with zeros to 64 bytes, under the name that is id and index mixed; no reply past the end |
| Boot.AnsweredIff | hub/boot_proto.go:140-145 | a request is answered exactly when the piece starts inside the program, indices taken modulo 1024 and length modulo 65536 |
| Boot.IndicesWrap | hub/boot_proto.go:140 | indices 1024 apart get the same payload |
| Boot.ReplyNamesItsRequest | hub/boot_proto.go:152 | name and index of a reply give back the program number |
| Boot.FetchedSoFar | hub/boot_proto.go:134-166 | the pieces so far, de-whitened and laid end to end, are the program so far |
| Boot.DownloadedIff | hub/boot_proto.go:118-166 | of all programs of up to 64 KB in whole units of 16 bytes a node gets exactly those below 64 KB, with the checksum it was promised |
| Boot.NoReplyPastTheEnd | hub/boot_proto.go:140-145 | indices from the last piece up to 1023 get no reply |
| IntelHex.CheckSum | hub/boot_data.go:204-208 | adding up in eight signed bits loses only multiples of 256 |
| IntelHex.ReadLine | hub/boot_data.go:195-230 | the record on a line, or the error of the first test that fails |
| FirmwareLaws.HexDigits | hub/boot_data.go:196 | the hexadecimal digits, in either case, and nothing else |
| FirmwareLaws.RecordInNumbers | hub/boot_data.go:195-230 | what a record of given bytes is read as: data at 256 times its second byte plus its third, nothing for another type, or one of four errors, each under its exact condition |
| FirmwareLaws.RecordsLineByLine | hub/boot_data.go:188-232 | lines are read in order, numbered from 1; the first error ends it |
| FirmwareLaws.ImageInNumbers | hub/boot_data.go:225-242 | how one more record changes length and bytes of the image, and the padding to 16 |
| IntelHex.ReadHex | hub/boot_data.go:188-243 | the image and the first error of a file are those of the record-by-record definition |
| IntelHex.TakeImage | hub/boot_data.go:234-242 | the image is cut at its length and padded with zeros to a multiple of 16 |
| HexFiles.GoodLineIff | hub/boot_data.go:195-230 | a line passes exactly when it has no colon in front or spells good bytes |
| HexFiles.AcceptedIff | hub/boot_data.go:192-232 | a file is accepted exactly when all its lines are good; otherwise the error is that of the first bad line |
| HexFiles.LastWriterWins | hub/boot_data.go:225-229 | memory holds what the last record over an address says |
| HexFiles.ByteShortIff | hub/boot_data.go:226-228 | the image comes up a byte short exactly when a record ended one past it and none reached further since |
| HexFiles.ImageIsOverlayIff | hub/boot_data.go:226-242 | the image is the overlay of the data records exactly when it is not a byte short, or that byte is a zero which the padding puts back |
| HexFiles.AcceptedGivesOverlay | hub/boot_data.go:188-243 | an accepted file without a record ending one past the image gives the overlay of its records, up to the last address rounded up to 16 |
| HexFiles.DataLineReads | hub/boot_data.go:195-229 | a standard data record reads back as its address and data |
| HexFiles.EndLineIsPassedOver | hub/boot_data.go:224-230 | the end of file record changes nothing |
| HexFiles.RoundTrip | hub/boot_data.go:188-243 | writing a program as a standard file and loading it gives it back, padded, except that a byte alone in the last record is lost |
| HexFiles.WholeUnitsRoundTripIff | hub/boot_data.go:188-243 | it comes back exactly as it was just when it is a multiple of 16 bytes long |
| HexFiles.SingleByteIsLost | hub/boot_data.go:226 | a program of one byte loads as an empty image |
| Delivery.LoadedImageArrivesIff | hub/boot_data.go:145-243 | whatever file is accepted, the node ends up with exactly the loaded image unless that fills 64 KB |
| Delivery.WrittenProgramArrivesIff | hub/boot_proto.go:118-166 | a program written to a file, loaded and downloaded arrives as it was exactly when it is a multiple of 16 bytes long and below 64 KB |
| MinMaxWindow.RotationSums | nodes/OwTemp2/OwTemp.cpp:62-70 | a rotation keeps every slot the summary of its period |
| MinMaxWindow.ReadingSums | nodes/OwTemp2/OwTemp.cpp:127-139 | so does a reading |
| MinMaxWindow.KnownAfter | nodes/OwTemp2/OwTemp.cpp:62-139 | after any run each slot sums up its period since the slots last started afresh, or stands at the reading that did that |
| MinMaxWindow.SinceIsEnd | nodes/OwTemp2/OwTemp.cpp:127-138 | the events since then are the end of all events |
| MinMaxWindow.ExtremesIff | nodes/OwTemp2/OwTemp.cpp:62-176 | after any run the highest slot is the greatest reading of the current and previous five periods exactly when there is one and none from before the slots last started afresh exceeds all since; the lowest slot is the least one exactly when no period of the window since then is without a reading and none from before lies below all since |
| MinMaxWindow.UnwipedExtremesIff | nodes/OwTemp2/OwTemp.cpp:62-176 | as long as no reading falls into a period whose fifth predecessor had none: the highest slot is right exactly when the window holds a reading, the lowest exactly when no period of it since the first reading is without one |
| MinMaxWindow.WipeIff | nodes/OwTemp2/OwTemp.cpp:127-138 | when a reading has just wiped the slots they are right exactly when no reading of the window lies beyond it |
| MinMaxWindow.RightAgainIff | nodes/OwTemp2/OwTemp.cpp:62-176 | five rotations later what was wiped no longer matters |
| MinMaxWindow.StaysInStep | nodes/OwTemp2/OwTemp.cpp:127-139 | low and high slots are always unset together |
| MinMaxWindow.Wiped | nodes/OwTemp2/OwTemp.cpp:127-137 | a reading that finds the oldest slot unset wipes out the five periods before it |
| MinMaxWindow.GapHidesMinimum | nodes/OwTemp2/OwTemp.cpp:160-167 | a run: after one period without a reading the minimum stays at the mark although the current period has a reading |
| MinMaxWindow.GapLosesReadings | nodes/OwTemp2/OwTemp.cpp:127-176 | and five periods later the maximum misses a reading of the window |
| SensorLaws.RotationInNumbers | nodes/OwTemp2/OwTemp.cpp:62-70 | a rotation moves the slots down by one and opens a period |
| SensorLaws.ReadingInNumbers | nodes/OwTemp2/OwTemp.cpp:119-139 | what a reading does to the six slots |
| SensorLaws.AfreshInNumbers | nodes/OwTemp2/OwTemp.cpp:127-137 | the slots start afresh at the first reading and at one five rotations after a period without any |
| SensorLaws.MaximumInFull | nodes/OwTemp2/OwTemp.cpp:62-176 | the condition for the highest slot, written out over the readings of the six periods |
| SensorLaws.MinimumInFull | nodes/OwTemp2/OwTemp.cpp:62-167 | the condition for the lowest slot, written out |
| SensorBus.SlotGivesBackIff | nodes/OwTemp2/OwTemp.cpp:119 | a slot gives back the rounded temperature, distinct from the mark for none, exactly from -39 to 215 degrees |
| SensorBus.TurnsEveryFourHours | nodes/OwTemp2/OwTemp.cpp:58-71 | the slots turn once for every 240 minutes that pass |
| SensorBus.RowFollowsEvents | nodes/OwTemp2/OwTemp.cpp:56-147 | the slots after any run of polls are those the sensor's own readings and rotations lead to |
| SensorBus.ExtremesOfRunIff | nodes/OwTemp2/OwTemp.cpp:56-176 | over whole runs of polling, when the slots hold the extremes of the window, as said above |
| SensorBus.EventsInDegrees | nodes/OwTemp2/OwTemp.cpp:103-139 | as long as temperatures round to -39 to 215 degrees the slots take in exactly the rounded temperatures |
| SensorBus.ShownExtremesIff | nodes/OwTemp2/OwTemp.cpp:56-176 | the numbers shown are the warmest and the coldest rounded temperature of the window exactly under those conditions |
| SensorBus.NoTemperatureIffFailedTwice | nodes/OwTemp2/OwTemp.cpp:103-117 | the temperature is the last good one, and gone exactly when the last two conversions failed |
| SensorLaws.BusPoll | nodes/OwTemp2/OwTemp.cpp:56-147 | what one poll does to the bus: when a conversion starts, when it is read, what is returned, and when the minute count wraps |
| SensorLaws.SensorPoll | nodes/OwTemp2/OwTemp.cpp:98-117 | what it does to the temperature and the failure mark of a sensor |
| SensorLaws.HistoryOfPoll | nodes/OwTemp2/OwTemp.cpp:56-141 | and to the history of readings and rotations |
| SensorLaws.RoundIsNearest | nodes/OwTemp2/OwTemp.cpp:119 | slots take in the nearest whole degree, halves away from zero |
| SensorLaws.ConversionIsRead | nodes/OwTemp2/OwTemp.cpp:74-144 | in any run: a conversion once started is not read within 188 ms, by however many polls, and is read by the first one after that, into the temperature of every thermometer |
| SensorLaws.ReadAfter188ms | nodes/OwTemp2/OwTemp.cpp:74-144 | the same for two polls any time apart |
| SensorLaws.NoneStartsTooSoon | nodes/OwTemp2/OwTemp.cpp:75-79 | in any run: polls that ask for an interval start and read nothing within that many seconds of the last conversion |
| SensorLaws.TemperatureInFull | nodes/OwTemp2/OwTemp.cpp:103-117 | the temperature after any run, from the last two conversions |
| SensorLaws.SlotsInDegrees | nodes/OwTemp2/OwTemp.cpp:119 | slots hold the rounded temperatures less 88 |
| SensorLaws.ShownInFull | nodes/OwTemp2/OwTemp.cpp:160-176 | the numbers shown, written out over the temperatures of the six periods |
| OwTemp.BitChanged | nodes/OwTemp2/OwTemp.cpp:104-116 | setting or clearing the failure bit of a sensor leaves the others alone |
| OwTemp.Bus.constructor | nodes/OwTemp2/OwTemp.cpp:33-51 | no readings, no failures, at most 32 sensors |
| OwTemp.Bus.RotateSensor | nodes/OwTemp2/OwTemp.cpp:64-69 | the six slots of one sensor move by one, in place |
| OwTemp.Bus.Rotate | nodes/OwTemp2/OwTemp.cpp:62-70 | so do those of all sensors |
| OwTemp.Bus.Record | nodes/OwTemp2/OwTemp.cpp:127-139 | the new minimum and maximum of one sensor |
| OwTemp.Bus.Measure | nodes/OwTemp2/OwTemp.cpp:103-140 | what a conversion, failed or not, leaves behind for its sensor, and that no other sensor changes |
| OwTemp.Bus.MeasureAll | nodes/OwTemp2/OwTemp.cpp:100-141 | the same for all sensors that are thermometers |
| OwTemp.Bus.Tick | nodes/OwTemp2/OwTemp.cpp:58-72 | the count of minutes and the rotation |
| OwTemp.Bus.Loop | nodes/OwTemp2/OwTemp.cpp:56-147 | one poll is one step of the bus for every sensor, what it returns, and that the state stays what all polls so far lead to |
| OwTemp.Bus.DoLoop | nodes/OwTemp2/OwTemp.cpp:56-147 | the same, poll by poll |
| OwTemp.Bus.GetMin | nodes/OwTemp2/OwTemp.cpp:160-167 | the least slot, offset, in 16 bits, 0x8000 for a sensor that is not there; it is the coldest rounded temperature of the window exactly when no period of it since the slots started afresh was skipped and none from before was colder than all since |
| OwTemp.Bus.GetMax | nodes/OwTemp2/OwTemp.cpp:169-176 | the greatest slot likewise; it is the warmest rounded temperature of the window exactly when there is one and none from before was warmer than all since |

## Left out

- Floating point: sample values, rates and temperatures are real numbers; rounding, infinities and sample values that are not numbers are not modelled.
- Interpol8.Raw: for arguments it accepts, requires that the pushed-out end plus one step fits 64 bits, because beyond that the sum `end+step` wraps.
- RFSubscribeProofs.StepKeeps: one writer with strictly increasing timestamps from 1 to 9223372036854; messages written with equal, earlier, zero or negative timestamps are not covered, nor is stamping a message that has none with the clock.
- RFSubscribeProofs.StartPassKeeps: taking the lock and the iterator's snapshot of the store is one step; the store is assumed to iterate in key order over a snapshot.
- SubscriptionGuarantees.NothingIsLost: safety only; a slow consumer blocks the publisher, and nothing is said about progress.
- MessageKeys.KeyRoundTrip: keys of negative timestamps; the texts of the errors of number parsing.
- RFHub.Hub.CatchUp: runs one catch-up to its end with the stores and channel states its passes meet as inputs; interleaving is the subject of `RFSubscribe`.
- Closing a channel twice, or sending on a closed one, which the run time punishes; `hub/database/sensor_subscribe.go`, which repeats the protocol by name.
- NetNode.Net.RawSend: allocating, filling and sending a packet are one action; packet lengths and the size of a slot are not modelled.
- `nodes/Net/Net.cpp`, a copy of the queue with configuration around it; the serial variant, signal strength readings, tracing.
- EEConf.Store.Init: the buffer of 64 bytes that a block is read into; an oversized module would overrun it.
- EEConf.Store.Write: assumes that the blocks and the checksum fit into the EEPROM, and as many bytes as the module is large.
- Dispatching received packets to modules.
- Boot.Upgrade: finding the HEX file of a node type, caching it and watching for changes are one lookup; pairing and its random keys are left out.
- IntelHex.ReadHex: splitting the file into lines and the line length limit of the scanner; a record past 64 KB, which crashes the program, is an error of its own.
- OwTemp.Bus.Loop: one-wire transfers, retries of a reading and the minute timer are inputs; the clock is given at each poll.
- SensorBus.ShownExtremesIff: temperatures that round to less than -39 or more than 215 degrees, which a slot cannot tell from others or from no reading.
- LevelDB, message encoding, sockets, MQTT, logging, web pages, LCD and menu sketches, gateway sketch: input, output or display.
