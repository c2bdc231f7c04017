# A verified model of cake-adapt

cake-adapt is a control daemon: it probes latency, watches traffic and moves the
rates of two CAKE shapers. Its hard parts are small, stateful, overflow-aware
algorithms. This project models them in Dafny 4.11, in the form the daemon gives
them (fields, rings and arrays updated in place; pure policy as functions; threads as
steps at lock and atomic granularity), and proves what they promise over every input,
run or interleaving. `dafny verify dfyconfig.toml` checks all of it.

| file | models |
|---|---|
| `Ring.dfy`, `LogQueue.dfy`, `WriterThreads.dfy` | the log writer's byte ring, and its two threads |
| `NativeSchedule.dfy`, `NativeRing.dfy`, `NativeSession.dfy`, `NativeRuns.dfy`, `NativeTurns.dfy` | the native probe session: when it sends, its request ring, the session, its runs, what it sends and takes |
| `Icmp.dfy`, `IcmpWire.dfy` | ICMP requests and replies, and their bytes |
| `TcpWindow.dfy`, `TcpEstimator.dfy`, `TcpTruth.dfy` | the TCP-timestamp queue estimator, and what it shows of true delays |
| `Inject.dfy`, `InjectRuns.dfy`, `Refusals.dfy`, `TcpOptions.dfy` | the timestamp injector, what its runs mean, whom it leaves alone, and TCP option scanning |
| `RateControl.dfy`, `RateMoves.dfy`, `Congestion.dfy`, `Coupling.dfy`, `Controller.dfy`, `Plans.dfy` | the rate controller: rates and how they move, congestion, what directions owe each other, the controller and its plans |
| `MqttOwners.dfy`, `MqttEnding.dfy`, `MqttQueue.dfy`, `MqttLines.dfy` | the MQTT sender's shared ownership and how it ends, its line queue and what becomes of lines |
| `Tracker.dfy`, `RecentDelay.dfy`, `Reflectors.dfy`, `Activity.dfy`, `ActivityPhases.dfy` | baselines, recent delay, reflector health and order, link activity |
| `Decimal.dfy`, `Options.dfy`, `Precision.dfy`, `Durations.dfy` | decimal options parsed and printed, what a precision refusal means, decimal durations |
| `Arith.dfy`, `Rate.dfy`, `Random.dfy`, `Clock32.dfy`, `Windows.dfy`, `Wrappers.dfy` | shared arithmetic, rates, the shuffle, wrapping clocks, last windows, the option type |

Machine integers are `u64`, `i64`, `u32` and so on, subset types of the integers; a
wrap or a saturation is written out (`Wrap64`, `SaturatingAdd`), and C's truncating
division is `TruncDiv`. Where an operation is a loop or changes state it is a method
proved against a specification function, and the properties are lemmas about that
function; ghost histories state the "agrees with the simple form" properties.

What the proofs show about the code, against its own comments or a natural reading:

- `src/logging/mqtt.c:254` says no attempt is made while an old network thread lives. Once
  main has released its reference the owner count no longer shows one, and the
  sender's last round can start a second (`MqttOwners.TwoNetworksAreReachable`); two is
  the most there can be. Exactly when an attempt is made beside a live network thread is
  `MqttOwners.AttemptsIff`: main has released, and that thread is the only one.
- `src/logging/mqtt.c:279-283` promises that a line left in the queue goes out at once
  or after the next wake. A round that cannot read its clock skips that check and waits at a line it
  could send (`MqttQueue.AnUnreadClockLosesAWakeUp`); no other run does
  (`MqttQueue.WakeUpIsLostIff`), and the wait's time limit ends it.
- `src/tcpdelay/inject.h:110-113` says a stalled handshake is never counted accepted.
  A stall does not end the flow's wait for data, so it can be
  (`InjectRuns.AStalledHandshakeCanWork`); when exactly is `InjectRuns.SettledWorksIff`.
- Each working count belongs to an injection of its own (`InjectRuns.EveryRunTells`), but
  not always to the connection whose data was acknowledged: a newer handshake of the same
  four-tuple, not yet echoed, leaves the older one waiting
  (`InjectRuns.AnEarlierHandshakeIsCounted`). Which one is counted is
  `InjectRuns.CountsLastIff`.
- A stall marks a client's entry without renewing it. Once the entry is a day old the
  stall has no effect and the client's SYNs keep the value that stalls
  (`InjectRuns.AForgottenClientStallsAgain`, `InjectRuns.StallSuitsNextIff`), against
  `src/tcpdelay/inject.h:27-28`.
- The injector replaces a handshake when a SYN of the same four-tuple brings another
  sequence, so one sequence can be injected again after another
  (`InjectRuns.OneSequenceCanBeInjectedTwice`), and never otherwise
  (`InjectRuns.EveryRunTells`).
- A timestamp appended behind an end-of-options byte is never seen by the parser, and
  such a SYN is eligible (`TcpOptions.AppendedAfterEndIsLost`).
- Decay toward base stalls below the rate at which its factor adds 8 bit/s
  (`RateControl.DecayReachesBaseIff`, `RateControl.SlowRateStalls`).
- A refusal for more precision than is stored also meets half a kilobyte and
  `0.00000005` minutes, both whole numbers of units (`Precision.HalfKilobyteIsRefused`,
  `Precision.ThreeMicrosecondsAreRefused`). It is always the truth exactly at scales
  that, without their factors of ten, have no factor two or five
  (`Precision.TruthfulIff`): of the option table's, one, a thousand and a million.
- Only updates outside a grace period are looked at before the link turns idle, so
  busy updates can lie within the quiet time (`Activity.GraceHidesTraffic`); the exact
  condition is `Activity.TurnsIdleIff`.
- A send that reads its clock late is safe for the request ring up to a slack of between
  one and two spacings, and again from two spacings on, where the schedule restarts; a
  period longer than the spacings of its targets moves both limits by its excess. In
  between, a slot is used again while its request is still waited for
  (`NativeRuns.LatenessIsSafeIff`, `NativeRuns.SafeLatenessIs`).

## Model

| member | source | states |
|---|---|---|
| `LogQueue.LogWriter.PutEntry` | src/logging/writer.c:57-82 | Appends one entry (kind, priority byte, text cut at 2047 bytes) to the abstract queue, wherever header and text wrap in the byte ring. |
| `LogQueue.LogWriter.OverwriteOldest` | src/logging/writer.c:107-122 | Removes exactly the head and counts it as a lost line or syslog entry, or keeps its request pending. |
| `LogQueue.LogWriter.Queue` | src/logging/writer.c:137-149 | Makes room by dropping oldest entries, each accounted for, then appends; the loop ends with enough room. |
| `LogQueue.LogWriter.TakeEntry` | src/logging/writer.c:152-172 | Returns the head with its whole text and leaves the tail. |
| `LogQueue.LogWriter.TakeBatch` | src/logging/writer.c:222-233 | One locked round hands over the counts, the pending requests and at most the oldest entry, and clears what it handed over. |
| `LogQueue.RoomDropsOldest` | src/logging/writer.c:143-144 | Making room drops a shortest sufficient prefix of the queue and accounts for every entry in it by kind. |
| `LogQueue.WriteAppends` | src/logging/writer.c:69-81 | Writing header then text at the wrapped end extends the encoded queue by that entry. |
| `LogQueue.OldestSplits` | src/logging/writer.c:90-101 | Reading at the first byte gives the head entry's header and text, and past them lies the encoding of the rest. |
| `LogQueue.HeaderRoundTrip` | src/logging/writer.c:61-65 | A header read back from its bytes is the header written. |
| `WriterThreads.ReachableAccounts` | src/logging/writer.c:137-260 | In every interleaving of submitting steps and writer rounds, the submitted entries are, in order, those handed over round by round (lost ones before the taken one), those lost and unreported, and those queued. |
| `WriterThreads.EachEntryHasOneFate` | src/logging/writer.c:137-260 | Delivery is in submission order, and per kind each submitted entry is delivered, reported as overwritten, counted and unreported, or still queued, exactly once. |
| `WriterThreads.RoundsAreTold` | src/logging/writer.c:222-253 | In every reachable state the output is rounds, each in one piece, and each round is of entries that stand in one piece in the submissions; what a round writes and in which order is WriterThreads.OutputIsInOrder. |
| `WriterThreads.OutputIsInOrder` | src/logging/writer.c:222-253 | In every reachable state the output falls into deliveries, each ending in its entry: before it stand, in this order, one export, one reset and one note at most, each there if and only if such entries were lost since the entry before, and the note with their exact counts. |
| `WriterThreads.StopDrains` | src/logging/writer.c:218-256 | After a stop the writer takes at most two steps for each entry queued and three more, in any interleaving. |
| `WriterThreads.WriterCanGo` | src/logging/writer.c:218-256 | Until it has exited the writer can always take a step, so it does exit. |
| `WriterThreads.ExitLeavesNothing` | src/logging/writer.c:218-219 | The thread exits only after a stop, with nothing queued, unreported or pending; every entry was delivered or reported. |
| `WriterThreads.RequestsSurviveOverwriting` | src/logging/writer.c:112-115 | An export or reset request, overwritten or not, is carried out before the thread exits. |
| `NativeSession.Session.constructor` | src/latency/native.c:70-139 | Spacing and period are the interval in whole milliseconds, the period no shorter than the spacings of all targets; targets are due one spacing apart and the session starts sound. |
| `NativeSession.Open` | src/latency/native.c:57-139 | A session is refused if and only if one is open, there are no or too many targets, they would be sent to too often, or the ring, randomness, an address or a socket cannot be had. |
| `NativeSession.IntervalsFit` | src/latency/native.c:70-76 | Intervals that leave room for rounding never overflow the spacings or the period. |
| `NativeSession.Session.Expire` | src/latency/native.c:158-171 | The loop times out exactly the requests whose deadline has passed. |
| `NativeSession.Session.Fire` | src/latency/native.c:186-246 | A tick, whatever the lateness: it expires, then sends when session and target are due, stores the request and schedules both. |
| `NativeSession.Session.Tick` | src/latency/native.c:186-246 | From a sound session a tick whose send reads the clock at any safe lateness overwrites no request still waited for and leaves the session sound. |
| `NativeSession.Session.Accept` | src/latency/native.c:248-314 | A reply is accepted if and only if it answers a live request, settles exactly that one and yields a sample that says what its request measured (NativeSession.SampleMeasures); otherwise nothing changes. |
| `NativeSession.SampleMeasures` | src/latency/native.c:286-312 | For a target whose clock is ahead, a timestamp sample has the way up plus that offset and the way down less it, so together the round trip less the wait there; an echo half the round trip each way; and it is of the request's round and the reply's times. |
| `NativeTurns.AnswersIff` | src/latency/native.c:264-286 | A reply answers a live request if and only if it comes from that request's target with its sequence within ten seconds, carries its originate time, or token and serial, and arrived neither in the future nor before the send. |
| `NativeTurns.TickSends` | src/latency/native.c:213-246 | A tick that sends stores serial, clock reading, time of day and target, waits for the answer only if it was delivered, and schedules target and session from the due time. |
| `NativeTurns.TickRests` | src/latency/native.c:201-212 | A tick that does not send only expires, and takes over a target's later due time. |
| `NativeTurns.TargetsTakeTurns` | src/latency/native.c:213-246 | Over every run request s goes to target s modulo the number of targets, and so does every one waited for; with the sample's round that names its request. |
| `NativeSession.AcceptedIffAnswers` | src/latency/native.c:264-286 | The request found from the 16-bit sequence is the one and only live request the reply answers, if any. |
| `NativeSession.SequenceNamesSerial` | src/latency/native.c:266-271 | Among the last 65536 serials a 16-bit sequence number reconstructs to a serial if and only if it is that serial's. |
| `NativeSession.RoomToSend` | src/latency/native.c:201-213 | In a sound session that is due, the slot of the next serial is free after expiry. |
| `NativeSession.TickKeeps` | src/latency/native.c:186-246 | Expiry and a safely late send keep ring, schedule and the cover of every pending request. |
| `NativeRing.ExpiryIsExact` | src/latency/native.c:158-171 | Expiry changes the fate of exactly the pending requests past their deadline; live ones keep slot and contents. |
| `NativeRing.SendingKeeps` | src/latency/native.c:213-235 | Storing into a free slot keeps every live request in its own slot. |
| `NativeSchedule.CapacityBounds` | src/latency/native.c:77-81 | The ring covers the timeout by more than one spacing and at most two, and is far smaller than the sequence space. |
| `NativeSchedule.SendingDelaysAll` | src/latency/native.c:236-244 | A send at or after its due time brings no later send forward. |
| `NativeSchedule.SendingKeepsEven` | src/latency/native.c:230-244 | Scheduling from the due time, or from now when a whole spacing late, keeps the shape of the schedule: gaps of a spacing, a period's excess or a restart. |
| `NativeSchedule.SendingKeepsCover` | src/latency/native.c:230-244 | Through every send the reuse of a pending request's slot stays due no earlier than its deadline. |
| `NativeRuns.EveryRunKeeps` | src/latency/native.c:141-314 | Over every run of ticks and replies whose clock does not go back and whose sends are read safely late, no send uses the slot of a request still waited for. |
| `NativeRuns.EveryRequestHasOneFate` | src/latency/native.c:158-286 | Over every such run of an opened session requests sent = answers accepted + timeouts counted + requests pending, and no request is accepted twice. |
| `NativeRuns.LatenessIsSafeIff` | src/latency/native.c:77-81 | From any opening, runs whose sends are on time or late by one given amount never send into the slot of a request still pending if and only if that amount is safe; for an unsafe one a run that does is built. |
| `NativeRuns.SafeLatenessIs` | src/latency/native.c:236-238 | The safe amounts in closed form: up to a slack between one and two spacings, or from two spacings on, where the schedule restarts; both grow with a period's excess. |
| `NativeRuns.AnswerIsAccepted` | src/latency/native.c:264-286 | The reply a target sends to a request still waited for parses and is accepted for that very request. |
| `Icmp.PutInteger` | src/latency/icmp.c:34-40 | Writes the big-endian bytes of a value in place and nothing else. |
| `Icmp.GetInteger` | src/latency/icmp.c:42-49 | Reads the value of big-endian bytes. |
| `Icmp.IntegerRoundTrip` | src/latency/icmp.c:34-49 | Reading what was written gives the value back when it fits the width. |
| `Icmp.ComputeChecksum` | src/latency/icmp.c:97-107 | The 32-bit sum over words and a padded odd byte, folded and complemented. |
| `Icmp.FoldedIsResidue` | src/latency/icmp.c:104-105 | Folding the carries is reduction modulo 65535 that keeps a nonzero sum nonzero. |
| `Icmp.ChecksumVerifies` | src/latency/icmp.c:97-107 | Writing the checksum into a zero field makes the checksum of the packet zero, for every content and length the sum admits (section 1 of RFC 1071). |
| `Icmp.ChangedWordDetected` | src/latency/icmp.c:97-107 | Changing one word of a verifying packet is undetected if and only if the word keeps its residue. |
| `Icmp.Build` | src/latency/icmp.c:109-138 | Fills the buffer with exactly the specified request. |
| `Icmp.Parse` | src/latency/icmp.c:140-183 | Accepts exactly the replies of the family, mode and identifier, and returns their fields. |
| `Icmp.AnswerCarriesRequest` | src/latency/icmp.c:109-183 | The reply to a built request parses to the sequence, token and serial, or originate time, it carried. |
| `Icmp.DeliveredAnswerParses` | src/latency/icmp.c:147-160 | The same behind any IPv4 header a raw socket delivers. |
| `Icmp.RequestVerifies` | src/latency/icmp.c:134-136 | A built IPv4 request has checksum zero. |
| `IcmpWire.RequestOnWire` | src/latency/icmp.c:109-138 | Every field of a request lies, high byte first, where RFC 792 (echo, timestamp) and section 4.1 of RFC 4443 put it, and the rest is zero. |
| `IcmpWire.ParsedIff` | src/latency/icmp.c:140-183 | A packet parses to a reply if and only if, over IPv4, it is a whole unfragmented ICMP packet with a message that is that reply and verifies, and over IPv6 an echo message that is that reply; each reply field is the bytes at its place. |
| `TcpWindow.UnboundedFloorIsMinimum` | src/tcpdelay/estimator.c:22-34 | Without a bound the floor is the minimum of the values seen. |
| `TcpWindow.QueueIsClamped` | src/tcpdelay/estimator.c:22-34 | A sample shows its height above the floor as far as the bound allows, and the floor moves no more than that needs. |
| `TcpWindow.NaiveIsMinimum` | src/tcpdelay/estimator.c:60-76 | The reference result is the least queue among the observations of two windows. |
| `TcpWindow.AddRefines` | src/tcpdelay/estimator.c:36-58 | Adding an observation keeps two slots in agreement with the whole history, in whatever order times come. |
| `TcpWindow.ResultIsRecent` | src/tcpdelay/estimator.c:60-76 | At any time not before the newest window, the two-slot result is the naive minimum over the current and previous 100 ms windows. |
| `TcpWindow.ResultIsBounded` | src/tcpdelay/estimator.c:60-76 | A result is one of the observations it covers and lies within the bound in force for it. |
| `TcpWindow.TicksAreTrueAdvance` | src/tcpdelay/estimator.c:189-201 | With true clock values within 2^31 of the last accepted one, ticks equal the true advance since the flow began, across any number of wraps (section 5.2 of RFC 7323). |
| `TcpWindow.AcceptedIffNotBack` | src/tcpdelay/estimator.c:189-201 | A sample in time order is accepted if and only if its true clock has not gone back. |
| `TcpEstimator.AtMostOneFits` | src/tcpdelay/estimator.c:112-131 | The tolerances of the candidate tick lengths never overlap. |
| `TcpEstimator.FitTick` | src/tcpdelay/estimator.c:112-131 | The search loop finds the fitting tick length, or none. |
| `TcpEstimator.Estimator.FindSlot` | src/tcpdelay/estimator.c:88-109 | Finds the slot of a flow, else the first unused one, else that of the least recently accepted flow. |
| `TcpEstimator.Estimator.FlowFor` | src/tcpdelay/estimator.c:88-109 | A known flow is left as it is; otherwise exactly the found slot starts a new flow. |
| `TcpEstimator.Estimator.Add` | src/tcpdelay/estimator.c:183-225 | One sample updates exactly its flow's slot as specified, clock, floors, windows and record of offers together; in true delays what that records is TcpTruth.QueuesAreTrue, by TcpTruth.RecordingContinues. |
| `TcpEstimator.FlowTicksAreTrue` | src/tcpdelay/estimator.c:189-201 | A flow's ticks are its sender's true advance since the flow began, for all the packets it was offered, while none is half the clock away from the last taken. |
| `TcpEstimator.UpdateTells` | src/tcpdelay/estimator.c:139-175 | An update keeps a flow's windows in agreement with its calibrated queues, its clock with the packets it was offered, and every floor with all measurements at that period, each under the bound then in force. |
| `TcpEstimator.FloorsAreMinima` | src/tcpdelay/estimator.c:22-34 | Without a bound each floor of a slot is the least value its flow has measured at that period since it began. |
| `TcpEstimator.SmallTimesCompute` | src/tcpdelay/estimator.c:139-175 | No measurement overflows while times and the sender's time stay below 2^61 ns. |
| `TcpEstimator.ChooseNext` | src/tcpdelay/estimator.c:239-260 | The selection prefers complete pairs, then the earliest start, over all flows seen. |
| `TcpEstimator.Estimator.Result` | src/tcpdelay/estimator.c:227-272 | Both directions come from the one preferred fresh flow and equal the naive minima of its samples. |
| `TcpEstimator.ReportedQueueIsBounded` | src/tcpdelay/estimator.c:227-272 | A reported queue lies between zero and the bound in force for a sample it covers. |
| `TcpEstimator.EstimateIsLeast` | src/tcpdelay/estimator.c:227-272 | An estimate is, to the nearest microsecond, the least queue down the flow has shown in this 100 ms window or the one before, and the least up if it has shown one. |
| `TcpTruth.QueuesAreTrue` | src/tcpdelay/estimator.c:139-225 | For packets that leave a server on its own tick, each packet a calibrated unbounded flow takes is recorded with its true queue each way: its delay down less the least so far, and up less the least so far, since the flow began. |
| `TcpTruth.RecordingContinues` | src/tcpdelay/estimator.c:183-225 | A sample added for such a flow continues such a run, and one that starts a slot begins one. |
| `TcpTruth.TrueTickIsAdopted` | src/tcpdelay/estimator.c:112-131 | Once its delay has changed by little of its age, a flow older than two seconds adopts the server's own tick. |
| `TcpTruth.ImplausibleStartsOver` | src/tcpdelay/estimator.c:208-213 | A true queue of over ten seconds either way starts the flow over at that packet. |
| `MqttOwners.StepKeepsInv` | src/logging/mqtt.c:59-300 | Every step of main, sender or network thread keeps counts equal to live holders. |
| `MqttOwners.CountsAreHolders` | src/logging/mqtt.c:59-76 | In every reachable interleaving each owner count is the number of live holders, and a thing is freed exactly when none is left. |
| `MqttOwners.AccessesAreLive` | src/logging/mqtt.c:120-300 | Every step is by a thread that holds the state, a connection it touches is its own, and neither has been freed. |
| `MqttOwners.FewNetworksAlive` | src/logging/mqtt.c:251-260 | At most one network thread is alive while main holds its reference, and at most two ever, even when joins time out. |
| `MqttOwners.AttemptsIff` | src/logging/mqtt.c:251-260 | In every reachable state a connection is attempted if and only if at most one of main and the network threads still holds the state; so beside a live network thread if and only if main has released and that thread is the only one. |
| `MqttOwners.TwoNetworksAreReachable` | src/logging/mqtt.c:254-260 | Two network threads are reachable once main has released: the count then no longer shows a thread left behind. |
| `MqttOwners.EverythingIsFreed` | src/logging/mqtt.c:59-76 | When all threads have ended the state and every connection have been freed exactly once. |
| `MqttEnding.LeftMeansTold` | src/logging/mqtt.c:193-204 | In every interleaving a network thread has been told to stop if and only if the sender is past telling it: never while the sender keeps its connection, and always once left behind. |
| `MqttEnding.SenderEnds` | src/logging/mqtt.c:240-300 | Once main has told it to stop the sender takes at most ten more steps, in any interleaving. |
| `MqttEnding.NetworkEnds` | src/logging/mqtt.c:133-142 | A network thread told to stop takes at most four more steps. |
| `MqttEnding.LoopEndsIff` | src/logging/mqtt.c:133-137 | A network thread leaves its loop if and only if a round fails or it finds itself told. |
| `MqttEnding.LeavesOnlyWhenTold` | src/logging/mqtt.c:251-300 | Over every run a started sender leaves only after main has told it to stop. |
| `MqttEnding.JoiningFrees` | src/logging/mqtt.c:193-204 | Releasing a connection whose thread was joined frees it; one whose thread still holds it stays that thread's. |
| `MqttEnding.MainJoiningFrees` | src/logging/mqtt.c:397-410 | Main's release after joining the sender frees the state, unless a network thread still has it. |
| `MqttEnding.QuietMeansFreed` | src/logging/mqtt.c:59-76 | When no thread can take a step all have ended and everything shared has been freed once: none is ever stuck. |
| `MqttQueue.LineQueue.Submit` | src/logging/mqtt.c:373-395 | A line is appended when online and there is room, and wakes the sender exactly when the queue was empty. |
| `MqttQueue.LineQueue.Take` | src/logging/mqtt.c:215-223 | The oldest line leaves the circular queue and the rest keep their order. |
| `MqttQueue.WakeUpIsLostIff` | src/logging/mqtt.c:249-296 | In every interleaving the sender waits at a line it could send, with no wake-up to come, if and only if a round that could not read its clock went past such a line and nothing but more lines has come since. |
| `MqttQueue.WakeUpsAreNeverLost` | src/logging/mqtt.c:279-294 | So no wake-up is lost in an interleaving whose rounds all read their clock, although only the first line of an empty queue wakes. |
| `MqttQueue.AnUnreadClockLosesAWakeUp` | src/logging/mqtt.c:251-252 | A run in which a wake-up is lost: the round a line started could not read its clock. |
| `MqttLines.FlagsTell` | src/logging/mqtt.c:78-296 | In every interleaving the connection is up, lines are accepted, one is on its way, or the sender is signalled, exactly when a step said so and none since said otherwise. |
| `MqttLines.LinesAddUp` | src/logging/mqtt.c:206-238 | In every interleaving the lines accepted are those taken for publishing, given up with a connection, or still queued. |
| `RateControl.InterpolationStaysBetween` | src/controller/rate.c:48-54 | A factor lies between its ends and meets them. |
| `RateControl.AdjustmentKeepsHeld` | src/controller/rate.c:112-191 | Every adjustment leaves the rate a multiple of eight bit/s within its limits, under any holdable ceiling. |
| `RateControl.DecayStepIsAdjustment` | src/controller/rate.c:164-174 | An uncongested, lightly loaded, uncapped adjustment after the decay refractory period is one decay step. |
| `RateControl.StepCloser` | src/controller/rate.c:31-45 | A decay step that progresses moves at least 8 bit/s toward base and never past it, and the next one progresses too. |
| `RateControl.DecayReachesBase` | src/controller/rate.c:31-45 | Decay reaches base in at most the distance over eight steps. |
| `RateControl.DecayReachesBaseIff` | src/controller/rate.c:31-45 | Decay ever reaches base if and only if the factor in use moves the current rate by a whole step. |
| `RateControl.SlowRateStalls` | src/controller/rate.c:31-45 | A one per cent factor leaves 400 bit/s where it is for ever. |
| `RateMoves.CutIs` | src/controller/rate.c:140-153 | A blamed congestion past the refractory period leaves the held product of rate and a factor, under ceiling and limits: the maximum factor from the adjust-down delay on, the minimum one up to the threshold, and in proportion between; with the reason given and both times set. |
| `RateMoves.IncreaseIs` | src/controller/rate.c:154-163 | Load without congestion, past the refractory period and with a new sample, does the same with the up factors: the maximum one up to the adjust-up delay, the minimum one from the threshold on. |
| `RateMoves.DecayIs` | src/controller/rate.c:164-174 | Without either, past the decay period, the rate moves by its decay factor toward base and never past it. |
| `RateMoves.RestIs` | src/controller/rate.c:176-191 | Otherwise only the ceiling moves a rate, and nothing else of the direction changes. |
| `RateMoves.UnseenIs` | src/controller/rate.c:129-138 | Without load, delay or a say in it the rate stays; the first load seen sets it as it is. |
| `RateMoves.CutNeverRaises` | src/controller/rate.c:148-150 | Down factors of at most one never raise a rate. |
| `RateMoves.CutDeepens` | src/controller/rate.c:57-82 | A longer average delay never cuts less. |
| `RateMoves.IncreaseNeverLowers` | src/controller/rate.c:154-163 | Up factors of at least one never lower a rate the ceiling leaves alone. |
| `RateMoves.IncreaseShrinks` | src/controller/rate.c:85-110 | A longer average delay never raises a rate more. |
| `Congestion.AddHolds` | src/controller/congestion.c:76-98 | Replacing the oldest slot keeps rings, running sum and count equal to the last window of delays. |
| `Congestion.TurnsNeedThree` | src/controller/congestion.c:14-57 | The line turns saturated only on three full samples in a row and leaves only on three eased ones or an unmeasurable one. |
| `Congestion.TurnsAtThree` | src/controller/congestion.c:14-57 | While no sample is full and eased at once, it turns saturated exactly on the third full sample in a row and leaves exactly on the third eased one or an unmeasurable one. |
| `Congestion.UnknownIff` | src/controller/congestion.c:14-57 | The line is unknown exactly while nothing but full samples, fewer than three, has come since the start or an unmeasurable one. |
| `Congestion.CountsLonger` | src/controller/congestion.c:76-98 | The count of a window is the number of its delays that are longer than nothing and than the threshold they came with. |
| `Congestion.BothFullAndEasedIff` | src/controller/congestion.c:14-57 | A sample can count toward both turns if and only if its rate is below 5 bit/s. |
| `Controller.Direction.AddDelay` | src/controller/congestion.c:76-98 | One delay enters the rings and the abstract window of delays advances, whenever the running sum fits 64 bits. |
| `Controller.SmallDelaysFit` | src/controller/congestion.c:76-98 | Delays up to the 64-bit range over the window always fit. |
| `Controller.Direction.UpdateCongestion` | src/controller/congestion.c:59-108 | The average is over the window's delays, and congestion is detected if and only if the threshold number of them exceeded the threshold in force when each arrived. |
| `Controller.Direction.ComputeAdjustment` | src/controller/rate.c:112-191 | The branch-by-branch adjustment equals its specification, reason included; what that makes of a rate is RateMoves.CutIs, RateMoves.IncreaseIs, RateMoves.DecayIs, RateMoves.RestIs and RateMoves.UnseenIs. |
| `Controller.Direction.Update` | src/controller/controller.c:87-119 | One update of a direction: line state, congestion and rate, with the run record kept, and every field of the output with its change flag. |
| `Controller.RunKeeps` | src/controller/rate.c:112-191 | One update keeps recorded cuts apart, each counted over its own window, and increases distinct. |
| `Controller.EveryRunKeeps` | src/controller/controller.c:87-212 | Over every run of updates and falls to the minimum the rate stays a multiple of eight within limits; cuts lie more than the refractory period apart, and for each the delays over the threshold, counted in the window as it was then, reach the configured number; no traffic sample id brings two increases. |
| `Controller.PlanIsSound` | src/controller/controller.c:148-188 | Attribution blames a direction, the delay split loses nothing, and each ceiling is none or a rate CAKE can hold. |
| `Controller.Controller.Update` | src/controller/controller.c:121-197 | Both directions are updated with the plan made from the rates before the update, at least one is blamed, and each output reports its own direction; what each is charged with and blamed for is Plans.DelayFollowsQueues and Plans.BlameFollowsQueues, what it makes of that Plans.UpdateSees. |
| `Controller.Controller.SetMinimumRates` | src/controller/controller.c:199-212 | Adjusted directions fall to their minimum and the controller stays valid. |
| `Controller.Direction.Compensate` | src/controller/coupling.c:59-76 | The thresholds used are the configured ones plus the time one packet takes to send. |
| `Coupling.SomeDirectionIsBlamed` | src/controller/controller.c:148-176 | Bufferbloat is attributed to at least one direction under the heuristic and under measured queues. |
| `Coupling.SplitDelay` | src/controller/controller.c:177-188 | Download has the round trip's share of its own queue, to the nearest microsecond, and upload the rest. |
| `Plans.DelayFollowsQueues` | src/controller/controller.c:161-188 | With shared, valid queues of 5 ms together each direction is charged the share of the round trip that its own queue is, to the nearest microsecond, so nothing without a queue; otherwise each keeps its own delay. |
| `Plans.BlameFollowsQueues` | src/controller/controller.c:148-176 | With such queues a direction is blamed if and only if its own is a quarter of both or more; otherwise both for their own delays, and for a shared one download unless it delivers 98 per cent of its rate, upload if it does or is not loaded. |
| `Plans.CeilingIff` | src/controller/coupling.c:11-41 | Upload has no ceiling, and download one if and only if ACKs have a share, all is known, upload is loaded and ACKs take more than they are allowed. |
| `Plans.AllowedIsRest` | src/controller/coupling.c:11-41 | ACKs are allowed what other traffic and a twentieth of the rate leave of it, and at least their share. |
| `Plans.UpdateSees` | src/controller/controller.c:83-119 | An update adjusts the rate to the mean of the last window's delays, its own among them, and to how many of them were over their thresholds. |
| `Plans.CutIffBlamed` | src/controller/rate.c:140-153 | A cut is made if and only if a direction that sees enough delays is blamed and has waited. |
| `Plans.IncreaseIffLoaded` | src/controller/rate.c:154-163 | An increase is made if and only if a loaded direction sees few enough delays and a new sample, and has waited. |
| `Plans.ChangesAreDifferences` | src/controller/controller.c:83-119 | An output shows what its update left, and a change if and only if that differs from the output before. |
| `Plans.UpdateShows` | src/controller/controller.c:83-119 | An update leaves to report its line, the mean and the count of the window its delay has joined, congestion if and only if that count reaches the threshold, who was blamed, and whether ACKs limit it. |
| `Plans.ChangedRateIsSet` | src/controller/rate.c:193-217 | A CAKE set to every rate reported as changed holds the shaper's rate; the first is always reported, a later one only when CAKE has another, always with a reason. |
| `Coupling.PositiveQueuesSplit` | src/controller/controller.c:177-188 | With queues that are not negative and a first product that fits, the whole split fits and both shares lie between nothing and the round trip. |
| `Coupling.ShareOfRoundTrip` | src/controller/controller.c:177-188 | A queue's share of the round trip lies between nothing and all of it. |
| `Coupling.CeilingIsExact` | src/controller/coupling.c:11-41 | When a ceiling applies and the partial product fits: ceiling x ack rate <= traffic x allowed < (ceiling + 8) x ack rate, and allowed is at least the configured share. |
| `Coupling.CeilingIsHoldable` | src/controller/coupling.c:11-41 | Every ceiling is none at all or a rate CAKE holds. |
| `Random.RandomBelow` | src/common/random.c:5-27 | The rejection loop yields the specified selection from its source, or fails with it. |
| `Random.SelectionIsUniform` | src/common/random.c:19-26 | Every index has the same number of accepted source values, for every count. |
| `Random.Shuffle` | src/common/random.c:29-49 | The in-place swaps give the order the drawn choices stand for; the items stay the same even when the source fails half way. |
| `Random.ShufflePermutes` | src/common/random.c:37-47 | Every choice sequence yields a permutation. |
| `Random.EveryPermutationReached` | src/common/random.c:37-47 | Every permutation is reached by some choice sequence. |
| `Random.ChoicesAreUnique` | src/common/random.c:37-47 | Different choice sequences give different orders of distinct items. |
| `Inject.FallbacksCoverClocks` | src/tcpdelay/inject.h:19-32 | One of the two fallback values is not ahead of a client's clock if and only if the clock is not zero. |
| `InjectRuns.EveryEventIsAFlowStep` | src/tcpdelay/tcpdelay.bpf.c:453-551 | Every event leaves a flow's handshake alone, moves it up, starts a wait for data, closes it with one count, or replaces it by a newly injected one; none is dropped. |
| `InjectRuns.EveryRunTells` | src/tcpdelay/tcpdelay.bpf.c:365-838 | Over every run a handshake is its flow's last injection, counted refused or stalled exactly once when closed and never before; every working count belongs to an injection of its own, in order; and one sequence is injected again only after another. |
| `InjectRuns.UnstampedNeverEchoes` | src/tcpdelay/tcpdelay.bpf.c:511-551 | After any run an answer without a timestamp settles an open handshake and is never taken for an echo. |
| `InjectRuns.CountersAgree` | src/tcpdelay/tcpdelay.bpf.c:822-836 | Over every run and all flows no more handshakes are counted accepted, and no more stalled, than injected. |
| `InjectRuns.OneSequenceCanBeInjectedTwice` | src/tcpdelay/inject.h:70-84 | The same initial sequence is injected twice when another came between: the exact limit of once per sequence. |
| `InjectRuns.AStalledHandshakeCanWork` | src/tcpdelay/inject.h:110-113 | A handshake counted stalled is counted accepted as well when data is acknowledged after all. |
| `InjectRuns.SettledWorksIff` | src/tcpdelay/tcpdelay.bpf.c:365-551 | Over every run a handshake already counted refused or stalled is counted accepted later if and only if its echo found the flow known, nothing was counted accepted since, and data passes its SYN before the echo of a later handshake takes over the wait. |
| `InjectRuns.AnEarlierHandshakeIsCounted` | src/tcpdelay/tcpdelay.bpf.c:365-375 | Data of a newer connection on the four-tuple is counted for the older handshake when the older echo is the one waited with; the newer one is counted too once it is echoed. |
| `InjectRuns.CountsLastIff` | src/tcpdelay/tcpdelay.bpf.c:365-375 | Over every run a working count adds one injection, which is the flow's last if and only if since that one its echo found the flow known with nothing counted after, and an earlier one otherwise. |
| `InjectRuns.WorkedIsExact` | src/tcpdelay/tcpdelay.bpf.c:365-375 | One event counts a handshake accepted if and only if its flow still waits and the acknowledgement passes the waiting SYN. |
| `InjectRuns.StallSuitsNextIff` | src/tcpdelay/tcpdelay.bpf.c:491-504 | After a stall under the first value the client's next SYN gets a value that suits its nonzero clock if and only if the client's entry is under a day old and holds no learned clock that is ahead. |
| `InjectRuns.AForgottenClientStallsAgain` | src/tcpdelay/tcpdelay.bpf.c:491-504 | After any run a client whose entry is a day old, and whose handshake stalls, gets the first value again on its next SYN. |
| `Refusals.LeftAloneIffRefused` | src/tcpdelay/tcpdelay.bpf.c:777-822 | Over every run whose clock does not go back the first SYN of a handshake is left alone if and only if its server refused one within the day before, and is injected otherwise once a timestamp can be appended; a retransmission never is. |
| `Refusals.EventSettles` | src/tcpdelay/tcpdelay.bpf.c:453-551 | What each event makes of a handshake: who refuses it before and after its echo, when it stalls, and that a closed one changes no more. |
| `Refusals.EntryFollowsClock` | src/tcpdelay/tcpdelay.bpf.c:472-504 | A client's entry changes only with the first stamp of an echoed handshake of its own, which becomes its clock, and with a stall. |
| `Refusals.InjectsClock` | src/tcpdelay/tcpdelay.bpf.c:727-739 | The value injected is the client's clock as shown within a day, else a fallback: the second after a stall within that day, the first otherwise. |
| `Inject.Injector.NewSyn` | src/tcpdelay/tcpdelay.bpf.c:777-822 | A SYN is injected, retried, refused, passed or left alone as classified, over the real maps and counters. |
| `Inject.Injector.Observe` | src/tcpdelay/tcpdelay.bpf.c:511-551 | A reset or SYN-ACK settles the handshake as classified. |
| `Inject.Injector.SkipServer` | src/tcpdelay/tcpdelay.bpf.c:453-465 | A refusal closes the handshake, skips the server and is counted. |
| `Inject.Injector.Stall` | src/tcpdelay/tcpdelay.bpf.c:491-504 | A stall closes the handshake and marks the client, known or new. |
| `Inject.Injector.Reset` | src/tcpdelay/tcpdelay.bpf.c:833-839 | A reset whose sequence follows the SYN at once refuses an echoed handshake; any other reset changes nothing. |
| `Inject.Injector.Learn` | src/tcpdelay/tcpdelay.bpf.c:472-484 | The client's clock is learned once from an echoed handshake. |
| `Inject.Injector.CheckData` | src/tcpdelay/tcpdelay.bpf.c:365-375 | Acknowledged data ends the wait and is counted. |
| `TcpOptions.TimestampIndex` | src/tcpdelay/tcpdelay.bpf.c:205-234 | Fast path and bounded loop both give the recursive walk's answer; forty steps decide. |
| `TcpOptions.OptionsMayTimestamp` | src/tcpdelay/tcpdelay.bpf.c:741-751 | Answers whether the kind and length bytes stand side by side anywhere within the options. |
| `TcpOptions.NeverMissed` | src/tcpdelay/tcpdelay.bpf.c:734-751 | Whenever the full walk finds a timestamp the cheap question answers yes (section 3.2 of RFC 7323). |
| `TcpOptions.WalkFindsFirst` | src/tcpdelay/tcpdelay.bpf.c:205-234 | For every well-formed option list the walk finds its first timestamp where the list puts it. |
| `TcpOptions.FoundIsTimestamp` | src/tcpdelay/tcpdelay.bpf.c:229-230 | A found timestamp lies whole within the options. |
| `TcpOptions.AppendedIsFoundIff` | src/tcpdelay/tcpdelay.bpf.c:661-669 | An appended timestamp is found if and only if the options before it run out at their end or within its padding. |
| `TcpOptions.AppendedAfterEndIsLost` | src/tcpdelay/tcpdelay.bpf.c:741-775 | After an end-of-options byte an appended timestamp is never seen, though such a SYN is eligible. |
| `Decimal.ParseScaled` | src/config/config.c:136-205 | The cursor and accumulator loops compute the specified result, error included. |
| `Decimal.ParseIsExact` | src/config/config.c:136-205 | A text is accepted if and only if it is a decimal, has no nonzero digit past the last whole place and fits 64 bits; the value stored is then exactly the number it denotes, and each error is given only for its reason. |
| `Precision.TruthfulIff` | src/config/config.c:170-188 | A refusal for precision always means the number is no whole number of units if and only if the scale, without its factors of ten, has no factor two or five. |
| `Precision.TruthfulOptions` | src/config/options.c:59-174 | Of the option table's scales these are exactly one, a thousand and a million. |
| `Precision.RefusedIsWhole` | src/config/config.c:170-188 | For every other scale a text is built that is refused for precision although it is a whole number of units. |
| `Precision.HalfKilobyteIsRefused` | src/config/config.c:170-181 | At the KB scale 0.5 is refused for precision although it is exactly 512 bytes. |
| `Precision.ThreeMicrosecondsAreRefused` | src/config/config.c:170-181 | At the minute scale 0.00000005 is refused for precision although it is exactly three microseconds. |
| `Options.FormatScaled` | src/config/options.c:192-210 | The buffer holds the shortest text, zeros stripped in place, or a cut one when it is too small. |
| `Options.TrimsAllZeros` | src/config/options.c:203-207 | Trimming drops the trailing zeros, all of them and nothing else. |
| `Options.RoundTrip` | src/config/options.c:192-210 | parse(format(v)) = v for every 64-bit v at the scales one, a thousand and a million, with no overflow branch taken. |
| `Options.MinuteRoundTrip` | src/config/options.c:192-210 | At the minute scale the value comes back as the nearest multiple of 60 us, so unchanged if and only if it is one. |
| `Options.KilobyteRoundTrip` | src/config/options.c:192-210 | At the KB scale the value comes back if and only if it is a multiple of 1024, and is refused for precision otherwise. |
| `Tracker.LatencyTracker.Update` | src/latency/tracker.c:92-116 | Both baselines move to the sample or restart on a rollover; each observation reports delta, baseline and EWMA. |
| `Tracker.LatencyTracker.SampleRolledOver` | src/latency/tracker.c:27-45 | The split comparison decides whether the two differences add up to 50 minutes or more, without overflow. |
| `Tracker.LatencyTracker.UpdateEwma` | src/latency/tracker.c:125-146 | Deltas are averaged only under low load. |
| `Tracker.AverageStaysIff` | src/latency/tracker.c:52-70 | A representable average keeps its value if and only if the weighted distance is under half a microsecond, or half and toward zero. |
| `Tracker.DeltaKeepsSign` | src/latency/tracker.c:73-90 | A delta has the sign of sample minus old baseline, or is zero. |
| `Tracker.ReplySteps` | src/latency/tracker.c:73-146 | A baseline takes a delay at or above it by the increase weight and one below it by the decrease weight, to the nearest microsecond, and both restart when the delays rolled over; the delta is from the baseline after, averaged by its own weight under low load only. |
| `Tracker.BaselineComesCloser` | src/latency/tracker.c:73-90 | A baseline never moves away from or past the sample, and strictly approaches while alpha times distance exceeds 500000. |
| `Tracker.ConstantSampleSettles` | src/latency/tracker.c:73-90 | Under a constant sample the baseline ends within 500000/alpha microseconds in at most its distance of steps, and stays; overflow or not. |
| `Tracker.RunStaysWithin` | src/latency/tracker.c:17-146 | Over every run, resets and rollovers included, baselines stay in the hull of the initial value and the samples, and EWMAs within its width. |
| `Tracker.Record` | src/daemon/reflectors.c:111-132 | Recording a reply is one step of such a run. |
| `RecentDelay.Slots.Add` | src/daemon/reflectors.c:60-73 | A reply updates its slot's per-second maxima and history, and no other slot. |
| `RecentDelay.ValueIsRecentMaximum` | src/daemon/reflectors.c:75-86 | A slot's value is its two-second maximum, and none without a reply in those seconds; a slot that never replied reads zero in the first two seconds. |
| `RecentDelay.ValuesAreMaxima` | src/daemon/reflectors.c:88-109 | Past the first two seconds the values read are exactly the recent maxima of the slots that replied. |
| `RecentDelay.Slots.RecentDelayUs` | src/daemon/reflectors.c:88-109 | Past the first two seconds the result is the lower median of the two-second maxima of the slots that replied in them, over all replies recorded, or -1 without one. |
| `RecentDelay.Insert` | src/daemon/reflectors.c:102-106 | One insertion round leaves the sorted values with the new one in place. |
| `RecentDelay.MedianIsUnique` | src/daemon/reflectors.c:108-108 | Only one value is the lower median of a list. |
| `RecentDelay.MedianIgnoresAnOutlier` | src/daemon/reflectors.c:108-108 | With two values or more at least two are no smaller; with three or more at least two are no larger. |
| `Reflectors.ReflectorHealth.Check` | src/controller/reflector.c:45-66 | Misbehaving if and only if the threshold is reached among the last window checks, this one included. |
| `Reflectors.CheckHolds` | src/controller/reflector.c:54-61 | Replacing the oldest slot keeps ring and count equal to the last outcomes. |
| `Reflectors.QuietWindowClears` | src/controller/reflector.c:54-66 | A window of checks without an offence clears a reflector. |
| `Reflectors.Rotate` | src/controller/reflector.c:116-130 | The in-place array rotation is the queue operation: head of the standbys in, replaced reflector to the end. |
| `Reflectors.StandbyIsAQueue` | src/controller/reflector.c:116-130 | Over every run the standby list is what is left of the first standbys followed by the reflectors rotated out, in order. |
| `Reflectors.RunPermutes` | src/controller/reflector.c:116-130 | Over every run no reflector is lost or doubled. |
| `Activity.Activity.Update` | src/controller/activity.c:95-152 | The field-by-field update equals the transition and output functions. |
| `Activity.TurnsIdleIff` | src/controller/activity.c:105-131 | Over every run with a clock that does not go back the link turns idle exactly at a resting update outside grace more than the limit after one since which the link ran and every update outside grace rested (healthy, both counters read and quiet, sleep enabled). |
| `Activity.OneReportPerOutage` | src/controller/activity.c:107-108 | Between two global-timeout reports some response was recent. |
| `Activity.GraceHidesTraffic` | src/controller/activity.c:111-112 | That rest can span a busy update: a grace period hides it and the idle clock runs on. |
| `ActivityPhases.StalledIff` | src/controller/activity.c:110-117 | Over every run the link is stalled if and only if a running one turned deaf outside a grace period and has been deaf since: silent past the stall timeout and not moving both ways. |
| `ActivityPhases.IdleIff` | src/controller/activity.c:118-135 | Over every run the link is idle if and only if an update turned it idle and neither direction has been active since. |
| `ActivityPhases.ReportedIff` | src/controller/activity.c:107-147 | Over every run the global timeout counts as reported if and only if it was found past and no response has been recent since. |
| `ActivityPhases.OutputIff` | src/controller/activity.c:142-152 | Each flag of every update's output, as an equivalence in its inputs and the run before. |
| `Durations.SixDecimals` | src/latency/parser.c:48-58 | Six places and one more digit round a decimal fraction of any length half up. |
| `Durations.ParseRoundTrip` | src/latency/parser.c:60-83 | The nanoseconds are the exact decimal rounded half up once; no text that is accepted overflows. |
| `Durations.ParseIrttDuration` | src/latency/parser.c:266-303 | The microseconds are the exact duration rounded half up once, and the text is refused if and only if it is malformed or does not fit. |
| `Durations.TruncatedIsExact` | src/latency/parser.c:266-270 | Truncated nanoseconds round to the microsecond the exact duration rounds to. |
| `Arith.MulDivExactIff` | src/common/arith.h:87-90 | The split quotient is exact if and only if the partial product fits 64 bits. |
| `Arith.RoundedDivideNearest` | src/common/arith.h:93-96 | Nearest integer, ties upward. |
| `Arith.SignedRoundedDivideNearest` | src/common/arith.h:99-110 | The quotient rounded half away from zero, computed with truncating division. |
| `Arith.RatioOfExact` | src/common/arith.h:118-124 | A valid ratio of a value is the truncated product, saturated. |
| `Arith.RatioOfRoundedUpExact` | src/common/arith.h:127-133 | The same rounded up. |
| `Arith.SignedDifferenceClamps` | src/common/arith.h:74-81 | The signed difference is the true one, clamped. |
| `Rate.SerializationExactIff` | src/common/rate.c:5-21 | The serialization time is the exact one, rounded and saturated, if and only if the remainder scales or the exact time saturates. |
| `Rate.FractionExact` | src/common/rate.c:23-41 | The ratio is the exact truncated quotient, saturated, while the whole can be scaled. |
| `Rate.FractionOfLargeWhole` | src/common/rate.c:23-41 | A larger whole gives up the last six digits of both. |
| `Rate.BpsExact` | src/common/rate.c:43-58 | The rate never overstates, and is exact for intervals below 26 days. |
| `Rate.BpsUnderstatesIff` | src/common/rate.c:43-58 | The rate is understated if and only if the bits of the bytes left over reach the first multiple of the interval past 64 bits. |
| `Rate.BpsUnderstatesLongIntervals` | src/common/rate.c:43-58 | Such an interval and count exist: one past 26 days. |

## Left out

- Event loop, timers, child processes, sockets, netlink, ubus, UCI, libbpf, libmosquitto and syslog calls: they appear as parameters and nondeterministic step outcomes (a send that fails, a join that times out, an append that the kernel refuses).
- Log file rotation, export and reset I/O, and all message and record text.
- BPF verifier limits, map eviction, several processors, packet parsing and checksum helpers in the kernel: the injector model has one processor and maps that keep their entries; whether a flow is known to the sampling map is part of an answer.
- How long a thread join takes: it succeeds or leaves the thread behind.
- config_validate: its conditions are the preconditions `ConfigValid`, `LimitsValid`, `Weights.Valid` and `OptionScale`.
- 64-bit wrap-around of event counters (overwritten entries, timeouts, serials, injector counters): they are natural numbers, and a session's next serial stays below 2^64.
- reflector_compare, the fping line grammar around `ParseRoundTrip`, ICMP address parsing and the IRTT key lookup: easy members or text plumbing.
- Coupling.CeilingIsExact: has the premise that the split quotient's partial product fits 64 bits; `Arith.MulDivExactIff` shows the quotient is exact only then.
- Controller.Direction.UpdateCongestion: the running sum of the window with the new delay is assumed to fit 64 bits (`WindowFits`); otherwise the C sum overflows, which is undefined.
- Controller.EveryRunKeeps: thresholds may be compensated between steps, but the configured rates and the adjust flag are fixed, as they are while the controller lives.
- Controller.Controller.Update: the sum of the two queues, and when the split is used its sums and products, are assumed to fit 64 bits (`Representable`); `Coupling.PositiveQueuesSplit` says which of these follow.
- TcpEstimator.Estimator.Add: assumes that every signed number the sample has its flow compute fits 64 bits (`Representable`), without which the C arithmetic overflows; `TcpEstimator.SmallTimesCompute` gives times for which it does.
- TcpEstimator.Estimator.FlowFor: floors, windows and flows are values in the slot table; replacing a slot copies one, as the C assignment does.
- TcpWindow.TicksAreTrueAdvance: like TcpEstimator.FlowTicksAreTrue it assumes true remote clocks stay within 2^31 of the last accepted value, without which a 32-bit clock cannot be unwrapped.
- NativeSession.Session.Tick: the clock a send reads is late by an amount that is safe (`SafeLateness`); `NativeSession.Session.Fire` is the same tick without that premise, and `NativeRuns.LatenessIsSafeIff` says what happens otherwise.
- NativeRuns.LatenessIsSafeIff: the first rounds after opening are taken to end before the 64-bit clock does (`Fits`), where scheduling saturates.
- NativeSession.Open: the token and numbers for addresses are parameters, failures of allocation, randomness, addresses and sockets are outcomes; the interval rounded to milliseconds is assumed to fit 64 bits (`PaceFits`), as every interval up to 33 ms below 2^64 us does (`NativeSession.IntervalsFit`).
- RecentDelay.ValuesAreMaxima: holds from the third clock second on, for a clock that does not go back and delays that are not negative, as the daemon's are; `RecentDelay.ValueIsRecentMaximum` states what the first two show instead. The sum of two deltas is taken to fit 64 bits.
- Durations.ParseIrttDuration: text is a sequence of bytes as characters, the micro sign two of them; fping's bracketed epoch time, which uses the same `SixDecimals`, has no parser of its own here.
- Options.FormatScaled: scales are those of the option table, for which the product with a million fits 64 bits.
- Random.RandomBelow: the source is a finite sequence that may run dry; how random it is stays outside.
- Congestion.TurnsAtThree: samples are taken not to be full and eased at once, which `Congestion.BothFullAndEasedIff` shows needs a rate below 5 bit/s.
- MqttOwners.Next: the sender's retry times and the order of its tests within a round are left open, so more interleavings are covered than the code has; only steps that touch shared state or change an owner are apart.
- TcpTruth.QueuesAreTrue: is for flows without a bound, whose server ticks at one of the standard periods exactly, and packets under half the 32-bit clock from the last taken; with a bound each sample is `TcpWindow.QueueIsClamped`.
- RateMoves.CutIs: where a span of delays is over 200 days, past what ratios scale exactly for, only the ends, the bounds and `RateMoves.CutDeepens` are stated.
- NativeSession.SampleMeasures: is for a timestamp request whose send and answer fall on one day of both clocks; across midnight the fields wrap, which is what a sample's rollover mark is for.
- controller_load and controller_low_load: two comparisons of a load ratio, easy members.
