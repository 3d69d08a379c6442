# Verification model of the amateur-radio DTN stack

A Dafny model of the parts of the stack whose behaviour is not visible from any single
function: the KISS framing layer and its two independent stream readers, contact prediction
and the plan validator it feeds, the bundle store and the node controller on top of it, the
IQ modem and the S-band bundle codec, the sliding-window rate limiter, the lifecycle handlers
over their shared state machine, and the ION and Hardy configuration generators.

Code that changes things step by step is modelled by methods and classes with loops, proved
against specification functions; the laws are lemmas about those functions. The environment is
left open: a serial port is an arbitrary byte stream, a convergence layer may answer anything
at any time, map iteration order and the ties of a sort are arbitrary, elevation and Doppler
are arbitrary functions of station and instant, and concurrent actors interleave arbitrarily.

`dafny verify dfyconfig.toml` checks the project.

| files | what they model |
|---|---|
| `Kiss`, `KissStream`, `KissPlugin`, `RxQueue` | the KISS codec, the Go nested-loop reader, the C++ byte automaton, the drop-oldest receive queue |
| `Contact`, `Prediction`, `PredictionTheorems` | contact plans and their validator; pass prediction as edge detection |
| `Bpa`, `Store`, `Ledger`, `Node` | bundle identity and validity; the bounded store; the event log of a node and its laws; the operation cycle that follows it |
| `IqBits`, `Iq`, `Bpsk`, `Fsk`, `SBand` | bit packing, symbol decisions, BPSK with noise, FSK, the S-band bundle codec and chain |
| `SBandNode` | the node controller over the S-band adapter |
| `RateLimiter` | the sliding window |
| `Lifecycle` | the engine state machine as the lock of concurrent handlers |
| `HardyServices`, `NetworkConfig`, `IonConfig` | unique service names; configuration validation; references between the generated ION files |
| `Prelude`, `Decimal`, `Sorting` | shared result types, decimal printing, `sort.Slice` |

## Where the code falls short of its intent

Each of these is proved with its exact condition, and where the condition does not already
name a failing input a lemma exhibits one.

- A KISS port whose low four bits are 12 makes the plugin's command byte equal to the frame
  delimiter; no payload sent on it is decoded to itself (`PluginRoundTripExactly`).
- Two endpoints print alike, and two bundle IDs then share a store key, exactly when one scheme
  swallows a `://` of the other's endpoint; two IDs also do when a timestamp and its negation
  meet an endpoint that ends in a minus sign (`EndpointsCollideExactly`, `PrintCollidesExactly`,
  `CollidingPairs`).
- `RecoverFromPowerLoss` adds a restored bundle's size even when it overwrites one with the same
  ID, after which the recorded size stays too large (`RecoveryAccountsExactly`, `TwiceRecovered`).
- A bundle whose end of life exceeds 64 bits is never valid, as the sum wraps into the past
  (`ValidExactly`).
- The drop-oldest queue can drop a frame it has room for, when consumers take between one and
  fifteen frames after the producer found it full (`NeedlessDropExactly`, `NeedlessDropWitness`).
- `HealthCheck`'s dropped figure counts every bundle sent as dropped and does not count refused
  ones (`DroppedMeans`).
- The S-band codec sends the printed endpoint but parses it back as the scheme-specific part of
  an `ipn` endpoint, so no destination endpoint survives; one printed to 256 bytes or more also
  spills into the payload (`DestinationNeverSurvives`, `DestinationAndPayloadExactly`).
- The node receives after each window has been closed again, so over the S-band adapter it gets
  nothing unless a Close fails; and then the link, still open, refuses every later window
  (`ReceptionExactly`, `NeverReceives`, `NoSendingAfterReception`, `ReceptionCanHappen`).
- What arrives over S-band has no creation time and one identity for all: it is valid only in
  the first seconds of the epoch, a store keeps one at most, and none is ever forwarded
  (`ArrivalValidExactly`, `SecondArrivalRefused`, `ArrivalNeverForwarded`).
- FSK without the filter, in exact arithmetic, corrupts data with two samples per symbol
  whenever a 1 is followed by a 0, where the average is then exactly zero, and with one sample
  per symbol unless all bits are zero (`FskRoundTrip`).
- A stop whose adapter call fails leaves the engine in Stopping for good
  (`WedgedExactlyAfterFailedStop`, `FailedStopIsForever`, `StopCanFail`).
- Under static routing the ION generator writes the next hop's node number where an LTP engine
  ID is read, so a plan names a declared outduct only if the two numbers coincide
  (`PlansNameOutductsExactly`, `AcceptedYetUngrounded`).

## Model

| member | source | states |
|---|---|---|
| Kiss.EscapeHidesFend | kiss/kiss.go:41-64 | transparency: an escaped payload never contains the frame delimiter |
| Kiss.EscapeTable | kiss/kiss.go:41-64 | 0xC0 is sent as 0xDB 0xDC, 0xDB as 0xDB 0xDD, and every other byte as itself |
| Kiss.EscapeConcat | kiss/kiss.go:41-64 | a payload is escaped byte by byte |
| Kiss.UnescapeIsExactInverse | kiss/kiss.go:69-120 | on delimiter-free input the decoder yields a payload if and only if the input is that payload's escaping |
| Kiss.UnescapeFailsExactly | kiss/kiss.go:69-120 | unescaping fails exactly where, after a valid prefix, an escape byte ends the input or precedes a byte that is no escape code, and with that place's error |
| Kiss.RoundTrip | kiss/kiss.go:41-120 | decoding an encoded frame returns the payload, for every payload |
| Kiss.Encode | kiss/kiss.go:41-64 | the byte loop emits delimiter, data command, escaped payload, delimiter, and refuses exactly the empty payload |
| Kiss.EncodeWith | plugins/kiss-cla/kiss_cla_plugin.cpp:130-157 | the same wire image for the plugin's own encoder, with any command byte |
| Kiss.Decode | kiss/kiss.go:69-120 | the cursor-and-flag decoder computes the recursive unescaping of the trimmed frame, with the same error for short, empty, badly escaped and truncated input |
| Kiss.FrameErrorsExactly | kiss/kiss.go:69-120 | a frame is too short exactly below three bytes, and empty exactly when it is nothing but delimiters |
| Kiss.StripDelimiters | kiss/kiss.go:69-120 | the two cursor loops delimit exactly the frame without leading and trailing delimiters, or report that nothing is left |
| Kiss.UnescapeLoop | kiss/kiss.go:69-120 | the escape-flag loop agrees with recursive unescaping, including a follower that is no escape and a trailing escape |
| Kiss.PluginRoundTripExactly | plugins/kiss-cla/kiss_cla_plugin.cpp:130-219 | the plugin decodes what it encoded if and only if the port's low nibble is not 12, whatever the payload |
| Kiss.PortCommandMeans | plugins/kiss-cla/kiss_cla_plugin.cpp:130-157 | the port's low nibble travels in the command byte's high nibble, above a data command of zero |
| KissStream.Reader.ReadFrame | kiss/tnc.go:185-228 | one call consumes garbage, fill and one delimited run, returns that run between delimiters, and leaves the stream just past its closing delimiter; a read error on the way loses the partial frame and goes on to the bytes after the error |
| KissStream.NextFrameExactly | kiss/tnc.go:185-228 | for any stream, a call extracts a body and leaves a rest exactly when the stream is delimiter-free garbage, one or more delimiters, the delimiter-free body, a delimiter and the rest |
| KissStream.Reader.SkipToFend | kiss/tnc.go:185-195 | the first loop stops just after the first delimiter |
| KissStream.Reader.SkipFill | kiss/tnc.go:197-211 | the second loop drops exactly the inter-frame fill and returns the first data byte |
| KissStream.Reader.ReadToFend | kiss/tnc.go:217-227 | the third loop collects up to the next delimiter and no further |
| KissStream.ReceiveAll | kiss/tnc.go:136-180 | until the port closes, the receive loop hands on, in order, the decodable payloads of all frames between read errors, and reports in order each other frame's decoding error and each read error |
| KissStream.EverythingReported | kiss/tnc.go:136-180 | every frame is delivered or reported, and every read error between runs reported |
| KissStream.Resynchronises | kiss/tnc.go:185-228 | self-synchronisation: joining a stream of frames and fill at any byte yields exactly the payloads encoded wholly after that byte, in order |
| KissPlugin.KissClaPlugin.ReceiveByte | plugins/kiss-cla/kiss_cla_plugin.cpp:334-374 | one byte moves the plugin by one automaton step, keeping its counters and callbacks equal to what the closed frames imply |
| KissPlugin.KissClaPlugin.DeliverFrame | plugins/kiss-cla/kiss_cla_plugin.cpp:336-356 | a closing delimiter logs the buffered frame; a non-empty payload reaches the host, if a callback is registered, and the received counter; a bad escape the error counter |
| KissPlugin.KissClaPlugin.ReceiveLoop | plugins/kiss-cla/kiss_cla_plugin.cpp:299-378 | timeouts and port faults lose no state: the result is the automaton's run over the bytes alone |
| KissPlugin.ReadersAgreeExactly | plugins/kiss-cla/kiss_cla_plugin.cpp:334-374 | the byte automaton and the nested-loop reader extract the same frames from a stream if and only if all its frames fit the buffer |
| KissPlugin.ReceiversAgree | plugins/kiss-cla/kiss_cla_plugin.cpp:334-374 | on a stream whose frames all fit, the plugin's payloads are those of the Go receive loop without the empty ones, and the error counts agree, but for one more when the stream ends in an unclosed frame that does not fit |
| KissPlugin.PluginResynchronises | plugins/kiss-cla/kiss_cla_plugin.cpp:334-374 | joining a stream of whole frames anywhere, the plugin hands on exactly the later non-empty payloads that fit; each oversize frame costs one decode error and no neighbour |
| RxQueue.Reachable | kiss/tnc.go:136-180 | under every interleaving each decoded frame is gone, queued, in hand or pending, in order, and the queue holds at most 16 |
| RxQueue.ProducerNeverBlocks | kiss/tnc.go:168-178 | the producer can always move while frames remain, so its unconditional send never blocks |
| RxQueue.QueueIsRecentRun | kiss/tnc.go:168-178 | the channel is a contiguous run of at most 16 frames ending with the one sent last, and consumers saw a subsequence of the frames before it |
| RxQueue.UnreadKeepsNewest | kiss/tnc.go:168-178 | with nobody receiving, frames are dropped only from a full queue and the queue refills to capacity |
| RxQueue.NeedlessDropExactly | kiss/tnc.go:168-178 | the drop hits a queue with room exactly when consumers took between one and fifteen frames since the producer found it full |
| RxQueue.NeedlessDropWitness | kiss/tnc.go:168-178 | a schedule that brings this about, for any seventeen frames |
| RxQueue.JoinedStreamToConsumers | kiss/tnc.go:90-180 | from any join point, under any schedule, consumers see only payloads sent wholly after the join, in order and none twice |
| Contact.Validate | pkg/contact/types.go:155-202 | accepts exactly the plans with a positive range, windows inside it with positive rates, no overlap per node and confidences in [0,1]; an error names a real defect |
| Contact.ValidPlanMeans | pkg/contact/types.go:155-202 | in terms of instants: a plan is valid exactly when its windows have a length, a rate and a place in its range, no node has two of them at one instant, and confidences are in [0,1] |
| Contact.OneActiveWindowPerNode | pkg/contact/types.go:155-202 | on a valid plan no node has two windows active at one instant |
| Contact.ContactPlanManager.LoadPlan | pkg/contact/manager.go:28-38 | the plan is replaced if and only if it is valid |
| Contact.ContactPlanManager.GetActiveContacts | pkg/contact/manager.go:95-111 | returns the planned windows active at t, all of them, in plan order; none without a plan |
| Contact.ActiveConcat | pkg/contact/manager.go:95-111 | plan order and multiplicity are kept |
| Contact.ActiveOne | pkg/contact/types.go:58-60 | a window is active from its start up to, not including, its end |
| Contact.ContactPlanManager.GetNextContact | pkg/contact/manager.go:41-65 | returns nothing exactly when no window to the node is upcoming, otherwise the earliest, the first in plan order on ties |
| Prediction.Observe | pkg/contact/cgr.go:438-494 | one sample of one station keeps the tracked run start and extremes of its ID, and emits a pass exactly at a falling edge ending a long enough run |
| Prediction.SampleStations | pkg/contact/cgr.go:427-496 | one sample of every station appends the closings of that sample in station order, numbered on, for any station list |
| Prediction.DetectPasses | pkg/contact/cgr.go:414-500 | the time loop emits the passes of all closings before the horizon, numbered from 1 |
| Prediction.Predict | pkg/contact/cgr.go:367-504 | reports the first of bad orbit parameters, inverted times and the first bad station, otherwise returns a start-sorted permutation of the passes emitted before the horizon |
| Prediction.PredictPasses | pkg/contact/cgr.go:807-823 | the 8000 km dispatch runs the LEO or the cislunar profile, with that profile's outcome |
| Prediction.InputsRejected | pkg/contact/types.go:99-152 | the stations and orbits that are turned away, by their numbers |
| Prediction.DefaultSteps | pkg/contact/cgr.go:381-383 | a step of zero or less means 30 seconds for LEO and 60 for cislunar prediction |
| Prediction.DistinctStations | pkg/contact/cgr.go:398-410 | where IDs are not shared, the k-th observation of an ID is sample k of its one station |
| PredictionTheorems.ClosesIsLongRun | pkg/contact/cgr.go:438-494 | a closing of the edge detector is the end of a maximal visible run of at least the minimum duration, and conversely |
| PredictionTheorems.WindowsAreExactlyTheLongRuns | pkg/contact/cgr.go:398-504 | for any elevation function and any station list the output holds exactly one window per maximal visible run of an ID's observations that closes in time and is long enough, carrying the run's true maximum elevation and Doppler, and nothing else |
| PredictionTheorems.PassRunInTheSky | pkg/contact/cgr.go:398-504 | such a run in the sky's own terms: the elevation is at least the watching station's minimum throughout and below it just before and at the end, the end lies before the horizon, and the minimum duration is reached |
| PredictionTheorems.WindowInTheSky | pkg/contact/cgr.go:438-494 | its window in the same terms: the seconds of its ends, the highest elevation, the largest Doppler shift of either sign, and the confidence at its start clipped to [0,1] |
| PredictionTheorems.LongEnoughMeans | pkg/contact/cgr.go:466-468 | the minimum duration is 60 s for LEO and 300 s for cislunar orbits |
| PredictionTheorems.PassesLastLongEnough | pkg/contact/cgr.go:466-486 | so LEO windows last at least a minute and cislunar ones five, at 9600 and 500 bits per second |
| PredictionTheorems.ContactIDsAreOneToN | pkg/contact/cgr.go:412-504 | contact IDs 1..n are each used exactly once |
| PredictionTheorems.WindowIsWellFormed | pkg/contact/types.go:155-194 | every predicted window is non-empty, inside the prediction horizon, with positive rate and confidence in [0,1] |
| PredictionTheorems.WindowsDoNotClash | pkg/contact/types.go:173-185 | two predicted windows of one ID never overlap, even if stations share it |
| PredictionTheorems.ExtendedPlanValidExactly | pkg/contact/cgr.go:507-546 | adding predictions to a valid plan leaves it valid if and only if they lie in its range and clash with no window already planned |
| PredictionTheorems.FreshPlanAccepted | pkg/contact/cgr.go:507-546 | on a valid plan without contacts that covers the horizon the update always passes the validator |
| PredictionTheorems.ConfidenceNeverRises | pkg/contact/manager.go:266-284 | confidence never increases along the sorted predictions when it decays with time from the epoch |
| PredictionTheorems.UpdateContactPlanWithPredictions | pkg/contact/cgr.go:507-546 | no change without predictions or without a plan; otherwise the plan is extended even when the final validation reports an error, which it does exactly for an invalid result and never on a fresh plan that covers the horizon |
| Sorting.SortBy | pkg/contact/cgr.go:498-501 | a sort promises an ordered permutation and nothing about ties |
| Bpa.PrintCollidesExactly | pkg/bpa/types.go:62-82 | two bundle IDs print alike if and only if their numbers agree, their timestamps agree up to sign, and their endpoints, taking in the sign, are equal or nested |
| Bpa.EndpointsCollideExactly | pkg/bpa/types.go:62-64 | two endpoints print alike if and only if they are equal or one's scheme ends inside the other's, at a separator |
| Bpa.CanonicalPrintInjective | pkg/bpa/types.go:62-82 | printing is injective on IDs whose schemes hold no separator and whose timestamps are not negative |
| Bpa.CollidingPairs | pkg/bpa/types.go:62-82 | a concrete collision of each kind |
| Decimal.NaturalReadsBack | pkg/bpa/types.go:73-75 | numbers are printed in decimal without leading zeros |
| Bpa.ExpiredExactly | pkg/bpa/types.go:96-98 | a bundle is expired exactly when its lifetime has passed since its creation |
| Bpa.ValidExactly | pkg/bpa/bpa.go:111-138 | a bundle with a destination is valid exactly from its creation until its lifetime has passed, and never if that end exceeds 64 bits |
| Bpa.BundleProtocolAgent.ValidateBundle | pkg/bpa/bpa.go:111-138 | accepts exactly the bundles with a destination, positive lifetime, creation not in the future, not expired, and otherwise names the first defect in that order |
| Bpa.BundleProtocolAgent.HandlePing | pkg/bpa/bpa.go:165-195 | echoes a ping to its sender under a fresh sequence number, which is drawn even when there is no local endpoint to answer from |
| Bpa.BundleProtocolAgent.IsLocalEndpoint | pkg/bpa/bpa.go:198-208 | true exactly for the configured endpoints |
| Store.KeyedByID | pkg/store/store.go:37-63 | with separator-free schemes and non-negative timestamps the string-keyed store is a map keyed by bundle ID |
| Store.EvictionPolicy | pkg/store/store.go:217-268 | if an unexpired bundle was evicted, nothing expired is left and every survivor's priority is at least its own |
| Store.EvictionShrinks | pkg/store/store.go:217-268 | evicted bundles are distinct, were stored, and each takes one off the count |
| Store.RecoveryAccountsExactly | pkg/store/store.go:287-318 | after recovery the recorded size is the true total if and only if the bundles that fit, which sizes alone decide, have pairwise distinct keys not stored before; it is never too small |
| Store.RecoveredContents | pkg/store/store.go:287-318 | after recovery each ID holds the last bundle with it that fits, or what it held before |
| Store.DistinctNewEntriesSuffice | pkg/store/store.go:287-318 | so recovering bundles with distinct new IDs never upsets the books |
| Store.TwiceRecovered | pkg/store/store.go:287-318 | the same bundle listed twice does |
| Store.BundleStore.Store | pkg/store/store.go:37-63 | stores exactly a new ID that fits, reports which of the two fails, and keeps recorded size = sum of sizes within capacity |
| Store.TotalIsPayloads | pkg/bpa/types.go:101-104 | the bytes used are the stored payloads plus 256 for each bundle, however they are listed |
| Store.BundleStore.Retrieve | pkg/store/store.go:84-95 | finds exactly the stored bundle |
| Store.BundleStore.Delete | pkg/store/store.go:98-113 | removes exactly that bundle and its size |
| Store.BundleStore.ListByDestination | pkg/store/store.go:134-152 | lists every stored bundle for the endpoint once, and no other, by falling priority, for any map order |
| Store.BundleStore.EvictLowestPriority | pkg/store/store.go:168-193 | removes one bundle of the lowest priority present, nothing from an empty store |
| Store.BundleStore.EvictExpired | pkg/store/store.go:197-212 | removes and counts exactly the expired bundles: afterwards a bundle is stored if and only if it was and its lifetime from creation still runs |
| Store.BundleStore.EvictToFreeSpace | pkg/store/store.go:217-268 | for any map order: succeeds if and only if the store holds the requested bytes, evicts in policy order, stops at the first victim that suffices, and on failure has emptied the store |
| Store.BundleStore.RecoverFromPowerLoss | pkg/store/store.go:287-318 | restores in order whatever fits, counting the restored and the missing |
| Store.BundleStore.ValidateIntegrity | pkg/store/store.go:322-339 | succeeds exactly when the recorded size is the sum of stored sizes |
| Ledger.LedgerBalances | pkg/node/controller.go:60-262 | conservation over every history: received + initially stored = delivered + sent + stored + evicted + absorbed + unanswered pings |
| Ledger.DroppedMeans | pkg/node/controller.go:294 | what the dropped figure equals over every history |
| Ledger.HistoryRespectsCapacity | pkg/store/store.go:37-63 | no history ever takes the stored bytes over the capacity |
| Ledger.EveryStepWasAllowed | pkg/node/controller.go:60-262 | every event of a history was permitted in the store as it then was: new and fitting when stored, sent only to its destination in an active window, expired, or evicted under the policy |
| Ledger.LeavesOnlyForACause | pkg/node/controller.go:60-262 | a bundle stored at any point of a history and gone at its end was in between sent to its destination in a window active then, had expired, or was evicted under the policy |
| Ledger.StoredOnlyIfTakenIn | pkg/node/controller.go:159-262 | a stored bundle was there initially or was stored by some event of the history |
| Node.NodeController.ExecuteContactWindow | pkg/node/controller.go:97-156 | nothing changes but the missed count if the link does not open; otherwise the priority-sorted queue is offered until the link refuses a bundle, exactly the accepted prefix leaves the store, and the link is closed; the link's record holds those calls and no others |
| Node.NodeController.ProcessIncomingBundle | pkg/node/controller.go:205-262 | an invalid bundle is refused and uncounted, a local one delivered, a remote one admitted as below, and nothing else happens |
| Node.NodeController.StoreForForwarding | pkg/node/controller.go:234-259 | exact admission: a known ID is refused and a new one that fits stored, without evictions; otherwise bundles go by the eviction policy, no more than needed, and the bundle is stored exactly if the store held its size; the retry never fails; failed eviction has emptied the store |
| Node.NodeController.ReceiveIncomingBundles | pkg/node/controller.go:159-200 | one poll of the link, and the exact fate of what it hands over, by type, validity, destination and room, with all the evictions made for it; an echo is stored exactly when it is new and fits, and lost otherwise |
| Node.NodeController.RunCycle | pkg/node/controller.go:61-92 | whatever the link does: every window active at t is served once, in order, by a prefix of its priority-sorted queue that ends where the link refused; then one bundle at most is received and meets its exact fate; then exactly the expired bundles go, so that every lifetime still stored runs beyond t; all of it as one legal log and one record of the link's calls |
| Node.GoneMeans | pkg/node/controller.go:78-84 | the bundles a cycle expires are those whose lifetime from creation has passed |
| Node.EchoMeans | pkg/bpa/bpa.go:165-195 | an echo says PONG, ranks above normal and below critical, and is valid for five minutes unless the ping named no source |
| Node.NodeController.ServeWindows | pkg/node/controller.go:61-73 | the window loop goes on after a failed link, counting each window completed or missed |
| Node.NodeController.HealthCheck | pkg/node/controller.go:280-298 | uptime, a storage percentage between 0 and 100, the counts, and the dropped figure in terms of what happened to the bundles |
| IqBits.ComputeBits | pkg/iq/modulator.go:168-180 | the nested loops write bit 7-j of byte i at position 8i+j |
| IqBits.PackBits | pkg/iq/modulator.go:183-196 | the in-place loop packs eight bits a byte, most significant first, zero padded |
| IqBits.ByteFromBits | pkg/iq/modulator.go:183-196 | a packed byte weighs its bits 128 down to 1, in stream order, absent ones as zero |
| IqBits.BitsOfByte | pkg/iq/modulator.go:168-180 | and an unpacked one yields the bits of those weights |
| IqBits.PackUnpack | pkg/iq/modulator.go:168-196 | unpacking then packing is the identity on bytes |
| IqBits.UnpackPack | pkg/iq/modulator.go:168-196 | packing then unpacking returns the bits, padded with zeros to whole bytes |
| Iq.DecideLoop | pkg/iq/demodulator.go:59-78 | the windowed averaging loop decides one bit per symbol period, short last window included, by the sign of the window's sum |
| Iq.DecisionAt | pkg/iq/demodulator.go:60-78 | decision k is the sign of the sum over samples kn up to (k+1)n or the end |
| Bpsk.ModulateBPSK | pkg/iq/modulator.go:80-101 | emits each bit as one symbol period of +1 or -1 in phase |
| Bpsk.WaveformAt | pkg/iq/modulator.go:80-101 | sample by sample: -1 for a 1, +1 for a 0, nothing in quadrature |
| Bpsk.DemodulateBPSK | pkg/iq/demodulator.go:86-117 | the average of each symbol period decides its bit |
| Bpsk.BitsSurviveExactly | pkg/iq/demodulator.go:86-117 | over additive noise the sent bits are recovered if and only if no symbol's in-phase noise outweighs its signal |
| Bpsk.BytesSurviveExactly | pkg/iq/demodulator.go:86-117 | the same for bytes, through packing on both sides |
| Bpsk.SmallNoiseIsTolerated | pkg/iq/demodulator.go:86-117 | mean in-phase noise strictly inside (-1, 1) per symbol is always tolerated |
| Fsk.Wrap | pkg/iq/modulator.go:61-67 | the wrapping loops end in [-pi, pi] at an angle that differs by whole turns |
| Fsk.Modulator.ModulateFSK | pkg/iq/modulator.go:44-77 | from any starting phase the samples lie on the unit circle at wrapped phases, each one advance past the last, and the phase persists |
| Fsk.FrequencyAt | pkg/iq/modulator.go:44-57 | sample by sample: the positive deviation for a 1, the negative for a 0 |
| Fsk.PhaseAccumulates | pkg/iq/modulator.go:56-67 | each sample's phase is, up to whole turns, the starting phase plus one turn for each full cycle of the frequencies sent so far |
| Fsk.UnwrapIsExact | pkg/iq/demodulator.go:47-58 | unwrapping two read phases recovers the phase advance exactly when it is below half a turn |
| Fsk.Discriminate | pkg/iq/demodulator.go:40-58 | the phase and difference loops give, for each neighbouring pair, the frequency of an unwrapped difference |
| Fsk.DemodulateFSK | pkg/iq/demodulator.go:32-83 | bytes are packed from window decisions over the discriminated frequencies; no samples give no bytes |
| Fsk.DiscriminatorRecoversTones | pkg/iq/demodulator.go:40-58 | on a modulated waveform the discriminator returns the sent tones, all but the first sample |
| Fsk.DecisionsExactly | pkg/iq/demodulator.go:60-78 | although every window takes in a sample of the next symbol, the decisions are the sent bits if and only if a symbol has three samples or no 1 is followed by a 0 |
| Fsk.BytesDecidedExactly | pkg/iq/demodulator.go:60-82 | the same for bytes and every symbol length, with the extra condition for one sample per symbol |
| Fsk.FskRoundTrip | pkg/iq/demodulator.go:32-83 | modulate then demodulate returns the bytes, from any starting phase, exactly under that condition on symbol length and data |
| SBand.SerializeBundle | pkg/cla/sband_iq/sband_iq.go:464-487 | type, priority, eight little-endian lifetime bytes, destination length modulo 256, printed destination, payload |
| SBand.TypeByte | pkg/cla/sband_iq/sband_iq.go:464-469 | the type byte is 0, 1 or 2 for data, ping and echo, and any other code modulo 256 |
| SBand.LifetimeLayout | pkg/cla/sband_iq/sband_iq.go:471-476 | the lifetime is eight bytes, least significant first, a negative one in two's complement |
| SBand.ReadLifetime | pkg/cla/sband_iq/sband_iq.go:500-503 | the shift-and-or loop reads the eight bytes as a signed 64-bit number |
| SBand.DeserializeBundle | pkg/cla/sband_iq/sband_iq.go:490-534 | rejects exactly data too short for the header or the announced destination, otherwise parses it |
| SBand.ParsesExactly | pkg/cla/sband_iq/sband_iq.go:490-534 | what parses, and each field of it by its place in the bytes |
| SBand.LifetimeRoundTrip | pkg/cla/sband_iq/sband_iq.go:464-534 | every 64-bit signed lifetime survives the byte encoding |
| SBand.DeserializeSerialize | pkg/cla/sband_iq/sband_iq.go:464-534 | what the receiver sees of any serialised bundle, whatever its type, priority and destination length |
| SBand.TypeAndPriorityExactly | pkg/cla/sband_iq/sband_iq.go:464-534 | type and priority arrive intact if and only if the type is data, ping, echo or a code from 3 to 255, and the priority is from 0 to 255 |
| SBand.DestinationAndPayloadExactly | pkg/cla/sband_iq/sband_iq.go:464-534 | printed destination and payload arrive intact if and only if the printed destination has at most 255 bytes |
| SBand.DestinationNeverSurvives | pkg/cla/sband_iq/sband_iq.go:464-534 | the destination endpoint itself never arrives: its scheme ends up inside the new one's specific part |
| SBand.ExtractedExactly | pkg/cla/sband_iq/sband_iq.go:431-461 | unwrapping undoes wrapping for every payload, and yields a payload exactly when it follows a header's worth of bytes, whatever they are |
| SBand.HeaderReads | pkg/cla/sband_iq/sband_iq.go:431-447 | the header reads AX25, a colon, the call sign and a closing bracket |
| SBand.SBandIQCLA.Open | pkg/cla/sband_iq/sband_iq.go:188-227 | opens a closed link if the radio opens and streams, closes the radio again if it only opens, and otherwise changes nothing |
| SBand.SBandIQCLA.Close | pkg/cla/sband_iq/sband_iq.go:230-258 | closes an open link if the radio stops and closes, leaves it open otherwise, and is idempotent |
| SBand.SBandIQCLA.SendBundle | pkg/cla/sband_iq/sband_iq.go:261-330 | refused on a closed link; otherwise the radio is given the waveform of the wrapped serialised bundle, once, and result, status and byte count follow its answer |
| SBand.SBandIQCLA.RecvBundle | pkg/cla/sband_iq/sband_iq.go:333-386 | refused on a closed link; otherwise what the radio hands over is demodulated, unwrapped and parsed, with the error and status of the step that fails |
| SBand.BundleSurvivesNoise | pkg/cla/sband_iq/sband_iq.go:431-534 | end to end: with mean in-phase noise inside (-1, 1) per symbol the receiver gets exactly what the codec carries of every bundle: the lifetime; data, ping, echo and each code from 3 to 255 as itself; a priority from 0 to 255; payload and printed destination of up to 255 bytes |
| SBandNode.SBandLink.Open | pkg/cla/sband_iq/sband_iq.go:188-227 | behind the node's link interface the adapter's answers always form a run of the open-or-closed link |
| SBandNode.WindowRun | pkg/node/controller.go:97-156 | over this adapter a window comes up only on a closed link and leaves it closed unless its Close fails |
| SBandNode.ReceptionExactly | pkg/node/controller.go:61-92 | a cycle can receive something if and only if the link was open before it or a Close in it failed |
| SBandNode.ReceptionCanHappen | pkg/node/controller.go:61-92 | a cycle that does |
| SBandNode.NeverReceives | pkg/node/controller.go:61-92 | over any number of cycles from a closed link without a failing Close nothing is ever received |
| SBandNode.NoSendingAfterReception | pkg/node/controller.go:61-92 | once anything has been received, no window of any later cycle comes up |
| SBandNode.ArrivalsShareOneKey | pkg/cla/sband_iq/sband_iq.go:490-534 | all bundles that arrive have one identity, ipn://0.0-0-0 |
| SBandNode.SecondArrivalRefused | pkg/store/store.go:37-63 | so a store that holds one arrival refuses every other |
| SBandNode.ArrivalValidExactly | pkg/bpa/bpa.go:111-138 | an arrival is valid if and only if the clock is within its lifetime of time zero and its printed destination's length is no multiple of 256 |
| SBandNode.ArrivalNeverForwarded | pkg/node/controller.go:97-156 | an arrival is in no window's queue |
| RateLimiter.PruningIsInvisible | pkg/security/ratelimit.go:29-53 | on every run of a clock that never goes back, the pruned list decides every call as the full acceptance history would |
| RateLimiter.NoWindowOverflows | pkg/security/ratelimit.go:29-53 | no interval (t - window, t] holds more acceptances than the limit |
| RateLimiter.AfterIsWithin | pkg/security/ratelimit.go:29-53 | what pruning keeps is the acceptances of the last second |
| RateLimiter.Limiter.Allow | pkg/security/ratelimit.go:29-53 | accepts exactly when the full history has fewer than the limit within the last second, and then records the instant |
| RateLimiter.Limiter.GetCurrentRate | pkg/security/ratelimit.go:56-71 | reports the full history's count in the window |
| RateLimiter.Limiter.Reset | pkg/security/ratelimit.go:74-79 | forgets the whole history |
| Lifecycle.StateMachine.TransitionTo | radiant-dtn-abstraction/src/lifecycle/state.rs:69-97 | moves exactly along legal transitions other than into Failed, dropping the failure reason; otherwise changes nothing |
| Lifecycle.StateMachine.TransitionToFailed | radiant-dtn-abstraction/src/lifecycle/state.rs:102-117 | enters Failed with the reason exactly from states that allow it |
| Lifecycle.MovesExactly | radiant-dtn-abstraction/src/lifecycle/state.rs:120-141 | the moves there are: a start from rest or failure, its success, a stop of a running engine, and rest after a stop or as a failure's acknowledgement; a refused move changes nothing |
| Lifecycle.FailsExactly | radiant-dtn-abstraction/src/lifecycle/state.rs:102-117 | an engine fails exactly while it starts or runs, and remembers why |
| Lifecycle.Reachable | radiant-dtn-abstraction/src/api/handlers.rs:187-270 | in every interleaving of any number of handlers a reason is recorded exactly while Failed, and the state tells who is between transitions |
| Lifecycle.MutualExclusion | radiant-dtn-abstraction/src/api/handlers.rs:187-270 | at most one start or stop handler is between its two transitions |
| Lifecycle.OpensExactly | radiant-dtn-abstraction/src/api/handlers.rs:187-250 | in every interleaving a waiting handler gets the engine exactly when it starts a stopped or failed one or stops a running one |
| Lifecycle.RequestOutcome | radiant-dtn-abstraction/src/api/handlers.rs:187-270 | a start takes a stopped or failed engine to Running or Failed, a stop a running one to Stopped or leaves it in Stopping, as the adapter answers |
| Lifecycle.FailedStartCanBeRetried | radiant-dtn-abstraction/src/api/handlers.rs:187-228 | after a start that fails a second one can bring the engine up |
| Lifecycle.DiscardedTransitionSucceeds | radiant-dtn-abstraction/src/api/handlers.rs:187-270 | the closing transition whose result is thrown away always succeeds, with the state the adapter's answer calls for |
| Lifecycle.WedgedExactlyAfterFailedStop | radiant-dtn-abstraction/src/api/handlers.rs:231-270 | the engine is in Stopping with no handler to finish it if and only if some stop has failed |
| Lifecycle.FailedStopIsForever | radiant-dtn-abstraction/src/api/handlers.rs:187-270 | after a failed stop no sequence of starts and stops leaves Stopping |
| Lifecycle.StopCanFail | radiant-dtn-abstraction/src/api/handlers.rs:231-270 | a schedule that reaches a failed stop, and so the wedged state |
| HardyServices.FreshKey | radiant-dtn-abstraction/src/adapter/hardy/config_gen.rs:323-337 | the collision loop terminates, and yields the first unused name of base, base-number, base-number-2, ... |
| HardyServices.WriteBuiltInServices | radiant-dtn-abstraction/src/adapter/hardy/config_gen.rs:304-345 | keys are pairwise distinct, each the first free one for its description; so are numbers; after echo come exactly the first occurrences of the configured numbers other than 7, in order |
| HardyServices.KeptNumbers | radiant-dtn-abstraction/src/adapter/hardy/config_gen.rs:315-320 | exactly the distinct configured numbers other than 7 are kept, each once |
| HardyServices.FirstOccurrenceWins | radiant-dtn-abstraction/src/adapter/hardy/config_gen.rs:316-320 | of several services with one number the first is the one kept |
| HardyServices.KeptInOrder | radiant-dtn-abstraction/src/adapter/hardy/config_gen.rs:315-342 | the first occurrences keep their order |
| HardyServices.DashesForSpaces | radiant-dtn-abstraction/src/adapter/hardy/config_gen.rs:324 | base names have dashes for spaces and are otherwise unchanged |
| NetworkConfig.Validate | radiant-dtn-abstraction/src/validation/mod.rs:19-52 | fail-slow validation reports exactly the violations there are, each once, check by check and place by place |
| NetworkConfig.ViolationsMean | radiant-dtn-abstraction/src/validation/mod.rs:68-216 | what each violation says, place by place |
| NetworkConfig.AcceptedExactly | radiant-dtn-abstraction/src/validation/mod.rs:19-52 | a configuration is accepted exactly when node numbers are distinct, contacts and ranges join defined nodes, contacts begin before they end, and static routes lead through defined nodes |
| NetworkConfig.CheckDuplicateNeighbors | radiant-dtn-abstraction/src/validation/mod.rs:85-102 | reports exactly the neighbours that repeat an earlier number |
| NetworkConfig.CheckContactReferences | radiant-dtn-abstraction/src/validation/mod.rs:105-132 | reports exactly the contact ends that are not defined nodes |
| NetworkConfig.CheckRouteReferences | radiant-dtn-abstraction/src/validation/mod.rs:185-216 | reports exactly the undefined ends of static routes, and only under static routing |
| IonConfig.GenerateBprc | radiant-dtn-abstraction/src/adapter/ion/config_gen.rs:177-322 | scheme, admin, service and callsign endpoints, the protocols in use, the ducts of every link in neighbour and link order, then the start |
| IonConfig.CollectProtocols | radiant-dtn-abstraction/src/adapter/ion/config_gen.rs:244-271 | declares exactly the protocols some link uses, KISS counting as LTP |
| IonConfig.GenerateLtprc | radiant-dtn-abstraction/src/adapter/ion/config_gen.rs:330-436 | the loopback span to the port the node listens on, then one span per LTP-carrying link in order with its link service |
| IonConfig.SpansExactly | radiant-dtn-abstraction/src/adapter/ion/config_gen.rs:330-436 | the spans, by peer engine, limits, segment size and link service, are those of the LTP-carrying links and the loopback |
| IonConfig.FindLocalLtpPort | radiant-dtn-abstraction/src/adapter/ion/config_gen.rs:375-386 | the nested search finds the first LTP/UDP link's local port, 1113 if there is none |
| IonConfig.PortExactly | radiant-dtn-abstraction/src/adapter/ion/config_gen.rs:375-386 | the port is the first LTP/UDP link's local one, 1113 without any |
| IonConfig.GenerateIpnrc | radiant-dtn-abstraction/src/adapter/ion/config_gen.rs:444-518 | static route plans only under static routing, then one plan per linked neighbour through its first link |
| IonConfig.PlansExactly | radiant-dtn-abstraction/src/adapter/ion/config_gen.rs:444-518 | the plans are one per linked neighbour to the remote end of its first link, and under static routing one per route to the engine numbered like its next hop |
| IonConfig.WriteContactCommands | radiant-dtn-abstraction/src/adapter/ion/config_gen.rs:112-132 | the self-contact, then every planned contact |
| IonConfig.ContactsExactly | radiant-dtn-abstraction/src/adapter/ion/config_gen.rs:112-132 | the contacts, by times, nodes and rate, are the planned ones and the loopback of a day |
| IonConfig.ProtocolsDeclaredFirst | radiant-dtn-abstraction/src/adapter/ion/config_gen.rs:177-322 | every induct and outduct comes after the declaration of its protocol in the same file |
| IonConfig.OutductsAreLinks | radiant-dtn-abstraction/src/adapter/ion/config_gen.rs:274-322 | the declared outducts are exactly the duct expressions of the configured links |
| IonConfig.DuctsExactly | radiant-dtn-abstraction/src/adapter/ion/config_gen.rs:274-322 | the node listens exactly at its links' local ends, its own engine for LTP, and sends exactly to their remote ends |
| IonConfig.DuctsOfEachLink | radiant-dtn-abstraction/src/adapter/ion/config_gen.rs:274-322 | link by link, an induct at its local end and at once an outduct to its remote end |
| IonConfig.DeclarationsExactly | radiant-dtn-abstraction/src/adapter/ion/config_gen.rs:177-271 | a protocol is declared exactly if a link needs it, and the endpoints are those of the admin service, the services and the call sign |
| IonConfig.ProtocolsInOrder | radiant-dtn-abstraction/src/adapter/ion/config_gen.rs:244-271 | protocols are declared once each, LTP before TCP before UDP |
| IonConfig.LtpOutductsHaveSpans | radiant-dtn-abstraction/src/adapter/ion/config_gen.rs:330-436 | every LTP outduct has a span with the same engine ID in the other file |
| IonConfig.PlansNameOutductsExactly | radiant-dtn-abstraction/src/adapter/ion/config_gen.rs:444-518 | every plan names a declared outduct if and only if routing is not static or every next hop is the engine ID of an LTP link |
| IonConfig.AcceptedYetUngrounded | radiant-dtn-abstraction/src/adapter/ion/config_gen.rs:444-518 | a configuration that passes validation and yields a plan for an outduct that does not exist |
| IonConfig.PlansPerNode | radiant-dtn-abstraction/src/adapter/ion/config_gen.rs:444-499 | for an accepted configuration a node has one plan if it is a linked neighbour, plus its static routes |
| IonConfig.ContactsNameDefinedNodes | radiant-dtn-abstraction/src/adapter/ion/config_gen.rs:112-132 | for an accepted configuration every generated contact names defined nodes |

## Left out

- Serial ports, termios, goroutine and thread start-up, HTTP, gRPC, CLI and file loading: an arbitrary environment stands in for them.
- KissStream.ReceiveAll: which reports the bounded error channel keeps when nobody reads it is not modelled.
- KissStream.Resynchronises: streams with non-delimiter bytes between whole frames are not covered; a join in mid-frame is.
- KissPlugin.KissClaPlugin.ReceiveLoop: port reopening appears only as a fault that yields no byte.
- RxQueue.ProducerNeverBlocks: closing the TNC, receive timeouts and the error channel are not modelled.
- Prediction.Predict: orbit propagation, elevation, Doppler and the shape of the confidence decay are parameters; instants are unbounded, so the saturation of very long durations is absent; light-time delay is never emitted by the code.
- Contact.ContactPlanManager.LoadPlan: plans are values, so a caller that later changes the plan it handed over is not modelled; neither is UpdatePlan, which edits before validating.
- Store.KeyedByID: the store is keyed by the printed ID, which takes SHA-256 to be collision-free; the 64-bit overflow of the recorded size is not modelled, that of the expiry sum is.
- HandleCorruption and ListByPriority repeat Delete and ListByDestination; the flush to non-volatile memory does nothing in the code.
- Node.NodeController.RunCycle: byte and latency statistics of reception are left out; the lookup of the next contact in processIncomingBundle has no effect in the code.
- Node.NodeController.ExecuteContactWindow: the window is taken to be active, as the cycle only passes active ones; the check against its end inside the loop is kept but then never fires, since the code does not advance the time.
- Node.NodeController.StoreForForwarding: the error branch after a successful eviction is proved to be dead and therefore absent.
- Iq.DecideLoop: samples and phases are reals with the needed trigonometric facts as parameters, so floating-point rounding is absent; signal-strength metrics are placeholders in the code.
- Fsk.FskRoundTrip: the Gaussian-filtered modulator is not covered, nor deviations of half the sample rate and above.
- Fsk.Modulator.ModulateFSK: the path without the filter only.
- SBand.SBandIQCLA.SendBundle: LTP session bookkeeping, signal metrics and the FSK variant of the link are not modelled; a Go string is a sequence of bytes.
- RateLimiter.Limiter.Allow: the clock is required never to run back, which Go's monotonic reading provides; the node controller never consults the limiter.
- Lifecycle.FailedStopIsForever: a handler dropped in mid-request is not modelled, nor is restart, which never touches the state machine.
- HardyServices.FreshKey: the counter is unbounded where the code's has 32 bits; lower-casing is an arbitrary function.
- IonConfig.WriteContactCommands: commands are structured values rather than text; of the .ionrc file only the contacts are modelled, not ranges and rates.
- The other sections of the Hardy configuration, LTP session handling, the other radios' convergence layers, non-volatile memory, telemetry and the HDTN clients are not part of this model.
