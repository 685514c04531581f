# Verified model of the desktop client's audio, connection and packaging core

The project models the parts of the repository that keep state between calls or race with their
environment, and proves what they keep.

* **Audio resampling** (`LinearSpec`, `AudioResampler`, `FixedFrames`). The streaming linear
  resampler keeps at most one source frame and a rational position. `LinearSpec` is the simple form,
  which interpolates a whole stream at once; the class is proved to emit exactly that, however the
  stream is cut into calls, and the packetizer to lose and reorder nothing.
* **Transport race** (`TransportRace`, `OuterRace`). The environment is a trace of events in the
  order in which the race observes them, so a statement about every trace is one about every
  interleaving. The loop is proved against a choice rule stated over the trace alone.
* **Connection round** (`ConnectionRound`). `_start`, `_start_inner` and `connect` with every outcome
  of the environment a free choice and a cancellation possible at every suspension. Dropping the
  variables is one step after the body, as the language does it.
* **ICE queues** (`IceQueues`), **playback buffer** (`PlaybackBuffer`), **echo reference**
  (`EchoReference`), **stored password** (`LoginPassword`), **clipboard** (`ClipboardSync`).
* **File names that carry settings** (`Base64Url`, `Text`, `CustomServers`) and the **chunked
  scanners of the packaging script** (`BinaryScan`).

`Prelude`, `Interleaved` and `RustVec` hold what these share: option types, division facts, the
frames of interleaved audio, and a vector with its reserved capacity.

## What was found

* A relayed WebRTC connection that the preferred round of `_start` has made is held by the outer race.
  When the fallback round then succeeds inside the window, or `_start` is cancelled meanwhile, the
  held result is only dropped: its peer connection is neither returned nor closed by this code.
  `OuterRace.LostIff` shows over every trace that these are the only ways, `OuterRace.LostBothWays`
  that both happen, and `ConnectionRound.Start` that the peer connection is settled in all other cases.
* The GLIBC scan carries 16 bytes over. It is exact if and only if the highest minor is 0 or some
  match of that minor ends inside the scan's view of it (`BinaryScan.ScanIsHighestIff`), which runs of
  up to nine digits always do; a ten-digit run in the wrong place is cut (`BinaryScan.LongRunIsCut`).
* The memory reserved for a packet is not enough for every packet-sized call at every pair of rates.
  `FixedFrames.SufficientIff` gives the exact condition, over the counts of pending frames that runs
  reach; downsampling and packets that map to whole source frames meet it, fourfold upsampling
  into two-frame packets does not.
* The comment over the shrink pass says that nothing is dropped below 600 ms of buffered data. The
  code compares the most frequent level, not the present one, with 600 ms. A pass can break the promise
  exactly when the fullest bin is at 600 ms or above, nothing was seen below 200 ms, and either
  something was seen below 300 ms or the fullest bin is below 800 ms (`PlaybackBuffer.PromiseKeptIff`,
  which also has what rounding adds at odd rates); `PlaybackBuffer.DropsAt400ms` is such a run.
* A pass drops at most two thirds of the lowest level it has seen, unless a level was counted when a
  second had fewer samples: `resize` keeps the histogram. Any rise by four samples a second or more is
  enough (`PlaybackBuffer.DropsTooMuch`), so for rates divisible by four the guard is exact
  (`PlaybackBuffer.BoundHoldsIff`).
* A shared password can be stored in three ways: after a login by switching sides, which forgets the
  source but not the password; after a hash with another salt; and when the peer's information comes
  before the first hash of a session. `LoginPassword.OwnThroughoutIff` gives the exact condition over
  runs and `LoginPassword.SharedIsNeverStored` the runs in which it cannot happen. A run copies
  a shared password to the personal address book if and only if it stores one
  (`LoginPassword.SyncedThroughoutIff`). A refused password also leaves its source behind, which is
  harmless.
* Two peers can end with different clipboards and nothing left to deliver. When a run with
  at least one copy can go no further, one side holds a copy of its own and the other exactly what is read from it, if and only
  if the one was last written by a copy with something to send and the other by a message
  (`ClipboardSync.AgreeIff`). Where every copy has something to send, the only other end is that both
  were last written by messages, and then each holds what was copied on the other side
  (`ClipboardSync.AgreeOrExchanged`). Two copies made before either message arrives can end in either
  way (`ClipboardSync.CopiesCanCross`, `ClipboardSync.CopiesCanAgree`).

## Assumptions

* Samples are reals: rounding of 32-bit floats is not modelled. `usize` is 64 bits wide in the
  capacity checks, where its overflow is an error of the code; other counters are unbounded.
* The JSON reader is a function that undoes the printer, which is written out, and that takes no
  document starting with a byte above 127; a message shorter than a signature does not verify
  (`CustomServers.SoundLibraryExists`: there are such a reader and such a check). The decompressor
  undoes the compressor. The password digest is never empty.
* `select_ok` reports a failure only when it was the last of its attempts. Time is what the
  environment says at each event, and never runs backwards where the code relies on it.
* `ringbuf`'s overwriting push keeps the newest `capacity` samples, as the comment over `append_pcm2`
  says. The process-wide time of the last shrink pass is an object that several buffers may share.
  The consumer runs between the calls modelled here; inside `try_shrink` it can only run before the
  lock is taken, which is the same as before the call.
* `force_relay` is one value for a whole round. A round runs only while the race around it polls it,
  so the race observes a preferred round that ends.

## Model

| member | source | states |
|---|---|---|
| LinearSpec.ClosedForm | src/audio_resampler.rs:193-209 | F source frames give 0 or floor((F-1)*out/in)+1 frames, and frame k is the weighted mix of source frames floor(k*in/out) and its successor |
| LinearSpec.AvailableBelowCount | src/audio_resampler.rs:193-200 | the availability test of the code admits exactly the frames below the closed-form count |
| LinearSpec.StaysBetweenSources | src/audio_resampler.rs:201-207 | every output sample lies between the two source samples it comes from |
| LinearSpec.EqualRatesAreIdentity | src/audio_resampler.rs:193-209 | equal rates copy the stream |
| LinearSpec.ResampleExtends | src/audio_resampler.rs:165-179 | more input only appends to the output; what was emitted never changes |
| LinearSpec.WindowInterpolates | src/audio_resampler.rs:211-218 | reading from a retained window at a shifted position gives the same frame as reading the whole stream |
| AudioResampler.StreamingLinearResampler.ProcessInto | src/audio_resampler.rs:165-179 | answers whole frames whose two products fit 64 bits and nothing else; errors leave everything unchanged; a success appends exactly what resampling the whole source gains, within the reserved capacity |
| AudioResampler.AnsweredIff | src/audio_resampler.rs:181-191 | the capacity check passes if and only if frames times output rate, and the scaled frames plus two times channels, are below 2^64, and then the capacity is the second product |
| AudioResampler.UsualInputIsAnswered | src/audio_resampler.rs:181-191 | up to 2^31 samples are never refused at 32-bit rates and 16-bit channel counts |
| AudioResampler.StreamingLinearResampler.EmitFrames | src/audio_resampler.rs:174-176 | the loop emits the missing frames of the whole stream, and inside it the position never exceeds (buffered-1)*out+in |
| AudioResampler.StreamingLinearResampler.WriteNextFrame | src/audio_resampler.rs:193-209 | writes the frame the simple form has at this position, or nothing when a source frame is missing |
| AudioResampler.StreamingLinearResampler.DiscardConsumedFrames | src/audio_resampler.rs:211-218 | drops the passed frames and moves the position back by as many, so that the absolute position stands still |
| AudioResampler.SameStreamSameState | src/audio_resampler.rs:146-152 | two resamplers fed the same stream, however cut, hold the same samples and position; at most one frame is held and the position is below max(in, out) |
| AudioResampler.RetainedBound | src/audio_resampler.rs:211-218 | at most one frame is retained and the position stays below the larger rate |
| AudioResampler.PositionInWindow | src/audio_resampler.rs:174-176 | the bound on the position at every turn of the loop |
| AudioResampler.DiscardReachesConsumed | src/audio_resampler.rs:211-218 | whatever was retained before, discarding lands on the state that depends on the total fed only |
| AudioResampler.FramesPerCall | src/audio_resampler.rs:181-191 | a call emits at most one frame more than its own input scales to |
| AudioResampler.AppendedFits | src/audio_resampler.rs:181-191 | what a call appends fits `output_capacity` |
| AudioResampler.ProcessChunks | src/audio_resampler.rs:118-122 | any number of calls together emit the resampling of the concatenated input |
| AudioResampler.CutTwoWays | src/audio_resampler/tests.rs:66-95 | two ways of cutting a stream give the same samples |
| FixedFrames.PlanIff | src/audio_resampler.rs:49-75 | exactly when the sizes of `new` fit 64 bits, what they are, and which error comes first otherwise |
| FixedFrames.UsualPacketsAreBuilt | src/audio_resampler.rs:49-75 | up to 32768 frames a packet are never refused at 32-bit rates and 16-bit channel counts |
| FixedFrames.PlanSizes | src/audio_resampler.rs:49-75 | the checked sizes of `new`, when they do not overflow, in frames |
| FixedFrames.FixedFrameAudioResampler.New | src/audio_resampler.rs:49-75 | builds a packetizer with nothing delivered if and only if every product fits 64 bits, and otherwise gives the first error in order |
| FixedFrames.FixedFrameAudioResampler.ProcessWith | src/audio_resampler.rs:77-91 | everything delivered followed by what is pending is always the resampling of everything fed; packets are full; how far the pending vector grows, from the source frames fed so far; packet-sized calls never grow the input vector, nor the pending one when the reservation is sufficient; errors change nothing |
| FixedFrames.FixedFrameAudioResampler.CutPackets | src/audio_resampler.rs:84-89 | takes every complete packet off the front, in order, and leaves less than one |
| FixedFrames.SteadyWhen | src/audio_resampler.rs:60-67 | downsampling, and packets that map to whole source frames, scale a packet's input to at most a packet and a frame |
| FixedFrames.SteadySuffices | src/audio_resampler.rs:60-67 | for such rates no packet-sized call of any run asks for more than was reserved |
| FixedFrames.SufficientIff | src/audio_resampler.rs:60-67 | no packet-sized call of any run asks for more than was reserved if and only if the remainder of the frames emitted and the scaled packet input stay within two packets, for every count of source frames up to packet times input rate |
| FixedFrames.OutgrowingRun | src/audio_resampler.rs:77-91 | and where that fails, a run of packet-sized calls from a new packetizer makes the vector grow |
| FixedFrames.PendingIsRemainder | src/audio_resampler.rs:82-89 | what is pending is the remainder of everything emitted by the packet size |
| FixedFrames.UnsteadyCanSuffice | src/audio_resampler.rs:60-67 | from 2 to 15 in five-frame packets the reservation suffices although the rates are not steady |
| FixedFrames.UnsteadyRatesOutgrow | src/audio_resampler.rs:60-67 | fourfold upsampling into two-frame packets asks for more than was reserved on the second source frame |
| FixedFrames.RequestInSamples | src/audio_resampler.rs:181-191 | in samples: pending samples and `output_capacity` together are the request counted in frames |
| FixedFrames.InputFits | src/audio_resampler.rs:133-143 | in samples: a retained frame and a packet-sized input fit the input vector |
| TransportRace.Race | src/client.rs:222-330 | over every trace the race ends at the first deciding event with that event's verdict, and otherwise still waits |
| TransportRace.RaceLoop.OnWebRtc | src/client.rs:238-277 | keeps the loop invariant or ends by the rule; the error without a fallback error is unreachable |
| TransportRace.RaceLoop.OnOther | src/client.rs:278-321 | keeps the loop invariant or ends by the rule; a lone fallback error is unreachable |
| TransportRace.RaceLoop.OnWindow | src/client.rs:322-327 | an elapsed window always has a relay to commit, and it is the first one, measured from its own arrival |
| TransportRace.ErrorIffAllFailed | src/client.rs:262-275 | the race fails if and only if every attempt resolved and none succeeded |
| TransportRace.RelayOnlyAsLastResort | src/client.rs:216-221 | a relay is returned only if no direct connection was observed, and only after the first relay's window or when nothing is left |
| TransportRace.OutcomeIsUnique | src/client.rs:222-330 | a trace has one end and one outcome |
| TransportRace.AllResolvedEnds | src/client.rs:236-329 | a race whose attempts have all resolved has ended |
| TransportRace.RaceProgresses | src/client.rs:236-329 | every resolution leaves strictly fewer attempts, polls leave them alone, and a race that goes on has one left |
| OuterRace.LostIff | src/client.rs:576-584 | over every trace and every end, a cancellation included, the preferred round's WebRTC connection is lost if and only if it was relayed and the fallback succeeded, or the race was cancelled, while it was held |
| OuterRace.LostBothWays | src/client.rs:576-584 | a trace for each of the two ways |
| ConnectionRound.Network.Authenticate | src/client.rs:1573-1574 | every check of a peer's identity goes on record with the transport checked and the result |
| ConnectionRound.Network.FreshRelay | src/client.rs:1576-1617 | the relay after a WebRTC connection that failed to authenticate is opened and then authenticated itself |
| ConnectionRound.StartInner | src/client.rs:787-1386 | on every exit the peer connection is the returned open WebRTC transport or was closed exactly once, and the bridge was ended; a connection is returned if and only if the connection made last was authenticated last and nothing was cancelled after; a failure is explained by what was heard or by the record of the connection; no race offers both TCP punching and WebRTC; results are consistent when forced relay has no UDP or IPv6 socket |
| ConnectionRound.Connect | src/client.rs:1389-1642 | the same for `connect`: authenticated results only and all of them, relays opened only when a race failed, relay is forced, or WebRTC failed to authenticate, and a failure only for want of a relay server or after an error; under forced relay only a relay or WebRTC is returned; a WebRTC result is direct if and only if no answer said or left open that it is relayed |
| ConnectionRound.Start | src/client.rs:409-590 | a connection comes from a round that authenticated it, unless the peer was given by address; results are consistent in every setting; without a race the peer connection is settled on every exit; with one, it is settled if and only if no relayed WebRTC connection was held when the fallback succeeded or the whole was cancelled, and the result is the one the race rule gives |
| ConnectionRound.SettledIff | src/client.rs:576-584 | the same for any two rounds and any race over what they returned |
| ConnectionRound.UnsettledBothWays | src/client.rs:576-584 | rounds and a race for each of the two ways, after which the peer connection is open and not returned |
| ConnectionRound.ConnectFrame.Body | src/client.rs:1420-1641 | exactly one armed guard or one close at every suspension and every exit, and the laws on authentication, relays and failures over its record |
| ConnectionRound.ConnectFrame.Secure | src/client.rs:1573-1641 | the kept connection is authenticated, or a failed WebRTC one is replaced by a relay when a relay server is known |
| ConnectionRound.ConnectFrame.RaceDirect | src/client.rs:1458-1534 | the race is over exactly the transports that were offered, and the bridge ends with it |
| ConnectionRound.RoundFrame.SetUpAnswer | src/client.rs:1069-1110 | adoption disarms one guard with no suspension before the next is armed; an answer is refused only after an error, and then closes the peer connection |
| ConnectionRound.RoundFrame.OnRelayOffer | src/client.rs:1043-1258 | the relay branch keeps the guard discipline through the race, authentication and the fallback relay; it returns what was authenticated, fails only after an error that it could not fall back from, and races WebRTC unless applying the answer failed |
| ConnectionRound.RoundFrame.OnPunched | src/client.rs:1290-1385 | the adopted peer connection is handed to `connect` or closed when there is no port; with a port the round fails only as `connect` does |
| ConnectionRound.RoundFrame.Body | src/client.rs:811-1289 | the punch loop acts on the first decisive reply and on nothing else; without one it gives up after an error, three timeouts, or the end of the replies; a request with an offer leads to no TCP punch |
| ConnectionRound.Listen | src/client.rs:969-1287 | listening after a request stops at the first decisive reply, at a timeout, or at the end |
| IceQueues.PunchBuffer.Receive | src/client.rs:1259-1275 | a candidate with the session's key is appended and the oldest of 64 evicted, any other is ignored; so the buffer is always the newest 64 of the session, in arrival order |
| IceQueues.IceBridge.DrainLocal | src/client.rs:692-725 | candidates are sent and queued in order with the time of their sending, and a failed send stops there |
| IceQueues.IceBridge.SendFirst | src/client.rs:692-725 | what goes over the wire for the first time is queued with the time after that |
| IceQueues.IceBridge.ResendDue | src/client.rs:727-747 | a pass sends everything again that was due when it began and nothing twice, and ends; between the recorded times of its two copies a candidate waits at least 400 ms |
| IceQueues.IceBridge.Run | src/client.rs:684-783 | over any turns, what went over the wire with what still waits is everything sent first, twice, except one candidate in hand when a send fails; and what was sent first is what was gathered, in order, from the front |
| IceQueues.SwapRemoveContents | src/client.rs:732 | removing by swapping loses nothing but the element removed |
| PlaybackBuffer.AudioBuffer.AppendPcm | src/client.rs:2303-2306 | the level after every append is counted and a due pass runs; the generation moves if and only if samples were lost, by overwriting or shrinking, and while it stands still nothing is lost |
| PlaybackBuffer.AudioBuffer.AppendPcm2 | src/client.rs:2282-2298 | keeps the newest `capacity` samples; for whole-frame input every overwrite is a whole number of frames |
| PlaybackBuffer.AudioBuffer.TryShrink | src/client.rs:2208-2270 | counts the level; a due pass drops at most two thirds of the lowest level seen since the last pass plus one sample unless some level was taken at a lower rate, drops what the two bins say, and clears the histogram |
| PlaybackBuffer.AudioBuffer.ShrinkPass | src/client.rs:2231-2269 | the amount dropped, from the first non-empty bin and the first fullest bin; even, so one or two channels stay aligned; not from less than 600 ms for the bins that keep the promise |
| PlaybackBuffer.AudioBuffer.ScanBins | src/client.rs:2231-2253 | the pass that clears the histogram while scanning it still finds the leading empty bins and the first maximum above bin 0, and leaves all zero |
| PlaybackBuffer.AudioBuffer.Resize | src/client.rs:2198-2206 | capacity stays three seconds of samples; another size starts empty, the same size keeps everything |
| PlaybackBuffer.AudioBuffer.ReadBuffer | src/client/audio_playback.rs:121-124 | takes the largest whole number of frames that is asked for and there |
| PlaybackBuffer.BufferIsSuffix | src/client.rs:2279-2281 | the buffer is a suffix of everything appended, and with what was read since the generation moved still a suffix |
| PlaybackBuffer.SkipIsSafe | src/client.rs:2247-2263 | the arithmetic of the two-thirds bound, for a level taken at the present rate or a higher one |
| PlaybackBuffer.AmountIs | src/client.rs:2247-2264 | from below and above: a pass drops a fortieth of a second for each step of the smaller of the fullest bin and four times two thirds of the empty ones, to an even count, exactly when more than three times as much is buffered |
| PlaybackBuffer.ConstantLagIsReduced | src/client.rs:2231-2264 | a lag that stayed in one bin at or above 600 ms loses a quarter of itself, however often it was counted |
| PlaybackBuffer.ConstantLag | src/client.rs:2208-2270 | a run for every rate, every such lag and any number of readings |
| PlaybackBuffer.PromiseKeptIff | src/client.rs:2249-2263 | for which bins no level below 600 ms would be dropped from: both directions, for every rate |
| PlaybackBuffer.DropsAt400ms | src/client.rs:2249-2264 | a run at 48 kHz and two channels in which a pass drops 100 ms while 400 ms are buffered |
| PlaybackBuffer.DropsTooMuch | src/client.rs:2198-2206 | for any two rates of which the later is higher by 4 or more, a run through `resize` in which a pass drops more than two thirds of a level it has counted |
| PlaybackBuffer.BoundHoldsIff | src/client.rs:2208-2264 | whatever levels were counted at two rates divisible by four, a pass stays within the two-thirds bound if and only if the other rate is not lower than the present one |
| EchoReference.Playback.PushPlayback | src/echo_cancel.rs:38-64 | the queue is the newest 20 chunks of the mono samples not yet taken; a change of rate starts over |
| EchoReference.Playback.TakeChunks | src/echo_cancel.rs:139-145 | takes every whole chunk in order and leaves less than one |
| EchoReference.Playback.FeedPlayback | src/echo_cancel.rs:134-162 | offers the chunks in order up to and including the first that the processor refuses |
| EchoReference.Playback.Clear | src/echo_cancel.rs:91-93 | a new canceller starts from an empty queue, whatever an earlier call left in it |
| EchoReference.MixDown | src/echo_cancel.rs:52-58 | the mean of each complete frame |
| EchoReference.MonoIsMean | src/echo_cancel.rs:52-58 | a mono sample times the channels is the sum of its frame |
| BinaryScan.CarriesMarker | build.py:773-785 | a reported marker is there, and every marker of at most a chunk and a byte that is there is reported |
| BinaryScan.MaxGlibcMinor | build.py:646-658 | the result is the largest number among what the scan sees of each match of the whole file |
| BinaryScan.FoldMatches | build.py:656-657 | left-to-right matches of a window, none inside another, folded into a maximum |
| BinaryScan.ScanStep | build.py:652-658 | one chunk extends the view of exactly the matches in its window |
| BinaryScan.ScanIsHighestIff | build.py:646-658 | never more than the file holds; equal to the whole-file answer if and only if that is 0 or some match of it ends in view |
| BinaryScan.ShortRunsAreExact | build.py:646-658 | runs of at most 9 digits make the scan exact |
| BinaryScan.DecimalReadsPrinted | build.py:657 | the number read is the one that decimal printing writes, also behind zeros |
| BinaryScan.ScanIsHighestMention | build.py:646-658 | with runs of at most nine digits the result is 0 or a number n for which the text `GLIBC_2.` and n stands in the file with no digit after it, and no such n is higher |
| BinaryScan.HigherOfTwo | build.py:646-658 | a file with the minors 17 and 34 yields 34 |
| BinaryScan.LongRunIsCut | build.py:656-658 | a ten-digit run 17 bytes before a chunk end is reported too low |
| Base64Url.DecodeEncode | src/naming.rs:6 | decoding undoes encoding |
| Base64Url.EncodeDecode | src/custom_server.rs:31-33 | the unpadded decoder accepts nothing but what the encoder writes |
| Base64Url.HyphensAreApart | src/naming.rs:6-7 | ASCII bytes put a hyphen only into every fourth place, so never two in a row nor nine apart |
| Base64Url.LastCharacter | src/naming.rs:6-7 | the text does not end in a hyphen unless the last byte ends in its six bits |
| Base64Url.AlphabetIs | src/naming.rs:6 | the 64 characters of table 2 of RFC 4648 |
| Base64Url.SameNumber | src/naming.rs:6 | three bytes and their four sextets are the same 24-bit number |
| Base64Url.TestVectors | src/naming.rs:6 | vectors of section 10 of RFC 4648 |
| Base64Url.PaddedRoundTrip | src/custom_server.rs:31-33 | padded text is decoded by the padded decoder and refused by the other |
| CustomServers.GetCustomServerFromString | src/custom_server.rs:44-113 | the loops take the last value of each key, or the first piece that parses |
| CustomServers.GeneratedNameRoundTrip | src/custom_server.rs:93-111 | every ASCII record put into a name behind `rustdesk` and one of the three licence markers comes back, also from a copy of the file, with the extension in any case, doubled or missing |
| CustomServers.PaddedParsesBack | src/custom_server.rs:24-42 | a record comes back from padded base64 |
| CustomServers.SignedParsesBack | src/custom_server.rs:24-42 | a record comes back from a signed message |
| CustomServers.NothingElseParses | src/custom_server.rs:24-42 | text that does not decode, or decodes to what is neither JSON nor signed, carries nothing |
| CustomServers.LastPieceDecides | src/custom_server.rs:74-90 | the last piece with a key gives its value |
| CustomServers.FirstPieceDecides | src/custom_server.rs:99-110 | the first piece that parses gives the record |
| CustomServers.UnlicenseCuts | src/custom_server.rs:94-98 | the three replacements and the split leave the word `rustdesk` and the generated name, and cut nothing inside the name |
| CustomServers.RustdeskIsRejected | src/custom_server.rs:100 | the leading word decodes but is neither JSON nor signed |
| CustomServers.JsonIsInjective | src/naming.rs:6 | different records have different JSON texts |
| CustomServers.SoundLibraryExists | src/custom_server.rs:24-42 | a JSON reader and a signature check as the claims assume them exist |
| CustomServers.MarkedPieceParses | src/custom_server.rs:99-110 | a generated name with or without a copy mark parses to its record |
| CustomServers.FieldNameRoundTrip | src/custom_server.rs:45-92 | ASCII, comma-free fields under keys in any letter case are read back, whatever stands before the first key and after the last field |
| CustomServers.FieldsBegin | src/custom_server.rs:64-65 | the first key is found where it was written: it cannot overlap what stands before |
| ClipboardSync.ItemRoundTripIff | src/clipboard.rs:636-776 | an item survives the wire if and only if it is not a file list and an image has 31-bit dimensions and four bytes a pixel |
| ClipboardSync.RgbaRoundTripIff | src/clipboard.rs:52-60 | the receiver's check accepts the cast dimensions as the original ones exactly then |
| ClipboardSync.MessageRoundTrip | src/clipboard.rs:727-776 | a message of sendable items decodes to the items |
| ClipboardSync.OnTheWire | src/clipboard.rs:636-725 | each kind of item has its own tag, only images have dimensions and only special items a name, and bytes are compressed exactly when that is shorter and the item is no PNG image |
| ClipboardSync.ClipboardContext.GetFormatsFilter | src/clipboard.rs:402-431 | unforced reads of content with an owner marker are empty; otherwise exactly the items of the owner format and the empty texts are left out and all others kept in order |
| ClipboardSync.FilterReads | src/clipboard.rs:421-430 | the kept items stand at all the places that hold neither, in order |
| ClipboardSync.NothingRemoved | src/clipboard.rs:421-430 | content with neither is read unchanged |
| ClipboardSync.ClipboardContext.CheckClipboard | src/clipboard.rs:77-121 | sends the encoding of what is read and remembers it; sends nothing exactly for marked content, file copies, or nothing left to read |
| ClipboardSync.ClipboardContext.UpdateClipboard | src/clipboard.rs:253-283 | after a message made from sendable items the clipboard holds those items and one more; whatever the message, a clipboard it changed is not read by a later unforced check |
| ClipboardSync.InstalledIsSilent | src/clipboard.rs:286-292 | content received from the peer is never read by an unforced check |
| ClipboardSync.DeliveredIsCopied | src/clipboard.rs:402-431 | in every run of two peers, each clipboard holds what its last write put there, which is a copy of its own or items copied on the other side with the marker, and messages hold exactly what was copied |
| ClipboardSync.StepUsesBudget | src/clipboard.rs:262-292 | every check and delivery uses up some of a budget that only a copy refills |
| ClipboardSync.RunsDrain | src/clipboard.rs:262-292 | without new copies a run is no longer than its budget |
| ClipboardSync.QuietIffStuck | src/clipboard.rs:262-292 | a run can go no further exactly when no change is unread and no message on its way |
| ClipboardSync.AgreeIff | src/clipboard.rs:262-292 | between any two states in which nothing can go on, with any copies on both sides: the clipboards agree if and only if one was last written by a copy with something to send and the other by a message |
| ClipboardSync.AgreeOrExchanged | src/clipboard.rs:262-292 | where every copy has something to send, they agree unless both were last written by messages, and then each holds what was copied on the other side |
| ClipboardSync.EveryCopyIsSent | src/clipboard.rs:402-431 | at every point of every run, a checked last copy is the last message on its way, or installed, or the other side has copied since |
| ClipboardSync.LastCopyArrives | src/clipboard.rs:262-292 | the case of copies on one side: that side keeps its last copy and the other follows it; without empty texts the other holds those very items and its marker |
| ClipboardSync.CopiesCanCross | src/clipboard.rs:262-292 | a run with a copy on each side, both sent before either is delivered, that ends exchanged |
| ClipboardSync.CopiesCanAgree | src/clipboard.rs:262-292 | a run with the same two copies, one of which arrives before the other is read, that ends in agreement |
| LoginPassword.Run | src/client.rs:4701-4827 | over any sequence of sessions, salts and messages the handler does what the rules on values say, and stores only one's own passwords when no state of the run leaks |
| LoginPassword.LoginConfigHandler.HandleHash | src/client.rs:4701-4827 | the most preferred password is taken and its source recorded; a shared one is used once; a trusted switch of sides is answered once and forgets the source |
| LoginPassword.OrderOfPasswords | src/client.rs:4749-4799 | who wins against whom: shared, last, preset, stored, address-book and built-in password, each with its source |
| LoginPassword.LoginConfigHandler.HandleLoginFromUi | src/client.rs:4887-4913 | a typed password becomes one's own; otherwise the last or the stored one is kept |
| LoginPassword.LoginConfigHandler.HandleLoginError | src/client.rs:4574-4581 | a refused password is forgotten and its source kept |
| LoginPassword.LoginConfigHandler.HandlePeerInfo | src/client.rs:3671-3727 | stores by the rule, under the salt of the last hash or the empty one; a shared password exactly in the states that leak, and then the address book gets it too |
| LoginPassword.WhatIsRemembered | src/client.rs:3673-3696 | an accepted login without remembering clears the stored password or stores one of the address book; with it, a new password that is not marked as shared is stored |
| LoginPassword.WhatIsSynced | src/client.rs:3710-3727 | the stored password is copied unless the one in use is marked as shared or as of the address book |
| LoginPassword.LoginConfigHandler.Initialize | src/client.rs:2957-3008 | a new handler: a token brings password and source together, and the stored password decides whether to remember |
| LoginPassword.LoginConfigHandler.GetConnToken | src/client.rs:3941-3951 | the token carries password and source, and there is none if and only if there is no password |
| LoginPassword.SharedIsStoredIff | src/client.rs:3673-3696 | at any point of any run, the peer's information makes a shared password the stored one if and only if the login is remembered, the password is new, and its source is forgotten or the salt in force does not reproduce it; nothing else changes what is stored |
| LoginPassword.OwnThroughoutIff | src/client.rs:3673-3696 | the store keeps to one's own passwords throughout a run if and only if no peer information of it meets that condition |
| LoginPassword.SharedIsSyncedIff | src/client.rs:3710-3727 | a shared password is copied to the personal address book if and only if it is being stored, or is stored already and the password in use is not marked |
| LoginPassword.SyncedThroughoutIff | src/client.rs:3710-3727 | no peer information of a run copies a shared password there if and only if none stores one |
| LoginPassword.FirstLeakHasCause | src/client.rs:4706-4732 | the first shared password stored was stored because the sides were switched or the salt in force was another |
| LoginPassword.SharedIsNeverStored | src/client.rs:4749-4799 | under one salt, with no switch of sides, and a hash before the peer's information in each session, no run stores a shared password |
| LoginPassword.SwitchStoresShared | src/client.rs:4713-4732 | a run in which switching sides leads to a shared password being stored |
| LoginPassword.ChangedSaltStoresShared | src/client.rs:4706-4708 | a run in which a second salt does |
| LoginPassword.EarlyPeerInfoStoresShared | src/client.rs:2964-2969 | a run in which the peer's information before any hash does |

## Left out

- AudioResampler.StreamingLinearResampler.ProcessInto: rounding of 32-bit floats; the position is unbounded, and its bound inside a call is stated instead of the width of its counter.
- FixedFrames.SufficientIff: the short form needs the largest packet input not to overflow `output_capacity`, which makes such a call an error; the long form covers that case too.
- TransportRace.Race: the two error texts are kept as a pair, without the words around them.
- OuterRace.LostIff: whether dropping the stream closes the connection is decided in a library that is not part of this model.
- ConnectionRound.Start: the two rounds are run one after the other and the race over their results then follows a given trace; interleavings inside the rounds show only in which of them resolved, and when.
- ConnectionRound.StartInner: timeouts, retries over several rendezvous servers and the contents of messages are choices of the environment.
- LoginPassword.Run: port-forward sessions, which set the hash of a second connection themselves.
- LoginPassword.LoginConfigHandler.HandleHash: terminal logins, the login message itself and incoming-only mode; whether a request to switch sides is trusted is a choice of the environment.
- PlaybackBuffer.AudioBuffer.ShrinkPass: with more than two channels the amount dropped need not be a whole number of frames; it is only even.
- PlaybackBuffer.BoundHoldsIff: for two rates that differ by one to three samples a second, and below ten, rounding decides and nothing is claimed when the rate has risen.
- BinaryScan.MaxGlibcMinor: the interpreter's limit of 4300 digits in a number.
- CustomServers.GeneratedNameRoundTrip: the prefix that `src/naming.rs` prints has no separator that the parser splits at, so the claim is about the prefix of the parser's own tests; file names outside ASCII, where lower-casing moves byte positions.
- ClipboardSync.DeliveredIsCopied: file lists, forced checks, plain-text fallback for old peers, and marker items that another program might write.
- EchoReference.Playback.FeedPlayback: the echo processor, which may refuse any block.
- Sockets, encryption, protobuf, KCP, the WebRTC library, the sound and clipboard back ends, the sinc resampler and the underflow recovery of playback.
- Command dispatch, packaging steps, administration scripts, user-interface messages, key maps and two-factor code, which would only add branch tables.
