# OCDScope: a verified model

OCDScope samples variables of an embedded target through OpenOCD and plots them. This project
models its core in Dafny and proves what the core is for:

- **Byte-stream reassembly.** The GDB client, the Telnet line reader and the RTT drain loop each
  turn a TCP stream into messages. `Reassembly.dfy` holds one theory of "cut a message off the front
  of the buffer, or receive more"; the three readers are instances. Results depend on the bytes
  only, never on how they were cut or where calls timed out; no byte is lost or duplicated; and
  every encoder (GDB packets, RTT frames, channel listings, channel names) is undone.
- **Sampler threads as protocol machines.** The simulated, memory and RTT samplers are state
  machines with a command queue and a log of everything they send. All three follow one status
  protocol, obey their commands in order, and stop within a bounded number of iterations. The
  memory sampler never mixes up the replies to its requests.
- **The sample buffer.** Binary search, sliding window, range views and the interpolated curve,
  against the history of everything pushed; then tied to the samplers, to `handle_messages` and to
  the exporter.

## How it is organised

Components that change state step by step are modelled twice: as a class or a method with the
loops and fields of the program, and as functions on values that specify it. The methods are
proved to compute what the functions say, and the theorems are about the functions.

| file | contents |
|---|---|
| Common.dfy | options, results, bytes, digits, byte orders, sequence facts |
| Reassembly.dfy | cutters, chunking independence, conservation |
| GdbPacket.dfy, GdbRemote.dfy | GDB framing; the client with its buffer and time stamps |
| MemReply.dfy, MemSampler.dfy, MemThread.dfy | memory replies; the memory sampler; its thread as a program |
| MemServer.dfy, MemHealth.dfy | the memory sampler against a server that answers every request once; sessions in which nothing goes wrong |
| ReadProtocol.dfy, ReadHistory.dfy | sampler and server as one system of concurrent steps; the thread's sessions as its histories |
| Sampler.dfy | statuses, commands, the status protocol, what all threads share |
| FakeSampler.dfy | the simulated sampler and its thread |
| RttPacket.dfy, RttName.dfy | RTT packets and the channel names that describe them |
| RttSampler.dfy, RttThread.dfy | the RTT sampler; its thread as a program |
| SampleBuffer.dfy, PlotView.dfy | the buffer; views and the curve |
| App.dfy, AppWindow.dfy, Export.dfy | the message pump; its effect on buffers over time; the exported table |
| Telnet.dfy, RttChannels.dfy, RttListing.dfy | the Telnet line reader; the channel listing; reading the listing from a connection |
| Pipelines.dfy | results that run from a thread to the buffers and the table |

Sockets, clocks, timeouts and channel arrivals are inputs: lists of what the next calls will bring,
with no assumption on them. Histories (bytes received, frames drained, commands taken, outputs
sent) are part of the specified states.

## Where the code is surprising

- A GDB error report such as `E01` is a hexadecimal number to `parse_hex_value`, so it is taken for
  a memory value (`ErrorRepliesAreTakenForValues`). A value is the one read for it exactly if no
  such reading came uninvited before (`OwnReplyIff`); one of them shifts all later values by one
  place (`StrayReplyShiftsEverything`), and `ErrorIsReported` is a run in which that happens.
- The time of a sample can lie before its request, if a keep-alive packet was already waiting
  (`SampleTimeIsBetweenIff`, `KeepAliveSpoilsTime`).
- A byte that is neither `+` nor `$` at the front of the GDB buffer, or a wrong checksum, silences
  the client for ever; `StuckIff` says exactly when. Likewise a line feed without a carriage return
  silences the Telnet reader (`BlockedIff`).
- `plot_points` shows the whole buffer when the range ends before the first sample
  (`ViewEndsInRangeIff`).
- Samples that wait beside a Terminated notification are dropped (`SamplesAreStoredIff`).
- If the RTT server cannot be stopped, Terminated is announced twice (`StrictProtocolIff`,
  `FailedShutdownIsNotStrict`).
- A channel name that ends in a colon is not read back from the listing (`LineRoundTripIff`); a
  payload that contains `#` is not read back from its packet (`BuildThenParse`).

## Model

| member | source | states |
|---|---|---|
| Reassembly.SessionIsCutAll | src/gdbremote.rs:209-235 | for every way of cutting the bytes into arrivals, with failed calls anywhere, repeated reading yields exactly the messages of the joined bytes and leaves exactly their remainder |
| Reassembly.CutAllAppend | src/sampler/rttsampler.rs:314-346 | what has been cut off is final: later bytes only add messages behind it |
| Reassembly.CutAllExhausts | src/gdbremote.rs:214-234 | the remainder holds no further complete message |
| Reassembly.ReadTakesFirstPending | src/gdbremote.rs:209-235 | one call hands out the first message still to come, and a failed call changes none of them |
| Reassembly.CutAllConserves | src/openocd/telnet_interface.rs:100-132 | the messages and the remainder, joined, are the stream |
| Common.ParseUnsignedIff | src/gdbremote.rs:71-72 | exactly the strings that `from_str_radix` accepts, and the number they denote |
| Common.DigitIff | src/gdbremote.rs:71-72 | the digits, in both cases, spelled out |
| GdbPacket.ChecksumIsSum | src/gdbremote.rs:28-28 | the checksum is the sum of the payload bytes modulo 256 |
| GdbPacket.PacketBytes | src/gdbremote.rs:25-38 | a built packet, byte for byte |
| GdbPacket.OpeningPackets | src/sampler/memsampler.rs:197-222 | the packets that open a session, and the reply that confirms, as literal bytes |
| GdbPacket.ParsePacketIff | src/gdbremote.rs:40-82 | the parser accepts a buffer as payload p exactly if it begins with `$`, p without `#`, `#` and two characters that read as the checksum of p |
| GdbPacket.BuildThenParse | src/gdbremote.rs:25-82 | a built packet parses to its payload, whatever follows, exactly when the payload has no `#` |
| GdbPacket.CutResponseStable | src/gdbremote.rs:174-190 | a response that can be read stays the same, and takes the same bytes, when more bytes arrive |
| GdbPacket.CutAllEncoded | src/gdbremote.rs:174-190 | reading undoes encoding for every list of acknowledgements and packets |
| GdbPacket.StreamRoundTrip | src/gdbremote.rs:209-235 | any list of responses, encoded and delivered in any pieces, is what repeated reading returns, with nothing left over |
| GdbPacket.StuckIff | src/gdbremote.rs:209-235 | the exact buffers from which no further bytes ever produce a response |
| GdbRemote.GDBRemote.FeedBufferFromStream | src/gdbremote.rs:130-172 | one arrival goes to the end of the buffer, or its error is returned; the time stamp follows marked segments |
| GdbRemote.GDBRemote.EatAck | src/gdbremote.rs:174-181 | removes one byte exactly when an acknowledgement is the next response |
| GdbRemote.GDBRemote.EatPacket | src/gdbremote.rs:183-189 | removes the payload length plus four bytes exactly when a packet is in front |
| GdbRemote.GDBRemote.ReadResponse | src/gdbremote.rs:209-235 | computes the specified next response; neither `expect` can fail; every byte received is either handed out or kept |
| GdbRemote.GDBRemote.SendPacket | src/gdbremote.rs:237-241 | sends the framed contents, or reports the IO error and sends nothing |
| GdbRemote.MarkIsNotTooEarly | src/gdbremote.rs:151-158 | if the stream has a `$` or `+` at some offset, a time stamp is set, and not from a segment before that offset |
| GdbRemote.ResponseStamp | src/gdbremote.rs:215-229 | the stamp returned is that of the latest received segment with `$` or `+`, which is never earlier than the segment of the response's first byte |
| GdbRemote.StampIsOfLastMark | src/gdbremote.rs:151-158 | the stamp is that of the last segment received with `$` or `+`, and of the response's own segment if none comes behind it |
| GdbRemote.NextResponseIsRead | src/gdbremote.rs:209-235 | the client is an instance of the general reading scheme and conserves the stream |
| GdbRemote.SegmentsAreInvisible | src/gdbremote.rs:209-235 | two connections that bring the same bytes give the same responses and keep the same rest, whatever the segments and failures |
| GdbRemote.ClientReceivesWhatWasEncoded | src/gdbremote.rs:209-235 | a client reads back exactly what a server encoded, under any chunking and any timeouts, and has consumed every byte |
| MemReply.ReadRequestNamesAddress | src/sampler/memsampler.rs:302-302 | a request is `m `, eight lower-case hexadecimal digits that read as the 32-bit address, and `,4` |
| MemReply.ReplyYieldsMemory | src/sampler/memsampler.rs:322-331 | an eight-digit reply of four memory bytes is accepted and yields the little-endian number in these bytes |
| MemReply.ReplyValueIff | src/sampler/memsampler.rs:317-331 | exactly the responses that are taken for values |
| MemReply.BytesChangePlaces | src/sampler/memsampler.rs:330-330 | which bits are made of the number in a reply |
| MemReply.ErrorRepliesAreTakenForValues | src/sampler/memsampler.rs:404-408 | every error report of two digits is accepted as a value |
| MemSampler.HandshakeConsumes | src/sampler/memsampler.rs:189-207 | a successful handshake consumed exactly ACK, ACK, OK and sent exactly one packet |
| MemSampler.CollectExchanges | src/sampler/memsampler.rs:298-344 | a completed sweep sent one request per active address, in order, and its values are the next readings on the connection |
| MemSampler.SweepStamps | src/sampler/memsampler.rs:293-315 | the two stamps of a sweep are those of its first request and of the first response after it |
| MemSampler.SampleTimeIsBetweenIff | src/sampler/memsampler.rs:302-362 | the time of a completed sweep lies between its first request and its first response exactly if that response is not stamped before the request, or the request is not later than the start |
| MemSampler.KeepAliveSpoilsTime | src/sampler/memsampler.rs:308-321 | a keep-alive packet that arrived before the request puts the sample of a read before its own request |
| MemSampler.SweepIsSent | src/sampler/memsampler.rs:346-363 | a completed sweep is sent with its values and the middle between its two stamps |
| MemSampler.StepEndsIff | src/sampler/memsampler.rs:216-398 | exactly the iterations with which the thread ends |
| MemSampler.StepServes | src/sampler/memsampler.rs:229-364 | an iteration keeps the protocol and, while sampling, adds exactly one sample that lists the active addresses in order with the readings that arrived |
| MemSampler.PairingNeverDrifts | src/sampler/memsampler.rs:216-399 | over any run the values sent are, one by one, the readings that arrive, and the requests sent are those for the addresses under which they are reported |
| MemServer.ReadingsAreTakenInOrder | src/sampler/memsampler.rs:175-402 | in every run against every server, the k-th value sent is the k-th reading that the server ever sent, and the k-th read request named its address |
| MemServer.OwnReplyIff | src/sampler/memsampler.rs:308-343 | in every run, value k stems from the answer to request k if and only if no exchange up to that one came with a reading that nobody asked for |
| MemServer.StrayReplyShiftsEverything | src/sampler/memsampler.rs:308-343 | in every run, the answer to request j is reported as value j plus the number of uninvited readings before it |
| MemServer.ErrorIsReported | src/sampler/memsampler.rs:308-343 | a run in which one uninvited `E01` is reported in place of the memory, whatever the memory holds |
| MemServer.MemoryArrivesInOrder | src/sampler/memsampler.rs:175-402 | from bytes to samples: with a server that answers each request once, amid any noise that is not a reading, any chunking and failures, the k-th value is the float in the memory read for the k-th request, under the address it named |
| MemServer.SweepSucceedsIff | src/sampler/memsampler.rs:298-344 | on a connection without failures a sweep succeeds exactly if its requests can be sent and there are enough readings |
| MemHealth.HealthyRunGoesOn | src/sampler/memsampler.rs:216-401 | as long as channels, connection and server do their part and nobody asks for the end, the thread goes on |
| MemHealth.HealthySessionGoesOn | src/sampler/memsampler.rs:175-402 | the same for whole sessions, handshake included |
| MemSampler.RunFollowsProtocol | src/sampler/memsampler.rs:216-399 | every run, failed handshakes included, follows the status protocol |
| MemSampler.CommandsAreObeyed | src/sampler/memsampler.rs:229-250 | commands are taken in order, none lost, and fix the status and the active addresses |
| MemSampler.StopIsSwift | src/sampler/memsampler.rs:229-251 | with Stop queued, or arriving next, so that n iterations remain, at most n - 1 more samples are sent |
| MemSampler.StopDuringIteration | src/sampler/memsampler.rs:160-172 | if Stop arrives behind k commands while an iteration runs, at most k + 2 more samples are sent, and the join is reached within k + 3 iterations |
| MemThread.MemSamplerThread.ShakeHands | src/sampler/memsampler.rs:189-207 | computes the specified handshake |
| MemThread.MemSamplerThread.AwaitReading | src/sampler/memsampler.rs:308-343 | the inner loop computes the specified wait, including the stamp of the first response |
| MemThread.MemSamplerThread.CollectActive | src/sampler/memsampler.rs:293-344 | the address loop computes the specified sweep |
| MemThread.MemSamplerThread.Iterate | src/sampler/memsampler.rs:216-398 | one iteration computes the specified step |
| MemThread.MemSamplerThread.Loop | src/sampler/memsampler.rs:216-401 | the loop computes the specified run |
| MemThread.MemSamplerThread.RunSession | src/sampler/memsampler.rs:189-401 | from the handshake on, the thread computes the specified session |
| ReadProtocol.StepKeepsInvariant | src/sampler/memsampler.rs:298-344 | every step of sampler, server or connection keeps at most one request outstanding, and any answer on its way is for the address asked last |
| ReadProtocol.RoundsArePaired | src/sampler/memsampler.rs:298-344 | in every history at most one request is outstanding, and each completed round lists exactly its addresses, each with the float read for it |
| ReadHistory.SweepProjects | src/sampler/memsampler.rs:298-344 | a sweep of the sampler is a possible history of the system: its packets are the requests, each response is received once, and the round completes with the same samples exactly if the sweep does |
| ReadHistory.SessionsAreHistories | src/sampler/memsampler.rs:175-402 | every session with a server that answers each request once is such a history: never more than one request outstanding, the packets sent are its requests, and the samples sent are its completed rounds, each with its own answers |
| Sampler.CommandsDecide | src/sampler/fakesampler.rs:139-206 | Stop ends the thread for good; otherwise it is paused exactly when some pause has not been lifted; the last list of signals counts |
| Sampler.SamplesOnlyWhileSampling | src/sampler/mod.rs:19-32 | in a conforming log every sample comes while the latest announced status is Sampling |
| Sampler.BecomeKeepsProtocol | src/sampler/fakesampler.rs:214-220 | a status change at the end of an iteration is one that the protocol allows |
| Sampler.AdvanceObeys | src/sampler/fakesampler.rs:139-159 | one iteration loses no command and leaves the thread in the status its commands ask for |
| Sampler.AdvanceLeaves | src/sampler/fakesampler.rs:97-109 | every iteration brings a thread with Stop in its queue one iteration nearer to its end |
| FakeSampler.StepKeepsProtocol | src/sampler/fakesampler.rs:130-221 | an iteration keeps the protocol and sends a sample exactly when one is due: for the next period, one value per active signal |
| FakeSampler.StepEndsIff | src/sampler/fakesampler.rs:134-220 | exactly the iterations with which the thread ends |
| FakeSampler.TimeGoesOn | src/sampler/fakesampler.rs:163-164 | exactly how time goes on |
| FakeSampler.SampleAt | src/sampler/fakesampler.rs:171-181 | a sample has its time in whole microseconds and at place i the i-th active signal with its value |
| FakeSampler.HealthyRunGoesOn | src/sampler/fakesampler.rs:130-223 | as long as the channels are in place, nobody asks for the end and only existing signals are chosen, the thread goes on |
| FakeSampler.RunFollowsProtocol | src/sampler/fakesampler.rs:130-221 | every run follows the status protocol |
| FakeSampler.CommandsAreObeyed | src/sampler/fakesampler.rs:138-207 | commands are taken in order, none lost, and fix the status and the active signals |
| FakeSampler.StopIsSwift | src/sampler/fakesampler.rs:138-211 | once Stop is queued, or arrives next, no sample is sent any more and the loop is left within k + 2 iterations |
| FakeSampler.StopDuringIteration | src/sampler/fakesampler.rs:97-109 | if Stop arrives behind k commands while an iteration runs, exactly the sample due in that iteration is still sent, if there is one, and the join is reached within k + 3 iterations |
| FakeSampler.SampleTimesNeverDecrease | src/sampler/fakesampler.rs:163-181 | sample times never decrease over any run |
| FakeSampler.FakeSamplerThread.Iterate | src/sampler/fakesampler.rs:130-221 | one iteration computes the specified step |
| FakeSampler.FakeSamplerThread.Loop | src/sampler/fakesampler.rs:130-223 | the loop computes the specified run |
| RttPacket.DecodeInvertsEncode | src/sampler/rttsampler.rs:437-494 | decoding recovers the time, two's-complement integers, booleans and float bits that an encoder wrote |
| RttPacket.DecodeIsTotal | src/sampler/rttsampler.rs:474-494 | on every structure a name can describe, decoding succeeds, yields one value per field and a time exactly when declared, and loses no byte |
| RttPacket.FieldMeaning | src/sampler/rttsampler.rs:437-454 | what the bytes of all eight kinds of field mean, spelled out |
| RttPacket.TimeMeaning | src/sampler/rttsampler.rs:475-481 | where the time of a packet is and what it means |
| RttPacket.DecodeBytes | src/sampler/rttsampler.rs:474-494 | the loop over the fields with its moving slice computes the specified decoding |
| RttName.ParseNameIff | src/sampler/rttsampler.rs:497-533 | exactly the ASCII names that parse to a structure: its text, in any case, behind the last underscore, with at most one character left over |
| RttName.NameRoundTrip | src/sampler/rttsampler.rs:497-533 | a structure written in any case after any prefix parses back |
| RttName.FieldNames | src/sampler/rttsampler.rs:408-435 | the fields that two characters can name, spelled out |
| RttName.DocumentedName | src/sampler/rttsampler.rs:498-501 | the name in the documentation describes a time and four floats |
| RttName.PanicsIff | src/sampler/rttsampler.rs:519-525 | exactly the names, in any encoding, on which slicing panics |
| RttName.ParseScopePacketStructure | src/sampler/rttsampler.rs:503-532 | the parsing loop computes the specified parse, including the slices that panic |
| RttSampler.StepKeepsInvariant | src/sampler/rttsampler.rs:272-386 | bytes received are drained frames and buffer; the samples are the decodings of the frames drained while sampling; counts add up; the buffer is shorter than a packet after each drain; an empty layout never pauses |
| RttSampler.FramesAreTheCut | src/sampler/rttsampler.rs:320-346 | frames begin at multiples of the packet size of everything received, whatever was paused or read in pieces |
| RttSampler.WholeRunReceives | src/sampler/rttsampler.rs:301-346 | over whole runs: what was received is what the reads brought, all of it while the thread runs; it is in drained frames or in the buffer; and less than one packet stays in the buffer |
| RttSampler.WholeRunIsTheCut | src/sampler/rttsampler.rs:320-346 | over whole runs frames begin at multiples of the packet size of all bytes read |
| RttSampler.ReadsAndPausesKeepAlignment | src/sampler/rttsampler.rs:280-346 | two whole runs that read the same bytes, in whatever pieces and with whatever commands, drain the same frames and keep the same rest, and send the same samples if nobody sent Pause |
| RttSampler.EmptyLayoutFails | src/sampler/rttsampler.rs:320-330 | with an empty layout the first sampling iteration ends the thread, so the drain loop always terminates |
| RttSampler.StepTakes | src/sampler/rttsampler.rs:301-318 | an iteration of a working thread takes all bytes of its read if it goes on, and all or none if it fails |
| RttSampler.StrictProtocolIff | src/sampler/rttsampler.rs:366-376 | a whole run breaks the strict protocol exactly if the RTT server cannot be stopped in some iteration, and then its log exceeds a strict one by exactly one error and one repeated Terminated |
| RttSampler.FailedShutdownIsNotStrict | src/sampler/rttsampler.rs:366-372 | for every layout that is not empty, a run of three iterations in which that happens |
| RttSampler.RecordsArrive | src/sampler/rttsampler.rs:314-346 | over whole runs whose reads bring the records of a target, the samples sent are exactly these records without those drained during a pause: same number, order, times, and value i under signal i; all of them if nobody sent Pause |
| RttSampler.SetUpEndsIff | src/sampler/rttsampler.rs:212-266 | set-up ends the thread unless all of its stages succeed |
| RttSampler.StepEndsIff | src/sampler/rttsampler.rs:272-386 | exactly the iterations with which the thread ends |
| RttSampler.WorkingStepSends | src/sampler/rttsampler.rs:320-386 | everything that an iteration sends when the thread goes on, in order, and the counts it reports |
| RttSampler.HealthyWholeRunGoesOn | src/sampler/rttsampler.rs:262-390 | as long as set-up, channels and stream do their part and nobody asks for the end, the thread goes on |
| RttSampler.HealthyRunsDeliver | src/sampler/rttsampler.rs:300-346 | in such a run without pauses every record of the target is sent |
| RttSampler.SamplesAreUniform | src/sampler/rttsampler.rs:332-340 | every sample carries exactly the signals 0 to n - 1 |
| RttSampler.StopIsSwift | src/sampler/rttsampler.rs:197-209 | with Stop behind k commands, queued or arriving next, the loop is left within k + 2 iterations |
| RttSampler.StopDuringIteration | src/sampler/rttsampler.rs:197-209 | if Stop arrives behind k commands while an iteration runs, the join is reached within k + 3 iterations |
| RttSampler.CommandsAreObeyed | src/sampler/rttsampler.rs:280-299 | commands are taken in order, none lost, and fix the status |
| RttThread.RttSamplerThread.DrainBuffer | src/sampler/rttsampler.rs:320-346 | the drain loop computes the specified drain and terminates |
| RttThread.RttSamplerThread.Iterate | src/sampler/rttsampler.rs:272-386 | one iteration computes the specified step |
| RttThread.RttSamplerThread.Loop | src/sampler/rttsampler.rs:272-390 | the loop computes the specified run |
| SampleBuffer.IndexBeforeAt | src/buffer.rs:137-162 | on any data the index found is at or before the time and the next sample is later; none is found only if the first is later |
| SampleBuffer.SearchesAgree | src/buffer.rs:137-162 | on sorted samples the binary search equals the linear search from the end |
| SampleBuffer.SearchBeforeAt | src/buffer.rs:137-162 | the search loop computes the specified search |
| SampleBuffer.NewestSurvives | src/buffer.rs:120-134 | every truncation to a positive length keeps the newest sample, whatever the times |
| SampleBuffer.TruncationEmptiesIff | src/buffer.rs:120-134 | exactly when truncation empties a sorted buffer |
| SampleBuffer.TruncationIsExact | src/buffer.rs:120-134 | after truncation nothing is older than the window, nothing newer than its edge was dropped, and truncating again changes nothing |
| SampleBuffer.TruncationKeepsIff | src/buffer.rs:120-134 | truncation keeps everything if no sample is before the edge of the window, and otherwise exactly the samples behind the edge |
| SampleBuffer.TenOfHundred | src/buffer.rs:120-134 | of one hundred samples, one a second, ten stay |
| SampleBuffer.TruncationSameTimes | src/buffer.rs:120-134 | truncation depends on times only |
| SampleBuffer.WindowAlways | src/buffer.rs:24-26 | over any run of pushes and truncations the buffer is a suffix of the history and holds everything later than the last time minus the length kept |
| SampleBuffer.SampleBuffer.PushSample | src/buffer.rs:24-26 | the point goes to the end |
| SampleBuffer.SampleBuffer.TruncateTo | src/buffer.rs:120-134 | drops exactly the specified prefix; the `unwrap` cannot fail |
| SampleBuffer.SampleBuffer.TimeBounds | src/buffer.rs:109-118 | on a sorted buffer all times lie between the bounds |
| PlotView.RangesAreSafe | src/buffer.rs:32-48 | on a sorted buffer and a range that is not reversed slicing never fails and the check on the last time holds |
| PlotView.ViewIsExact | src/buffer.rs:38-56 | exactly which samples a view holds, for every range that does not end before the first sample; only the first can precede the range |
| PlotView.ViewIsComplete | src/buffer.rs:38-56 | a sample in the range is missing only if it is not before the one found for the end |
| PlotView.ViewEndsInRangeIff | src/buffer.rs:38-43 | all samples shown are at or before the end of the range exactly if the first sample is |
| PlotView.CurveIsBetween | src/buffer.rs:68-87 | the curve stays between neighbouring samples and is flat beyond the ends |
| PlotView.CurveIsStraight | src/buffer.rs:79-81 | between two samples the curve is the straight line through them |
| PlotView.CurveMeetsSamples | src/buffer.rs:68-87 | the curve passes through every sample that is the last one at its time |
| PlotView.CurveIsMonotone | src/buffer.rs:68-87 | rising values give a curve that rises over the whole axis, and falling values one that falls |
| PlotView.CurveScales | src/buffer.rs:50-87 | scaling the points scales the curve everywhere, on any data |
| PlotView.ViewKeepsPieces | src/buffer.rs:58-98 | wherever the range begins and ends, over the span of the view its curve has the same pieces as the curve through all points |
| PlotView.ViewShowsScaledCurve | src/buffer.rs:58-98 | over its span, a view shows the scaled curve through all points |
| PlotView.ViewOf | src/buffer.rs:32-56 | computes the specified view |
| PlotView.PlotPointsGenerator | src/buffer.rs:58-98 | hands out the view with the range clamped to the buffer, or nothing for an empty view |
| App.PushSamplesDistributes | src/main.rs:194-205 | every value of a batch reaches the buffer of its own signal, in order, and no other buffer changes |
| App.HandleMessagesOnBuffer | src/main.rs:155-216 | the effect of one call on one buffer |
| App.SamplesAreStoredIff | src/main.rs:182-205 | whatever the settings, by the time truncation begins the waiting samples have been stored exactly if no Terminated notification waits beside them |
| App.MaxTimeIsMax | src/main.rs:202-204 | the latest time is that of some sample or the old one, and none is later |
| App.AlignmentAlways | src/main.rs:194-211 | samples that carry all signals keep all buffers on identical times through any calls, truncations and clock wraps |
| App.OCDScope.DrainNotifications | src/main.rs:159-176 | computes the last status, whether an error came, and whether Terminated did |
| App.OCDScope.StoreSamples | src/main.rs:194-205 | the nested loops compute the specified distribution and latest time |
| App.OCDScope.TruncateBuffers | src/main.rs:207-211 | every buffer is truncated, none is added or dropped |
| App.OCDScope.HandleAllMessages | src/main.rs:155-216 | computes the specified effect of a call |
| AppWindow.BufferIsHistory | src/main.rs:194-211 | a buffer is the outcome of pushing all points delivered for its signal before Terminated, with truncations in between |
| AppWindow.WindowOverCalls | src/main.rs:194-211 | with rising times every buffer holds all of the last `keep` seconds of what was delivered for its signal before Terminated |
| AppWindow.RecentValuesAreStored | src/main.rs:194-211 | in microseconds: every delivered value that is less than `keep` seconds older than the last sample has its point in the buffer |
| AppWindow.StoredValuesAreRecent | src/main.rs:194-211 | every point stored is that of a delivered value, and after truncation no two are further apart than the length set |
| Export.WriteRows | src/export.rs:63-75 | fails exactly if some row has different times, and otherwise gives the table cell by cell |
| Export.WriteCsv | src/export.rs:10-80 | the outcome in every case: nothing to do, a missing buffer, differing times, or header and table |
| Export.WriteNpy | src/export.rs:82-138 | the same without a header |
| Export.AlignedBuffersExport | src/export.rs:57-75 | on aligned buffers the time assertion never fires and every stored sample becomes a row |
| Pipelines.RttBuffersAreAligned | src/sampler/rttsampler.rs:332-340 | for every RTT run and every delivery to the application all buffers have identical times |
| Pipelines.RttExportSucceeds | src/export.rs:57-75 | exporting RTT data gives one row per stored sample |
| Pipelines.ShownStatusIsLatest | src/main.rs:159-189 | after any calls of the message pump the status shown is the one announced last in the part of the thread's log that has been delivered, and the sampler is dropped exactly if Terminated is in that part |
| Pipelines.FakeBuffersAreWindows | src/main.rs:194-211 | for every run of the simulated sampler each buffer holds all of the last `keep` seconds, up to the call that learns of its end |
| Telnet.CutLineStable | src/openocd/telnet_interface.rs:102-106 | a line that can be read stays the same when more bytes arrive |
| Telnet.ReadLineTakesFirst | src/openocd/telnet_interface.rs:100-132 | one call returns the first line still to come that is not ignored, or leaves all lines to later calls; what remains in the end is the same |
| Telnet.ChunkingIsInvisible | src/openocd/telnet_interface.rs:76-132 | the lines read, and the buffer left, depend only on the bytes received |
| Telnet.LinesConserveStream | src/openocd/telnet_interface.rs:100-132 | over repeated calls on any connection the lines drained, ignored ones included, and the buffer left are the bytes received without NULs; the calls return exactly those lines that are not ignored; each ends in CR LF and has no other line feed |
| Telnet.LinesRoundTrip | src/openocd/telnet_interface.rs:76-132 | lines that were written are the lines that are read, under any chunking, with NULs and timeouts anywhere and whatever follows them |
| Telnet.PadsIff | src/openocd/telnet_interface.rs:76-79 | dropping NULs undoes putting them in, and drops nothing else |
| Telnet.OverwrittenIsSkipped | src/openocd/telnet_interface.rs:117-126 | a line is passed over exactly if it begins with two backspaces |
| Telnet.ReadLineFails | src/openocd/telnet_interface.rs:56-85 | why a call fails, and which events it has used up |
| Telnet.BlockedIff | src/openocd/telnet_interface.rs:102-130 | exactly when no line can ever be read again |
| Telnet.WaitLineFinds | src/openocd/telnet_interface.rs:149-179 | the wait returns the first line that matches, or reports exactly the joined lines it discarded, and leaves the rest |
| Telnet.TelnetInterface.ReadIntoBuffer | src/openocd/telnet_interface.rs:56-85 | appends the data without NULs, or returns the error |
| Telnet.TelnetInterface.NextLine | src/openocd/telnet_interface.rs:100-132 | computes the specified line; what has been received and what is still to come are the stream of the connection; what has been received is in drained lines or in the buffer; and the line returned is the only one drained in the call that is not ignored |
| Telnet.TelnetInterface.WaitLineWith | src/openocd/telnet_interface.rs:149-179 | computes the specified wait; the lines drained in it are those discarded and then the match, or exactly those reported |
| RttChannels.ParseRttChannels | src/openocd/telnet_interface.rs:466-491 | the loop computes the fold over the meaningful lines |
| RttChannels.ChannelsCarryNearestDirection | src/openocd/telnet_interface.rs:466-489 | on any input each channel has the direction of the nearest header above the line that describes it |
| RttChannels.NoChannelIsMissing | src/openocd/telnet_interface.rs:466-489 | on any input no channel described below a header is missing |
| RttChannels.LineRoundTripIff | src/openocd/telnet_interface.rs:441-464 | a printed channel line reads back exactly when the name does not end in a colon |
| RttChannels.HeaderIff | src/openocd/telnet_interface.rs:441-445 | exactly the lines that are headers |
| RttChannels.DocumentedLine | src/openocd/telnet_interface.rs:422-430 | a line of the documented listing, byte for byte |
| RttChannels.ListingRoundTrip | src/openocd/telnet_interface.rs:420-492 | a printed listing, behind any summary line without meaning, gives back every id, name, size, flag word and direction in order |
| RttChannels.PrintedListingRoundTrip | src/openocd/telnet_interface.rs:421-430 | the same for the listing with the summary line of the documented layout |
| RttListing.ListingTaken | src/openocd/telnet_interface.rs:274-284 | an attempt that succeeds has taken exactly the lines before the first empty one, and without failures it succeeds |
| RttListing.ListingArrives | src/openocd/telnet_interface.rs:274-286 | from bytes to channels: under any chunking of the printed listing, every attempt that succeeds gives back all channels in order, and without failures it succeeds |
| RttListing.ReadRttChannels | src/openocd/telnet_interface.rs:274-286 | the loop that reads the listing computes the specified outcome |

## Left out

- Rounding of 32-bit and 64-bit floats, NaN and infinities: times and plotted values are real
  numbers, sampled floats are bit patterns, and integers are kept as they were before `as f32`.
- Sine values of the simulated sampler: only signal, time and order matter.
- Blocking on a full sample channel: sending either succeeds or ends the thread; the bounds after
  Stop say how much room is enough.
- `MAX_PACKET_SIZE` and the size of the RTT read buffer: arrivals of any size are allowed.
- Since: does not model the conversion of microseconds from 128 to 64 bits.
- SampleOf: does not model more than 2^32 fields beyond the wrap-around of their numbers.
- HandleMessages: does not model message texts, dialogs or repainting.
- Export of numbers as text, and writing files: rows are lists of cells.
- wait_prompt, Telnet command sequences and target synchronisation: they depend on OpenOCD's timing.
- ReadRttChannels: does not model the check that lines are UTF-8, nor the prompt before the command.
- Socket options and control messages behind the time stamps (src/ttstream.rs): a stamp is a number.
- ELF symbols, channel selection, the user interface: library code or easy members.
- The `telnet`, `npyz`, `egui` and `elf` crates are not part of this model.
