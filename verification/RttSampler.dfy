/** The RTT sampler thread (src/sampler/rttsampler.rs): it cuts the byte stream of an RTT channel
    into packets of a fixed size, whether or not it is paused, and sends the decoded ones. */
module RttSampler {
  import opened Common
  import opened Reassembly
  import opened RttPacket
  import opened Sampler

  // `sampled` tells whether the thread was sampling when the frame was drained.
  datatype Frame = Frame(bytes: Bytes, sampled: bool)

  /** The state between two iterations. Histories: everything received, every frame drained, and
      the counts that were reported at the end of each rate measurement. */
  datatype Thread = Thread(
    control: Control<Value>, buffer: Bytes, count: nat, received: Bytes, frames: seq<Frame>, windows: seq<nat>)

  // An empty `Received` is the end of the stream.
  datatype ReadOutcome = Received(bytes: Bytes) | NothingYet | ReadError

  /** What an iteration meets: the channels, the read from the RTT socket, whether a second has
      passed since the last rate measurement, and whether the RTT server can be stopped. */
  datatype RttMoment = RttMoment(channels: Moment, read: ReadOutcome, secondPassed: bool, serverStops: bool)

  /** Values are numbered in the order of the fields (`i as u32`). */
  function Numbered(values: seq<Value>): (r: seq<(u32, Value)>)
    ensures |r| == |values|
  {
    seq(|values|, i requires 0 <= i < |values| => (i % 0x1_0000_0000, values[i]))
  }

  /** The sample in a frame; None if it cannot be decoded or has no time. */
  function SampleOf(st: Structure, frame: Bytes): Option<Sample<Value>>
    requires |frame| == PacketSize(st)
  {
    match Decode(st, frame)
    case Some((Some(time), values)) => Some(Sample(time, Numbered(values)))
    case _ => None
  }

  /** With an empty layout the drain loop ends only because its first round fails. */
  predicate Drainable(s: Thread, st: Structure) {
    PacketSize(st) == 0 ==> s.control.status in {Initializing, Sampling} || s.control.ended
  }

  function FailWith(s: Thread, listenerGone: bool): Thread {
    s.(control := Fail(s.control, listenerGone))
  }

  /** One round of the drain loop: the frame at the front of the buffer is decoded and sent, if
      the thread is sampling, and dropped otherwise. */
  function DrainOne(s: Thread, st: Structure, m: Moment): (s': Thread)
    requires |s.buffer| >= PacketSize(st)
    requires PacketSize(st) == 0 ==> s.control.status == Sampling
    ensures !s'.control.ended && !s.control.ended ==> |s'.buffer| < |s.buffer|
    ensures s'.received == s.received
  {
    var n := PacketSize(st);
    var frame := Frame(s.buffer[..n], s.control.status == Sampling);
    var sample := SampleOf(st, frame.bytes);
    if frame.sampled && (sample.None? || m.samplesGone) then FailWith(s, m.listenerGone)
    else
      s.(control := if frame.sampled then Emit(s.control, sample.value) else s.control,
         buffer := s.buffer[n..], count := s.count + 1, frames := s.frames + [frame])
  }

  /** The drain loop: frames leave the front of the buffer as long as it holds one. */
  function Drain(s: Thread, st: Structure, m: Moment): (s': Thread)
    requires PacketSize(st) == 0 ==> s.control.status == Sampling
    ensures s'.received == s.received
    decreases |s.buffer|
  {
    if s.control.ended || |s.buffer| < PacketSize(st) then s
    else
      var s1 := DrainOne(s, st, m);
      if s1.control.ended then s1 else Drain(s1, st, m)
  }

  /** The rate measurement that closes a second. */
  function MeasureRate(s: Thread, m: RttMoment): Thread {
    if !m.secondPassed then s
    else
      var info := if m.channels.listenerGone then [] else [Notified(Info)];
      s.(control := s.control.(outputs := s.control.outputs + info), windows := s.windows + [s.count], count := 0)
  }

  /** The part of an iteration that follows the command: read, drain, measure. */
  function Work(s: Thread, st: Structure, m: RttMoment): Thread
    requires PacketSize(st) == 0 ==> s.control.status == Sampling
  {
    if m.read == Received([]) then FailWith(s, m.channels.listenerGone)
    else
      var bytes := if m.read.Received? then m.read.bytes else [];
      var drained := Drain(s.(buffer := s.buffer + bytes, received := s.received + bytes), st, m.channels);
      if drained.control.ended then drained else MeasureRate(drained, m)
  }

  /** Work under the present status, then assume the one that the command asks for. */
  function Serve(s: Thread, st: Structure, command: Option<Command>, m: RttMoment): Thread
    requires PacketSize(st) == 0 ==> s.control.status == Sampling
  {
    var worked := Work(s, st, m);
    var next := if command.Some? then Switch(s.control.status, command.value) else None;
    if worked.control.ended then worked
    else worked.(control := Become(worked.control, next, m.channels.listenerGone))
  }

  /** One iteration of the loop. */
  function Step(s: Thread, st: Structure, m: RttMoment): Thread
    requires Drainable(s, st)
  {
    if s.control.ended then s
    else
      var c := s.control.(queue := s.control.queue + m.channels.arrivals);
      var gone := m.channels.listenerGone;
      if c.status == Initializing then s.(control := Become(c, Some(Sampling), gone))
      else if c.status == Terminated then
        if m.serverStops then s.(control := c.(ended := true)) else FailWith(s.(control := c), gone)
      else if c.queue == [] && m.channels.disconnected then FailWith(s.(control := c), gone)
      else
        Serve(s.(control := if c.queue != [] then Take(c) else c), st,
              if c.queue != [] then Some(c.queue[0]) else None, m)
  }

  /** The announcements made during set-up. */
  function SetUpInfos(stages: nat, listenerGone: bool): seq<Output<Value>> {
    if listenerGone || stages == 0 then []
    else if stages == 1 then [Notified(Info)]
    else [Notified(Info), Notified(Info)]
  }

  /** The thread before its loop: `stages` of the three set-up stages succeed (connecting,
      synchronising, configuring); the first two are announced. */
  function Begin(stages: nat, listenerGone: bool): Thread {
    var c := Fresh().(outputs := SetUpInfos(stages, listenerGone));
    Thread(if stages >= 3 then c else Fail(c, listenerGone), [], 0, [], [], [])
  }

  // ---- frames ----

  /** Cutting frames of a fixed size, as an instance of the general reading scheme. */
  function FrameCutter(n: nat): Bytes -> Option<Cut<Bytes>> {
    (s: Bytes) => if |s| >= n then Some(Cut(s[..n], n)) else None
  }

  lemma FrameCutterStable(n: nat)
    requires n > 0
    ensures Stable(FrameCutter(n))
  {
    forall s: Bytes, t: Bytes ensures StableAt(FrameCutter(n), s, t) {
      assert |s| >= n ==> (s + t)[..n] == s[..n];
    }
  }

  function FrameBytes(frames: seq<Frame>): seq<Bytes> {
    seq(|frames|, i requires 0 <= i < |frames| => frames[i].bytes)
  }

  /** The samples in the frames that were drained while sampling. */
  function SamplesOf(st: Structure, frames: seq<Frame>): seq<Sample<Value>>
    requires forall f :: f in frames ==> |f.bytes| == PacketSize(st)
  {
    if frames == [] then []
    else
      var last := frames[|frames| - 1];
      var earlier := SamplesOf(st, frames[..|frames| - 1]);
      match SampleOf(st, last.bytes)
      case Some(sample) => if last.sampled then earlier + [sample] else earlier
      case None => earlier
  }

  function Sum(ns: seq<nat>): nat {
    if ns == [] then 0 else Sum(ns[..|ns| - 1]) + ns[|ns| - 1]
  }

  /** What holds between any two iterations: every byte received is in a drained frame or in the
      buffer, frames have the packet size, the samples sent are exactly the decodings of the
      frames drained while sampling, every drained frame has been counted once, and the observer
      has seen nothing against the status protocol: the strict one, unless `late` failures may
      follow the end of the thread. */
  ghost predicate InvariantFor(late: bool, s: Thread, st: Structure) {
    && s.received == Flatten(FrameBytes(s.frames)) + s.buffer
    && (forall f :: f in s.frames ==> |f.bytes| == PacketSize(st))
    && Samples(s.control.outputs) == SamplesOf(st, s.frames)
    && Sum(s.windows) + s.count == |s.frames|
    && Protocol(late, s.control)
  }

  ghost predicate Invariant(s: Thread, st: Structure) {
    InvariantFor(true, s, st)
  }

  lemma FramesOneMore(s: Thread, st: Structure, frame: Frame)
    requires forall f :: f in s.frames ==> |f.bytes| == PacketSize(st)
    requires |frame.bytes| == PacketSize(st) <= |s.buffer| && frame.bytes == s.buffer[..PacketSize(st)]
    ensures var frames := s.frames + [frame];
            && Flatten(FrameBytes(frames)) + s.buffer[PacketSize(st)..] == Flatten(FrameBytes(s.frames)) + s.buffer
            && (forall f :: f in frames ==> |f.bytes| == PacketSize(st))
            && SamplesOf(st, frames) ==
               SamplesOf(st, s.frames) +
               (if frame.sampled && SampleOf(st, frame.bytes).Some? then [SampleOf(st, frame.bytes).value] else [])
  {
    var frames := s.frames + [frame];
    assert frames[..|s.frames|] == s.frames;
    assert FrameBytes(frames)[..|s.frames|] == FrameBytes(s.frames);
    assert s.buffer == frame.bytes + s.buffer[PacketSize(st)..];
    Associative(Flatten(FrameBytes(s.frames)), frame.bytes, s.buffer[PacketSize(st)..]);
  }

  lemma DrainOneKeepsInvariant(late: bool, s: Thread, st: Structure, m: Moment)
    requires InvariantFor(late, s, st) && s.control.status in {Sampling, Paused} && !s.control.ended
    requires |s.buffer| >= PacketSize(st) && (PacketSize(st) == 0 ==> s.control.status == Sampling)
    ensures InvariantFor(late, DrainOne(s, st, m), st)
  {
    var frame := Frame(s.buffer[..PacketSize(st)], s.control.status == Sampling);
    var sample := SampleOf(st, frame.bytes);
    if frame.sampled && (sample.None? || m.samplesGone) {
      FailKeepsProtocol(late, s.control, m.listenerGone);
    } else {
      FramesOneMore(s, st, frame);
      if frame.sampled {
        EmitKeepsProtocol(late, s.control, sample.value);
      }
    }
  }

  lemma {:induction false} DrainKeepsInvariant(late: bool, s: Thread, st: Structure, m: Moment)
    requires InvariantFor(late, s, st) && s.control.status in {Sampling, Paused} && !s.control.ended
    requires PacketSize(st) == 0 ==> s.control.status == Sampling
    ensures var s' := Drain(s, st, m);
            && InvariantFor(late, s', st)
            && (!s'.control.ended ==> |s'.buffer| < PacketSize(st))
            && s'.received == s.received && s'.windows == s.windows
            && s'.control == s.control.(outputs := s'.control.outputs, ended := s'.control.ended)
    decreases |s.buffer|
  {
    if |s.buffer| >= PacketSize(st) {
      DrainOneKeepsInvariant(late, s, st, m);
      var s1 := DrainOne(s, st, m);
      if !s1.control.ended {
        DrainKeepsInvariant(late, s1, st, m);
      }
    }
  }

  lemma WorkKeepsInvariant(late: bool, s: Thread, st: Structure, m: RttMoment)
    requires InvariantFor(late, s, st) && s.control.status in {Sampling, Paused} && !s.control.ended
    requires PacketSize(st) == 0 ==> s.control.status == Sampling
    ensures var s' := Work(s, st, m);
            && InvariantFor(late, s', st)
            && (!s'.control.ended ==> |s'.buffer| < PacketSize(st))
            && s'.control == s.control.(outputs := s'.control.outputs, ended := s'.control.ended)
  {
    if m.read == Received([]) {
      FailKeepsProtocol(late, s.control, m.channels.listenerGone);
    } else {
      var bytes := if m.read.Received? then m.read.bytes else [];
      var fed := s.(buffer := s.buffer + bytes, received := s.received + bytes);
      Associative(Flatten(FrameBytes(s.frames)), s.buffer, bytes);
      DrainKeepsInvariant(late, fed, st, m.channels);
      var drained := Drain(fed, st, m.channels);
      if !drained.control.ended {
        MeasureKeepsInvariant(late, drained, st, m);
      }
    }
  }

  lemma MeasureKeepsInvariant(late: bool, s: Thread, st: Structure, m: RttMoment)
    requires InvariantFor(late, s, st) && s.control.status in {Sampling, Paused} && !s.control.ended
    ensures InvariantFor(late, MeasureRate(s, m), st)
  {
    if m.secondPassed {
      assert (s.windows + [s.count])[..|s.windows|] == s.windows;
      if m.channels.listenerGone {
        assert s.control.outputs + [] == s.control.outputs;
      } else {
        InfoKeepsProtocol(late, s.control);
      }
    }
  }

  /** The same for an iteration that deals with a command, if there is one, and then works. */
  lemma ServeKeepsInvariant(late: bool, s: Thread, st: Structure, command: Option<Command>, m: RttMoment)
    requires InvariantFor(late, s, st) && s.control.status in {Sampling, Paused} && !s.control.ended
    requires PacketSize(st) == 0 ==> s.control.status == Sampling
    ensures var s' := Serve(s, st, command, m);
            && InvariantFor(late, s', st) && Drainable(s', st)
            && (!s'.control.ended ==> |s'.buffer| < PacketSize(st))
  {
    WorkKeepsInvariant(late, s, st, m);
    var worked := Work(s, st, m);
    if !worked.control.ended && command.Some? {
      BecomeKeepsProtocol(late, worked.control, command.value, m.channels.listenerGone);
    }
  }

  /** The thread is to end, the RTT server cannot be stopped, and somebody is there to hear it. */
  predicate ShutdownFails(s: Thread, m: RttMoment) {
    !s.control.ended && s.control.status == Terminated && !m.serverStops && !m.channels.listenerGone
  }

  /** One iteration keeps all of this, and leaves less than one packet in the buffer whenever it
      has drained it. It never makes an empty layout pause, so the drain loop always ends. */
  lemma StepKeepsInvariant(late: bool, s: Thread, st: Structure, m: RttMoment)
    requires InvariantFor(late, s, st) && Drainable(s, st)
    requires late || !ShutdownFails(s, m)
    ensures var s' := Step(s, st, m);
            && InvariantFor(late, s', st) && Drainable(s', st)
            && (s.control.status in {Sampling, Paused} && !s'.control.ended ==> |s'.buffer| < PacketSize(st))
  {
    var c := s.control.(queue := s.control.queue + m.channels.arrivals);
    var gone := m.channels.listenerGone;
    if !c.ended {
      if c.status == Initializing {
        BecomeKeepsProtocol(late, c, Stop, gone);
      } else if c.status == Terminated && (m.serverStops || gone) {
        assert Protocol(late, c.(ended := true));
      } else if c.status == Terminated || (c.queue == [] && m.channels.disconnected) {
        FailKeepsProtocol(late, c, gone);
      } else if c.queue == [] {
        ServeKeepsInvariant(late, s.(control := c), st, None, m);
      } else {
        ServeKeepsInvariant(late, s.(control := Take(c)), st, Some(c.queue[0]), m);
      }
    }
  }

  function Run(s: Thread, st: Structure, ms: seq<RttMoment>): (s': Thread)
    requires Invariant(s, st) && Drainable(s, st)
    ensures Invariant(s', st) && Drainable(s', st)
    decreases |ms|
  {
    if ms == [] then s
    else
      StepKeepsInvariant(true, s, st, ms[0]);
      Run(Step(s, st, ms[0]), st, ms[1..])
  }

  lemma SetUpKeepsProtocol(late: bool, stages: nat, listenerGone: bool)
    ensures var c := Fresh().(outputs := SetUpInfos(stages, listenerGone));
            Protocol(late, c) && Samples(c.outputs) == []
  {
    var c0 := Fresh<Value>();
    var c1 := c0.(outputs := c0.outputs + [Notified(Info)]);
    assert Protocol(late, c0);
    InfoKeepsProtocol(late, c0);
    InfoKeepsProtocol(late, c1);
    assert c0.outputs + [Notified(Info)] == [Notified(Info)];
    assert c1.outputs + [Notified(Info)] == [Notified(Info), Notified(Info)];
  }

  lemma BeginIsInvariant(late: bool, st: Structure, stages: nat, listenerGone: bool)
    ensures InvariantFor(late, Begin(stages, listenerGone), st) && Drainable(Begin(stages, listenerGone), st)
  {
    SetUpKeepsProtocol(late, stages, listenerGone);
    FailKeepsProtocol(late, Fresh().(outputs := SetUpInfos(stages, listenerGone)), listenerGone);
  }

  /** A whole run of the thread. */
  function WholeRun(st: Structure, stages: nat, listenerGone: bool, ms: seq<RttMoment>): (s: Thread)
    ensures Invariant(s, st) && Drainable(s, st)
  {
    BeginIsInvariant(true, st, stages, listenerGone);
    Run(Begin(stages, listenerGone), st, ms)
  }

  // ---- alignment ----

  lemma {:induction false} CutFlattened(pieces: seq<Bytes>, rest: Bytes, n: nat)
    requires n > 0 && |rest| < n && forall p :: p in pieces ==> |p| == n
    ensures CutAll(FrameCutter(n), Flatten(pieces) + rest) == (pieces, rest)
    decreases |pieces|
  {
    if pieces == [] {
      assert [] + rest == rest;
    } else {
      var k := |pieces| - 1;
      var early, last := Flatten(pieces[..k]), pieces[k];
      CutFlattened(pieces[..k], [], n);
      assert early + [] == early;
      CutFrameBehind(pieces[..k], early, last, rest, n);
      Associative(early, last, rest);
      assert pieces == pieces[..k] + [last];
    }
  }

  lemma CutFrameBehind(frames: seq<Bytes>, early: Bytes, last: Bytes, rest: Bytes, n: nat)
    requires n > 0 && |last| == n && |rest| < n && CutAll(FrameCutter(n), early) == (frames, [])
    ensures CutAll(FrameCutter(n), early + (last + rest)) == (frames + [last], rest)
  {
    FrameCutterStable(n);
    CutAllAppend(FrameCutter(n), early, last + rest);
    assert [] + (last + rest) == last + rest;
    CutOneFrame(last, rest, n);
  }

  lemma CutOneFrame(frame: Bytes, rest: Bytes, n: nat)
    requires n > 0 && |frame| == n && |rest| < n
    ensures CutAll(FrameCutter(n), frame + rest) == ([frame], rest)
  {
    assert (frame + rest)[..n] == frame && (frame + rest)[n..] == rest;
    assert CutAll(FrameCutter(n), rest) == ([], rest);
    assert [frame] + [] == [frame];
  }

  /** The drained frames and the buffer are the cut of everything received: nothing that happened
      on the way (pauses, read sizes, timeouts) has any influence on where frames begin. */
  lemma FramesAreTheCut(s: Thread, st: Structure)
    requires Invariant(s, st) && |s.buffer| < PacketSize(st)
    ensures CutAll(FrameCutter(PacketSize(st)), s.received) == (FrameBytes(s.frames), s.buffer)
  {
    CutFlattened(FrameBytes(s.frames), s.buffer, PacketSize(st));
  }

  // ---- whole runs ----

  function ReadBytes(m: RttMoment): Bytes {
    if m.read.Received? then m.read.bytes else []
  }

  /** The bytes that the reads of these iterations bring. */
  function Reads(ms: seq<RttMoment>): Bytes {
    if ms == [] then [] else ReadBytes(ms[0]) + Reads(ms[1..])
  }

  /** The bytes that a whole run is offered: its first iteration does not read. */
  function BytesRead(ms: seq<RttMoment>): Bytes {
    if ms == [] then [] else Reads(ms[1..])
  }

  predicate Working(s: Thread) {
    !s.control.ended && s.control.status in {Sampling, Paused}
  }

  lemma AfterTerminated(s: Thread, st: Structure, ms: seq<RttMoment>)
    requires Invariant(s, st) && Drainable(s, st) && s.control.status == Terminated && ms != []
    ensures Run(s, st, ms).control.ended && Run(s, st, ms).received == s.received
  {
    StepKeepsInvariant(true, s, st, ms[0]);
    if s.control.ended {
      EndedStays(s, st, ms);
    } else {
      EndedStays(Step(s, st, ms[0]), st, ms[1..]);
    }
  }

  /** Either all bytes of the read are taken, which is the case if the thread goes on, or none. */
  ghost predicate Takes(s: Thread, m: RttMoment, s': Thread) {
    && (s'.received == s.received || s'.received == s.received + ReadBytes(m))
    && (!s'.control.ended ==> s'.received == s.received + ReadBytes(m))
  }

  lemma WorkTakes(s: Thread, st: Structure, m: RttMoment)
    requires PacketSize(st) == 0 ==> s.control.status == Sampling
    ensures Takes(s, m, Work(s, st, m)) || s.control.ended
    ensures !Work(s, st, m).control.ended ==> Work(s, st, m).control.status == s.control.status
  {
    var fed := s.(buffer := s.buffer + ReadBytes(m), received := s.received + ReadBytes(m));
    DrainKeepsStatus(fed, st, m.channels);
  }

  lemma {:induction false} DrainKeepsStatus(s: Thread, st: Structure, m: Moment)
    requires PacketSize(st) == 0 ==> s.control.status == Sampling
    ensures Drain(s, st, m).control.status == s.control.status
    decreases |s.buffer|
  {
    if !s.control.ended && |s.buffer| >= PacketSize(st) && !DrainOne(s, st, m).control.ended {
      DrainKeepsStatus(DrainOne(s, st, m), st, m);
    }
  }

  lemma ServeTakes(s: Thread, st: Structure, command: Option<Command>, m: RttMoment)
    requires Working(s) && (PacketSize(st) == 0 ==> s.control.status == Sampling)
    ensures Takes(s, m, Serve(s, st, command, m))
    ensures var s' := Serve(s, st, command, m); s'.control.ended || Working(s') || s'.control.status == Terminated
  {
    hide Work, ReadBytes;
    WorkTakes(s, st, m);
  }

  lemma StepTakes(s: Thread, st: Structure, m: RttMoment)
    requires Invariant(s, st) && Drainable(s, st) && Working(s)
    ensures var s' := Step(s, st, m);
            Takes(s, m, s') && (s'.control.ended || Working(s') || s'.control.status == Terminated)
  {
    hide Serve, ReadBytes;
    var c := s.control.(queue := s.control.queue + m.channels.arrivals);
    if c.queue != [] {
      ServeTakes(s.(control := Take(c)), st, Some(c.queue[0]), m);
    } else {
      ServeTakes(s.(control := c), st, None, m);
    }
  }

  /** What a thread receives is what its reads bring, up to the read, if there is one, on which it
      ends; and as long as it works less than one packet stays in the buffer. */
  lemma {:induction false} RunReceives(s: Thread, st: Structure, ms: seq<RttMoment>)
    requires Invariant(s, st) && Drainable(s, st) && Working(s)
    ensures var s' := Run(s, st, ms);
            && s'.received <= s.received + Reads(ms)
            && (!s'.control.ended ==> s'.received == s.received + Reads(ms))
            && (!s'.control.ended && |s.buffer| < PacketSize(st) ==> |s'.buffer| < PacketSize(st))
    decreases |ms|
  {
    if ms == [] {
      assert s.received + [] == s.received;
    } else {
      var next := Step(s, st, ms[0]);
      StepKeepsInvariant(true, s, st, ms[0]);
      StepTakes(s, st, ms[0]);
      Associative(s.received, ReadBytes(ms[0]), Reads(ms[1..]));
      if next.control.ended {
        EndedStays(next, st, ms[1..]);
      } else if Working(next) {
        RunReceives(next, st, ms[1..]);
      } else if ms[1..] != [] {
        AfterTerminated(next, st, ms[1..]);
      }
    }
  }

  /** The state after the first iteration, or before it. */
  lemma FirstIteration(st: Structure, stages: nat, listenerGone: bool, ms: seq<RttMoment>)
    requires ms != []
    ensures var s := Begin(stages, listenerGone);
            && Invariant(s, st) && Drainable(s, st)
            && var s1 := Step(s, st, ms[0]);
               && Invariant(s1, st) && Drainable(s1, st)
               && (s1.received, s1.buffer, s1.frames) == ([], [], [])
               && (!s1.control.ended ==> s1.control.status == Sampling)
               && s1.control.queue <= ms[0].channels.arrivals
               && WholeRun(st, stages, listenerGone, ms) == Run(s1, st, ms[1..])
  {
    BeginIsInvariant(true, st, stages, listenerGone);
    StepKeepsInvariant(true, Begin(stages, listenerGone), st, ms[0]);
    assert [] + ms[0].channels.arrivals == ms[0].channels.arrivals;
  }

  /** Conservation over whole runs: what has been received is what the reads brought, all of it while
      the thread runs; and what has been received is in drained frames or in the buffer. */
  lemma WholeRunReceives(st: Structure, stages: nat, listenerGone: bool, ms: seq<RttMoment>)
    ensures var s := WholeRun(st, stages, listenerGone, ms);
            && s.received <= BytesRead(ms) && s.received == Flatten(FrameBytes(s.frames)) + s.buffer
            && (!s.control.ended ==> s.received == BytesRead(ms))
            && (!s.control.ended && PacketSize(st) > 0 ==> |s.buffer| < PacketSize(st))
  {
    if ms != [] {
      FirstIteration(st, stages, listenerGone, ms);
      var s1 := Step(Begin(stages, listenerGone), st, ms[0]);
      if s1.control.ended {
        EndedStays(s1, st, ms[1..]);
      } else {
        RunReceives(s1, st, ms[1..]);
        assert [] + Reads(ms[1..]) == Reads(ms[1..]);
      }
    }
  }

  /** Over whole runs frames begin at multiples of the packet size of all bytes read. */
  lemma WholeRunIsTheCut(st: Structure, stages: nat, listenerGone: bool, ms: seq<RttMoment>)
    requires PacketSize(st) > 0 && !WholeRun(st, stages, listenerGone, ms).control.ended
    ensures var s := WholeRun(st, stages, listenerGone, ms);
            CutAll(FrameCutter(PacketSize(st)), BytesRead(ms)) == (FrameBytes(s.frames), s.buffer)
  {
    WholeRunReceives(st, stages, listenerGone, ms);
    FramesAreTheCut(WholeRun(st, stages, listenerGone, ms), st);
  }

  /** A thread that has never paused and has no reason to. */
  ghost predicate NeverPaused(s: Thread) {
    s.control.status != Paused && Pause !in s.control.queue && forall f :: f in s.frames ==> f.sampled
  }

  lemma {:induction false} DrainSamples(s: Thread, st: Structure, m: Moment)
    requires s.control.status == Sampling && forall f :: f in s.frames ==> f.sampled
    ensures var s' := Drain(s, st, m);
            && s'.control.status == Sampling && s'.control.queue == s.control.queue
            && forall f :: f in s'.frames ==> f.sampled
    decreases |s.buffer|
  {
    if !s.control.ended && |s.buffer| >= PacketSize(st) {
      var s1 := DrainOne(s, st, m);
      if !s1.control.ended {
        DrainSamples(s1, st, m);
      }
    }
  }

  lemma ServeNeverPauses(s: Thread, st: Structure, command: Option<Command>, m: RttMoment)
    requires NeverPaused(s) && s.control.status == Sampling && command != Some(Pause)
    ensures NeverPaused(Serve(s, st, command, m))
  {
    var bytes := if m.read.Received? then m.read.bytes else [];
    DrainSamples(s.(buffer := s.buffer + bytes, received := s.received + bytes), st, m.channels);
  }

  lemma StepNeverPauses(s: Thread, st: Structure, m: RttMoment)
    requires Drainable(s, st) && NeverPaused(s) && Pause !in m.channels.arrivals
    ensures NeverPaused(Step(s, st, m))
  {
    var c := s.control.(queue := s.control.queue + m.channels.arrivals);
    if !c.ended && c.status == Sampling && (c.queue != [] || !m.channels.disconnected) {
      if c.queue == [] {
        ServeNeverPauses(s.(control := c), st, None, m);
      } else {
        assert c.queue[0] in c.queue;
        ServeNeverPauses(s.(control := Take(c)), st, Some(c.queue[0]), m);
      }
    }
  }

  lemma {:induction false} RunNeverPauses(s: Thread, st: Structure, ms: seq<RttMoment>)
    requires Invariant(s, st) && Drainable(s, st) && NeverPaused(s) && Pause !in Arrivals(Channels(ms))
    ensures NeverPaused(Run(s, st, ms))
    decreases |ms|
  {
    if ms != [] {
      StepKeepsInvariant(true, s, st, ms[0]);
      StepNeverPauses(s, st, ms[0]);
      RunNeverPauses(Step(s, st, ms[0]), st, ms[1..]);
    }
  }

  /** Without Pause among the commands every frame is sampled. */
  lemma WithoutPauseAllIsSampled(st: Structure, stages: nat, listenerGone: bool, ms: seq<RttMoment>)
    requires Pause !in Arrivals(Channels(ms))
    ensures forall f :: f in WholeRun(st, stages, listenerGone, ms).frames ==> f.sampled
  {
    BeginIsInvariant(true, st, stages, listenerGone);
    RunNeverPauses(Begin(stages, listenerGone), st, ms);
  }

  lemma SampledFramesAgree(s: seq<Frame>, t: seq<Frame>)
    requires FrameBytes(s) == FrameBytes(t) && forall f :: f in s + t ==> f.sampled
    ensures s == t
  {
    assert |FrameBytes(s)| == |s| && |FrameBytes(t)| == |t|;
    forall i | 0 <= i < |s| ensures s[i] == t[i] {
      assert s[i].bytes == FrameBytes(s)[i] && t[i].bytes == FrameBytes(t)[i];
      assert s[i] in s + t && t[i] in s + t;
    }
  }

  /** Two runs that read the same bytes, in whatever pieces, with whatever commands and timeouts, have
      drained the same frames and have the same rest; and if nobody sent Pause to either, they have
      sent the same samples. */
  lemma ReadsAndPausesKeepAlignment(
    st: Structure, stages: nat, listenerGone: bool, ms: seq<RttMoment>,
    stages': nat, listenerGone': bool, ms': seq<RttMoment>)
    requires PacketSize(st) > 0 && BytesRead(ms) == BytesRead(ms')
    requires !WholeRun(st, stages, listenerGone, ms).control.ended
    requires !WholeRun(st, stages', listenerGone', ms').control.ended
    ensures var s, t := WholeRun(st, stages, listenerGone, ms), WholeRun(st, stages', listenerGone', ms');
            && FrameBytes(s.frames) == FrameBytes(t.frames) && s.buffer == t.buffer
            && (Pause !in Arrivals(Channels(ms)) && Pause !in Arrivals(Channels(ms')) ==>
                  Samples(s.control.outputs) == Samples(t.control.outputs))
  {
    WholeRunIsTheCut(st, stages, listenerGone, ms);
    WholeRunIsTheCut(st, stages', listenerGone', ms');
    if Pause !in Arrivals(Channels(ms)) && Pause !in Arrivals(Channels(ms')) {
      WithoutPauseAllIsSampled(st, stages, listenerGone, ms);
      WithoutPauseAllIsSampled(st, stages', listenerGone', ms');
      SampledFramesAgree(WholeRun(st, stages, listenerGone, ms).frames,
                         WholeRun(st, stages', listenerGone', ms').frames);
    }
  }

  /** A layout without a byte has no time either, so its first sampling iteration fails: the drain
      loop, which would never end on it, is left at once. */
  lemma EmptyLayoutFails(s: Thread, st: Structure, m: RttMoment)
    requires Invariant(s, st) && Drainable(s, st) && PacketSize(st) == 0 && s.control.status == Sampling
    ensures Step(s, st, m).control.ended
  {
    StepKeepsInvariant(true, s, st, m);
  }

  /** Every frame of a layout that a channel name can describe decodes, and yields a sample exactly
      when the layout has a time. */
  lemma SampleIffTime(st: Structure, frame: Bytes)
    requires AllKnown(st.fields) && |frame| == PacketSize(st)
    ensures SampleOf(st, frame).Some? <==> st.hasTime
    ensures SampleOf(st, frame).Some? ==> |SampleOf(st, frame).value.values| == |st.fields|
  {
    DecodeIsTotal(st, frame);
  }

  lemma {:induction false} SamplesAreUniform(st: Structure, frames: seq<Frame>)
    requires forall f :: f in frames ==> |f.bytes| == PacketSize(st)
    requires AllKnown(st.fields) && |st.fields| <= 0x1_0000_0000
    ensures forall x :: x in SamplesOf(st, frames) ==> Uniform(x, |st.fields|)
  {
    if frames != [] {
      var last := frames[|frames| - 1];
      SamplesAreUniform(st, frames[..|frames| - 1]);
      SampleIffTime(st, last.bytes);
    }
  }

  /** A log that is strict up to Terminated and then has one more error and one more Terminated. */
  ghost predicate TerminatedTwice(outputs: seq<Output<Value>>) {
    var n := |outputs| - 2;
    && n >= 0
    && Conforms(false, outputs[..n]) && LatestStatus(outputs[..n]) == Some(Terminated)
    && outputs[n..] == [Notified(Error), Notified(NewStatus(Terminated))]
  }

  /** A second Terminated is not in the strict protocol. */
  lemma LateFailureIsNotStrict(outputs: seq<Output<Value>>)
    requires Conforms(false, outputs) && LatestStatus(outputs) == Some(Terminated)
    ensures !Conforms(false, Reported(outputs, false)) && TerminatedTwice(Reported(outputs, false))
  {
    var failure: Output<Value>, end: Output<Value> := Notified(Error), Notified(NewStatus(Terminated));
    assert !Admissible(false, outputs, failure);
    ConformsIff(false, outputs, failure);
    ConformsIff(false, outputs + [failure], end);
    var all := Reported(outputs, false);
    assert all == outputs + [failure] + [end];
    assert all[..|outputs|] == outputs && all[|outputs|..] == [failure, end];
  }

  lemma {:induction false} StrictRunIff(s: Thread, st: Structure, ms: seq<RttMoment>)
    requires InvariantFor(false, s, st) && Invariant(s, st) && Drainable(s, st)
    ensures Protocol(false, Run(s, st, ms).control) <==>
            !exists i :: 0 <= i < |ms| && ShutdownFails(Run(s, st, ms[..i]), ms[i])
    ensures !Protocol(false, Run(s, st, ms).control) ==> TerminatedTwice(Run(s, st, ms).control.outputs)
    decreases |ms|
  {
    if ms != [] {
      StepKeepsInvariant(true, s, st, ms[0]);
      var next := Step(s, st, ms[0]);
      assert ms[..0] == [] && Run(s, st, ms[..0]) == s;
      if ShutdownFails(s, ms[0]) {
        LateFailureIsNotStrict(s.control.outputs);
        EndedStays(next, st, ms[1..]);
      } else {
        StepKeepsInvariant(false, s, st, ms[0]);
        StrictRunIff(next, st, ms[1..]);
        forall i | 0 <= i < |ms| - 1 ensures Run(s, st, ms[..i + 1]) == Run(next, st, ms[1..][..i]) {
          assert ms[..i + 1][1..] == ms[1..][..i];
        }
        LaterFailure(s, st, ms);
      }
    }
  }

  /** Seen from the second iteration, a failing shutdown is one iteration nearer. */
  lemma LaterFailure(s: Thread, st: Structure, ms: seq<RttMoment>)
    requires Invariant(s, st) && Drainable(s, st) && ms != [] && !ShutdownFails(s, ms[0])
    requires Invariant(Step(s, st, ms[0]), st) && Drainable(Step(s, st, ms[0]), st)
    requires forall i :: 0 <= i < |ms| - 1 ==> Run(s, st, ms[..i + 1]) == Run(Step(s, st, ms[0]), st, ms[1..][..i])
    ensures (exists i :: 0 <= i < |ms| && ShutdownFails(Run(s, st, ms[..i]), ms[i])) <==>
            (exists i :: 0 <= i < |ms| - 1 && ShutdownFails(Run(Step(s, st, ms[0]), st, ms[1..][..i]), ms[1..][i]))
  {
    var next := Step(s, st, ms[0]);
    assert Run(s, st, ms[..0]) == s;
    if i :| 0 <= i < |ms| && ShutdownFails(Run(s, st, ms[..i]), ms[i]) {
      assert ms[1..][i - 1] == ms[i] && Run(s, st, ms[..i - 1 + 1]) == Run(next, st, ms[1..][..i - 1]);
    }
    if i :| 0 <= i < |ms| - 1 && ShutdownFails(Run(next, st, ms[1..][..i]), ms[1..][i]) {
      assert ShutdownFails(Run(s, st, ms[..i + 1]), ms[i + 1]);
    }
  }

  /** Whole runs follow the strict status protocol, in which nothing comes after Terminated, exactly
      if no shutdown fails on the way; and otherwise the log exceeds the strict one by exactly one
      error and one repeated Terminated. */
  lemma StrictProtocolIff(st: Structure, stages: nat, listenerGone: bool, ms: seq<RttMoment>)
    ensures var s := WholeRun(st, stages, listenerGone, ms);
            Protocol(false, s.control) <==>
            !exists i :: 0 <= i < |ms| && ShutdownFails(WholeRun(st, stages, listenerGone, ms[..i]), ms[i])
    ensures var s := WholeRun(st, stages, listenerGone, ms);
            !Protocol(false, s.control) ==> TerminatedTwice(s.control.outputs)
  {
    BeginIsInvariant(false, st, stages, listenerGone);
    BeginIsInvariant(true, st, stages, listenerGone);
    var s := Begin(stages, listenerGone);
    StrictRunIff(s, st, ms);
    assert forall i :: 0 <= i < |ms| ==>
        WholeRun(st, stages, listenerGone, ms[..i]) == Run(s, st, ms[..i]);
  }

  const QUIET := RttMoment(Moment([], false, false, false), NothingYet, false, true)

  /** A run that is not strict: Stop is waiting when the loop begins, everything works, and in the end
      the RTT server cannot be stopped. */
  lemma FailedShutdownIsNotStrict(st: Structure)
    requires PacketSize(st) > 0
    ensures var ms := [QUIET.(channels := QUIET.channels.(arrivals := [Stop])), QUIET, QUIET.(serverStops := false)];
            var s := WholeRun(st, 3, false, ms);
            !Protocol(false, s.control) && TerminatedTwice(s.control.outputs)
  {
    var first, last := QUIET.(channels := QUIET.channels.(arrivals := [Stop])), QUIET.(serverStops := false);
    var ms := [first, QUIET, last];
    assert ms[..2] == [first, QUIET];
    StopsInTwo(st, first);
    StrictProtocolIff(st, 3, false, ms);
    assert ShutdownFails(WholeRun(st, 3, false, ms[..2]), ms[2]);
  }

  lemma StopsInTwo(st: Structure, first: RttMoment)
    requires PacketSize(st) > 0 && first == QUIET.(channels := QUIET.channels.(arrivals := [Stop]))
    ensures var s := WholeRun(st, 3, false, [first, QUIET]); s.control.status == Terminated && !s.control.ended
  {
    FirstIteration(st, 3, false, [first, QUIET]);
    TakesStop(Step(Begin(3, false), st, first), st);
    assert [first, QUIET][1..] == [QUIET];
  }

  lemma TakesStop(s: Thread, st: Structure)
    requires Invariant(s, st) && Drainable(s, st) && Working(s) && s.control.status == Sampling
    requires s.control.queue == [Stop] && s.buffer == [] && PacketSize(st) > 0
    ensures Run(s, st, [QUIET]).control.status == Terminated && !Run(s, st, [QUIET]).control.ended
  {
    StepKeepsInvariant(true, s, st, QUIET);
    assert [QUIET][1..] == [] && s.buffer + [] == [] && [Stop] + [] == [Stop];
    assert Work(s.(control := Take(s.control)), st, QUIET).control == Take(s.control);
  }

  // ---- when the thread ends ----

  lemma {:induction false} DrainEndsIff(s: Thread, st: Structure, m: Moment)
    requires AllKnown(st.fields) && !s.control.ended && s.control.status in {Sampling, Paused}
    requires PacketSize(st) == 0 ==> s.control.status == Sampling
    ensures Drain(s, st, m).control.ended <==>
            |s.buffer| >= PacketSize(st) && s.control.status == Sampling && (m.samplesGone || !st.hasTime)
    decreases |s.buffer|
  {
    hide SampleOf;
    if |s.buffer| >= PacketSize(st) {
      SampleIffTime(st, s.buffer[..PacketSize(st)]);
      var s1 := DrainOne(s, st, m);
      if !s1.control.ended {
        DrainEndsIff(s1, st, m);
      }
    }
  }

  lemma WorkEndsIff(s: Thread, st: Structure, m: RttMoment)
    requires AllKnown(st.fields) && Working(s) && (PacketSize(st) == 0 ==> s.control.status == Sampling)
    ensures Work(s, st, m).control.ended <==>
            || m.read == Received([])
            || (s.control.status == Sampling && |s.buffer| + |ReadBytes(m)| >= PacketSize(st) &&
                (m.channels.samplesGone || !st.hasTime))
  {
    DrainEndsIff(s.(buffer := s.buffer + ReadBytes(m), received := s.received + ReadBytes(m)), st, m.channels);
  }

  /** Exactly the iterations with which the thread ends, for every layout that a name can describe. */
  lemma StepEndsIff(s: Thread, st: Structure, m: RttMoment)
    requires Drainable(s, st) && AllKnown(st.fields) && !s.control.ended
    ensures var queue := s.control.queue + m.channels.arrivals;
            Step(s, st, m).control.ended <==>
            match s.control.status {
              case Initializing => m.channels.listenerGone
              case Terminated => true
              case _ =>
                || (queue == [] && m.channels.disconnected)
                || m.read == Received([])
                || (s.control.status == Sampling && |s.buffer| + |ReadBytes(m)| >= PacketSize(st) &&
                    (m.channels.samplesGone || !st.hasTime))
                || (queue != [] && ChangesStatus(s.control.status, queue[0]) && m.channels.listenerGone)
            }
  {
    hide Work, ReadBytes;
    if Working(s) {
      var c := s.control.(queue := s.control.queue + m.channels.arrivals);
      var taken := s.(control := if c.queue != [] then Take(c) else c);
      WorkEndsIff(taken, st, m);
      WorkTakes(taken, st, m);
      if c.queue != [] {
        SwitchIff(s.control.status, c.queue[0]);
      }
    }
  }

  /** Set-up ends the thread unless all three stages succeed; the first two are announced. */
  lemma SetUpEndsIff(stages: nat, listenerGone: bool)
    ensures Begin(stages, listenerGone).control.ended <==> stages < 3
    ensures stages >= 3 && !listenerGone ==>
              Begin(stages, listenerGone).control == Fresh().(outputs := [Notified(Info), Notified(Info)])
  {}

  function Sent(samples: seq<Sample<Value>>): seq<Output<Value>> {
    if samples == [] then [] else Sent(samples[..|samples| - 1]) + [Sampled(samples[|samples| - 1])]
  }

  /** Draining frames adds their samples to the log, one by one, and counts them. */
  lemma {:induction false} DrainSends(s: Thread, st: Structure, m: Moment) returns (added: seq<Frame>)
    requires PacketSize(st) == 0 ==> s.control.status == Sampling
    requires !Drain(s, st, m).control.ended
    ensures forall f :: f in added ==> |f.bytes| == PacketSize(st)
    ensures var s' := Drain(s, st, m);
            && s'.frames == s.frames + added && s'.count == s.count + |added| && s'.windows == s.windows
            && s'.control == s.control.(outputs := s.control.outputs + Sent(SamplesOf(st, added)))
    decreases |s.buffer|
  {
    hide SampleOf;
    added := [];
    if s.control.ended || |s.buffer| < PacketSize(st) {
      assert s.frames + [] == s.frames && s.control.outputs + [] == s.control.outputs;
    } else {
      var s1 := DrainOne(s, st, m);
      var first := s1.frames[|s.frames|];
      var later := DrainSends(s1, st, m);
      added := [first] + later;
      assert s.frames + added == s1.frames + later;
      SentBehind(st, s.control.outputs, first, later);
    }
  }

  lemma SentBehind(st: Structure, outputs: seq<Output<Value>>, first: Frame, later: seq<Frame>)
    requires |first.bytes| == PacketSize(st) && forall f :: f in later ==> |f.bytes| == PacketSize(st)
    ensures var sample := SampleOf(st, first.bytes);
            var now: seq<Output<Value>> := if first.sampled && sample.Some? then [Sampled(sample.value)] else [];
            outputs + now + Sent(SamplesOf(st, later)) == outputs + Sent(SamplesOf(st, [first] + later))
  {
    hide SampleOf, SamplesOf;
    SamplesOfBehind(st, first, later);
    var sample := SampleOf(st, first.bytes);
    var now := if first.sampled && sample.Some? then [sample.value] else [];
    SentAppend(now, SamplesOf(st, later));
    SentOne(now);
    Associative(outputs, Sent(now), Sent(SamplesOf(st, later)));
  }

  lemma SentOne(samples: seq<Sample<Value>>)
    requires |samples| <= 1
    ensures Sent(samples) == if samples == [] then [] else [Sampled(samples[0])]
  {
    assert samples != [] ==> samples[..0] == [];
  }

  lemma {:induction false} SamplesOfBehind(st: Structure, first: Frame, later: seq<Frame>)
    requires |first.bytes| == PacketSize(st) && forall f :: f in later ==> |f.bytes| == PacketSize(st)
    ensures var sample := SampleOf(st, first.bytes);
            SamplesOf(st, [first] + later) ==
            (if first.sampled && sample.Some? then [sample.value] else []) + SamplesOf(st, later)
    decreases |later|
  {
    var all := [first] + later;
    if later == [] {
      assert all[..|all| - 1] == [];
    } else {
      var n := |later| - 1;
      SamplesOfBehind(st, first, later[..n]);
      assert all[..|all| - 1] == [first] + later[..n] && all[|all| - 1] == later[n];
    }
  }

  lemma {:induction false} SentAppend(a: seq<Sample<Value>>, b: seq<Sample<Value>>)
    ensures Sent(a + b) == Sent(a) + Sent(b)
    decreases |b|
  {
    if b == [] {
      assert a + b == a;
    } else {
      assert (a + b)[..|a + b| - 1] == a + b[..|b| - 1];
      SentAppend(a, b[..|b| - 1]);
    }
  }

  /** Everything that an iteration does to the log when the thread goes on: the samples of the frames
      drained, the announcement of the rate if a second has passed, and the new status if there is
      one, in this order. The rate is the number of frames drained since the last one. */
  lemma WorkingStepSends(s: Thread, st: Structure, m: RttMoment) returns (added: seq<Frame>)
    requires Drainable(s, st) && Working(s) && !Step(s, st, m).control.ended
    ensures forall f :: f in added ==> |f.bytes| == PacketSize(st)
    ensures var s', queue := Step(s, st, m), s.control.queue + m.channels.arrivals;
            var info: seq<Output<Value>> :=
              if m.secondPassed && !m.channels.listenerGone then [Notified(Info)] else [];
            var status: seq<Output<Value>> :=
              if queue != [] && ChangesStatus(s.control.status, queue[0]) then [Notified(NewStatus(s'.control.status))]
              else [];
            && s'.frames == s.frames + added
            && s'.control.outputs == s.control.outputs + Sent(SamplesOf(st, added)) + info + status
            && s'.windows == (if m.secondPassed then s.windows + [s.count + |added|] else s.windows)
            && s'.count == (if m.secondPassed then 0 else s.count + |added|)
  {
    hide Work, Serve, SamplesOf, Sent;
    var queue := s.control.queue + m.channels.arrivals;
    var c := s.control.(queue := queue);
    if queue != [] {
      added := ServeSends(s.(control := Take(c)), st, Some(queue[0]), m);
    } else {
      added := ServeSends(s.(control := c), st, None, m);
    }
  }

  lemma ServeSends(s: Thread, st: Structure, command: Option<Command>, m: RttMoment) returns (added: seq<Frame>)
    requires PacketSize(st) == 0 ==> s.control.status == Sampling
    requires Working(s) && !Serve(s, st, command, m).control.ended
    ensures forall f :: f in added ==> |f.bytes| == PacketSize(st)
    ensures var s' := Serve(s, st, command, m);
            var info: seq<Output<Value>> :=
              if m.secondPassed && !m.channels.listenerGone then [Notified(Info)] else [];
            var status: seq<Output<Value>> :=
              if command.Some? && ChangesStatus(s.control.status, command.value) then
                [Notified(NewStatus(s'.control.status))]
              else [];
            && s'.frames == s.frames + added
            && s'.control.outputs == s.control.outputs + Sent(SamplesOf(st, added)) + info + status
            && s'.windows == (if m.secondPassed then s.windows + [s.count + |added|] else s.windows)
            && s'.count == (if m.secondPassed then 0 else s.count + |added|)
  {
    hide Work, SamplesOf, Sent;
    added := WorkSends(s, st, m);
    if command.Some? {
      SwitchIff(s.control.status, command.value);
    }
    var sent := Work(s, st, m).control.outputs;
    assert sent + [] == sent;
  }

  lemma WorkSends(s: Thread, st: Structure, m: RttMoment) returns (added: seq<Frame>)
    requires PacketSize(st) == 0 ==> s.control.status == Sampling
    requires !s.control.ended && !Work(s, st, m).control.ended
    ensures forall f :: f in added ==> |f.bytes| == PacketSize(st)
    ensures var s' := Work(s, st, m);
            var info: seq<Output<Value>> :=
              if m.secondPassed && !m.channels.listenerGone then [Notified(Info)] else [];
            && s'.frames == s.frames + added
            && s'.control == s.control.(outputs := s.control.outputs + Sent(SamplesOf(st, added)) + info)
            && s'.windows == (if m.secondPassed then s.windows + [s.count + |added|] else s.windows)
            && s'.count == (if m.secondPassed then 0 else s.count + |added|)
  {
    hide Drain, SamplesOf, Sent;
    var fed := s.(buffer := s.buffer + ReadBytes(m), received := s.received + ReadBytes(m));
    added := DrainSends(fed, st, m.channels);
    var sent := s.control.outputs + Sent(SamplesOf(st, added));
    assert sent + [] == sent;
  }

  /** The thread runs and has not been told to end. */
  ghost predicate Healthy(s: Thread) {
    !s.control.ended && s.control.status != Terminated && Stop !in s.control.queue
  }

  /** Everything at the other ends is in place, and the stream of the channel goes on. */
  ghost predicate AllAlive(ms: seq<RttMoment>) {
    forall m :: m in ms ==> Alive(m.channels) && m.read != Received([])
  }

  lemma HealthyStep(s: Thread, st: Structure, m: RttMoment)
    requires Invariant(s, st) && Drainable(s, st) && AllKnown(st.fields) && st.hasTime
    requires Healthy(s) && Alive(m.channels) && m.read != Received([])
    ensures Healthy(Step(s, st, m))
  {
    hide Step, Invariant;
    StepEndsIff(s, st, m);
    StepAdvances(s, st, m);
    var queue := s.control.queue + m.channels.arrivals;
    assert queue != [] ==> queue[0] in queue;
  }

  lemma {:induction false} HealthyRunGoesOn(s: Thread, st: Structure, ms: seq<RttMoment>)
    requires Invariant(s, st) && Drainable(s, st) && AllKnown(st.fields) && st.hasTime
    requires Healthy(s) && AllAlive(ms)
    ensures Healthy(Run(s, st, ms))
    decreases |ms|
  {
    if ms != [] {
      HealthyStep(s, st, ms[0]);
      StepKeepsInvariant(true, s, st, ms[0]);
      HealthyRunGoesOn(Step(s, st, ms[0]), st, ms[1..]);
    }
  }

  /** A whole run with a layout that has a time goes on as long as set-up succeeds, the channels are in
      place, the stream goes on, and nobody asks for the end. */
  lemma HealthyWholeRunGoesOn(st: Structure, stages: nat, listenerGone: bool, ms: seq<RttMoment>)
    requires AllKnown(st.fields) && st.hasTime && stages >= 3 && AllAlive(ms)
    ensures !WholeRun(st, stages, listenerGone, ms).control.ended
  {
    BeginIsInvariant(true, st, stages, listenerGone);
    HealthyRunGoesOn(Begin(stages, listenerGone), st, ms);
  }

  // ---- from the target to the observer ----

  // What the target writes: a time and one value per field.
  datatype Record = Record(time: u32, values: seq<Value>)

  ghost predicate Writable(st: Structure, records: seq<Record>) {
    forall r :: r in records ==> AllFit(st.fields, r.values)
  }

  function Frames(st: Structure, records: seq<Record>): (frames: seq<Bytes>)
    requires AllKnown(st.fields) && Writable(st, records)
    ensures |frames| == |records|
    ensures forall k :: 0 <= k < |records| ==> frames[k] == Encode(st, records[k].time, records[k].values)
  {
    seq(|records|, k requires 0 <= k < |records| => Encode(st, records[k].time, records[k].values))
  }

  /** A frame that the target wrote yields its time and its values, numbered in order. */
  lemma SampleOfWritten(st: Structure, r: Record)
    requires AllKnown(st.fields) && AllFit(st.fields, r.values) && st.hasTime
    ensures var sample := SampleOf(st, Encode(st, r.time, r.values));
            && sample.Some? && sample.value.time == r.time && |sample.value.values| == |r.values|
            && forall i :: 0 <= i < |r.values| && i < 0x1_0000_0000 ==> sample.value.values[i] == (i, r.values[i])
  {
    hide Encode, Decode, AllFit;
    var frame := Encode(st, r.time, r.values);
    DecodeInvertsEncode(st, r.time, r.values, []);
    assert frame + [] == frame;
  }

  ghost predicate Carries(sample: Sample<Value>, r: Record) {
    && sample.time == r.time && |sample.values| == |r.values|
    && forall i :: 0 <= i < |r.values| && i < 0x1_0000_0000 ==> sample.values[i] == (i, r.values[i])
  }

  /** The records whose frames were drained while sampling. */
  function Picked(records: seq<Record>, frames: seq<Frame>): seq<Record>
    requires |records| == |frames|
  {
    if records == [] then []
    else
      var n := |records| - 1;
      Picked(records[..n], frames[..n]) + if frames[n].sampled then [records[n]] else []
  }

  lemma {:induction false} PickedFromAll(records: seq<Record>, frames: seq<Frame>)
    requires |records| == |frames| && forall f :: f in frames ==> f.sampled
    ensures Picked(records, frames) == records
  {
    if records != [] {
      var n := |records| - 1;
      PickedFromAll(records[..n], frames[..n]);
      assert frames[n] in frames && records == records[..n] + [records[n]];
    }
  }

  lemma {:induction false} SamplesArePicked(st: Structure, records: seq<Record>, frames: seq<Frame>)
    requires AllKnown(st.fields) && st.hasTime && Writable(st, records) && |records| == |frames|
    requires forall f :: f in frames ==> |f.bytes| == PacketSize(st)
    requires forall k :: 0 <= k < |frames| ==> frames[k].bytes == Encode(st, records[k].time, records[k].values)
    ensures |SamplesOf(st, frames)| == |Picked(records, frames)|
    ensures forall k :: 0 <= k < |Picked(records, frames)| ==>
              Carries(SamplesOf(st, frames)[k], Picked(records, frames)[k])
  {
    if records != [] {
      var n := |records| - 1;
      SamplesArePicked(st, records[..n], frames[..n]);
      assert records[n] in records;
      SampleOfWritten(st, records[n]);
      assert SampleOf(st, frames[n].bytes).Some? && Carries(SampleOf(st, frames[n].bytes).value, records[n]);
      PickedOneMore(st, records, frames, SamplesOf(st, frames[..n]), SampleOf(st, frames[n].bytes).value);
    }
  }

  lemma PickedOneMore(
    st: Structure, records: seq<Record>, frames: seq<Frame>, earlier: seq<Sample<Value>>, last: Sample<Value>)
    requires records != [] && |records| == |frames| && forall f :: f in frames ==> |f.bytes| == PacketSize(st)
    requires var n := |records| - 1;
             && earlier == SamplesOf(st, frames[..n]) && |earlier| == |Picked(records[..n], frames[..n])|
             && (forall k :: 0 <= k < |earlier| ==> Carries(earlier[k], Picked(records[..n], frames[..n])[k]))
             && SampleOf(st, frames[n].bytes) == Some(last) && Carries(last, records[n])
    ensures |SamplesOf(st, frames)| == |Picked(records, frames)|
    ensures forall k :: 0 <= k < |Picked(records, frames)| ==>
              Carries(SamplesOf(st, frames)[k], Picked(records, frames)[k])
  {
    hide SampleOf, Carries;
    var n := |records| - 1;
    assert SamplesOf(st, frames) == if frames[n].sampled then earlier + [last] else earlier;
    assert Picked(records[..n], frames[..n]) + [] == Picked(records[..n], frames[..n]);
  }

  lemma FramesAreRecords(s: Thread, st: Structure, records: seq<Record>)
    requires Invariant(s, st) && |s.buffer| < PacketSize(st)
    requires AllKnown(st.fields) && st.hasTime && Writable(st, records)
    requires s.received == Flatten(Frames(st, records))
    ensures s.buffer == [] && |s.frames| == |records|
    ensures forall k :: 0 <= k < |records| ==>
              s.frames[k].bytes == Encode(st, records[k].time, records[k].values)
  {
    var frames := Frames(st, records);
    FramesAreTheCut(s, st);
    assert forall p :: p in frames ==> |p| == PacketSize(st);
    CutFlattened(frames, [], PacketSize(st));
    assert Flatten(frames) + [] == Flatten(frames);
    assert |s.frames| == |FrameBytes(s.frames)|;
    forall k | 0 <= k < |records|
      ensures s.frames[k].bytes == Encode(st, records[k].time, records[k].values)
    {
      assert s.frames[k].bytes == FrameBytes(s.frames)[k] == frames[k];
    }
  }

  /** End to end, over whole runs: if the bytes read are the records that a target wrote, the samples
      sent are exactly the records whose frames were not drained during a pause: same number, same
      order, same times, and value i under signal i. If nobody sent Pause these are all of them. */
  lemma RecordsArrive(
    st: Structure, stages: nat, listenerGone: bool, ms: seq<RttMoment>, records: seq<Record>)
    requires AllKnown(st.fields) && st.hasTime && Writable(st, records)
    requires !WholeRun(st, stages, listenerGone, ms).control.ended
    requires BytesRead(ms) == Flatten(Frames(st, records))
    ensures var s := WholeRun(st, stages, listenerGone, ms);
            && s.buffer == [] && |s.frames| == |records|
            && var samples, picked := Samples(s.control.outputs), Picked(records, s.frames);
               && |samples| == |picked|
               && (forall k :: 0 <= k < |picked| ==> Carries(samples[k], picked[k]))
               && (Pause !in Arrivals(Channels(ms)) ==> picked == records)
  {
    var s := WholeRun(st, stages, listenerGone, ms);
    WholeRunReceives(st, stages, listenerGone, ms);
    FramesAreRecords(s, st, records);
    SamplesArePicked(st, records, s.frames);
    if Pause !in Arrivals(Channels(ms)) {
      WithoutPauseAllIsSampled(st, stages, listenerGone, ms);
      PickedFromAll(records, s.frames);
    }
  }

  /** So in a run in which nothing goes wrong every record of the target reaches the observer. */
  lemma HealthyRunsDeliver(
    st: Structure, stages: nat, listenerGone: bool, ms: seq<RttMoment>, records: seq<Record>)
    requires AllKnown(st.fields) && st.hasTime && Writable(st, records) && stages >= 3 && AllAlive(ms)
    requires BytesRead(ms) == Flatten(Frames(st, records)) && Pause !in Arrivals(Channels(ms))
    ensures var samples := Samples(WholeRun(st, stages, listenerGone, ms).control.outputs);
            |samples| == |records| && forall k :: 0 <= k < |records| ==> Carries(samples[k], records[k])
  {
    HealthyWholeRunGoesOn(st, stages, listenerGone, ms);
    RecordsArrive(st, stages, listenerGone, ms, records);
  }

  // ---- commands ----

  lemma StepAdvances(s: Thread, st: Structure, m: RttMoment)
    requires Invariant(s, st) && Drainable(s, st)
    ensures Advances(s.control, Step(s, st, m).control, m.channels.arrivals)
  {
    var c := s.control.(queue := s.control.queue + m.channels.arrivals);
    if !c.ended && c.status in {Sampling, Paused} {
      WorkKeepsInvariant(true, s.(control := if c.queue != [] then Take(c) else c), st, m);
    }
  }

  function Channels(ms: seq<RttMoment>): (r: seq<Moment>)
    ensures |r| == |ms|
    ensures ms != [] ==> r[1..] == Channels(ms[1..])
  {
    seq(|ms|, i requires 0 <= i < |ms| => ms[i].channels)
  }

  /** Once the next iteration will find Stop behind `k` commands, the thread leaves its loop within
      `k + 2` iterations (`k + 3` from its very first one). */
  lemma {:induction false} StopIsSwift(s: Thread, st: Structure, ms: seq<RttMoment>)
    requires Invariant(s, st) && Drainable(s, st)
    requires Leaving(Queued(s.control, NextArrivals(Channels(ms))), |ms|)
    ensures Run(s, st, ms).control.ended
    decreases |ms|
  {
    if ms != [] {
      StepKeepsInvariant(true, s, st, ms[0]);
      StepAdvances(s, st, ms[0]);
      var next := Step(s, st, ms[0]);
      AdvanceLeaves(s.control, next.control, ms[0].channels.arrivals, |ms|);
      LaterArrivals(next.control, NextArrivals(Channels(ms[1..])), |ms| - 1);
      StopIsSwift(next, st, ms[1..]);
    }
  }

  /** Stop arrives behind `k` commands while an iteration runs: `stop` joins the thread within
      `k + 3` iterations, counting that one. */
  lemma StopDuringIteration(s: Thread, st: Structure, now: RttMoment, ms: seq<RttMoment>, k: nat)
    requires Invariant(s, st) && Drainable(s, st) && |ms| >= k + 2
    requires StopBehind(Step(s, st, now).control.queue + ms[0].channels.arrivals, k)
    ensures Run(s, st, [now] + ms).control.ended
  {
    StepKeepsInvariant(true, s, st, now);
    StepAdvances(s, st, now);
    assert ([now] + ms)[1..] == ms;
    StopIsSwift(Step(s, st, now), st, ms);
  }

  /** Commands are taken in the order of sending, none is lost or repeated, and the status is the
      one that the commands taken so far ask for. */
  lemma {:induction false} CommandsAreObeyed(s: Thread, st: Structure, ms: seq<RttMoment>)
    requires Invariant(s, st) && Drainable(s, st) && Obedient(s.control)
    ensures var s' := Run(s, st, ms);
            && Obedient(s'.control)
            && (!s'.control.ended ==>
                  s'.control.handled + s'.control.queue ==
                  s.control.handled + s.control.queue + Arrivals(Channels(ms)))
    decreases |ms|
  {
    var before := s.control.handled + s.control.queue;
    if ms == [] {
      assert before + [] == before;
    } else {
      StepKeepsInvariant(true, s, st, ms[0]);
      StepAdvances(s, st, ms[0]);
      var next := Step(s, st, ms[0]);
      AdvanceObeys(s.control, next.control, ms[0].channels.arrivals);
      CommandsAreObeyed(next, st, ms[1..]);
      Associative(before, ms[0].channels.arrivals, Arrivals(Channels(ms[1..])));
      if next.control.ended {
        EndedStays(next, st, ms[1..]);
      }
    }
  }

  lemma {:induction false} EndedStays(s: Thread, st: Structure, ms: seq<RttMoment>)
    requires Invariant(s, st) && Drainable(s, st) && s.control.ended
    ensures Run(s, st, ms) == s
    decreases |ms|
  {
    if ms != [] {
      EndedStays(s, st, ms[1..]);
    }
  }
}
