/** The RTT sampler's thread as a program (src/sampler/rttsampler.rs): its fields and its loops,
    proved to do what module RttSampler specifies. */
module RttThread {
  import opened Common
  import opened RttPacket
  import opened RttSampler
  import opened Sampler

  class RttSamplerThread {
    const structure: Structure
    var status: Status
    var queue: seq<Command>
    var ended: bool
    var outputs: seq<Output<Value>>
    var buffer: Bytes
    var samplesReceived: nat
    ghost var handled: seq<Command>
    ghost var received: Bytes
    ghost var frames: seq<Frame>
    ghost var windows: seq<nat>

    ghost function State(): Thread
      reads this
    {
      Thread(Control(status, queue, handled, outputs, ended), buffer, samplesReceived, received, frames, windows)
    }

    ghost predicate Valid()
      reads this
    {
      Invariant(State(), structure) && Drainable(State(), structure)
    }

    constructor (structure: Structure, stages: nat, listenerGone: bool)
      ensures Valid() && State() == Begin(stages, listenerGone) && this.structure == structure
    {
      this.structure := structure;
      var infos := SetUpInfos(stages, listenerGone);
      status, queue, buffer, samplesReceived := Initializing, [], [], 0;
      handled, received, frames, windows := [], [], [], [];
      ended := stages < 3;
      outputs := if stages >= 3 then infos else Reported(infos, listenerGone);
      new;
      BeginIsInvariant(true, structure, stages, listenerGone);
    }

    method ReportFailure(listenerGone: bool)
      modifies this`ended, this`outputs
      ensures State() == FailWith(old(State()), listenerGone)
    {
      outputs := Reported(outputs, listenerGone);
      ended := true;
    }

    /** The `while buffer.len() >= packet_size` loop; false when the thread fails in it. */
    method DrainBuffer(m: Moment) returns (ok: bool)
      requires !ended && (PacketSize(structure) == 0 ==> status == Sampling)
      modifies this
      ensures State() == Drain(old(State()), structure, m) && ok == !ended
    {
      hide SampleOf, Reported, PacketSize;
      var packetSize := PacketSize(structure);
      while |buffer| >= packetSize
        invariant !ended && status == old(status)
        invariant Drain(State(), structure, m) == Drain(old(State()), structure, m)
        decreases |buffer|
      {
        ghost var before := State();
        var toDecode := buffer[..packetSize];
        if status == Sampling {
          var sample := SampleOf(structure, toDecode);
          if sample.None? || m.samplesGone {
            ReportFailure(m.listenerGone);
            return false;
          }
          outputs := outputs + [Sampled(sample.value)];
        }
        samplesReceived := samplesReceived + 1;
        frames := frames + [Frame(toDecode, status == Sampling)];
        buffer := buffer[packetSize..];
        assert State() == DrainOne(before, structure, m);
      }
      ok := true;
    }

    /** Read from the channel, drain the buffer, close the rate measurement if a second passed. */
    method ReadAndDrain(m: RttMoment) returns (ok: bool)
      requires !ended && (PacketSize(structure) == 0 ==> status == Sampling)
      modifies this
      ensures State() == Work(old(State()), structure, m) && ok == !ended
    {
      match m.read {
        case Received(bytes) =>
          if |bytes| == 0 {
            ReportFailure(m.channels.listenerGone);
            return false;
          }
          buffer := buffer + bytes;
          received := received + bytes;
        case NothingYet =>
          assert buffer + [] == buffer && received + [] == received;
        case ReadError =>
          assert buffer + [] == buffer && received + [] == received;
      }
      ok := DrainBuffer(m.channels);
      if ok && m.secondPassed {
        if !m.channels.listenerGone {
          outputs := outputs + [Notified(Info)];
        } else {
          assert outputs + [] == outputs;
        }
        windows := windows + [samplesReceived];
        samplesReceived := 0;
      }
    }

    method Iterate(m: RttMoment)
      requires Drainable(State(), structure) && !ended
      modifies this
      ensures State() == Step(old(State()), structure, m)
    {
      queue := queue + m.channels.arrivals;
      var newStatus: Option<Status> := None;
      match status {
        case Initializing =>
          newStatus := Some(Sampling);
        case Terminated =>
          if m.serverStops {
            ended := true;
          } else {
            ReportFailure(m.channels.listenerGone);
          }
        case _ =>
          if queue != [] {
            newStatus := Switch(status, queue[0]);
            handled := handled + [queue[0]];
            queue := queue[1..];
          } else if m.channels.disconnected {
            ReportFailure(m.channels.listenerGone);
            return;
          }
          var ok := ReadAndDrain(m);
          if !ok {
            return;
          }
      }
      if newStatus.Some? {
        if m.channels.listenerGone {
          ReportFailure(true);
        } else {
          outputs := outputs + [Notified(NewStatus(newStatus.value))];
          status := newStatus.value;
        }
      }
    }

    method Loop(ms: seq<RttMoment>)
      requires Valid()
      modifies this
      ensures Valid() && State() == Run(old(State()), structure, ms)
    {
      var i := 0;
      while i < |ms| && !ended
        invariant 0 <= i <= |ms| && Valid()
        invariant Run(State(), structure, ms[i..]) == Run(old(State()), structure, ms)
      {
        StepKeepsInvariant(true, State(), structure, ms[i]);
        Iterate(ms[i]);
        i := i + 1;
      }
      if ended {
        EndedStays(State(), structure, ms[i..]);
      }
    }
  }
}
