/** The memory sampler's thread as a program (src/sampler/memsampler.rs): its fields, its loops and
    the GDB client it drives, proved to do what module MemSampler specifies. */
module MemThread {
  import opened Common
  import opened GdbPacket
  import opened GdbRemote
  import opened MemReply
  import opened MemSampler
  import opened Sampler

  lemma ContinuedOnce(samples: seq<(u32, nat)>, requestedAt: Option<Stamp>, receivedAt: Option<Stamp>,
                      addresses: seq<u32>, c: Client)
    requires Consistent(c) && addresses != []
    ensures var one, whole := ReadOne(addresses[0], c), Collect(addresses, c);
            match one.result {
              case Err(error) => whole.result == Err(error) && whole.gdb == one.gdb
              case Ok(v) =>
                Continued(samples, requestedAt, receivedAt, whole) ==
                Continued(samples + [(addresses[0], v)],
                          if requestedAt.Some? then requestedAt else one.requestedAt,
                          if receivedAt.Some? then receivedAt else one.receivedAt,
                          Collect(addresses[1..], one.gdb))
            }
  {
    var one := ReadOne(addresses[0], c);
    if one.result.Ok? {
      var more := Collect(addresses[1..], one.gdb).result;
      if more.Ok? {
        Associative(samples, [(addresses[0], one.result.value)], more.value);
      }
    }
  }

  class MemSamplerThread {
    const gdb: GDBRemote
    const start: Stamp
    var status: Status
    var activeMemoryAddresses: seq<u32>
    var queue: seq<Command>
    var ended: bool
    var outputs: seq<Output<nat>>
    ghost var handled: seq<Command>

    ghost predicate Valid()
      reads this, gdb
    {
      gdb.Valid()
    }

    ghost function State(): Thread
      reads this, gdb
    {
      Thread(Control(status, queue, handled, outputs, ended), activeMemoryAddresses, gdb.State())
    }

    constructor (gdb: GDBRemote, start: Stamp)
      requires gdb.Valid()
      ensures Valid() && this.gdb == gdb && this.start == start
      ensures State() == Thread(Fresh(), [], gdb.State())
    {
      this.gdb, this.start := gdb, start;
      status, activeMemoryAddresses, queue, ended, outputs := Initializing, [], [], false, [];
      handled := [];
    }

    method ReportFailure(listenerGone: bool)
      modifies this`ended, this`outputs
      ensures ended && outputs == Reported(old(outputs), listenerGone)
    {
      outputs := Reported(outputs, listenerGone);
      ended := true;
    }

    method ExpectResponse(expected: Response) returns (ok: bool)
      requires Valid()
      modifies gdb
      ensures Valid()
      ensures var (r, c) := NextResponse(old(gdb.State()));
              gdb.State() == c && ok == (r.Ok? && r.value.0 == expected)
    {
      var r := gdb.ReadResponse();
      ok := r.Ok? && r.value.0 == expected;
    }

    method ShakeHands() returns (ready: bool)
      requires Valid()
      modifies gdb
      ensures Valid()
      ensures (ready, gdb.State()) == Handshake(old(gdb.State()))
    {
      ready := ExpectResponse(ACK);
      if !ready {
        return;
      }
      var sent := gdb.SendPacket(NO_ACK_MODE);
      if sent.Err? {
        return false;
      }
      ready := ExpectResponse(ACK);
      if ready {
        ready := ExpectResponse(Packet(OK));
      }
    }

    method BeginSession(listenerGone: bool)
      requires Valid() && State().control == Fresh() && activeMemoryAddresses == []
      modifies this, gdb
      ensures Valid()
      ensures State() == Begin(old(gdb.State()), listenerGone)
    {
      var ready := ShakeHands();
      if !ready {
        ReportFailure(listenerGone);
      }
    }

    method AwaitReading() returns (r: Result<nat, GdbError>, receivedAt: Option<Stamp>)
      requires Valid()
      modifies gdb
      ensures Valid()
      ensures (r, receivedAt, gdb.State()) == AwaitReply(old(gdb.State()))
    {
      receivedAt := None;
      while true
        invariant Valid()
        invariant var (v, at, c) := AwaitReply(gdb.State());
                  (v, if receivedAt.Some? then receivedAt else at, c) == AwaitReply(old(gdb.State()))
        decreases |gdb.stream|, |gdb.dataBuffer|
      {
        var response := gdb.ReadResponse();
        match response {
          case Err(error) =>
            return Err(error), receivedAt;
          case Ok((answer, rxTimestamp)) =>
            if receivedAt.None? {
              receivedAt := Some(rxTimestamp);
            }
            var value := Reading(answer);
            if value.Some? {
              return Ok(value.value), receivedAt;
            }
        }
      }
    }

    method ReadAddress(address: u32)
      returns (r: Result<nat, GdbError>, requestedAt: Option<Stamp>, receivedAt: Option<Stamp>)
      requires Valid()
      modifies gdb
      ensures Valid()
      ensures Sweep(r, requestedAt, receivedAt, gdb.State()) == ReadOne(address, old(gdb.State()))
    {
      var txTimestamp := gdb.SendPacket(ReadRequest(address));
      match txTimestamp {
        case Err(error) =>
          return Err(error), None, None;
        case Ok(stamp) =>
          requestedAt := Some(stamp);
      }
      r, receivedAt := AwaitReading();
    }

    /** Request every active address and wait for each answer before the next request. */
    method CollectActive()
      returns (r: Result<seq<(u32, nat)>, GdbError>, requestedAt: Option<Stamp>, receivedAt: Option<Stamp>)
      requires Valid()
      modifies gdb
      ensures Valid()
      ensures var sweep := Collect(activeMemoryAddresses, old(gdb.State()));
              && gdb.State() == sweep.gdb && r == sweep.result
              && (r.Ok? ==> requestedAt == sweep.requestedAt && receivedAt == sweep.receivedAt)
    {
      hide ReadOne, Consistent;
      var samples: seq<(u32, nat)> := [];
      requestedAt, receivedAt := None, None;
      ghost var whole := Collect(activeMemoryAddresses, gdb.State());
      assert whole.result.Ok? ==> [] + whole.result.value == whole.result.value;
      var remaining := activeMemoryAddresses;
      while remaining != []
        invariant Valid()
        invariant Continued(samples, requestedAt, receivedAt, Collect(remaining, gdb.State())) == whole
        decreases |remaining|
      {
        ContinuedOnce(samples, requestedAt, receivedAt, remaining, gdb.State());
        var value, txTimestamp, rxTimestamp := ReadAddress(remaining[0]);
        if value.Err? {
          return Err(value.error), requestedAt, receivedAt;
        }
        requestedAt := if requestedAt.Some? then requestedAt else txTimestamp;
        receivedAt := if receivedAt.Some? then receivedAt else rxTimestamp;
        samples := samples + [(remaining[0], value.value)];
        remaining := remaining[1..];
      }
      assert samples + [] == samples;
      r := Ok(samples);
    }

    method SampleActive(m: Moment)
      requires Valid() && !ended
      modifies this`outputs, this`ended, gdb
      ensures Valid()
      ensures State() == TakeSample(old(State()), start, m)
    {
      var samples, requestedAt, receivedAt := CollectActive();
      if samples.Err? {
        ReportFailure(m.listenerGone);
      } else if |samples.value| > 0 {
        if m.samplesGone {
          ReportFailure(m.listenerGone);
        } else {
          var time := SampleTime(start, requestedAt.value, receivedAt.value);
          outputs := outputs + [Sampled(Sample(time, samples.value))];
        }
      }
    }

    method Iterate(m: Moment)
      requires Valid() && !ended
      modifies this, gdb
      ensures Valid()
      ensures State() == Step(old(State()), start, m)
    {
      queue := queue + m.arrivals;
      var newStatus: Option<Status> := None;
      match status {
        case Initializing =>
          var sent := gdb.SendPacket(CONTINUE);
          if sent.Err? {
            ReportFailure(m.listenerGone);
            return;
          }
          newStatus := Some(Sampling);
        case Sampling =>
          if queue == [] && m.disconnected {
            ReportFailure(m.listenerGone);
            return;
          }
          newStatus := TakeCommand();
          SampleActive(m);
          if ended {
            return;
          }
        case Paused =>
          if queue == [] && m.disconnected {
            ReportFailure(m.listenerGone);
            return;
          }
          newStatus := TakeCommand();
        case Terminated =>
          ended := true;
      }
      if newStatus.Some? {
        if m.listenerGone {
          ReportFailure(true);
        } else {
          outputs := outputs + [Notified(NewStatus(newStatus.value))];
          status := newStatus.value;
        }
      }
    }

    /** Take the command at the head of the queue, if there is one. */
    method TakeCommand() returns (next: Option<Status>)
      modifies this`queue, this`handled, this`activeMemoryAddresses
      ensures old(queue) == [] ==> next == None && State() == old(State())
      ensures old(queue) != [] ==>
                && next == Switch(status, old(queue)[0])
                && State() ==
                   old(State()).(control := Take(old(State()).control),
                                 active := if old(queue)[0].SetActive? then old(queue)[0].ids
                                           else old(activeMemoryAddresses))
    {
      if queue == [] {
        return None;
      }
      var command := queue[0];
      queue := queue[1..];
      handled := handled + [command];
      if command.SetActive? {
        activeMemoryAddresses := command.ids;
      }
      next := Switch(status, command);
    }

    /** The loop: one iteration per moment until it is left. */
    method Loop(ms: seq<Moment>)
      requires Valid()
      modifies this, gdb
      ensures Valid() && State() == Run(old(State()), start, ms)
    {
      var i := 0;
      while i < |ms| && !ended
        invariant 0 <= i <= |ms| && Valid()
        invariant Run(State(), start, ms[i..]) == Run(old(State()), start, ms)
      {
        Iterate(ms[i]);
        i := i + 1;
      }
      if ended {
        EndedStays(State(), start, ms[i..]);
      }
    }

    /** `sampler_thread` from the handshake on. */
    method RunSession(listenerGone: bool, ms: seq<Moment>)
      requires Valid() && State().control == Fresh() && activeMemoryAddresses == []
      modifies this, gdb
      ensures Valid() && State() == Run(Begin(old(gdb.State()), listenerGone), start, ms)
    {
      BeginSession(listenerGone);
      Loop(ms);
    }
  }
}
