/** The simulated sampler (src/sampler/fakesampler.rs). */
module FakeSampler {
  import opened Common
  import opened Sampler

  // The value of sine generator `signal` at time `at`; the sine itself is not computed.
  datatype Wave = Wave(signal: u32, at: real)

  /** The state of the thread between two iterations. */
  datatype Thread = Thread(control: Control<Wave>, t: real, activeIds: seq<u32>)

  const START := Thread(Fresh(), 0.0, [])

  /** The sample for time `t`: one value per active signal, in order. */
  function SampleAt(t: real, ids: seq<u32>): (sample: Sample<Wave>)
    requires t >= 0.0
    ensures sample.time as real <= t * 1000000.0 < (sample.time + 1) as real
    ensures |sample.values| == |ids|
    ensures forall i :: 0 <= i < |ids| ==> sample.values[i].0 == ids[i] && sample.values[i].1 == Wave(ids[i], t)
  {
    Sample((t * 1000000.0).Floor, seq(|ids|, i requires 0 <= i < |ids| => (ids[i], Wave(ids[i], t))))
  }

  predicate Available(ids: seq<u32>) {
    forall id :: id in ids ==> id < 3
  }

  /** Nothing to receive while sampling: time moves on by one period. */
  function Tick(s: Thread, period: real, m: Moment): Thread
    requires s.t >= 0.0 && period >= 0.0
  {
    var s' := s.(t := s.t + period);
    if s.activeIds == [] then s'
    else if !Available(s.activeIds) || m.samplesGone then s'.(control := Fail(s.control, m.listenerGone))
    else s'.(control := Emit(s.control, SampleAt(s'.t, s.activeIds)))
  }

  /** A command is waiting: it is all that this iteration deals with. */
  function Obey(s: Thread, listenerGone: bool): Thread
    requires s.control.queue != []
  {
    var command := s.control.queue[0];
    s.(control := Become(Take(s.control), Switch(s.control.status, command), listenerGone),
       activeIds := if command.SetActive? then command.ids else s.activeIds)
  }

  /** One iteration of the loop. A paused thread with nothing to receive just waits. */
  function Step(s: Thread, period: real, m: Moment): (s': Thread)
    requires s.t >= 0.0 && period >= 0.0
    ensures s'.t >= 0.0
  {
    if s.control.ended then s
    else
      var c := s.control.(queue := s.control.queue + m.arrivals);
      if c.status == Initializing then s.(control := Become(c, Some(Sampling), m.listenerGone))
      else if c.status == Terminated then s.(control := c.(ended := true))
      else if c.queue != [] then Obey(s.(control := c), m.listenerGone)
      else if m.disconnected then s.(control := Fail(c, m.listenerGone))
      else if c.status == Sampling then Tick(s.(control := c), period, m)
      else s.(control := c)
  }

  function Run(s: Thread, period: real, ms: seq<Moment>): (s': Thread)
    requires s.t >= 0.0 && period >= 0.0
    ensures s'.t >= 0.0
    decreases |ms|
  {
    if ms == [] then s else Run(Step(s, period, ms[0]), period, ms[1..])
  }

  /** When an iteration sends a sample: no command is waiting, and nothing stands in the way. */
  predicate Due(s: Thread, m: Moment) {
    && !s.control.ended && s.control.status == Sampling
    && s.control.queue + m.arrivals == [] && !m.disconnected
    && s.activeIds != [] && Available(s.activeIds) && !m.samplesGone
  }

  /** The samples that an iteration adds: none, or the one for the next time and the active
      signals. */
  ghost predicate Adds(s: Thread, period: real, due: bool, s': Thread)
    requires s.t >= 0.0 && period >= 0.0
  {
    var before, after := Samples(s.control.outputs), Samples(s'.control.outputs);
    && (due ==> s'.t == s.t + period && after == before + [SampleAt(s'.t, s.activeIds)] && !s'.control.ended)
    && (!due ==> s'.t >= s.t && after == before)
  }

  lemma TickKeepsProtocol(s: Thread, period: real, m: Moment)
    requires s.t >= 0.0 && period >= 0.0 && Protocol(false, s.control)
    requires !s.control.ended && s.control.status == Sampling
    ensures Protocol(false, Tick(s, period, m).control)
    ensures Adds(s, period, s.activeIds != [] && Available(s.activeIds) && !m.samplesGone, Tick(s, period, m))
  {
    var s' := Tick(s, period, m);
    if s.activeIds != [] {
      if !Available(s.activeIds) || m.samplesGone {
        FailKeepsProtocol(false, s.control, m.listenerGone);
      } else {
        var sample := SampleAt(s'.t, s.activeIds);
        EmitKeepsProtocol(false, s.control, sample);
        assert s'.control == Emit(s.control, sample);
      }
    }
  }

  /** One iteration keeps the status protocol, and sends one sample when it is due, and otherwise
      none. */
  lemma StepKeepsProtocol(s: Thread, period: real, m: Moment)
    requires s.t >= 0.0 && period >= 0.0 && Protocol(false, s.control)
    ensures Protocol(false, Step(s, period, m).control) && Adds(s, period, Due(s, m), Step(s, period, m))
  {
    var c := s.control.(queue := s.control.queue + m.arrivals);
    if !c.ended && c.status != Terminated {
      if c.status == Initializing {
        BecomeKeepsProtocol(false, c, Stop, m.listenerGone);
      } else if c.queue != [] {
        BecomeKeepsProtocol(false, Take(c), c.queue[0], m.listenerGone);
      } else {
        FailKeepsProtocol(false, c, m.listenerGone);
        if c.status == Sampling && !m.disconnected {
          TickKeepsProtocol(s.(control := c), period, m);
        }
      }
    }
  }

  /** Exactly the iterations with which the thread ends. */
  lemma StepEndsIff(s: Thread, period: real, m: Moment)
    requires s.t >= 0.0 && period >= 0.0 && !s.control.ended
    ensures var queue := s.control.queue + m.arrivals;
            Step(s, period, m).control.ended <==>
            match s.control.status {
              case Initializing => m.listenerGone
              case Terminated => true
              case _ =>
                if queue != [] then ChangesStatus(s.control.status, queue[0]) && m.listenerGone
                else
                  || m.disconnected
                  || (s.control.status == Sampling && s.activeIds != [] &&
                      (m.samplesGone || exists id :: id in s.activeIds && id >= 3))
            }
  {
    hide SampleAt;
    var queue := s.control.queue + m.arrivals;
    if queue != [] {
      SwitchIff(s.control.status, queue[0]);
    }
  }

  /** Exactly how time goes on: by one period in every sampling iteration without a command, whether
      or not any signal is active. */
  lemma TimeGoesOn(s: Thread, period: real, m: Moment)
    requires s.t >= 0.0 && period >= 0.0
    ensures var sampling := !s.control.ended && s.control.status == Sampling
                            && s.control.queue + m.arrivals == [] && !m.disconnected;
            Step(s, period, m).t == s.t + if sampling then period else 0.0
  {}

  /** The thread runs, has not been told to end, and was only given signals that there are. */
  ghost predicate Healthy(s: Thread) {
    && !s.control.ended && s.control.status != Terminated
    && Stop !in s.control.queue && Available(s.activeIds) && Choosable(s.control.queue)
  }

  ghost predicate Choosable(commands: seq<Command>) {
    forall c :: c in commands && c.SetActive? ==> Available(c.ids)
  }

  ghost predicate AllAlive(ms: seq<Moment>) {
    forall m :: m in ms ==> Alive(m) && Choosable(m.arrivals)
  }

  lemma HealthyStep(s: Thread, period: real, m: Moment)
    requires s.t >= 0.0 && period >= 0.0 && Healthy(s) && Alive(m) && Choosable(m.arrivals)
    ensures Healthy(Step(s, period, m))
  {
    StepEndsIff(s, period, m);
    StepAdvances(s, period, m);
    var queue := s.control.queue + m.arrivals;
    assert forall c :: c in queue ==> c in s.control.queue || c in m.arrivals;
    assert queue != [] ==> queue[0] in queue;
  }

  /** As long as the channels are in place, nobody asks for the end and only the signals 0, 1 and 2 are
      chosen, the thread goes on. */
  lemma {:induction false} HealthyRunGoesOn(s: Thread, period: real, ms: seq<Moment>)
    requires s.t >= 0.0 && period >= 0.0 && Healthy(s) && AllAlive(ms)
    ensures Healthy(Run(s, period, ms))
    decreases |ms|
  {
    if ms != [] {
      HealthyStep(s, period, ms[0]);
      HealthyRunGoesOn(Step(s, period, ms[0]), period, ms[1..]);
    }
  }

  lemma StepAdvances(s: Thread, period: real, m: Moment)
    requires s.t >= 0.0 && period >= 0.0
    ensures Advances(s.control, Step(s, period, m).control, m.arrivals)
  {}

  /** Every run follows the status protocol. */
  lemma {:induction false} RunFollowsProtocol(s: Thread, period: real, ms: seq<Moment>)
    requires s.t >= 0.0 && period >= 0.0 && Protocol(false, s.control)
    ensures Protocol(false, Run(s, period, ms).control)
    decreases |ms|
  {
    if ms != [] {
      StepKeepsProtocol(s, period, ms[0]);
      RunFollowsProtocol(Step(s, period, ms[0]), period, ms[1..]);
    }
  }

  /** Commands are taken in the order of sending, none is lost or repeated, and the status and
      the active signals are those that the commands taken so far ask for. */
  ghost predicate Follows(s: Thread) {
    Obedient(s.control) && (!s.control.ended ==> s.activeIds == AfterCommands(s.control.handled).1)
  }

  lemma {:induction false} CommandsAreObeyed(s: Thread, period: real, ms: seq<Moment>)
    requires s.t >= 0.0 && period >= 0.0 && Follows(s)
    ensures var s' := Run(s, period, ms);
            && Follows(s')
            && (!s'.control.ended ==>
                  s'.control.handled + s'.control.queue ==
                  s.control.handled + s.control.queue + Arrivals(ms))
    decreases |ms|
  {
    var before := s.control.handled + s.control.queue;
    if ms == [] {
      assert before + [] == before;
    } else {
      var next := Step(s, period, ms[0]);
      StepAdvances(s, period, ms[0]);
      AdvanceObeys(s.control, next.control, ms[0].arrivals);
      var queue := s.control.queue + ms[0].arrivals;
      if queue != [] {
        AfterOneMore(s.control.handled, queue[0]);
      }
      CommandsAreObeyed(next, period, ms[1..]);
      Associative(before, ms[0].arrivals, Arrivals(ms[1..]));
      if next.control.ended {
        EndedStays(next, period, ms[1..]);
      }
    }
  }

  lemma {:induction false} EndedStays(s: Thread, period: real, ms: seq<Moment>)
    requires s.t >= 0.0 && period >= 0.0 && s.control.ended
    ensures Run(s, period, ms) == s
    decreases |ms|
  {
    if ms != [] {
      EndedStays(s, period, ms[1..]);
    }
  }

  /** Once the next iteration will find Stop behind `k` commands no further sample is sent, and the
      thread leaves its loop within `k + 2` iterations (`k + 3` if it has not begun sampling). */
  lemma {:induction false} StopIsSwift(s: Thread, period: real, ms: seq<Moment>, n: nat)
    requires s.t >= 0.0 && period >= 0.0 && Protocol(false, s.control)
    requires Leaving(Queued(s.control, NextArrivals(ms)), n)
    ensures var s' := Run(s, period, ms);
            && Samples(s'.control.outputs) == Samples(s.control.outputs)
            && (|ms| >= n ==> s'.control.ended)
    decreases |ms|
  {
    if s.control.ended {
      EndedStays(s, period, ms);
    } else if ms != [] {
      var next := Step(s, period, ms[0]);
      StepKeepsProtocol(s, period, ms[0]);
      StepAdvances(s, period, ms[0]);
      AdvanceLeaves(s.control, next.control, ms[0].arrivals, n);
      LaterArrivals(next.control, NextArrivals(ms[1..]), n - 1);
      StopIsSwift(next, period, ms[1..], n - 1);
    }
  }

  /** Whatever the thread is doing when Stop arrives behind `k` commands: only the sample of the
      iteration in progress is still sent, if one is due in it, and `stop` joins the thread within
      `k + 3` iterations, counting that one. */
  lemma StopDuringIteration(s: Thread, period: real, now: Moment, ms: seq<Moment>, k: nat)
    requires s.t >= 0.0 && period >= 0.0 && Protocol(false, s.control)
    requires ms != [] && StopBehind(Step(s, period, now).control.queue + ms[0].arrivals, k)
    ensures var s' := Run(s, period, [now] + ms);
            && Samples(s'.control.outputs) ==
               Samples(s.control.outputs) + (if Due(s, now) then [SampleAt(s.t + period, s.activeIds)] else [])
            && (|ms| >= k + 2 ==> s'.control.ended)
  {
    var next := Step(s, period, now);
    StepKeepsProtocol(s, period, now);
    StepAdvances(s, period, now);
    assert ([now] + ms)[1..] == ms;
    StopArrives(next.control, ms[0].arrivals, k);
    StopIsSwift(next, period, ms, k + 2);
  }

  /** Sample times never decrease: the buffers this sampler fills are sorted by time. */
  ghost predicate Ordered(samples: seq<Sample<Wave>>, t: real) {
    && (forall i :: 0 <= i < |samples| ==> samples[i].time <= (t * 1000000.0).Floor)
    && (forall i, j :: 0 <= i < j < |samples| ==> samples[i].time <= samples[j].time)
  }

  lemma {:induction false} SampleTimesNeverDecrease(s: Thread, period: real, ms: seq<Moment>)
    requires s.t >= 0.0 && period >= 0.0 && Protocol(false, s.control)
    requires Ordered(Samples(s.control.outputs), s.t)
    ensures var s' := Run(s, period, ms); Ordered(Samples(s'.control.outputs), s'.t)
    decreases |ms|
  {
    if ms != [] {
      var next := Step(s, period, ms[0]);
      StepKeepsProtocol(s, period, ms[0]);
      assert (s.t * 1000000.0).Floor <= (next.t * 1000000.0).Floor;
      SampleTimesNeverDecrease(next, period, ms[1..]);
    }
  }

  class FakeSamplerThread {
    const period: real
    var status: Status
    var t: real
    var activeIds: seq<u32>
    var queue: seq<Command>
    var ended: bool
    var outputs: seq<Output<Wave>>
    ghost var handled: seq<Command>

    ghost predicate Valid()
      reads this
    {
      t >= 0.0 && period >= 0.0
    }

    ghost function State(): Thread
      reads this
    {
      Thread(Control(status, queue, handled, outputs, ended), t, activeIds)
    }

    constructor (period: real)
      requires period >= 0.0
      ensures Valid() && State() == START && this.period == period
    {
      this.period := period;
      status, t, activeIds, queue, ended, outputs := Initializing, 0.0, [], [], false, [];
      handled := [];
    }

    method Iterate(m: Moment)
      requires Valid() && !ended
      modifies this
      ensures Valid() && State() == Step(old(State()), period, m)
    {
      queue := queue + m.arrivals;
      var newStatus: Option<Status> := None;
      match status {
        case Initializing =>
          newStatus := Some(Sampling);
        case Terminated =>
          ended := true;
        case Sampling =>
          if queue != [] {
            newStatus := TakeCommand();
          } else if m.disconnected {
            ReportFailure(m.listenerGone);
          } else {
            t := t + period;
            if activeIds != [] {
              if !Available(activeIds) || m.samplesGone {
                ReportFailure(m.listenerGone);
              } else {
                outputs := outputs + [Sampled(SampleAt(t, activeIds))];
              }
            }
          }
        case Paused =>
          if queue != [] {
            newStatus := TakeCommand();
          } else if m.disconnected {
            ReportFailure(m.listenerGone);
          }
      }
      if newStatus.Some? {
        if m.listenerGone {
          ReportFailure(true);
        } else {
          outputs := outputs + [Notified(NewStatus(newStatus.value))];
          status := newStatus.value;
        }
      }
    }

    method TakeCommand() returns (next: Option<Status>)
      requires queue != []
      modifies this`queue, this`handled, this`activeIds
      ensures next == Switch(status, old(queue)[0])
      ensures State() ==
              old(State()).(control := Take(old(State()).control),
                            activeIds := if old(queue)[0].SetActive? then old(queue)[0].ids else old(activeIds))
    {
      var command := queue[0];
      queue := queue[1..];
      handled := handled + [command];
      if command.SetActive? {
        activeIds := command.ids;
      }
      next := Switch(status, command);
    }

    method ReportFailure(listenerGone: bool)
      modifies this`ended, this`outputs
      ensures State() == old(State()).(control := Fail(old(State()).control, listenerGone))
    {
      outputs := Reported(outputs, listenerGone);
      ended := true;
    }

    /** The thread: one iteration per moment until the loop is left. */
    method Loop(ms: seq<Moment>)
      requires Valid()
      modifies this
      ensures Valid() && State() == Run(old(State()), period, ms)
    {
      var i := 0;
      while i < |ms| && !ended
        invariant 0 <= i <= |ms| && Valid()
        invariant Run(State(), period, ms[i..]) == Run(old(State()), period, ms)
      {
        Iterate(ms[i]);
        i := i + 1;
      }
      if ended {
        EndedStays(State(), period, ms[i..]);
      }
    }
  }
}
