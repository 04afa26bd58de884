/** When nothing goes wrong the memory sampler goes on: from what an iteration meets to whole sessions
    (src/sampler/memsampler.rs). */
module MemHealth {
  import opened Common
  import opened GdbPacket
  import opened GdbRemote
  import opened MemReply
  import opened Reassembly
  import opened MemSampler
  import opened MemServer
  import opened ReadHistory
  import opened Sampler

  /** What the next iterations need: `n` requests that can be sent, and as many readings. */
  ghost predicate Supplied(c: Client, n: nat) {
    FaultFree(c.inbox) && Sendable(c.clock, n) && n <= |Readings(Upcoming(c))|
  }

  ghost predicate Running(s: Thread) {
    !s.control.ended && s.control.status in {Sampling, Paused} && Stop !in s.control.queue
  }

  lemma HealthyStep(s: Thread, start: Stamp, m: Moment)
    requires Consistent(s.gdb) && Running(s) && Alive(m) && Supplied(s.gdb, Used(s, m))
    ensures Running(Step(s, start, m))
    ensures FaultFree(Step(s, start, m).gdb.inbox) && Step(s, start, m).gdb.clock == s.gdb.clock[Used(s, m)..]
    ensures |Readings(Upcoming(Step(s, start, m).gdb))| == |Readings(Upcoming(s.gdb))| - Used(s, m)
  {
    hide Collect, Readings, Upcoming, Step, StepEvents, FaultFree;
    StepEndsIff(s, start, m);
    var added := StepSends(s, start, m);
    StepAdvances(s, start, m);
    var queue := s.control.queue + m.arrivals;
    assert queue != [] ==> queue[0] in queue;
    assert s.gdb.clock[0..] == s.gdb.clock;
    SweepSucceedsIff(ActiveIn(s, m), s.gdb);
  }

  /** How many requests a run sends if all of them are answered. */
  function Demand(s: Thread, start: Stamp, ms: seq<Moment>): nat
    requires Consistent(s.gdb)
    decreases |ms|
  {
    if ms == [] then 0 else Used(s, ms[0]) + Demand(Step(s, start, ms[0]), start, ms[1..])
  }

  ghost predicate AllAlive(ms: seq<Moment>) {
    forall m :: m in ms ==> Alive(m)
  }

  lemma SuppliedLater(c: Client, n: nat, later: nat, c': Client)
    requires Supplied(c, n + later) && FaultFree(c'.inbox) && c'.clock == c.clock[n..]
    requires |Readings(Upcoming(c'))| == |Readings(Upcoming(c))| - n
    ensures Supplied(c, n) && Supplied(c', later)
  {
    hide Readings, Upcoming;
    forall i | 0 <= i < later ensures c'.clock[i].Some? {
      assert c'.clock[i] == c.clock[n + i];
    }
  }

  /** As long as the channels are in place, nobody asks for the end, requests can be sent and the
      server sends as many readings as it is asked for, the thread goes on. */
  lemma {:induction false} HealthyRunGoesOn(s: Thread, start: Stamp, ms: seq<Moment>)
    requires Consistent(s.gdb) && Running(s) && AllAlive(ms) && Supplied(s.gdb, Demand(s, start, ms))
    ensures Running(Run(s, start, ms))
    decreases |ms|
  {
    if ms != [] {
      hide Supplied, Step, Readings, Upcoming;
      var next := Step(s, start, ms[0]);
      assert ms[0] in ms && Demand(s, start, ms) == Used(s, ms[0]) + Demand(next, start, ms[1..]);
      SuppliedFirst(s.gdb, Used(s, ms[0]), Demand(next, start, ms[1..]));
      HealthyStep(s, start, ms[0]);
      SuppliedLater(s.gdb, Used(s, ms[0]), Demand(next, start, ms[1..]), next.gdb);
      HealthyRunGoesOn(next, start, ms[1..]);
    }
  }

  lemma SuppliedFirst(c: Client, n: nat, later: nat)
    requires Supplied(c, n + later)
    ensures Supplied(c, n)
  {}

  /** A whole session, from the handshake: it reaches the loop and goes on in it, sends its values in
      order, and for every request there is an answer. */
  lemma HealthySessionGoesOn(
    script: seq<Response>, inbox: seq<Incoming>, clock: seq<Option<Stamp>>, start: Stamp, listenerGone: bool,
    ms: seq<Moment>, begin: Thread)
    requires Provides(inbox, script) && FaultFree(inbox) && AllAlive(ms) && ms != []
    requires begin == Begin(Connected(inbox, clock), listenerGone)
    requires Demand(begin, start, ms) <= |Readings(script)| && Sendable(clock, 2 + Demand(begin, start, ms))
    ensures Running(WholeRun(inbox, clock, start, listenerGone, ms))
    ensures TakenInOrder(WholeRun(inbox, clock, start, listenerGone, ms), script)
  {
    hide Begin, Step, Readings, Upcoming, Provides, TakenInOrder, Running, FaultFree, AllAlive, Demand;
    HealthyHandshake(script, inbox, clock, listenerGone);
    HealthyLoopGoesOn(begin, start, ms, clock);
    ReadingsAreTakenInOrder(script, inbox, clock, start, listenerGone, ms);
  }

  lemma HealthyLoopGoesOn(s: Thread, start: Stamp, ms: seq<Moment>, clock: seq<Option<Stamp>>)
    requires Consistent(s.gdb) && s.control == Fresh() && AllAlive(ms) && ms != [] && FaultFree(s.gdb.inbox)
    requires Demand(s, start, ms) <= |Readings(Upcoming(s.gdb))|
    requires Sendable(clock, 2 + Demand(s, start, ms)) && s.gdb.clock == clock[1..]
    ensures Running(Run(s, start, ms))
  {
    hide Readings, Upcoming, Step, Running;
    var s1, demand := Step(s, start, ms[0]), Demand(s, start, ms);
    assert ms[0] in ms && s.gdb.clock[0] == clock[1];
    HealthyFirstStep(s, start, ms[0]);
    assert Used(s, ms[0]) == 0 && demand == Demand(s1, start, ms[1..]);
    forall i | 0 <= i < demand ensures s1.gdb.clock[i].Some? {
      assert s1.gdb.clock[i] == clock[2 + i];
    }
    HealthyRunGoesOn(s1, start, ms[1..]);
  }

  lemma HealthyHandshake(
    script: seq<Response>, inbox: seq<Incoming>, clock: seq<Option<Stamp>>, listenerGone: bool)
    requires Provides(inbox, script) && FaultFree(inbox) && clock != [] && clock[0].Some?
    ensures var s := Begin(Connected(inbox, clock), listenerGone);
            && s.control == Fresh() && FaultFree(s.gdb.inbox) && Upcoming(s.gdb) == script && s.gdb.clock == clock[1..]
  {
    var c := Connected(inbox, clock);
    var responses := [ACK, ACK, Packet(OK)] + script;
    CutAllEncoded(responses, []);
    assert [] + AllBytes(inbox) == EncodeAll(responses) + [] && responses + [] == responses;
    HandshakeSucceeds(c, script);
  }

  lemma HealthyFirstStep(s: Thread, start: Stamp, m: Moment)
    requires Consistent(s.gdb) && s.control == Fresh() && Alive(m) && s.gdb.clock != [] && s.gdb.clock[0].Some?
    ensures var s1 := Step(s, start, m);
            && Running(s1) && s1.gdb.inbox == s.gdb.inbox && s1.gdb.clock == s.gdb.clock[1..]
            && Upcoming(s1.gdb) == Upcoming(s.gdb)
  {}
}
