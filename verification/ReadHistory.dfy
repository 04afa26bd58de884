/** The sampler thread as one side of the system in module ReadProtocol: what the thread does on a
    connection to a server that answers every request once is a possible history of that system
    (src/sampler/memsampler.rs). */
module ReadHistory {
  import opened Common
  import opened GdbPacket
  import opened GdbRemote
  import opened MemReply
  import opened MemSampler
  import opened MemServer
  import opened ReadProtocol
  import opened Sampler

  function Floats(memories: seq<Bytes>): (r: seq<nat>)
    requires forall m :: m in memories ==> |m| == 4
    ensures |r| == |memories|
  {
    seq(|memories|, i requires 0 <= i < |memories| => FloatBits(memories[i]))
  }

  /** The readings on the connection are the answers of a server that has read `memories`. */
  ghost predicate Answered(c: Client, memories: seq<Bytes>) {
    (forall m :: m in memories ==> |m| == 4) && Readings(Upcoming(c)) == Floats(memories)
  }

  function Packets(addresses: seq<u32>): seq<Bytes> {
    seq(|addresses|, i requires 0 <= i < |addresses| => BuildPacket(ReadRequest(addresses[i])))
  }

  /** The requests of the system are, behind what was sent before, the packets that the client sent. */
  ghost predicate Mirrors(w: World, before: seq<Bytes>, c: Client) {
    c.sent == before + Packets(w.asked)
  }

  function First(memories: seq<Bytes>): Bytes {
    if memories == [] then [] else memories[0]
  }

  function Behind(memories: seq<Bytes>, n: nat): seq<Bytes> {
    if n <= |memories| then memories[n..] else []
  }

  // ---- the events of one sweep ----

  /** What happens while the sampler waits: every response is sent and received, and a reading is the
      answer. */
  function AwaitEvents(c: Client, memory: Bytes): seq<Event>
    requires Consistent(c)
    decreases |c.inbox|, |c.buffer|
  {
    var (r, c') := NextResponse(c);
    match r
    case Err(_) => []
    case Ok((response, _)) =>
      if Reading(response).Some? then [Answer(memory), Receive]
      else [Chatter(response), Receive] + AwaitEvents(c', memory)
  }

  function SweepEvents(addresses: seq<u32>, c: Client, memories: seq<Bytes>): seq<Event>
    requires Consistent(c)
    decreases |addresses|
  {
    if addresses == [] || Transmit(c, ReadRequest(addresses[0])).0.Err? then []
    else
      var one := ReadOne(addresses[0], c);
      ReadOneEvents(addresses[0], c, memories) +
      if one.result.Ok? then SweepEvents(addresses[1..], one.gdb, Behind(memories, 1)) else []
  }

  lemma {:induction false} HistoryAppend(w: World, a: seq<Event>, b: seq<Event>)
    requires Possible(w, a) && Possible(After(w, a), b)
    ensures Possible(w, a + b) && After(w, a + b) == After(After(w, a), b)
    decreases |a|
  {
    if a == [] {
      assert a + b == b;
    } else {
      RestOfConcat(a, b);
      HistoryAppend(Happen(w, a[0]), a[1..], b);
    }
  }

  lemma TwoEvents(w: World, a: Event, b: Event)
    requires Enabled(w, a) && Enabled(Happen(w, a), b)
    ensures Possible(w, [a, b]) && After(w, [a, b]) == Happen(Happen(w, a), b)
  {
    assert [a, b][1..] == [b];
    OneEvent(Happen(w, a), b);
  }

  lemma OneEvent(w: World, e: Event)
    requires Enabled(w, e)
    ensures Possible(w, [e]) && After(w, [e]) == Happen(w, e)
  {
    assert [e][1..] == [];
  }

  /** One request is outstanding, and nothing is on its way. */
  ghost predicate Waiting(w: World) {
    w.awaiting && w.wire == [] && Asked(w).Some? && w.unanswered == [Asked(w).value]
  }

  /** Nothing is outstanding, and `rest` of the round is still to be asked for. */
  ghost predicate Ready(w: World, rest: seq<u32>) {
    && !w.awaiting && w.wire == [] && w.unanswered == []
    && |w.round.samples| <= |w.round.addresses| && w.round.addresses[|w.round.samples|..] == rest
  }

  /** The answer has come in. */
  function Got(w: World, v: nat): World
    requires Asked(w).Some?
  {
    var pair := (Asked(w).value, v);
    var r := w.round.(samples := w.round.samples + [pair], origins := w.round.origins + [Some(pair)]);
    w.(awaiting := false, unanswered := [], round := r,
       completed := if |r.samples| == |r.addresses| then w.completed + [r] else w.completed)
  }

  lemma AnswerComes(w: World, memory: Bytes)
    requires Waiting(w) && |memory| == 4
    ensures Possible(w, [Answer(memory), Receive])
    ensures After(w, [Answer(memory), Receive]) == Got(w, FloatBits(memory))
  {
    ReplyYieldsMemory(memory);
    TwoEvents(w, Answer(memory), Receive);
  }

  lemma ChatterComes(w: World, response: Response)
    requires Waiting(w) && Reading(response).None?
    ensures Possible(w, [Chatter(response), Receive]) && After(w, [Chatter(response), Receive]) == w
  {
    TwoEvents(w, Chatter(response), Receive);
    assert [Item(response, None)][1..] == [];
  }

  lemma AnsweredNext(c: Client, memories: seq<Bytes>)
    requires Consistent(c) && Answered(c, memories) && AwaitReply(c).0.Ok?
    ensures memories != [] && AwaitReply(c).0.value == FloatBits(memories[0])
    ensures Answered(AwaitReply(c).2, memories[1..])
  {
    hide AwaitReply, Readings, Upcoming;
    AwaitTakesFirstReading(c);
    assert Floats(memories)[0] == AwaitReply(c).0.value;
    assert Floats(memories[1..]) == Floats(memories)[1..];
  }

  lemma {:induction false} AwaitProjects(w: World, c: Client, memories: seq<Bytes>)
    requires Consistent(c) && Answered(c, memories) && Waiting(w)
    ensures Possible(w, AwaitEvents(c, First(memories)))
    ensures var r, w' := AwaitReply(c).0, After(w, AwaitEvents(c, First(memories)));
            if r.Ok? then w' == Got(w, r.value) else w' == w
    decreases |c.inbox|, |c.buffer|
  {
    var (r, c') := NextResponse(c);
    if r.Ok? {
      var response := r.value.0;
      if Reading(response).Some? {
        AnsweredNext(c, memories);
        AnswerComes(w, memories[0]);
      } else {
        NextTakesFirst(c);
        ReadingsAppend([response], Upcoming(c'));
        assert Readings([response]) == [] && [] + Readings(Upcoming(c')) == Readings(Upcoming(c'));
        AwaitProjects(w, c', memories);
        ChatterComes(w, response);
        HistoryAppend(w, [Chatter(response), Receive], AwaitEvents(c', First(memories)));
      }
    }
  }

  lemma RequestProjects(rest: seq<u32>, w: World, before: seq<Bytes>, c: Client)
    requires Ready(w, rest) && rest != [] && Mirrors(w, before, c) && Transmit(c, ReadRequest(rest[0])).0.Ok?
    ensures Enabled(w, Request)
    ensures var w' := Happen(w, Request);
            && Waiting(w') && Asked(w') == Some(rest[0]) && w'.round == w.round && w'.completed == w.completed
            && Mirrors(w', before, Transmit(c, ReadRequest(rest[0])).1)
  {
    var packet := BuildPacket(ReadRequest(rest[0]));
    var w' := Happen(w, Request);
    assert rest[0] == w.round.addresses[|w.round.samples|];
    assert Packets(w'.asked) == Packets(w.asked) + [packet];
    Associative(before, Packets(w.asked), [packet]);
  }

  /** The state after one address has been read. */
  ghost predicate ReadsOn(rest: seq<u32>, w: World, v: nat, w': World)
    requires rest != []
  {
    && Ready(w', rest[1..]) && w'.round.addresses == w.round.addresses
    && w'.round.samples == w.round.samples + [(rest[0], v)]
    && w'.completed == w.completed + if |rest| == 1 then [w'.round] else []
  }

  lemma GotReadsOn(rest: seq<u32>, w: World, w1: World, v: nat)
    requires Ready(w, rest) && rest != [] && Waiting(w1) && Asked(w1) == Some(rest[0])
    requires w1.round == w.round && w1.completed == w.completed
    ensures ReadsOn(rest, w, v, Got(w1, v))
  {
    assert |rest| == |w.round.addresses| - |w.round.samples|;
    assert w.round.addresses[|w.round.samples| + 1..] == rest[1..];
    assert w.completed + [] == w.completed;
  }

  function ReadOneEvents(address: u32, c: Client, memories: seq<Bytes>): seq<Event>
    requires Consistent(c)
  {
    [Request] + AwaitEvents(Transmit(c, ReadRequest(address)).1, First(memories))
  }

  /** Reading one address: a request, and then what happens until its answer comes. */
  lemma ReadOneProjects(rest: seq<u32>, w: World, before: seq<Bytes>, c: Client, memories: seq<Bytes>)
    requires Consistent(c) && Answered(c, memories) && Ready(w, rest) && rest != [] && Mirrors(w, before, c)
    requires Transmit(c, ReadRequest(rest[0])).0.Ok?
    ensures Possible(w, ReadOneEvents(rest[0], c, memories))
    ensures var w', one := After(w, ReadOneEvents(rest[0], c, memories)), ReadOne(rest[0], c);
            && Mirrors(w', before, one.gdb)
            && if one.result.Ok? then
                 memories != [] && Answered(one.gdb, memories[1..]) && ReadsOn(rest, w, one.result.value, w')
               else w'.completed == w.completed
  {
    var c1 := Transmit(c, ReadRequest(rest[0])).1;
    var w1 := Happen(w, Request);
    RequestProjects(rest, w, before, c);
    OneEvent(w, Request);
    AwaitProjects(w1, c1, memories);
    HistoryAppend(w, [Request], AwaitEvents(c1, First(memories)));
    if AwaitReply(c1).0.Ok? {
      AnsweredNext(c1, memories);
      GotReadsOn(rest, w, w1, AwaitReply(c1).0.value);
    }
  }

  /** What a sweep amounts to in the system: the requests are those sent, and when it completes, so
      does the round, with the same samples. */
  ghost predicate Swept(w: World, addresses: seq<u32>, sweep: Sweep<seq<(u32, nat)>>, w': World) {
    if sweep.result.Err? then w'.completed == w.completed
    else
      && Ready(w', []) && w'.round.addresses == w.round.addresses
      && w'.round.samples == w.round.samples + sweep.result.value
      && (addresses == [] ==> w'.round == w.round)
      && w'.completed == w.completed + if addresses == [] then [] else [w'.round]
  }

  ghost predicate Matches(
    w: World, rest: seq<u32>, before: seq<Bytes>, memories: seq<Bytes>, sweep: Sweep<seq<(u32, nat)>>, w': World)
    requires Consistent(sweep.gdb)
  {
    && Swept(w, rest, sweep, w') && Mirrors(w', before, sweep.gdb)
    && (sweep.result.Ok? ==> Answered(sweep.gdb, Behind(memories, |rest|)))
  }

  /** A sweep is a possible history of the system: its requests are the packets sent, every response
      is received once, and the round completes exactly as the sweep does. */
  lemma {:induction false} SweepProjects(
    rest: seq<u32>, w: World, before: seq<Bytes>, c: Client, memories: seq<Bytes>)
    requires Consistent(c) && Answered(c, memories) && Ready(w, rest) && Mirrors(w, before, c)
    ensures Possible(w, SweepEvents(rest, c, memories))
    ensures Matches(w, rest, before, memories, Collect(rest, c), After(w, SweepEvents(rest, c, memories)))
    decreases |rest|
  {
    hide Possible, After, Swept, Mirrors, Answered; // the cases are dealt with in the lemmas below
    if rest == [] {
      SweepOfNothing(w, before, c, memories);
    } else if Transmit(c, ReadRequest(rest[0])).0.Err? {
      SweepCannotAsk(rest, w, before, c, memories);
    } else {
      var one := ReadOne(rest[0], c);
      ReadOneProjects(rest, w, before, c, memories);
      if one.result.Ok? {
        SweepProjects(rest[1..], After(w, ReadOneEvents(rest[0], c, memories)), before, one.gdb, Behind(memories, 1));
        SweepGoesOn(rest, w, before, c, memories, SweepEvents(rest[1..], one.gdb, Behind(memories, 1)));
      } else {
        SweepBreaksOff(rest, w, before, c, memories);
      }
    }
  }

  lemma SweepOfNothing(w: World, before: seq<Bytes>, c: Client, memories: seq<Bytes>)
    requires Consistent(c) && Answered(c, memories) && Ready(w, []) && Mirrors(w, before, c)
    ensures Possible(w, SweepEvents([], c, memories))
    ensures Matches(w, [], before, memories, Collect([], c), After(w, SweepEvents([], c, memories)))
  {
    assert w.round.samples + [] == w.round.samples && w.completed + [] == w.completed;
    assert Behind(memories, 0) == memories;
  }

  lemma SweepCannotAsk(rest: seq<u32>, w: World, before: seq<Bytes>, c: Client, memories: seq<Bytes>)
    requires Consistent(c) && rest != [] && Mirrors(w, before, c) && Transmit(c, ReadRequest(rest[0])).0.Err?
    ensures Possible(w, SweepEvents(rest, c, memories))
    ensures Matches(w, rest, before, memories, Collect(rest, c), After(w, SweepEvents(rest, c, memories)))
  {}

  lemma SweepBreaksOff(rest: seq<u32>, w: World, before: seq<Bytes>, c: Client, memories: seq<Bytes>)
    requires Consistent(c) && rest != [] && ReadOne(rest[0], c).result.Err? && Transmit(c, ReadRequest(rest[0])).0.Ok?
    requires Possible(w, ReadOneEvents(rest[0], c, memories))
    requires var w' := After(w, ReadOneEvents(rest[0], c, memories));
             Mirrors(w', before, ReadOne(rest[0], c).gdb) && w'.completed == w.completed
    ensures Possible(w, SweepEvents(rest, c, memories))
    ensures Matches(w, rest, before, memories, Collect(rest, c), After(w, SweepEvents(rest, c, memories)))
  {
    var events := ReadOneEvents(rest[0], c, memories);
    assert SweepEvents(rest, c, memories) == events + [] == events;
  }

  lemma SweepGoesOn(
    rest: seq<u32>, w: World, before: seq<Bytes>, c: Client, memories: seq<Bytes>, later: seq<Event>)
    requires Consistent(c) && rest != [] && ReadOne(rest[0], c).result.Ok?
    requires Possible(w, ReadOneEvents(rest[0], c, memories))
    requires var one, w1 := ReadOne(rest[0], c), After(w, ReadOneEvents(rest[0], c, memories));
             && ReadsOn(rest, w, one.result.value, w1) && Possible(w1, later)
             && Matches(w1, rest[1..], before, Behind(memories, 1), Collect(rest[1..], one.gdb), After(w1, later))
    ensures var events := ReadOneEvents(rest[0], c, memories) + later;
            Possible(w, events) && Matches(w, rest, before, memories, Collect(rest, c), After(w, events))
  {
    hide Possible, After, Answered, Mirrors, Collect, Swept, ReadsOn, ReadOneEvents, ReadOne;
    var one, events := ReadOne(rest[0], c), ReadOneEvents(rest[0], c, memories);
    var w1 := After(w, events);
    HistoryAppend(w, events, later);
    SweptOn(rest, w, one.result.value, w1, Collect(rest[1..], one.gdb), After(w1, later), c);
    assert Behind(Behind(memories, 1), |rest| - 1) == Behind(memories, |rest|);
  }

  lemma SweptOn(rest: seq<u32>, w: World, v: nat, w1: World, later: Sweep<seq<(u32, nat)>>, w2: World, c: Client)
    requires Consistent(c) && rest != [] && ReadOne(rest[0], c).result == Ok(v)
    requires later == Collect(rest[1..], ReadOne(rest[0], c).gdb)
    requires ReadsOn(rest, w, v, w1) && Swept(w1, rest[1..], later, w2)
    ensures Swept(w, rest, Collect(rest, c), w2)
    ensures Collect(rest, c).gdb == later.gdb && (Collect(rest, c).result.Ok? <==> later.result.Ok?)
  {
    if later.result.Ok? {
      Associative(w.round.samples, [(rest[0], v)], later.result.value);
      if |rest| == 1 {
        assert later.result.value == [] && w1.round.samples + [] == w1.round.samples;
      }
      assert w1.completed + [] == w1.completed && w.completed + [] == w.completed;
    }
  }

  // ---- the events of a run ----

  /** The addresses that an iteration sweeps over, if it samples. */
  function SweptAddresses(s: Thread, m: Moment): Option<seq<u32>> {
    var queue := s.control.queue + m.arrivals;
    if s.control.ended || s.control.status != Sampling || (queue == [] && m.disconnected) then None
    else Some(ActiveIn(s, m))
  }

  function StepEvents(s: Thread, m: Moment, memories: seq<Bytes>): seq<Event>
    requires Consistent(s.gdb)
  {
    match SweptAddresses(s, m)
    case None => []
    case Some(addresses) => [StartRound(addresses)] + SweepEvents(addresses, s.gdb, memories)
  }

  function Used(s: Thread, m: Moment): nat {
    match SweptAddresses(s, m)
    case None => 0
    case Some(addresses) => |addresses|
  }

  function RunEvents(s: Thread, start: Stamp, ms: seq<Moment>, memories: seq<Bytes>): seq<Event>
    requires Consistent(s.gdb)
    decreases |ms|
  {
    if ms == [] then []
    else
      StepEvents(s, ms[0], memories) +
      RunEvents(Step(s, start, ms[0]), start, ms[1..], Behind(memories, Used(s, ms[0])))
  }

  lemma BecomeSendsNothing(c: Control<nat>, next: Option<Status>, listenerGone: bool)
    ensures Samples(Become(c, next, listenerGone).outputs) == Samples(c.outputs)
  {
    if next.Some? {
      OneMoreSample(c.outputs, Notified(NewStatus(next.value)));
    }
  }

  /** What an iteration that samples sends: the outcome of its sweep, if that completes. */
  ghost predicate Sends(addresses: seq<u32>, c: Client, added: seq<Sample<nat>>, s': Thread)
    requires Consistent(c)
  {
    var sweep := Collect(addresses, c);
    && s'.gdb == sweep.gdb && |added| <= (if addresses == [] then 0 else 1)
    && (added != [] ==> sweep.result.Ok? && added[0].values == sweep.result.value)
    && (!s'.control.ended ==> sweep.result.Ok? && (addresses != [] ==> added != []))
  }

  lemma TakeSampleSends(s: Thread, start: Stamp, m: Moment) returns (added: seq<Sample<nat>>)
    requires Consistent(s.gdb)
    ensures var s' := TakeSample(s, start, m);
            && Samples(s'.control.outputs) == Samples(s.control.outputs) + added
            && Sends(s.active, s.gdb, added, s')
  {
    var sweep := Collect(s.active, s.gdb);
    added := [];
    assert Samples(s.control.outputs) + [] == Samples(s.control.outputs);
    if sweep.result.Err? || m.samplesGone {
      SamplesOfFailure(s.control.outputs, m.listenerGone);
    } else if s.active != [] {
      var sample := Sample(SampleTime(start, sweep.requestedAt.value, sweep.receivedAt.value), sweep.result.value);
      OneMoreSample(s.control.outputs, Sampled(sample));
      added := [sample];
    }
  }

  lemma StepSends(s: Thread, start: Stamp, m: Moment) returns (added: seq<Sample<nat>>)
    requires Consistent(s.gdb) && s.control.status != Initializing
    ensures var s' := Step(s, start, m);
            && Samples(s'.control.outputs) == Samples(s.control.outputs) + added
            && (!s'.control.ended ==> s'.control.status != Initializing)
            && match SweptAddresses(s, m) {
                 case None => s'.gdb == s.gdb && added == []
                 case Some(addresses) => Sends(addresses, s.gdb, added, s')
               }
  {
    match SweptAddresses(s, m)
    case None =>
      StepSendsNothing(s, start, m);
      added := [];
    case Some(addresses) =>
      var c := s.control.(queue := s.control.queue + m.arrivals);
      var taken := if c.queue != [] then Take(c) else c;
      var next := if c.queue != [] then Switch(c.status, c.queue[0]) else None;
      added := WorkSends(Thread(taken, addresses, s.gdb), next, start, m);
  }

  lemma StepSendsNothing(s: Thread, start: Stamp, m: Moment)
    requires Consistent(s.gdb) && s.control.status != Initializing && SweptAddresses(s, m).None?
    ensures var s' := Step(s, start, m);
            && Samples(s'.control.outputs) == Samples(s.control.outputs) + []
            && (!s'.control.ended ==> s'.control.status != Initializing) && s'.gdb == s.gdb
  {
    var c := s.control.(queue := s.control.queue + m.arrivals);
    var next := if c.queue != [] then Switch(c.status, c.queue[0]) else None;
    assert Samples(s.control.outputs) + [] == Samples(s.control.outputs);
    SamplesOfFailure(c.outputs, m.listenerGone);
    BecomeSendsNothing(if c.queue != [] then Take(c) else c, next, m.listenerGone);
  }

  lemma WorkSends(s: Thread, next: Option<Status>, start: Stamp, m: Moment) returns (added: seq<Sample<nat>>)
    requires Consistent(s.gdb) && s.control.status == Sampling && !s.control.ended
    ensures var s' := Work(s, next, start, m);
            && Samples(s'.control.outputs) == Samples(s.control.outputs) + added
            && Sends(s.active, s.gdb, added, s')
  {
    added := TakeSampleSends(s, start, m);
    BecomeSendsNothing(TakeSample(s, start, m).control, next, m.listenerGone);
  }

  /** No round is in progress. */
  ghost predicate Between(w: World) {
    !w.awaiting && w.wire == [] && w.unanswered == [] && |w.round.samples| >= |w.round.addresses|
  }

  lemma {:induction false} EndedDoesNothing(s: Thread, start: Stamp, ms: seq<Moment>, memories: seq<Bytes>)
    requires Consistent(s.gdb) && s.control.ended
    ensures RunEvents(s, start, ms, memories) == [] && Run(s, start, ms) == s
    decreases |ms|
  {
    if ms != [] {
      EndedDoesNothing(s, start, ms[1..], Behind(memories, 0));
    }
  }

  /** The samples sent are those of the first rounds completed; while the thread runs, of all. */
  ghost predicate SameRounds(added: seq<Sample<nat>>, rounds: seq<Round>) {
    |added| <= |rounds| && forall i :: 0 <= i < |added| ==> added[i].values == rounds[i].samples
  }

  /** What an iteration does in the system: it completes `rounds` and sends `added`. */
  ghost predicate Advanced(
    w: World, added: seq<Sample<nat>>, rounds: seq<Round>, before: seq<Bytes>, s': Thread, w': World)
  {
    w'.completed == w.completed + rounds && SameRounds(added, rounds) && Mirrors(w', before, s'.gdb)
  }

  ghost predicate Continues(w': World, s': Thread, memories: seq<Bytes>) {
    s'.control.status != Initializing && Between(w') && Answered(s'.gdb, memories)
  }

  lemma SweepAdvances(
    addresses: seq<u32>, w: World, before: seq<Bytes>, c: Client, memories: seq<Bytes>, added: seq<Sample<nat>>,
    s': Thread) returns (rounds: seq<Round>)
    requires Consistent(c) && Answered(c, memories) && Between(w) && Mirrors(w, before, c)
    requires Sends(addresses, c, added, s')
    ensures var events := [StartRound(addresses)] + SweepEvents(addresses, c, memories);
            && Possible(w, events) && Advanced(w, added, rounds, before, s', After(w, events))
            && (!s'.control.ended ==>
                  && |added| == |rounds| && Between(After(w, events))
                  && Answered(s'.gdb, Behind(memories, |addresses|)))
  {
    var w1 := Happen(w, StartRound(addresses));
    var events := SweepEvents(addresses, c, memories);
    OneEvent(w, StartRound(addresses));
    SweepProjects(addresses, w1, before, c, memories);
    HistoryAppend(w, [StartRound(addresses)], events);
    rounds := SweepRounds(addresses, w1, before, c, memories, added, s', After(w1, events));
  }

  lemma SweepRounds(
    addresses: seq<u32>, w: World, before: seq<Bytes>, c: Client, memories: seq<Bytes>, added: seq<Sample<nat>>,
    s': Thread, w': World) returns (rounds: seq<Round>)
    requires Consistent(c) && Matches(w, addresses, before, memories, Collect(addresses, c), w')
    requires w.round.samples == [] && Sends(addresses, c, added, s')
    ensures Advanced(w, added, rounds, before, s', w')
    ensures !s'.control.ended ==>
              |added| == |rounds| && Between(w') && Answered(s'.gdb, Behind(memories, |addresses|))
  {
    hide Collect, Answered, Mirrors;
    var sweep := Collect(addresses, c);
    rounds := if sweep.result.Ok? && addresses != [] then [w'.round] else [];
    assert w.completed + [] == w.completed;
    if sweep.result.Ok? {
      assert [] + sweep.result.value == sweep.result.value;
    }
  }

  lemma StepProjects(s: Thread, start: Stamp, m: Moment, w: World, before: seq<Bytes>, memories: seq<Bytes>)
    returns (added: seq<Sample<nat>>, rounds: seq<Round>)
    requires Consistent(s.gdb) && Continues(w, s, memories) && Mirrors(w, before, s.gdb)
    ensures Possible(w, StepEvents(s, m, memories))
    ensures var w', s' := After(w, StepEvents(s, m, memories)), Step(s, start, m);
            && Samples(s'.control.outputs) == Samples(s.control.outputs) + added
            && Advanced(w, added, rounds, before, s', w')
            && (!s'.control.ended ==>
                  |added| == |rounds| && Continues(w', s', Behind(memories, Used(s, m))))
  {
    hide Step, Collect, SweepEvents, Answered, Mirrors;
    added := StepSends(s, start, m);
    match SweptAddresses(s, m)
    case None =>
      rounds := [];
      assert w.completed + [] == w.completed && Behind(memories, 0) == memories;
    case Some(addresses) =>
      rounds := SweepAdvances(addresses, w, before, s.gdb, memories, added, Step(s, start, m));
  }

  /** A run from its second iteration on is a possible history of the system, and the samples it
      sends are those of the rounds completed in it, one by one. */
  lemma {:induction false} RunProjects(
    s: Thread, start: Stamp, ms: seq<Moment>, w: World, before: seq<Bytes>, memories: seq<Bytes>)
    returns (added: seq<Sample<nat>>, rounds: seq<Round>)
    requires Consistent(s.gdb) && Continues(w, s, memories) && Mirrors(w, before, s.gdb)
    ensures Possible(w, RunEvents(s, start, ms, memories))
    ensures var w', s' := After(w, RunEvents(s, start, ms, memories)), Run(s, start, ms);
            && Samples(s'.control.outputs) == Samples(s.control.outputs) + added
            && Advanced(w, added, rounds, before, s', w')
    decreases |ms|
  {
    hide Step, StepEvents, Answered, Mirrors, Possible, Samples;
    added, rounds := [], [];
    if ms == [] {
      NoIterations(s, start, w, before, memories);
    } else {
      var next, left := Step(s, start, ms[0]), Behind(memories, Used(s, ms[0]));
      added, rounds := StepProjects(s, start, ms[0], w, before, memories);
      if next.control.ended {
        EndedDoesNothing(next, start, ms[1..], left);
        assert StepEvents(s, ms[0], memories) + [] == StepEvents(s, ms[0], memories);
      } else {
        var w1, events := After(w, StepEvents(s, ms[0], memories)), RunEvents(next, start, ms[1..], left);
        var laterAdded, laterRounds := RunProjects(next, start, ms[1..], w1, before, left);
        HistoryAppend(w, StepEvents(s, ms[0], memories), events);
        Associative(Samples(s.control.outputs), added, laterAdded);
        AdvancedTwice(w, added, rounds, before, next, w1,
                      laterAdded, laterRounds, Run(next, start, ms[1..]), After(w1, events));
        added, rounds := added + laterAdded, rounds + laterRounds;
      }
    }
  }

  lemma NoIterations(s: Thread, start: Stamp, w: World, before: seq<Bytes>, memories: seq<Bytes>)
    requires Consistent(s.gdb) && Mirrors(w, before, s.gdb)
    ensures Possible(w, RunEvents(s, start, [], memories)) && After(w, RunEvents(s, start, [], memories)) == w
    ensures Samples(s.control.outputs) == Samples(s.control.outputs) + [] && Advanced(w, [], [], before, s, w)
  {
    assert w.completed + [] == w.completed;
  }

  lemma AdvancedTwice(
    w: World, added: seq<Sample<nat>>, rounds: seq<Round>, before: seq<Bytes>, s1: Thread, w1: World,
    laterAdded: seq<Sample<nat>>, laterRounds: seq<Round>, s2: Thread, w2: World)
    requires Advanced(w, added, rounds, before, s1, w1) && |added| == |rounds|
    requires Advanced(w1, laterAdded, laterRounds, before, s2, w2)
    ensures Advanced(w, added + laterAdded, rounds + laterRounds, before, s2, w2)
  {
    Associative(w.completed, rounds, laterRounds);
  }

  // ---- whole sessions ----

  function Memories(exchanges: seq<Exchange>): (r: seq<Bytes>)
    requires Words(exchanges)
    ensures |r| == |exchanges| && forall m :: m in r ==> |m| == 4
  {
    seq(|exchanges|, i requires 0 <= i < |exchanges| => exchanges[i].memory)
  }

  lemma ScriptIsAnswered(exchanges: seq<Exchange>, tail: seq<Response>)
    requires Words(exchanges) && Quiet(tail) && forall e :: e in exchanges ==> Quiet(e.noise)
    ensures Readings(Script(exchanges, tail)) == Floats(Memories(exchanges))
  {
    CountReadings(exchanges, tail);
    NoStraysIff(exchanges, |exchanges|);
    var readings, memories := Readings(Script(exchanges, tail)), Memories(exchanges);
    forall k | 0 <= k < |exchanges| ensures readings[k] == Floats(memories)[k] {
      OwnReading(exchanges, tail, k);
    }
    assert readings == Floats(memories);
  }

  function Outstanding(w: World): nat {
    |w.unanswered| + |Answers(w.wire)|
  }

  lemma {:induction false} EarlierPossible(w: World, events: seq<Event>, n: nat)
    requires Possible(w, events) && n <= |events|
    ensures Possible(w, events[..n])
    decreases n
  {
    if n > 0 {
      EarlierPossible(Happen(w, events[0]), events[1..], n - 1);
      assert events[..n][1..] == events[1..][..n - 1];
    }
  }

  const OPENING: seq<Bytes> := [BuildPacket(NO_ACK_MODE), BuildPacket(CONTINUE)]

  /** The samples of a thread are rounds of the system, each with its own answers; at no time was
      more than one request outstanding; and what the thread has sent are the requests of the system. */
  ghost predicate Realises(s: Thread, events: seq<Event>) {
    && Possible(START, events)
    && var w, samples := After(START, events), Samples(s.control.outputs);
       && |samples| <= |w.completed|
       && (forall i :: 0 <= i < |samples| ==>
             && samples[i].values == w.completed[i].samples
             && Paired(w.completed[i]) && |w.completed[i].samples| == |w.completed[i].addresses|)
       && (forall n :: 0 <= n <= |events| ==>
             Possible(START, events[..n]) && Outstanding(After(START, events[..n])) <= 1)
       && (events != [] ==> s.gdb.sent == OPENING + Packets(w.asked))
  }

  lemma HistoryRealises(s: Thread, events: seq<Event>)
    requires Possible(START, events)
    requires SameRounds(Samples(s.control.outputs), After(START, events).completed)
    requires events != [] ==> Mirrors(After(START, events), OPENING, s.gdb)
    ensures Realises(s, events)
  {
    RoundsArePaired(events);
    forall n | 0 <= n <= |events|
      ensures Possible(START, events[..n]) && Outstanding(After(START, events[..n])) <= 1
    {
      EarlierPossible(START, events, n);
      RoundsArePaired(events[..n]);
    }
    forall i | 0 <= i < |Samples(s.control.outputs)|
      ensures var r := After(START, events).completed[i]; Paired(r) && |r.samples| == |r.addresses|
    {
      assert After(START, events).completed[i] in After(START, events).completed;
    }
  }

  /** Main result: every session with a server that answers each request once, under any chunking,
      failures and commands, is a possible history of sampler, server and connection. So what holds
      of all those histories holds of the thread. */
  lemma SessionsAreHistories(
    exchanges: seq<Exchange>, tail: seq<Response>, inbox: seq<Incoming>, clock: seq<Option<Stamp>>, start: Stamp,
    listenerGone: bool, ms: seq<Moment>)
    requires Words(exchanges) && Provides(inbox, Script(exchanges, tail))
    requires Quiet(tail) && forall e :: e in exchanges ==> Quiet(e.noise)
    ensures Realises(WholeRun(inbox, clock, start, listenerGone, ms),
                     RunEvents(Begin(Connected(inbox, clock), listenerGone), start, ms, Memories(exchanges)))
  {
    var s := Begin(Connected(inbox, clock), listenerGone);
    var memories := Memories(exchanges);
    HandshakeLeavesScript(Script(exchanges, tail), inbox, clock, listenerGone);
    ScriptIsAnswered(exchanges, tail);
    if s.control.ended {
      EndedDoesNothing(s, start, ms, memories);
      NothingRealises(s);
    } else if ms == [] {
      NothingRealises(s);
    } else {
      FirstStep(s, start, ms[0]);
      FreshRealises(s, start, ms, memories);
    }
  }

  lemma FreshRealises(s: Thread, start: Stamp, ms: seq<Moment>, memories: seq<Bytes>)
    requires Consistent(s.gdb) && s.control == Fresh() && s.gdb.sent == [BuildPacket(NO_ACK_MODE)]
    requires ms != [] && Answered(s.gdb, memories)
    ensures Realises(Run(s, start, ms), RunEvents(s, start, ms, memories))
  {
    hide Step, StepEvents, Possible, Realises;
    var next := Step(s, start, ms[0]);
    assert Protocol(false, s.control);
    FirstStep(s, start, ms[0]);
    FirstHasNoEvents(s, start, ms, memories);
    if next.control.ended {
      EndedDoesNothing(next, start, ms[1..], memories);
      NothingRealises(next);
    } else {
      LoopRealises(next, start, ms[1..], memories);
    }
  }

  lemma FirstHasNoEvents(s: Thread, start: Stamp, ms: seq<Moment>, memories: seq<Bytes>)
    requires Consistent(s.gdb) && s.control.status == Initializing && ms != []
    ensures RunEvents(s, start, ms, memories) == RunEvents(Step(s, start, ms[0]), start, ms[1..], memories)
  {
    var later := RunEvents(Step(s, start, ms[0]), start, ms[1..], memories);
    assert Behind(memories, 0) == memories && [] + later == later;
  }

  lemma NothingRealises(s: Thread)
    requires Samples(s.control.outputs) == []
    ensures Realises(s, [])
  {
    HistoryRealises(s, []);
  }

  lemma LoopRealises(s: Thread, start: Stamp, ms: seq<Moment>, memories: seq<Bytes>)
    requires Consistent(s.gdb) && s.control.status != Initializing && Samples(s.control.outputs) == []
    requires Answered(s.gdb, memories) && s.gdb.sent == OPENING
    ensures Realises(Run(s, start, ms), RunEvents(s, start, ms, memories))
  {
    assert OPENING + Packets([]) == OPENING;
    var added, rounds := RunProjects(s, start, ms, START, OPENING, memories);
    assert [] + added == added && [] + rounds == rounds;
    HistoryRealises(Run(s, start, ms), RunEvents(s, start, ms, memories));
  }
}
