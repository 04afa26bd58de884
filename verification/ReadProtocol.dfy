/** The memory sampler and its server as one system of concurrent steps
    (src/sampler/memsampler.rs): the sampler sends one read request at a time, the server
    answers requests in the order in which it got them and may send anything else in between,
    and the connection delivers in order, at any time. */
module ReadProtocol {
  import opened Common
  import opened GdbPacket
  import opened MemReply
  import opened MemSampler

  // A response on its way to the sampler. `origin` records what it answers, for the proof only:
  // the address that was asked for and the float in the memory that was read.
  datatype Item = Item(response: Response, origin: Option<(u32, nat)>)

  datatype Round = Round(addresses: seq<u32>, samples: seq<(u32, nat)>, origins: seq<Option<(u32, nat)>>)

  /** `round` is the sweep in progress, with a request outstanding when `awaiting`; `asked` records
      all requests. */
  datatype World = World(
    round: Round, awaiting: bool, asked: seq<u32>, unanswered: seq<u32>, wire: seq<Item>, completed: seq<Round>)

  datatype Event =
    | StartRound(addresses: seq<u32>)  // the sampler, with the addresses active at that time
    | Request                          // the sampler
    | Answer(memory: Bytes)            // the server, with the memory contents at that time
    | Chatter(response: Response)      // the server
    | Receive                          // the sampler

  const START := World(Round([], [], []), false, [], [], [], [])

  predicate Enabled(w: World, e: Event) {
    match e
    case StartRound(_) => !w.awaiting && |w.round.samples| >= |w.round.addresses|
    case Request => !w.awaiting && |w.round.samples| < |w.round.addresses|
    case Answer(memory) => w.unanswered != [] && |memory| == 4
    case Chatter(response) => Reading(response).None?
    case Receive => w.awaiting && w.wire != [] && |w.round.samples| < |w.round.addresses|
  }

  function Happen(w: World, e: Event): World
    requires Enabled(w, e)
  {
    match e
    case StartRound(addresses) => w.(round := Round(addresses, [], []))
    case Request =>
      var address := w.round.addresses[|w.round.samples|];
      w.(awaiting := true, asked := w.asked + [address], unanswered := w.unanswered + [address])
    case Answer(memory) =>
      w.(unanswered := w.unanswered[1..],
         wire := w.wire + [Item(Packet(MemoryReply(memory)), Some((w.unanswered[0], FloatBits(memory))))])
    case Chatter(response) => w.(wire := w.wire + [Item(response, None)])
    case Receive =>
      var item := w.wire[0];
      match Reading(item.response) {
        case None => w.(wire := w.wire[1..])
        case Some(v) =>
          var r := w.round;
          var r' := r.(samples := r.samples + [(r.addresses[|r.samples|], v)], origins := r.origins + [item.origin]);
          w.(wire := w.wire[1..], awaiting := false, round := r',
             completed := if |r'.samples| == |r'.addresses| then w.completed + [r'] else w.completed)
      }
  }

  /** Every sample so far is reported under its address and is what was read there. */
  ghost predicate Paired(r: Round) {
    && |r.origins| == |r.samples| <= |r.addresses|
    && forall i :: 0 <= i < |r.samples| ==>
         r.samples[i].0 == r.addresses[i] && r.origins[i] == Some(r.samples[i])
  }

  /** The answers among the items on the wire. */
  function Answers(wire: seq<Item>): seq<(u32, nat)> {
    if wire == [] then []
    else (if wire[0].origin.Some? then [wire[0].origin.value] else []) + Answers(wire[1..])
  }

  lemma {:induction false} AnswersAppend(a: seq<Item>, item: Item)
    ensures Answers(a + [item]) == Answers(a) + (if item.origin.Some? then [item.origin.value] else [])
  {
    if a != [] {
      assert (a + [item])[0] == a[0] && (a + [item])[1..] == a[1..] + [item];
      AnswersAppend(a[1..], item);
    } else {
      assert ([item])[1..] == [];
    }
  }

  /** A response is a reading exactly if it answers a request, and then it is that answer. */
  ghost predicate Honest(item: Item) {
    Reading(item.response) == match item.origin { case Some(o) => Some(o.1) case None => None }
  }

  /** The address asked last. */
  function Asked(w: World): Option<u32> {
    if |w.round.samples| < |w.round.addresses| then Some(w.round.addresses[|w.round.samples|]) else None
  }

  /** At most one request is outstanding, and whatever answers it is for the address asked last. */
  ghost predicate Invariant(w: World) {
    && Paired(w.round)
    && (forall r :: r in w.completed ==> Paired(r) && |r.samples| == |r.addresses|)
    && (forall item :: item in w.wire ==> Honest(item))
    && |w.unanswered| + |Answers(w.wire)| == (if w.awaiting then 1 else 0)
    && (w.awaiting ==> Asked(w).Some?)
    && (w.unanswered != [] ==> Some(w.unanswered[0]) == Asked(w))
    && (Answers(w.wire) != [] ==> Some(Answers(w.wire)[0].0) == Asked(w))
  }

  lemma AnswerKeepsInvariant(w: World, memory: Bytes)
    requires Invariant(w) && Enabled(w, Answer(memory))
    ensures Invariant(Happen(w, Answer(memory)))
  {
    var item := Item(Packet(MemoryReply(memory)), Some((w.unanswered[0], FloatBits(memory))));
    ReplyYieldsMemory(memory);
    AnswersAppend(w.wire, item);
    assert Honest(item);
    assert Answers(w.wire) == [];
  }

  lemma ReceiveKeepsInvariant(w: World)
    requires Invariant(w) && Enabled(w, Receive)
    ensures Invariant(Happen(w, Receive))
  {
    var item := w.wire[0];
    var w' := Happen(w, Receive);
    assert item in w.wire && Honest(item);
    assert forall i :: i in w'.wire ==> i in w.wire;
    if item.origin.Some? {
      assert Answers(w.wire) == [item.origin.value] + Answers(w.wire[1..]);
      assert w'.unanswered == [] && Answers(w'.wire) == [];
      assert Paired(w'.round);
    } else {
      assert Answers(w.wire) == [] + Answers(w.wire[1..]);
    }
  }

  lemma StartRoundKeepsInvariant(w: World, addresses: seq<u32>)
    requires Invariant(w) && Enabled(w, StartRound(addresses))
    ensures Invariant(Happen(w, StartRound(addresses)))
  {
    var w' := Happen(w, StartRound(addresses));
    assert w'.wire == w.wire && w'.completed == w.completed && w'.unanswered == w.unanswered;
    assert Paired(w'.round);
  }

  lemma RequestKeepsInvariant(w: World)
    requires Invariant(w) && Enabled(w, Request)
    ensures Invariant(Happen(w, Request))
  {
    var w' := Happen(w, Request);
    assert w'.wire == w.wire && w'.completed == w.completed && w'.round == w.round;
    assert w.unanswered == [] && Answers(w.wire) == [];
  }

  lemma ChatterKeepsInvariant(w: World, response: Response)
    requires Invariant(w) && Enabled(w, Chatter(response))
    ensures Invariant(Happen(w, Chatter(response)))
  {
    var item := Item(response, None);
    var w' := Happen(w, Chatter(response));
    AnswersAppend(w.wire, item);
    assert Answers(w.wire) + [] == Answers(w.wire);
    assert Honest(item);
    assert w'.completed == w.completed && w'.round == w.round;
  }

  lemma StepKeepsInvariant(w: World, e: Event)
    requires Invariant(w) && Enabled(w, e)
    ensures Invariant(Happen(w, e))
  {
    match e
    case StartRound(addresses) => StartRoundKeepsInvariant(w, addresses);
    case Request => RequestKeepsInvariant(w);
    case Answer(memory) => AnswerKeepsInvariant(w, memory);
    case Chatter(response) => ChatterKeepsInvariant(w, response);
    case Receive => ReceiveKeepsInvariant(w);
  }

  /** Every event of a history was possible when it happened. */
  predicate Possible(w: World, events: seq<Event>)
    decreases |events|
  {
    events == [] || (Enabled(w, events[0]) && Possible(Happen(w, events[0]), events[1..]))
  }

  function After(w: World, events: seq<Event>): World
    requires Possible(w, events)
    decreases |events|
  {
    if events == [] then w else After(Happen(w, events[0]), events[1..])
  }

  lemma {:induction false} InvariantAlways(w: World, events: seq<Event>)
    requires Invariant(w) && Possible(w, events)
    ensures Invariant(After(w, events))
    decreases |events|
  {
    if events != [] {
      StepKeepsInvariant(w, events[0]);
      InvariantAlways(Happen(w, events[0]), events[1..]);
    }
  }

  /** In every history: at most one request is ever outstanding, and every completed round lists
      exactly its addresses in order, each with the float that was read for it. */
  lemma RoundsArePaired(events: seq<Event>)
    requires Possible(START, events)
    ensures var w := After(START, events);
            && |w.unanswered| + |Answers(w.wire)| <= 1
            && forall r :: r in w.completed ==> Paired(r) && |r.samples| == |r.addresses|
  {
    InvariantAlways(START, events);
  }
}
