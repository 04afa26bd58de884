/** The memory sampler (src/sampler/memsampler.rs): a thread that reads the active addresses
    once per period through the GDB client, one request and one reply at a time. */
module MemSampler {
  import opened Common
  import opened Reassembly
  import opened GdbPacket
  import opened GdbRemote
  import opened MemReply
  import opened Sampler

  const NO_ACK_MODE: Bytes := "QStartNoAckMode"
  const CONTINUE: Bytes := "c"
  const OK: Bytes := "OK"

  // A reading is the bit pattern of a 32-bit float.
  datatype Thread = Thread(control: Control<nat>, active: seq<u32>, gdb: Client)

  /** What a read request is answered with: the float held by the four bytes of the reply. */
  function Reading(response: Response): Option<nat> {
    match ReplyValue(response)
    case Some(v) => Some(FloatBits(ToBigEndian(v)))
    case None => None
  }

  /** The readings among a list of responses. */
  function Readings(responses: seq<Response>): seq<nat> {
    if responses == [] then []
    else (match Reading(responses[0]) case Some(v) => [v] case None => []) + Readings(responses[1..])
  }

  lemma {:induction false} ReadingsAppend(a: seq<Response>, b: seq<Response>)
    ensures Readings(a + b) == Readings(a) + Readings(b)
  {
    if a == [] {
      assert a + b == b;
    } else {
      RestOfConcat(a, b);
      ReadingsAppend(a[1..], b);
    }
  }

  /** Wait for the answer to a request, skipping everything that is not one. The second result
      is the stamp of the first response seen. */
  function AwaitReply(c: Client): (r: (Result<nat, GdbError>, Option<Stamp>, Client))
    requires Consistent(c)
    ensures Consistent(r.2) && r.2.sent == c.sent && r.2.clock == c.clock
    ensures r.0.Ok? ==> r.1.Some?
    decreases |c.inbox|, |c.buffer|
  {
    var (r, c') := NextResponse(c);
    match r
    case Err(error) => (Err(error), None, c')
    case Ok((response, stamp)) =>
      match Reading(response)
      case Some(v) => (Ok(v), Some(stamp), c')
      case None =>
        var (v, _, c'') := AwaitReply(c');
        (v, Some(stamp), c'')
  }

  // The outcome of reading one address, or of a sweep over several; with the stamps of the first
  // request and of the first response.
  datatype Sweep<+R> = Sweep(
    result: Result<R, GdbError>, requestedAt: Option<Stamp>, receivedAt: Option<Stamp>, gdb: Client)

  /** One request, and the answer to it. */
  function ReadOne(address: u32, c: Client): (r: Sweep<nat>)
    requires Consistent(c)
    ensures Consistent(r.gdb)
    ensures r.result.Ok? ==> r.requestedAt.Some? && r.receivedAt.Some?
  {
    var (requested, c1) := Transmit(c, ReadRequest(address));
    match requested
    case Err(error) => Sweep(Err(error), None, None, c1)
    case Ok(requestedAt) =>
      var (reply, receivedAt, c2) := AwaitReply(c1);
      Sweep(reply, Some(requestedAt), receivedAt, c2)
  }

  /** Read all addresses, one after the other, as long as every reading succeeds. */
  function Collect(addresses: seq<u32>, c: Client): (r: Sweep<seq<(u32, nat)>>)
    requires Consistent(c)
    ensures Consistent(r.gdb)
    ensures r.result.Ok? ==> |r.result.value| == |addresses|
    ensures r.result.Ok? && addresses != [] ==> r.requestedAt.Some? && r.receivedAt.Some?
    decreases |addresses|
  {
    if addresses == [] then Sweep(Ok([]), None, None, c)
    else
      var one := ReadOne(addresses[0], c);
      match one.result
      case Err(error) => Sweep(Err(error), one.requestedAt, one.receivedAt, one.gdb)
      case Ok(v) => Continued([(addresses[0], v)], one.requestedAt, one.receivedAt, Collect(addresses[1..], one.gdb))
  }

  /** What a sweep amounts to once `samples` have been collected and `rest` is still to come. */
  function Continued(samples: seq<(u32, nat)>, requestedAt: Option<Stamp>, receivedAt: Option<Stamp>,
                     rest: Sweep<seq<(u32, nat)>>): Sweep<seq<(u32, nat)>>
  {
    Sweep(match rest.result { case Ok(more) => Ok(samples + more) case Err(e) => Err(e) },
          if requestedAt.Some? then requestedAt else rest.requestedAt,
          if receivedAt.Some? then receivedAt else rest.receivedAt,
          rest.gdb)
  }

  /** Microseconds since `start`; a clock that went backwards counts as 0. */
  function Since(start: Stamp, at: Stamp): nat {
    if at < start then 0 else at - start
  }

  function SampleTime(start: Stamp, requestedAt: Stamp, receivedAt: Stamp): nat {
    (Since(start, requestedAt) + Since(start, receivedAt)) / 2
  }

  /** The two stamps of a sweep are those of its first request and of the first response after it,
      whatever the number of addresses and of responses skipped. */
  lemma SweepStamps(addresses: seq<u32>, c: Client)
    requires Consistent(c) && addresses != [] && Collect(addresses, c).result.Ok?
    ensures var (requested, c1) := Transmit(c, ReadRequest(addresses[0]));
            && requested.Ok? && NextResponse(c1).0.Ok?
            && Collect(addresses, c).requestedAt == Some(requested.value)
            && Collect(addresses, c).receivedAt == Some(NextResponse(c1).0.value.1)
  {
    assert ReadOne(addresses[0], c).result.Ok?;
  }

  /** The time of the sample that a completed sweep yields lies between its first request and its
      first response exactly if that response was not stamped before the request was sent (or the
      request itself is not later than `start`, so that both count as 0). */
  lemma SampleTimeIsBetweenIff(addresses: seq<u32>, c: Client, start: Stamp)
    requires Consistent(c) && addresses != [] && Collect(addresses, c).result.Ok?
    ensures var (requested, c1) := Transmit(c, ReadRequest(addresses[0]));
            var first := NextResponse(c1).0;
            && requested.Ok? && first.Ok?
            && var sweep := Collect(addresses, c);
               var time := SampleTime(start, sweep.requestedAt.value, sweep.receivedAt.value);
               (Since(start, requested.value) <= time <= Since(start, first.value.1) <==>
                requested.value <= first.value.1 || requested.value <= start)
  {
    SweepStamps(addresses, c);
  }

  /** It can lie before the request: a keep-alive packet that arrived early is the first response
      handed out, though it answers nothing. */
  lemma KeepAliveSpoilsTime(
    address: u32, memory: Bytes, start: Stamp, early: Stamp, requestedAt: Stamp, late: Stamp)
    requires |memory| == 4 && early < requestedAt && start < requestedAt
    ensures var c := Connected([Data(BuildPacket("O"), early), Data(BuildPacket(MemoryReply(memory)), late)],
                               [Some(requestedAt)]);
            var sweep := Collect([address], c);
            && sweep.result == Ok([(address, FloatBits(memory))])
            && SampleTime(start, sweep.requestedAt.value, sweep.receivedAt.value) < Since(start, requestedAt)
  {
    var reply := MemoryReply(memory);
    var c := Connected([Data(BuildPacket("O"), early), Data(BuildPacket(reply), late)], [Some(requestedAt)]);
    ReplyIsEncodable(memory);
    SkipsKeepAlive(Transmit(c, ReadRequest(address)).1, memory);
    CollectOne([address], c, ReadOne(address, c));
  }

  lemma CollectOne(addresses: seq<u32>, c: Client, one: Sweep<nat>)
    requires Consistent(c) && |addresses| == 1 && one == ReadOne(addresses[0], c) && one.result.Ok?
    ensures Collect(addresses, c) ==
            Sweep(Ok([(addresses[0], one.result.value)]), one.requestedAt, one.receivedAt, one.gdb)
  {
    assert addresses[1..] == [];
    AddsNothing([(addresses[0], one.result.value)], one.requestedAt, one.receivedAt, one.gdb);
  }

  lemma AddsNothing(samples: seq<(u32, nat)>, requestedAt: Option<Stamp>, receivedAt: Option<Stamp>, c: Client)
    requires Consistent(c)
    ensures Continued(samples, requestedAt, receivedAt, Collect([], c)) ==
            Sweep(Ok(samples), requestedAt, receivedAt, c)
  {
    assert samples + [] == samples;
  }

  /** A keep-alive packet is skipped, but its stamp is taken. */
  lemma SkipsKeepAlive(c: Client, memory: Bytes)
    requires |memory| == 4 && '#' !in MemoryReply(memory) && Consistent(c) && c.buffer == []
    requires |c.inbox| == 2 && c.inbox[0].Data? && c.inbox[1].Data?
    requires c.inbox[0].bytes == BuildPacket("O") && c.inbox[1].bytes == BuildPacket(MemoryReply(memory))
    ensures AwaitReply(c).0 == Ok(FloatBits(memory)) && AwaitReply(c).1 == Some(c.inbox[0].stamp)
  {
    ReplyYieldsMemory(memory);
    OnePacketArrives(c, "O");
    OnePacketArrives(NextResponse(c).1, MemoryReply(memory));
    assert Reading(Packet("O")).None?;
    assert AwaitReply(NextResponse(c).1).0 == Ok(FloatBits(memory));
  }

  lemma ReplyIsEncodable(memory: Bytes)
    ensures '#' !in MemoryReply(memory)
  {
    MemoryReplyIsHex(memory);
    HexFixedValue(2 * |memory|, BigEndian(memory));
  }

  /** A segment that holds exactly one packet. */
  lemma OnePacketArrives(c: Client, data: Bytes)
    requires Consistent(c) && c.buffer == [] && c.inbox != [] && '#' !in data
    requires c.inbox[0].Data? && c.inbox[0].bytes == BuildPacket(data)
    ensures var (r, c') := NextResponse(c);
            && r == Ok((Packet(data), c.inbox[0].stamp))
            && c'.buffer == [] && c'.inbox == c.inbox[1..]
  {
    var fed := Feed(c);
    assert fed.buffer == BuildPacket(data);
    assert fed.arrived == c.arrived + [c.inbox[0]];
    PacketIsCut(data);
    MarkIsLast(c.arrived, c.inbox[0]);
    assert NextResponse(c) == NextResponse(fed);
  }

  lemma PacketIsCut(data: Bytes)
    requires '#' !in data
    ensures CutResponse(BuildPacket(data)) == Some(Cut(Packet(data), |BuildPacket(data)|))
    ensures CutResponse([]).None? && '$' in BuildPacket(data)
  {
    CutEncoded(Packet(data), []);
    assert BuildPacket(data) + [] == BuildPacket(data);
    assert BuildPacket(data)[0] == '$';
  }

  lemma MarkIsLast(arrived: seq<Incoming>, a: Incoming)
    requires Marked(a)
    ensures LastMarkStamp(arrived + [a]) == Some(a.stamp)
  {
    assert (arrived + [a])[|arrived|] == a;
  }

  /** The sampling part of an iteration; a failure to read or to deliver ends the thread. */
  function TakeSample(s: Thread, start: Stamp, m: Moment): (s': Thread)
    requires Consistent(s.gdb)
    ensures Consistent(s'.gdb) && s'.active == s.active
    ensures s'.control == s.control.(ended := s'.control.ended, outputs := s'.control.outputs)
  {
    var sweep := Collect(s.active, s.gdb);
    var s' := s.(gdb := sweep.gdb);
    match sweep.result
    case Err(_) => s'.(control := Fail(s.control, m.listenerGone))
    case Ok(values) =>
      if s.active == [] then s'
      else if m.samplesGone then s'.(control := Fail(s.control, m.listenerGone))
      else
        var time := SampleTime(start, sweep.requestedAt.value, sweep.receivedAt.value);
        s'.(control := Emit(s.control, Sample(time, values)))
  }

  /** What follows after the commands: sample, unless paused, and assume the new status. */
  function Work(s: Thread, next: Option<Status>, start: Stamp, m: Moment): (s': Thread)
    requires Consistent(s.gdb)
    ensures Consistent(s'.gdb) && s'.active == s.active
    ensures s'.control == s.control.(ended := s'.control.ended, outputs := s'.control.outputs,
                                     status := s'.control.status)
    ensures !s'.control.ended ==> s'.control.status == if next.Some? then next.value else s.control.status
  {
    var s' := if s.control.status == Sampling then TakeSample(s, start, m) else s;
    if s'.control.ended then s' else s'.(control := Become(s'.control, next, m.listenerGone))
  }

  /** One iteration of the loop. A new status takes effect at its end, so the iteration that
      takes Pause or Stop while sampling still samples. */
  function Step(s: Thread, start: Stamp, m: Moment): (s': Thread)
    requires Consistent(s.gdb)
    ensures Consistent(s'.gdb)
  {
    if s.control.ended then s
    else
      var c := s.control.(queue := s.control.queue + m.arrivals);
      if c.status == Initializing then
        var (sent, gdb') := Transmit(s.gdb, CONTINUE);
        Thread(if sent.Ok? then Become(c, Some(Sampling), m.listenerGone) else Fail(c, m.listenerGone),
               s.active, gdb')
      else if c.status == Terminated then s.(control := c.(ended := true))
      else if c.queue == [] && m.disconnected then s.(control := Fail(c, m.listenerGone))
      else
        var taken := if c.queue != [] then Take(c) else c;
        var next := if c.queue != [] then Switch(c.status, c.queue[0]) else None;
        var active := if c.queue != [] && c.queue[0].SetActive? then c.queue[0].ids else s.active;
        Work(Thread(taken, active, s.gdb), next, start, m)
  }

  function Run(s: Thread, start: Stamp, ms: seq<Moment>): (s': Thread)
    requires Consistent(s.gdb)
    ensures Consistent(s'.gdb)
    decreases |ms|
  {
    if ms == [] then s else Run(Step(s, start, ms[0]), start, ms[1..])
  }

  /** Before the loop: the server acknowledges the connection, then acknowledges and confirms
      that acknowledgements are switched off. */
  function Handshake(c: Client): (r: (bool, Client))
    requires Consistent(c)
    ensures Consistent(r.1)
  {
    var (first, c1) := NextResponse(c);
    if first.Err? || first.value.0 != ACK then (false, c1)
    else
      var (sent, c2) := Transmit(c1, NO_ACK_MODE);
      if sent.Err? then (false, c2)
      else
        var (second, c3) := NextResponse(c2);
        if second.Err? || second.value.0 != ACK then (false, c3)
        else
          var (third, c4) := NextResponse(c3);
          (third.Ok? && third.value.0 == Packet(OK), c4)
  }

  function Begin(c: Client, listenerGone: bool): (s: Thread)
    requires Consistent(c)
    ensures Consistent(s.gdb)
  {
    var (ready, gdb) := Handshake(c);
    Thread(if ready then Fresh() else Fail(Fresh(), listenerGone), [], gdb)
  }

  /** A handshake that succeeds has consumed exactly the three expected responses. */
  lemma HandshakeConsumes(c: Client)
    requires Consistent(c) && Handshake(c).0
    ensures var c' := Handshake(c).1;
            && Upcoming(c) == [ACK, ACK, Packet(OK)] + Upcoming(c')
            && c'.sent == c.sent + [BuildPacket(NO_ACK_MODE)]
  {
    var c1 := NextResponse(c).1;
    var c2 := Transmit(c1, NO_ACK_MODE).1;
    var c3 := NextResponse(c2).1;
    TakesExpected(c, ACK);
    TakesExpected(c2, ACK);
    TakesExpected(c3, Packet(OK));
    ThreeInARow(ACK, ACK, Packet(OK), Upcoming(NextResponse(c3).1));
  }

  lemma TakesExpected(c: Client, expected: Response)
    requires Consistent(c) && NextResponse(c).0.Ok? && NextResponse(c).0.value.0 == expected
    ensures Upcoming(c) == [expected] + Upcoming(NextResponse(c).1)
  {
    NextTakesFirst(c);
  }

  lemma ThreeInARow<T>(a: T, b: T, c: T, rest: seq<T>)
    ensures [a] + ([b] + ([c] + rest)) == [a, b, c] + rest
  {}

  // ---- request/response pairing ----

  /** Waiting uses up responses just as far as the first reading, which it returns. */
  lemma {:induction false} AwaitTakesFirstReading(c: Client)
    requires Consistent(c)
    ensures var (r, _, c') := AwaitReply(c);
            && (r.Ok? ==> Readings(Upcoming(c)) == [r.value] + Readings(Upcoming(c')))
            && (r.Err? ==> Readings(Upcoming(c)) == Readings(Upcoming(c')))
    decreases |c.inbox|, |c.buffer|
  {
    NextTakesFirst(c);
    var (r, c') := NextResponse(c);
    if r.Ok? {
      var first := r.value.0;
      ReadingsAppend([first], Upcoming(c'));
      assert Readings([first]) == (if Reading(first).Some? then [Reading(first).value] else []);
      if Reading(first).None? {
        AwaitTakesFirstReading(c');
        assert [] + Readings(Upcoming(c')) == Readings(Upcoming(c'));
      }
    }
  }

  function Requests(pairs: seq<(u32, nat)>): seq<Bytes> {
    seq(|pairs|, i requires 0 <= i < |pairs| => BuildPacket(ReadRequest(pairs[i].0)))
  }

  function Values(pairs: seq<(u32, nat)>): seq<nat> {
    seq(|pairs|, i requires 0 <= i < |pairs| => pairs[i].1)
  }

  /** What an exchange of `pairs` does to the connection: one request per pair is sent, in
      order, and the readings that come next on the connection are the pairs' values. */
  ghost predicate Exchanged(c: Client, pairs: seq<(u32, nat)>, c': Client) {
    && c'.sent == c.sent + Requests(pairs)
    && Readings(Upcoming(c)) == Values(pairs) + Readings(Upcoming(c'))
  }

  lemma ExchangedTwice(c: Client, p: seq<(u32, nat)>, c': Client, q: seq<(u32, nat)>, c'': Client)
    requires Exchanged(c, p, c') && Exchanged(c', q, c'')
    ensures Exchanged(c, p + q, c'')
  {
    PairsAppend(p, q);
    Associative(c.sent, Requests(p), Requests(q));
    Associative(Values(p), Values(q), Readings(Upcoming(c'')));
  }

  lemma PairsAppend(p: seq<(u32, nat)>, q: seq<(u32, nat)>)
    ensures Requests(p + q) == Requests(p) + Requests(q)
    ensures Values(p + q) == Values(p) + Values(q)
  {}

  lemma ReadOneExchanges(address: u32, c: Client)
    requires Consistent(c) && ReadOne(address, c).result.Ok?
    ensures Exchanged(c, [(address, ReadOne(address, c).result.value)], ReadOne(address, c).gdb)
  {
    var c1 := Transmit(c, ReadRequest(address)).1;
    AwaitTakesFirstReading(c1);
    var pair := (address, AwaitReply(c1).0.value);
    assert Requests([pair]) == [BuildPacket(ReadRequest(address))] && Values([pair]) == [pair.1];
  }

  /** A completed sweep asks for exactly the given addresses, in order. */
  lemma {:induction false} CollectExchanges(addresses: seq<u32>, c: Client)
    requires Consistent(c) && Collect(addresses, c).result.Ok?
    ensures var r := Collect(addresses, c);
            && Exchanged(c, r.result.value, r.gdb)
            && |r.result.value| == |addresses|
            && forall i :: 0 <= i < |addresses| ==> r.result.value[i].0 == addresses[i]
    decreases |addresses|
  {
    if addresses == [] {
      ExchangedNothing(c, c);
    } else {
      var one := ReadOne(addresses[0], c);
      var rest := Collect(addresses[1..], one.gdb);
      ReadOneExchanges(addresses[0], c);
      CollectExchanges(addresses[1..], one.gdb);
      ExchangedTwice(c, [(addresses[0], one.result.value)], one.gdb, rest.result.value, rest.gdb);
    }
  }

  lemma ExchangedNothing(c: Client, c': Client)
    requires c'.sent == c.sent && (c'.buffer, c'.inbox) == (c.buffer, c.inbox)
    ensures Exchanged(c, [], c')
  {
    assert c.sent + [] == c.sent;
    assert [] + Readings(Upcoming(c)) == Readings(Upcoming(c));
  }

  /** The readings of `pairs` came first on the connection, and their requests were sent first:
      what remains true of the completed sweeps when a later one fails. */
  ghost predicate Served(c: Client, pairs: seq<(u32, nat)>, c': Client) {
    c.sent + Requests(pairs) <= c'.sent && Values(pairs) <= Readings(Upcoming(c))
  }

  lemma ServedAfter(c: Client, p: seq<(u32, nat)>, c': Client, q: seq<(u32, nat)>, c'': Client)
    requires Exchanged(c, p, c') && Served(c', q, c'')
    ensures Served(c, p + q, c'')
  {
    PairsAppend(p, q);
    PrefixChain(c.sent, Requests(p), Requests(q), c''.sent);
    PrefixOfTail(Values(p), Values(q), Readings(Upcoming(c')));
  }

  lemma PrefixChain<T>(a: seq<T>, p: seq<T>, q: seq<T>, all: seq<T>)
    requires a + p + q <= all
    ensures a + (p + q) <= all
  {
    Associative(a, p, q);
  }

  lemma PrefixOfTail<T>(p: seq<T>, q: seq<T>, rest: seq<T>)
    requires q <= rest
    ensures p + q <= p + rest
  {}

  lemma {:induction false} CollectOnlySends(addresses: seq<u32>, c: Client)
    requires Consistent(c)
    ensures c.sent <= Collect(addresses, c).gdb.sent
    decreases |addresses|
  {
    if addresses != [] && ReadOne(addresses[0], c).result.Ok? {
      CollectOnlySends(addresses[1..], ReadOne(addresses[0], c).gdb);
    }
  }

  // ---- one iteration ----

  /** The samples that an iteration adds: none or one. */
  ghost predicate Adds(s: Thread, added: seq<Sample<nat>>, s': Thread) {
    && Samples(s'.control.outputs) == Samples(s.control.outputs) + added
    && |added| <= 1
    && (added != [] ==> s.control.status == Sampling && |added[0].values| == |s'.active|)
    && (added != [] ==> forall i :: 0 <= i < |s'.active| ==> added[0].values[i].0 == s'.active[i])
  }

  function Pairs(samples: seq<Sample<nat>>): seq<(u32, nat)> {
    if samples == [] then [] else samples[0].values + Pairs(samples[1..])
  }

  /** What an iteration does to the observer's view and to the connection. */
  ghost predicate Serves(s: Thread, added: seq<Sample<nat>>, s': Thread) {
    && Protocol(false, s'.control) && Adds(s, added, s')
    && Served(s.gdb, Pairs(added), s'.gdb)
    && (!s'.control.ended ==> Exchanged(s.gdb, Pairs(added), s'.gdb))
    && (!s'.control.ended && s.control.status == Sampling && s'.active != [] ==> added != [])
  }

  /** An iteration that only sends requests, and ends the thread if it sends any. */
  lemma ServesNothing(s: Thread, s': Thread)
    requires Protocol(false, s'.control) && Samples(s'.control.outputs) == Samples(s.control.outputs)
    requires s.gdb.sent <= s'.gdb.sent && (s'.control.ended || s'.gdb == s.gdb)
    requires s'.control.ended || s.control.status != Sampling || s'.active == []
    ensures Serves(s, [], s')
  {
    assert Samples(s.control.outputs) + [] == Samples(s.control.outputs);
    assert s.gdb.sent + [] == s.gdb.sent;
    ExchangedNothing(s.gdb, s.gdb);
  }

  lemma ServesOne(s: Thread, sample: Sample<nat>, s': Thread)
    requires Protocol(false, s.control) && !s.control.ended && s.control.status == Sampling
    requires s'.control == Emit(s.control, sample) && s'.active == s.active && |sample.values| == |s.active|
    requires forall i :: 0 <= i < |s.active| ==> sample.values[i].0 == s.active[i]
    requires Exchanged(s.gdb, sample.values, s'.gdb)
    ensures Serves(s, [sample], s')
  {
    EmitKeepsProtocol(false, s.control, sample);
    assert Pairs([sample]) == sample.values + [];
    assert Pairs([sample]) == sample.values;
  }

  lemma TakeSampleServes(s: Thread, start: Stamp, m: Moment) returns (added: seq<Sample<nat>>)
    requires Consistent(s.gdb) && Protocol(false, s.control) && !s.control.ended && s.control.status == Sampling
    ensures Serves(s, added, TakeSample(s, start, m))
  {
    var s' := TakeSample(s, start, m);
    var sweep := Collect(s.active, s.gdb);
    added := [];
    if sweep.result.Ok? && s.active != [] && !m.samplesGone {
      CollectExchanges(s.active, s.gdb);
      var sample := Sample(SampleTime(start, sweep.requestedAt.value, sweep.receivedAt.value), sweep.result.value);
      ServesOne(s, sample, s');
      added := [sample];
    } else {
      CollectOnlySends(s.active, s.gdb);
      FailKeepsProtocol(false, s.control, m.listenerGone);
      ServesNothing(s, s');
    }
  }

  lemma WorkServes(s: Thread, command: Option<Command>, start: Stamp, m: Moment)
    returns (added: seq<Sample<nat>>)
    requires Consistent(s.gdb) && Protocol(false, s.control) && !s.control.ended
    requires s.control.status in {Sampling, Paused}
    ensures var next := if command.Some? then Switch(s.control.status, command.value) else None;
            Serves(s, added, Work(s, next, start, m))
  {
    var s' := s;
    if s.control.status == Sampling {
      added := TakeSampleServes(s, start, m);
      s' := TakeSample(s, start, m);
    } else {
      added := [];
      ServesNothing(s, s);
    }
    if !s'.control.ended && command.Some? {
      BecomeKeepsProtocol(false, s'.control, command.value, m.listenerGone);
    }
  }

  /** One iteration after the first: it keeps the status protocol, adds at most one sample, and
      that sample is the outcome of one sweep over the active addresses. */
  lemma StepServes(s: Thread, start: Stamp, m: Moment) returns (added: seq<Sample<nat>>)
    requires Consistent(s.gdb) && Protocol(false, s.control) && s.control.status != Initializing
    ensures Serves(s, added, Step(s, start, m))
    ensures !Step(s, start, m).control.ended ==> Step(s, start, m).control.status != Initializing
  {
    var c := s.control.(queue := s.control.queue + m.arrivals);
    if c.ended || c.status == Terminated || (c.queue == [] && m.disconnected) {
      added := [];
      if !c.ended && c.status != Terminated {
        FailKeepsProtocol(false, c, m.listenerGone);
      }
      ServesNothing(s, Step(s, start, m));
    } else if c.queue == [] {
      added := WorkServes(Thread(c, s.active, s.gdb), None, start, m);
    } else {
      var command := c.queue[0];
      var active := if command.SetActive? then command.ids else s.active;
      added := WorkServes(Thread(Take(c), active, s.gdb), Some(command), start, m);
    }
  }

  /** The addresses that are active after an iteration's command. */
  function ActiveIn(s: Thread, m: Moment): seq<u32> {
    var queue := s.control.queue + m.arrivals;
    if queue != [] && queue[0].SetActive? then queue[0].ids else s.active
  }

  /** Exactly the iterations with which the thread ends. */
  lemma StepEndsIff(s: Thread, start: Stamp, m: Moment)
    requires Consistent(s.gdb) && !s.control.ended
    ensures var queue := s.control.queue + m.arrivals;
            Step(s, start, m).control.ended <==>
            match s.control.status {
              case Initializing => Transmit(s.gdb, CONTINUE).0.Err? || m.listenerGone
              case Terminated => true
              case _ =>
                || (queue == [] && m.disconnected)
                || (s.control.status == Sampling &&
                    (Collect(ActiveIn(s, m), s.gdb).result.Err? || (ActiveIn(s, m) != [] && m.samplesGone)))
                || (queue != [] && ChangesStatus(s.control.status, queue[0]) && m.listenerGone)
            }
  {
    hide Collect, Transmit;
    var queue := s.control.queue + m.arrivals;
    if queue != [] {
      SwitchIff(s.control.status, queue[0]);
    }
  }

  /** `time` is the middle between two stamps, in whole microseconds since `start`; a stamp before
      `start` counts as `start`. */
  ghost predicate IsMiddle(start: Stamp, requestedAt: Stamp, receivedAt: Stamp, time: nat) {
    var from := if requestedAt < start then start else requestedAt;
    var to := if receivedAt < start then start else receivedAt;
    2 * time <= (from - start) + (to - start) <= 2 * time + 1
  }

  /** The sample that a completed sweep sends: its values, and for its time the middle between the
      stamps of the first request and of the first response behind it. */
  lemma SweepIsSent(s: Thread, start: Stamp, m: Moment)
    requires Consistent(s.gdb) && s.active != [] && !m.samplesGone && Collect(s.active, s.gdb).result.Ok?
    ensures var (requested, c1) := Transmit(s.gdb, ReadRequest(s.active[0]));
            var first := NextResponse(c1).0;
            && requested.Ok? && first.Ok?
            && exists time: nat ::
                 && IsMiddle(start, requested.value, first.value.1, time)
                 && TakeSample(s, start, m).control ==
                    Emit(s.control, Sample(time, Collect(s.active, s.gdb).result.value))
  {
    SweepStamps(s.active, s.gdb);
    var sweep := Collect(s.active, s.gdb);
    var time := SampleTime(start, sweep.requestedAt.value, sweep.receivedAt.value);
    assert IsMiddle(start, sweep.requestedAt.value, sweep.receivedAt.value, time);
  }

  /** The first iteration lets the target run; it sends no sample and no read request. */
  lemma FirstStep(s: Thread, start: Stamp, m: Moment)
    requires Consistent(s.gdb) && Protocol(false, s.control) && s.control.status == Initializing
    ensures var s' := Step(s, start, m);
            && Protocol(false, s'.control) && Samples(s'.control.outputs) == Samples(s.control.outputs)
            && Upcoming(s'.gdb) == Upcoming(s.gdb) && s'.active == s.active
            && (!s'.control.ended ==>
                  s'.control.status == Sampling && s'.gdb.sent == s.gdb.sent + [BuildPacket(CONTINUE)])
  {
    var c := s.control.(queue := s.control.queue + m.arrivals);
    if !c.ended {
      FailKeepsProtocol(false, c, m.listenerGone);
      BecomeKeepsProtocol(false, c, Stop, m.listenerGone);
    }
  }

  // ---- whole runs ----

  lemma {:induction false} EndedStays(s: Thread, start: Stamp, ms: seq<Moment>)
    requires Consistent(s.gdb) && s.control.ended
    ensures Run(s, start, ms) == s
    decreases |ms|
  {
    if ms != [] {
      EndedStays(s, start, ms[1..]);
    }
  }

  lemma {:induction false} PairsOfMore(a: seq<Sample<nat>>, b: seq<Sample<nat>>)
    ensures Pairs(a + b) == Pairs(a) + Pairs(b)
  {
    if a == [] {
      assert a + b == b;
    } else {
      RestOfConcat(a, b);
      PairsOfMore(a[1..], b);
      assert Pairs(a + b) == a[0].values + Pairs(a[1..] + b);
      Associative(a[0].values, Pairs(a[1..]), Pairs(b));
    }
  }

  /** Request/response pairing never drifts. Over any run the values sent are, one by one and in
      order, the readings that arrive on the connection, and the requests sent for them are, in
      the same order, those for the addresses they are reported under; while the thread runs,
      nothing else has been sent or used up. */
  lemma {:induction false} PairingNeverDrifts(s: Thread, start: Stamp, ms: seq<Moment>)
    returns (added: seq<Sample<nat>>)
    requires Consistent(s.gdb) && Protocol(false, s.control) && s.control.status != Initializing
    ensures var s' := Run(s, start, ms);
            && Protocol(false, s'.control)
            && Samples(s'.control.outputs) == Samples(s.control.outputs) + added
            && Served(s.gdb, Pairs(added), s'.gdb)
            && (!s'.control.ended ==> Exchanged(s.gdb, Pairs(added), s'.gdb))
    decreases |ms|
  {
    added := [];
    ExchangedNothing(s.gdb, s.gdb);
    assert Samples(s.control.outputs) + [] == Samples(s.control.outputs);
    if ms != [] {
      var next := Step(s, start, ms[0]);
      var first := StepServes(s, start, ms[0]);
      if next.control.ended {
        EndedStays(next, start, ms[1..]);
        added := first;
      } else {
        var later := PairingNeverDrifts(next, start, ms[1..]);
        added := first + later;
        Associative(Samples(s.control.outputs), first, later);
        PairsOfMore(first, later);
        ServedAfter(s.gdb, Pairs(first), next.gdb, Pairs(later), Run(s, start, ms).gdb);
        if !Run(s, start, ms).control.ended {
          ExchangedTwice(s.gdb, Pairs(first), next.gdb, Pairs(later), Run(s, start, ms).gdb);
        }
      }
    }
  }

  lemma PrefixValues(pairs: seq<(u32, nat)>, all: seq<nat>)
    requires Values(pairs) <= all
    ensures |pairs| <= |all| && forall k :: 0 <= k < |pairs| ==> pairs[k].1 == all[k]
  {
    forall k | 0 <= k < |pairs| ensures pairs[k].1 == all[k] {
      assert Values(pairs)[k] == all[k];
    }
  }

  lemma PrefixRequests(pairs: seq<(u32, nat)>, before: seq<Bytes>, all: seq<Bytes>)
    requires before + Requests(pairs) <= all
    ensures |before| + |pairs| <= |all|
    ensures forall k :: 0 <= k < |pairs| ==> all[|before| + k] == BuildPacket(ReadRequest(pairs[k].0))
  {
    forall k | 0 <= k < |pairs| ensures all[|before| + k] == BuildPacket(ReadRequest(pairs[k].0)) {
      assert (before + Requests(pairs))[|before| + k] == all[|before| + k];
    }
  }

  /** The whole loop, from its first iteration. */
  lemma LoopServes(s: Thread, start: Stamp, ms: seq<Moment>) returns (added: seq<Sample<nat>>)
    requires Consistent(s.gdb) && Protocol(false, s.control) && s.control == Fresh()
    ensures var s' := Run(s, start, ms);
            && Protocol(false, s'.control) && Samples(s'.control.outputs) == added
            && Values(Pairs(added)) <= Readings(Upcoming(s.gdb))
            && (added != [] ==> s.gdb.sent + [BuildPacket(CONTINUE)] + Requests(Pairs(added)) <= s'.gdb.sent)
  {
    added := [];
    if ms != [] {
      FirstStep(s, start, ms[0]);
      var s1 := Step(s, start, ms[0]);
      if s1.control.ended {
        EndedStays(s1, start, ms[1..]);
      } else {
        added := PairingNeverDrifts(s1, start, ms[1..]);
        assert [] + added == added;
      }
    }
  }

  /** Every run follows the status protocol, whatever the server sends and whatever fails. */
  lemma RunFollowsProtocol(c: Client, listenerGone: bool, start: Stamp, ms: seq<Moment>)
    requires Consistent(c)
    ensures Protocol(false, Run(Begin(c, listenerGone), start, ms).control)
  {
    var s := Begin(c, listenerGone);
    assert Protocol(false, Fresh<nat>());
    FailKeepsProtocol(false, Fresh<nat>(), listenerGone);
    if s.control.ended {
      EndedStays(s, start, ms);
    } else {
      var added := LoopServes(s, start, ms);
    }
  }

  // ---- commands and Stop ----

  lemma StepAdvances(s: Thread, start: Stamp, m: Moment)
    requires Consistent(s.gdb)
    ensures Advances(s.control, Step(s, start, m).control, m.arrivals)
  {}

  ghost predicate Follows(s: Thread) {
    Obedient(s.control) && (!s.control.ended ==> s.active == AfterCommands(s.control.handled).1)
  }

  lemma StepFollows(s: Thread, start: Stamp, m: Moment)
    requires Consistent(s.gdb) && Follows(s)
    ensures var next := Step(s, start, m);
            && Follows(next)
            && (!next.control.ended ==>
                  next.control.handled + next.control.queue == s.control.handled + s.control.queue + m.arrivals)
  {
    StepAdvances(s, start, m);
    AdvanceObeys(s.control, Step(s, start, m).control, m.arrivals);
    var queue := s.control.queue + m.arrivals;
    if queue != [] {
      AfterOneMore(s.control.handled, queue[0]);
    }
  }

  /** Commands are taken in the order of sending, none is lost or repeated, and the status and
      the active addresses are those that the commands taken so far ask for. */
  lemma {:induction false} CommandsAreObeyed(s: Thread, start: Stamp, ms: seq<Moment>)
    requires Consistent(s.gdb) && Follows(s)
    ensures var s' := Run(s, start, ms);
            && Follows(s')
            && (!s'.control.ended ==>
                  s'.control.handled + s'.control.queue ==
                  s.control.handled + s.control.queue + Arrivals(ms))
    decreases |ms|
  {
    var before := s.control.handled + s.control.queue;
    if ms == [] {
      assert before + [] == before;
    } else {
      StepFollows(s, start, ms[0]);
      var next := Step(s, start, ms[0]);
      CommandsAreObeyed(next, start, ms[1..]);
      Associative(before, ms[0].arrivals, Arrivals(ms[1..]));
      if next.control.ended {
        EndedStays(next, start, ms[1..]);
      }
    }
  }

  /** With Stop queued, or arriving next, so that the loop is left within `n` iterations, at most
      `n - 1` more samples are sent. */
  lemma {:induction false} StopIsSwift(s: Thread, start: Stamp, ms: seq<Moment>, n: nat)
    requires Consistent(s.gdb) && Protocol(false, s.control) && s.control.status != Initializing
    requires Leaving(Queued(s.control, NextArrivals(ms)), n)
    ensures var s' := Run(s, start, ms);
            && |Samples(s'.control.outputs)| <= |Samples(s.control.outputs)| + (if n == 0 then 0 else n - 1)
            && (|ms| >= n ==> s'.control.ended)
    decreases |ms|
  {
    if s.control.ended {
      EndedStays(s, start, ms);
    } else if ms != [] {
      var next := Step(s, start, ms[0]);
      var added := StepServes(s, start, ms[0]);
      StepAdvances(s, start, ms[0]);
      AdvanceLeaves(s.control, next.control, ms[0].arrivals, n);
      if next.control.ended {
        EndedStays(next, start, ms[1..]);
      } else {
        LaterArrivals(next.control, NextArrivals(ms[1..]), n - 1);
        StopIsSwift(next, start, ms[1..], n - 1);
      }
    }
  }

  /** Whatever the thread is doing when Stop arrives behind `k` commands: at most `k + 2` more
      samples are sent, and `stop` joins the thread within `k + 3` iterations, both counting the
      iteration in progress. */
  lemma StopDuringIteration(s: Thread, start: Stamp, now: Moment, ms: seq<Moment>, k: nat)
    requires Consistent(s.gdb) && Protocol(false, s.control)
    requires ms != [] && StopBehind(Step(s, start, now).control.queue + ms[0].arrivals, k)
    ensures var s' := Run(s, start, [now] + ms);
            && |Samples(s'.control.outputs)| <= |Samples(s.control.outputs)| + k + 2
            && (|ms| >= k + 2 ==> s'.control.ended)
  {
    var next := Step(s, start, now);
    assert ([now] + ms)[1..] == ms;
    if s.control.status == Initializing {
      FirstStep(s, start, now);
    } else {
      var added := StepServes(s, start, now);
    }
    if next.control.ended {
      EndedStays(next, start, ms);
    } else {
      StopIsSwift(next, start, ms, k + 2);
    }
  }
}
