/** The memory sampler on a connection to a server that answers every read request once
    (src/sampler/memsampler.rs), whatever else the server sends in between. */
module MemServer {
  import opened Common
  import opened Reassembly
  import opened GdbPacket
  import opened GdbRemote
  import opened MemReply
  import opened MemSampler
  import opened Sampler

  // What the server sends for one read request: any other responses, then the memory.
  datatype Exchange = Exchange(noise: seq<Response>, memory: Bytes)

  function Script(exchanges: seq<Exchange>, tail: seq<Response>): seq<Response> {
    if exchanges == [] then tail
    else exchanges[0].noise + [Packet(MemoryReply(exchanges[0].memory))] + Script(exchanges[1..], tail)
  }

  /** Acknowledgements, 'O' packets and anything else that is not hexadecimal. */
  ghost predicate Quiet(responses: seq<Response>) {
    Readings(responses) == []
  }

  ghost predicate Words(exchanges: seq<Exchange>) {
    forall e :: e in exchanges ==> |e.memory| == 4
  }

  // ---- positions of readings ----

  /** Where the k-th reading stands among the responses. */
  function ReadingAt(responses: seq<Response>, k: nat): (p: nat)
    requires k < |Readings(responses)|
    ensures p < |responses| && Reading(responses[p]) == Some(Readings(responses)[k])
    ensures |Readings(responses[..p])| == k
  {
    if Reading(responses[0]).None? then
      var p := ReadingAt(responses[1..], k);
      ReadingsOfPrefix(responses, p);
      p + 1
    else if k == 0 then 0
    else
      var p := ReadingAt(responses[1..], k - 1);
      ReadingsOfPrefix(responses, p);
      p + 1
  }

  lemma ReadingsOfPrefix(responses: seq<Response>, p: nat)
    requires p < |responses|
    ensures |Readings(responses[..p + 1])| ==
            |Readings(responses[1..][..p])| + if Reading(responses[0]).Some? then 1 else 0
  {
    assert responses[..p + 1][1..] == responses[1..][..p];
  }

  lemma ReadingsGrow(responses: seq<Response>, p: nat, q: nat)
    requires p < q <= |responses| && Reading(responses[p]).Some?
    ensures |Readings(responses[..p])| < |Readings(responses[..q])|
  {
    var from := responses[p..q];
    assert responses[..q] == responses[..p] + from;
    ReadingsAppend(responses[..p], from);
    assert from[0] == responses[p];
  }

  lemma ReadingIsAt(responses: seq<Response>, p: nat)
    requires p < |responses| && Reading(responses[p]).Some?
    ensures |Readings(responses[..p])| < |Readings(responses)|
    ensures ReadingAt(responses, |Readings(responses[..p])|) == p
  {
    assert responses[..|responses|] == responses;
    ReadingsGrow(responses, p, |responses|);
    var q := ReadingAt(responses, |Readings(responses[..p])|);
    if q < p {
      ReadingsGrow(responses, q, p);
    } else if p < q {
      ReadingsGrow(responses, p, q);
    }
  }

  /** Where the answer of exchange `j` stands. */
  function AnswerAt(exchanges: seq<Exchange>, j: nat): nat
    requires j < |exchanges|
  {
    |exchanges[0].noise| + if j == 0 then 0 else 1 + AnswerAt(exchanges[1..], j - 1)
  }

  /** How many readings that nobody asked for come with the first `n` exchanges. */
  function Strays(exchanges: seq<Exchange>, n: nat): nat
    requires n <= |exchanges|
  {
    if n == 0 then 0 else |Readings(exchanges[0].noise)| + Strays(exchanges[1..], n - 1)
  }

  lemma {:induction false} NoStraysIff(exchanges: seq<Exchange>, n: nat)
    requires n <= |exchanges|
    ensures Strays(exchanges, n) == 0 <==> forall j :: 0 <= j < n ==> Quiet(exchanges[j].noise)
  {
    if n > 0 {
      var rest := exchanges[1..];
      NoStraysIff(rest, n - 1);
      assert forall j :: 0 < j < n ==> exchanges[j] == rest[j - 1];
      assert forall j :: 0 <= j < n - 1 ==> rest[j] == exchanges[j + 1];
    }
  }

  lemma OneExchange(e: Exchange, rest: seq<Response>)
    requires |e.memory| == 4
    ensures Reading(Packet(MemoryReply(e.memory))) == Some(FloatBits(e.memory))
    ensures Readings(e.noise + [Packet(MemoryReply(e.memory))] + rest) ==
            Readings(e.noise) + [FloatBits(e.memory)] + Readings(rest)
  {
    var reply := Packet(MemoryReply(e.memory));
    ReplyYieldsMemory(e.memory);
    ReadingsAppend(e.noise + [reply], rest);
    ReadingsAppend(e.noise, [reply]);
    assert Readings([reply]) == [FloatBits(e.memory)];
  }

  /** The number of readings in a script. */
  lemma {:induction false} CountReadings(exchanges: seq<Exchange>, tail: seq<Response>)
    requires Words(exchanges)
    ensures |Readings(Script(exchanges, tail))| == |exchanges| + Strays(exchanges, |exchanges|) + |Readings(tail)|
  {
    if exchanges != [] {
      OneExchange(exchanges[0], Script(exchanges[1..], tail));
      CountReadings(exchanges[1..], tail);
    }
  }

  /** At position `p` stands a reading with value `v`, and `n` readings come before it. */
  ghost predicate Stands(responses: seq<Response>, p: nat, v: nat, n: nat) {
    p < |responses| && Reading(responses[p]) == Some(v) && |Readings(responses[..p])| == n
  }

  /** The answer of exchange `j` is a reading, and the readings before it are the answers of the
      exchanges before and the strays so far. */
  lemma {:induction false} AnswerIsReading(exchanges: seq<Exchange>, tail: seq<Response>, j: nat)
    requires Words(exchanges) && j < |exchanges|
    ensures Stands(Script(exchanges, tail), AnswerAt(exchanges, j), FloatBits(exchanges[j].memory),
                   j + Strays(exchanges, j + 1))
  {
    hide Stands, Readings, FloatBits;
    var e, rest := exchanges[0], exchanges[1..];
    if j == 0 {
      AnswerStands(e, Script(rest, tail));
      assert Strays(exchanges, 1) == |Readings(e.noise)| + Strays(rest, 0);
    } else {
      AnswerIsReading(rest, tail, j - 1);
      BehindExchange(e, Script(rest, tail), AnswerAt(rest, j - 1), FloatBits(rest[j - 1].memory),
                     j - 1 + Strays(rest, j));
    }
  }

  lemma AnswerStands(e: Exchange, later: seq<Response>)
    requires |e.memory| == 4
    ensures Stands(e.noise + [Packet(MemoryReply(e.memory))] + later, |e.noise|, FloatBits(e.memory),
                   |Readings(e.noise)|)
  {
    OneExchange(e, later);
    assert (e.noise + [Packet(MemoryReply(e.memory))] + later)[..|e.noise|] == e.noise;
  }

  /** The same reading, seen from the beginning of an exchange before it. */
  lemma BehindExchange(e: Exchange, later: seq<Response>, p: nat, v: nat, n: nat)
    requires |e.memory| == 4 && Stands(later, p, v, n)
    ensures Stands(e.noise + [Packet(MemoryReply(e.memory))] + later, |e.noise| + 1 + p, v,
                   |Readings(e.noise)| + 1 + n)
  {
    var all := e.noise + [Packet(MemoryReply(e.memory))] + later;
    OneExchange(e, later[..p]);
    assert all[..|e.noise| + 1 + p] == e.noise + [Packet(MemoryReply(e.memory))] + later[..p];
  }

  /** Strays shift answers: the answer of exchange `j` is reading number `j` plus the number of strays
      that came before it. */
  lemma AnswerIsShifted(exchanges: seq<Exchange>, tail: seq<Response>, j: nat)
    requires Words(exchanges) && j < |exchanges|
    ensures var script, k := Script(exchanges, tail), j + Strays(exchanges, j + 1);
            k < |Readings(script)| && ReadingAt(script, k) == AnswerAt(exchanges, j)
            && Readings(script)[k] == FloatBits(exchanges[j].memory)
  {
    hide Script, Strays, AnswerAt, Readings, Reading, ReadingAt;
    AnswerIsReading(exchanges, tail, j);
    ReadingIsAt(Script(exchanges, tail), AnswerAt(exchanges, j));
  }

  /** So reading number `k` is the answer of exchange `k` exactly if there were no strays up to it. */
  lemma OwnAnswerIff(exchanges: seq<Exchange>, tail: seq<Response>, k: nat)
    requires Words(exchanges) && k < |exchanges| && k < |Readings(Script(exchanges, tail))|
    ensures ReadingAt(Script(exchanges, tail), k) == AnswerAt(exchanges, k) <==>
            forall j :: 0 <= j <= k ==> Quiet(exchanges[j].noise)
  {
    hide Script, Readings, Reading, ReadingAt, AnswerAt, Strays;
    NoStraysIff(exchanges, k + 1);
    AnswerIsReading(exchanges, tail, k);
    AnswerIsShifted(exchanges, tail, k);
  }

  /** With no strays at all, reading number `k` is what exchange `k` read. */
  lemma OwnReading(exchanges: seq<Exchange>, tail: seq<Response>, k: nat)
    requires Words(exchanges) && k < |exchanges| && forall e :: e in exchanges ==> Quiet(e.noise)
    ensures k < |Readings(Script(exchanges, tail))|
    ensures Readings(Script(exchanges, tail))[k] == FloatBits(exchanges[k].memory)
  {
    hide Script, Readings, Strays;
    NoStraysIff(exchanges, k + 1);
    AnswerIsShifted(exchanges, tail, k);
  }

  // ---- runs ----

  /** The state in which the handshake leaves a connection to such a server. */
  lemma HandshakeLeavesScript(rs: seq<Response>, inbox: seq<Incoming>, clock: seq<Option<Stamp>>, listenerGone: bool)
    requires var sent := [ACK, ACK, Packet(OK)] + rs;
             Encodable(sent) && AllBytes(inbox) == EncodeAll(sent)
    ensures var s := Begin(Connected(inbox, clock), listenerGone);
            && Protocol(false, s.control) && Samples(s.control.outputs) == []
            && (!s.control.ended ==>
                  && s.control == Fresh() && Upcoming(s.gdb) == rs
                  && s.gdb.sent == [BuildPacket(NO_ACK_MODE)])
  {
    var c := Connected(inbox, clock);
    var s := Begin(c, listenerGone);
    assert Protocol(false, Fresh<nat>());
    FailKeepsProtocol(false, Fresh<nat>(), listenerGone);
    if !s.control.ended {
      HandshakeConsumes(c);
      CutResponseStable();
      SessionIsCutAll(CutResponse, [], inbox);
      StreamRoundTrip([ACK, ACK, Packet(OK)] + rs, inbox);
      SameTail([ACK, ACK, Packet(OK)], rs, Upcoming(s.gdb));
    }
  }

  lemma SameTail<T>(head: seq<T>, a: seq<T>, b: seq<T>)
    requires head + a == head + b
    ensures a == b
  {
    assert a == (head + a)[|head|..] && b == (head + b)[|head|..];
  }

  /** The server has encoded the responses to the handshake and then the script, and the network
      delivers these bytes, in any pieces and with failures anywhere. */
  ghost predicate Provides(inbox: seq<Incoming>, script: seq<Response>) {
    var responses := [ACK, ACK, Packet(OK)] + script;
    Encodable(responses) && AllBytes(inbox) == EncodeAll(responses)
  }

  function WholeRun(inbox: seq<Incoming>, clock: seq<Option<Stamp>>, start: Stamp, listenerGone: bool, ms: seq<Moment>)
    : (s: Thread)
    ensures Consistent(s.gdb)
  {
    Run(Begin(Connected(inbox, clock), listenerGone), start, ms)
  }

  /** All values reported, with the addresses under which they are. */
  function ReportedPairs(s: Thread): seq<(u32, nat)> {
    Pairs(Samples(s.control.outputs))
  }

  /** The two packets that open a session: switch acknowledgements off, and let the target run. */
  ghost predicate Opened(sent: seq<Bytes>) {
    |sent| >= 2 && sent[0] == "$" + "QStartNoAckMode" + "#b0" && sent[1] == "$" + "c" + "#63"
  }

  /** The k-th value is the k-th reading on the connection, and the k-th read request (after the two
      packets that start the session) named the address under which it is reported. */
  ghost predicate TakenInOrder(s: Thread, script: seq<Response>) {
    var pairs := ReportedPairs(s);
    && |pairs| <= |Readings(script)|
    && (pairs != [] ==> |pairs| + 2 <= |s.gdb.sent| && Opened(s.gdb.sent))
    && forall k :: 0 <= k < |pairs| ==>
         && pairs[k].1 == Readings(script)[k]
         && s.gdb.sent[2 + k] == BuildPacket(ReadRequest(pairs[k].0))
  }

  /** Whatever the server sends, readings or not: the k-th value is the k-th reading. */
  lemma ReadingsAreTakenInOrder(
    script: seq<Response>, inbox: seq<Incoming>, clock: seq<Option<Stamp>>, start: Stamp, listenerGone: bool,
    ms: seq<Moment>)
    requires Provides(inbox, script)
    ensures TakenInOrder(WholeRun(inbox, clock, start, listenerGone, ms), script)
  {
    hide Opened, BuildPacket, Begin;
    var s := Begin(Connected(inbox, clock), listenerGone);
    var s' := WholeRun(inbox, clock, start, listenerGone, ms);
    HandshakeLeavesScript(script, inbox, clock, listenerGone);
    if s.control.ended {
      EndedStays(s, start, ms);
    } else {
      var added := LoopServes(s, start, ms);
      SessionOpens(s.gdb.sent);
      PairsAreTaken(s', script, s.gdb.sent + [BuildPacket(CONTINUE)]);
    }
  }

  lemma SessionOpens(sent: seq<Bytes>)
    requires sent == [BuildPacket(NO_ACK_MODE)]
    ensures Opened(sent + [BuildPacket(CONTINUE)])
  {
    OpeningPackets();
  }

  lemma OpenedFirst(before: seq<Bytes>, requests: seq<Bytes>, sent: seq<Bytes>)
    requires Opened(before) && before + requests <= sent
    ensures Opened(sent)
  {
    assert sent[0] == (before + requests)[0] && sent[1] == (before + requests)[1];
  }

  lemma PairsAreTaken(s: Thread, script: seq<Response>, before: seq<Bytes>)
    requires var samples := Samples(s.control.outputs);
             Values(Pairs(samples)) <= Readings(script) &&
             (samples != [] ==> before + Requests(Pairs(samples)) <= s.gdb.sent)
    requires |before| == 2 && Opened(before)
    ensures TakenInOrder(s, script)
  {
    hide Opened;
    var pairs := ReportedPairs(s);
    PrefixValues(pairs, Readings(script));
    if pairs != [] {
      PrefixRequests(pairs, before, s.gdb.sent);
      OpenedFirst(before, Requests(pairs), s.gdb.sent);
    }
  }

  /** Exactly when a value is the one that was read for it. In any run, value number `k` is the answer
      to request number `k` if and only if no exchange up to that one came with a reading that
      nobody asked for. */
  lemma OwnReplyIff(
    exchanges: seq<Exchange>, tail: seq<Response>, inbox: seq<Incoming>, clock: seq<Option<Stamp>>, start: Stamp,
    listenerGone: bool, ms: seq<Moment>)
    requires Words(exchanges) && Provides(inbox, Script(exchanges, tail))
    ensures var s, script := WholeRun(inbox, clock, start, listenerGone, ms), Script(exchanges, tail);
            && TakenInOrder(s, script)
            && forall k :: 0 <= k < |ReportedPairs(s)| && k < |exchanges| ==>
                 (ReadingAt(script, k) == AnswerAt(exchanges, k) <==>
                  forall j :: 0 <= j <= k ==> Quiet(exchanges[j].noise))
  {
    var s := WholeRun(inbox, clock, start, listenerGone, ms);
    ReadingsAreTakenInOrder(Script(exchanges, tail), inbox, clock, start, listenerGone, ms);
    forall k | 0 <= k < |ReportedPairs(s)| && k < |exchanges|
      ensures ReadingAt(Script(exchanges, tail), k) == AnswerAt(exchanges, k) <==>
              forall j :: 0 <= j <= k ==> Quiet(exchanges[j].noise)
    {
      OwnAnswerIff(exchanges, tail, k);
    }
  }

  /** What happens otherwise: in any run, the answer to request `j` is reported as value number `j`
      plus the number of strays up to it, if that many values are reported at all. One stray shifts
      all later values by one place, for ever. */
  lemma StrayReplyShiftsEverything(
    exchanges: seq<Exchange>, tail: seq<Response>, inbox: seq<Incoming>, clock: seq<Option<Stamp>>, start: Stamp,
    listenerGone: bool, ms: seq<Moment>, j: nat)
    requires Words(exchanges) && Provides(inbox, Script(exchanges, tail)) && j < |exchanges|
    ensures var s, k := WholeRun(inbox, clock, start, listenerGone, ms), j + Strays(exchanges, j + 1);
            TakenInOrder(s, Script(exchanges, tail)) &&
            (k < |ReportedPairs(s)| ==>
              && ReportedPairs(s)[k].1 == FloatBits(exchanges[j].memory)
              && ReadingAt(Script(exchanges, tail), k) == AnswerAt(exchanges, j))
  {
    ReadingsAreTakenInOrder(Script(exchanges, tail), inbox, clock, start, listenerGone, ms);
    ShiftedValue(WholeRun(inbox, clock, start, listenerGone, ms), exchanges, tail, j);
  }

  lemma ShiftedValue(s: Thread, exchanges: seq<Exchange>, tail: seq<Response>, j: nat)
    requires Words(exchanges) && j < |exchanges| && TakenInOrder(s, Script(exchanges, tail))
    ensures var k := j + Strays(exchanges, j + 1);
            k < |ReportedPairs(s)| ==>
              && ReportedPairs(s)[k].1 == FloatBits(exchanges[j].memory)
              && ReadingAt(Script(exchanges, tail), k) == AnswerAt(exchanges, j)
  {
    AnswerIsShifted(exchanges, tail, j);
  }

  /** The k-th value is what the k-th exchange read, and the k-th read request named the address it is
      reported under. */
  ghost predicate OwnReplies(s: Thread, exchanges: seq<Exchange>)
    requires Words(exchanges)
  {
    var pairs := ReportedPairs(s);
    && |pairs| <= |exchanges|
    && (pairs != [] ==> |pairs| + 2 <= |s.gdb.sent| && Opened(s.gdb.sent))
    && forall k :: 0 <= k < |pairs| ==>
         && IsWord(pairs[k].1, exchanges[k].memory)
         && s.gdb.sent[2 + k] == BuildPacket(ReadRequest(pairs[k].0))
  }

  /** End to end, from bytes to samples. The server acknowledges the connection and answers each
      read request once, with anything but readings in between; the network may cut the bytes
      anywhere and the calls may fail anywhere. Then the k-th value the thread sends is the float
      in the four bytes that answered the k-th request, and that request named the address under
      which the value is reported. */
  lemma MemoryArrivesInOrder(
    exchanges: seq<Exchange>, tail: seq<Response>, inbox: seq<Incoming>, clock: seq<Option<Stamp>>, start: Stamp,
    listenerGone: bool, ms: seq<Moment>)
    requires Words(exchanges) && Provides(inbox, Script(exchanges, tail))
    requires Quiet(tail) && forall e :: e in exchanges ==> Quiet(e.noise)
    ensures OwnReplies(WholeRun(inbox, clock, start, listenerGone, ms), exchanges)
  {
    ReadingsAreTakenInOrder(Script(exchanges, tail), inbox, clock, start, listenerGone, ms);
    QuietMeansOwn(WholeRun(inbox, clock, start, listenerGone, ms), exchanges, tail);
  }

  lemma QuietMeansOwn(s: Thread, exchanges: seq<Exchange>, tail: seq<Response>)
    requires Words(exchanges) && TakenInOrder(s, Script(exchanges, tail))
    requires Quiet(tail) && forall e :: e in exchanges ==> Quiet(e.noise)
    ensures OwnReplies(s, exchanges)
  {
    CountReadings(exchanges, tail);
    NoStraysIff(exchanges, |exchanges|);
    forall k | 0 <= k < |ReportedPairs(s)| ensures ReportedPairs(s)[k].1 == FloatBits(exchanges[k].memory) {
      OwnReading(exchanges, tail, k);
    }
  }

  // ---- a run that goes wrong ----

  ghost predicate FaultFree(inbox: seq<Incoming>) {
    forall i :: 0 <= i < |inbox| ==> inbox[i].Data?
  }

  /** Without failures, a response that is on its way is handed out. */
  lemma {:induction false} ReceivesNext(c: Client)
    requires Consistent(c) && FaultFree(c.inbox) && Upcoming(c) != []
    ensures var (r, c') := NextResponse(c);
            && r.Ok? && r.value.0 == Upcoming(c)[0]
            && FaultFree(c'.inbox) && Upcoming(c') == Upcoming(c)[1..]
    decreases |c.inbox|
  {
    NextTakesFirst(c);
    if CutResponse(c.buffer).None? && c.inbox != [] {
      var fed := Feed(c);
      assert c.buffer + AllBytes(c.inbox) == fed.buffer + AllBytes(fed.inbox) by {
        Associative(c.buffer, c.inbox[0].bytes, AllBytes(c.inbox[1..]));
      }
      ReceivesNext(fed);
    }
  }

  const ERROR: Response := Packet("E01")

  /** The float that the sampler takes an `E01` for. */
  lemma ErrorIsReading()
    ensures Reading(ERROR) == Some(0x010E_0000)
  {
    PowersOf16();
    assert "E" + HexFixed(2, 1) == "E01" by {
      assert HexFixed(1, 0) == HexFixed(0, 0) + ['0'];
    }
    ErrorRepliesAreTakenForValues(1);
    assert ToBigEndian(0xE01) == ['\0', '\0', 0xE as char, 1 as char] by {
      assert EncodeBigEndian(1, 0) == ['\0'] && EncodeBigEndian(2, 0) == ['\0', '\0'];
      assert EncodeBigEndian(3, 0xE) == ['\0', '\0', 0xE as char];
    }
  }

  lemma HandshakeSucceeds(c: Client, script: seq<Response>)
    requires Consistent(c) && FaultFree(c.inbox) && Upcoming(c) == [ACK, ACK, Packet(OK)] + script
    requires c.clock != [] && c.clock[0].Some?
    ensures var (ready, c') := Handshake(c);
            && ready && FaultFree(c'.inbox) && Upcoming(c') == script && c'.clock == c.clock[1..]
  {
    ThreeInARow(ACK, ACK, Packet(OK), script);
    Receives(c, ACK, [ACK] + ([Packet(OK)] + script));
    var c2 := Transmit(NextResponse(c).1, NO_ACK_MODE).1;
    Receives(c2, ACK, [Packet(OK)] + script);
    Receives(NextResponse(c2).1, Packet(OK), script);
  }

  lemma Receives(c: Client, first: Response, rest: seq<Response>)
    requires Consistent(c) && FaultFree(c.inbox) && Upcoming(c) == [first] + rest
    ensures var (r, c') := NextResponse(c);
            && r.Ok? && r.value.0 == first
            && FaultFree(c'.inbox) && Upcoming(c') == rest
  {
    ReceivesNext(c);
  }

  // ---- when reading succeeds ----

  /** Without failures on the connection, waiting succeeds exactly if a reading is on its way. */
  lemma {:induction false} AwaitSucceedsIff(c: Client)
    requires Consistent(c) && FaultFree(c.inbox)
    ensures AwaitReply(c).0.Ok? <==> Readings(Upcoming(c)) != []
    ensures FaultFree(AwaitReply(c).2.inbox)
    decreases |c.inbox|, |c.buffer|
  {
    AwaitTakesFirstReading(c);
    NextTakesFirst(c);
    if Upcoming(c) != [] {
      ReceivesNext(c);
      var c' := NextResponse(c).1;
      if Reading(Upcoming(c)[0]).None? {
        AwaitSucceedsIff(c');
      }
    } else {
      NothingComes(c);
    }
  }

  lemma {:induction false} NothingComes(c: Client)
    requires Consistent(c) && FaultFree(c.inbox) && Upcoming(c) == []
    ensures NextResponse(c).0.Err? && FaultFree(NextResponse(c).1.inbox)
    decreases |c.inbox|
  {
    NextTakesFirst(c);
    if CutResponse(c.buffer).None? && c.inbox != [] {
      var fed := Feed(c);
      assert c.buffer + AllBytes(c.inbox) == fed.buffer + AllBytes(fed.inbox) by {
        Associative(c.buffer, c.inbox[0].bytes, AllBytes(c.inbox[1..]));
      }
      NothingComes(fed);
    }
  }

  /** The next `n` transmissions succeed. */
  predicate Sendable(clock: seq<Option<Stamp>>, n: nat) {
    n <= |clock| && forall i :: 0 <= i < n ==> clock[i].Some?
  }

  lemma SameConnection(c: Client, c': Client)
    requires c'.buffer == c.buffer && c'.inbox == c.inbox
    ensures Upcoming(c') == Upcoming(c)
  {}

  lemma ReadSucceedsIff(address: u32, c: Client)
    requires Consistent(c) && FaultFree(c.inbox)
    ensures ReadOne(address, c).result.Ok? <==> Sendable(c.clock, 1) && Readings(Upcoming(c)) != []
    ensures var one := ReadOne(address, c);
            one.result.Ok? ==>
              && FaultFree(one.gdb.inbox) && one.gdb.clock == c.clock[1..]
              && Readings(Upcoming(c)) == [one.result.value] + Readings(Upcoming(one.gdb))
  {
    hide Readings, Upcoming, AwaitReply, ReadRequest;
    var (requested, c1) := Transmit(c, ReadRequest(address));
    assert Upcoming(c1) == Upcoming(c) by { SameConnection(c, c1); }
    if requested.Ok? {
      AwaitSucceedsIff(c1);
      AwaitTakesFirstReading(c1);
    }
  }

  /** Without failures on the connection, a sweep succeeds exactly if its requests can be sent and
      there are enough readings; its values are the first of these. */
  lemma {:induction false} SweepSucceedsIff(addresses: seq<u32>, c: Client)
    requires Consistent(c) && FaultFree(c.inbox)
    ensures Collect(addresses, c).result.Ok? <==>
            Sendable(c.clock, |addresses|) && |addresses| <= |Readings(Upcoming(c))|
    ensures Collect(addresses, c).result.Ok? ==>
              && FaultFree(Collect(addresses, c).gdb.inbox)
              && Collect(addresses, c).gdb.clock == c.clock[|addresses|..]
              && |Readings(Upcoming(Collect(addresses, c).gdb))| == |Readings(Upcoming(c))| - |addresses|
    decreases |addresses|
  {
    hide ReadOne, Readings;
    if addresses != [] {
      var one := ReadOne(addresses[0], c);
      ReadSucceedsIff(addresses[0], c);
      if one.result.Ok? {
        SweepSucceedsIff(addresses[1..], one.gdb);
        SendableNext(c.clock, |addresses|);
        if Sendable(c.clock, |addresses|) {
          assert c.clock[1..][|addresses| - 1..] == c.clock[|addresses|..];
        }
      } else {
        SendableFirst(c.clock, |addresses|);
      }
    }
  }

  lemma SendableNext(clock: seq<Option<Stamp>>, n: nat)
    requires n > 0 && Sendable(clock, 1)
    ensures Sendable(clock, n) <==> Sendable(clock[1..], n - 1)
  {
    if Sendable(clock[1..], n - 1) {
      forall i | 0 <= i < n ensures clock[i].Some? {
        assert i > 0 ==> clock[i] == clock[1..][i - 1];
      }
    }
  }

  lemma SendableFirst(clock: seq<Option<Stamp>>, n: nat)
    requires n > 0
    ensures Sendable(clock, n) ==> Sendable(clock, 1)
  {}

  /** The first response that is on its way is taken for the answer if it is a reading. */
  lemma ReadsFirst(address: u32, c: Client, v: nat)
    requires Consistent(c) && FaultFree(c.inbox) && c.clock != [] && c.clock[0].Some?
    requires Upcoming(c) != [] && Reading(Upcoming(c)[0]) == Some(v)
    ensures ReadOne(address, c).result == Ok(v)
  {
    ReceivesNext(Transmit(c, ReadRequest(address)).1);
  }

  const NOTHING := Moment([], false, false, false)

  /** A thread that starts, and takes one address to sample. */
  lemma SamplesFirst(s: Thread, address: u32, start: Stamp, v: nat)
    requires s.control == Fresh() && Consistent(s.gdb) && FaultFree(s.gdb.inbox)
    requires |s.gdb.clock| == 2 && s.gdb.clock[0].Some? && s.gdb.clock[1].Some?
    requires Upcoming(s.gdb) != [] && Reading(Upcoming(s.gdb)[0]) == Some(v)
    ensures ReportedPairs(Step(Step(s, start, NOTHING.(arrivals := [SetActive([address])])), start, NOTHING)) ==
            [(address, v)]
  {
    var first := NOTHING.(arrivals := [SetActive([address])]);
    var s1 := Step(s, start, first);
    assert s1.control == Fresh<nat>().(status := Sampling, queue := [SetActive([address])],
                                       outputs := [Notified(NewStatus(Sampling))]);
    assert Upcoming(s1.gdb) == Upcoming(s.gdb) && s1.gdb.clock == s.gdb.clock[1..];
    TakesAddress(s1, address, start, v);
  }

  lemma TakesAddress(s: Thread, address: u32, start: Stamp, v: nat)
    requires s.control.status == Sampling && !s.control.ended && s.control.queue == [SetActive([address])]
    requires Samples(s.control.outputs) == []
    requires Consistent(s.gdb) && FaultFree(s.gdb.inbox) && |s.gdb.clock| == 1 && s.gdb.clock[0].Some?
    requires Upcoming(s.gdb) != [] && Reading(Upcoming(s.gdb)[0]) == Some(v)
    ensures ReportedPairs(Step(s, start, NOTHING)) == [(address, v)]
  {
    hide Upcoming, Readings, Reading, Collect;
    var c := Take(s.control);
    assert s.control.queue + [] == s.control.queue;
    assert Step(s, start, NOTHING) == Work(Thread(c, [address], s.gdb), None, start, NOTHING);
    TakesSample(Thread(c, [address], s.gdb), address, start, v);
  }

  lemma TakesSample(s: Thread, address: u32, start: Stamp, v: nat)
    requires s.control.status == Sampling && !s.control.ended && s.active == [address]
    requires Samples(s.control.outputs) == []
    requires Consistent(s.gdb) && FaultFree(s.gdb.inbox) && |s.gdb.clock| == 1 && s.gdb.clock[0].Some?
    requires Upcoming(s.gdb) != [] && Reading(Upcoming(s.gdb)[0]) == Some(v)
    ensures var s' := TakeSample(s, start, NOTHING); !s'.control.ended && ReportedPairs(s') == [(address, v)]
  {
    ReadsFirst(address, s.gdb, v);
    var one := ReadOne(address, s.gdb);
    CollectOne(s.active, s.gdb, one);
    var sample := Sample(SampleTime(start, one.requestedAt.value, one.receivedAt.value), [(address, v)]);
    assert TakeSample(s, start, NOTHING).control == Emit(s.control, sample);
    OneMoreSample(s.control.outputs, Sampled(sample));
    assert [] + [sample] == [sample];
    assert Pairs([sample]) == [(address, v)];
  }

  /** The bytes of such a server, in one segment. */
  lemma ErrorArrives(memory: Bytes, inbox: seq<Incoming>)
    requires |memory| == 4
    requires var script := [ERROR, Packet(MemoryReply(memory))];
             |inbox| == 1 && inbox[0].Data? && inbox[0].bytes == EncodeAll([ACK, ACK, Packet(OK)] + script)
    ensures Provides(inbox, [ERROR, Packet(MemoryReply(memory))])
    ensures CutAll(CutResponse, [] + AllBytes(inbox)).0 ==
            [ACK, ACK, Packet(OK)] + [ERROR, Packet(MemoryReply(memory))]
  {
    var responses := [ACK, ACK, Packet(OK)] + [ERROR, Packet(MemoryReply(memory))];
    ReplyIsEncodable(memory);
    assert Encodable(responses);
    assert AllBytes(inbox[1..]) == [];
    assert AllBytes(inbox) == EncodeAll(responses) + [];
    CutAllEncoded(responses, []);
    assert [] + AllBytes(inbox) == EncodeAll(responses) + [] == EncodeAll(responses);
    assert responses + [] == responses;
  }

  /** A run that reports a value which was never in memory: the server has sent one error report that
      no request asked for, everything else works, and the answer to the first request comes in time.
      The thread reports the number in the error report instead, whatever was read. */
  lemma ErrorIsReported(address: u32, memory: Bytes, start: Stamp, now: Stamp)
    requires |memory| == 4
    ensures var exchanges := [Exchange([ERROR], memory)];
            var inbox := [Data(EncodeAll([ACK, ACK, Packet(OK)] + Script(exchanges, [])), now)];
            var ms := [NOTHING.(arrivals := [SetActive([address])]), NOTHING];
            && inbox[0].bytes != [] && Provides(inbox, Script(exchanges, []))
            && ReportedPairs(WholeRun(inbox, [Some(now), Some(now), Some(now)], start, false, ms)) ==
               [(address, 0x010E_0000)]
  {
    var script := [ERROR, Packet(MemoryReply(memory))];
    assert Script([Exchange([ERROR], memory)], []) == script;
    var bytes := EncodeAll([ACK, ACK, Packet(OK)] + script);
    assert bytes[0] == '+';
    var inbox: seq<Incoming> := [Data(bytes, now)];
    var c := Connected(inbox, [Some(now), Some(now), Some(now)]);
    ErrorArrives(memory, inbox);
    HandshakeSucceeds(c, script);
    ErrorIsReading();
    SamplesFirst(Begin(c, false), address, start, 0x010E_0000);
    TwoSteps(Begin(c, false), start, NOTHING.(arrivals := [SetActive([address])]), NOTHING);
  }

  lemma TwoSteps(s: Thread, start: Stamp, first: Moment, second: Moment)
    requires Consistent(s.gdb)
    ensures Run(s, start, [first, second]) == Step(Step(s, start, first), start, second)
  {
    assert [first, second][1..] == [second] && [second][1..] == [];
    assert Run(Step(s, start, first), start, [second]) == Step(Step(s, start, first), start, second);
  }
}
