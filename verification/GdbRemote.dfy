/** The GDB client (src/gdbremote.rs): a TCP connection, the bytes received but not used yet,
    and the time of the last segment in which something started. The socket is the list of what
    the next receive calls will bring; clocks are the time stamps in that list. */
module GdbRemote {
  import opened Common
  import opened Reassembly
  import opened GdbPacket

  datatype GdbError = IoError | Timeout | EndOfStream

  type Stamp = int  // microseconds of a SystemTime

  // What a receive call brings. One that receives no bytes has met the end of the stream: that is
  // `Fault(EndOfStream)`, so data is never empty.
  type Incoming = a: Arrival<Stamp, GdbError> | a.Data? ==> a.bytes != [] witness Fault(Timeout)

  /** A client and its connection. `arrived` and `eaten` record the past: everything that was
      received, and the bytes of all responses handed out. `clock` gives the outcome of the
      next transmissions: the time stamp, or None for an IO error. */
  datatype Client = Client(
    buffer: Bytes, inbox: seq<Incoming>, arrived: seq<Incoming>, eaten: Bytes,
    sent: seq<Bytes>, clock: seq<Option<Stamp>>)

  function Connected(inbox: seq<Incoming>, clock: seq<Option<Stamp>>): Client {
    Client([], inbox, [], [], [], clock)
  }

  /** No byte is lost or duplicated: what was received is what was handed out and what is kept. */
  ghost predicate Consistent(c: Client) {
    AllBytes(c.arrived) == c.eaten + c.buffer
  }

  /** A segment that holds the first byte of some response. */
  predicate Marked(a: Incoming) {
    a.Data? && ('$' in a.bytes || '+' in a.bytes)
  }

  /** The latest marked segment. */
  function LastMark(arrived: seq<Incoming>): (i: Option<nat>)
    ensures i.Some? ==> i.value < |arrived| && Marked(arrived[i.value])
    ensures forall j :: (if i.Some? then i.value + 1 else 0) <= j < |arrived| ==> !Marked(arrived[j])
  {
    if arrived == [] then None
    else if Marked(arrived[|arrived| - 1]) then Some(|arrived| - 1)
    else LastMark(arrived[..|arrived| - 1])
  }

  function LastMarkStamp(arrived: seq<Incoming>): Option<Stamp> {
    match LastMark(arrived)
    case Some(i) => Some(arrived[i].stamp)
    case None => None
  }

  /** The segment that carried the byte at `offset` of the stream. */
  function CarrierOf(arrived: seq<Incoming>, offset: nat): (i: nat)
    requires offset < |AllBytes(arrived)|
    ensures i < |arrived| && arrived[i].Data?
    ensures |AllBytes(arrived[..i])| <= offset < |AllBytes(arrived[..i])| + |arrived[i].bytes|
    ensures AllBytes(arrived)[offset] == arrived[i].bytes[offset - |AllBytes(arrived[..i])|]
  {
    var n := |arrived| - 1;
    assert arrived == arrived[..n] + [arrived[n]];
    AllBytesAppend(arrived[..n], [arrived[n]]);
    if offset < |AllBytes(arrived[..n])| then
      var i := CarrierOf(arrived[..n], offset);
      assert arrived[..n][..i] == arrived[..i];
      i
    else n
  }

  /** A response that starts at `offset` is never stamped with a segment before its own. */
  lemma MarkIsNotTooEarly(arrived: seq<Incoming>, offset: nat)
    requires offset < |AllBytes(arrived)| && AllBytes(arrived)[offset] in {'$', '+'}
    ensures LastMark(arrived).Some?
    ensures CarrierOf(arrived, offset) <= LastMark(arrived).value
  {
    var i := CarrierOf(arrived, offset);
    assert Marked(arrived[i]);
  }

  /** `feed_buffer_from_stream`: the next arrival goes to the end of the buffer. */
  function Feed(c: Client): (c': Client)
    requires c.inbox != []
    ensures Consistent(c) ==> Consistent(c')
  {
    var bytes := if c.inbox[0].Data? then c.inbox[0].bytes else [];
    AllBytesAppend(c.arrived, c.inbox[..1]);
    assert AllBytes(c.inbox[..1]) == bytes;
    c.(buffer := c.buffer + bytes, inbox := c.inbox[1..], arrived := c.arrived + c.inbox[..1])
  }

  /** `eat_ack` and `eat_packet`: `n` bytes leave the front of the buffer. */
  function Eat(c: Client, n: nat): (c': Client)
    requires n <= |c.buffer|
    ensures Consistent(c) ==> Consistent(c')
  {
    assert c.buffer == c.buffer[..n] + c.buffer[n..];
    c.(buffer := c.buffer[n..], eaten := c.eaten + c.buffer[..n])
  }

  lemma CutIsMarked(c: Client)
    requires Consistent(c) && CutResponse(c.buffer).Some?
    ensures 0 < CutResponse(c.buffer).value.size <= |c.buffer|
    ensures |c.eaten| < |AllBytes(c.arrived)|
    ensures LastMark(c.arrived).Some? && CarrierOf(c.arrived, |c.eaten|) <= LastMark(c.arrived).value
  {
    CutResponseStable();
    assert StableAt(CutResponse, c.buffer, []);
    assert AllBytes(c.arrived)[|c.eaten|] == c.buffer[0];
    MarkIsNotTooEarly(c.arrived, |c.eaten|);
  }

  /** `read_response`: the next response, with the stamp of the latest marked segment. Both of
      the source's `expect` calls are the `value` here, so they are proved to succeed. */
  function NextResponse(c: Client): (r: (Result<(Response, Stamp), GdbError>, Client))
    requires Consistent(c)
    ensures Consistent(r.1) && r.1.sent == c.sent && r.1.clock == c.clock
    ensures |r.1.inbox| <= |c.inbox|
    ensures r.0.Ok? ==> |r.1.inbox| < |c.inbox| || |r.1.buffer| < |c.buffer|
    ensures r.0.Err? && c.inbox != [] ==> |r.1.inbox| < |c.inbox|
    decreases |c.inbox|
  {
    var cut := CutResponse(c.buffer);
    if cut.Some? then
      CutIsMarked(c);
      (Ok((cut.value.item, LastMarkStamp(c.arrived).value)), Eat(c, cut.value.size))
    else if c.inbox == [] then (Err(Timeout), c)
    else if c.inbox[0].Fault? then (Err(c.inbox[0].error), Feed(c))
    else NextResponse(Feed(c))
  }

  /** The stamp belongs to the latest received segment with a '$' or '+', and that segment is
      not earlier than the one that carried the first byte of the response. */
  lemma {:induction false} ResponseStamp(c: Client)
    requires Consistent(c) && NextResponse(c).0.Ok?
    ensures var c' := NextResponse(c).1;
            && |c.eaten| < |AllBytes(c'.arrived)|
            && LastMark(c'.arrived).Some?
            && NextResponse(c).0.value.1 == c'.arrived[LastMark(c'.arrived).value].stamp
            && CarrierOf(c'.arrived, |c.eaten|) <= LastMark(c'.arrived).value
    decreases |c.inbox|
  {
    if CutResponse(c.buffer).Some? {
      CutIsMarked(c);
    } else {
      ResponseStamp(Feed(c));
    }
  }

  /** Which segment that is: the last one received that holds a '$' or '+'. If there is none behind the
      segment of the response's first byte, the stamp is that of its own segment. */
  lemma StampIsOfLastMark(c: Client)
    requires Consistent(c) && NextResponse(c).0.Ok?
    ensures var arrived, stamp := NextResponse(c).1.arrived, NextResponse(c).0.value.1;
            && |c.eaten| < |AllBytes(arrived)|
            && var own := CarrierOf(arrived, |c.eaten|);
               exists m :: own <= m < |arrived| && arrived[m].Data? && stamp == arrived[m].stamp
                           && ('$' in arrived[m].bytes || '+' in arrived[m].bytes)
                           && forall j :: m < j < |arrived| && arrived[j].Data? ==>
                                '$' !in arrived[j].bytes && '+' !in arrived[j].bytes
    ensures var arrived, stamp := NextResponse(c).1.arrived, NextResponse(c).0.value.1;
            var own := CarrierOf(arrived, |c.eaten|);
            (forall j :: own < j < |arrived| && arrived[j].Data? ==>
                           '$' !in arrived[j].bytes && '+' !in arrived[j].bytes) ==>
              stamp == arrived[own].stamp
  {
    ResponseStamp(c);
    var arrived := NextResponse(c).1.arrived;
    var own, m := CarrierOf(arrived, |c.eaten|), LastMark(arrived).value;
    assert Marked(arrived[m]) && arrived[m].Data?;
    forall j | m < j < |arrived| && arrived[j].Data? ensures '$' !in arrived[j].bytes && '+' !in arrived[j].bytes {
      assert !Marked(arrived[j]);
    }
    assert own < m ==> '$' in arrived[m].bytes || '+' in arrived[m].bytes;
  }

  /** The client is an instance of the general reading scheme. */
  lemma {:induction false} NextResponseIsRead(c: Client)
    requires Consistent(c)
    ensures var (outcome, buffer', inbox') := Read(CutResponse, c.buffer, c.inbox);
            var (r, c') := NextResponse(c);
            && c'.buffer == buffer' && c'.inbox == inbox'
            && match outcome {
                 case Got(response) => r.Ok? && r.value.0 == response
                 case Failed(error) => r == Err(error)
                 case Starved => r == Err(Timeout)
               }
    ensures var c' := NextResponse(c).1;
            c'.eaten + c'.buffer + AllBytes(c'.inbox) == c.eaten + c.buffer + AllBytes(c.inbox)
    decreases |c.inbox|
  {
    CutResponseStable();
    assert StableAt(CutResponse, c.buffer, []);
    if CutResponse(c.buffer).Some? {
      assert c.buffer == c.buffer[..CutResponse(c.buffer).value.size] + NextResponse(c).1.buffer;
    } else if c.inbox != [] {
      var bytes := if c.inbox[0].Data? then c.inbox[0].bytes else [];
      assert c.eaten + (c.buffer + bytes) + AllBytes(c.inbox[1..]) == c.eaten + c.buffer + AllBytes(c.inbox);
      if c.inbox[0].Data? {
        NextResponseIsRead(Feed(c));
      } else {
        assert Feed(c).buffer == c.buffer;
      }
    }
  }

  /** The responses still to come on this connection. */
  function Upcoming(c: Client): seq<Response> {
    Pending(CutResponse, c.buffer, c.inbox)
  }

  lemma NextTakesFirst(c: Client)
    requires Consistent(c)
    ensures var (r, c') := NextResponse(c);
            && (r.Ok? ==> Upcoming(c) == [r.value.0] + Upcoming(c'))
            && (r.Err? ==> Upcoming(c) == Upcoming(c'))
    ensures NextResponse(c).0.Err? && c.inbox == [] ==> Upcoming(c) == []
  {
    CutResponseStable();
    NextResponseIsRead(c);
    ReadTakesFirstPending(CutResponse, c.buffer, c.inbox);
  }

  /** All responses that repeated calls return; a call that fails is simply repeated as long as
      anything can still arrive. */
  function Responses(c: Client): (r: (seq<Response>, Client))
    requires Consistent(c)
    ensures Consistent(r.1)
    decreases |c.inbox|, |c.buffer|
  {
    var (r, c') := NextResponse(c);
    match r
    case Ok(response) =>
      var (later, end) := Responses(c');
      ([response.0] + later, end)
    case Err(_) => if c.inbox == [] then ([], c') else Responses(c')
  }

  lemma {:induction false} ResponsesAreSession(c: Client)
    requires Consistent(c)
    ensures var (received, end) := Responses(c);
            && (received, end.buffer) == Session(CutResponse, c.buffer, c.inbox)
            && end.inbox == []
            && end.eaten + end.buffer == c.eaten + c.buffer + AllBytes(c.inbox)
    decreases |c.inbox|, |c.buffer|
  {
    CutResponseStable();
    NextResponseIsRead(c);
    var (r, c') := NextResponse(c);
    if r.Ok? || c.inbox != [] {
      ResponsesAreSession(c');
      if Read(CutResponse, c.buffer, c.inbox).0.Starved? {
        ReadStarved(CutResponse, c.buffer, c.inbox);
      }
    } else {
      assert c.eaten + c.buffer + [] == c.eaten + c.buffer;
    }
  }

  /** Two connections that bring the same bytes cannot be told apart by their responses, nor by the
      bytes that stay in the buffer, whatever the segments and wherever calls fail. */
  lemma SegmentsAreInvisible(
    one: seq<Incoming>, other: seq<Incoming>, clock: seq<Option<Stamp>>, otherClock: seq<Option<Stamp>>)
    requires AllBytes(one) == AllBytes(other)
    ensures var (r, end) := Responses(Connected(one, clock));
            var (r', end') := Responses(Connected(other, otherClock));
            r == r' && end.buffer == end'.buffer
  {
    CutResponseStable();
    ResponsesAreSession(Connected(one, clock));
    ResponsesAreSession(Connected(other, otherClock));
    ChunkingIsInvisible(CutResponse, [], one, other);
  }

  /** The client receives exactly the responses a server encoded, in order, however the network
      cut the bytes and wherever calls timed out; no byte is left over. */
  lemma ClientReceivesWhatWasEncoded(rs: seq<Response>, inbox: seq<Incoming>, clock: seq<Option<Stamp>>)
    requires Encodable(rs) && AllBytes(inbox) == EncodeAll(rs)
    ensures var (received, end) := Responses(Connected(inbox, clock));
            received == rs && end.buffer == [] && end.eaten == EncodeAll(rs)
  {
    var c := Connected(inbox, clock);
    var end := Responses(c).1;
    ResponsesAreSession(c);
    StreamRoundTrip(rs, inbox);
    assert c.eaten + c.buffer + AllBytes(inbox) == EncodeAll(rs);
    assert end.eaten + [] == end.eaten;
  }

  /** `send_packet`. */
  function Transmit(c: Client, contents: Bytes): (r: (Result<Stamp, GdbError>, Client))
    ensures r.1 == c.(sent := r.1.sent, clock := r.1.clock)
    ensures r.1.sent == if r.0.Ok? then c.sent + [BuildPacket(contents)] else c.sent
  {
    if c.clock == [] then (Err(IoError), c)
    else
      var c' := c.(clock := c.clock[1..]);
      match c.clock[0]
      case Some(stamp) => (Ok(stamp), c'.(sent := c.sent + [BuildPacket(contents)]))
      case None => (Err(IoError), c')
  }

  class GDBRemote {
    var stream: seq<Incoming>
    var clock: seq<Option<Stamp>>
    var sent: seq<Bytes>
    var dataBuffer: Bytes
    var lastRxPacketTimestamp: Option<Stamp>
    ghost var arrived: seq<Incoming>
    ghost var eaten: Bytes

    ghost function State(): Client
      reads this
    {
      Client(dataBuffer, stream, arrived, eaten, sent, clock)
    }

    ghost predicate Valid()
      reads this
    {
      Consistent(State()) && lastRxPacketTimestamp == LastMarkStamp(arrived)
    }

    constructor Connect(stream: seq<Incoming>, clock: seq<Option<Stamp>>)
      ensures Valid() && State() == Connected(stream, clock)
    {
      this.stream, this.clock, sent := stream, clock, [];
      dataBuffer, lastRxPacketTimestamp := [], None;
      arrived, eaten := [], [];
    }

    method FeedBufferFromStream() returns (r: Result<(), GdbError>)
      requires Valid()
      modifies this
      ensures Valid()
      ensures old(stream) == [] ==> r == Err(Timeout) && State() == old(State())
      ensures old(stream) != [] ==> State() == Feed(old(State()))
      ensures old(stream) != [] ==>
                r == if old(stream)[0].Data? then Ok(()) else Err(old(stream)[0].error)
    {
      if stream == [] {
        return Err(Timeout);
      }
      var next := stream[0];
      AllBytesAppend(arrived, stream[..1]);
      assert (arrived + stream[..1])[..|arrived|] == arrived;
      arrived := arrived + stream[..1];
      stream := stream[1..];
      match next {
        case Data(received, timestamp) =>
          dataBuffer := dataBuffer + received;
          if '$' in received || '+' in received {
            lastRxPacketTimestamp := Some(timestamp);
          }
          r := Ok(());
        case Fault(error) =>
          r := Err(error);
      }
    }

    method EatAck() returns (ate: bool)
      requires Valid()
      modifies this`dataBuffer, this`eaten
      ensures Valid()
      ensures ate == (CutResponse(old(dataBuffer)) == Some(Cut(ACK, 1)))
      ensures ate ==> State() == Eat(old(State()), 1)
      ensures !ate ==> State() == old(State()) && (dataBuffer == [] || dataBuffer[0] != '+')
    {
      if |dataBuffer| > 0 && dataBuffer[0] == '+' {
        assert dataBuffer == dataBuffer[..1] + dataBuffer[1..];
        eaten := eaten + dataBuffer[..1];
        dataBuffer := dataBuffer[1..];
        ate := true;
      } else {
        ate := false;
      }
    }

    method EatPacket() returns (r: Result<Bytes, ParseError>)
      requires Valid()
      modifies this`dataBuffer, this`eaten
      ensures Valid()
      ensures r == ParsePacket(old(dataBuffer))
      ensures r.Ok? ==> |r.value| + 4 <= |old(dataBuffer)| && State() == Eat(old(State()), |r.value| + 4)
      ensures r.Err? ==> State() == old(State())
    {
      r := ParsePacket(dataBuffer);
      if r.Ok? {
        ParsePacketIff(dataBuffer, r.value);
        assert dataBuffer == dataBuffer[..|r.value| + 4] + dataBuffer[|r.value| + 4..];
        eaten := eaten + dataBuffer[..|r.value| + 4];
        dataBuffer := dataBuffer[|r.value| + 4..];
      }
    }

    method ReadResponse() returns (r: Result<(Response, Stamp), GdbError>)
      requires Valid()
      modifies this
      ensures Valid()
      ensures (r, State()) == NextResponse(old(State()))
    {
      while true
        invariant Valid()
        invariant NextResponse(State()) == NextResponse(old(State()))
        decreases |stream|
      {
        ghost var c := State();
        var ack := EatAck();
        if ack {
          CutIsMarked(c);
          return Ok((ACK, lastRxPacketTimestamp.value));
        }
        var packet := EatPacket();
        if packet.Ok? {
          CutIsMarked(c);
          return Ok((Packet(packet.value), lastRxPacketTimestamp.value));
        }
        var fed := FeedBufferFromStream();
        if fed.Err? {
          return Err(fed.error);
        }
      }
    }

    method SendPacket(contents: Bytes) returns (r: Result<Stamp, GdbError>)
      requires Valid()
      modifies this`sent, this`clock
      ensures Valid()
      ensures (r, State()) == Transmit(old(State()), contents)
    {
      if clock == [] {
        return Err(IoError);
      }
      var outcome := clock[0];
      clock := clock[1..];
      match outcome {
        case Some(timestamp) =>
          sent := sent + [BuildPacket(contents)];
          r := Ok(timestamp);
        case None =>
          r := Err(IoError);
      }
    }
  }
}
