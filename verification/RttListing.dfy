/** `rtt_channels` in src/openocd/telnet_interface.rs, from the bytes of the connection to the list of
    channels: lines are read up to an empty one and then parsed. */
module RttListing {
  import opened Common
  import opened Reassembly
  import opened Telnet
  import opened RttChannels

  /** The lines up to the first empty one; a call that fails ends the attempt. */
  function ReadListing(buffer: Bytes, events: seq<Event>): (Result<seq<Bytes>, TelnetError>, Bytes, seq<Event>)
    decreases |events|, |buffer|
  {
    var (r, buffer', events') := ReadLine(buffer, events);
    match r
    case Err(error) => (Err(error), buffer', events')
    case Ok(line) =>
      if line == CRLF then (Ok([]), buffer', events')
      else
        match ReadListing(buffer', events')
        case (Ok(more), rest, left) => (Ok([line] + more), rest, left)
        case failed => failed
  }

  predicate FaultFree(events: seq<Event>) {
    forall e :: e in events ==> e.Data? || e.Other?
  }

  /** Without failures a call finds a line whenever there is one. */
  lemma {:induction false} FindsLine(buffer: Bytes, events: seq<Event>)
    requires FaultFree(events)
    ensures FaultFree(ReadLine(buffer, events).2)
    ensures ReadLine(buffer, events).0.Err? ==> Upcoming(buffer, events) == []
    decreases |events|, |buffer|
  {
    ReadLineTakesFirst(buffer, events);
    var cut := CutLine(buffer);
    if cut.Some? {
      if Ignored(cut.value.item) {
        var rest := buffer[cut.value.size..];
        UpcomingAfterCut(buffer, events);
        FindsLine(rest, events);
        assert [] + Upcoming(rest, events) == Upcoming(rest, events);
      }
    } else if events != [] {
      assert events[0] in events;
      UpcomingAfterReceive(buffer, events);
      FindsLine(Receive(buffer, events[0]).1, events[1..]);
    }
  }

  /** An attempt that succeeds has taken exactly the lines before the first empty one; without
      failures it succeeds if there is an empty line. */
  lemma {:induction false} ListingTaken(buffer: Bytes, events: seq<Event>, lines: seq<Bytes>, later: seq<Bytes>)
    requires Upcoming(buffer, events) == lines + [CRLF] + later && CRLF !in lines
    ensures ReadListing(buffer, events).0.Ok? ==> ReadListing(buffer, events).0.value == lines
    ensures FaultFree(events) ==> ReadListing(buffer, events).0.Ok?
    decreases |events|, |buffer|
  {
    var (r, buffer', events') := ReadLine(buffer, events);
    ReadLineTakesFirst(buffer, events);
    if FaultFree(events) {
      FindsLine(buffer, events);
    }
    if r.Ok? {
      var upcoming := lines + [CRLF] + later;
      assert r.value == upcoming[0] && Upcoming(buffer', events') == upcoming[1..];
      if lines != [] {
        assert upcoming[0] == lines[0] && upcoming[1..] == lines[1..] + [CRLF] + later;
        assert lines == [lines[0]] + lines[1..] && lines[0] in lines;
        ListingTaken(buffer', events', lines[1..], later);
      }
    }
  }

  // ---- a printed listing ----

  /** A line that the reader returns as it was written. */
  ghost predicate Plain(l: Bytes) {
    IsLine(l) && '\0' !in l && !Ignored(l) && l != CRLF
  }

  ghost predicate OneLine(s: Bytes) {
    forall i :: 0 <= i < |s| ==> s[i] != '\n' && s[i] != '\0'
  }

  lemma EndedIsPlain(s: Bytes)
    requires OneLine(s) && s != [] && s[0] != BACKSPACE
    ensures Plain(s + CRLF)
  {
    var l := s + CRLF;
    assert l[..|l| - 1] == s + ['\r'];
  }

  lemma DecimalIsOneLine(n: nat)
    ensures OneLine(Decimal(n)) && Decimal(n)[0] != BACKSPACE
  {
    DecimalValue(n);
  }

  ghost predicate Writable(channels: seq<Channel>) {
    forall c :: c in channels ==> '\0' !in c.name
  }

  lemma PrintIsPlain(c: Channel)
    requires Word(c.name) && '\0' !in c.name
    ensures Plain(Print(c))
  {
    var s := Decimal(c.id) + ": " + c.name + [' '] + Decimal(c.bufferSize) + [' '] + Decimal(c.flags);
    DecimalIsOneLine(c.id);
    DecimalIsOneLine(c.bufferSize);
    DecimalIsOneLine(c.flags);
    NameIsOneLine(c.name);
    hide Decimal;
    assert s[0] == Decimal(c.id)[0];
    EndedIsPlain(s);
    PrintedLine(c, s);
  }

  lemma PrintedLine(c: Channel, s: Bytes)
    requires s == Decimal(c.id) + ": " + c.name + [' '] + Decimal(c.bufferSize) + [' '] + Decimal(c.flags)
    ensures Print(c) == s + CRLF
  {
    hide Decimal;
  }

  lemma NameIsOneLine(name: Bytes)
    requires Word(name) && '\0' !in name
    ensures OneLine(name)
  {
    forall i | 0 <= i < |name| ensures name[i] != '\n' && name[i] != '\0' {
      assert name[i] in name;
    }
  }

  lemma {:induction false} PrintAllIsPlain(channels: seq<Channel>, direction: Direction)
    requires Printable(channels, direction) && Writable(channels)
    ensures forall l :: l in PrintAll(channels) ==> Plain(l)
  {
    if channels != [] {
      var n := |channels| - 1;
      PrintAllIsPlain(channels[..n], direction);
      assert channels[n] in channels;
      PrintIsPlain(channels[n]);
    }
  }

  lemma FixedLinesArePlain(up: nat, down: nat)
    ensures Plain(Summary(up, down)) && Plain(UP_HEADER + CRLF) && Plain(DOWN_HEADER + CRLF)
  {
    EndedIsPlain(UP_HEADER);
    EndedIsPlain(DOWN_HEADER);
    var head: Bytes, middle: Bytes := "Channels: up=", ", down=";
    var s := head + Decimal(up) + middle + Decimal(down);
    DecimalIsOneLine(up);
    DecimalIsOneLine(down);
    assert s[0] == 'C';
    EndedIsPlain(s);
    assert Summary(up, down) == s + CRLF;
  }

  lemma ListingIsPlain(up: seq<Channel>, down: seq<Channel>)
    requires Printable(up, Up) && Printable(down, Down) && Writable(up) && Writable(down)
    ensures forall l :: l in Listing(Summary(|up|, |down|), up, down) ==> Plain(l)
  {
    FixedLinesArePlain(|up|, |down|);
    PrintAllIsPlain(up, Up);
    PrintAllIsPlain(down, Down);
  }

  lemma {:induction false} PlainIsKept(lines: seq<Bytes>)
    requires forall l :: l in lines ==> Plain(l)
    ensures Kept(lines) == lines
  {
    if lines != [] {
      PlainIsKept(lines[1..]);
      assert lines[0] in lines && lines == [lines[0]] + lines[1..];
    }
  }

  /** Lines behind which an empty one comes are the next lines of the connection. */
  lemma PlainLinesComeNext(lines: seq<Bytes>, rest: Bytes, events: seq<Event>) returns (later: seq<Bytes>)
    requires forall l :: l in lines ==> Plain(l)
    requires Pads(Flatten(lines + [CRLF]) + rest, Carried(events))
    ensures Upcoming([], events) == lines + [CRLF] + later
  {
    var all := lines + [CRLF];
    var end: Bytes := CRLF;
    assert IsLine(end) by { assert end[..1] == ['\r']; }
    LinesRoundTrip(all, rest, events);
    ReadAllIsUpcoming([], events);
    later := Kept(CutAll(CutLine, rest).0);
    KeptAppend(lines, [end]);
    PlainIsKept(lines);
    assert Kept([end]) == [end];
  }

  /** End to end: OpenOCD has printed its listing of up and down channels and an empty line, and then
      anything else, such as its prompt. The network may cut these bytes anywhere and put NULs
      between them. Every call that succeeds gives back all channels, in order; and without timeouts
      and errors it does succeed. */
  lemma ListingArrives(up: seq<Channel>, down: seq<Channel>, rest: Bytes, events: seq<Event>)
    requires Printable(up, Up) && Printable(down, Down) && Writable(up) && Writable(down)
    requires Pads(Flatten(Listing(Summary(|up|, |down|), up, down) + [CRLF]) + rest, Carried(events))
    ensures var r := ReadListing([], events).0;
            && (r.Ok? ==> Fold(Meanings(r.value)).0 == up + down)
            && (FaultFree(events) ==> r.Ok?)
  {
    var lines := Listing(Summary(|up|, |down|), up, down);
    ListingIsPlain(up, down);
    var later := PlainLinesComeNext(lines, rest, events);
    ListingTaken([], events, lines, later);
    PrintedListingRoundTrip(up, down);
  }

  /** What an attempt amounts to that has read `lines` already. */
  function Behind(lines: seq<Bytes>, rest: (Result<seq<Bytes>, TelnetError>, Bytes, seq<Event>))
    : (Result<seq<Bytes>, TelnetError>, Bytes, seq<Event>)
  {
    (match rest.0 { case Ok(more) => Ok(lines + more) case Err(error) => Err(error) }, rest.1, rest.2)
  }

  lemma OneMoreLine(lines: seq<Bytes>, buffer: Bytes, events: seq<Event>)
    ensures var (r, buffer', events') := ReadLine(buffer, events);
            Behind(lines, ReadListing(buffer, events)) ==
            match r {
              case Err(error) => (Err(error), buffer', events')
              case Ok(line) =>
                if line == CRLF then (Ok(lines), buffer', events')
                else Behind(lines + [line], ReadListing(buffer', events'))
            }
  {
    hide ReadLine;
    var (r, buffer', events') := ReadLine(buffer, events);
    assert lines + [] == lines;
    if r.Ok? && r.value != CRLF && ReadListing(buffer', events').0.Ok? {
      Associative(lines, [r.value], ReadListing(buffer', events').0.value);
    }
  }

  /** The loop of `rtt_channels` and its parser. */
  method ReadRttChannels(telnet: TelnetInterface) returns (r: Result<seq<Channel>, TelnetError>)
    requires telnet.Valid()
    modifies telnet
    ensures telnet.Valid()
    ensures var (lines, buffer, events) := ReadListing(old(telnet.buffer), old(telnet.connection));
            && (telnet.buffer, telnet.connection) == (buffer, events)
            && r == match lines { case Ok(ls) => Ok(Fold(Meanings(ls)).0) case Err(error) => Err(error) }
  {
    hide ReadListing, ReadLine, Fold, Meanings;
    var lines: seq<Bytes> := [];
    ghost var whole := ReadListing(telnet.buffer, telnet.connection);
    assert whole.0.Ok? ==> [] + whole.0.value == whole.0.value;
    while true
      invariant telnet.Valid()
      invariant Behind(lines, ReadListing(telnet.buffer, telnet.connection)) == whole
      decreases |telnet.connection|, |telnet.buffer|
    {
      OneMoreLine(lines, telnet.buffer, telnet.connection);
      var line := telnet.NextLine();
      if line.Err? {
        return Err(line.error);
      }
      if line.value == CRLF {
        break;
      }
      lines := lines + [line.value];
    }
    var channels := ParseRttChannels(lines);
    r := Ok(channels);
  }
}
