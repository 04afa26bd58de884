/** The line reader of the Telnet interface (src/openocd/telnet_interface.rs): it drops NUL bytes,
    as the "NVT printer and keyboard" section of RFC 854 allows, and cuts lines that end in CR LF. */
module Telnet {
  import opened Common
  import opened Reassembly

  datatype TelnetError = Timeout | IoError | UnexpectedResponse(lines: Bytes)

  // What one read from the connection can bring; `Other` is a Telnet event without data.
  datatype Event = Data(bytes: Bytes) | Other | TimedOut | Broken

  const BACKSPACE: byte := 8 as char

  function WithoutNul(s: Bytes): (r: Bytes)
    ensures '\0' !in r
  {
    if s == [] then [] else WithoutNul(s[..|s| - 1]) + (if s[|s| - 1] != '\0' then [s[|s| - 1]] else [])
  }

  /** `padded` is `plain`, which has no NULs, with NULs put in anywhere. */
  ghost predicate Pads(plain: Bytes, padded: Bytes) {
    if padded == [] then plain == []
    else if padded[|padded| - 1] == '\0' then Pads(plain, padded[..|padded| - 1])
    else
      && plain != [] && plain[|plain| - 1] == padded[|padded| - 1]
      && Pads(plain[..|plain| - 1], padded[..|padded| - 1])
  }

  lemma {:induction false} PadsIff(plain: Bytes, padded: Bytes)
    ensures Pads(plain, padded) <==> plain == WithoutNul(padded)
  {
    if padded != [] {
      var n := |padded| - 1;
      PadsIff(plain, padded[..n]);
      if plain != [] {
        var m := |plain| - 1;
        PadsIff(plain[..m], padded[..n]);
        assert plain == plain[..m] + [plain[m]];
        assert (WithoutNul(padded[..n]) + [padded[n]])[..|WithoutNul(padded[..n])|] == WithoutNul(padded[..n]);
      }
    }
  }

  /** Bytes without NULs are left as they are. */
  lemma {:induction false} NothingToDrop(s: Bytes)
    requires '\0' !in s
    ensures WithoutNul(s) == s && Pads(s, s)
  {
    PadsIff(s, s);
    if s != [] {
      NothingToDrop(s[..|s| - 1]);
      assert s == s[..|s| - 1] + [s[|s| - 1]] && s[|s| - 1] in s;
    }
  }

  /** Everything that the events add to the buffer. */
  function Visible(events: seq<Event>): Bytes {
    if events == [] then []
    else (if events[0].Data? then WithoutNul(events[0].bytes) else []) + Visible(events[1..])
  }

  /** A line is everything up to the first line feed, provided a carriage return precedes it. */
  function CutLine(s: Bytes): Option<Cut<Bytes>> {
    match IndexOf('\n', s)
    case Some(i) => if i >= 1 && s[i - 1] == '\r' then Some(Cut(s[..i + 1], i + 1)) else None
    case None => None
  }

  lemma CutLineStable()
    ensures Stable(CutLine)
  {
    forall s: Bytes, t: Bytes ensures StableAt(CutLine, s, t) {
      var i := IndexOf('\n', s);
      if i.Some? {
        IndexStable('\n', s, t);
        assert (s + t)[..i.value + 1] == s[..i.value + 1];
      }
    }
  }

  /** Lines that OpenOCD writes over its prompt begin with two backspaces and are ignored. */
  predicate Ignored(line: Bytes) {
    |line| >= 2 && line[0] == BACKSPACE && line[1] == BACKSPACE
  }

  function Kept(lines: seq<Bytes>): seq<Bytes> {
    if lines == [] then [] else (if Ignored(lines[0]) then [] else [lines[0]]) + Kept(lines[1..])
  }

  /** `read_into_buffer`. */
  function Receive(buffer: Bytes, event: Event): (r: (Result<(), TelnetError>, Bytes))
    ensures event.Data? ==> buffer <= r.1 && Pads(r.1[|buffer|..], event.bytes)
    ensures !event.Data? ==> r.1 == buffer
  {
    PadsIff(WithoutNul(if event.Data? then event.bytes else []), if event.Data? then event.bytes else []);
    match event
    case Data(bytes) => (Ok(()), buffer + WithoutNul(bytes))
    case Other => (Ok(()), buffer)
    case TimedOut => (Err(Timeout), buffer)
    case Broken => (Err(IoError), buffer)
  }

  /** `read_line`: the next line that is not ignored, the buffer and the events left. */
  function ReadLine(buffer: Bytes, events: seq<Event>): (r: (Result<Bytes, TelnetError>, Bytes, seq<Event>))
    ensures |r.2| <= |events|
    ensures r.0.Ok? ==> |r.2| < |events| || |r.1| < |buffer|
    ensures r.0.Err? ==> r.0.error in {Timeout, IoError} && (events != [] ==> |r.2| < |events|)
    decreases |events|, |buffer|
  {
    match CutLine(buffer)
    case Some(cut) =>
      if Ignored(cut.item) then ReadLine(buffer[cut.size..], events)
      else (Ok(cut.item), buffer[cut.size..], events)
    case None =>
      if events == [] then (Err(Timeout), buffer, [])
      else
        var (r, buffer') := Receive(buffer, events[0]);
        if r.Err? then (Err(r.error), buffer', events[1..]) else ReadLine(buffer', events[1..])
  }

  /** The lines still to come. */
  function Upcoming(buffer: Bytes, events: seq<Event>): seq<Bytes> {
    Kept(CutAll(CutLine, buffer + Visible(events)).0)
  }

  /** What will be left in the buffer when no line can be read any more. */
  function Remainder(buffer: Bytes, events: seq<Event>): Bytes {
    CutAll(CutLine, buffer + Visible(events)).1
  }

  lemma UpcomingAfterCut(buffer: Bytes, events: seq<Event>)
    requires CutLine(buffer).Some?
    ensures var cut := CutLine(buffer).value;
            Upcoming(buffer, events) ==
            (if Ignored(cut.item) then [] else [cut.item]) + Upcoming(buffer[cut.size..], events)
    ensures Remainder(buffer, events) == Remainder(buffer[CutLine(buffer).value.size..], events)
  {
    var all := Visible(events);
    CutLineStable();
    assert StableAt(CutLine, buffer, all);
    DropAppend(buffer, all, CutLine(buffer).value.size);
  }

  lemma UpcomingAfterReceive(buffer: Bytes, events: seq<Event>)
    requires events != []
    ensures Upcoming(buffer, events) == Upcoming(Receive(buffer, events[0]).1, events[1..])
    ensures Remainder(buffer, events) == Remainder(Receive(buffer, events[0]).1, events[1..])
  {
    var added := if events[0].Data? then WithoutNul(events[0].bytes) else [];
    assert buffer + [] == buffer;
    Associative(buffer, added, Visible(events[1..]));
  }

  /** One call returns the first line still to come, or leaves all of them to later calls; what will
      remain in the end is the same. */
  lemma {:induction false} ReadLineTakesFirst(buffer: Bytes, events: seq<Event>)
    ensures var (r, buffer', events') := ReadLine(buffer, events);
            && (r.Ok? ==> Upcoming(buffer, events) == [r.value] + Upcoming(buffer', events'))
            && (r.Err? ==> Upcoming(buffer, events) == Upcoming(buffer', events'))
            && Remainder(buffer, events) == Remainder(buffer', events')
    ensures ReadLine(buffer, events).0.Err? && events == [] ==>
              Upcoming(buffer, events) == [] && ReadLine(buffer, events).1 == Remainder(buffer, events)
    decreases |events|, |buffer|
  {
    var cut := CutLine(buffer);
    if cut.Some? {
      UpcomingAfterCut(buffer, events);
      if Ignored(cut.value.item) {
        var rest := buffer[cut.value.size..];
        assert [] + Upcoming(rest, events) == Upcoming(rest, events);
        ReadLineTakesFirst(rest, events);
      }
    } else if events == [] {
      assert buffer + [] == buffer;
    } else {
      UpcomingAfterReceive(buffer, events);
      var (r, buffer') := Receive(buffer, events[0]);
      if r.Ok? {
        ReadLineTakesFirst(buffer', events[1..]);
      }
    }
  }

  /** Why a call fails: after events that brought no more than data one timed out or broke, or there
      were no more. The events behind that one are left to later calls. */
  ghost predicate FailsBecause(events: seq<Event>, error: TelnetError, left: seq<Event>) {
    && |left| <= |events| && left == events[|events| - |left|..]
    && var n := |events| - |left|;
       if n > 0 && (events[n - 1].TimedOut? || events[n - 1].Broken?) then
         && error == (if events[n - 1].Broken? then IoError else Timeout)
         && forall i :: 0 <= i < n - 1 ==> events[i].Data? || events[i].Other?
       else error == Timeout && left == [] && forall i :: 0 <= i < n ==> events[i].Data? || events[i].Other?
  }

  lemma {:induction false} ReadLineFails(buffer: Bytes, events: seq<Event>)
    requires ReadLine(buffer, events).0.Err?
    ensures FailsBecause(events, ReadLine(buffer, events).0.error, ReadLine(buffer, events).2)
    decreases |events|, |buffer|
  {
    hide WithoutNul, Pads;
    var cut := CutLine(buffer);
    if cut.Some? {
      ReadLineFails(buffer[cut.value.size..], events);
    } else if events != [] && (events[0].TimedOut? || events[0].Broken?) {
      FailsAtOnce(events);
    } else if events != [] && (events[0].Data? || events[0].Other?) {
      var buffer' := Receive(buffer, events[0]).1;
      ReadLineFails(buffer', events[1..]);
      FailsLater(events, ReadLine(buffer, events).0.error, ReadLine(buffer, events).2);
    }
  }

  lemma FailsAtOnce(events: seq<Event>)
    requires events != [] && (events[0].TimedOut? || events[0].Broken?)
    ensures FailsBecause(events, if events[0].Broken? then IoError else Timeout, events[1..])
  {}

  lemma FailsLater(events: seq<Event>, error: TelnetError, left: seq<Event>)
    requires events != [] && (events[0].Data? || events[0].Other?) && FailsBecause(events[1..], error, left)
    ensures FailsBecause(events, error, left)
  {
    var later := events[1..];
    assert later[|later| - |left|..] == events[|events| - |left|..];
    forall i | 0 <= i < |later| ensures later[i] == events[i + 1] {}
    var n := |events| - |left|;
    forall i | 0 < i < |events| ensures events[i] == later[i - 1] {}
  }

  /** All lines that repeated calls return, failed calls being repeated as long as anything can
      still arrive, and the buffer that they leave. */
  function ReadAll(buffer: Bytes, events: seq<Event>): (seq<Bytes>, Bytes)
    decreases |events|, |buffer|
  {
    var (r, buffer', events') := ReadLine(buffer, events);
    match r
    case Ok(line) =>
      var (lines, rest) := ReadAll(buffer', events');
      ([line] + lines, rest)
    case Err(_) => if events == [] then ([], buffer') else ReadAll(buffer', events')
  }

  lemma {:induction false} ReadAllIsUpcoming(buffer: Bytes, events: seq<Event>)
    ensures ReadAll(buffer, events) == (Upcoming(buffer, events), Remainder(buffer, events))
    decreases |events|, |buffer|
  {
    hide ReadLine, Upcoming, Remainder;
    ReadLineTakesFirst(buffer, events);
    var (r, buffer', events') := ReadLine(buffer, events);
    if r.Ok? || events != [] {
      ReadAllIsUpcoming(buffer', events');
    }
  }

  /** The bytes that the events carry, as they arrive. */
  function Carried(events: seq<Event>): Bytes {
    if events == [] then [] else (if events[0].Data? then events[0].bytes else []) + Carried(events[1..])
  }

  lemma {:induction false} WithoutNulAppend(a: Bytes, b: Bytes)
    ensures WithoutNul(a + b) == WithoutNul(a) + WithoutNul(b)
    decreases |b|
  {
    if b == [] {
      assert a + b == a;
    } else {
      assert (a + b)[..|a + b| - 1] == a + b[..|b| - 1];
      WithoutNulAppend(a, b[..|b| - 1]);
    }
  }

  lemma {:induction false} VisibleIsCarried(events: seq<Event>)
    ensures Visible(events) == WithoutNul(Carried(events))
  {
    if events != [] {
      VisibleIsCarried(events[1..]);
      WithoutNulAppend(if events[0].Data? then events[0].bytes else [], Carried(events[1..]));
    }
  }

  /** The lines read depend only on the bytes received: not on how they were cut, nor on events
      without data, nor on calls that timed out. */
  lemma ChunkingIsInvisible(one: seq<Event>, other: seq<Event>)
    requires Carried(one) == Carried(other)
    ensures ReadAll([], one) == ReadAll([], other)
  {
    VisibleIsCarried(one);
    VisibleIsCarried(other);
    ReadAllIsUpcoming([], one);
    ReadAllIsUpcoming([], other);
  }

  /** The end of a line, and the only line feed in it. */
  predicate IsLine(l: Bytes) {
    |l| >= 2 && l[|l| - 2] == '\r' && l[|l| - 1] == '\n' && '\n' !in l[..|l| - 1]
  }

  lemma CutLineIsLine(s: Bytes)
    requires CutLine(s).Some?
    ensures IsLine(CutLine(s).value.item)
  {
    var i := IndexOf('\n', s).value;
    assert s[..i + 1][..i] == s[..i];
  }

  lemma {:induction false} AllAreLines(s: Bytes)
    ensures forall l :: l in CutAll(CutLine, s).0 ==> IsLine(l)
    decreases |s|
  {
    var cut := CutLine(s);
    if cut.Some? {
      CutLineIsLine(s);
      AllAreLines(s[cut.value.size..]);
    }
  }

  /** Nothing is lost: the lines that repeated calls drain, ignored ones included, and the buffer that
      they leave are the bytes received, NULs apart. The calls return exactly the lines that are not
      to be ignored, and every line drained ends in CR LF and has no other line feed. */
  lemma LinesConserveStream(events: seq<Event>) returns (drained: seq<Bytes>)
    ensures ReadAll([], events).0 == Kept(drained)
    ensures Pads(Flatten(drained) + ReadAll([], events).1, Carried(events))
    ensures forall l :: l in drained ==> IsLine(l)
  {
    var stream := Visible(events);
    drained := CutAll(CutLine, stream).0;
    assert [] + stream == stream;
    ReadAllIsUpcoming([], events);
    VisibleIsCarried(events);
    forall s ensures VerbatimAt(CutLine, s) {}
    CutAllConserves(CutLine, stream);
    AllAreLines(stream);
    PadsIff(stream, Carried(events));
  }

  // ---- lines that were written are the lines that are read ----

  lemma LineIsCut(l: Bytes, rest: Bytes)
    requires IsLine(l)
    ensures CutLine(l + rest) == Some(Cut(l, |l|))
  {
    var n := |l| - 1;
    assert (l + rest)[..n] == l[..n] && (l + rest)[..n + 1] == l;
    FirstIndex('\n', l + rest, n);
  }

  /** Cutting undoes joining, for any lines and whatever follows them. */
  lemma {:induction false} LinesAreCut(lines: seq<Bytes>, rest: Bytes)
    requires forall l :: l in lines ==> IsLine(l)
    ensures CutAll(CutLine, Flatten(lines) + rest) ==
            (lines + CutAll(CutLine, rest).0, CutAll(CutLine, rest).1)
  {
    hide CutLine, Flatten, IsLine;
    if lines == [] {
      NothingFlattened();
      assert [] + rest == rest && [] + CutAll(CutLine, rest).0 == CutAll(CutLine, rest).0;
    } else {
      var l, tail := lines[0], Flatten(lines[1..]) + rest;
      assert lines == [l] + lines[1..];
      FlattenFirst(l, lines[1..]);
      Associative(l, Flatten(lines[1..]), rest);
      LineIsCut(l, tail);
      DropAppend(l, tail, |l|);
      LineHasLength(l);
      assert (l + tail)[|l|..] == tail;
      LinesAreCut(lines[1..], rest);
      Associative([l], lines[1..], CutAll(CutLine, rest).0);
    }
  }

  /** A line that begins with two backspaces is passed over, and any other is returned. */
  lemma OverwrittenIsSkipped(l: Bytes, rest: Bytes, events: seq<Event>)
    requires IsLine(l)
    ensures ReadLine(l + rest, events) ==
            if l[0] as int == 8 && l[1] as int == 8 then ReadLine(rest, events) else (Ok(l), rest, events)
  {
    LineIsCut(l, rest);
    assert (l + rest)[|l|..] == rest;
  }

  lemma NothingFlattened()
    ensures Flatten([]) == []
  {}

  lemma LineHasLength(l: Bytes)
    requires IsLine(l)
    ensures |l| >= 2
  {}

  /** Line round trip: lines that somebody wrote, and then anything, in any pieces, with NULs and
      timeouts anywhere. The lines read are those that are not to be ignored, followed by those that
      can be read from what came behind them. */
  lemma LinesRoundTrip(lines: seq<Bytes>, rest: Bytes, events: seq<Event>)
    requires forall l :: l in lines ==> IsLine(l)
    requires Pads(Flatten(lines) + rest, Carried(events))
    ensures var (later, left) := CutAll(CutLine, rest);
            ReadAll([], events) == (Kept(lines) + Kept(later), left)
  {
    PadsIff(Flatten(lines) + rest, Carried(events));
    ReadAllIsUpcoming([], events);
    VisibleIsCarried(events);
    assert [] + Visible(events) == Visible(events);
    LinesAreCut(lines, rest);
    KeptAppend(lines, CutAll(CutLine, rest).0);
  }

  lemma {:induction false} KeptAppend(a: seq<Bytes>, b: seq<Bytes>)
    ensures Kept(a + b) == Kept(a) + Kept(b)
    decreases |a|
  {
    if a == [] {
      assert a + b == b;
    } else {
      RestOfConcat(a, b);
      KeptAppend(a[1..], b);
    }
  }

  /** A line feed without a carriage return before it silences the reader: no line is ever read
      again. Every other buffer can still be completed to a line. */
  predicate Blocked(s: Bytes) {
    match IndexOf('\n', s)
    case Some(i) => i == 0 || s[i - 1] != '\r'
    case None => false
  }

  lemma BlockedIff(s: Bytes)
    ensures Blocked(s) <==> forall t :: CutLine(s + t).None?
  {
    var i := IndexOf('\n', s);
    if i.Some? {
      forall t: Bytes ensures IndexOf('\n', s + t) == i {
        IndexStable('\n', s, t);
      }
      if !Blocked(s) {
        assert CutLine(s + []).Some?;
      }
    } else {
      var t: Bytes := "\r\n";
      var full := s + t;
      assert full[..|s| + 1] == s + ['\r'];
      FirstIndex('\n', full, |s| + 1);
      assert CutLine(s + t).Some?;
    }
  }

  // ---- waiting for a line ----

  /** `wait_line_with`: the first line that satisfies `p`; `discarded` joins those that do not. */
  function WaitLine(p: Bytes -> bool, discarded: Bytes, buffer: Bytes, events: seq<Event>)
    : (Result<Bytes, TelnetError>, Bytes, seq<Event>)
    decreases |events|, |buffer|
  {
    var (r, buffer', events') := ReadLine(buffer, events);
    match r
    case Ok(line) =>
      if p(line) then (Ok(line), buffer', events') else WaitLine(p, discarded + line, buffer', events')
    case Err(Timeout) =>
      (Err(if discarded != [] then UnexpectedResponse(discarded) else Timeout), buffer', events')
    case Err(error) => (Err(error), buffer', events')
  }

  /** The wait passes over `k` lines that do not match. On success the next one is the match; on a
      timeout their concatenation is reported, if there is any; and the lines behind them are left
      to later calls. */
  ghost predicate Passes(p: Bytes -> bool, discarded: Bytes, before: seq<Bytes>, k: nat,
                         r: Result<Bytes, TelnetError>, after: seq<Bytes>)
  {
    && k <= |before| && (forall j :: 0 <= j < k ==> !p(before[j]))
    && match r
       case Ok(line) => k < |before| && before[k] == line && p(line) && after == before[k + 1..]
       case Err(error) =>
         && after == before[k..]
         && (error.UnexpectedResponse? ==> error.lines == discarded + Flatten(before[..k]) && error.lines != [])
         && (error.Timeout? ==> discarded + Flatten(before[..k]) == [])
  }

  lemma {:induction false} WaitLineFinds(p: Bytes -> bool, discarded: Bytes, buffer: Bytes, events: seq<Event>)
    returns (k: nat)
    ensures var (r, buffer', events') := WaitLine(p, discarded, buffer, events);
            Passes(p, discarded, Upcoming(buffer, events), k, r, Upcoming(buffer', events'))
    decreases |events|, |buffer|
  {
    ReadLineTakesFirst(buffer, events);
    var (r, buffer', events') := ReadLine(buffer, events);
    var before, rest := Upcoming(buffer, events), Upcoming(buffer', events');
    k := 0;
    if r.Ok? && !p(r.value) {
      var k' := WaitLineFinds(p, discarded + r.value, buffer', events');
      k := k' + 1;
      PassesOneMore(p, discarded, r.value, rest, k', WaitLine(p, discarded, buffer, events).0,
                    Upcoming(WaitLine(p, discarded, buffer, events).1, WaitLine(p, discarded, buffer, events).2));
    } else {
      assert before[..0] == [] && before[0..] == before && discarded + [] == discarded;
    }
  }

  lemma PassesOneMore(p: Bytes -> bool, discarded: Bytes, line: Bytes, rest: seq<Bytes>, k: nat,
                      r: Result<Bytes, TelnetError>, after: seq<Bytes>)
    requires !p(line) && Passes(p, discarded + line, rest, k, r, after)
    ensures Passes(p, discarded, [line] + rest, k + 1, r, after)
  {
    var before := [line] + rest;
    forall j | 0 <= j < k + 1 ensures !p(before[j]) {
      assert j > 0 ==> before[j] == rest[j - 1];
    }
    assert before[..k + 1] == [line] + rest[..k];
    FlattenAppend([line], rest[..k]);
    assert Flatten([line]) == line;
    Associative(discarded, line, Flatten(rest[..k]));
    assert before[k + 1..] == rest[k..];
    if r.Ok? {
      assert before[k + 1] == rest[k] && before[k + 2..] == rest[k + 1..];
    }
  }

  lemma DrainingConserves(drained: seq<Bytes>, buffer: Bytes, n: nat)
    requires n <= |buffer|
    ensures Flatten(drained + [buffer[..n]]) + buffer[n..] == Flatten(drained) + buffer
  {
    FlattenAppend(drained, [buffer[..n]]);
    assert Flatten([buffer[..n]]) == buffer[..n];
    assert buffer == buffer[..n] + buffer[n..];
    Associative(Flatten(drained), buffer[..n], buffer[n..]);
  }

  /** Between two moments: what has been drained stays drained, and `kept` are the lines drained since
      that are not to be ignored. */
  ghost predicate DrainedSince(before: seq<Bytes>, now: seq<Bytes>, kept: seq<Bytes>) {
    before <= now && Kept(now[|before|..]) == kept
  }

  lemma DrainedOneMore(before: seq<Bytes>, now: seq<Bytes>, kept: seq<Bytes>, line: Bytes)
    requires DrainedSince(before, now, kept)
    ensures DrainedSince(before, now + [line], kept + if Ignored(line) then [] else [line])
  {
    assert (now + [line])[|before|..] == now[|before|..] + [line];
    KeptAppend(now[|before|..], [line]);
  }

  lemma DrainedTwice(before: seq<Bytes>, middle: seq<Bytes>, now: seq<Bytes>, p: seq<Bytes>, q: seq<Bytes>)
    requires DrainedSince(before, middle, p) && DrainedSince(middle, now, q)
    ensures DrainedSince(before, now, p + q)
  {
    assert now[|before|..] == middle[|before|..] + now[|middle|..];
    KeptAppend(middle[|before|..], now[|middle|..]);
  }

  /** The lines that a wait has drained, in terms of its outcome: all but the match are discarded, and
      reported if the wait times out. */
  ghost predicate Waited(p: Bytes -> bool, kept: seq<Bytes>, r: Result<Bytes, TelnetError>) {
    match r
    case Ok(line) => p(line) && exists passed: seq<Bytes> :: kept == passed + [line] && NoneMatches(p, passed)
    case Err(error) =>
      && NoneMatches(p, kept)
      && (error.UnexpectedResponse? ==> error.lines == Flatten(kept) && kept != [])
      && (error.Timeout? ==> kept == [])
  }

  lemma {:induction false} KeptAreSome(lines: seq<Bytes>)
    ensures forall l :: l in Kept(lines) ==> l in lines
  {
    if lines != [] {
      KeptAreSome(lines[1..]);
    }
  }

  ghost predicate NoneMatches(p: Bytes -> bool, lines: seq<Bytes>) {
    forall l :: l in lines ==> !p(l)
  }

  class TelnetInterface {
    var connection: seq<Event>
    var buffer: Bytes
    ghost const stream: Bytes
    ghost var received: Bytes
    ghost var drained: seq<Bytes>

    /** `stream` is everything that the connection brings in the end, NULs apart. What has been
        received of it is in drained lines or in the buffer. */
    ghost predicate Valid()
      reads this
    {
      && received + Visible(connection) == stream
      && Flatten(drained) + buffer == received
      && forall l :: l in drained ==> IsLine(l)
    }

    constructor (connection: seq<Event>)
      ensures Valid() && this.connection == connection && stream == Visible(connection)
      ensures buffer == [] && received == [] && drained == []
    {
      this.connection, buffer, received, drained := connection, [], [], [];
      stream := Visible(connection);
      new;
      assert [] + Visible(connection) == Visible(connection);
    }

    method ReadIntoBuffer() returns (r: Result<(), TelnetError>)
      requires Valid()
      modifies this`connection, this`buffer, this`received
      ensures Valid()
      ensures old(connection) == [] ==>
                r == Err(Timeout) && connection == [] && buffer == old(buffer) && received == old(received)
      ensures old(connection) != [] ==>
                (r, buffer) == Receive(old(buffer), old(connection)[0]) && connection == old(connection)[1..]
    {
      if connection == [] {
        return Err(Timeout);
      }
      var event := connection[0];
      connection := connection[1..];
      ghost var bytes := if event.Data? then WithoutNul(event.bytes) else [];
      Associative(received, bytes, Visible(connection));
      Associative(Flatten(drained), buffer, bytes);
      received := received + bytes;
      assert buffer + [] == buffer;
      match event {
        case Data(bytes) =>
          buffer := buffer + WithoutNul(bytes);
          r := Ok(());
        case Other =>
          r := Ok(());
        case TimedOut =>
          r := Err(Timeout);
        case Broken =>
          r := Err(IoError);
      }
    }

    /** Drain the first line, if there is one. */
    method DrainLine() returns (r: Option<Bytes>)
      requires Valid()
      modifies this`buffer, this`drained
      ensures Valid()
      ensures CutLine(old(buffer)).None? ==> r.None? && buffer == old(buffer) && drained == old(drained)
      ensures CutLine(old(buffer)).Some? ==>
                && r == Some(CutLine(old(buffer)).value.item)
                && buffer == old(buffer)[CutLine(old(buffer)).value.size..]
                && drained == old(drained) + [r.value]
    {
      r := None;
      var i := IndexOf('\n', buffer);
      if i.Some? && i.value >= 1 && buffer[i.value - 1] == '\r' {
        var line := buffer[..i.value + 1];
        CutLineIsLine(buffer);
        DrainingConserves(drained, buffer, i.value + 1);
        buffer := buffer[i.value + 1..];
        drained := drained + [line];
        r := Some(line);
      }
    }

    method NextLine() returns (r: Result<Bytes, TelnetError>)
      requires Valid()
      modifies this
      ensures Valid()
      ensures (r, buffer, connection) == ReadLine(old(buffer), old(connection))
      ensures received + Visible(connection) == old(received) + Visible(old(connection))
      ensures DrainedSince(old(drained), drained, if r.Ok? then [r.value] else [])
    {
      while true
        invariant Valid()
        invariant ReadLine(buffer, connection) == ReadLine(old(buffer), old(connection))
        invariant DrainedSince(old(drained), drained, [])
        decreases |connection|, |buffer|
      {
        ghost var before := drained;
        var line := DrainLine();
        if line.Some? {
          DrainedOneMore(old(drained), before, [], line.value);
          if !Ignored(line.value) {
            return Ok(line.value);
          }
        } else {
          var more := ReadIntoBuffer();
          if more.Err? {
            return Err(more.error);
          }
        }
      }
    }

    method WaitLineWith(p: Bytes -> bool) returns (r: Result<Bytes, TelnetError>)
      requires Valid()
      modifies this
      ensures Valid()
      ensures (r, buffer, connection) == WaitLine(p, [], old(buffer), old(connection))
      ensures received + Visible(connection) == old(received) + Visible(old(connection))
      ensures old(drained) <= drained && Waited(p, Kept(drained[|old(drained)|..]), r)
    {
      var discardedLines: Bytes := [];
      ghost var passed: seq<Bytes> := [];
      while true
        invariant Valid()
        invariant WaitLine(p, discardedLines, buffer, connection) == WaitLine(p, [], old(buffer), old(connection))
        invariant DrainedSince(old(drained), drained, passed)
        invariant NoneMatches(p, passed) && Flatten(passed) == discardedLines
        invariant passed == [] <==> discardedLines == []
        decreases |connection|, |buffer|
      {
        ghost var before := drained;
        var line := NextLine();
        DrainedTwice(old(drained), before, drained, passed, if line.Ok? then [line.value] else []);
        assert passed + [] == passed;
        match line {
          case Ok(found) =>
            if p(found) {
              return Ok(found);
            }
            KeptAreSome(drained[|before|..]);
            assert found in Kept(drained[|before|..]);
            LineHasLength(found);
            FlattenAppend(passed, [found]);
            assert Flatten([found]) == found;
            discardedLines := discardedLines + found;
            passed := passed + [found];
          case Err(Timeout) =>
            return Err(if |discardedLines| > 0 then UnexpectedResponse(discardedLines) else Timeout);
          case Err(error) =>
            return Err(error);
        }
      }
    }
  }
}
