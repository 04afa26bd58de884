/** The list of RTT channels that OpenOCD prints (`parse_rtt_channels` in
    src/openocd/telnet_interface.rs). Lines are UTF-8 and keep their CR LF. */
module RttChannels {
  import opened Common

  datatype Direction = Up | Down
  datatype Channel = Channel(id: u32, name: Bytes, bufferSize: u32, flags: u32, direction: Direction)

  datatype LineMeaning =
    | ListDirection(direction: Direction)
    | DescribeChannel(id: u32, name: Bytes, size: u32, flags: u32)

  const UP_HEADER: Bytes := "Up-channels:"
  const DOWN_HEADER: Bytes := "Down-channels:"

  predicate Space(c: byte) {
    c == ' ' || 9 <= c as int <= 10 || 12 <= c as int <= 13
  }

  function ParseU32(s: Bytes): Option<u32> {
    ParseUnsigned(10, 0xFFFF_FFFF, s)
  }

  /** Position of the first ": ". */
  function FindColon(s: Bytes): (r: Option<nat>)
    ensures r.Some? ==> r.value + 1 < |s| && s[r.value] == ':' && s[r.value + 1] == ' '
    ensures forall j :: 0 <= j < (if r.Some? then r.value else |s| - 1) ==> !(s[j] == ':' && s[j + 1] == ' ')
  {
    if |s| < 2 then None
    else if s[0] == ':' && s[1] == ' ' then Some(0)
    else
      match FindColon(s[1..])
      case Some(i) => Some(i + 1)
      case None => None
  }

  function WordLength(s: Bytes): (n: nat)
    ensures n <= |s|
  {
    if s == [] || Space(s[0]) then 0 else 1 + WordLength(s[1..])
  }

  /** `split_ascii_whitespace`. */
  function Words(s: Bytes): seq<Bytes>
    decreases |s|
  {
    if s == [] then []
    else if Space(s[0]) then Words(s[1..])
    else [s[..WordLength(s)]] + Words(s[WordLength(s)..])
  }

  function ParseDescription(id: u32, description: Bytes): Option<LineMeaning> {
    var tokens := Words(description);
    if |tokens| < 3 then None
    else
      match (ParseU32(tokens[1]), ParseU32(tokens[2]))
      case (Some(size), Some(flags)) => Some(DescribeChannel(id, tokens[0], size, flags))
      case _ => None
  }

  function ParseLine(line: Bytes): Option<LineMeaning> {
    if UP_HEADER <= line then Some(ListDirection(Up))
    else if DOWN_HEADER <= line then Some(ListDirection(Down))
    else
      match FindColon(line)
      case None => None
      case Some(i) =>
        var rest := line[i + 2..];
        var description := if FindColon(rest).Some? then rest[..FindColon(rest).value] else rest;
        match ParseU32(line[..i])
        case None => None
        case Some(id) => ParseDescription(id, description)
  }

  /** The lines that mean something. */
  function Meanings(lines: seq<Bytes>): seq<LineMeaning> {
    if lines == [] then []
    else
      Meanings(lines[..|lines| - 1]) +
      match ParseLine(lines[|lines| - 1]) case Some(meaning) => [meaning] case None => []
  }

  lemma MeaningsOneMore(lines: seq<Bytes>, line: Bytes)
    ensures Meanings(lines + [line]) ==
            Meanings(lines) + match ParseLine(line) case Some(meaning) => [meaning] case None => []
  {
    assert (lines + [line])[..|lines|] == lines;
  }

  /** The fold: the channels so far and the direction of the latest header. */
  function Fold(meanings: seq<LineMeaning>): (seq<Channel>, Option<Direction>) {
    if meanings == [] then ([], None)
    else
      var (channels, direction) := Fold(meanings[..|meanings| - 1]);
      match meanings[|meanings| - 1]
      case ListDirection(d) => (channels, Some(d))
      case DescribeChannel(id, name, size, flags) =>
        (if direction.Some? then channels + [Channel(id, name, size, flags, direction.value)] else channels, direction)
  }

  lemma FoldOneMore(meanings: seq<LineMeaning>, m: LineMeaning)
    ensures var (channels, direction) := Fold(meanings);
            Fold(meanings + [m]) == match m {
              case ListDirection(d) => (channels, Some(d))
              case DescribeChannel(id, name, size, flags) =>
                (if direction.Some? then channels + [Channel(id, name, size, flags, direction.value)] else channels,
                 direction)
            }
  {
    assert (meanings + [m])[..|meanings|] == meanings;
  }

  lemma FoldLine(lines: seq<Bytes>, i: nat)
    requires i < |lines|
    ensures var (channels, direction) := Fold(Meanings(lines[..i]));
            Fold(Meanings(lines[..i + 1])) == match ParseLine(lines[i]) {
              case None => (channels, direction)
              case Some(ListDirection(d)) => (channels, Some(d))
              case Some(DescribeChannel(id, name, size, flags)) =>
                (if direction.Some? then channels + [Channel(id, name, size, flags, direction.value)] else channels,
                 direction)
            }
  {
    var before := Meanings(lines[..i]);
    assert lines[..i] + [lines[i]] == lines[..i + 1];
    MeaningsOneMore(lines[..i], lines[i]);
    match ParseLine(lines[i])
    case Some(meaning) => FoldOneMore(before, meaning);
    case None => assert before + [] == before;
  }

  /** `parse_rtt_channels`. */
  method ParseRttChannels(lines: seq<Bytes>) returns (channels: seq<Channel>)
    ensures channels == Fold(Meanings(lines)).0
  {
    channels := [];
    var direction: Option<Direction> := None;
    var i := 0;
    while i < |lines|
      invariant 0 <= i <= |lines|
      invariant (channels, direction) == Fold(Meanings(lines[..i]))
    {
      FoldLine(lines, i);
      match ParseLine(lines[i]) {
        case None =>
        case Some(ListDirection(d)) =>
          direction := Some(d);
        case Some(DescribeChannel(id, name, size, flags)) =>
          if direction.Some? {
            channels := channels + [Channel(id, name, size, flags, direction.value)];
          }
      }
      i := i + 1;
    }
    assert lines[..i] == lines;
  }

  // ---- what the result means, on any input ----

  /** `h` is the last header among the first `i` meanings. */
  ghost predicate NearestHeader(ms: seq<LineMeaning>, i: nat, h: nat) {
    h < i <= |ms| && ms[h].ListDirection? && forall j :: h < j < i ==> ms[j].DescribeChannel?
  }

  /** The channel that meaning `i` contributes: one described below some header, with the direction
      of the nearest header above it. */
  ghost predicate Contributes(ms: seq<LineMeaning>, i: nat, c: Channel) {
    && i < |ms| && ms[i] == DescribeChannel(c.id, c.name, c.bufferSize, c.flags)
    && exists h: nat :: NearestHeader(ms, i, h) && ms[h].direction == c.direction
  }

  lemma {:induction false} DirectionIsNearestHeader(ms: seq<LineMeaning>)
    ensures Fold(ms).1.Some? ==>
              exists h: nat :: NearestHeader(ms, |ms|, h) && ms[h].direction == Fold(ms).1.value
    ensures Fold(ms).1.None? ==> forall j :: 0 <= j < |ms| ==> ms[j].DescribeChannel?
  {
    if ms != [] {
      var n := |ms| - 1;
      DirectionIsNearestHeader(ms[..n]);
      if ms[n].ListDirection? {
        assert NearestHeader(ms, |ms|, n);
      } else if Fold(ms).1.Some? {
        var h: nat :| NearestHeader(ms[..n], n, h) && ms[..n][h].direction == Fold(ms).1.value;
        assert NearestHeader(ms, |ms|, h);
      }
    }
  }

  lemma ContributesToPrefix(ms: seq<LineMeaning>, n: nat, i: nat, c: Channel)
    requires i < n <= |ms|
    ensures Contributes(ms, i, c) <==> Contributes(ms[..n], i, c)
  {
    forall h: nat ensures NearestHeader(ms, i, h) <==> NearestHeader(ms[..n], i, h) {
      assert forall j :: 0 <= j < n ==> ms[..n][j] == ms[j];
    }
  }

  lemma LastContributesIff(ms: seq<LineMeaning>, n: nat, c: Channel)
    requires |ms| == n + 1
    ensures Contributes(ms, n, c) <==>
            ms[n] == DescribeChannel(c.id, c.name, c.bufferSize, c.flags) && Fold(ms[..n]).1 == Some(c.direction)
  {
    DirectionIsNearestHeader(ms[..n]);
    if Contributes(ms, n, c) {
      var h: nat :| NearestHeader(ms, n, h) && ms[h].direction == c.direction;
      assert ms[..n][h] == ms[h];
      var g: nat :| NearestHeader(ms[..n], n, g) && ms[..n][g].direction == Fold(ms[..n]).1.value;
      assert NearestHeader(ms, n, g);
    } else if Fold(ms[..n]).1 == Some(c.direction) {
      var g: nat :| NearestHeader(ms[..n], n, g) && ms[..n][g].direction == Fold(ms[..n]).1.value;
      assert NearestHeader(ms, n, g);
    }
  }

  /** Where the channels of the result are described. */
  function Sources(ms: seq<LineMeaning>): (from: seq<nat>)
    ensures |from| == |Fold(ms).0| && forall k :: 0 <= k < |from| ==> from[k] < |ms|
    ensures forall j, k :: 0 <= j < k < |from| ==> from[j] < from[k]
  {
    if ms == [] then []
    else
      var n := |ms| - 1;
      Sources(ms[..n]) + if ms[n].DescribeChannel? && Fold(ms[..n]).1.Some? then [n] else []
  }

  /** On any input every channel of the result is described by its source line and has the
      direction of the nearest header above that line... */
  lemma {:induction false} ChannelsCarryNearestDirection(ms: seq<LineMeaning>, k: nat)
    requires k < |Sources(ms)|
    ensures Contributes(ms, Sources(ms)[k], Fold(ms).0[k])
  {
    var n := |ms| - 1;
    if k < |Sources(ms[..n])| {
      ChannelsCarryNearestDirection(ms[..n], k);
      ContributesToPrefix(ms, n, Sources(ms)[k], Fold(ms).0[k]);
    } else {
      LastContributesIff(ms, n, Fold(ms).0[k]);
    }
  }

  /** ... and no channel described below a header is missing. */
  lemma {:induction false} NoChannelIsMissing(ms: seq<LineMeaning>, i: nat, c: Channel)
    requires Contributes(ms, i, c)
    ensures i in Sources(ms)
  {
    var n := |ms| - 1;
    if i < n {
      ContributesToPrefix(ms, n, i, c);
      NoChannelIsMissing(ms[..n], i, c);
    } else {
      LastContributesIff(ms, n, c);
    }
  }

  // ---- printing, and parsing as its inverse ----

  function Decimal(n: nat): (s: Bytes)
    ensures s != []
  {
    if n < 10 then [DigitChar(n)] else Decimal(n / 10) + [DigitChar(n % 10)]
  }

  lemma {:induction false} DecimalValue(n: nat)
    ensures DigitsValue(10, Decimal(n)) == Some(n)
    ensures forall i :: 0 <= i < |Decimal(n)| ==> IsDecimal(Decimal(n)[i])
  {
    var s := Decimal(n);
    if n < 10 {
      assert s[..0] == [];
    } else {
      DecimalValue(n / 10);
      assert s[..|s| - 1] == Decimal(n / 10);
    }
  }

  /** A decimal digit. */
  predicate IsDecimal(c: byte) {
    '0' <= c <= '9'
  }

  lemma DecimalParses(n: u32)
    ensures ParseU32(Decimal(n)) == Some(n)
  {
    DecimalValue(n);
  }

  const CRLF: Bytes := "\r\n"

  /** The part of a line behind the id. */
  function Description(name: Bytes, size: u32, flags: u32): Bytes {
    name + Numbers(size, flags)
  }

  function Numbers(size: u32, flags: u32): Bytes {
    [' '] + Decimal(size) + [' '] + Decimal(flags) + CRLF
  }

  function Print(c: Channel): Bytes {
    Decimal(c.id) + ": " + Description(c.name, c.bufferSize, c.flags)
  }

  /** Not empty, and without blanks, tabs, line feeds, form feeds and carriage returns. */
  ghost predicate Word(s: Bytes) {
    s != [] && forall i :: 0 <= i < |s| ==> s[i] !in {' ', '\t', '\n', 12 as char, '\r'}
  }

  lemma SpaceIff(c: byte)
    ensures Space(c) <==> c in {' ', '\t', '\n', 12 as char, '\r'}
  {
    assert '\t' as int == 9 && '\n' as int == 10 && '\r' as int == 13;
  }

  lemma WordHasNoSpace(s: Bytes)
    requires Word(s)
    ensures forall i :: 0 <= i < |s| ==> !Space(s[i])
  {
    forall i | 0 <= i < |s| ensures !Space(s[i]) {
      SpaceIff(s[i]);
    }
  }

  lemma {:induction false} WordLengthOf(w: Bytes, rest: Bytes)
    requires forall i :: 0 <= i < |w| ==> !Space(w[i])
    requires rest == [] || Space(rest[0])
    ensures WordLength(w + rest) == |w|
  {
    if w == [] {
      assert w + rest == rest;
    } else {
      WordLengthOf(w[1..], rest);
      assert (w + rest)[1..] == w[1..] + rest;
    }
  }

  lemma WordsOf(w: Bytes, rest: Bytes)
    requires Word(w) && (rest == [] || Space(rest[0]))
    ensures Words(w + rest) == [w] + Words(rest)
  {
    WordHasNoSpace(w);
    WordLengthOf(w, rest);
    assert (w + rest)[..|w|] == w && (w + rest)[|w|..] == rest;
  }

  lemma DecimalIsWord(n: nat)
    ensures Word(Decimal(n))
  {
    DecimalValue(n);
  }

  lemma WordsOfDescription(name: Bytes, size: u32, flags: u32)
    requires Word(name)
    ensures Words(Description(name, size, flags)) == [name, Decimal(size), Decimal(flags)]
  {
    hide Decimal, WordLength, Word;
    var end := Decimal(flags) + CRLF;
    var middle := Decimal(size) + ([' '] + end);
    assert Description(name, size, flags) == name + ([' '] + middle);
    DecimalIsWord(size);
    DecimalIsWord(flags);
    WordsOf(name, [' '] + middle);
    assert ([' '] + middle)[1..] == middle;
    WordsOf(Decimal(size), [' '] + end);
    assert ([' '] + end)[1..] == end;
    WordsOf(Decimal(flags), CRLF);
    assert CRLF[1..] == ['\n'] && ['\n'][1..] == [];
    assert Words(CRLF) == [];
  }

  lemma FindColonAt(s: Bytes, i: nat)
    requires i + 1 < |s| && s[i] == ':' && s[i + 1] == ' '
    requires forall j :: 0 <= j < i ==> !(s[j] == ':' && s[j + 1] == ' ')
    ensures FindColon(s) == Some(i)
  {}

  ghost predicate NoColon(s: Bytes) {
    forall k :: 0 <= k < |s| ==> s[k] != ':'
  }

  lemma NumbersHaveNoColon(size: u32, flags: u32)
    ensures NoColon(Numbers(size, flags))
  {
    DecimalValue(size);
    DecimalValue(flags);
  }

  /** ": " occurs in the description only if the name ends in a colon. */
  lemma ColonInDescription(name: Bytes, size: u32, flags: u32)
    requires Word(name)
    ensures FindColon(Description(name, size, flags)) ==
            if name[|name| - 1] == ':' then Some(|name| - 1) else None
  {
    NumbersHaveNoColon(size, flags);
    ColonAtEndOfWord(name, Numbers(size, flags));
  }

  lemma ColonAtEndOfWord(name: Bytes, tail: Bytes)
    requires Word(name) && tail != [] && tail[0] == ' ' && NoColon(tail)
    ensures FindColon(name + tail) == if name[|name| - 1] == ':' then Some(|name| - 1) else None
  {
    var s := name + tail;
    forall j | 0 <= j < |s| - 1 && !(j == |name| - 1 && name[j] == ':')
      ensures !(s[j] == ':' && s[j + 1] == ' ')
    {
      if j < |name| - 1 {
        assert s[j + 1] == name[j + 1];
      } else if j >= |name| {
        assert s[j] == tail[j - |name|];
      }
    }
    if name[|name| - 1] == ':' {
      FindColonAt(s, |name| - 1);
    }
  }

  /** The id of a printed line is read, and the rest is taken for the description up to the next
      ": ", if there is one. */
  lemma PrintedIdParses(c: Channel)
    ensures var description := Description(c.name, c.bufferSize, c.flags);
            ParseLine(Print(c)) ==
            ParseDescription(c.id, if FindColon(description).Some? then description[..FindColon(description).value]
                                   else description)
  {
    var id, description := Decimal(c.id), Description(c.name, c.bufferSize, c.flags);
    var line := Print(c);
    DecimalValue(c.id);
    DecimalParses(c.id);
    assert line[0] == id[0];
    forall j | 0 <= j < |id| ensures line[j] != ':' {
      assert line[j] == id[j];
    }
    FindColonAt(line, |id|);
    assert line[..|id|] == id && line[|id| + 2..] == description;
  }

  /** A printed line parses back to the channel exactly when the name does not end in a colon. */
  lemma LineRoundTripIff(c: Channel)
    requires Word(c.name)
    ensures ParseLine(Print(c)) == Some(DescribeChannel(c.id, c.name, c.bufferSize, c.flags)) <==>
            c.name[|c.name| - 1] != ':'
  {
    PrintedIdParses(c);
    ColonInDescription(c.name, c.bufferSize, c.flags);
    if c.name[|c.name| - 1] != ':' {
      WordsOfDescription(c.name, c.bufferSize, c.flags);
      DecimalParses(c.bufferSize);
      DecimalParses(c.flags);
    } else {
      OneWordIsNoDescription(c);
    }
  }

  lemma OneWordIsNoDescription(c: Channel)
    requires Word(c.name)
    ensures ParseDescription(c.id, Description(c.name, c.bufferSize, c.flags)[..|c.name| - 1]).None?
  {
    var cut := c.name[..|c.name| - 1];
    assert Description(c.name, c.bufferSize, c.flags)[..|c.name| - 1] == cut;
    if cut != [] {
      WordsOf(cut, []);
      assert cut + [] == cut;
    }
  }

  function PrintAll(channels: seq<Channel>): seq<Bytes> {
    if channels == [] then [] else PrintAll(channels[..|channels| - 1]) + [Print(channels[|channels| - 1])]
  }

  /** The summary line that OpenOCD prints first. */
  function Summary(up: nat, down: nat): Bytes {
    "Channels: up=" + Decimal(up) + ", down=" + Decimal(down) + CRLF
  }

  /** The whole listing: a summary, then the up and the down channels under their headers. */
  function Listing(summary: Bytes, up: seq<Channel>, down: seq<Channel>): seq<Bytes> {
    [summary] + [UP_HEADER + CRLF] + PrintAll(up) + [DOWN_HEADER + CRLF] + PrintAll(down)
  }

  ghost predicate Printable(channels: seq<Channel>, direction: Direction) {
    forall c :: c in channels ==> Word(c.name) && c.name[|c.name| - 1] != ':' && c.direction == direction
  }

  lemma FoldOnePrinted(lines: seq<Bytes>, c: Channel)
    requires Word(c.name) && c.name[|c.name| - 1] != ':'
    requires Fold(Meanings(lines)).1 == Some(c.direction)
    ensures Fold(Meanings(lines + [Print(c)])) == (Fold(Meanings(lines)).0 + [c], Some(c.direction))
  {
    LineRoundTripIff(c);
    MeaningsOneMore(lines, Print(c));
    FoldOneMore(Meanings(lines), DescribeChannel(c.id, c.name, c.bufferSize, c.flags));
  }

  lemma {:induction false} FoldPrinted(lines: seq<Bytes>, channels: seq<Channel>, direction: Direction)
    requires Fold(Meanings(lines)).1 == Some(direction) && Printable(channels, direction)
    ensures Fold(Meanings(lines + PrintAll(channels))) == (Fold(Meanings(lines)).0 + channels, Some(direction))
    decreases |channels|
  {
    if channels == [] {
      assert lines + [] == lines && Fold(Meanings(lines)).0 + [] == Fold(Meanings(lines)).0;
    } else {
      var n := |channels| - 1;
      var last := channels[n];
      hide Fold, Meanings, Print, Word;
      FoldPrinted(lines, channels[..n], direction);
      assert last in channels;
      FoldOnePrinted(lines + PrintAll(channels[..n]), last);
      Associative(lines, PrintAll(channels[..n]), [Print(last)]);
      assert channels == channels[..n] + [last];
      Associative(Fold(Meanings(lines)).0, channels[..n], [last]);
    }
  }

  lemma HeaderParses(direction: Direction)
    ensures ParseLine((if direction == Up then UP_HEADER else DOWN_HEADER) + CRLF) == Some(ListDirection(direction))
  {
    assert UP_HEADER[0] != DOWN_HEADER[0];
    assert (DOWN_HEADER + CRLF)[0] == DOWN_HEADER[0];
  }

  /** Exactly the lines that are headers. */
  lemma HeaderIff(line: Bytes)
    ensures ParseLine(line) == Some(ListDirection(Up)) <==> "Up-channels:" <= line
    ensures ParseLine(line) == Some(ListDirection(Down)) <==> "Down-channels:" <= line
  {
    assert UP_HEADER[0] == 'U' && DOWN_HEADER[0] == 'D';
    assert UP_HEADER <= line ==> line[0] == 'U';
    assert DOWN_HEADER <= line ==> line[0] == 'D';
  }

  /** A line of the documented listing, byte for byte: number, name, buffer size and flags. */
  lemma DocumentedLine(name: Bytes)
    requires Word(name) && name[|name| - 1] != ':'
    ensures ParseLine("2" + ": " + name + " " + "4096" + " " + "0" + "\r\n") ==
            Some(DescribeChannel(2, name, 4096, 0))
  {
    hide ParseLine, Decimal, Word;
    var c := Channel(2, name, 4096, 0, Up);
    LineRoundTripIff(c);
    SmallDecimals();
    PrintedBytes(c);
  }

  lemma PrintedBytes(c: Channel)
    ensures Print(c) ==
            Decimal(c.id) + ": " + c.name + " " + Decimal(c.bufferSize) + " " + Decimal(c.flags) + "\r\n"
  {
    hide Decimal;
  }

  lemma SmallDecimals()
    ensures Decimal(0) == "0" && Decimal(2) == "2" && Decimal(4096) == "4096"
  {
    assert Decimal(4) == "4";
    assert Decimal(40) == "40";
    assert Decimal(409) == "409";
  }

  lemma FoldHeader(lines: seq<Bytes>, direction: Direction)
    ensures var header := (if direction == Up then UP_HEADER else DOWN_HEADER) + CRLF;
            Fold(Meanings(lines + [header])) == (Fold(Meanings(lines)).0, Some(direction))
  {
    var header := (if direction == Up then UP_HEADER else DOWN_HEADER) + CRLF;
    HeaderParses(direction);
    MeaningsOneMore(lines, header);
    FoldOneMore(Meanings(lines), ListDirection(direction));
  }

  /** The listing round trip: every id, name, size, flag word and direction comes back, in order. */
  lemma ListingRoundTrip(summary: Bytes, up: seq<Channel>, down: seq<Channel>)
    requires Printable(up, Up) && Printable(down, Down) && ParseLine(summary).None?
    ensures Fold(Meanings(Listing(summary, up, down))).0 == up + down
  {
    var head := [summary];
    MeaningsOneMore([], summary);
    assert [] + head == head;
    FoldHeader(head, Up);
    var l1 := head + [UP_HEADER + CRLF];
    FoldPrinted(l1, up, Up);
    assert [] + up == up;
    FoldHeader(l1 + PrintAll(up), Down);
    FoldPrinted(l1 + PrintAll(up) + [DOWN_HEADER + CRLF], down, Down);
  }

  /** The listing as OpenOCD prints it, with its own summary line. */
  lemma PrintedListingRoundTrip(up: seq<Channel>, down: seq<Channel>)
    requires Printable(up, Up) && Printable(down, Down)
    ensures Fold(Meanings(Listing(Summary(|up|, |down|), up, down))).0 == up + down
  {
    var counts: Bytes := "up=" + Decimal(|up|) + ", down=" + Decimal(|down|) + CRLF;
    var word: Bytes := "Channels: ";
    assert Summary(|up|, |down|) == word + counts;
    SummaryHasNoMeaning(counts);
    ListingRoundTrip(Summary(|up|, |down|), up, down);
  }

  lemma SummaryHasNoMeaning(counts: Bytes)
    ensures ParseLine("Channels: " + counts).None?
  {
    var word: Bytes := "Channels";
    var line: Bytes := "Channels: " + counts;
    assert line[..8] == word && line[8] == ':' && line[9] == ' ';
    forall j | 0 <= j < 8 ensures line[j] != ':' {
      assert line[j] == word[j];
    }
    FindColonAt(line, 8);
    assert line[0] == 'C' && UP_HEADER[0] == 'U' && DOWN_HEADER[0] == 'D';
    assert word[|word| - 1] == 's';
    assert DigitsValue(10, word).None?;
  }
}
