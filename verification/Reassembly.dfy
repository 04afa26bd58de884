/** Cutting messages out of a byte stream that arrives in arbitrary pieces.

    All three readers of the program follow one scheme: keep the bytes that have not been
    used yet, try to cut a message off the front, and take more bytes when none can be cut.
    A cutter is the "try" step. What is proved here about cutters in general is instantiated
    for GDB responses, Telnet lines and RTT frames. */
module Reassembly {
  import opened Common

  // A message together with the number of bytes it occupies at the front of the buffer.
  datatype Cut<+T> = Cut(item: T, size: nat)

  // What one attempt to receive can bring. `Fault` makes the reading call return with an
  // error; the bytes gathered so far stay in the buffer.
  datatype Arrival<+S, +E> = Data(bytes: Bytes, stamp: S) | Fault(error: E)

  datatype Outcome<+T, +E> = Got(item: T) | Failed(error: E) | Starved

  /** A cut lies within the buffer, makes progress, and is not changed by later bytes. */
  ghost predicate Stable<T>(cut: Bytes -> Option<Cut<T>>) {
    forall s, t :: StableAt(cut, s, t)
  }

  ghost predicate StableAt<T>(cut: Bytes -> Option<Cut<T>>, s: Bytes, t: Bytes) {
    cut(s).Some? ==> 0 < cut(s).value.size <= |s| && cut(s + t) == cut(s)
  }

  /** Everything that can be cut off the front of `s`, in order, and what is left. */
  function CutAll<T>(cut: Bytes -> Option<Cut<T>>, s: Bytes): (r: (seq<T>, Bytes))
    ensures |r.1| <= |s|
    decreases |s|
  {
    var c := cut(s);
    if c.None? || c.value.size == 0 || c.value.size > |s| then ([], s)
    else
      var (items, rest) := CutAll(cut, s[c.value.size..]);
      ([c.value.item] + items, rest)
  }

  /** Bytes that come later extend the result: what was already cut is final. */
  lemma {:induction false} CutAllAppend<T>(cut: Bytes -> Option<Cut<T>>, s: Bytes, t: Bytes)
    requires Stable(cut)
    ensures var (early, rest) := CutAll(cut, s);
            var (late, rest') := CutAll(cut, rest + t);
            CutAll(cut, s + t) == (early + late, rest')
    decreases |s|
  {
    var c := cut(s);
    assert StableAt(cut, s, t);
    if c.Some? {
      var n := c.value.size;
      CutAllAppend(cut, s[n..], t);
      var (early, rest) := CutAll(cut, s[n..]);
      var (late, rest') := CutAll(cut, rest + t);
      DropAppend(s, t, n);
      assert CutAll(cut, s) == ([c.value.item] + early, rest);
      assert CutAll(cut, s + t) == ([c.value.item] + (early + late), rest');
      assert [c.value.item] + (early + late) == ([c.value.item] + early) + late;
    } else {
      assert CutAll(cut, s) == ([], s);
      assert [] + CutAll(cut, s + t).0 == CutAll(cut, s + t).0;
    }
  }

  /** Nothing more can be cut from what CutAll leaves. */
  lemma {:induction false} CutAllExhausts<T>(cut: Bytes -> Option<Cut<T>>, s: Bytes)
    requires Stable(cut)
    ensures cut(CutAll(cut, s).1).None?
    decreases |s|
  {
    var c := cut(s);
    if c.Some? {
      assert StableAt(cut, s, []);
      CutAllExhausts(cut, s[c.value.size..]);
    }
  }

  /** The data of all arrivals, in order. */
  function AllBytes<S, E>(inbox: seq<Arrival<S, E>>): Bytes {
    if inbox == [] then []
    else (if inbox[0].Data? then inbox[0].bytes else []) + AllBytes(inbox[1..])
  }

  lemma {:induction false} AllBytesAppend<S, E>(a: seq<Arrival<S, E>>, b: seq<Arrival<S, E>>)
    ensures AllBytes(a + b) == AllBytes(a) + AllBytes(b)
  {
    if a == [] {
      assert a + b == b;
    } else {
      assert (a + b)[1..] == a[1..] + b;
      AllBytesAppend(a[1..], b);
    }
  }

  /** One reading call: cut a message, receiving more as long as none can be cut. */
  function Read<T, S, E>(cut: Bytes -> Option<Cut<T>>, buffer: Bytes, inbox: seq<Arrival<S, E>>)
    : (r: (Outcome<T, E>, Bytes, seq<Arrival<S, E>>))
    ensures |r.2| <= |inbox|
    ensures r.0.Failed? ==> |r.2| < |inbox|
    ensures r.0.Got? ==> |r.2| < |inbox| || |r.1| < |buffer|
    decreases |inbox|
  {
    var c := cut(buffer);
    if c.Some? && 0 < c.value.size <= |buffer| then
      (Got(c.value.item), buffer[c.value.size..], inbox)
    else if inbox == [] then
      (Starved, buffer, [])
    else
      match inbox[0]
      case Data(bytes, _) => Read(cut, buffer + bytes, inbox[1..])
      case Fault(error) => (Failed(error), buffer, inbox[1..])
  }

  /** A caller that keeps calling, whatever each call returns: the messages it gets, and the
      bytes still buffered when the arrivals are used up. */
  function Session<T, S, E>(cut: Bytes -> Option<Cut<T>>, buffer: Bytes, inbox: seq<Arrival<S, E>>)
    : (r: (seq<T>, Bytes))
    decreases |inbox|, |buffer|
  {
    var (outcome, buffer', inbox') := Read(cut, buffer, inbox);
    match outcome
    case Got(item) =>
      var (items, rest) := Session(cut, buffer', inbox');
      ([item] + items, rest)
    case Failed(_) => Session(cut, buffer', inbox')
    case Starved => ([], buffer')
  }

  /** Main result: what a session yields depends only on the bytes. Neither the boundaries
      between arrivals nor errors between them lose, duplicate or reorder anything. */
  lemma {:induction false} SessionIsCutAll<T, S, E>(
    cut: Bytes -> Option<Cut<T>>, buffer: Bytes, inbox: seq<Arrival<S, E>>)
    requires Stable(cut)
    ensures Session(cut, buffer, inbox) == CutAll(cut, buffer + AllBytes(inbox))
    decreases |inbox|, |buffer|
  {
    var c := cut(buffer);
    var all := AllBytes(inbox);
    if c.Some? {
      assert StableAt(cut, buffer, all);
      DropAppend(buffer, all, c.value.size);
      SessionIsCutAll(cut, buffer[c.value.size..], inbox);
    } else if inbox == [] {
      assert buffer + all == buffer;
    } else {
      match inbox[0]
      case Data(bytes, _) =>
        assert buffer + all == (buffer + bytes) + AllBytes(inbox[1..]);
        assert Session(cut, buffer, inbox) == Session(cut, buffer + bytes, inbox[1..]);
        SessionIsCutAll(cut, buffer + bytes, inbox[1..]);
      case Fault(error) =>
        assert buffer + all == buffer + AllBytes(inbox[1..]);
        SessionIsCutAll(cut, buffer, inbox[1..]);
    }
  }

  /** Two ways of delivering the same bytes cannot be told apart. */
  lemma ChunkingIsInvisible<T, S, E>(
    cut: Bytes -> Option<Cut<T>>, buffer: Bytes, one: seq<Arrival<S, E>>, other: seq<Arrival<S, E>>)
    requires Stable(cut) && AllBytes(one) == AllBytes(other)
    ensures Session(cut, buffer, one) == Session(cut, buffer, other)
  {
    SessionIsCutAll(cut, buffer, one);
    SessionIsCutAll(cut, buffer, other);
  }

  /** The messages still to come, whatever is buffered and whatever is on its way. */
  function Pending<T, S, E>(cut: Bytes -> Option<Cut<T>>, buffer: Bytes, inbox: seq<Arrival<S, E>>): seq<T> {
    CutAll(cut, buffer + AllBytes(inbox)).0
  }

  /** One call hands out the first pending message, or leaves the pending messages alone. */
  lemma {:induction false} ReadTakesFirstPending<T, S, E>(
    cut: Bytes -> Option<Cut<T>>, buffer: Bytes, inbox: seq<Arrival<S, E>>)
    requires Stable(cut)
    ensures var (outcome, buffer', inbox') := Read(cut, buffer, inbox);
            Pending(cut, buffer, inbox) ==
            (if outcome.Got? then [outcome.item] else []) + Pending(cut, buffer', inbox')
    ensures Read(cut, buffer, inbox).0.Starved? ==> Pending(cut, buffer, inbox) == []
  {
    SessionIsCutAll(cut, buffer, inbox);
    var (outcome, buffer', inbox') := Read(cut, buffer, inbox);
    SessionIsCutAll(cut, buffer', inbox');
    if outcome.Starved? {
      ReadStarved(cut, buffer, inbox);
    }
  }

  lemma {:induction false} ReadStarved<T, S, E>(
    cut: Bytes -> Option<Cut<T>>, buffer: Bytes, inbox: seq<Arrival<S, E>>)
    requires Stable(cut) && Read(cut, buffer, inbox).0.Starved?
    ensures Read(cut, buffer, inbox) == (Starved, buffer + AllBytes(inbox), [])
    ensures cut(buffer + AllBytes(inbox)).None?
    decreases |inbox|
  {
    assert StableAt(cut, buffer, []);
    if inbox == [] {
      assert buffer + AllBytes(inbox) == buffer;
    } else {
      ReadStarved(cut, buffer + inbox[0].bytes, inbox[1..]);
      assert buffer + AllBytes(inbox) == (buffer + inbox[0].bytes) + AllBytes(inbox[1..]);
    }
  }

  /** A cutter whose items are the bytes that they occupy. */
  ghost predicate Verbatim(cut: Bytes -> Option<Cut<Bytes>>) {
    forall s :: VerbatimAt(cut, s)
  }

  ghost predicate VerbatimAt(cut: Bytes -> Option<Cut<Bytes>>, s: Bytes) {
    cut(s).Some? && cut(s).value.size <= |s| ==> cut(s).value.item == s[..cut(s).value.size]
  }

  lemma FlattenFirst(first: Bytes, later: seq<Bytes>)
    ensures Flatten([first] + later) == first + Flatten(later)
  {
    FlattenAppend([first], later);
    assert Flatten([first]) == [] + first;
  }

  /** No byte is lost or duplicated: the items and the rest, joined, are the stream. */
  lemma {:induction false} CutAllConserves(cut: Bytes -> Option<Cut<Bytes>>, s: Bytes)
    requires Verbatim(cut)
    ensures Flatten(CutAll(cut, s).0) + CutAll(cut, s).1 == s
    decreases |s|
  {
    var c := cut(s);
    assert VerbatimAt(cut, s);
    if c.None? || c.value.size == 0 || c.value.size > |s| {
      assert [] + s == s;
    } else {
      var n := c.value.size;
      var (items, rest) := CutAll(cut, s[n..]);
      hide Flatten;
      CutAllConserves(cut, s[n..]);
      FlattenFirst(s[..n], items);
      Associative(s[..n], Flatten(items), rest);
      assert s == s[..n] + s[n..];
    }
  }
}
