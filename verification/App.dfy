/** The application's message pump (`handle_messages` in src/main.rs): notifications update the
    known status, samples are distributed over one buffer per signal, and buffers are truncated.
    The buffers are owned by the application alone, so they are values here: sequences of points
    as described by module SampleBuffer. */
module App {
  import opened Common
  import opened Sampler
  import opened SampleBuffer

  type Buffers<V> = map<u32, seq<Point<V>>>

  /** What is waiting in the two channels of the current sampler. */
  datatype Link<+V> = Link(notifications: seq<Notification>, sampled: seq<Sample<V>>)

  datatype State<V> = State(
    sampler: Option<Link<V>>, status: Option<Status>, errorShown: bool,
    buffers: Buffers<V>, maxTime: nat, autoTruncate: bool, truncateAt: real)

  function Seconds(micros: nat): (seconds: real)
    ensures seconds * 1000000.0 == micros as real
  {
    micros as real / 1000000.0
  }

  function Get<V>(buffers: Buffers<V>, id: u32): seq<Point<V>> {
    if id in buffers then buffers[id] else []
  }

  /** One value goes to the end of the buffer of its signal, which is created if need be. */
  function PushValue<V>(buffers: Buffers<V>, time: real, value: (u32, V)): Buffers<V> {
    buffers[value.0 := Get(buffers, value.0) + [Point(time, value.1)]]
  }

  function PushValues<V>(buffers: Buffers<V>, time: real, values: seq<(u32, V)>): Buffers<V>
    decreases |values|
  {
    if values == [] then buffers
    else PushValues(PushValue(buffers, time, values[0]), time, values[1..])
  }

  function PushSamples<V>(buffers: Buffers<V>, batch: seq<Sample<V>>): Buffers<V>
    decreases |batch|
  {
    if batch == [] then buffers
    else PushSamples(PushValues(buffers, Seconds(batch[0].time), batch[0].values), batch[1..])
  }

  function TruncateAll<V>(buffers: Buffers<V>, keep: real): Buffers<V> {
    map id | id in buffers :: Truncated(buffers[id], keep)
  }

  function MaxTime<V>(start: nat, batch: seq<Sample<V>>): nat
    decreases |batch|
  {
    if batch == [] then start
    else MaxTime(if batch[0].time > start then batch[0].time else start, batch[1..])
  }

  function LastStatus(before: Option<Status>, notifications: seq<Notification>): Option<Status>
    decreases |notifications|
  {
    if notifications == [] then before
    else LastStatus(if notifications[0].NewStatus? then Some(notifications[0].status) else before, notifications[1..])
  }

  /** Both channels have been drained: a sampler that reported Terminated is stopped and dropped
      before its samples are looked at. */
  function ReceiveAll<V>(s: State<V>): State<V> {
    match s.sampler
    case None => s
    case Some(link) =>
      var s1 := s.(status := LastStatus(s.status, link.notifications),
                   errorShown := s.errorShown || Error in link.notifications);
      if NewStatus(Terminated) in link.notifications then s1.(sampler := None)
      else
        s1.(sampler := Some(Link([], [])), maxTime := MaxTime(s.maxTime, link.sampled),
            buffers := PushSamples(s.buffers, link.sampled))
  }

  /** `handle_messages`: drain the channels, and truncate the buffers if a sampler is still there. */
  function HandleMessages<V>(s: State<V>): State<V> {
    var received := ReceiveAll(s);
    if received.sampler.Some? && s.autoTruncate then
      received.(buffers := TruncateAll(received.buffers, s.truncateAt))
    else received
  }

  // ---- distribution over the buffers ----

  /** The points of one signal in a list of values, or in a batch of samples, in order. */
  function ValuesOf<V>(id: u32, time: real, values: seq<(u32, V)>): seq<Point<V>> {
    if values == [] then []
    else (if values[0].0 == id then [Point(time, values[0].1)] else []) + ValuesOf(id, time, values[1..])
  }

  function Column<V>(id: u32, batch: seq<Sample<V>>): seq<Point<V>> {
    if batch == [] then []
    else ValuesOf(id, Seconds(batch[0].time), batch[0].values) + Column(id, batch[1..])
  }

  lemma {:induction false} PushValuesDistributes<V>(buffers: Buffers<V>, time: real, values: seq<(u32, V)>, id: u32)
    ensures var after := PushValues(buffers, time, values);
            && Get(after, id) == Get(buffers, id) + ValuesOf(id, time, values)
            && (id in after <==> id in buffers || ValuesOf(id, time, values) != [])
    decreases |values|
  {
    if values == [] {
      assert Get(buffers, id) + [] == Get(buffers, id);
    } else {
      PushValuesDistributes(PushValue(buffers, time, values[0]), time, values[1..], id);
      if values[0].0 == id {
        Associative(Get(buffers, id), [Point(time, values[0].1)], ValuesOf(id, time, values[1..]));
      } else {
        assert [] + ValuesOf(id, time, values[1..]) == ValuesOf(id, time, values[1..]);
      }
    }
  }

  /** Every value of a batch reaches the buffer of its own signal, in order and behind what was
      there, and nothing else happens to any buffer. */
  lemma {:induction false} PushSamplesDistributes<V>(buffers: Buffers<V>, batch: seq<Sample<V>>, id: u32)
    ensures var after := PushSamples(buffers, batch);
            && Get(after, id) == Get(buffers, id) + Column(id, batch)
            && (id in after <==> id in buffers || Column(id, batch) != [])
    decreases |batch|
  {
    if batch == [] {
      assert Get(buffers, id) + [] == Get(buffers, id);
    } else {
      var x := batch[0];
      PushValuesDistributes(buffers, Seconds(x.time), x.values, id);
      PushSamplesDistributes(PushValues(buffers, Seconds(x.time), x.values), batch[1..], id);
      Associative(Get(buffers, id), ValuesOf(id, Seconds(x.time), x.values), Column(id, batch[1..]));
    }
  }

  /** One call, seen from one buffer: the points of its signal are pushed, then it is truncated;
      or it is untouched because the sampler has terminated. */
  lemma HandleMessagesOnBuffer<V>(s: State<V>, id: u32)
    requires s.sampler.Some?
    ensures var link, after := s.sampler.value, HandleMessages(s).buffers;
            if NewStatus(Terminated) in link.notifications then after == s.buffers
            else
              var pushed := Get(s.buffers, id) + Column(id, link.sampled);
              Get(after, id) == if s.autoTruncate then Truncated(pushed, s.truncateAt) else pushed
  {
    PushSamplesDistributes(s.buffers, s.sampler.value.sampled, id);
  }

  /** Samples can be lost: whatever the settings, exactly when Terminated is among the notifications
      waiting, the samples that wait beside it are never stored. Otherwise all of them have been
      stored by the time that truncation begins. */
  lemma SamplesAreStoredIff<V>(s: State<V>)
    requires s.sampler.Some?
    ensures (forall id: u32 :: Get(ReceiveAll(s).buffers, id) ==
                               Get(s.buffers, id) + Column(id, s.sampler.value.sampled)) <==>
            (NewStatus(Terminated) !in s.sampler.value.notifications ||
             forall id: u32 :: Column(id, s.sampler.value.sampled) == [])
  {
    forall id: u32 {
      PushSamplesDistributes(s.buffers, s.sampler.value.sampled, id);
    }
    assert forall id: u32 :: Column(id, s.sampler.value.sampled) != [] ==>
        Get(s.buffers, id) + Column(id, s.sampler.value.sampled) != Get(s.buffers, id);
    if forall id: u32 :: Column(id, s.sampler.value.sampled) == [] {
      forall id: u32 ensures Get(s.buffers, id) + Column(id, s.sampler.value.sampled) == Get(s.buffers, id) {
        assert Column(id, s.sampler.value.sampled) == [];
      }
    }
  }

  /** The latest time is that of some sample, or the old one, and none is later. */
  lemma {:induction false} MaxTimeIsMax<V>(start: nat, batch: seq<Sample<V>>)
    ensures MaxTime(start, batch) >= start && forall x :: x in batch ==> x.time <= MaxTime(start, batch)
    ensures MaxTime(start, batch) == start || exists x :: x in batch && x.time == MaxTime(start, batch)
    decreases |batch|
  {
    if batch != [] {
      MaxTimeIsMax(if batch[0].time > start then batch[0].time else start, batch[1..]);
    }
  }

  // ---- alignment ----

  /** All `n` signals have a buffer, or none has, and all buffers have the same times. */
  ghost predicate Aligned<V>(buffers: Buffers<V>, n: nat) {
    && (forall id: u32 :: id in buffers ==> id < n)
    && (buffers != map[] ==> forall id: u32 :: id < n ==> id in buffers)
    && (forall i, j :: i in buffers && j in buffers ==> Times(buffers[i]) == Times(buffers[j]))
  }

  lemma {:induction false} UniformValuesOf<V>(id: u32, time: real, values: seq<(u32, V)>, from: nat)
    requires forall i :: 0 <= i < |values| ==> values[i].0 == from + i
    ensures Times(ValuesOf(id, time, values)) == if from <= id < from + |values| then [time] else []
    decreases |values|
  {
    if values != [] {
      UniformValuesOf(id, time, values[1..], from + 1);
      var rest := ValuesOf(id, time, values[1..]);
      if id == from {
        assert rest == [];
        assert Times([Point(time, values[0].1)] + rest) == [time];
      } else {
        assert [] + rest == rest;
      }
    }
  }

  lemma TimesAppend<V>(a: seq<Point<V>>, b: seq<Point<V>>)
    ensures Times(a + b) == Times(a) + Times(b)
  {}

  lemma PushUniformKeepsAlignment<V>(buffers: Buffers<V>, sample: Sample<V>, n: nat)
    requires Aligned(buffers, n) && Uniform(sample, n)
    ensures Aligned(PushValues(buffers, Seconds(sample.time), sample.values), n)
  {
    var time := Seconds(sample.time);
    var after := PushValues(buffers, time, sample.values);
    forall id: u32
      ensures id in after <==> id in buffers || id < n
      ensures Times(Get(after, id)) == Times(Get(buffers, id)) + if id < n then [time] else []
    {
      PushValuesDistributes(buffers, time, sample.values, id);
      UniformValuesOf(id, time, sample.values, 0);
      TimesAppend(Get(buffers, id), ValuesOf(id, time, sample.values));
    }
    forall i, j | i in after && j in after ensures Times(after[i]) == Times(after[j]) {
      assert Times(Get(buffers, i)) == Times(Get(buffers, j));
    }
  }

  lemma {:induction false} PushBatchKeepsAlignment<V>(buffers: Buffers<V>, batch: seq<Sample<V>>, n: nat)
    requires Aligned(buffers, n) && forall x :: x in batch ==> Uniform(x, n)
    ensures Aligned(PushSamples(buffers, batch), n)
    decreases |batch|
  {
    if batch != [] {
      PushUniformKeepsAlignment(buffers, batch[0], n);
      PushBatchKeepsAlignment(PushValues(buffers, Seconds(batch[0].time), batch[0].values), batch[1..], n);
    }
  }

  lemma TruncateKeepsAlignment<V>(buffers: Buffers<V>, keep: real, n: nat)
    requires Aligned(buffers, n)
    ensures Aligned(TruncateAll(buffers, keep), n)
  {
    var after := TruncateAll(buffers, keep);
    forall i, j | i in after && j in after ensures Times(after[i]) == Times(after[j]) {
      TruncationSameTimes(buffers[i], buffers[j], keep);
    }
  }

  /** A history of the application: what arrives before each call, and the settings at that time. */
  datatype Frame<+V> = Frame(arrived: Link<V>, autoTruncate: bool, truncateAt: real)

  function Deliver<V>(s: State<V>, f: Frame<V>): State<V> {
    HandleMessages(s.(autoTruncate := f.autoTruncate, truncateAt := f.truncateAt,
      sampler := if s.sampler.None? then None
                 else Some(Link(s.sampler.value.notifications + f.arrived.notifications,
                                s.sampler.value.sampled + f.arrived.sampled))))
  }

  function Pump<V>(s: State<V>, frames: seq<Frame<V>>): State<V> {
    if frames == [] then s else Deliver(Pump(s, frames[..|frames| - 1]), frames[|frames| - 1])
  }

  /** All samples that a sampler delivered over a history. */
  ghost predicate Delivers<V>(frames: seq<Frame<V>>, n: nat) {
    forall i :: 0 <= i < |frames| ==> forall x :: x in frames[i].arrived.sampled ==> Uniform(x, n)
  }

  /** Main result: a sampler whose samples carry all of the signals 0 to n - 1 keeps all buffers
      on identical times, through any division into calls, any truncation settings, and any times,
      even ones that go backwards. */
  lemma {:induction false} AlignmentAlways<V>(s: State<V>, frames: seq<Frame<V>>, n: nat)
    requires Aligned(s.buffers, n) && Delivers(frames, n)
    requires s.sampler.Some? ==> s.sampler.value.sampled == []
    ensures var s' := Pump(s, frames);
            Aligned(s'.buffers, n) && (s'.sampler.Some? ==> s'.sampler.value.sampled == [])
  {
    if frames != [] {
      var k := |frames| - 1;
      AlignmentAlways(s, frames[..k], n);
      var before := Pump(s, frames[..k]);
      if before.sampler.Some? {
        var batch := before.sampler.value.sampled + frames[k].arrived.sampled;
        assert batch == frames[k].arrived.sampled;
        PushBatchKeepsAlignment(before.buffers, batch, n);
        TruncateKeepsAlignment(PushSamples(before.buffers, batch), frames[k].truncateAt, n);
      }
    }
  }

  /** The buffers while truncation is under way. */
  ghost predicate TruncatedExcept<V>(before: Buffers<V>, now: Buffers<V>, remaining: set<u32>, keep: real) {
    && now.Keys == before.Keys
    && forall id :: id in before ==> now[id] == if id in remaining then before[id] else Truncated(before[id], keep)
  }

  lemma TruncateOneMore<V>(before: Buffers<V>, now: Buffers<V>, remaining: set<u32>, keep: real, id: u32)
    requires TruncatedExcept(before, now, remaining, keep) && id in remaining && id in now
    ensures TruncatedExcept(before, now[id := Truncated(now[id], keep)], remaining - {id}, keep)
  {}

  lemma AllTruncated<V>(before: Buffers<V>, now: Buffers<V>, keep: real)
    requires TruncatedExcept(before, now, {}, keep)
    ensures now == TruncateAll(before, keep)
  {}

  class OCDScope<V> {
    var sampler: Option<Link<V>>
    var status: Option<Status>
    var errorShown: bool
    var buffers: Buffers<V>
    var maxTime: nat
    var autoTruncate: bool
    var truncateAt: real

    ghost function Abstract(): State<V>
      reads this
    {
      State(sampler, status, errorShown, buffers, maxTime, autoTruncate, truncateAt)
    }

    constructor ()
      ensures Abstract() == State(None, None, false, map[], 0, true, 10.0)
    {
      sampler, status, errorShown, buffers, maxTime := None, None, false, map[], 0;
      autoTruncate, truncateAt := true, 10.0;
    }

    /** Drain the notification channel; the result tells whether Terminated was among them. */
    method DrainNotifications(notifications: seq<Notification>) returns (terminated: bool)
      modifies this`status, this`errorShown
      ensures status == LastStatus(old(status), notifications)
      ensures errorShown == (old(errorShown) || Error in notifications)
      ensures terminated == (NewStatus(Terminated) in notifications)
    {
      terminated := false;
      var i := 0;
      while i < |notifications|
        invariant 0 <= i <= |notifications|
        invariant LastStatus(status, notifications[i..]) == LastStatus(old(status), notifications)
        invariant errorShown == (old(errorShown) || Error in notifications[..i])
        invariant terminated == (NewStatus(Terminated) in notifications[..i])
      {
        match notifications[i] {
          case NewStatus(next) =>
            status := Some(next);
            if next == Terminated {
              terminated := true;
            }
          case Info =>
          case Error =>
            errorShown := true;
        }
        i := i + 1;
      }
      assert notifications[..i] == notifications;
    }

    /** Distribute the waiting samples over the buffers. */
    method StoreSamples(batch: seq<Sample<V>>)
      modifies this`buffers, this`maxTime
      ensures buffers == PushSamples(old(buffers), batch) && maxTime == MaxTime(old(maxTime), batch)
    {
      var i := 0;
      while i < |batch|
        invariant 0 <= i <= |batch|
        invariant PushSamples(buffers, batch[i..]) == PushSamples(old(buffers), batch)
        invariant MaxTime(maxTime, batch[i..]) == MaxTime(old(maxTime), batch)
      {
        var t, values := batch[i].time, batch[i].values;
        ghost var target := PushValues(buffers, Seconds(t), values);
        ghost var latest := maxTime;
        var j := 0;
        while j < |values|
          invariant 0 <= j <= |values| && maxTime == latest
          invariant PushValues(buffers, Seconds(t), values[j..]) == target
        {
          buffers := PushValue(buffers, Seconds(t), values[j]);
          j := j + 1;
        }
        if t > maxTime {
          maxTime := t;
        }
        i := i + 1;
      }
    }

    method TruncateBuffers()
      modifies this`buffers
      ensures buffers == TruncateAll(old(buffers), truncateAt)
    {
      ghost var before := buffers;
      var remaining := buffers.Keys;
      while remaining != {}
        invariant remaining <= buffers.Keys && TruncatedExcept(before, buffers, remaining, truncateAt)
        decreases remaining
      {
        var id :| id in remaining;
        TruncateOneMore(before, buffers, remaining, truncateAt, id);
        buffers := buffers[id := Truncated(buffers[id], truncateAt)];
        remaining := remaining - {id};
      }
      AllTruncated(before, buffers, truncateAt);
    }

    method HandleAllMessages()
      modifies this
      ensures Abstract() == HandleMessages(old(Abstract()))
    {
      if sampler.None? {
        return;
      }
      var link := sampler.value;
      var terminated := DrainNotifications(link.notifications);
      if terminated {
        sampler := None;
        return;
      }
      StoreSamples(link.sampled);
      sampler := Some(Link([], []));
      if autoTruncate {
        TruncateBuffers();
      }
    }
  }
}
