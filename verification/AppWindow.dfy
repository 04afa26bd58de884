/** The message pump and the sliding window together (src/main.rs, src/buffer.rs): what the buffer
    of a signal holds, in terms of everything that the sampler ever delivered for it. */
module AppWindow {
  import opened Common
  import opened Sampler
  import opened SampleBuffer
  import opened App

  function Pushes<V>(points: seq<Point<V>>): seq<Operation<V>> {
    seq(|points|, i requires 0 <= i < |points| => Push(points[i]))
  }

  lemma {:induction false} PushingAll<V>(ops: seq<Operation<V>>, points: seq<Point<V>>)
    ensures ApplyAll(ops + Pushes(points)) == ApplyAll(ops) + points
    ensures History(ops + Pushes(points)) == History(ops) + points
    decreases |points|
  {
    var all := ops + Pushes(points);
    if points == [] {
      assert all == ops;
    } else {
      var n := |points| - 1;
      PushingAll(ops, points[..n]);
      assert all[..|all| - 1] == ops + Pushes(points[..n]);
      assert all[|all| - 1] == Push(points[n]);
      assert points == points[..n] + [points[n]];
      Associative(ApplyAll(ops), points[..n], [points[n]]);
      Associative(History(ops), points[..n], [points[n]]);
    }
  }

  /** Everything delivered over a history. */
  function Delivered<V>(frames: seq<Frame<V>>): seq<Sample<V>> {
    if frames == [] then [] else Delivered(frames[..|frames| - 1]) + frames[|frames| - 1].arrived.sampled
  }

  lemma {:induction false} ColumnAppend<V>(id: u32, a: seq<Sample<V>>, b: seq<Sample<V>>)
    ensures Column(id, a + b) == Column(id, a) + Column(id, b)
    decreases |a|
  {
    if a == [] {
      assert a + b == b;
    } else {
      hide ValuesOf, Seconds;
      RestOfConcat(a, b);
      ColumnAppend(id, a[1..], b);
      assert Column(id, a + b) == ValuesOf(id, Seconds(a[0].time), a[0].values) + Column(id, a[1..] + b);
      Associative(ValuesOf(id, Seconds(a[0].time), a[0].values), Column(id, a[1..]), Column(id, b));
    }
  }

  /** Whenever buffers are truncated, at least `keep` seconds stay. */
  ghost predicate Keeps<V>(frames: seq<Frame<V>>, keep: real) {
    forall i :: 0 <= i < |frames| ==> frames[i].truncateAt >= keep
  }

  /** The deliveries up to the one, if there is one, that finds Terminated waiting. */
  function Live<V>(frames: seq<Frame<V>>): (r: seq<Frame<V>>)
    ensures r <= frames
  {
    if frames == [] then []
    else
      var n := |frames| - 1;
      var earlier := Live(frames[..n]);
      if |earlier| == n && NewStatus(Terminated) !in frames[n].arrived.notifications then frames else earlier
  }

  lemma {:induction false} DeliveredPrefix<V>(frames: seq<Frame<V>>, all: seq<Frame<V>>)
    requires frames <= all
    ensures Delivered(frames) <= Delivered(all)
  {
    if |frames| < |all| {
      DeliveredPrefix(frames, all[..|all| - 1]);
    } else {
      assert frames == all;
    }
  }

  ghost predicate Idle<V>(s: State<V>) {
    s.sampler == Some(Link([], []))
  }

  /** One call on an idle application, seen from one buffer. */
  lemma DeliverOnBuffer<V>(s: State<V>, f: Frame<V>, id: u32)
    requires Idle(s) && NewStatus(Terminated) !in f.arrived.notifications
    ensures Idle(Deliver(s, f))
    ensures var pushed := Get(s.buffers, id) + Column(id, f.arrived.sampled);
            Get(Deliver(s, f).buffers, id) == if f.autoTruncate then Apply(pushed, Truncate(f.truncateAt)) else pushed
  {
    assert [] + f.arrived.sampled == f.arrived.sampled;
    assert [] + f.arrived.notifications == f.arrived.notifications;
    PushSamplesDistributes(s.buffers, f.arrived.sampled, id);
  }

  lemma ApplyOneMore<V>(ops: seq<Operation<V>>, op: Operation<V>)
    ensures ApplyAll(ops + [op]) == Apply(ApplyAll(ops), op)
    ensures History(ops + [op]) == History(ops) + if op.Push? then [op.point] else []
  {
    assert (ops + [op])[..|ops|] == ops;
  }

  ghost predicate Truncates<V>(ops: seq<Operation<V>>, keep: real) {
    forall i :: 0 <= i < |ops| && ops[i].Truncate? ==> ops[i].keep >= keep
  }

  /** The same effect on the points of one buffer, as operations. */
  lemma DeliveryAsOperations<V>(earlier: seq<Operation<V>>, points: seq<Point<V>>, truncate: Option<real>, keep: real)
    returns (ops: seq<Operation<V>>)
    requires Truncates(earlier, keep) && (truncate.Some? ==> truncate.value >= keep)
    ensures Truncates(ops, keep) && History(ops) == History(earlier) + points
    ensures var pushed := ApplyAll(earlier) + points;
            ApplyAll(ops) == if truncate.Some? then Apply(pushed, Truncate(truncate.value)) else pushed
  {
    PushingAll(earlier, points);
    ops := earlier + Pushes(points);
    if truncate.Some? {
      ApplyOneMore(ops, Truncate(truncate.value));
      ops := ops + [Truncate(truncate.value)];
    }
  }

  lemma DeliverAsOperations<V>(s: State<V>, f: Frame<V>, earlier: seq<Operation<V>>, keep: real, id: u32)
    returns (ops: seq<Operation<V>>)
    requires Idle(s) && NewStatus(Terminated) !in f.arrived.notifications && f.truncateAt >= keep
    requires ApplyAll(earlier) == Get(s.buffers, id) && Truncates(earlier, keep)
    ensures Idle(Deliver(s, f))
    ensures ApplyAll(ops) == Get(Deliver(s, f).buffers, id) && Truncates(ops, keep)
    ensures History(ops) == History(earlier) + Column(id, f.arrived.sampled)
  {
    DeliverOnBuffer(s, f, id);
    ops := DeliveryAsOperations(earlier, Column(id, f.arrived.sampled),
                                if f.autoTruncate then Some(f.truncateAt) else None, keep);
  }

  /** A delivery that finds Terminated waiting, or comes after one, leaves the buffers alone. */
  lemma DeliverAfterEnd<V>(s: State<V>, f: Frame<V>)
    requires s.sampler.None? || (Idle(s) && NewStatus(Terminated) in f.arrived.notifications)
    ensures Deliver(s, f).sampler.None? && Deliver(s, f).buffers == s.buffers
  {
    assert [] + f.arrived.notifications == f.arrived.notifications;
  }

  /** The buffer of a signal is the outcome of pushing all points delivered before Terminated, in
      order, with truncations in between. */
  lemma {:induction false} BufferIsHistory<V>(s: State<V>, frames: seq<Frame<V>>, keep: real, id: u32)
    returns (ops: seq<Operation<V>>)
    requires Idle(s) && s.buffers == map[] && Keeps(frames, keep)
    ensures if |Live(frames)| == |frames| then Idle(Pump(s, frames)) else Pump(s, frames).sampler.None?
    ensures ApplyAll(ops) == Get(Pump(s, frames).buffers, id) && Truncates(ops, keep)
    ensures History(ops) == Column(id, Delivered(Live(frames)))
    decreases |frames|
  {
    ops := [];
    if frames != [] {
      var n := |frames| - 1;
      var f := frames[n];
      var earlier := BufferIsHistory(s, frames[..n], keep, id);
      if |Live(frames)| == |frames| {
        ColumnAppend(id, Delivered(frames[..n]), f.arrived.sampled);
        ops := DeliverAsOperations(Pump(s, frames[..n]), f, earlier, keep, id);
      } else {
        DeliverAfterEnd(Pump(s, frames[..n]), f);
        ops := earlier;
      }
    }
  }

  /** Sample times that do not decrease give sorted buffers. */
  ghost predicate TimesRise<V>(batch: seq<Sample<V>>) {
    forall i, j :: 0 <= i < j < |batch| ==> batch[i].time <= batch[j].time
  }

  lemma {:induction false} ValuesHaveTime<V>(id: u32, time: real, values: seq<(u32, V)>)
    ensures forall i :: 0 <= i < |ValuesOf(id, time, values)| ==> ValuesOf(id, time, values)[i].x == time
    decreases |values|
  {
    if values != [] {
      ValuesHaveTime(id, time, values[1..]);
    }
  }

  lemma {:induction false} ColumnIsSorted<V>(id: u32, batch: seq<Sample<V>>)
    requires TimesRise(batch)
    ensures Sorted(Column(id, batch))
    ensures batch != [] ==>
              forall i :: 0 <= i < |Column(id, batch)| ==> Seconds(batch[0].time) <= Column(id, batch)[i].x
    decreases |batch|
  {
    if batch != [] {
      var time := Seconds(batch[0].time);
      ValuesHaveTime(id, time, batch[0].values);
      ColumnIsSorted(id, batch[1..]);
      if |batch| > 1 {
        assert time <= Seconds(batch[1].time);
      }
    }
  }

  /** Main result: the buffer of every signal is a suffix of all points delivered for it before
      Terminated, and as long as times rise it holds every one of the last `keep` seconds, however
      the deliveries are divided into calls and whenever the settings change. */
  lemma WindowOverCalls<V>(s: State<V>, frames: seq<Frame<V>>, keep: real, id: u32)
    requires Idle(s) && s.buffers == map[] && Keeps(frames, keep) && keep > 0.0
    requires TimesRise(Delivered(Live(frames)))
    ensures Window(Column(id, Delivered(Live(frames))), Get(Pump(s, frames).buffers, id), keep)
  {
    var ops := BufferIsHistory(s, frames, keep, id);
    ColumnIsSorted(id, Delivered(Live(frames)));
    WindowAlways(ops, keep);
  }

  // ---- the same in the samples' own unit ----

  /** `p` is the point of a value in `x`: the time of a sample counts microseconds. */
  ghost predicate PointOf<V>(id: u32, x: Sample<V>, p: Point<V>) {
    p.x * 1000000.0 == x.time as real && (id, p.y) in x.values
  }

  lemma {:induction false} ValuesOfIff<V>(id: u32, time: real, values: seq<(u32, V)>, p: Point<V>)
    ensures p in ValuesOf(id, time, values) <==> p.x == time && (id, p.y) in values
    decreases |values|
  {
    if values != [] {
      ValuesOfIff(id, time, values[1..], p);
    }
  }

  /** The points of a signal are those of its values in the samples, and no others. */
  lemma {:induction false} ColumnIff<V>(id: u32, batch: seq<Sample<V>>, p: Point<V>)
    ensures p in Column(id, batch) <==> exists x :: x in batch && PointOf(id, x, p)
    decreases |batch|
  {
    if batch != [] {
      hide ValuesOf, Seconds;
      var x := batch[0];
      OneSampleIff(id, x, p);
      ColumnIff(id, batch[1..], p);
      assert Column(id, batch) == ValuesOf(id, Seconds(x.time), x.values) + Column(id, batch[1..]);
      if y :| y in batch && PointOf(id, y, p) {
        assert y == x || y in batch[1..];
      }
    }
  }

  lemma OneSampleIff<V>(id: u32, x: Sample<V>, p: Point<V>)
    ensures p in ValuesOf(id, Seconds(x.time), x.values) <==> PointOf(id, x, p)
  {
    ValuesOfIff(id, Seconds(x.time), x.values, p);
    SecondsIff(x.time, p.x);
  }

  lemma SecondsIff(time: nat, t: real)
    ensures t == Seconds(time) <==> t * 1000000.0 == time as real
  {}

  /** No sample is lost too early: every value in a sample that was delivered before Terminated and is
      less than `keep` seconds older than the last one has its point in the buffer of its signal. */
  lemma RecentValuesAreStored<V>(
    s: State<V>, frames: seq<Frame<V>>, keep: real, k: nat, id: u32, value: V)
    requires Idle(s) && s.buffers == map[] && Keeps(frames, keep) && keep > 0.0
    requires var delivered := Delivered(Live(frames));
             && TimesRise(delivered) && k < |delivered| && (id, value) in delivered[k].values
             && delivered[k].time as real > delivered[|delivered| - 1].time as real - keep * 1000000.0
    ensures exists p :: p in Get(Pump(s, frames).buffers, id) && p.y == value &&
                        p.x * 1000000.0 == Delivered(Live(frames))[k].time as real
  {
    hide Seconds, Live, Delivered, Pump, Column, Window;
    var delivered := Delivered(Live(frames));
    WindowOverCalls(s, frames, keep, id);
    RecentIsKept(delivered, Get(Pump(s, frames).buffers, id), keep, k, id, value);
  }

  lemma RecentIsKept<V>(
    delivered: seq<Sample<V>>, kept: seq<Point<V>>, keep: real, k: nat, id: u32, value: V)
    requires Window(Column(id, delivered), kept, keep) && TimesRise(delivered)
    requires k < |delivered| && (id, value) in delivered[k].values
    requires delivered[k].time as real > delivered[|delivered| - 1].time as real - keep * 1000000.0
    ensures exists p :: p in kept && p.y == value && p.x * 1000000.0 == delivered[k].time as real
  {
    var history, p := Column(id, delivered), Point(Seconds(delivered[k].time), value);
    assert delivered[k] in delivered && PointOf(id, delivered[k], p);
    ColumnIff(id, delivered, p);
    ColumnUpTo(id, delivered, history[|history| - 1]);
    KeptByWindow(history, kept, keep, p);
  }

  lemma ColumnUpTo<V>(id: u32, batch: seq<Sample<V>>, p: Point<V>)
    requires TimesRise(batch) && p in Column(id, batch)
    ensures batch != [] && p.x * 1000000.0 <= batch[|batch| - 1].time as real
  {
    ColumnIff(id, batch, p);
    var x :| x in batch && PointOf(id, x, p);
    var i :| 0 <= i < |batch| && batch[i] == x;
    assert batch[i].time <= batch[|batch| - 1].time;
  }

  lemma KeptByWindow<V>(history: seq<Point<V>>, kept: seq<Point<V>>, keep: real, p: Point<V>)
    requires Window(history, kept, keep) && p in history && p.x > history[|history| - 1].x - keep
    ensures p in kept
  {
    var i :| 0 <= i < |history| && history[i] == p;
    assert kept[i - (|history| - |kept|)] == p;
  }

  /** And nothing is kept too long or made up: after a call that truncates, no two points of a buffer
      are further apart than the length set, and each is that of a delivered value. */
  lemma StoredValuesAreRecent<V>(s: State<V>, frames: seq<Frame<V>>, keep: real, id: u32)
    requires Idle(s) && s.buffers == map[] && Keeps(frames, keep) && keep > 0.0
    requires TimesRise(Delivered(Live(frames)))
    ensures forall p :: p in Get(Pump(s, frames).buffers, id) ==>
                          exists x :: x in Delivered(Live(frames)) && PointOf(id, x, p)
    ensures frames != [] && Live(frames) == frames && frames[|frames| - 1].autoTruncate ==>
              forall p, q :: p in Get(Pump(s, frames).buffers, id) && q in Get(Pump(s, frames).buffers, id) ==>
                               (q.x - p.x) * 1000000.0 <= frames[|frames| - 1].truncateAt * 1000000.0
  {
    var delivered, kept := Delivered(Live(frames)), Get(Pump(s, frames).buffers, id);
    WindowOverCalls(s, frames, keep, id);
    forall p | p in kept ensures exists x :: x in delivered && PointOf(id, x, p) {
      ColumnIff(id, delivered, p);
    }
    if frames != [] && Live(frames) == frames && frames[|frames| - 1].autoTruncate {
      BufferIsRecent(s, frames, keep, id);
      ColumnIsSorted(id, delivered);
      SpanOfRecent(kept, frames[|frames| - 1].truncateAt);
    }
  }

  lemma SpanOfRecent<V>(kept: seq<Point<V>>, length: real)
    requires Sorted(kept) && Recent(kept, length)
    ensures forall p, q :: p in kept && q in kept ==> q.x - p.x <= length
  {
    forall p, q | p in kept && q in kept ensures q.x - p.x <= length {
      var i :| 0 <= i < |kept| && kept[i] == p;
      var j :| 0 <= j < |kept| && kept[j] == q;
      SortedOrder(kept, j, |kept| - 1);
    }
  }

  lemma BufferIsRecent<V>(s: State<V>, frames: seq<Frame<V>>, keep: real, id: u32)
    requires Idle(s) && s.buffers == map[] && Keeps(frames, keep) && keep > 0.0
    requires TimesRise(Delivered(frames)) && frames != [] && Live(frames) == frames
    requires frames[|frames| - 1].autoTruncate
    ensures Sorted(Get(Pump(s, frames).buffers, id))
    ensures Recent(Get(Pump(s, frames).buffers, id), frames[|frames| - 1].truncateAt)
  {
    var n := |frames| - 1;
    var f, before, earlier := frames[n], Pump(s, frames[..n]), Delivered(frames[..n]);
    var points, kept := Column(id, f.arrived.sampled), Get(before.buffers, id);
    assert Live(frames[..n]) == frames[..n];
    RisesEarlier(earlier, f.arrived.sampled);
    WindowOverCalls(s, frames[..n], keep, id);
    var ops := BufferIsHistory(s, frames[..n], keep, id);
    DeliverOnBuffer(before, f, id);
    ColumnAppend(id, earlier, f.arrived.sampled);
    ColumnIsSorted(id, Delivered(frames));
    TruncatedIsRecent(Column(id, earlier), kept, points, f.truncateAt, keep);
  }

  lemma RisesEarlier<V>(a: seq<Sample<V>>, b: seq<Sample<V>>)
    requires TimesRise(a + b)
    ensures TimesRise(a)
  {
    assert forall i :: 0 <= i < |a| ==> a[i] == (a + b)[i];
  }

  lemma TruncatedIsRecent<V>(
    history: seq<Point<V>>, kept: seq<Point<V>>, points: seq<Point<V>>, length: real, keep: real)
    requires Window(history, kept, keep) && Sorted(history + points) && length >= keep > 0.0
    ensures Sorted(Truncated(kept + points, length)) && Recent(Truncated(kept + points, length), length)
  {
    var pushed := kept + points;
    assert pushed == (history + points)[|history| - |kept|..];
    SuffixSorted(history + points, |history| - |kept|);
    if pushed != [] {
      TruncationIsExact(pushed, length);
      SuffixSorted(pushed, Dropped(pushed, length));
    }
  }
}
