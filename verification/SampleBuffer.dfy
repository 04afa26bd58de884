/** The sample buffer (src/buffer.rs): points in the order of arrival, a binary search over their
    times, and the sliding window kept by truncation. Times are real numbers; a value is of any
    type, since only plotting looks at it. */
module SampleBuffer {
  import opened Common

  datatype Point<+V> = Point(x: real, y: V)

  ghost predicate Sorted<V>(samples: seq<Point<V>>) {
    forall i, j :: 0 <= i < j < |samples| ==> samples[i].x <= samples[j].x
  }

  /** The binary search between `a` and `b`. */
  function Bisect<V>(samples: seq<Point<V>>, t: real, a: nat, b: nat): (r: nat)
    requires a < b <= |samples|
    ensures a <= r < b
    ensures r == a || samples[r].x <= t
    ensures r + 1 == b || samples[r + 1].x > t
    decreases b - a
  {
    if a + 1 >= b then a
    else
      var i := (a + b) / 2;
      if samples[i].x > t then Bisect(samples, t, a, i) else Bisect(samples, t, i, b)
  }

  /** `index_before_at`. On any data, sorted or not, the index found is at or before `t`, and the
      sample after it, if there is one, is later. */
  function IndexBeforeAt<V>(samples: seq<Point<V>>, t: real): (r: Option<nat>)
    requires samples != []
    ensures r.Some? ==> r.value < |samples| && samples[r.value].x <= t
    ensures r.Some? && r.value + 1 < |samples| ==> t < samples[r.value + 1].x
    ensures r.None? ==> t < samples[0].x
  {
    var a := Bisect(samples, t, 0, |samples|);
    if t < samples[a].x then None else Some(a)
  }

  /** The search as a loop. */
  method SearchBeforeAt<V>(samples: seq<Point<V>>, t: real) returns (r: Option<nat>)
    requires samples != []
    ensures r == IndexBeforeAt(samples, t)
  {
    var a, b := 0, |samples|;
    while a + 1 < b
      invariant 0 <= a < b <= |samples|
      invariant Bisect(samples, t, a, b) == Bisect(samples, t, 0, |samples|)
    {
      var i := (a + b) / 2;
      if samples[i].x > t {
        b := i;
      } else if samples[i].x <= t {
        a := i;
      }
    }
    r := if t < samples[a].x then None else Some(a);
  }

  /** The obvious search: from the end, the first sample at or before `t`. */
  function LinearSearch<V>(samples: seq<Point<V>>, t: real): Option<nat> {
    if samples == [] then None
    else if samples[|samples| - 1].x <= t then Some(|samples| - 1)
    else LinearSearch(samples[..|samples| - 1], t)
  }

  lemma {:induction false} LinearSearchFinds<V>(samples: seq<Point<V>>, t: real, a: nat)
    requires a < |samples| && samples[a].x <= t
    requires forall i :: a < i < |samples| ==> t < samples[i].x
    ensures LinearSearch(samples, t) == Some(a)
  {
    if a < |samples| - 1 {
      LinearSearchFinds(samples[..|samples| - 1], t, a);
    }
  }

  lemma {:induction false} LinearSearchFails<V>(samples: seq<Point<V>>, t: real)
    requires forall i :: 0 <= i < |samples| ==> t < samples[i].x
    ensures LinearSearch(samples, t).None?
  {
    if samples != [] {
      LinearSearchFails(samples[..|samples| - 1], t);
    }
  }

  /** On sorted samples the binary search finds what the linear one finds. */
  lemma SearchesAgree<V>(samples: seq<Point<V>>, t: real)
    requires samples != [] && Sorted(samples)
    ensures IndexBeforeAt(samples, t) == LinearSearch(samples, t)
  {
    match IndexBeforeAt(samples, t)
    case Some(a) => LinearSearchFinds(samples, t, a);
    case None => LinearSearchFails(samples, t);
  }

  // ---- truncation ----

  /** How many samples truncation drops from the front. The `value` is the source's `unwrap`. */
  function Dropped<V>(samples: seq<Point<V>>, keep: real): (n: nat)
    ensures n <= |samples|
  {
    if samples == [] then 0
    else
      var limit := samples[|samples| - 1].x - keep;
      if samples[0].x < limit then IndexBeforeAt(samples, limit).value + 1 else 0
  }

  function Truncated<V>(samples: seq<Point<V>>, keep: real): seq<Point<V>> {
    samples[Dropped(samples, keep)..]
  }

  /** The newest sample survives every truncation to a positive length, whatever the times. */
  lemma NewestSurvives<V>(samples: seq<Point<V>>, keep: real)
    requires samples != [] && keep > 0.0
    ensures Truncated(samples, keep) != []
    ensures Truncated(samples, keep)[|Truncated(samples, keep)| - 1] == samples[|samples| - 1]
  {}

  /** On sorted samples, truncation empties the buffer exactly when the length is not positive
      and there is something before the limit. */
  lemma TruncationEmptiesIff<V>(samples: seq<Point<V>>, keep: real)
    requires samples != [] && Sorted(samples)
    ensures Truncated(samples, keep) == [] <==>
            keep <= 0.0 && samples[0].x < samples[|samples| - 1].x - keep
  {
    var limit := samples[|samples| - 1].x - keep;
    if keep <= 0.0 && samples[0].x < limit {
      var a := IndexBeforeAt(samples, limit).value;
      assert samples[|samples| - 1].x <= limit;
    }
  }

  ghost predicate Recent<V>(samples: seq<Point<V>>, keep: real) {
    forall i :: 0 <= i < |samples| ==> samples[i].x >= samples[|samples| - 1].x - keep
  }

  lemma SortedOrder<V>(samples: seq<Point<V>>, i: nat, j: nat)
    requires Sorted(samples) && i < |samples| && j < |samples|
    ensures samples[j].x < samples[i].x ==> j < i
    ensures i <= j ==> samples[i].x <= samples[j].x
  {}

  /** The edge of the window separates what is dropped from what is kept. */
  lemma DroppedAtEdge<V>(samples: seq<Point<V>>, keep: real, i: nat)
    requires Sorted(samples) && keep > 0.0 && i < |samples|
    ensures i < Dropped(samples, keep) ==> samples[i].x <= samples[|samples| - 1].x - keep
    ensures i >= Dropped(samples, keep) ==> samples[i].x >= samples[|samples| - 1].x - keep
  {
    var n := Dropped(samples, keep);
    if n == 0 {
      SortedOrder(samples, 0, i);
    } else if i < n {
      SortedOrder(samples, i, n - 1);
    } else {
      SortedOrder(samples, n, i);
    }
  }

  /** After truncation nothing is older than the window, everything dropped was not newer than
      its edge, and truncating again changes nothing. */
  lemma TruncationIsExact<V>(samples: seq<Point<V>>, keep: real)
    requires samples != [] && Sorted(samples) && keep > 0.0
    ensures var kept := Truncated(samples, keep);
            && Recent(kept, keep)
            && Truncated(kept, keep) == kept
            && forall i :: 0 <= i < |samples| - |kept| ==> samples[i].x <= samples[|samples| - 1].x - keep
  {
    var n := Dropped(samples, keep);
    NewestSurvives(samples, keep);
    forall i | 0 <= i < |samples| - n ensures samples[n..][i].x >= samples[|samples| - 1].x - keep {
      DroppedAtEdge(samples, keep, n + i);
    }
    forall i | 0 <= i < n ensures samples[i].x <= samples[|samples| - 1].x - keep {
      DroppedAtEdge(samples, keep, i);
    }
  }

  /** Exactly what truncation keeps: everything, if no sample is before the edge of the window, and
      otherwise the samples behind the edge. A sample on the edge is dropped only together with one
      before it. */
  lemma TruncationKeepsIff<V>(samples: seq<Point<V>>, keep: real, i: nat)
    requires Sorted(samples) && keep > 0.0 && i < |samples|
    ensures var edge := samples[|samples| - 1].x - keep;
            && |Truncated(samples, keep)| <= |samples|
            && Truncated(samples, keep) == samples[|samples| - |Truncated(samples, keep)|..]
            && (i >= |samples| - |Truncated(samples, keep)| <==> samples[0].x >= edge || samples[i].x > edge)
  {
    var edge := samples[|samples| - 1].x - keep;
    var n := Dropped(samples, keep);
    if samples[0].x < edge {
      var a := IndexBeforeAt(samples, edge).value;
      if i <= a {
        SortedOrder(samples, i, a);
      } else {
        SortedOrder(samples, a + 1, i);
      }
    }
  }

  function EverySecond<V>(count: nat, value: V): (samples: seq<Point<V>>)
    ensures |samples| == count && forall i :: 0 <= i < count ==> samples[i].x == i as real
  {
    seq(count, i requires 0 <= i < count => Point(i as real, value))
  }

  /** One sample a second, from 0 to 99, truncated to ten seconds: ten samples stay. */
  lemma TenOfHundred<V>(value: V)
    ensures Truncated(EverySecond(100, value), 10.0) == EverySecond(100, value)[90..]
  {
    TruncationKeepsIff(EverySecond(100, value), 10.0, 89);
    TruncationKeepsIff(EverySecond(100, value), 10.0, 90);
  }

  function Times<V>(samples: seq<Point<V>>): seq<real> {
    seq(|samples|, i requires 0 <= i < |samples| => samples[i].x)
  }

  lemma {:induction false} BisectSameTimes<V, W>(
    s: seq<Point<V>>, u: seq<Point<W>>, t: real, a: nat, b: nat)
    requires Times(s) == Times(u) && |s| == |u| && a < b <= |s|
    ensures Bisect(s, t, a, b) == Bisect(u, t, a, b)
    decreases b - a
  {
    if a + 1 < b {
      var i := (a + b) / 2;
      assert s[i].x == Times(s)[i] && u[i].x == Times(u)[i];
      if s[i].x > t {
        BisectSameTimes(s, u, t, a, i);
      } else {
        BisectSameTimes(s, u, t, i, b);
      }
    }
  }

  lemma IndexSameTimes<V, W>(s: seq<Point<V>>, u: seq<Point<W>>, t: real)
    requires Times(s) == Times(u) && s != [] && u != []
    ensures IndexBeforeAt(s, t) == IndexBeforeAt(u, t)
  {
    assert |Times(s)| == |s| && |Times(u)| == |u|;
    BisectSameTimes(s, u, t, 0, |s|);
    assert forall i :: 0 <= i < |s| ==> s[i].x == Times(s)[i] && u[i].x == Times(u)[i];
  }

  lemma TimesOfSuffix<V>(s: seq<Point<V>>, n: nat)
    requires n <= |s|
    ensures Times(s[n..]) == Times(s)[n..]
  {}

  lemma DroppedSameTimes<V, W>(s: seq<Point<V>>, u: seq<Point<W>>, keep: real)
    requires Times(s) == Times(u)
    ensures Dropped(s, keep) == Dropped(u, keep)
  {
    assert |Times(s)| == |s| && |Times(u)| == |u|;
    if s != [] {
      assert s[0].x == Times(s)[0] && u[0].x == Times(u)[0];
      var n := |s| - 1;
      assert s[n].x == Times(s)[n] && u[n].x == Times(u)[n];
      IndexSameTimes(s, u, s[n].x - keep);
    }
  }

  /** Truncation depends on the times only, so buffers with equal times stay that way. */
  lemma TruncationSameTimes<V, W>(s: seq<Point<V>>, u: seq<Point<W>>, keep: real)
    requires Times(s) == Times(u)
    ensures Times(Truncated(s, keep)) == Times(Truncated(u, keep))
  {
    DroppedSameTimes(s, u, keep);
    TimesOfSuffix(s, Dropped(s, keep));
    TimesOfSuffix(u, Dropped(s, keep));
  }

  // ---- the sliding window over a whole history ----

  datatype Operation<+V> = Push(point: Point<V>) | Truncate(keep: real)

  function Apply<V>(samples: seq<Point<V>>, op: Operation<V>): seq<Point<V>> {
    match op
    case Push(point) => samples + [point]
    case Truncate(keep) => Truncated(samples, keep)
  }

  function ApplyAll<V>(ops: seq<Operation<V>>): seq<Point<V>> {
    if ops == [] then [] else Apply(ApplyAll(ops[..|ops| - 1]), ops[|ops| - 1])
  }

  /** Everything ever pushed. */
  function History<V>(ops: seq<Operation<V>>): seq<Point<V>> {
    if ops == [] then []
    else
      var earlier := History(ops[..|ops| - 1]);
      if ops[|ops| - 1].Push? then earlier + [ops[|ops| - 1].point] else earlier
  }

  /** `kept` is the end of `history`; it is not empty unless there was nothing, and what it lacks
      is not newer than `keep` before the last sample. */
  ghost predicate Window<V>(history: seq<Point<V>>, kept: seq<Point<V>>, keep: real) {
    && |kept| <= |history| && kept == history[|history| - |kept|..]
    && (history != [] ==> kept != [])
    && forall i :: 0 <= i < |history| - |kept| ==> history[i].x <= history[|history| - 1].x - keep
  }

  lemma WindowPush<V>(history: seq<Point<V>>, kept: seq<Point<V>>, keep: real, point: Point<V>)
    requires Window(history, kept, keep) && Sorted(history + [point])
    ensures Window(history + [point], kept + [point], keep)
  {
    var history' := history + [point];
    assert history'[|history| - |kept|..] == kept + [point];
    forall i | 0 <= i < |history| - |kept| ensures history'[i].x <= point.x - keep {
      assert history'[|history| - 1].x <= history'[|history|].x;
    }
  }

  lemma DropDrop<T>(s: seq<T>, n: nat, d: nat)
    requires n + d <= |s|
    ensures s[n..][d..] == s[n + d..]
  {}

  /** What a truncation to `k` drops behind the first `n` samples is old enough. */
  lemma DroppedIsOld<V>(history: seq<Point<V>>, n: nat, k: real)
    requires n < |history| && Sorted(history) && 0.0 < k
    ensures var d := Dropped(history[n..], k);
            n + d < |history| && forall j :: 0 <= j < d ==> history[n..][j].x <= history[|history| - 1].x - k
  {
    var kept := history[n..];
    SuffixSorted(history, n);
    NewestSurvives(kept, k);
    forall j | 0 <= j < Dropped(kept, k) ensures kept[j].x <= kept[|kept| - 1].x - k {
      DroppedAtEdge(kept, k, j);
    }
  }

  lemma WindowTruncate<V>(history: seq<Point<V>>, n: nat, keep: real, k: real)
    requires n <= |history| && Window(history, history[n..], keep) && Sorted(history) && 0.0 < keep <= k
    ensures Window(history, Truncated(history[n..], k), keep)
  {
    if n < |history| {
      var d := Dropped(history[n..], k);
      DroppedIsOld(history, n, k);
      WindowNarrows(history, n, d, keep);
      DropDrop(history, n, d);
    }
  }

  lemma SuffixSorted<V>(samples: seq<Point<V>>, n: nat)
    requires Sorted(samples) && n <= |samples|
    ensures Sorted(samples[n..])
  {}

  lemma WindowNarrows<V>(history: seq<Point<V>>, n: nat, d: nat, keep: real)
    requires n + d < |history|
    requires Window(history, history[n..], keep)
    requires forall j :: 0 <= j < d ==> history[n..][j].x <= history[|history| - 1].x - keep
    ensures Window(history, history[n + d..], keep)
  {
    forall i | 0 <= i < n + d ensures history[i].x <= history[|history| - 1].x - keep {
      if i >= n {
        assert history[n..][i - n] == history[i];
      }
    }
  }

  /** Main result: over any run of pushes with times that do not decrease and truncations to
      lengths of at least `keep`, the buffer is a suffix of everything pushed and contains every
      sample later than `last - keep`. */
  lemma {:induction false} WindowAlways<V>(ops: seq<Operation<V>>, keep: real)
    requires keep > 0.0 && Sorted(History(ops))
    requires forall i :: 0 <= i < |ops| && ops[i].Truncate? ==> ops[i].keep >= keep
    ensures Window(History(ops), ApplyAll(ops), keep)
  {
    if ops != [] {
      var n := |ops| - 1;
      var before, history := ApplyAll(ops[..n]), History(ops[..n]);
      var kept := |history| - |before|;
      if ops[n].Push? {
        PrefixSorted(history, ops[n].point);
        WindowAlways(ops[..n], keep);
        WindowPush(history, before, keep, ops[n].point);
      } else {
        WindowAlways(ops[..n], keep);
        WindowTruncate(history, kept, keep, ops[n].keep);
      }
    }
  }

  lemma PrefixSorted<V>(samples: seq<Point<V>>, last: Point<V>)
    requires Sorted(samples + [last])
    ensures Sorted(samples)
  {
    assert forall i :: 0 <= i < |samples| ==> samples[i] == (samples + [last])[i];
  }

  class SampleBuffer<V> {
    var samples: seq<Point<V>>
    ghost var operations: seq<Operation<V>>

    ghost predicate Valid()
      reads this
    {
      samples == ApplyAll(operations)
    }

    constructor ()
      ensures Valid() && samples == [] && operations == []
    {
      samples, operations := [], [];
    }

    method PushSample(t: real, value: V)
      requires Valid()
      modifies this
      ensures Valid() && operations == old(operations) + [Push(Point(t, value))]
      ensures samples == old(samples) + [Point(t, value)]
    {
      assert (operations + [Push(Point(t, value))])[..|operations|] == operations;
      operations := operations + [Push(Point(t, value))];
      samples := samples + [Point(t, value)];
    }

    /** Drops the samples up to the edge of the window, if the oldest one is beyond it. */
    method TruncateTo(keepSeconds: real)
      requires Valid()
      modifies this
      ensures Valid() && operations == old(operations) + [Truncate(keepSeconds)]
      ensures samples == Truncated(old(samples), keepSeconds)
    {
      assert (operations + [Truncate(keepSeconds)])[..|operations|] == operations;
      operations := operations + [Truncate(keepSeconds)];
      if |samples| == 0 {
        return;
      }
      var truncateTimestamp := samples[|samples| - 1].x - keepSeconds;
      if samples[0].x < truncateTimestamp {
        var a := SearchBeforeAt(samples, truncateTimestamp);
        samples := samples[a.value + 1..];
      }
    }

    method TimeBounds() returns (r: Option<(real, real)>)
      ensures r.None? <==> samples == []
      ensures r.Some? ==> r.value == (samples[0].x, samples[|samples| - 1].x)
      ensures r.Some? && Sorted(samples) ==> forall p :: p in samples ==> r.value.0 <= p.x <= r.value.1
    {
      r := if |samples| > 0 then Some((samples[0].x, samples[|samples| - 1].x)) else None;
    }
  }
}
