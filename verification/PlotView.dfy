/** Plotting a sample buffer (src/buffer.rs): the points in a range of time, and the
    piecewise-linear curve through them. */
module PlotView {
  import opened Common
  import opened SampleBuffer

  type Points = seq<Point<real>>

  function ScaledPoint(p: Point<real>, scale: real): Point<real> {
    Point(p.x, p.y * scale)
  }

  function Scaled(samples: Points, scale: real): (r: Points)
    ensures |r| == |samples| && forall i :: 0 <= i < |r| ==> r[i] == ScaledPoint(samples[i], scale)
  {
    seq(|samples|, i requires 0 <= i < |samples| => ScaledPoint(samples[i], scale))
  }

  /** The slice `a..b` is taken only when the two searches are in order; otherwise it panics. */
  predicate Sliceable(samples: Points, fromT: real, toT: real)
    requires samples != []
  {
    match (IndexBeforeAt(samples, fromT), IndexBeforeAt(samples, toT))
    case (Some(a), Some(b)) => a <= b
    case _ => true
  }

  /** The part of the buffer that `plot_points` shows. */
  function Slice(samples: Points, fromT: real, toT: real): Points
    requires samples != [] && Sliceable(samples, fromT, toT)
  {
    match (IndexBeforeAt(samples, fromT), IndexBeforeAt(samples, toT))
    case (Some(a), Some(b)) => samples[a..b]
    case (None, Some(b)) => samples[..b]
    case _ => samples
  }

  function PlotPoints(samples: Points, fromT: real, toT: real, scale: real): Points
    requires samples != [] && Sliceable(samples, fromT, toT)
  {
    Scaled(Slice(samples, fromT, toT), scale)
  }

  /** On a sorted buffer and a range that is not reversed, slicing never fails and the check on
      the last time shown always holds. */
  lemma RangesAreSafe(samples: Points, fromT: real, toT: real)
    requires samples != [] && Sorted(samples) && fromT <= toT
    ensures Sliceable(samples, fromT, toT)
    ensures var slice := Slice(samples, fromT, toT);
            IndexBeforeAt(samples, toT).Some? ==> forall i :: 0 <= i < |slice| ==> slice[i].x <= toT
  {
    if IndexBeforeAt(samples, fromT).Some? {
      LaterIsFurther(samples, fromT, toT);
    }
  }

  /** `k` is the place of the last sample at or before `t`. */
  ghost predicate LastAt(samples: Points, t: real, k: nat) {
    k < |samples| && samples[k].x <= t && forall j :: k < j < |samples| ==> t < samples[j].x
  }

  lemma FoundIsLastAt(samples: Points, t: real)
    requires samples != [] && Sorted(samples)
    ensures match IndexBeforeAt(samples, t) {
              case Some(k) => LastAt(samples, t, k)
              case None => forall j :: 0 <= j < |samples| ==> t < samples[j].x
            }
  {
    match IndexBeforeAt(samples, t)
    case Some(k) =>
      forall j | k < j < |samples| ensures t < samples[j].x {
        SortedOrder(samples, k + 1, j);
      }
    case None =>
  }

  /** Exactly what a view holds, for every range that does not end before the first sample: the points
      from the last sample at or before `fromT`, or from the first one if there is none, up to but not
      including the last sample at or before `toT`. */
  lemma ViewIsExact(samples: Points, fromT: real, toT: real, a: nat, b: nat)
    requires samples != [] && Sorted(samples) && fromT <= toT && LastAt(samples, toT, b)
    requires LastAt(samples, fromT, a) || (a == 0 && fromT < samples[0].x)
    ensures Sliceable(samples, fromT, toT) && a <= b
    ensures Slice(samples, fromT, toT) == samples[a..b]
    ensures forall i :: 0 <= i < |Slice(samples, fromT, toT)| ==>
              && Slice(samples, fromT, toT)[i].x <= toT
              && (i > 0 ==> fromT < Slice(samples, fromT, toT)[i].x)
  {
    RangesAreSafe(samples, fromT, toT);
    BracketIsUnique(samples, toT, b);
    if LastAt(samples, fromT, a) {
      BracketIsUnique(samples, fromT, a);
      LaterIsFurther(samples, fromT, toT);
    } else {
      assert IndexBeforeAt(samples, fromT).None?;
    }
    forall k | a < k < b ensures fromT < samples[k].x {
      SortedOrder(samples, a, k);
    }
  }

  /** A sample inside the range is missing from the view only if it is not before the one found
      for `toT`, whether or not the range begins inside the buffer. */
  lemma ViewIsComplete(samples: Points, fromT: real, toT: real, k: nat)
    requires samples != [] && Sorted(samples) && fromT <= toT
    requires k < |samples| && fromT < samples[k].x <= toT
    ensures Sliceable(samples, fromT, toT) && IndexBeforeAt(samples, toT).Some?
    ensures samples[k] in Slice(samples, fromT, toT) || samples[k].x == samples[IndexBeforeAt(samples, toT).value].x
  {
    RangesAreSafe(samples, fromT, toT);
    FoundIsLatest(samples, toT, k);
    var b := IndexBeforeAt(samples, toT).value;
    if k < b {
      var a := if IndexBeforeAt(samples, fromT).Some? then IndexBeforeAt(samples, fromT).value else 0;
      SortedOrder(samples, k, a);
      assert Slice(samples, fromT, toT)[k - a] == samples[k];
    }
  }

  /** Everything shown is inside the range on its right, except that the whole buffer is shown when
      the range ends before the first sample. */
  lemma ViewEndsInRangeIff(samples: Points, fromT: real, toT: real)
    requires samples != [] && Sorted(samples) && fromT <= toT
    ensures Sliceable(samples, fromT, toT)
    ensures (forall p :: p in Slice(samples, fromT, toT) ==> p.x <= toT) <==> samples[0].x <= toT
  {
    RangesAreSafe(samples, fromT, toT);
    if samples[0].x <= toT {
      FoundIsLatest(samples, toT, 0);
    } else {
      if IndexBeforeAt(samples, fromT).Some? {
        SortedOrder(samples, 0, IndexBeforeAt(samples, fromT).value);
      }
      if IndexBeforeAt(samples, toT).Some? {
        SortedOrder(samples, 0, IndexBeforeAt(samples, toT).value);
      }
      assert samples[0] in Slice(samples, fromT, toT);
    }
  }

  /** No sample at or before `t` is later than the one found. */
  lemma FoundIsLatest(samples: Points, t: real, k: nat)
    requires Sorted(samples) && k < |samples| && samples[k].x <= t
    ensures IndexBeforeAt(samples, t).Some? && samples[k].x <= samples[IndexBeforeAt(samples, t).value].x
    ensures k >= IndexBeforeAt(samples, t).value ==> samples[k].x == samples[IndexBeforeAt(samples, t).value].x
  {
    SortedOrder(samples, 0, k);
    var b := IndexBeforeAt(samples, t).value;
    if b + 1 < |samples| {
      SortedOrder(samples, b + 1, k);
    }
    SortedOrder(samples, k, b);
    SortedOrder(samples, b, k);
  }

  // ---- the curve ----

  function Blend(p: Point<real>, q: Point<real>, t: real): real
    requires p.x < q.x
  {
    var alpha := (t - p.x) / (q.x - p.x);
    p.y * (1.0 - alpha) + q.y * alpha
  }

  // The piece of the curve at some time: beyond the ends it is flat.
  datatype Piece = Flat(p: Point<real>) | Between(p: Point<real>, q: Point<real>)

  function PieceAt(view: Points, t: real): (r: Piece)
    requires view != []
    ensures r.Between? ==> r.p.x <= t < r.q.x
  {
    match IndexBeforeAt(view, t)
    case None => Flat(view[0])
    case Some(i) => if i + 1 < |view| then Between(view[i], view[i + 1]) else Flat(view[i])
  }

  function Evaluate(piece: Piece, t: real): real
    requires piece.Between? ==> piece.p.x < piece.q.x
  {
    match piece
    case Flat(p) => p.y
    case Between(p, q) => Blend(p, q, t)
  }

  /** The generator that `plot_points_generator` passes on. The division is always by a positive
      width: the search guarantees it, on any data. */
  function Curve(view: Points, t: real): real
    requires view != []
  {
    Evaluate(PieceAt(view, t), t)
  }

  lemma MultiplyOrder(a: real, b: real, c: real)
    requires a <= b && c >= 0.0
    ensures a * c <= b * c
  {}

  lemma ShareOfWidth(x: real, w: real)
    requires 0.0 <= x <= w && 0.0 < w
    ensures 0.0 <= x / w <= 1.0
  {
    var share := x / w;
    assert share * w == x;
    assert share < 0.0 ==> share * w < 0.0;
    assert share > 1.0 ==> share * w > w;
  }

  lemma ShareOfStep(d: real, alpha: real)
    requires d >= 0.0 && 0.0 <= alpha <= 1.0
    ensures 0.0 <= d * alpha <= d
  {
    MultiplyOrder(alpha, 1.0, d);
  }

  /** Both forms of a convex combination. */
  lemma BlendFromLeft(p: Point<real>, q: Point<real>, t: real)
    requires p.x < q.x
    ensures Blend(p, q, t) == p.y + (q.y - p.y) * ((t - p.x) / (q.x - p.x))
  {}

  lemma BlendIsBetween(p: Point<real>, q: Point<real>, t: real)
    requires p.x < q.x && p.x <= t <= q.x
    ensures p.y <= q.y ==> p.y <= Blend(p, q, t) <= q.y
    ensures q.y <= p.y ==> q.y <= Blend(p, q, t) <= p.y
    ensures t == p.x ==> Blend(p, q, t) == p.y
  {
    var alpha := (t - p.x) / (q.x - p.x);
    ShareOfWidth(t - p.x, q.x - p.x);
    BlendFromLeft(p, q, t);
    if p.y <= q.y {
      ShareOfStep(q.y - p.y, alpha);
    } else {
      ShareOfStep(p.y - q.y, alpha);
      assert (q.y - p.y) * alpha == -((p.y - q.y) * alpha);
    }
  }

  lemma BlendIsMonotone(p: Point<real>, q: Point<real>, t: real, u: real)
    requires p.x < q.x && p.x <= t <= u && p.y <= q.y
    ensures Blend(p, q, t) <= Blend(p, q, u)
  {
    var w := q.x - p.x;
    BlendFromLeft(p, q, t);
    BlendFromLeft(p, q, u);
    DivideOrder(t - p.x, u - p.x, w);
    MultiplyOrder((t - p.x) / w, (u - p.x) / w, q.y - p.y);
  }

  lemma DivideOrder(a: real, b: real, w: real)
    requires a <= b && 0.0 < w
    ensures a / w <= b / w
  {
    var p, q := a / w, b / w;
    assert p * w == a && q * w == b;
    assert p > q ==> p * w > q * w;
  }

  lemma BlendScales(p: Point<real>, q: Point<real>, t: real, k: real)
    requires p.x < q.x
    ensures Blend(ScaledPoint(p, k), ScaledPoint(q, k), t) == Blend(p, q, t) * k
  {
    var alpha := (t - p.x) / (q.x - p.x);
    assert p.y * k * (1.0 - alpha) == p.y * (1.0 - alpha) * k;
    assert q.y * k * alpha == q.y * alpha * k;
  }

  /** The curve stays between the samples on both sides of `t`, and beyond the ends it keeps the
      value of the first or the last sample. */
  lemma CurveIsBetween(view: Points, t: real)
    requires view != [] && Sorted(view)
    ensures t < view[0].x ==> Curve(view, t) == view[0].y
    ensures view[|view| - 1].x <= t ==> Curve(view, t) == view[|view| - 1].y
    ensures forall i :: 0 <= i < |view| - 1 && view[i].x <= t < view[i + 1].x ==>
              || view[i].y <= Curve(view, t) <= view[i + 1].y
              || view[i + 1].y <= Curve(view, t) <= view[i].y
  {
    var r := IndexBeforeAt(view, t);
    forall i | 0 <= i < |view| - 1 && view[i].x <= t < view[i + 1].x
      ensures || view[i].y <= Curve(view, t) <= view[i + 1].y
              || view[i + 1].y <= Curve(view, t) <= view[i].y
    {
      BracketIsUnique(view, t, i);
      BlendIsBetween(view[i], view[i + 1], t);
    }
  }

  /** On sorted samples the search finds the only place where `t` fits. */
  lemma BracketIsUnique<V>(samples: seq<Point<V>>, t: real, i: nat)
    requires Sorted(samples) && i < |samples| && samples[i].x <= t
    requires i + 1 < |samples| ==> t < samples[i + 1].x
    ensures IndexBeforeAt(samples, t) == Some(i)
  {
    var r := IndexBeforeAt(samples, t);
    SortedOrder(samples, 0, i);
    if r.value + 1 < |samples| {
      SortedOrder(samples, r.value + 1, i);
    }
    if i + 1 < |samples| {
      SortedOrder(samples, i + 1, r.value);
    }
  }

  /** Between two samples the curve is the straight line through them. */
  lemma CurveIsStraight(view: Points, t: real, i: nat)
    requires Sorted(view) && i + 1 < |view| && view[i].x <= t < view[i + 1].x
    ensures (Curve(view, t) - view[i].y) * (view[i + 1].x - view[i].x) ==
            (view[i + 1].y - view[i].y) * (t - view[i].x)
  {
    BracketIsUnique(view, t, i);
    BlendIsStraight(view[i], view[i + 1], t);
  }

  lemma BlendIsStraight(p: Point<real>, q: Point<real>, t: real)
    requires p.x < q.x
    ensures (Blend(p, q, t) - p.y) * (q.x - p.x) == (q.y - p.y) * (t - p.x)
  {
    BlendFromLeft(p, q, t);
    ProductOfShare(q.y - p.y, t - p.x, q.x - p.x);
  }

  lemma ProductOfShare(d: real, x: real, w: real)
    requires w > 0.0
    ensures d * (x / w) * w == d * x
  {
    var share := x / w;
    assert share * w == x;
    assert d * share * w == d * (share * w);
  }

  /** The curve passes through every sample that is the last one with its time. */
  lemma CurveMeetsSamples(view: Points, i: nat)
    requires Sorted(view) && i < |view| && (i + 1 < |view| ==> view[i].x < view[i + 1].x)
    ensures Curve(view, view[i].x) == view[i].y
  {
    BracketIsUnique(view, view[i].x, i);
    if i + 1 < |view| {
      BlendIsBetween(view[i], view[i + 1], view[i].x);
    }
  }

  function ScaledPiece(piece: Piece, scale: real): Piece {
    match piece
    case Flat(p) => Flat(ScaledPoint(p, scale))
    case Between(p, q) => Between(ScaledPoint(p, scale), ScaledPoint(q, scale))
  }

  lemma ScalingKeepsIndex(samples: Points, t: real, scale: real)
    requires samples != []
    ensures IndexBeforeAt(Scaled(samples, scale), t) == IndexBeforeAt(samples, t)
  {
    assert Times(Scaled(samples, scale)) == Times(samples);
    IndexSameTimes(Scaled(samples, scale), samples, t);
  }

  lemma ScalingScalesPiece(samples: Points, t: real, scale: real)
    requires samples != []
    ensures PieceAt(Scaled(samples, scale), t) == ScaledPiece(PieceAt(samples, t), scale)
  {
    ScalingKeepsIndex(samples, t, scale);
  }

  lemma ScaledPieceHasScaledValue(piece: Piece, t: real, scale: real)
    requires piece.Between? ==> piece.p.x < piece.q.x
    ensures Evaluate(ScaledPiece(piece, scale), t) == Evaluate(piece, t) * scale
  {
    if piece.Between? {
      BlendScales(piece.p, piece.q, t, scale);
    }
  }

  /** Scaling the points scales the curve, on any data. */
  lemma CurveScales(samples: Points, t: real, scale: real)
    requires samples != []
    ensures Curve(Scaled(samples, scale), t) == Curve(samples, t) * scale
  {
    hide Evaluate, Blend, IndexBeforeAt, PieceAt; // the products are dealt with above
    ScalingScalesPiece(samples, t, scale);
    ScaledPieceHasScaledValue(PieceAt(samples, t), t, scale);
  }

  ghost predicate Rising(view: Points) {
    forall i, j :: 0 <= i < j < |view| ==> view[i].y <= view[j].y
  }

  /** The range of the curve behind the point that the search finds. */
  lemma CurveAfter(view: Points, t: real)
    requires view != [] && Sorted(view) && Rising(view)
    ensures match IndexBeforeAt(view, t) {
              case None => Curve(view, t) == view[0].y
              case Some(i) => view[i].y <= Curve(view, t) <= view[if i + 1 < |view| then i + 1 else i].y
            }
  {
    match IndexBeforeAt(view, t)
    case Some(i) =>
      if i + 1 < |view| {
        BlendIsBetween(view[i], view[i + 1], t);
      }
    case None =>
  }

  lemma CurveRises(view: Points, t: real, u: real)
    requires view != [] && Sorted(view) && Rising(view) && t <= u
    ensures Curve(view, t) <= Curve(view, u)
  {
    CurveAfter(view, t);
    CurveAfter(view, u);
    var r, r' := IndexBeforeAt(view, t), IndexBeforeAt(view, u);
    if r.Some? {
      var i := r.value;
      if r' == r {
        if i + 1 < |view| {
          BlendIsMonotone(view[i], view[i + 1], t, u);
        }
      } else {
        LaterIsFurther(view, t, u);
      }
    }
  }

  ghost predicate Falling(view: Points) {
    forall i, j :: 0 <= i < j < |view| ==> view[i].y >= view[j].y
  }

  /** Rising values give a curve that rises over the whole axis, across the samples and beyond both
      ends; and falling values one that falls. */
  lemma CurveIsMonotone(view: Points, t: real, u: real)
    requires view != [] && Sorted(view) && t <= u
    ensures Rising(view) ==> Curve(view, t) <= Curve(view, u)
    ensures Falling(view) ==> Curve(view, t) >= Curve(view, u)
  {
    hide Curve;
    if Rising(view) {
      CurveRises(view, t, u);
    }
    if Falling(view) {
      CurveScales(view, t, -1.0);
      CurveScales(view, u, -1.0);
      CurveRises(Scaled(view, -1.0), t, u);
    }
  }

  lemma LaterIsFurther<V>(samples: seq<Point<V>>, t: real, u: real)
    requires samples != [] && Sorted(samples) && t <= u && IndexBeforeAt(samples, t).Some?
    ensures IndexBeforeAt(samples, u).Some?
    ensures IndexBeforeAt(samples, t).value <= IndexBeforeAt(samples, u).value
  {
    var i, r := IndexBeforeAt(samples, t).value, IndexBeforeAt(samples, u);
    SortedOrder(samples, 0, i);
    if r.value + 1 < |samples| {
      SortedOrder(samples, r.value + 1, i);
    }
  }

  lemma ScalingKeepsPart(samples: Points, a: nat, part: Points, scale: real)
    requires IsPart(samples, a, part)
    ensures IsPart(Scaled(samples, scale), a, Scaled(part, scale))
  {
    forall i | 0 <= i < |part| ensures Scaled(part, scale)[i] == Scaled(samples, scale)[a + i] {
      assert part[i] == samples[a + i];
    }
  }

  ghost predicate IsPart<V>(samples: seq<Point<V>>, a: nat, part: seq<Point<V>>) {
    a + |part| <= |samples| && forall i :: 0 <= i < |part| ==> part[i] == samples[a + i]
  }

  lemma ScaledSorted(samples: Points, scale: real)
    requires Sorted(samples)
    ensures Sorted(Scaled(samples, scale))
  {}

  /** Restricting the plot to a range does not change the curve: over the span of the view it
      consists of the same pieces as the curve through all scaled samples, wherever the range
      begins and ends. */
  lemma ViewKeepsPieces(samples: Points, fromT: real, toT: real, scale: real, t: real)
    requires samples != [] && Sorted(samples) && fromT <= toT && Sliceable(samples, fromT, toT)
    requires var view := PlotPoints(samples, fromT, toT, scale);
             view != [] && view[0].x <= t < view[|view| - 1].x
    ensures PieceAt(PlotPoints(samples, fromT, toT, scale), t) == PieceAt(Scaled(samples, scale), t)
  {
    var a := SliceIsPart(samples, fromT, toT);
    ScaledPartKeepsPiece(samples, a, Slice(samples, fromT, toT), scale, t);
  }

  /** So what is shown is the scaled curve through all samples, cut to the span of the view. */
  lemma ViewShowsScaledCurve(samples: Points, fromT: real, toT: real, scale: real, t: real)
    requires samples != [] && Sorted(samples) && fromT <= toT && Sliceable(samples, fromT, toT)
    requires var view := PlotPoints(samples, fromT, toT, scale);
             view != [] && view[0].x <= t < view[|view| - 1].x
    ensures Curve(PlotPoints(samples, fromT, toT, scale), t) == Curve(samples, t) * scale
  {
    hide Evaluate, Blend, IndexBeforeAt, PieceAt, Scaled;
    ViewKeepsPieces(samples, fromT, toT, scale, t);
    CurveScales(samples, t, scale);
  }

  lemma SliceIsPart(samples: Points, fromT: real, toT: real) returns (a: nat)
    requires samples != [] && Sliceable(samples, fromT, toT)
    ensures IsPart(samples, a, Slice(samples, fromT, toT))
  {
    a := match (IndexBeforeAt(samples, fromT), IndexBeforeAt(samples, toT))
         case (Some(from), Some(_)) => from
         case _ => 0;
  }

  lemma ScaledPartKeepsPiece(samples: Points, a: nat, part: Points, scale: real, t: real)
    requires Sorted(samples) && part != [] && IsPart(samples, a, part)
    requires part[0].x <= t < part[|part| - 1].x
    ensures PieceAt(Scaled(part, scale), t) == PieceAt(Scaled(samples, scale), t)
  {
    ScalingKeepsPart(samples, a, part, scale);
    ScaledSorted(samples, scale);
    PartKeepsPiece(Scaled(samples, scale), a, Scaled(part, scale), t);
  }

  lemma PartKeepsPiece(samples: Points, a: nat, part: Points, t: real)
    requires Sorted(samples) && part != [] && IsPart(samples, a, part)
    requires part[0].x <= t < part[|part| - 1].x
    ensures PieceAt(part, t) == PieceAt(samples, t)
  {
    var i := IndexBeforeAt(part, t).value;
    BracketIsUnique(samples, t, a + i);
  }

  /** What `plot_points_generator` hands to the plot: the view and the clamped range, or nothing. */
  datatype Generator = Generator(view: Points, fromT: real, toT: real)

  /** `plot_points`. */
  method ViewOf(buffer: SampleBuffer<real>, fromT: real, toT: real, scale: real) returns (view: Points)
    requires buffer.samples != [] && Sliceable(buffer.samples, fromT, toT)
    ensures view == PlotPoints(buffer.samples, fromT, toT, scale)
  {
    var fromIndex := SearchBeforeAt(buffer.samples, fromT);
    var toIndex := SearchBeforeAt(buffer.samples, toT);
    var slice := buffer.samples;
    if toIndex.Some? {
      slice := if fromIndex.Some? then buffer.samples[fromIndex.value..toIndex.value]
               else buffer.samples[..toIndex.value];
    }
    view := Scaled(slice, scale);
  }

  method PlotPointsGenerator(buffer: SampleBuffer<real>, fromT: real, toT: real, scale: real)
    returns (r: Option<Generator>)
    requires buffer.samples != [] && Sliceable(buffer.samples, fromT, toT)
    ensures r.None? <==> PlotPoints(buffer.samples, fromT, toT, scale) == []
    ensures r.Some? ==>
              && r.value.view == PlotPoints(buffer.samples, fromT, toT, scale)
              && r.value.fromT == (if fromT < buffer.samples[0].x then buffer.samples[0].x else fromT)
              && r.value.toT ==
                 (if toT > buffer.samples[|buffer.samples| - 1].x then buffer.samples[|buffer.samples| - 1].x else toT)
  {
    var view := ViewOf(buffer, fromT, toT, scale);
    if |view| > 0 {
      var bounds := buffer.TimeBounds();
      var (minT, maxT) := bounds.value;
      r := Some(Generator(view, if fromT < minT then minT else fromT, if toT > maxT then maxT else toT));
    } else {
      r := None;
    }
  }
}
