/** Exporting buffers as a table (src/export.rs). Writing files is replaced by the list of rows,
    and formatting numbers is left out. */
module Export {
  import opened Common
  import opened SampleBuffer
  import opened App

  datatype Signal = Signal(id: u32, name: string)

  datatype Row<+V> = Names(names: seq<string>) | Cells(values: seq<V>)

  // `TimesDiffer` is the assertion that all buffers share their times, checked in debug builds.
  datatype Outcome<+V> = Exported(rows: seq<Row<V>>) | NothingToDo | MissingBuffer | TimesDiffer

  /** The buffers of the signals that have one. */
  function SignalBuffers<V>(signals: seq<Signal>, buffers: Buffers<V>): (r: seq<seq<Point<V>>>)
    ensures |r| <= |signals|
    ensures |r| == |signals| <==> forall s :: s in signals ==> s.id in buffers
    ensures |r| == |signals| ==> forall j :: 0 <= j < |signals| ==> r[j] == buffers[signals[j].id]
  {
    if signals == [] then []
    else (if signals[0].id in buffers then [buffers[signals[0].id]] else []) + SignalBuffers(signals[1..], buffers)
  }

  ghost predicate IsShortest<V>(columns: seq<seq<Point<V>>>, n: nat) {
    && (exists j :: 0 <= j < |columns| && n == |columns[j]|)
    && (forall j :: 0 <= j < |columns| ==> n <= |columns[j]|)
  }

  method ShortestLength<V>(columns: seq<seq<Point<V>>>) returns (n: nat)
    requires columns != []
    ensures IsShortest(columns, n) && forall m: nat :: IsShortest(columns, m) ==> m == n
  {
    n := |columns[0]|;
    for j := 1 to |columns|
      invariant exists k :: 0 <= k < j && n == |columns[k]|
      invariant forall k :: 0 <= k < j ==> n <= |columns[k]|
    {
      if |columns[j]| < n {
        n := |columns[j]|;
      }
    }
  }

  /** The columns agree on the time of row `i`. */
  ghost predicate SameTime<V>(columns: seq<seq<Point<V>>>, i: nat)
    requires columns != [] && forall j :: 0 <= j < |columns| ==> i < |columns[j]|
  {
    forall j :: 0 <= j < |columns| ==> columns[j][i].x == columns[0][i].x
  }

  /** The table of `n` rows, one cell per column, in order. */
  ghost predicate IsTable<V>(rows: seq<Row<V>>, columns: seq<seq<Point<V>>>, n: nat)
    requires forall j :: 0 <= j < |columns| ==> n <= |columns[j]|
  {
    && |rows| == n
    && forall i :: 0 <= i < n ==>
         && rows[i].Cells? && |rows[i].values| == |columns|
         && forall j :: 0 <= j < |columns| ==> rows[i].values[j] == columns[j][i].y
  }

  /** The nested loops that both file formats share; None when the time assertion fires. */
  method WriteRows<V>(columns: seq<seq<Point<V>>>, n: nat) returns (r: Option<seq<Row<V>>>)
    requires columns != [] && forall j :: 0 <= j < |columns| ==> n <= |columns[j]|
    ensures r.Some? <==> forall i :: 0 <= i < n ==> SameTime(columns, i)
    ensures r.Some? ==> IsTable(r.value, columns, n)
  {
    var rows: seq<Row<V>> := [];
    for i := 0 to n
      invariant IsTable(rows, columns, i)
      invariant forall k :: 0 <= k < i ==> SameTime(columns, k)
    {
      var t := columns[0][i].x;
      var cells: seq<V> := [];
      for j := 0 to |columns|
        invariant forall k :: 0 <= k < j ==> columns[k][i].x == t
        invariant |cells| == j && forall k :: 0 <= k < j ==> cells[k] == columns[k][i].y
      {
        if columns[j][i].x != t {
          assert !SameTime(columns, i);
          return None;
        }
        cells := cells + [columns[j][i].y];
      }
      rows := rows + [Cells(cells)];
    }
    r := Some(rows);
  }

  /** What the export of `signals` comes to, in either format. */
  ghost predicate Exports<V>(signals: seq<Signal>, buffers: Buffers<V>, header: seq<Row<V>>, r: Outcome<V>) {
    var columns := SignalBuffers(signals, buffers);
    && (r == NothingToDo <==> signals == [])
    && (r == MissingBuffer <==> exists s :: s in signals && s.id !in buffers)
    && (signals != [] && r != MissingBuffer ==>
          forall n: nat :: IsShortest(columns, n) ==>
            && (r == TimesDiffer <==> exists i :: 0 <= i < n && !SameTime(columns, i))
            && (r.Exported? ==>
                  && header <= r.rows
                  && IsTable(r.rows[|header|..], columns, n)))
  }

  /** `write_csv`: a row of names, then the table. */
  method WriteCsv<V>(signals: seq<Signal>, buffers: Buffers<V>) returns (r: Outcome<V>)
    ensures Exports(signals, buffers,
                    [Names(seq(|signals|, i requires 0 <= i < |signals| => signals[i].name))], r)
  {
    if |signals| == 0 {
      return NothingToDo;
    }
    var header: Row<V> := Names(seq(|signals|, i requires 0 <= i < |signals| => signals[i].name));
    var signalBuffers := SignalBuffers(signals, buffers);
    if |signalBuffers| != |signals| {
      return MissingBuffer;
    }
    var n := ShortestLength(signalBuffers);
    var rows := WriteRows(signalBuffers, n);
    match rows {
      case None => r := TimesDiffer;
      case Some(cells) =>
        r := Exported([header] + cells);
        assert r.rows[1..] == cells;
    }
  }

  /** `write_npy`: the table alone. */
  method WriteNpy<V>(signals: seq<Signal>, buffers: Buffers<V>) returns (r: Outcome<V>)
    ensures Exports(signals, buffers, [], r)
  {
    if |signals| == 0 {
      return NothingToDo;
    }
    var signalBuffers := SignalBuffers(signals, buffers);
    if |signalBuffers| != |signals| {
      return MissingBuffer;
    }
    var n := ShortestLength(signalBuffers);
    var rows := WriteRows(signalBuffers, n);
    match rows {
      case None => r := TimesDiffer;
      case Some(cells) =>
        r := Exported(cells);
        assert r.rows[0..] == cells;
    }
  }

  /** On aligned buffers the assertion never fires, and every stored sample becomes a row: row i
      holds the i-th value of every signal. */
  lemma AlignedBuffersExport<V>(signals: seq<Signal>, buffers: Buffers<V>, n: nat, header: seq<Row<V>>, r: Outcome<V>)
    requires Aligned(buffers, n) && buffers != map[] && signals != []
    requires forall s :: s in signals ==> s.id < n
    requires Exports(signals, buffers, header, r)
    ensures r.Exported?
    ensures forall k :: 0 <= k < |signals| ==> |r.rows| == |header| + |buffers[signals[k].id]|
    ensures forall i, k :: 0 <= k < |signals| && 0 <= i < |r.rows| - |header| ==>
              && r.rows[|header| + i].Cells? && |r.rows[|header| + i].values| == |signals|
              && r.rows[|header| + i].values[k] == buffers[signals[k].id][i].y
  {
    var columns := SignalBuffers(signals, buffers);
    AlignedColumns(signals, buffers, n);
    assert IsShortest(columns, |columns[0]|);
    forall i, k | 0 <= k < |signals| && 0 <= i < |r.rows| - |header|
      ensures && r.rows[|header| + i].Cells? && |r.rows[|header| + i].values| == |signals|
              && r.rows[|header| + i].values[k] == buffers[signals[k].id][i].y
    {
      assert r.rows[|header|..][i] == r.rows[|header| + i];
    }
  }

  lemma AlignedColumns<V>(signals: seq<Signal>, buffers: Buffers<V>, n: nat)
    requires Aligned(buffers, n) && buffers != map[] && signals != []
    requires forall s :: s in signals ==> s.id < n
    ensures var columns := SignalBuffers(signals, buffers);
            && |columns| == |signals|
            && (forall j :: 0 <= j < |columns| ==> |columns[j]| == |columns[0]|)
            && forall i :: 0 <= i < |columns[0]| ==> SameTime(columns, i)
  {
    var columns := SignalBuffers(signals, buffers);
    forall j | 0 <= j < |columns| ensures Times(columns[j]) == Times(columns[0]) && |columns[j]| == |columns[0]| {
      assert Times(buffers[signals[j].id]) == Times(buffers[signals[0].id]);
      assert |Times(columns[j])| == |columns[j]| && |Times(columns[0])| == |columns[0]|;
    }
    forall i | 0 <= i < |columns[0]| ensures SameTime(columns, i) {
      forall j | 0 <= j < |columns| ensures columns[j][i].x == columns[0][i].x {
        assert Times(columns[j])[i] == Times(columns[0])[i];
      }
    }
  }
}
