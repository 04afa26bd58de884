/** From the sampler threads to the buffers and the exported table: what holds across
    src/sampler/rttsampler.rs, src/sampler/fakesampler.rs, src/main.rs and src/export.rs. */
module Pipelines {
  import opened Common
  import opened Sampler
  import opened SampleBuffer
  import opened App
  import opened AppWindow
  import opened Export
  import RttPacket
  import RttSampler
  import FakeSampler

  lemma {:induction false} ArrivedWasDelivered<V>(frames: seq<Frame<V>>, i: nat, x: Sample<V>)
    requires i < |frames| && x in frames[i].arrived.sampled
    ensures x in Delivered(frames)
  {
    if i < |frames| - 1 {
      ArrivedWasDelivered(frames[..|frames| - 1], i, x);
    }
  }

  lemma DeliveredAreUniform<V>(frames: seq<Frame<V>>, samples: seq<Sample<V>>, n: nat)
    requires Delivered(frames) <= samples && forall x :: x in samples ==> Uniform(x, n)
    ensures Delivers(frames, n)
  {
    forall i, x | 0 <= i < |frames| && x in frames[i].arrived.sampled ensures Uniform(x, n) {
      ArrivedWasDelivered(frames, i, x);
      assert x in samples;
    }
  }

  /** RTT alignment. Whatever the RTT thread meets, however much of what it has sent has reached the
      application and in whatever portions, and whatever the truncation settings: all buffers have
      identical times, even if the target's clock wraps. */
  lemma RttBuffersAreAligned(
    st: RttPacket.Structure, stages: nat, listenerGone: bool, ms: seq<RttSampler.RttMoment>,
    app: State<RttPacket.Value>, frames: seq<Frame<RttPacket.Value>>)
    requires RttPacket.AllKnown(st.fields) && |st.fields| <= 0x1_0000_0000
    requires Idle(app) && app.buffers == map[]
    requires Delivered(frames) <= Samples(RttSampler.WholeRun(st, stages, listenerGone, ms).control.outputs)
    ensures Aligned(Pump(app, frames).buffers, |st.fields|)
  {
    var thread := RttSampler.WholeRun(st, stages, listenerGone, ms);
    RttSampler.SamplesAreUniform(st, thread.frames);
    DeliveredAreUniform(frames, Samples(thread.control.outputs), |st.fields|);
    AlignmentAlways(app, frames, |st.fields|);
  }

  /** Hence the exporter's assertion on equal times never fires on RTT data: once a sample has been
      stored, exporting any selection of the channel's signals gives one row per stored sample. */
  lemma RttExportSucceeds(
    st: RttPacket.Structure, stages: nat, listenerGone: bool, ms: seq<RttSampler.RttMoment>,
    app: State<RttPacket.Value>, frames: seq<Frame<RttPacket.Value>>,
    signals: seq<Signal>, header: seq<Row<RttPacket.Value>>, r: Outcome<RttPacket.Value>)
    requires RttPacket.AllKnown(st.fields) && |st.fields| <= 0x1_0000_0000
    requires Idle(app) && app.buffers == map[]
    requires Delivered(frames) <= Samples(RttSampler.WholeRun(st, stages, listenerGone, ms).control.outputs)
    requires Pump(app, frames).buffers != map[]
    requires signals != [] && forall s :: s in signals ==> s.id < |st.fields|
    requires Exports(signals, Pump(app, frames).buffers, header, r)
    ensures r.Exported?
    ensures forall k :: 0 <= k < |signals| ==>
              |r.rows| == |header| + |Get(Pump(app, frames).buffers, signals[k].id)|
  {
    RttBuffersAreAligned(st, stages, listenerGone, ms, app, frames);
    AlignedBuffersExport(signals, Pump(app, frames).buffers, |st.fields|, header, r);
    forall k | 0 <= k < |signals|
      ensures |r.rows| == |header| + |Get(Pump(app, frames).buffers, signals[k].id)|
    {
      assert signals[k] in signals;
    }
  }

  /** The notifications among the outputs of a thread. */
  function Notifications<V>(outputs: seq<Output<V>>): seq<Notification> {
    if outputs == [] then []
    else
      Notifications(outputs[..|outputs| - 1]) +
      if outputs[|outputs| - 1].Notified? then [outputs[|outputs| - 1].notification] else []
  }

  lemma {:induction false} LastStatusAppend(before: Option<Status>, a: seq<Notification>, b: seq<Notification>)
    ensures LastStatus(before, a + b) == LastStatus(LastStatus(before, a), b)
    decreases |a|
  {
    if a == [] {
      assert a + b == b;
    } else {
      RestOfConcat(a, b);
      LastStatusAppend(if a[0].NewStatus? then Some(a[0].status) else before, a[1..], b);
    }
  }

  lemma {:induction false} LastStatusIsLatest<V>(outputs: seq<Output<V>>)
    ensures LastStatus(None, Notifications(outputs)) == LatestStatus(outputs)
  {
    if outputs != [] {
      var n := |outputs| - 1;
      LastStatusIsLatest(outputs[..n]);
      var last := if outputs[n].Notified? then [outputs[n].notification] else [];
      LastStatusAppend(None, Notifications(outputs[..n]), last);
    }
  }

  /** All notifications that reach the application over a history. */
  function Announced<V>(frames: seq<Frame<V>>): seq<Notification> {
    if frames == [] then [] else Announced(frames[..|frames| - 1]) + frames[|frames| - 1].arrived.notifications
  }

  /** What was delivered came from some first part of the log. */
  lemma {:induction false} DeliveredPart<V>(outputs: seq<Output<V>>, delivered: seq<Notification>) returns (k: nat)
    requires delivered <= Notifications(outputs)
    ensures k <= |outputs| && Notifications(outputs[..k]) == delivered
  {
    if delivered == Notifications(outputs) {
      k := |outputs|;
      assert outputs[..k] == outputs;
    } else {
      var n := |outputs| - 1;
      k := DeliveredPart(outputs[..n], delivered);
      assert outputs[..n][..k] == outputs[..k];
    }
  }

  /** No thread announces another status after Terminated, at any point of its log. */
  lemma {:induction false} TerminatedIsFinal<V>(late: bool, outputs: seq<Output<V>>, k: nat)
    requires Conforms(late, outputs) && k <= |outputs| && NewStatus(Terminated) in Notifications(outputs[..k])
    ensures LatestStatus(outputs[..k]) == Some(Terminated)
  {
    var n := |outputs| - 1;
    if k <= n {
      assert outputs[..n][..k] == outputs[..k];
      TerminatedIsFinal(late, outputs[..n], k);
    } else {
      assert outputs[..k] == outputs && outputs[..n][..n] == outputs[..n];
      if NewStatus(Terminated) in Notifications(outputs[..n]) {
        TerminatedIsFinal(late, outputs[..n], n);
      }
    }
  }

  lemma DeliverOnStatus<V>(s: State<V>, f: Frame<V>)
    requires Idle(s)
    ensures Deliver(s, f).status == LastStatus(s.status, f.arrived.notifications)
    ensures if NewStatus(Terminated) in f.arrived.notifications then Deliver(s, f).sampler.None?
            else Idle(Deliver(s, f))
  {
    assert [] + f.arrived.notifications == f.arrived.notifications;
  }

  lemma {:induction false} ShownStatusIsLast<V>(
    app: State<V>, frames: seq<Frame<V>>, late: bool, outputs: seq<Output<V>>)
    requires Idle(app) && Conforms(late, outputs) && Announced(frames) <= Notifications(outputs)
    ensures var shown := Pump(app, frames);
            && shown.status == LastStatus(app.status, Announced(frames))
            && if NewStatus(Terminated) in Announced(frames) then shown.sampler.None? else Idle(shown)
    decreases |frames|
  {
    if frames != [] {
      var n := |frames| - 1;
      var before, arrived := Announced(frames[..n]), frames[n].arrived.notifications;
      ShownStatusIsLast(app, frames[..n], late, outputs);
      LastStatusAppend(app.status, before, arrived);
      if NewStatus(Terminated) in before {
        StaysTerminated(app.status, late, outputs, before);
        StaysTerminated(app.status, late, outputs, before + arrived);
      } else {
        DeliverOnStatus(Pump(app, frames[..n]), frames[n]);
      }
    }
  }

  /** A first status before the notifications only shows as long as there is no other. */
  lemma {:induction false} LastStatusFrom(before: Option<Status>, notifications: seq<Notification>)
    ensures LastStatus(before, notifications) ==
            if LastStatus(None, notifications).Some? then LastStatus(None, notifications) else before
    decreases |notifications|
  {
    if notifications != [] {
      var first, rest := notifications[0], notifications[1..];
      LastStatusFrom(if first.NewStatus? then Some(first.status) else before, rest);
      LastStatusFrom(if first.NewStatus? then Some(first.status) else None, rest);
    }
  }

  lemma StaysTerminated<V>(
    before: Option<Status>, late: bool, outputs: seq<Output<V>>, delivered: seq<Notification>)
    requires Conforms(late, outputs) && delivered <= Notifications(outputs)
    requires NewStatus(Terminated) in delivered
    ensures LastStatus(before, delivered) == Some(Terminated)
  {
    LastStatusFrom(before, delivered);
    var k := DeliveredPart(outputs, delivered);
    TerminatedIsFinal(late, outputs, k);
    LastStatusIsLatest(outputs[..k]);
  }

  /** The status that the application shows after any calls is the one that the thread announced
      last in the part of its log that has been delivered, in whatever portions; until it announces
      one, the status of the sampler before it stays. The sampler has been dropped exactly if that
      part holds Terminated. Calls after that receive nothing any more, and rightly so: no thread
      that follows the protocol announces another status. */
  lemma ShownStatusIsLatest<V>(app: State<V>, frames: seq<Frame<V>>, late: bool, outputs: seq<Output<V>>)
    returns (k: nat)
    requires Idle(app) && Conforms(late, outputs) && Announced(frames) <= Notifications(outputs)
    ensures k <= |outputs| && Notifications(outputs[..k]) == Announced(frames)
    ensures Pump(app, frames).status ==
            if LatestStatus(outputs[..k]).Some? then LatestStatus(outputs[..k]) else app.status
    ensures Pump(app, frames).sampler.None? <==> NewStatus(Terminated) in Notifications(outputs[..k])
  {
    ShownStatusIsLast(app, frames, late, outputs);
    k := DeliveredPart(outputs, Announced(frames));
    LastStatusIsLatest(outputs[..k]);
    LastStatusFrom(app.status, Announced(frames));
  }

  lemma StartIsOrdered()
    ensures Protocol(false, FakeSampler.START.control)
    ensures FakeSampler.Ordered(Samples(FakeSampler.START.control.outputs), 0.0)
  {}

  /** The simulated sampler's times never go back, so the sliding window works on all its signals in
      every run: each buffer holds everything of the last `keep` seconds, up to the call, if there is
      one, that learns of the thread's end. */
  lemma FakeBuffersAreWindows(
    period: real, ms: seq<Moment>, app: State<FakeSampler.Wave>, frames: seq<Frame<FakeSampler.Wave>>,
    keep: real, id: u32)
    requires period >= 0.0 && keep > 0.0
    requires Idle(app) && app.buffers == map[] && Keeps(frames, keep)
    requires Delivered(frames) <= Samples(FakeSampler.Run(FakeSampler.START, period, ms).control.outputs)
    ensures Window(Column(id, Delivered(Live(frames))), Get(Pump(app, frames).buffers, id), keep)
  {
    StartIsOrdered();
    FakeSampler.SampleTimesNeverDecrease(FakeSampler.START, period, ms);
    DeliveredPrefix(Live(frames), frames);
    WindowOverCalls(app, frames, keep, id);
  }
}
