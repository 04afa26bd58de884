/** What every sampler thread shares (src/sampler/mod.rs): its statuses, the commands it takes
    from a first-in first-out queue, and what the rest of the program can observe of it. */
module Sampler {
  import opened Common

  datatype Status = Initializing | Sampling | Paused | Terminated

  // A time in microseconds and one value for each listed signal.
  datatype Sample<+V> = Sample(time: nat, values: seq<(u32, V)>)

  /** A sample with one value for each of the signals 0, 1, ..., n - 1. */
  ghost predicate Uniform<V>(sample: Sample<V>, n: nat) {
    |sample.values| == n && forall i :: 0 <= i < n ==> sample.values[i].0 == i
  }

  // Message texts are left out.
  datatype Notification = NewStatus(status: Status) | Info | Error

  // Everything a thread sends, on either channel, in the order of sending.
  datatype Output<+V> = Notified(notification: Notification) | Sampled(sample: Sample<V>)

  datatype Command = SetActive(ids: seq<u32>) | Pause | Resume | Stop

  /** What one iteration of a thread's loop meets: the commands that were queued since the
      last one, and whether the other ends of the three channels are gone. */
  datatype Moment = Moment(arrivals: seq<Command>, disconnected: bool, samplesGone: bool, listenerGone: bool)

  /** All commands that come in over a run, and those that its first iteration finds. */
  function Arrivals(ms: seq<Moment>): seq<Command> {
    if ms == [] then [] else ms[0].arrivals + Arrivals(ms[1..])
  }

  function NextArrivals(ms: seq<Moment>): seq<Command> {
    if ms == [] then [] else ms[0].arrivals
  }

  /** The status a running thread switches to when it takes a command, if any. */
  function Switch(status: Status, command: Command): (next: Option<Status>)
    ensures next.Some? ==> next.value != status && next.value != Initializing
  {
    match command
    case Stop => if status != Terminated then Some(Terminated) else None
    case Pause => if status == Sampling then Some(Paused) else None
    case Resume => if status == Paused then Some(Sampling) else None
    case SetActive(_) => None
  }

  /** The commands that change a status, spelled out. */
  predicate ChangesStatus(status: Status, command: Command) {
    || (command == Stop && status != Terminated)
    || (command == Pause && status == Sampling)
    || (command == Resume && status == Paused)
  }

  lemma SwitchIff(status: Status, command: Command)
    ensures Switch(status, command).Some? <==> ChangesStatus(status, command)
  {}

  /** Everything at the other ends of the channels is in place, and nobody asks for the end. */
  predicate Alive(m: Moment) {
    !m.disconnected && !m.samplesGone && !m.listenerGone && Stop !in m.arrivals
  }

  function StatusAfter(status: Status, command: Command): Status {
    match Switch(status, command)
    case Some(next) => next
    case None => status
  }

  /** The status and the active signals after a list of commands. */
  function AfterCommands(commands: seq<Command>): (r: (Status, seq<u32>)) {
    if commands == [] then (Sampling, [])
    else
      var (status, active) := AfterCommands(commands[..|commands| - 1]);
      var last := commands[|commands| - 1];
      (StatusAfter(status, last), if last.SetActive? then last.ids else active)
  }

  lemma AfterOneMore(commands: seq<Command>, last: Command)
    ensures AfterCommands(commands + [last]) ==
            (StatusAfter(AfterCommands(commands).0, last),
             if last.SetActive? then last.ids else AfterCommands(commands).1)
  {
    assert (commands + [last])[..|commands|] == commands;
  }

  /** A pause that no later command has lifted. */
  ghost predicate Holding(commands: seq<Command>, i: nat) {
    i < |commands| && commands[i] == Pause && forall j :: i < j < |commands| ==> commands[j] != Resume
  }

  /** The last list of active signals. */
  ghost predicate LastActive(commands: seq<Command>, k: nat) {
    k < |commands| && commands[k].SetActive? && forall j :: k < j < |commands| ==> !commands[j].SetActive?
  }

  /** What commands amount to: Stop ends the thread for good, otherwise it is paused exactly when
      some pause has not been lifted; and the last list of signals counts. */
  lemma {:induction false} CommandsDecide(commands: seq<Command>)
    ensures AfterCommands(commands).0 == Terminated <==> Stop in commands
    ensures Stop !in commands ==> (AfterCommands(commands).0 == Paused <==> exists i: nat :: Holding(commands, i))
    ensures AfterCommands(commands).0 != Initializing
    ensures forall k: nat :: LastActive(commands, k) ==> AfterCommands(commands).1 == commands[k].ids
  {
    if commands != [] {
      var n := |commands| - 1;
      var earlier, last := commands[..n], commands[n];
      CommandsDecide(earlier);
      assert commands == earlier + [last];
      if last == Pause {
        assert Holding(commands, n);
      }
      forall i: nat | i < n ensures Holding(commands, i) <==> Holding(earlier, i) && last != Resume {
        assert commands[i] == earlier[i];
        assert forall j :: i < j < n ==> commands[j] == earlier[j];
      }
      forall k: nat | LastActive(commands, k) ensures AfterCommands(commands).1 == commands[k].ids {
        if k < n {
          assert earlier[k] == commands[k] && forall j :: k < j < n ==> earlier[j] == commands[j];
          assert LastActive(earlier, k);
        }
      }
    }
  }

  /** The status an observer knows from the notifications so far. */
  function LatestStatus<V>(outputs: seq<Output<V>>): Option<Status> {
    if outputs == [] then None
    else
      match outputs[|outputs| - 1]
      case Notified(NewStatus(status)) => Some(status)
      case _ => LatestStatus(outputs[..|outputs| - 1])
  }

  /** The protocol that every sampler promises its observer: what may come after `past`.
      With `lateFailure` a thread may still report an error after it reported Terminated. */
  predicate Admissible<V(==)>(lateFailure: bool, past: seq<Output<V>>, next: Output<V>) {
    var latest := LatestStatus(past);
    var failing := past != [] && past[|past| - 1] == Notified(Error);
    match next
    case Sampled(_) => latest == Some(Sampling) && !failing
    case Notified(Info) => latest != Some(Terminated) && !failing
    case Notified(Error) => (lateFailure || latest != Some(Terminated)) && !failing
    case Notified(NewStatus(Initializing)) => false
    case Notified(NewStatus(Sampling)) => (latest == None || latest == Some(Paused)) && !failing
    case Notified(NewStatus(Paused)) => latest == Some(Sampling) && !failing
    case Notified(NewStatus(Terminated)) => latest == Some(Sampling) || latest == Some(Paused) || failing
  }

  /** Every output was admissible when it was sent. */
  ghost predicate Conforms<V>(lateFailure: bool, outputs: seq<Output<V>>) {
    outputs == [] ||
    (&& Conforms(lateFailure, outputs[..|outputs| - 1])
     && Admissible(lateFailure, outputs[..|outputs| - 1], outputs[|outputs| - 1]))
  }

  lemma {:induction false} ConformsAt<V>(lateFailure: bool, outputs: seq<Output<V>>, i: nat)
    requires Conforms(lateFailure, outputs) && i < |outputs|
    ensures Admissible(lateFailure, outputs[..i], outputs[i])
  {
    var n := |outputs| - 1;
    if i < n {
      ConformsAt(lateFailure, outputs[..n], i);
      assert outputs[..n][..i] == outputs[..i];
    }
  }

  lemma ConformsIff<V>(lateFailure: bool, outputs: seq<Output<V>>, next: Output<V>)
    ensures Conforms(lateFailure, outputs + [next]) <==>
            Conforms(lateFailure, outputs) && Admissible(lateFailure, outputs, next)
  {
    var all := outputs + [next];
    assert all[..|all| - 1] == outputs && all[|all| - 1] == next;
  }

  lemma ConformsOneMore<V>(lateFailure: bool, outputs: seq<Output<V>>, next: Output<V>)
    requires Conforms(lateFailure, outputs) && Admissible(lateFailure, outputs, next)
    ensures Conforms(lateFailure, outputs + [next])
    ensures next.Notified? && next.notification.NewStatus? ==>
              LatestStatus(outputs + [next]) == Some(next.notification.status)
    ensures !(next.Notified? && next.notification.NewStatus?) ==>
              LatestStatus(outputs + [next]) == LatestStatus(outputs)
  {
    assert (outputs + [next])[..|outputs|] == outputs;
  }

  /** The thread returns an error: its wrapper reports it, and then the end of the thread. */
  function Reported<V>(outputs: seq<Output<V>>, listenerGone: bool): seq<Output<V>> {
    if listenerGone then outputs else outputs + [Notified(Error)] + [Notified(NewStatus(Terminated))]
  }

  lemma ConformsFailure<V>(lateFailure: bool, outputs: seq<Output<V>>, listenerGone: bool)
    requires Conforms(lateFailure, outputs) && Admissible(lateFailure, outputs, Notified(Error))
    ensures Conforms(lateFailure, Reported(outputs, listenerGone))
  {
    if !listenerGone {
      ConformsOneMore(lateFailure, outputs, Notified(Error));
      ConformsOneMore(lateFailure, outputs + [Notified(Error)], Notified(NewStatus(Terminated)));
    }
  }

  /** The samples among the outputs. */
  function Samples<V>(outputs: seq<Output<V>>): seq<Sample<V>> {
    if outputs == [] then []
    else
      var earlier := Samples(outputs[..|outputs| - 1]);
      match outputs[|outputs| - 1]
      case Sampled(sample) => earlier + [sample]
      case Notified(_) => earlier
  }

  lemma SamplesOfFailure<V>(outputs: seq<Output<V>>, listenerGone: bool)
    ensures Samples(Reported(outputs, listenerGone)) == Samples(outputs)
  {
    if !listenerGone {
      OneMoreSample(outputs, Notified(Error));
      OneMoreSample(outputs + [Notified(Error)], Notified(NewStatus(Terminated)));
    }
  }

  /** Hence no sample reaches the observer while the latest known status is not Sampling. */
  lemma SamplesOnlyWhileSampling<V>(lateFailure: bool, outputs: seq<Output<V>>, i: nat)
    requires Conforms(lateFailure, outputs) && i < |outputs| && outputs[i].Sampled?
    ensures LatestStatus(outputs[..i]) == Some(Sampling)
  {
    ConformsAt(lateFailure, outputs, i);
  }

  // ---- the part of a thread's state that all samplers have ----

  /** `handled` records the commands taken so far; `ended` means the loop has been left. */
  datatype Control<+V> = Control(
    status: Status, queue: seq<Command>, handled: seq<Command>, outputs: seq<Output<V>>, ended: bool)

  function Fresh<V>(): Control<V> {
    Control(Initializing, [], [], [], false)
  }

  /** The thread returns an error, which its wrapper reports. */
  function Fail<V>(c: Control<V>, listenerGone: bool): Control<V> {
    c.(ended := true, outputs := Reported(c.outputs, listenerGone))
  }

  /** The end of an iteration: announce a new status, if there is one, and assume it. */
  function Become<V>(c: Control<V>, next: Option<Status>, listenerGone: bool): Control<V> {
    match next
    case None => c
    case Some(status) =>
      if listenerGone then Fail(c, true)
      else c.(status := status, outputs := c.outputs + [Notified(NewStatus(status))])
  }

  function Take<V>(c: Control<V>): Control<V>
    requires c.queue != []
  {
    c.(queue := c.queue[1..], handled := c.handled + [c.queue[0]])
  }

  function Emit<V>(c: Control<V>, sample: Sample<V>): Control<V> {
    c.(outputs := c.outputs + [Sampled(sample)])
  }

  /** What the observer has seen agrees with the protocol and with the thread's own status. */
  ghost predicate Protocol<V>(lateFailure: bool, c: Control<V>) {
    && Conforms(lateFailure, c.outputs)
    && (!c.ended ==>
          && LatestStatus(c.outputs) == (if c.status == Initializing then None else Some(c.status))
          && (c.outputs == [] || c.outputs[|c.outputs| - 1] != Notified(Error)))
  }

  lemma FailKeepsProtocol<V>(lateFailure: bool, c: Control<V>, listenerGone: bool)
    requires Protocol(lateFailure, c) && !c.ended && (lateFailure || c.status != Terminated)
    ensures Protocol(lateFailure, Fail(c, listenerGone))
    ensures Samples(Fail(c, listenerGone).outputs) == Samples(c.outputs)
  {
    ConformsFailure(lateFailure, c.outputs, listenerGone);
    SamplesOfFailure(c.outputs, listenerGone);
  }

  /** The moves of the status automaton. */
  predicate Moves(from: Status, to: Status) {
    match to
    case Initializing => false
    case Sampling => from == Initializing || from == Paused
    case Paused => from == Sampling
    case Terminated => from == Sampling || from == Paused
  }

  lemma MoveKeepsProtocol<V>(lateFailure: bool, c: Control<V>, next: Status)
    requires Protocol(lateFailure, c) && !c.ended && Moves(c.status, next)
    ensures Protocol(lateFailure, Become(c, Some(next), false))
    ensures Samples(Become(c, Some(next), false).outputs) == Samples(c.outputs)
  {
    var move: Output<V> := Notified(NewStatus(next));
    assert Admissible(lateFailure, c.outputs, move);
    ConformsOneMore(lateFailure, c.outputs, move);
    OneMoreSample(c.outputs, move);
  }

  lemma BecomeKeepsProtocol<V>(lateFailure: bool, c: Control<V>, command: Command, listenerGone: bool)
    requires Protocol(lateFailure, c) && !c.ended && c.status != Terminated
    ensures var next := if c.status == Initializing then Some(Sampling) else Switch(c.status, command);
            && Protocol(lateFailure, Become(c, next, listenerGone))
            && Samples(Become(c, next, listenerGone).outputs) == Samples(c.outputs)
  {
    var next := if c.status == Initializing then Some(Sampling) else Switch(c.status, command);
    if next.Some? {
      if listenerGone {
        FailKeepsProtocol(lateFailure, c, true);
      } else {
        MoveKeepsProtocol(lateFailure, c, next.value);
      }
    }
  }

  lemma EmitKeepsProtocol<V>(lateFailure: bool, c: Control<V>, sample: Sample<V>)
    requires Protocol(lateFailure, c) && !c.ended && c.status == Sampling
    ensures Protocol(lateFailure, Emit(c, sample))
    ensures Samples(Emit(c, sample).outputs) == Samples(c.outputs) + [sample]
  {
    ConformsOneMore(lateFailure, c.outputs, Sampled(sample));
    OneMoreSample(c.outputs, Sampled(sample));
  }

  lemma InfoKeepsProtocol<V>(lateFailure: bool, c: Control<V>)
    requires Protocol(lateFailure, c) && !c.ended && c.status != Terminated
    ensures Protocol(lateFailure, c.(outputs := c.outputs + [Notified(Info)]))
    ensures Samples(c.outputs + [Notified(Info)]) == Samples(c.outputs)
  {
    ConformsOneMore(lateFailure, c.outputs, Notified(Info));
    OneMoreSample(c.outputs, Notified(Info));
  }

  lemma OneMoreSample<V>(outputs: seq<Output<V>>, next: Output<V>)
    ensures Samples(outputs + [next]) == if next.Sampled? then Samples(outputs) + [next.sample] else Samples(outputs)
  {
    assert (outputs + [next])[..|outputs|] == outputs;
  }

  /** One iteration, as far as commands are concerned: a running thread takes the command at
      the head of its queue, if there is one, and no other. */
  ghost predicate Advances<V>(c: Control<V>, c': Control<V>, arrivals: seq<Command>) {
    var queue := c.queue + arrivals;
    if c.ended then c' == c
    else if c'.ended then true
    else
      match c.status
      case Terminated => false
      case Initializing => (c'.status, c'.queue, c'.handled) == (Sampling, queue, c.handled)
      case _ =>
        if queue == [] then (c'.status, c'.queue, c'.handled) == (c.status, [], c.handled)
        else (c'.status, c'.queue, c'.handled) ==
             (StatusAfter(c.status, queue[0]), queue[1..], c.handled + [queue[0]])
  }

  /** The commands taken so far determine the status. */
  ghost predicate Obedient<V>(c: Control<V>) {
    !c.ended ==>
      if c.status == Initializing then c.handled == [] else c.status == AfterCommands(c.handled).0
  }

  lemma AdvanceObeys<V>(c: Control<V>, c': Control<V>, arrivals: seq<Command>)
    requires Obedient(c) && Advances(c, c', arrivals)
    ensures Obedient(c')
    ensures !c'.ended ==> c'.handled + c'.queue == c.handled + c.queue + arrivals
  {
    var queue := c.queue + arrivals;
    if queue != [] {
      AfterOneMore(c.handled, queue[0]);
      assert queue == [queue[0]] + queue[1..];
    }
    Associative(c.handled, c.queue, arrivals);
  }

  /** Stop is queued behind `k` other commands. */
  predicate StopBehind(queue: seq<Command>, k: nat) {
    k < |queue| && queue[k] == Stop && Stop !in queue[..k]
  }

  /** The thread with `arrivals` already in its queue, as its next iteration finds it. */
  function Queued<V>(c: Control<V>, arrivals: seq<Command>): Control<V> {
    c.(queue := c.queue + arrivals)
  }

  /** The thread leaves its loop within `n` iterations. */
  ghost predicate Leaving<V>(c: Control<V>, n: nat) {
    || c.ended
    || (c.status == Terminated && n >= 1)
    || exists k: nat :: StopBehind(c.queue, k) && n >= k + (if c.status == Initializing then 3 else 2)
  }

  /** Stop arrives behind `k` commands at a thread that is past its first iteration. */
  lemma StopArrives<V>(c: Control<V>, arrivals: seq<Command>, k: nat)
    requires StopBehind(c.queue + arrivals, k) && (c.ended || c.status != Initializing)
    ensures Leaving(Queued(c, arrivals), k + 2)
  {}

  lemma AdvanceLeaves<V>(c: Control<V>, c': Control<V>, arrivals: seq<Command>, n: nat)
    requires Leaving(Queued(c, arrivals), n) && Advances(c, c', arrivals)
    ensures n == 0 ==> c.ended
    ensures n >= 1 ==> Leaving(c', n - 1)
  {
    if !c'.ended {
      var queue := c.queue + arrivals;
      var k: nat :| StopBehind(queue, k) && n >= k + (if c.status == Initializing then 3 else 2);
      if c.status == Initializing {
        assert StopBehind(c'.queue, k);
      } else if k > 0 {
        assert queue[1..][..k - 1] == queue[..k][1..];
        assert StopBehind(c'.queue, k - 1);
      }
    }
  }

  /** Commands that arrive behind Stop do not delay it. */
  lemma LaterArrivals<V>(c: Control<V>, arrivals: seq<Command>, n: nat)
    requires Leaving(c, n)
    ensures Leaving(Queued(c, arrivals), n)
  {
    if !c.ended && !(c.status == Terminated && n >= 1) {
      var k: nat :| StopBehind(c.queue, k) && n >= k + (if c.status == Initializing then 3 else 2);
      assert (c.queue + arrivals)[..k] == c.queue[..k];
      assert StopBehind(Queued(c, arrivals).queue, k);
    }
  }
}
