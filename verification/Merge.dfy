/**
 channel.Merge as a transition system: the calling goroutine, one forwarder per input, the closer, and an
 environment that sends on and closes the inputs. A run is any sequence of enabled steps, so what is
 proved of every run is proved over every interleaving. Inputs are distinct channels.
 */
module Merge {

  datatype Input<T> = Input(
    sent: seq<T>,   // everything ever sent on it, in order
    queue: seq<T>,  // sent and not yet received
    closed: bool)

  datatype Forwarder<T> = Unstarted | Receiving | Holding(item: T) | Leaving | Finished

  datatype Closer = NotStarted | Waiting | Done

  datatype State<T> = State(
    inputs: seq<Input<T>>,
    forwarders: seq<Forwarder<T>>,
    added: bool,          // wg.Add(len(cs)) has run
    spawned: nat,         // forwarders started so far
    wg: int,              // wait-group counter
    closer: Closer,
    out: seq<(nat, T)>,   // items received by the consumer, with the input each came from
    outClosed: bool,
    panicked: bool)       // send on closed channel, close of closed channel, or negative counter

  datatype Step<T> =
    | Add
    | Spawn
    | SpawnCloser
    | Receive(i: nat)
    | Leave(i: nat)
    | Finish(i: nat)
    | Deliver(i: nat)
    | CloseOut
    | EnvSend(i: nat, item: T)
    | EnvClose(i: nat)

  function Initial<T>(n: nat): (s: State<T>)
  {
    State(seq(n, _ => Input([], [], false)), seq(n, _ => Unstarted), false, 0, 0, NotStarted, [], false, false)
  }

  predicate Enabled<T>(s: State<T>, step: Step<T>)
  {
    match step
    case Add => !s.added
    case Spawn => s.added && s.spawned < |s.forwarders|
    case SpawnCloser => s.added && s.spawned == |s.forwarders| && s.closer.NotStarted?
    case Receive(i) => i < |s.forwarders| == |s.inputs| && s.forwarders[i].Receiving? && s.inputs[i].queue != []
    case Leave(i) => i < |s.forwarders| == |s.inputs| && s.forwarders[i].Receiving? && s.inputs[i].queue == [] &&
        s.inputs[i].closed
    case Finish(i) => i < |s.forwarders| && s.forwarders[i].Leaving?
    // out is unbuffered and only handed out when Merge returns
    case Deliver(i) => i < |s.forwarders| && s.forwarders[i].Holding? && !s.closer.NotStarted?
    case CloseOut => s.closer.Waiting? && s.wg == 0
    case EnvSend(i, _) => i < |s.inputs| && !s.inputs[i].closed
    case EnvClose(i) => i < |s.inputs| && !s.inputs[i].closed
  }

  predicate Internal<T>(step: Step<T>)
  {
    !step.EnvSend? && !step.EnvClose?
  }

  function Apply<T>(s: State<T>, step: Step<T>): (s': State<T>)
    requires Enabled(s, step)
  {
    match step
    case Add => s.(added := true, wg := s.wg + |s.inputs|)
    case Spawn => s.(forwarders := s.forwarders[s.spawned := Receiving], spawned := s.spawned + 1)
    case SpawnCloser => s.(closer := Waiting)
    case Receive(i) =>
      var c := s.inputs[i];
      s.(inputs := s.inputs[i := c.(queue := c.queue[1..])], forwarders := s.forwarders[i := Holding(c.queue[0])])
    case Leave(i) => s.(forwarders := s.forwarders[i := Leaving])
    case Finish(i) => s.(forwarders := s.forwarders[i := Finished], wg := s.wg - 1, panicked := s.panicked || s.wg <= 0)
    case Deliver(i) =>
      if s.outClosed then s.(panicked := true)
      else s.(forwarders := s.forwarders[i := Receiving], out := s.out + [(i, s.forwarders[i].item)])
    case CloseOut => s.(closer := Done, outClosed := true, panicked := s.panicked || s.outClosed)
    case EnvSend(i, x) =>
      var c := s.inputs[i];
      s.(inputs := s.inputs[i := Input(c.sent + [x], c.queue + [x], c.closed)])
    case EnvClose(i) => s.(inputs := s.inputs[i := s.inputs[i].(closed := true)])
  }

  predicate Legal<T>(s: State<T>, steps: seq<Step<T>>)
    decreases |steps|
  {
    steps == [] || (Enabled(s, steps[0]) && Legal(Apply(s, steps[0]), steps[1..]))
  }

  function Exec<T>(s: State<T>, steps: seq<Step<T>>): (s': State<T>)
    requires Legal(s, steps)
    decreases |steps|
  {
    if steps == [] then s else Exec(Apply(s, steps[0]), steps[1..])
  }

  /* ---------- The invariant ---------- */

  /** What the consumer received from input i, in order. */
  function From<T>(out: seq<(nat, T)>, i: nat): seq<T>
  {
    if out == [] then []
    else From(out[..|out| - 1], i) + if out[|out| - 1].0 == i then [out[|out| - 1].1] else []
  }

  function Held<T>(f: Forwarder<T>): seq<T>
  {
    if f.Holding? then [f.item] else []
  }

  function Unfinished<T>(fs: seq<Forwarder<T>>): nat
  {
    if fs == [] then 0 else Unfinished(fs[..|fs| - 1]) + if fs[|fs| - 1].Finished? then 0 else 1
  }

  /** Input c against its forwarder f and what the consumer has got from it. */
  ghost predicate Consistent<T>(c: Input<T>, f: Forwarder<T>, got: seq<T>, started: bool)
  {
    && c.sent == got + Held(f) + c.queue
    && (f.Unstarted? <==> !started)
    && (f.Leaving? || f.Finished? ==> c.closed && c.queue == [])
  }

  ghost predicate InputInv<T>(s: State<T>, i: nat)
    requires i < |s.inputs| == |s.forwarders|
  {
    Consistent(s.inputs[i], s.forwarders[i], From(s.out, i), i < s.spawned)
  }

  ghost predicate Inv<T>(s: State<T>)
  {
    && !s.panicked
    && |s.inputs| == |s.forwarders|
    && s.spawned <= |s.forwarders|
    && (s.spawned > 0 || !s.closer.NotStarted? ==> s.added)
    && (!s.closer.NotStarted? ==> s.spawned == |s.forwarders|)
    && s.wg == (if s.added then Unfinished(s.forwarders) else 0)
    && s.outClosed == s.closer.Done?
    && (s.outClosed ==> forall i :: 0 <= i < |s.forwarders| ==> s.forwarders[i].Finished?)
    && (forall k :: 0 <= k < |s.out| ==> s.out[k].0 < |s.inputs|)
    && (forall i: nat :: i < |s.inputs| ==> InputInv(s, i))
  }

  lemma {:induction false} UnfinishedUpdate<T>(fs: seq<Forwarder<T>>, i: nat, f: Forwarder<T>)
    requires i < |fs|
    ensures Unfinished(fs[i := f]) ==
            Unfinished(fs) - (if fs[i].Finished? then 0 else 1) + (if f.Finished? then 0 else 1)
  {
    var initial := fs[..|fs| - 1];
    if i == |fs| - 1 {
      assert fs[i := f][..|fs| - 1] == initial;
    } else {
      assert fs[i := f][..|fs| - 1] == initial[i := f];
      UnfinishedUpdate(initial, i, f);
    }
  }

  lemma {:induction false} UnfinishedZero<T>(fs: seq<Forwarder<T>>)
    ensures Unfinished(fs) == 0 <==> forall i :: 0 <= i < |fs| ==> fs[i].Finished?
  {
    if fs != [] {
      UnfinishedZero(fs[..|fs| - 1]);
      assert forall i :: 0 <= i < |fs| - 1 ==> fs[..|fs| - 1][i] == fs[i];
    }
  }

  lemma {:induction false} UnfinishedAll<T>(fs: seq<Forwarder<T>>)
    requires forall i :: 0 <= i < |fs| ==> !fs[i].Finished?
    ensures Unfinished(fs) == |fs|
  {
    if fs != [] {
      UnfinishedAll(fs[..|fs| - 1]);
    }
  }

  lemma ReceiveConsistent<T>(c: Input<T>, got: seq<T>)
    requires Consistent(c, Receiving, got, true) && c.queue != []
    ensures Consistent(c.(queue := c.queue[1..]), Holding(c.queue[0]), got, true)
  {
    assert got + [] + c.queue == got + [c.queue[0]] + c.queue[1..];
  }

  lemma DeliverConsistent<T>(c: Input<T>, x: T, got: seq<T>)
    requires Consistent(c, Holding(x), got, true)
    ensures Consistent(c, Receiving, got + [x], true)
  {
    assert got + [x] + [] + c.queue == got + [x] + c.queue;
  }

  lemma SendConsistent<T>(c: Input<T>, f: Forwarder<T>, got: seq<T>, started: bool, x: T)
    requires Consistent(c, f, got, started) && !c.closed
    ensures Consistent(Input(c.sent + [x], c.queue + [x], c.closed), f, got, started)
  {
    assert got + Held(f) + c.queue + [x] == got + Held(f) + (c.queue + [x]);
  }

  lemma StepKeepsInputs<T>(s: State<T>, step: Step<T>, i: nat)
    requires Inv(s) && Enabled(s, step) && i < |s.inputs|
    ensures var s' := Apply(s, step);
            |s'.inputs| == |s'.forwarders| == |s.inputs| && InputInv(s', i)
  {
    assert InputInv(s, i);
    match step
    case Receive(j) =>
      if j == i {
        ReceiveConsistent(s.inputs[i], From(s.out, i));
      }
    case Deliver(j) =>
      assert !s.outClosed;
      var x := s.forwarders[j].item;
      FromSnoc(s.out, j, x, i);
      if j == i {
        DeliverConsistent(s.inputs[i], x, From(s.out, i));
      }
    case EnvSend(j, x) =>
      if j == i {
        SendConsistent(s.inputs[i], s.forwarders[i], From(s.out, i), i < s.spawned, x);
      }
    case _ =>
  }

  lemma FromSnoc<T>(out: seq<(nat, T)>, j: nat, x: T, i: nat)
    ensures From(out + [(j, x)], i) == if i == j then From(out, i) + [x] else From(out, i)
  {
    assert (out + [(j, x)])[..|out|] == out;
    assert From(out, i) + [] == From(out, i);
  }

  lemma StepKeepsInv<T>(s: State<T>, step: Step<T>)
    requires Inv(s) && Enabled(s, step)
    ensures Inv(Apply(s, step))
  {
    var s' := Apply(s, step);
    forall i: nat | i < |s.inputs|
      ensures InputInv(s', i)
    {
      StepKeepsInputs(s, step, i);
    }
    UnfinishedZero(s.forwarders);
    match step
    case Add =>
      forall i | 0 <= i < |s.forwarders|
        ensures !s.forwarders[i].Finished?
      {
        assert InputInv(s, i);
      }
      UnfinishedAll(s.forwarders);
    case Spawn =>
      assert InputInv(s, s.spawned);
      UnfinishedUpdate(s.forwarders, s.spawned, Receiving);
    case Receive(i) => UnfinishedUpdate(s.forwarders, i, Holding(s.inputs[i].queue[0]));
    case Leave(i) => UnfinishedUpdate(s.forwarders, i, Leaving);
    case Finish(i) =>
      assert InputInv(s, i);
      UnfinishedUpdate(s.forwarders, i, Finished);
    case Deliver(i) => UnfinishedUpdate(s.forwarders, i, Receiving);
    case _ =>
  }

  lemma {:induction false} RunKeepsInv<T>(s: State<T>, steps: seq<Step<T>>)
    requires Inv(s) && Legal(s, steps)
    ensures Inv(Exec(s, steps)) && |Exec(s, steps).inputs| == |s.inputs|
    decreases |steps|
  {
    if steps != [] {
      StepKeepsInv(s, steps[0]);
      RunKeepsInv(Apply(s, steps[0]), steps[1..]);
    }
  }

  /* ---------- What every run guarantees ---------- */

  ghost predicate Reachable<T>(n: nat, steps: seq<Step<T>>, s: State<T>)
  {
    Legal(Initial(n), steps) && s == Exec(Initial(n), steps)
  }

  /** No panic, the counter counts unfinished forwarders, and what was received is a prefix of what was sent. */
  lemma Safety<T>(n: nat, steps: seq<Step<T>>, s: State<T>)
    requires Reachable(n, steps, s)
    ensures !s.panicked
    ensures s.wg == if s.added then Unfinished(s.forwarders) else 0
    ensures |s.inputs| == n && forall i: nat :: i < n ==> From(s.out, i) <= s.inputs[i].sent
  {
    RunKeepsInv(Initial<T>(n), steps);
    forall i: nat | i < n
      ensures From(s.out, i) <= s.inputs[i].sent
    {
      assert InputInv(s, i);
      assert From(s.out, i) + Held(s.forwarders[i]) + s.inputs[i].queue ==
             From(s.out, i) + (Held(s.forwarders[i]) + s.inputs[i].queue);
    }
  }

  function Items<T>(out: seq<(nat, T)>): seq<T>
  {
    if out == [] then [] else Items(out[..|out| - 1]) + [out[|out| - 1].1]
  }

  ghost function AllSent<T>(inputs: seq<Input<T>>): multiset<T>
  {
    if inputs == [] then multiset{} else AllSent(inputs[..|inputs| - 1]) + multiset(inputs[|inputs| - 1].sent)
  }

  /** What the consumer received from the first n inputs. */
  function Below<T>(out: seq<(nat, T)>, n: nat): seq<T>
  {
    if out == [] then []
    else Below(out[..|out| - 1], n) + if out[|out| - 1].0 < n then [out[|out| - 1].1] else []
  }

  /** What the last item adds to the items received below a bound. */
  lemma BelowSnoc<T>(out: seq<(nat, T)>, n: nat)
    requires out != []
    ensures multiset(Below(out, n)) ==
            multiset(Below(out[..|out| - 1], n)) +
            if out[|out| - 1].0 < n then multiset{out[|out| - 1].1} else multiset{}
  {
    var initial := Below(out[..|out| - 1], n);
    assert initial + [] == initial;
  }

  lemma FromLast<T>(out: seq<(nat, T)>, n: nat)
    requires out != []
    ensures multiset(From(out, n)) ==
            multiset(From(out[..|out| - 1], n)) +
            if out[|out| - 1].0 == n then multiset{out[|out| - 1].1} else multiset{}
  {
    var initial := From(out[..|out| - 1], n);
    assert initial + [] == initial;
  }

  lemma {:induction false} BelowNext<T>(out: seq<(nat, T)>, n: nat)
    ensures multiset(Below(out, n + 1)) == multiset(Below(out, n)) + multiset(From(out, n))
  {
    if out != [] {
      BelowNext(out[..|out| - 1], n);
      BelowSnoc(out, n);
      BelowSnoc(out, n + 1);
      FromLast(out, n);
    }
  }

  lemma {:induction false} BelowAll<T>(out: seq<(nat, T)>, n: nat)
    requires forall k :: 0 <= k < |out| ==> out[k].0 < n
    ensures Below(out, n) == Items(out)
  {
    if out != [] {
      BelowAll(out[..|out| - 1], n);
    }
  }

  lemma {:induction false} BelowNone<T>(out: seq<(nat, T)>)
    ensures Below(out, 0) == []
  {
    if out != [] {
      BelowNone(out[..|out| - 1]);
    }
  }

  lemma {:induction false} SentByInput<T>(out: seq<(nat, T)>, inputs: seq<Input<T>>)
    requires forall i: nat :: i < |inputs| ==> From(out, i) == inputs[i].sent
    ensures multiset(Below(out, |inputs|)) == AllSent(inputs)
  {
    if inputs == [] {
      BelowNone(out);
    } else {
      var n := |inputs| - 1;
      SentByInput(out, inputs[..n]);
      BelowNext(out, n);
    }
  }

  lemma NothingEnabledAfterClose<T>(s: State<T>, step: Step<T>)
    requires Inv(s) && s.outClosed
    ensures !Enabled(s, step)
  {
    if (step.EnvSend? || step.EnvClose?) && step.i < |s.inputs| {
      assert InputInv(s, step.i);
    }
  }

  /**
   out is closed only when every input is closed and drained; the consumer then has, per input, exactly
   what was sent in order, and overall exactly the multiset of items sent; and nothing can happen any
   more, in particular no send on out and no second close.
   */
  lemma ClosedMeansDone<T>(n: nat, steps: seq<Step<T>>, s: State<T>)
    requires Reachable(n, steps, s) && s.outClosed
    ensures |s.inputs| == n
    ensures forall i: nat :: i < n ==>
              s.inputs[i].closed && s.inputs[i].queue == [] && From(s.out, i) == s.inputs[i].sent
    ensures multiset(Items(s.out)) == AllSent(s.inputs)
    ensures forall step: Step<T> :: !Enabled(s, step)
  {
    RunKeepsInv(Initial<T>(n), steps);
    forall i: nat | i < n
      ensures s.inputs[i].closed && s.inputs[i].queue == [] && From(s.out, i) == s.inputs[i].sent
    {
      assert InputInv(s, i);
      assert From(s.out, i) + [] + [] == From(s.out, i);
    }
    BelowAll(s.out, n);
    SentByInput(s.out, s.inputs);
    forall step: Step<T>
      ensures !Enabled(s, step)
    {
      NothingEnabledAfterClose(s, step);
    }
  }

  function Closes<T>(steps: seq<Step<T>>): nat
  {
    if steps == [] then 0 else Closes(steps[..|steps| - 1]) + if steps[|steps| - 1].CloseOut? then 1 else 0
  }

  lemma {:induction false} LegalSnoc<T>(s: State<T>, steps: seq<Step<T>>)
    requires steps != [] && Legal(s, steps)
    ensures var initial, last := steps[..|steps| - 1], steps[|steps| - 1];
            Legal(s, initial) && Enabled(Exec(s, initial), last) && Exec(s, steps) == Apply(Exec(s, initial), last)
    decreases |steps|
  {
    if |steps| > 1 {
      LegalSnoc(Apply(s, steps[0]), steps[1..]);
      assert steps[1..][..|steps| - 2] == steps[..|steps| - 1][1..];
    }
  }

  /** In every run close(out) is executed at most once, and exactly once when out ends up closed. */
  lemma {:induction false} ClosedExactlyOnce<T>(n: nat, steps: seq<Step<T>>)
    requires Legal(Initial<T>(n), steps)
    ensures Closes(steps) == if Exec(Initial<T>(n), steps).outClosed then 1 else 0
    decreases |steps|
  {
    if steps != [] {
      LegalSnoc(Initial<T>(n), steps);
      var initial := steps[..|steps| - 1];
      ClosedExactlyOnce(n, initial);
      RunKeepsInv(Initial<T>(n), initial);
    }
  }

  /* ---------- Termination ---------- */

  function Weight<T>(f: Forwarder<T>): nat
  {
    match f
    case Unstarted => 3
    case Holding(_) => 3
    case Receiving => 2
    case Leaving => 1
    case Finished => 0
  }

  function Work<T>(inputs: seq<Input<T>>, fs: seq<Forwarder<T>>): nat
    requires |inputs| == |fs|
  {
    if fs == [] then 0
    else Work(inputs[..|fs| - 1], fs[..|fs| - 1]) + 2 * |inputs[|fs| - 1].queue| + Weight(fs[|fs| - 1])
  }

  function Measure<T>(s: State<T>): nat
    requires |s.inputs| == |s.forwarders|
  {
    Work(s.inputs, s.forwarders) + (if s.added then 0 else 1) +
    match s.closer case NotStarted => 2 case Waiting => 1 case Done => 0
  }

  lemma {:induction false} WorkUpdate<T>(inputs: seq<Input<T>>, fs: seq<Forwarder<T>>, i: nat, c: Input<T>,
                                         f: Forwarder<T>)
    requires |inputs| == |fs| && i < |fs|
    ensures Work(inputs[i := c], fs[i := f]) ==
            Work(inputs, fs) - 2 * |inputs[i].queue| - Weight(fs[i]) + 2 * |c.queue| + Weight(f)
  {
    var n := |fs| - 1;
    if i == n {
      assert fs[i := f][..n] == fs[..n] && inputs[i := c][..n] == inputs[..n];
    } else {
      assert fs[i := f][..n] == fs[..n][i := f] && inputs[i := c][..n] == inputs[..n][i := c];
      WorkUpdate(inputs[..n], fs[..n], i, c, f);
    }
  }

  /** Every step of Merge and its consumer strictly decreases the measure, whatever the schedule. */
  lemma InternalStepDecreases<T>(s: State<T>, step: Step<T>)
    requires Inv(s) && Enabled(s, step) && Internal(step)
    ensures |Apply(s, step).inputs| == |Apply(s, step).forwarders|
    ensures Measure(Apply(s, step)) < Measure(s)
  {
    match step
    case Spawn =>
      assert InputInv(s, s.spawned);
      ForwarderMoves(s, s.spawned, Receiving);
    case Receive(i) => WorkUpdate(s.inputs, s.forwarders, i, s.inputs[i].(queue := s.inputs[i].queue[1..]),
        Holding(s.inputs[i].queue[0]));
    case Leave(i) => ForwarderMoves(s, i, Leaving);
    case Finish(i) => ForwarderMoves(s, i, Finished);
    case Deliver(i) => ForwarderMoves(s, i, Receiving);
    case _ =>
  }

  lemma ForwarderMoves<T>(s: State<T>, i: nat, f: Forwarder<T>)
    requires |s.inputs| == |s.forwarders| && i < |s.forwarders|
    ensures Work(s.inputs, s.forwarders[i := f]) == Work(s.inputs, s.forwarders) - Weight(s.forwarders[i]) + Weight(f)
  {
    WorkUpdate(s.inputs, s.forwarders, i, s.inputs[i], f);
    assert s.inputs[i := s.inputs[i]] == s.inputs;
  }

  /** No deadlock: once the inputs are closed some step is enabled until out is closed. */
  lemma SomeStepEnabled<T>(s: State<T>) returns (step: Step<T>)
    requires Inv(s) && !s.outClosed
    requires forall i :: 0 <= i < |s.inputs| ==> s.inputs[i].closed
    ensures Internal(step) && Enabled(s, step)
  {
    if !s.added {
      step := Add;
    } else if s.spawned < |s.forwarders| {
      step := Spawn;
    } else if s.closer.NotStarted? {
      step := SpawnCloser;
    } else {
      UnfinishedZero(s.forwarders);
      if s.wg == 0 {
        step := CloseOut;
      } else {
        var i: nat :| i < |s.forwarders| && !s.forwarders[i].Finished?;
        assert InputInv(s, i);
        match s.forwarders[i]
        case Receiving => step := if s.inputs[i].queue == [] then Leave(i) else Receive(i);
        case Holding(_) => step := Deliver(i);
        case Leaving => step := Finish(i);
      }
    }
  }

  /**
   Once the inputs are closed, any schedule of the remaining steps is at most Measure long, and one that
   cannot be extended has closed out.
   */
  lemma {:induction false} EveryScheduleCloses<T>(s: State<T>, steps: seq<Step<T>>)
    requires Inv(s) && forall i :: 0 <= i < |s.inputs| ==> s.inputs[i].closed
    requires Legal(s, steps) && forall step :: step in steps ==> Internal(step)
    ensures |steps| <= Measure(s)
    ensures (forall step: Step<T> :: Internal(step) ==> !Enabled(Exec(s, steps), step)) ==> Exec(s, steps).outClosed
    decreases |steps|
  {
    if steps == [] {
      if !s.outClosed {
        var step := SomeStepEnabled(s);
      }
    } else {
      assert steps[0] in steps;
      StepKeepsInv(s, steps[0]);
      InternalStepDecreases(s, steps[0]);
      EveryScheduleCloses(Apply(s, steps[0]), steps[1..]);
    }
  }
}
