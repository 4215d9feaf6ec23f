/** The hand-over of a `CFutureLogger`: any number of `Log` calls, call `i` carrying message
    `i`, interleaved with one `Set`. */
module FutureLogger {
  datatype Holder = Nobody | BySet | ByCall(i: nat)

  /** Where a call of `Log` stands. */
  datatype Call =
    | Begin            // before the first load of the logger
    | Direct           // has seen the logger without the lock, about to deliver
    | WantLock
    | Inside           // lock held, before the second load
    | InsideDirect     // lock held, has seen the logger
    | Returned

  /** Where the call of `Set` stands; `Flushing(k)` has delivered `k` pending messages. */
  datatype Setter = SetBegin | SetInside | Flushing(k: nat) | SetReturned

  datatype State = State(
    installed: bool,        // m_pLogger is set
    lock: Holder,
    pending: seq<nat>,      // m_vPending
    delivered: seq<nat>,    // what the installed logger got
    calls: seq<Call>,
    setter: Setter)

  datatype Step =
    | Load(i: nat) | Deliver(i: nat) | Lock(i: nat) | LoadAgain(i: nat) | DeliverInside(i: nat)
    | SetLock | Install | FlushOne | Clear

  function Init(n: nat): State {
    State(false, Nobody, [], [], seq(n, _ => Begin), SetBegin)
  }

  predicate At(s: State, i: nat, c: Call) {
    i < |s.calls| && s.calls[i] == c
  }

  predicate Enabled(s: State, step: Step) {
    match step
    case Load(i) => At(s, i, Begin)
    case Deliver(i) => At(s, i, Direct)
    case Lock(i) => At(s, i, WantLock) && s.lock.Nobody?
    case LoadAgain(i) => At(s, i, Inside)
    case DeliverInside(i) => At(s, i, InsideDirect)
    case SetLock => s.setter.SetBegin? && s.lock.Nobody?
    case Install => s.setter.SetInside?
    case FlushOne => s.setter.Flushing? && s.setter.k < |s.pending|
    case Clear => s.setter.Flushing? && s.setter.k >= |s.pending|
  }

  function Apply(s: State, step: Step): State
    requires Enabled(s, step)
  {
    match step
    case Load(i) => s.(calls := s.calls[i := if s.installed then Direct else WantLock])
    case Deliver(i) => s.(calls := s.calls[i := Returned], delivered := s.delivered + [i])
    case Lock(i) => s.(calls := s.calls[i := Inside], lock := ByCall(i))
    case LoadAgain(i) =>
      if s.installed then s.(calls := s.calls[i := InsideDirect])
      else s.(calls := s.calls[i := Returned], pending := s.pending + [i], lock := Nobody)
    case DeliverInside(i) => s.(calls := s.calls[i := Returned], delivered := s.delivered + [i], lock := Nobody)
    case SetLock => s.(setter := SetInside, lock := BySet)
    case Install => s.(setter := Flushing(0), installed := true)
    case FlushOne => s.(setter := Flushing(s.setter.k + 1), delivered := s.delivered + [s.pending[s.setter.k]])
    case Clear => s.(setter := SetReturned, pending := [], lock := Nobody)
  }

  ghost predicate Run(n: nat, states: seq<State>, steps: seq<Step>) {
    && |states| == |steps| + 1
    && states[0] == Init(n)
    && forall k :: 0 <= k < |steps| ==> Enabled(states[k], steps[k]) && states[k + 1] == Apply(states[k], steps[k])
  }

  /** The pending messages the logger has not got yet. */
  function Waiting(s: State): seq<nat> {
    if s.setter.Flushing? && s.setter.k <= |s.pending| then s.pending[s.setter.k..] else s.pending
  }

  ghost predicate LockInv(s: State) {
    && (s.lock.BySet? <==> s.setter.SetInside? || s.setter.Flushing?)
    && (s.lock.ByCall? ==> s.lock.i < |s.calls|)
    && (forall i :: 0 <= i < |s.calls| ==> (s.calls[i].Inside? || s.calls[i].InsideDirect? <==> s.lock == ByCall(i)))
  }

  ghost predicate PendingInv(s: State) {
    && (s.installed <==> s.setter.Flushing? || s.setter.SetReturned?)
    && (s.setter.SetReturned? ==> s.pending == [])
    && (s.setter.Flushing? ==> s.setter.k <= |s.pending|)
  }

  /** A message is delivered or waiting exactly once, from the moment its call is through. */
  ghost predicate OnceInv(s: State) {
    forall i: nat :: multiset(s.delivered)[i] + multiset(Waiting(s))[i] == if At(s, i, Returned) then 1 else 0
  }

  ghost predicate Inv(s: State) {
    LockInv(s) && PendingInv(s) && OnceInv(s)
  }

  lemma LockStep(s: State, step: Step)
    requires Inv(s) && Enabled(s, step)
    ensures LockInv(Apply(s, step)) && PendingInv(Apply(s, step))
  {
    hide OnceInv;
  }

  /** What a step adds to the messages that are delivered or waiting. */
  function Added(s: State, step: Step): multiset<nat> {
    match step
    case Deliver(i) => multiset{i}
    case DeliverInside(i) => multiset{i}
    case LoadAgain(i) => if s.installed then multiset{} else multiset{i}
    case _ => multiset{}
  }

  lemma MessagesAfter(s: State, step: Step)
    requires LockInv(s) && PendingInv(s) && Enabled(s, step)
    ensures
      var t := Apply(s, step);
      multiset(t.delivered) + multiset(Waiting(t)) == multiset(s.delivered) + multiset(Waiting(s)) + Added(s, step)
  {
    var t := Apply(s, step);
    if step.FlushOne? {
      assert Waiting(s) == [s.pending[s.setter.k]] + Waiting(t);
    } else if step.Clear? || step.Install? {
      assert Waiting(t) == Waiting(s);
    } else {
      CallMessages(s, step);
    }
  }

  lemma CallMessages(s: State, step: Step)
    requires LockInv(s) && PendingInv(s) && Enabled(s, step)
    requires !step.FlushOne? && !step.Clear? && !step.Install?
    ensures
      var t := Apply(s, step);
      multiset(t.delivered) + multiset(Waiting(t)) == multiset(s.delivered) + multiset(Waiting(s)) + Added(s, step)
  {
    var t := Apply(s, step);
    if step.LoadAgain? && !s.installed {
      assert Waiting(s) == s.pending && Waiting(t) == s.pending + [step.i];
    } else {
      assert Waiting(t) == Waiting(s);
    }
  }

  lemma StepKeepsInv(s: State, step: Step)
    requires Inv(s) && Enabled(s, step)
    ensures Inv(Apply(s, step))
  {
    LockStep(s, step);
    MessagesAfter(s, step);
    OnceStep(s, step);
  }

  lemma OnceStep(s: State, step: Step)
    requires Inv(s) && Enabled(s, step)
    requires
      var t := Apply(s, step);
      multiset(t.delivered) + multiset(Waiting(t)) == multiset(s.delivered) + multiset(Waiting(s)) + Added(s, step)
    ensures OnceInv(Apply(s, step))
  {
    hide Waiting;
    var t := Apply(s, step);
    forall i: nat
      ensures multiset(t.delivered)[i] + multiset(Waiting(t))[i] == if At(t, i, Returned) then 1 else 0
    {
      assert (multiset(t.delivered) + multiset(Waiting(t)))[i]
          == multiset(s.delivered)[i] + multiset(Waiting(s))[i] + Added(s, step)[i];
      assert Added(s, step)[i] == if At(t, i, Returned) && !At(s, i, Returned) then 1 else 0;
    }
  }

  lemma {:induction false} RunKeepsInv(n: nat, states: seq<State>, steps: seq<Step>, k: nat)
    requires Run(n, states, steps) && k < |states|
    ensures Inv(states[k]) && |states[k].calls| == n
  {
    if k > 0 {
      RunKeepsInv(n, states, steps, k - 1);
      StepKeepsInv(states[k - 1], steps[k - 1]);
    }
  }

  predicate AllReturned(s: State) {
    s.setter.SetReturned? && forall i :: 0 <= i < |s.calls| ==> s.calls[i].Returned?
  }

  /** Never is a message delivered twice; when all calls and `Set` are through, each of the
      `n` messages has been delivered exactly once. */
  lemma ExactlyOnce(n: nat, states: seq<State>, steps: seq<Step>, k: nat)
    requires Run(n, states, steps) && k < |states|
    ensures forall i: nat :: multiset(states[k].delivered)[i] <= 1
    ensures AllReturned(states[k]) ==>
              forall i: nat :: multiset(states[k].delivered)[i] == if i < n then 1 else 0
  {
    RunKeepsInv(n, states, steps, k);
  }

  /** With the logger installed and the lock free, nothing is left pending. */
  lemma NothingPending(n: nat, states: seq<State>, steps: seq<Step>, k: nat)
    requires Run(n, states, steps) && k < |states| && states[k].installed && states[k].lock.Nobody?
    ensures states[k].pending == []
  {
    RunKeepsInv(n, states, steps, k);
  }

  // ----- every interleaving comes to its end

  lemma NextStep(s: State) returns (step: Step)
    requires Inv(s) && !AllReturned(s)
    ensures Enabled(s, step)
  {
    if s.lock.BySet? {
      step := if s.setter.SetInside? then Install else if s.setter.k < |s.pending| then FlushOne else Clear;
    } else if s.lock.ByCall? {
      step := if s.calls[s.lock.i].Inside? then LoadAgain(s.lock.i) else DeliverInside(s.lock.i);
    } else if s.setter.SetBegin? {
      step := SetLock;
    } else {
      var i: nat :| i < |s.calls| && !s.calls[i].Returned?;
      step := match s.calls[i]
        case Begin => Load(i)
        case Direct => Deliver(i)
        case _ => Lock(i);
    }
  }

  function CallWork(c: Call): nat {
    match c
    case Begin => 5
    case WantLock => 4
    case Inside => 3
    case InsideDirect => 1
    case Direct => 1
    case Returned => 0
  }

  function CallsWork(calls: seq<Call>): nat {
    if calls == [] then 0 else CallWork(calls[0]) + CallsWork(calls[1..])
  }

  /** A bound on the steps that are left. */
  function Work(s: State): nat {
    CallsWork(s.calls) + |Waiting(s)| +
    match s.setter
    case SetBegin => 3
    case SetInside => 2
    case Flushing(_) => 1
    case SetReturned => 0
  }

  lemma {:induction false} CallsWorkUpdate(calls: seq<Call>, i: nat, c: Call)
    requires i < |calls|
    ensures CallsWork(calls[i := c]) == CallsWork(calls) - CallWork(calls[i]) + CallWork(c)
  {
    if i == 0 {
      assert calls[0 := c][1..] == calls[1..];
    } else {
      assert calls[i := c][1..] == calls[1..][i - 1 := c];
      CallsWorkUpdate(calls[1..], i - 1, c);
    }
  }

  lemma StepDecreasesWork(s: State, step: Step)
    requires Inv(s) && Enabled(s, step)
    ensures Work(Apply(s, step)) < Work(s)
  {
    var t := Apply(s, step);
    if step.Load? || step.Deliver? || step.Lock? || step.LoadAgain? || step.DeliverInside? {
      CallsWorkUpdate(s.calls, step.i, t.calls[step.i]);
    }
  }

  /** Every interleaving ends after at most `Work` steps, and where no step is left all calls
      have returned and every message was delivered exactly once. */
  lemma EveryRunDelivers(n: nat, states: seq<State>, steps: seq<Step>)
    requires Run(n, states, steps)
    ensures |steps| <= Work(Init(n))
    ensures
      var end := states[|steps|];
      (forall step :: !Enabled(end, step)) ==>
        AllReturned(end) && forall i: nat :: multiset(end.delivered)[i] == if i < n then 1 else 0
  {
    WorkLeft(n, states, steps, |steps|);
    RunKeepsInv(n, states, steps, |steps|);
    ExactlyOnce(n, states, steps, |steps|);
    if !AllReturned(states[|steps|]) {
      var step := NextStep(states[|steps|]);
    }
  }

  lemma {:induction false} WorkLeft(n: nat, states: seq<State>, steps: seq<Step>, k: nat)
    requires Run(n, states, steps) && k <= |steps|
    ensures k + Work(states[k]) <= Work(Init(n))
  {
    hide Apply, Enabled, Work, Inv;
    if k > 0 {
      WorkLeft(n, states, steps, k - 1);
      RunKeepsInv(n, states, steps, k - 1);
      StepDecreasesWork(states[k - 1], steps[k - 1]);
    }
  }
}
