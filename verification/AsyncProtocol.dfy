/** The threads around an `ASYNCIO`: any number of clients, the owner that frees the
    structure, and the writer thread, as a step relation over their program counters.
    Taking the lock, a critical section with its unlock, a semaphore operation and a
    file write are one step each. */
module AsyncProtocol {
  import opened Arithmetic
  import opened Bytes
  import opened AsyncRing

  datatype Finish = Running | Close | Exit

  datatype Holder = Nobody | ByWriter | ByOwner | ByClient(i: nat)

  /** Where the writer thread stands. */
  datatype Writer =
    | WantLock                   // about to take the lock
    | Locked                     // at the loop head, lock held
    | Asleep                     // in sphore_wait
    | Flushing(local: seq<byte>) // lock released, local buffer not yet in the file
    | Releasing                  // dropped the last reference, about to free
    | Done

  datatype Operation = OpWrite | OpClose | OpWait

  /** Where a client thread stands. `Inside` holds the lock; in a write session `mine` is
      what it has queued so far. After the unlock it still owes a signal. */
  datatype Client =
    | Idle
    | Entering(op: Operation)
    | Inside(op: Operation, mine: seq<byte>)
    | Signalling(joins: bool)
    | Joining

  /** The call of `aio_free`. */
  datatype Owner = Holding | WantFree | Freeing | OwnerReleasing | Dropped

  /** What became of the thread handle. */
  datatype Handle = Attached | Taken | Joined | Detached

  datatype Waiter = NoWaiter | WaiterIs(i: nat)

  datatype State = State(
    lock: Holder,
    ring: seq<byte>,
    finish: Finish,
    sem: nat,
    refs: nat,
    handle: Handle,
    writer: Writer,
    clients: seq<Client>,
    owner: Owner,
    file: seq<byte>,
    closes: nat,          // calls of io_close
    frees: nat,           // releases of the structure
    // history
    queued: seq<byte>,    // everything queued, in lock order
    waiter: Waiter)       // the client that called aio_wait

  datatype Step =
    | WriterAcquire | WriterSleep | WriterDrain | WriterExit | WriterFlush | WriterWake | WriterRelease
    | Begin(i: nat, op: Operation)
    | Acquire(i: nat)
    | Write(i: nat, data: seq<byte>)
    | Unlock(i: nat)
    | SetClose(i: nat)
    | SetWait(i: nat)
    | Signal(i: nat)
    | Join(i: nat)
    | BeginFree | OwnerAcquire | OwnerDrop | OwnerRelease

  function Init(n: nat): State {
    State(Nobody, [], Running, 0, 2, Attached, WantLock, seq(n, _ => Idle), Holding, [], 0, 0, [], NoWaiter)
  }

  ghost predicate AllIdle(clients: seq<Client>) {
    forall i :: 0 <= i < |clients| ==> clients[i] == Idle
  }

  /** When a step may happen. `Begin` and `BeginFree` carry what the callers owe: nobody
      uses the structure once `aio_free` was called, no operation is under way when it is
      called, and `aio_wait` is called at most once. */
  ghost predicate Enabled(s: State, step: Step) {
    match step
    case WriterAcquire => s.writer.WantLock? && s.lock.Nobody?
    case WriterSleep => s.writer.Locked? && s.ring == [] && s.finish.Running?
    case WriterDrain => s.writer.Locked? && s.ring != []
    case WriterExit => s.writer.Locked? && s.ring == [] && !s.finish.Running?
    case WriterFlush => s.writer.Flushing?
    case WriterWake => s.writer.Asleep? && s.sem > 0
    case WriterRelease => s.writer.Releasing?
    case Begin(i, op) =>
      i < |s.clients| && s.clients[i].Idle? && s.owner.Holding? && (op.OpWait? ==> s.waiter.NoWaiter?)
    case Acquire(i) => i < |s.clients| && s.clients[i].Entering? && s.lock.Nobody?
    case Write(i, data) =>
      && i < |s.clients| && s.clients[i].Inside? && s.clients[i].op.OpWrite?
      && |s.ring| + |data| + 1 <= MAX_RING
    case Unlock(i) => i < |s.clients| && s.clients[i].Inside? && s.clients[i].op.OpWrite?
    case SetClose(i) => i < |s.clients| && s.clients[i].Inside? && s.clients[i].op.OpClose?
    case SetWait(i) => i < |s.clients| && s.clients[i].Inside? && s.clients[i].op.OpWait?
    case Signal(i) => i < |s.clients| && s.clients[i].Signalling?
    case Join(i) => i < |s.clients| && s.clients[i].Joining? && s.writer.Done?
    case BeginFree => s.owner.Holding? && AllIdle(s.clients)
    case OwnerAcquire => s.owner.WantFree? && s.lock.Nobody?
    case OwnerDrop => s.owner.Freeing?
    case OwnerRelease => s.owner.OwnerReleasing?
  }

  function Drained(ring: seq<byte>): nat {
    Min(|ring|, ASYNC_LOCAL_BUFSIZE)
  }

  function Dec(refs: nat): nat {
    if refs == 0 then 0 else refs - 1
  }

  ghost function Apply(s: State, step: Step): State
    requires Enabled(s, step)
  {
    match step
    case WriterAcquire => s.(lock := ByWriter, writer := Locked)
    case WriterSleep => s.(lock := Nobody, writer := Asleep)
    case WriterDrain =>
      var n := Drained(s.ring);
      s.(lock := Nobody, writer := Flushing(s.ring[..n]), ring := s.ring[n..])
    case WriterExit =>
      var left := Dec(s.refs);
      s.(lock := Nobody, refs := left, writer := if left == 0 then Releasing else Done,
         closes := if s.finish.Close? then s.closes + 1 else s.closes)
    case WriterFlush => s.(writer := WantLock, file := s.file + s.writer.local)
    case WriterWake => s.(writer := WantLock, sem := s.sem - 1)
    case WriterRelease => s.(writer := Done, frees := s.frees + 1)
    case Begin(i, op) =>
      s.(clients := s.clients[i := Entering(op)], waiter := if op.OpWait? then WaiterIs(i) else s.waiter)
    case Acquire(i) => s.(lock := ByClient(i), clients := s.clients[i := Inside(s.clients[i].op, [])])
    case Write(i, data) =>
      s.(ring := s.ring + data, queued := s.queued + data,
         clients := s.clients[i := Inside(OpWrite, s.clients[i].mine + data)])
    case Unlock(i) => s.(lock := Nobody, clients := s.clients[i := Signalling(false)])
    case SetClose(i) =>
      s.(lock := Nobody, finish := Close, clients := s.clients[i := Signalling(false)])
    case SetWait(i) =>
      s.(lock := Nobody, handle := Taken,
         finish := if s.finish.Running? then Exit else s.finish,
         clients := s.clients[i := Signalling(true)])
    case Signal(i) => s.(sem := s.sem + 1, clients := s.clients[i := if s.clients[i].joins then Joining else Idle])
    case Join(i) => s.(handle := Joined, clients := s.clients[i := Idle])
    case BeginFree => s.(owner := WantFree)
    case OwnerAcquire => s.(lock := ByOwner, owner := Freeing)
    case OwnerDrop =>
      var left := Dec(s.refs);
      s.(lock := Nobody, refs := left, owner := if left == 0 then OwnerReleasing else Dropped,
         handle := if s.handle.Attached? then Detached else s.handle)
    case OwnerRelease => s.(owner := Dropped, frees := s.frees + 1)
  }

  /** A run of `n` clients from the state `aio_new` leaves. */
  ghost predicate Run(n: nat, states: seq<State>, steps: seq<Step>) {
    && |states| == |steps| + 1
    && states[0] == Init(n)
    && forall k :: 0 <= k < |steps| ==> Enabled(states[k], steps[k]) && states[k + 1] == Apply(states[k], steps[k])
  }

  // ----- what every step keeps

  predicate WriterGone(s: State) {
    s.writer.Releasing? || s.writer.Done?
  }

  predicate OwnerGone(s: State) {
    s.owner.OwnerReleasing? || s.owner.Dropped?
  }

  /** The bytes the writer has taken out of the ring but not yet put in the file. */
  function InFlight(s: State): seq<byte> {
    if s.writer.Flushing? then s.writer.local else []
  }

  /** A client that has changed something and has its signal still to send. */
  predicate Owes(c: Client) {
    c.Signalling? || (c.Inside? && c.op.OpWrite?)
  }

  ghost predicate SomeClientOwes(clients: seq<Client>) {
    exists i :: 0 <= i < |clients| && Owes(clients[i])
  }

  ghost predicate LockInv(s: State) {
    && (s.writer.Locked? <==> s.lock.ByWriter?)
    && (s.owner.Freeing? <==> s.lock.ByOwner?)
    && (s.lock.ByClient? ==> s.lock.i < |s.clients|)
    && (forall i :: 0 <= i < |s.clients| ==> (s.clients[i].Inside? <==> s.lock == ByClient(i)))
  }

  ghost predicate BytesInv(s: State) {
    && s.file + InFlight(s) + s.ring == s.queued
    && (forall i :: 0 <= i < |s.clients| && s.clients[i].Inside? ==> IsSuffix(s.clients[i].mine, s.queued))
  }

  predicate IsSuffix(a: seq<byte>, b: seq<byte>) {
    |a| <= |b| && b[|b| - |a|..] == a
  }

  ghost predicate WakeupInv(s: State) {
    s.writer.Asleep? && (s.ring != [] || !s.finish.Running?) ==> s.sem > 0 || SomeClientOwes(s.clients)
  }

  ghost predicate FinishInv(s: State) {
    && (WriterGone(s) ==> !s.finish.Running?)
    && s.closes <= 1
    && (s.closes == 1 ==> WriterGone(s) && s.finish.Close?)
  }

  function Count(b: bool): nat {
    if b then 1 else 0
  }

  ghost predicate LifetimeInv(s: State) {
    && s.refs == Count(!WriterGone(s)) + Count(!OwnerGone(s))
    && s.frees + Count(s.writer.Releasing?) + Count(s.owner.OwnerReleasing?) == Count(s.refs == 0)
    && (!s.owner.Holding? ==> AllIdle(s.clients))
  }

  /** A client in the middle of `aio_wait`. */
  predicate InWait(c: Client) {
    || ((c.Entering? || c.Inside?) && c.op.OpWait?)
    || (c.Signalling? && c.joins)
    || c.Joining?
  }

  /** The handle, as the progress of the one call of `aio_wait` determines it. */
  function HandleOfWaiter(c: Client): Handle {
    if c.Joining? || (c.Signalling? && c.joins) then Taken
    else if InWait(c) then Attached
    else Joined
  }

  ghost predicate HandleInv(s: State) {
    && (forall i :: 0 <= i < |s.clients| && InWait(s.clients[i]) ==> s.waiter == WaiterIs(i))
    && (s.waiter.NoWaiter? ==> s.handle == if OwnerGone(s) then Detached else Attached)
    && (s.waiter.WaiterIs? ==>
          && s.waiter.i < |s.clients|
          && s.handle == HandleOfWaiter(s.clients[s.waiter.i])
          && (!s.handle.Attached? ==> !s.finish.Running?))
  }

  ghost predicate Inv(s: State) {
    LockInv(s) && BytesInv(s) && WakeupInv(s) && FinishInv(s) && LifetimeInv(s) && HandleInv(s)
  }

  lemma InitInv(n: nat)
    ensures Inv(Init(n))
  {
  }

  lemma LockStep(s: State, step: Step)
    requires Inv(s) && Enabled(s, step)
    ensures LockInv(Apply(s, step))
  {
    hide BytesInv, WakeupInv, FinishInv, HandleInv;
  }

  lemma StreamStep(s: State, step: Step)
    requires BytesInv(s) && Enabled(s, step)
    ensures
      var t := Apply(s, step);
      t.file + InFlight(t) + t.ring == t.queued
  {
    var t := Apply(s, step);
    match step {
      case WriterDrain =>
        assert s.ring == s.ring[..Drained(s.ring)] + s.ring[Drained(s.ring)..];
      case Write(i, data) =>
        assert t.file + InFlight(t) + t.ring == s.file + InFlight(s) + s.ring + data;
      case _ =>
    }
  }

  lemma BytesStep(s: State, step: Step)
    requires Inv(s) && Enabled(s, step)
    ensures BytesInv(Apply(s, step))
  {
    StreamStep(s, step);
    hide InFlight, WakeupInv, FinishInv, LifetimeInv, HandleInv;
    if step.Write? {
      assert s.lock == ByClient(step.i);
    }
  }

  lemma WakeupStep(s: State, step: Step)
    requires Inv(s) && Enabled(s, step)
    ensures WakeupInv(Apply(s, step))
  {
    var t := Apply(s, step);
    if SomeClientOwes(s.clients) {
      var i :| 0 <= i < |s.clients| && Owes(s.clients[i]);
      assert step != Signal(i) ==> Owes(t.clients[i]);
    }
    match step {
      case Write(i, data) => assert Owes(t.clients[i]);
      case Unlock(i) => assert Owes(t.clients[i]);
      case SetClose(i) => assert Owes(t.clients[i]);
      case SetWait(i) => assert Owes(t.clients[i]);
      case _ =>
    }
  }

  lemma FinishStep(s: State, step: Step)
    requires Inv(s) && Enabled(s, step)
    ensures FinishInv(Apply(s, step))
  {
  }

  lemma LifetimeStep(s: State, step: Step)
    requires Inv(s) && Enabled(s, step)
    ensures LifetimeInv(Apply(s, step))
  {
    hide BytesInv, WakeupInv, HandleInv;
  }

  lemma HandleStep(s: State, step: Step)
    requires Inv(s) && Enabled(s, step)
    ensures HandleInv(Apply(s, step))
  {
    hide BytesInv, WakeupInv;
  }

  lemma StepKeepsInv(s: State, step: Step)
    requires Inv(s) && Enabled(s, step)
    ensures Inv(Apply(s, step))
  {
    LockStep(s, step);
    BytesStep(s, step);
    WakeupStep(s, step);
    FinishStep(s, step);
    LifetimeStep(s, step);
    HandleStep(s, step);
  }

  lemma {:induction false} RunKeepsInv(n: nat, states: seq<State>, steps: seq<Step>, k: nat)
    requires Run(n, states, steps) && k < |states|
    ensures Inv(states[k])
  {
    if k == 0 {
      InitInv(n);
    } else {
      RunKeepsInv(n, states, steps, k - 1);
      StepKeepsInv(states[k - 1], steps[k - 1]);
    }
  }

  // ----- what holds over every run

  /** Whenever the writer sleeps although there is something to do, it can be woken: the
      semaphore is positive or a client that made the change has its signal still to send. */
  lemma NoLostWakeup(n: nat, states: seq<State>, steps: seq<Step>, k: nat)
    requires Run(n, states, steps) && k < |states|
    requires states[k].writer.Asleep? && (states[k].ring != [] || !states[k].finish.Running?)
    ensures states[k].sem > 0 || exists i :: 0 <= i < n && |states[k].clients| == n && Owes(states[k].clients[i])
  {
    RunKeepsInv(n, states, steps, k);
    ClientsFixed(n, states, steps, k);
  }

  lemma {:induction false} ClientsFixed(n: nat, states: seq<State>, steps: seq<Step>, k: nat)
    requires Run(n, states, steps) && k < |states|
    ensures |states[k].clients| == n
  {
    if k > 0 {
      ClientsFixed(n, states, steps, k - 1);
    }
  }

  /** What a step adds to the stream. */
  function Written(step: Step): seq<byte> {
    if step.Write? then step.data else []
  }

  /** The data of all the writes among the steps, in order. */
  function Payload(steps: seq<Step>): seq<byte> {
    if steps == [] then [] else Payload(steps[..|steps| - 1]) + Written(steps[|steps| - 1])
  }

  /** No byte is lost, repeated or reordered: the file, the writer's local buffer and the
      ring together are all the writes so far, in the order in which they held the lock. */
  lemma {:induction false} BytesConserved(n: nat, states: seq<State>, steps: seq<Step>, k: nat)
    requires Run(n, states, steps) && k < |states|
    ensures states[k].file + InFlight(states[k]) + states[k].ring == Payload(steps[..k])
  {
    RunKeepsInv(n, states, steps, k);
    QueuedIsPayload(n, states, steps, k);
  }

  lemma QueuedStep(s: State, step: Step)
    requires Enabled(s, step)
    ensures Apply(s, step).queued == s.queued + Written(step)
  {
  }

  lemma {:induction false} QueuedIsPayload(n: nat, states: seq<State>, steps: seq<Step>, k: nat)
    requires Run(n, states, steps) && k < |states|
    ensures states[k].queued == Payload(steps[..k])
  {
    hide Apply, Enabled;
    if k > 0 {
      QueuedIsPayload(n, states, steps, k - 1);
      QueuedStep(states[k - 1], steps[k - 1]);
      assert steps[..k][..k - 1] == steps[..k - 1];
    }
  }

  /** What one client queues between its `aio_lock` and its `aio_unlock` is contiguous. */
  lemma SessionContiguous(n: nat, states: seq<State>, steps: seq<Step>, k: nat, i: nat)
    requires Run(n, states, steps) && k < |steps| && steps[k] == Unlock(i)
    ensures IsSuffix(states[k].clients[i].mine, Payload(steps[..k]))
  {
    RunKeepsInv(n, states, steps, k);
    QueuedIsPayload(n, states, steps, k);
  }

  lemma {:induction false} QueuedGrows(n: nat, states: seq<State>, steps: seq<Step>, j: nat, k: nat)
    requires Run(n, states, steps) && j <= k < |states|
    ensures states[j].queued <= states[k].queued
    decreases k
  {
    if j < k {
      QueuedGrows(n, states, steps, j, k - 1);
    }
  }

  /** The writer exits only with everything in the file, and the file is final then. So,
      once it has exited, a queued write is in the file exactly when it was queued before
      the exit; in particular everything queued before the first `aio_close` or `aio_wait`. */
  lemma {:induction false} WrittenIffQueuedBeforeExit(n: nat, states: seq<State>, steps: seq<Step>, j: nat, k: nat)
    requires Run(n, states, steps) && j < k < |states| && WriterGone(states[k])
    requires steps[j].Write? && steps[j].data != []
    ensures states[j + 1].queued <= states[k].file <==> !WriterGone(states[j])
    ensures states[j].finish.Running? ==> states[j + 1].queued <= states[k].file
  {
    RunKeepsInv(n, states, steps, j);
    RunKeepsInv(n, states, steps, j + 1);
    if WriterGone(states[j]) {
      FileFinal(n, states, steps, j, k);
      assert |states[j + 1].queued| > |states[j].queued| >= |states[j].file|;
    } else {
      ExitFlushes(n, states, steps, j + 1, k);
    }
  }

  /** When `aio_wait` returns the writer has exited, and everything queued before the request
      is in the file, unless the writer had exited before it. */
  lemma WaitReturnsWritten(n: nat, states: seq<State>, steps: seq<Step>, j: nat, k: nat, i: nat)
    requires Run(n, states, steps) && j < k < |steps| && steps[j] == SetWait(i) && steps[k] == Join(i)
    ensures WriterGone(states[k])
    ensures !WriterGone(states[j]) ==> states[j].queued <= states[k].file
  {
    if !WriterGone(states[j]) {
      ExitFlushes(n, states, steps, j, k);
    }
  }

  lemma GoneStep(s: State, step: Step)
    requires Inv(s) && Enabled(s, step)
    ensures WriterGone(s) ==> WriterGone(Apply(s, step)) && Apply(s, step).file == s.file
    ensures !WriterGone(s) && WriterGone(Apply(s, step)) ==> Apply(s, step).file == s.queued
  {
  }

  lemma {:induction false} FileFinal(n: nat, states: seq<State>, steps: seq<Step>, j: nat, k: nat)
    requires Run(n, states, steps) && j <= k < |states| && WriterGone(states[j])
    ensures WriterGone(states[k]) && states[k].file == states[j].file
    decreases k
  {
    if j < k {
      FileFinal(n, states, steps, j, k - 1);
      RunKeepsInv(n, states, steps, k - 1);
      GoneStep(states[k - 1], steps[k - 1]);
    }
  }

  lemma {:induction false} ExitFlushes(n: nat, states: seq<State>, steps: seq<Step>, j: nat, k: nat)
    requires Run(n, states, steps) && j <= k < |states|
    requires !WriterGone(states[j]) && WriterGone(states[k])
    ensures states[j].queued <= states[k].file
    decreases k
  {
    hide Apply, Enabled, Inv;
    RunKeepsInv(n, states, steps, k - 1);
    GoneStep(states[k - 1], steps[k - 1]);
    if WriterGone(states[k - 1]) {
      ExitFlushes(n, states, steps, j, k - 1);
    } else {
      QueuedGrows(n, states, steps, j, k - 1);
    }
  }

  /** Steps that read or write the shared structure. */
  predicate Touches(step: Step) {
    !step.Begin? && !step.BeginFree? && !step.Join?
  }

  /** The reference count is the number of holders, the structure is released at most once,
      by the last holder, and no step touches it after that. */
  lemma SafeRelease(n: nat, states: seq<State>, steps: seq<Step>, k: nat)
    requires Run(n, states, steps) && k < |states|
    ensures states[k].refs == Count(!WriterGone(states[k])) + Count(!OwnerGone(states[k]))
    ensures k < |steps| && Touches(steps[k]) ==> states[k].frees == 0
    ensures states[k].frees <= 1
    ensures states[k].frees == 1 ==> states[k].writer.Done? && states[k].owner.Dropped? && AllIdle(states[k].clients)
    ensures states[k].writer.Done? && states[k].owner.Dropped? ==> states[k].frees == 1
  {
    RunKeepsInv(n, states, steps, k);
  }

  /** The file is closed at most once, only for CLOSE, and never written after it; the
      thread handle is given up exactly once, by a join or by `aio_free`. */
  lemma FileAndHandleSettled(n: nat, states: seq<State>, steps: seq<Step>, k: nat)
    requires Run(n, states, steps) && k < |states|
    ensures states[k].closes <= 1 && (states[k].closes == 1 ==> states[k].finish.Close? && WriterGone(states[k]))
    ensures k < |steps| && steps[k].WriterFlush? ==> states[k].closes == 0
    ensures k < |steps| && steps[k] == WriterExit ==> states[k + 1].closes == Count(states[k].finish.Close?)
    ensures OwnerGone(states[k]) ==> states[k].handle.Joined? || states[k].handle.Detached?
    ensures k < |steps| && steps[k].SetWait? ==> states[k].handle == Attached
    ensures k < |steps| && steps[k].Join? ==> states[k].handle == Taken
    ensures k < |steps| && steps[k].OwnerDrop? ==> states[k].handle == Attached || states[k].handle == Joined
    ensures k < |steps| && (states[k].handle.Joined? || states[k].handle.Detached?) ==>
              states[k + 1].handle == states[k].handle
  {
    RunKeepsInv(n, states, steps, k);
  }

  predicate Requests(step: Step) {
    step.SetClose? || step.SetWait?
  }

  /** `finish` tells exactly what was asked for so far; `aio_close` prevails over `aio_wait`,
      in either order. */
  lemma {:induction false} FinishTells(n: nat, states: seq<State>, steps: seq<Step>, k: nat)
    requires Run(n, states, steps) && k < |states|
    ensures states[k].finish.Running? <==> forall j :: 0 <= j < k ==> !Requests(steps[j])
    ensures states[k].finish.Close? <==> exists j :: 0 <= j < k && steps[j].SetClose?
  {
    if k > 0 {
      FinishTells(n, states, steps, k - 1);
      var last := k - 1;
      assert states[k] == Apply(states[last], steps[last]);
      assert steps[last].SetClose? ==> 0 <= last < k && steps[last].SetClose?;
    }
  }

  lemma CloseStep(s: State, step: Step)
    requires Inv(s) && Enabled(s, step) && WriterGone(Apply(s, step))
    ensures Apply(s, step).closes == if WriterGone(s) then s.closes else Count(s.finish.Close?)
    ensures WriterGone(s) || !step.SetClose?
  {
  }

  /** Once the writer has exited, the file is closed if and only if `aio_close` came before
      the exit. */
  lemma {:induction false} ClosedIffRequested(n: nat, states: seq<State>, steps: seq<Step>, k: nat)
    requires Run(n, states, steps) && k < |states| && WriterGone(states[k])
    ensures states[k].closes == 1 <==> exists j :: 0 <= j < k && steps[j].SetClose? && !WriterGone(states[j])
    decreases k
  {
    hide Apply, Inv, Enabled;
    var last := k - 1;
    RunKeepsInv(n, states, steps, last);
    CloseStep(states[last], steps[last]);
    if WriterGone(states[last]) {
      ClosedIffRequested(n, states, steps, last);
    } else {
      FinishTells(n, states, steps, last);
      forall j | 0 <= j < k && steps[j].SetClose?
        ensures !WriterGone(states[j])
      {
        if WriterGone(states[j]) {
          FileFinal(n, states, steps, j, last);
        }
      }
    }
  }

  // ----- nothing can stall

  /** Steps that finish what is under way, as opposed to starting something new. */
  predicate Completes(step: Step) {
    !step.Begin? && !step.BeginFree? && !step.Write?
  }

  ghost predicate Stuck(s: State) {
    forall step :: Completes(step) ==> !Enabled(s, step)
  }

  function ClientWork(c: Client): nat {
    match c
    case Idle => 0
    case Entering(_) => 9
    case Inside(_, _) => 8
    case Signalling(_) => 7
    case Joining => 1
  }

  function ClientsWork(clients: seq<Client>): nat {
    if clients == [] then 0 else ClientWork(clients[0]) + ClientsWork(clients[1..])
  }

  function WriterWork(w: Writer): nat {
    match w
    case WantLock => 3
    case Locked => 2
    case Asleep => 0
    case Flushing(_) => 4
    case Releasing => 1
    case Done => 0
  }

  function OwnerWork(o: Owner): nat {
    match o
    case WantFree => 3
    case Freeing => 2
    case OwnerReleasing => 1
    case _ => 0
  }

  /** A bound on the completing steps that are left. */
  function Work(s: State): nat {
    4 * |s.ring| + 4 * s.sem + WriterWork(s.writer) + OwnerWork(s.owner) + ClientsWork(s.clients)
  }

  lemma {:induction false} ClientsWorkUpdate(clients: seq<Client>, i: nat, c: Client)
    requires i < |clients|
    ensures ClientsWork(clients[i := c]) == ClientsWork(clients) - ClientWork(clients[i]) + ClientWork(c)
  {
    if i == 0 {
      assert clients[0 := c][1..] == clients[1..];
    } else {
      assert clients[i := c][1..] == clients[1..][i - 1 := c];
      ClientsWorkUpdate(clients[1..], i - 1, c);
    }
  }

  lemma CompletingDecreasesWork(s: State, step: Step)
    requires Enabled(s, step) && Completes(step)
    ensures Work(Apply(s, step)) < Work(s)
  {
    var t := Apply(s, step);
    match step {
      case Acquire(i) => ClientsWorkUpdate(s.clients, i, t.clients[i]);
      case Unlock(i) => ClientsWorkUpdate(s.clients, i, t.clients[i]);
      case SetClose(i) => ClientsWorkUpdate(s.clients, i, t.clients[i]);
      case SetWait(i) => ClientsWorkUpdate(s.clients, i, t.clients[i]);
      case Signal(i) => ClientsWorkUpdate(s.clients, i, t.clients[i]);
      case Join(i) => ClientsWorkUpdate(s.clients, i, t.clients[i]);
      case _ =>
    }
  }

  /** Nothing is pending: nobody holds or waits for the lock, every call has returned, and
      the writer has exited, or sleeps with all bytes in the file and nobody having asked
      it to finish. */
  ghost predicate AtRest(s: State) {
    && s.lock.Nobody? && AllIdle(s.clients) && (s.owner.Holding? || s.owner.Dropped?)
    && (s.writer.Done? || (s.writer.Asleep? && s.finish.Running? && s.file == s.queued))
  }

  /** No deadlock: where something is pending, some step completes a part of it. */
  lemma NextCompletion(s: State) returns (step: Step)
    requires Inv(s) && !AtRest(s)
    ensures Completes(step) && Enabled(s, step)
  {
    if !s.lock.Nobody? {
      step := HolderCanGoOn(s);
    } else if !AllIdle(s.clients) {
      step := ClientCanGoOn(s);
    } else if s.owner.WantFree? {
      step := OwnerAcquire;
    } else if s.owner.OwnerReleasing? {
      step := OwnerRelease;
    } else {
      step := WriterCanGoOn(s);
    }
  }

  lemma HolderCanGoOn(s: State) returns (step: Step)
    requires Inv(s) && !s.lock.Nobody?
    ensures Completes(step) && Enabled(s, step)
  {
    if s.lock.ByWriter? {
      step := if s.ring != [] then WriterDrain else if s.finish.Running? then WriterSleep else WriterExit;
    } else if s.lock.ByOwner? {
      step := OwnerDrop;
    } else {
      var i := s.lock.i;
      step := match s.clients[i].op
        case OpWrite => Unlock(i)
        case OpClose => SetClose(i)
        case OpWait => SetWait(i);
    }
  }

  lemma ClientCanGoOn(s: State) returns (step: Step)
    requires Inv(s) && s.lock.Nobody? && !AllIdle(s.clients)
    ensures Completes(step) && Enabled(s, step)
  {
    var i :| 0 <= i < |s.clients| && s.clients[i] != Idle;
    if s.clients[i].Entering? {
      step := Acquire(i);
    } else if s.clients[i].Signalling? {
      step := Signal(i);
    } else if s.writer.Done? {
      step := Join(i);
    } else if s.writer.Asleep? && s.sem == 0 {
      // the join follows a change of finish, so somebody's signal is still to come
      var j :| 0 <= j < |s.clients| && Owes(s.clients[j]);
      step := Signal(j);
    } else {
      step := WriterCanGoOn(s);
    }
  }

  lemma WriterCanGoOn(s: State) returns (step: Step)
    requires Inv(s) && s.lock.Nobody?
    requires !s.writer.Done? && (s.writer.Asleep? ==> s.sem > 0)
    ensures Completes(step) && Enabled(s, step)
  {
    step := match s.writer
      case WantLock => WriterAcquire
      case Asleep => WriterWake
      case Flushing(_) => WriterFlush
      case _ => WriterRelease;
  }

  /** From every reachable state, finishing what is under way takes at most `Work` steps
      whatever the order, and it stops only where all calls have returned and the writer
      has exited or has put everything in the file; after a request to finish and `aio_free`
      the structure is released there. */
  lemma {:induction false} EveryCompletionFlushes(n: nat, states: seq<State>, steps: seq<Step>, from: nat)
    requires Run(n, states, steps) && from < |states|
    requires forall k :: from <= k < |steps| ==> Completes(steps[k])
    ensures |steps| - from <= Work(states[from])
    ensures
      var end := states[|states| - 1];
      Stuck(end) ==>
        && AtRest(end)
        && (end.writer.Done? || end.file == Payload(steps))
        && (!end.finish.Running? ==> end.writer.Done?)
        && (!end.finish.Running? && !end.owner.Holding? ==> end.frees == 1)
  {
    WorkBoundsSteps(n, states, steps, from);
    var last := |states| - 1;
    RunKeepsInv(n, states, steps, last);
    QueuedIsPayload(n, states, steps, last);
    assert steps[..last] == steps;
    if !AtRest(states[last]) {
      var step := NextCompletion(states[last]);
    }
  }

  lemma {:induction false} WorkBoundsSteps(n: nat, states: seq<State>, steps: seq<Step>, from: nat)
    requires Run(n, states, steps) && from < |states|
    requires forall k :: from <= k < |steps| ==> Completes(steps[k])
    ensures |steps| - from <= Work(states[from])
    decreases |steps| - from
  {
    if from < |steps| {
      CompletingDecreasesWork(states[from], steps[from]);
      WorkBoundsSteps(n, states, steps, from + 1);
    }
  }

  // ----- a run to the end

  /** The steps lead to the state. */
  ghost predicate LeadTo(n: nat, steps: seq<Step>, s: State) {
    exists states :: Run(n, states, steps) && states[|steps|] == s
  }

  lemma OneMore(n: nat, steps: seq<Step>, s: State, step: Step) returns (longer: seq<Step>, t: State)
    requires LeadTo(n, steps, s) && Enabled(s, step)
    ensures longer == steps + [step] && t == Apply(s, step) && LeadTo(n, longer, t)
  {
    hide Enabled, Apply;
    longer, t := steps + [step], Apply(s, step);
    var states :| Run(n, states, steps) && states[|steps|] == s;
    assert Run(n, states + [t], longer);
  }

  lemma NoSteps(n: nat)
    ensures LeadTo(n, [], Init(n))
  {
    assert Run(n, [Init(n)], []);
  }

  /** A call up to its critical section. */
  lemma EnterOne(before: seq<Step>, s: State, op: Operation) returns (steps: seq<Step>, t: State)
    requires LeadTo(1, before, s)
    requires s.clients == [Idle] && s.owner.Holding? && s.lock.Nobody? && !op.OpWait?
    ensures LeadTo(1, steps, t)
    ensures t == s.(lock := ByClient(0), clients := [Inside(op, [])])
  {
    hide LeadTo;
    steps, t := OneMore(1, before, s, Begin(0, op));
    steps, t := OneMore(1, steps, t, Acquire(0));
    assert t.clients == [Inside(op, [])];
  }

  /** The steps of one `aio_close`. */
  lemma CloseOne(before: seq<Step>, s: State) returns (steps: seq<Step>, t: State)
    requires LeadTo(1, before, s)
    requires s.clients == [Idle] && s.owner.Holding? && s.lock.Nobody?
    ensures LeadTo(1, steps, t)
    ensures t == s.(clients := [Idle], finish := Close, sem := s.sem + 1)
  {
    hide LeadTo;
    steps, t := EnterOne(before, s, OpClose);
    steps, t := OneMore(1, steps, t, SetClose(0));
    steps, t := OneMore(1, steps, t, Signal(0));
    assert t.clients == [Idle];
  }

  lemma ExitOne(before: seq<Step>, s: State) returns (steps: seq<Step>, t: State)
    requires LeadTo(1, before, s)
    requires s.writer.WantLock? && s.lock.Nobody? && s.ring == [] && s.finish.Close? && s.refs == 2
    ensures LeadTo(1, steps, t)
    ensures t == s.(writer := Done, refs := 1, closes := s.closes + 1)
  {
    hide LeadTo;
    steps, t := OneMore(1, before, s, WriterAcquire);
    steps, t := OneMore(1, steps, t, WriterExit);
  }

  lemma FreeOne(before: seq<Step>, s: State) returns (steps: seq<Step>, t: State)
    requires LeadTo(1, before, s)
    requires s.clients == [Idle] && s.owner.Holding? && s.lock.Nobody? && s.refs == 1 && s.handle.Attached?
    ensures LeadTo(1, steps, t)
    ensures t == s.(owner := Dropped, refs := 0, handle := Detached, frees := s.frees + 1)
  {
    hide LeadTo;
    steps, t := OneMore(1, before, s, BeginFree);
    steps, t := OneMore(1, steps, t, OwnerAcquire);
    steps, t := OneMore(1, steps, t, OwnerDrop);
    steps, t := OneMore(1, steps, t, OwnerRelease);
  }

  /** The steps of one `aio_write`. */
  lemma WriteOne(before: seq<Step>, s: State) returns (steps: seq<Step>, t: State)
    requires LeadTo(1, before, s)
    requires s.clients == [Idle] && s.owner.Holding? && s.lock.Nobody? && s.ring == []
    ensures LeadTo(1, steps, t)
    ensures t == s.(clients := [Idle], ring := [7], queued := s.queued + [7], sem := s.sem + 1)
  {
    hide LeadTo;
    steps, t := EnterOne(before, s, OpWrite);
    steps, t := OneMore(1, steps, t, Write(0, [7]));
    steps, t := OneMore(1, steps, t, Unlock(0));
    steps, t := OneMore(1, steps, t, Signal(0));
    assert t.clients == [Idle] && t.ring == [7];
  }

  /** A write that comes after the exit never reaches the file: here the only client closes,
      the writer exits, the client writes a byte, and the owner releases the structure. */
  lemma LateWriteStays() returns (steps: seq<Step>, end: State)
    ensures LeadTo(1, steps, end)
    ensures end.frees == 1 && end.closes == 1 && end.file == [] && end.queued == [7]
  {
    hide LeadTo, Enabled, Apply;
    NoSteps(1);
    steps, end := CloseOne([], Init(1));
    steps, end := ExitOne(steps, end);
    steps, end := WriteOne(steps, end);
    steps, end := FreeOne(steps, end);
  }
}
