/** The ring under the protocol: array and positions change as the ring's operations say, in
    every interleaving of the threads. */
module AsyncSystem {
  import opened Arithmetic
  import opened Bytes
  import opened AsyncRing
  import opened AsyncProtocol

  /** What a step does to array and positions. */
  ghost predicate StoreStep(c: Store, step: Step, d: Store)
    requires IsStore(c)
  {
    match step
    case Write(_, data) => Puts(c, data, d)
    case WriterDrain => Drains(c, d, Drained(QueueOf(c)))
    case _ => d == c
  }

  ghost predicate IsNew(c: Store) {
    |c.buf| == ASYNC_BUFSIZE && c.readPos == 0 && c.writePos == 0
  }

  /** The arrays and positions along the steps of a run. */
  ghost predicate Stores(stores: seq<Store>, steps: seq<Step>) {
    && |stores| == |steps| + 1
    && IsNew(stores[0])
    && forall k :: 0 <= k < |steps| ==> IsStore(stores[k]) && StoreStep(stores[k], steps[k], stores[k + 1])
  }

  ghost predicate Couples(c: Store, s: State) {
    IsStore(c) && QueueOf(c) == s.ring
  }

  lemma NewCouples(n: nat, c: Store)
    requires IsNew(c)
    ensures Couples(c, Init(n))
  {
    assert Shifted(0) == ASYNC_BUFSIZE;
  }

  /** Every step that is enabled keeps the ring and the queue of the protocol together. */
  lemma StepKeepsCoupling(s: State, step: Step, c: Store, d: Store)
    requires Enabled(s, step) && Couples(c, s) && StoreStep(c, step, d)
    ensures Couples(d, Apply(s, step))
  {
    hide Queue, Puts, Drains, RingSize;
    match step {
      case Write(_, data) => PutsQueue(c, data, d);
      case WriterDrain => DrainsQueue(c, d, Drained(QueueOf(c)));
      case _ =>
    }
  }

  lemma {:induction false} RunCouples(n: nat, states: seq<State>, steps: seq<Step>, stores: seq<Store>, k: nat)
    requires Run(n, states, steps) && Stores(stores, steps) && k < |states|
    ensures Couples(stores[k], states[k])
  {
    hide StoreStep, Couples, Apply, Enabled, IsNew;
    if k == 0 {
      NewCouples(n, stores[0]);
    } else {
      RunCouples(n, states, steps, stores, k - 1);
      StepKeepsCoupling(states[k - 1], steps[k - 1], stores[k - 1], stores[k]);
    }
  }

  /** In every interleaving the file, the local buffer and what stands in the array between
      the positions are all the writes so far; the positions are equal exactly when nothing
      is queued, so the writer thread goes to sleep or exits only then. */
  lemma ArrayConserves(n: nat, states: seq<State>, steps: seq<Step>, stores: seq<Store>, k: nat)
    requires Run(n, states, steps) && Stores(stores, steps) && k < |states|
    ensures IsStore(stores[k])
    ensures states[k].file + InFlight(states[k]) + QueueOf(stores[k]) == Payload(steps[..k])
    ensures stores[k].readPos == stores[k].writePos <==> states[k].ring == []
  {
    RunCouples(n, states, steps, stores, k);
    BytesConserved(n, states, steps, k);
  }

  // ----- every run has its arrays

  lemma {:induction false} RoomFor(size: nat, need: nat) returns (next: nat)
    requires RingSize(size) && size < need <= MAX_RING
    ensures RingSize(next) && need <= next < 2 * need
    decreases MAX_RING - size
  {
    hide RingSize;
    RingSizeBounds(size);
    if 2 * size >= need {
      next := 2 * size;
    } else {
      next := RoomFor(2 * size, need);
    }
  }

  lemma StepHasStore(s: State, step: Step, c: Store) returns (d: Store)
    requires Enabled(s, step) && Couples(c, s)
    ensures StoreStep(c, step, d)
  {
    d := c;
    if step.WriterDrain? {
      d := c.(readPos := (c.readPos + Drained(QueueOf(c))) % |c.buf|);
    } else if step.Write? {
      d := PutsSomething(c, step.data);
    }
  }

  lemma PutsSomething(c: Store, data: seq<byte>) returns (d: Store)
    requires IsStore(c) && |QueueOf(c)| + |data| + 1 <= MAX_RING
    ensures Puts(c, data, d)
  {
    hide QueueOf, RingSize, Spliced;
    var len := |QueueOf(c)|;
    if FitsIn(c, len, |data|) {
      var first := |c.buf| - c.writePos;
      var buf := if |data| > first then Spliced(Spliced(c.buf, c.writePos, data[..first]), 0, data[first..])
                 else Spliced(c.buf, c.writePos, data);
      d := Store(buf, c.readPos, (c.writePos + |data|) % |c.buf|);
    } else {
      var size := RoomFor(|c.buf|, len + |data| + 1);
      var front := QueueOf(c) + data;
      d := Store(front + seq(size - |front|, _ => 0), 0, |front|);
      assert d.buf[..|front|] == front;
    }
  }

  lemma {:induction false} RunHasStores(n: nat, states: seq<State>, steps: seq<Step>) returns (stores: seq<Store>)
    requires Run(n, states, steps)
    ensures Stores(stores, steps)
    decreases |steps|
  {
    hide StoreStep, Couples, Apply, Enabled;
    if steps == [] {
      stores := [Store(seq(ASYNC_BUFSIZE, _ => 0), 0, 0)];
    } else {
      var last := |steps| - 1;
      stores := RunHasStores(n, states[..|steps|], steps[..last]);
      RunCouples(n, states[..|steps|], steps[..last], stores, last);
      assert IsStore(stores[last]) by { CouplesIsStore(stores[last], states[last]); }
      var d := StepHasStore(states[last], steps[last], stores[last]);
      stores := stores + [d];
    }
  }

  lemma CouplesIsStore(c: Store, s: State)
    requires Couples(c, s)
    ensures IsStore(c)
  {
  }
}
