/** The strict-priority thread kernel: a 33-slot registry, the ready and
    delayed sets as 32-bit words (slot `p > 0` owns bit `p - 1`, the idle
    slot 0 owns none), per-thread timeouts, and the `current`/`next` slots
    with the context-switch request that the PendSV handler serves. A thread
    is identified by its slot, since `rtos_thread_create` stores it at the
    slot equal to its priority. */
module Rtos {
  import opened Common
  import opened Bits
  import opened StackFrame

  /** Number of registry slots: the idle slot 0 and one per bit. */
  const SLOTS: nat := 33

  /** The idle thread's slot, `RTOS_IDLE_THREAD_PRIORITY`. */
  const IDLE: nat := 0

  /** A thread control block: saved stack pointer (a word index into the
      thread's own stack region), remaining delay ticks, priority. */
  datatype Thread = Thread(sp: nat, timeout: u32, priority: nat)

  /** The kernel's globals. `current` and `next` are `None` for NULL;
      `switchPending` is the PendSV "set pending" bit. */
  datatype Kernel = Kernel(
    threads: seq<Option<Thread>>,
    ready: bv32,
    delayed: bv32,
    current: Option<nat>,
    next: Option<nat>,
    switchPending: bool)

  /** The kernel before any thread exists: every slot NULL, both sets empty. */
  function Empty(): (k: Kernel)
    ensures |k.threads| == SLOTS
    ensures forall p | 0 <= p < SLOTS :: k.threads[p].None?
    ensures forall c: bv5 :: !Bit(k.ready, c) && !Bit(k.delayed, c)
  {
    Kernel(seq(SLOTS, _ => None), 0, 0, None, None, false)
  }

  /** Whether slot `p` holds a thread. */
  predicate Registered(k: Kernel, p: nat)
  {
    p < |k.threads| && k.threads[p].Some?
  }

  /** The kernel invariant: a 33-slot registry whose threads sit at the slot
      of their priority; the ready and delayed sets are disjoint and hold only
      bits of registered slots; `current` and `next` name registered slots. */
  ghost predicate Inv(k: Kernel)
  {
    && |k.threads| == SLOTS
    && (forall p | 0 <= p < SLOTS && k.threads[p].Some? :: k.threads[p].value.priority == p)
    && (forall c: bv5 :: Bit(k.ready, c) ==> Registered(k, SlotOf(c)))
    && (forall c: bv5 :: Bit(k.delayed, c) ==> Registered(k, SlotOf(c)))
    && (forall c: bv5 :: !(Bit(k.ready, c) && Bit(k.delayed, c)))
    && (k.current.Some? ==> Registered(k, k.current.value))
    && (k.next.Some? ==> Registered(k, k.next.value))
  }

  /** Every delayed thread still has ticks to wait: what `rtos_tick` asserts
      of each thread it visits. */
  ghost predicate Armed(k: Kernel)
  {
    forall c: bv5 :: Bit(k.delayed, c) ==>
      Registered(k, SlotOf(c)) && k.threads[SlotOf(c)].value.timeout != 0
  }

  /** The slot `rtos_schedule` picks from the ready set: the idle slot when
      nothing is ready (NULL if the idle thread was never created), else
      `LOG2(ready)`, the highest ready slot. */
  function Pick(ready: bv32, idle: Option<Thread>): (r: Option<nat>)
    ensures ready == 0 ==> r == (if idle.Some? then Some(IDLE) else None)
    ensures ready != 0 ==> r.Some? && IsHighest(ready, r.value)
  {
    if ready == 0 then
      if idle.Some? then Some(IDLE) else None
    else
      var p := Log2(ready);
      Log2Highest(ready);
      Some(p)
  }

  /** `rtos_schedule`: set `next` to the pick and request a switch when it
      differs from `current`. The `DBC_ASSERT` on the picked slot becomes the
      precondition. */
  function Schedule(k: Kernel): (r: Kernel)
    requires |k.threads| == SLOTS
    requires k.ready != 0 ==> Registered(k, Log2(k.ready))
    ensures r.next == Pick(k.ready, k.threads[IDLE])
    ensures r.next != k.current ==> r.switchPending
    ensures r.switchPending && !k.switchPending ==> r.next != k.current
    ensures r.(next := k.next, switchPending := k.switchPending) == k
  {
    var next := Pick(k.ready, k.threads[IDLE]);
    k.(next := next, switchPending := k.switchPending || next != k.current)
  }

  /** The invariant gives `rtos_schedule` its `DBC_ASSERT`. */
  lemma InvSchedulable(k: Kernel)
    requires Inv(k)
    ensures k.ready != 0 ==> Registered(k, Log2(k.ready))
  {
    if k.ready != 0 {
      Log2Highest(k.ready);
    }
  }

  /** Scheduling keeps the invariant. */
  lemma ScheduleInv(k: Kernel)
    requires Inv(k)
    ensures k.ready != 0 ==> Registered(k, Log2(k.ready))
    ensures Inv(Schedule(k))
  {
    InvSchedulable(k);
  }

  /** Scheduling twice in a row picks the same slot and leaves the same
      switch request as scheduling once. */
  lemma ScheduleIdempotent(k: Kernel)
    requires |k.threads| == SLOTS
    requires k.ready != 0 ==> Registered(k, Log2(k.ready))
    ensures Schedule(Schedule(k)) == Schedule(k)
  {
  }

  /** The PendSV handler, abstracted: `rtos_current = rtos_next` and the
      request is served. */
  function Switch(k: Kernel): (r: Kernel)
    ensures r.current == k.next && !r.switchPending
    ensures r.(current := k.current, switchPending := k.switchPending) == k
  {
    k.(current := k.next, switchPending := false)
  }

  /** After a switch the running thread is the scheduled one, so scheduling
      again with unchanged sets requests nothing. */
  lemma SwitchThenScheduleQuiet(k: Kernel)
    requires |k.threads| == SLOTS
    requires k.ready != 0 ==> Registered(k, Log2(k.ready))
    ensures !Schedule(Switch(Schedule(k))).switchPending
  {
  }

  /** The kernel side of `rtos_thread_create`: store the control block at
      slot `priority` with its saved stack pointer and priority, and mark the
      slot ready unless it is the idle slot. The two `DBC_REQUIRE`s (slot in
      range, slot empty) are the preconditions. */
  function Create(k: Kernel, self: Thread, sp: nat, priority: nat): (r: Kernel)
    requires |k.threads| == SLOTS
    requires priority < SLOTS
    requires k.threads[priority].None?
    ensures r.threads == k.threads[priority := Some(self.(sp := sp, priority := priority))]
    ensures priority == IDLE ==> r.ready == k.ready
    ensures forall c: bv5 :: Bit(r.ready, c) == (Bit(k.ready, c) || SlotOf(c) == priority)
    ensures r.delayed == k.delayed && r.current == k.current && r.next == k.next
    ensures r.switchPending == k.switchPending
  {
    var threads := k.threads[priority := Some(self.(sp := sp, priority := priority))];
    if priority > 0 then
      var b := BitOf(priority);
      forall c: bv5 ensures Bit(Set(k.ready, b), c) == (Bit(k.ready, c) || SlotOf(c) == priority) {
        SetBitLemma(k.ready, b, c);
        SlotInjective(b, c);
      }
      k.(threads := threads, ready := Set(k.ready, b))
    else
      forall c: bv5 ensures SlotOf(c) != priority {}
      k.(threads := threads)
  }

  /** Creating a thread in an empty slot keeps the invariant and the armed
      property. */
  lemma CreateInv(k: Kernel, self: Thread, sp: nat, priority: nat)
    requires Inv(k) && Armed(k)
    requires priority < SLOTS && k.threads[priority].None?
    ensures Inv(Create(k, self, sp, priority)) && Armed(Create(k, self, sp, priority))
  {
    var r := Create(k, self, sp, priority);
    forall c: bv5
      ensures Bit(r.ready, c) ==> Registered(r, SlotOf(c))
    {
    }
    forall c: bv5
      ensures Bit(r.delayed, c) ==> r.threads[SlotOf(c)] == k.threads[SlotOf(c)]
    {
    }
    forall c: bv5
      ensures !(Bit(r.ready, c) && Bit(r.delayed, c))
    {
    }
  }

  /** `rtos_init` (kernel side): create the idle thread at slot 0 of the
      empty kernel. It is never ready; scheduling with nothing else ready
      picks it. */
  function Init(idle: Thread, sp: nat): (r: Kernel)
    ensures Inv(r) && Armed(r)
    ensures Registered(r, IDLE) && r.ready == 0 && r.delayed == 0
    ensures Pick(r.ready, r.threads[IDLE]) == Some(IDLE)
  {
    var e := Empty();
    var r := Create(e, idle, sp, IDLE);
    r
  }

  /** `rtos_run` (kernel side): the first scheduling decision. No thread
      runs yet, so any pick raises the switch request that starts it; only
      `next` and the request change. */
  function Run(k: Kernel): (r: Kernel)
    requires Inv(k)
    ensures r.next == Pick(k.ready, k.threads[IDLE]) && Inv(r)
    ensures r.next != k.current ==> r.switchPending
    ensures r.switchPending && !k.switchPending ==> r.next != k.current
    ensures r.(next := k.next, switchPending := k.switchPending) == k
  {
    ScheduleInv(k);
    Schedule(k)
  }

  /** What `rtos_tick` asserts of every thread it visits, and what computing
      `1U << (priority - 1U)` needs: each delayed slot holds a thread whose
      priority is its slot and whose timeout is not yet zero. */
  ghost predicate TickSafe(k: Kernel)
  {
    forall c: bv5 :: Bit(k.delayed, c) ==>
      && Registered(k, SlotOf(c))
      && k.threads[SlotOf(c)].value.priority == SlotOf(c)
      && k.threads[SlotOf(c)].value.timeout != 0
  }

  /** A thread's timeout after one tick (`--thread->timeout`); a zero
      timeout, which `rtos_tick` rejects before decrementing, is kept. */
  function CountDown(o: Option<Thread>): Option<Thread>
  {
    if o.Some? && o.value.timeout > 0 then Some(o.value.(timeout := o.value.timeout - 1)) else o
  }

  /** The thread owning bit `c` is due this tick: its timeout is 1. */
  ghost predicate Expires(k: Kernel, c: bv5)
  {
    Registered(k, SlotOf(c)) && k.threads[SlotOf(c)].value.timeout == 1
  }

  /** One tick, stated slot by slot: every delayed thread counts down once;
      those that reach zero move from delayed to ready; nothing else changes. */
  ghost predicate TickStep(k: Kernel, r: Kernel)
  {
    && |k.threads| == SLOTS && |r.threads| == SLOTS
    && r.threads[IDLE] == k.threads[IDLE]
    && r.current == k.current && r.next == k.next && r.switchPending == k.switchPending
    && (forall c: bv5 :: r.threads[SlotOf(c)] ==
          if Bit(k.delayed, c) then CountDown(k.threads[SlotOf(c)]) else k.threads[SlotOf(c)])
    && (forall c: bv5 :: Bit(r.ready, c) == (Bit(k.ready, c) || (Bit(k.delayed, c) && Expires(k, c))))
    && (forall c: bv5 :: Bit(r.delayed, c) == (Bit(k.delayed, c) && !Expires(k, c)))
  }

  /** Bit `c` was delayed at the start of the tick and the loop has already
      visited it (it is no longer in the working set). */
  ghost predicate Visited(k0: Kernel, ws: bv32, c: bv5)
  {
    Bit(k0.delayed, c) && !Bit(ws, c)
  }

  /** The working set holds only delayed bits. */
  ghost predicate WorkInDelayed(k0: Kernel, ws: bv32)
  {
    forall c: bv5 :: Bit(ws, c) ==> Bit(k0.delayed, c)
  }

  /** Visited threads are counted down; the others are untouched. */
  ghost predicate ThreadsSoFar(k0: Kernel, k: Kernel, ws: bv32)
  {
    && |k0.threads| == SLOTS && |k.threads| == SLOTS
    && forall c: bv5 :: k.threads[SlotOf(c)] ==
         if Visited(k0, ws, c) then CountDown(k0.threads[SlotOf(c)]) else k0.threads[SlotOf(c)]
  }

  /** Visited threads that fell due have joined the ready set. */
  ghost predicate ReadySoFar(k0: Kernel, k: Kernel, ws: bv32)
  {
    forall c: bv5 :: Bit(k.ready, c) == (Bit(k0.ready, c) || (Visited(k0, ws, c) && Expires(k0, c)))
  }

  /** Visited threads that fell due have left the delayed set. */
  ghost predicate DelayedSoFar(k0: Kernel, k: Kernel, ws: bv32)
  {
    forall c: bv5 :: Bit(k.delayed, c) == (Bit(k0.delayed, c) && !(Visited(k0, ws, c) && Expires(k0, c)))
  }

  /** The `rtos_tick` loop invariant: the working set is what remains of the
      delayed set, visited threads are counted down (and moved when due), and
      unvisited ones are untouched. */
  ghost predicate TickInv(k0: Kernel, k: Kernel, ws: bv32)
  {
    && |k0.threads| == SLOTS && |k.threads| == SLOTS
    && k.threads[IDLE] == k0.threads[IDLE]
    && k.current == k0.current && k.next == k0.next && k.switchPending == k0.switchPending
    && WorkInDelayed(k0, ws)
    && ThreadsSoFar(k0, k, ws)
    && ReadySoFar(k0, k, ws)
    && DelayedSoFar(k0, k, ws)
  }

  /** One pass of the `rtos_tick` loop body on the thread at slot `p`:
      `--timeout`, and when that reaches zero, set its ready bit and clear its
      delayed bit. */
  function TickOne(k: Kernel, p: nat): (r: Kernel)
    requires |k.threads| == SLOTS && 1 <= p <= 32 && Registered(k, p)
    requires k.threads[p].value.priority == p && k.threads[p].value.timeout != 0
  {
    var t := k.threads[p].value;
    var bit := BitOf(t.priority);
    var due := t.timeout - 1 == 0;
    k.(threads := k.threads[p := CountDown(k.threads[p])],
       ready := if due then Set(k.ready, bit) else k.ready,
       delayed := if due then Clear(k.delayed, bit) else k.delayed)
  }

  /** `rtos_tick`: visit the delayed threads from the highest slot down,
      clearing each visited bit from the working set, which is what makes the
      loop end. */
  method Tick(k: Kernel) returns (r: Kernel)
    requires |k.threads| == SLOTS
    requires TickSafe(k)
    ensures TickStep(k, r)
  {
    r := k;
    var workingSet := k.delayed;
    while workingSet != 0
      invariant TickInv(k, r, workingSet)
      decreases Log2(workingSet)
    {
      var p := Log2(workingSet);
      Log2Decreases(workingSet);
      TickVisit(k, r, workingSet);
      r := TickOne(r, p);
      workingSet := Clear(workingSet, BitOf(p));
    }
    TickFinished(k, r);
  }

  /** The loop body keeps the loop invariant. */
  lemma TickVisit(k0: Kernel, k: Kernel, ws: bv32)
    requires TickSafe(k0) && TickInv(k0, k, ws) && ws != 0
    ensures 1 <= Log2(ws) <= 32 && Registered(k, Log2(ws))
    ensures k.threads[Log2(ws)].value.priority == Log2(ws)
    ensures k.threads[Log2(ws)].value.timeout != 0
    ensures TickInv(k0, TickOne(k, Log2(ws)), Clear(ws, BitOf(Log2(ws))))
  {
    Log2Highest(ws);
    var p := Log2(ws);
    var b := BitOf(p);
    assert !Visited(k0, ws, b);
    assert k.threads[p] == k0.threads[p];
    WorkStep(k0, ws, b);
    ThreadsStep(k0, k, ws, p);
    ReadyStep(k0, k, ws, p);
    DelayedStep(k0, k, ws, p);
  }

  /** Clearing a delayed bit from the working set marks exactly it visited. */
  lemma WorkStep(k0: Kernel, ws: bv32, b: bv5)
    requires WorkInDelayed(k0, ws) && Bit(ws, b)
    ensures WorkInDelayed(k0, Clear(ws, b))
    ensures forall c: bv5 :: Visited(k0, Clear(ws, b), c) == (Visited(k0, ws, c) || c == b)
  {
    forall c: bv5
      ensures Bit(Clear(ws, b), c) == (Bit(ws, c) && b != c)
    {
      ClearBitLemma(ws, b, c);
    }
  }

  /** The visit counts down exactly the visited thread. */
  lemma ThreadsStep(k0: Kernel, k: Kernel, ws: bv32, p: nat)
    requires ThreadsSoFar(k0, k, ws) && WorkInDelayed(k0, ws)
    requires 1 <= p <= 32 && Bit(ws, BitOf(p)) && Registered(k, p)
    requires k.threads[p].value.priority == p && k.threads[p].value.timeout != 0
    ensures ThreadsSoFar(k0, TickOne(k, p), Clear(ws, BitOf(p)))
  {
    var b := BitOf(p);
    WorkStep(k0, ws, b);
    var r := TickOne(k, p);
    forall c: bv5
      ensures r.threads[SlotOf(c)] ==
        if Visited(k0, Clear(ws, b), c) then CountDown(k0.threads[SlotOf(c)]) else k0.threads[SlotOf(c)]
    {
      ThreadAt(k0, k, ws, b, c);
    }
  }

  /** `ThreadsStep` for one slot. */
  lemma ThreadAt(k0: Kernel, k: Kernel, ws: bv32, b: bv5, c: bv5)
    requires |k0.threads| == SLOTS && |k.threads| == SLOTS
    requires k.threads[SlotOf(b)] == k0.threads[SlotOf(b)]
    requires k.threads[SlotOf(c)] ==
      if Visited(k0, ws, c) then CountDown(k0.threads[SlotOf(c)]) else k0.threads[SlotOf(c)]
    requires Visited(k0, Clear(ws, b), c) == (Visited(k0, ws, c) || c == b)
    ensures k.threads[SlotOf(b) := CountDown(k.threads[SlotOf(b)])][SlotOf(c)] ==
      if Visited(k0, Clear(ws, b), c) then CountDown(k0.threads[SlotOf(c)]) else k0.threads[SlotOf(c)]
  {
    SlotInjective(b, c);
  }

  /** The visit adds the visited thread to the ready set exactly when due. */
  lemma ReadyStep(k0: Kernel, k: Kernel, ws: bv32, p: nat)
    requires ReadySoFar(k0, k, ws) && ThreadsSoFar(k0, k, ws) && WorkInDelayed(k0, ws)
    requires 1 <= p <= 32 && Bit(ws, BitOf(p)) && Registered(k, p)
    requires k.threads[p].value.priority == p && k.threads[p].value.timeout != 0
    ensures ReadySoFar(k0, TickOne(k, p), Clear(ws, BitOf(p)))
  {
    var b := BitOf(p);
    WorkStep(k0, ws, b);
    assert k.threads[p] == k0.threads[p];
    var due := Expires(k0, b);
    var r := TickOne(k, p);
    assert r.ready == if due then Set(k.ready, b) else k.ready;
    forall c: bv5
      ensures Bit(r.ready, c) == (Bit(k0.ready, c) || (Visited(k0, Clear(ws, b), c) && Expires(k0, c)))
    {
      SetBitLemma(k.ready, b, c);
    }
  }

  /** The visit removes the visited thread from the delayed set exactly when
      due. */
  lemma DelayedStep(k0: Kernel, k: Kernel, ws: bv32, p: nat)
    requires DelayedSoFar(k0, k, ws) && ThreadsSoFar(k0, k, ws) && WorkInDelayed(k0, ws)
    requires 1 <= p <= 32 && Bit(ws, BitOf(p)) && Registered(k, p)
    requires k.threads[p].value.priority == p && k.threads[p].value.timeout != 0
    ensures DelayedSoFar(k0, TickOne(k, p), Clear(ws, BitOf(p)))
  {
    var b := BitOf(p);
    WorkStep(k0, ws, b);
    assert k.threads[p] == k0.threads[p];
    var due := Expires(k0, b);
    var r := TickOne(k, p);
    assert r.delayed == if due then Clear(k.delayed, b) else k.delayed;
    forall c: bv5
      ensures Bit(r.delayed, c) == (Bit(k0.delayed, c) && !(Visited(k0, Clear(ws, b), c) && Expires(k0, c)))
    {
      ClearBitLemma(k.delayed, b, c);
    }
  }

  /** With the working set empty, every delayed thread has been visited. */
  lemma TickFinished(k0: Kernel, k: Kernel)
    requires TickInv(k0, k, 0)
    ensures TickStep(k0, k)
  {
    forall c: bv5
      ensures Visited(k0, 0, c) == Bit(k0.delayed, c)
    {
    }
  }

  /** In a reachable state, `rtos_tick`'s assertions hold whenever every
      delayed thread is armed. */
  lemma TickSafeFromInv(k: Kernel)
    requires Inv(k) && Armed(k)
    ensures TickSafe(k)
  {
  }

  /** A tick neither adds nor removes threads, nor changes priorities. */
  lemma TickShape(k: Kernel, r: Kernel, p: nat)
    requires TickStep(k, r) && p < SLOTS
    ensures r.threads[p].Some? == k.threads[p].Some?
    ensures r.threads[p].Some? ==> r.threads[p].value.priority == k.threads[p].value.priority
  {
    if p != IDLE {
      var c := BitOf(p);
      assert r.threads[SlotOf(c)] ==
        if Bit(k.delayed, c) then CountDown(k.threads[SlotOf(c)]) else k.threads[SlotOf(c)];
    }
  }

  /** A tick keeps the invariant and, since only threads still owed ticks
      stay delayed, keeps every delayed thread armed. */
  lemma TickInvariant(k: Kernel, r: Kernel)
    requires Inv(k) && Armed(k) && TickStep(k, r)
    ensures Inv(r) && Armed(r)
  {
    forall p | 0 <= p < SLOTS && r.threads[p].Some?
      ensures r.threads[p].value.priority == p
    {
      TickShape(k, r, p);
    }
    forall c: bv5
      ensures Bit(r.ready, c) ==> Registered(r, SlotOf(c))
      ensures Bit(r.delayed, c) ==> Registered(r, SlotOf(c)) && r.threads[SlotOf(c)].value.timeout != 0
      ensures !(Bit(r.ready, c) && Bit(r.delayed, c))
    {
      TickShape(k, r, SlotOf(c));
    }
    if r.current.Some? {
      TickShape(k, r, r.current.value);
    }
    if r.next.Some? {
      TickShape(k, r, r.next.value);
    }
  }

  /** The bookkeeping half of `rtos_delay`: the running thread's timeout
      becomes `ticks`, its ready bit is cleared and its delayed bit set. */
  function Park(k: Kernel, ticks: u32): (r: Kernel)
    requires Inv(k)
    requires k.current.Some? && k.current.value != IDLE
    ensures |r.threads| == SLOTS
    ensures r.threads == k.threads[k.current.value := Some(k.threads[k.current.value].value.(timeout := ticks))]
    ensures forall c: bv5 :: Bit(r.ready, c) == (Bit(k.ready, c) && SlotOf(c) != k.current.value)
    ensures forall c: bv5 :: Bit(r.delayed, c) == (Bit(k.delayed, c) || SlotOf(c) == k.current.value)
    ensures r.current == k.current && r.next == k.next && r.switchPending == k.switchPending
  {
    var p := k.current.value;
    var t := k.threads[p].value;
    var bit := BitOf(t.priority);
    forall c: bv5
      ensures Bit(Clear(k.ready, bit), c) == (Bit(k.ready, c) && SlotOf(c) != p)
      ensures Bit(Set(k.delayed, bit), c) == (Bit(k.delayed, c) || SlotOf(c) == p)
    {
      ClearBitLemma(k.ready, bit, c);
      SetBitLemma(k.delayed, bit, c);
      SlotInjective(bit, c);
    }
    k.(threads := k.threads[p := Some(t.(timeout := ticks))],
       ready := Clear(k.ready, bit),
       delayed := Set(k.delayed, bit))
  }

  /** Parking keeps the invariant. */
  lemma ParkInv(k: Kernel, ticks: u32)
    requires Inv(k)
    requires k.current.Some? && k.current.value != IDLE
    ensures Inv(Park(k, ticks))
  {
    var r := Park(k, ticks);
    forall p | 0 <= p < SLOTS && r.threads[p].Some?
      ensures r.threads[p].value.priority == p
    {
    }
    forall c: bv5
      ensures Bit(r.ready, c) ==> Registered(r, SlotOf(c))
      ensures Bit(r.delayed, c) ==> Registered(r, SlotOf(c))
      ensures !(Bit(r.ready, c) && Bit(r.delayed, c))
    {
    }
  }

  /** Parking with a non-zero delay keeps every delayed thread armed. */
  lemma ParkArmed(k: Kernel, ticks: u32)
    requires Inv(k)
    requires k.current.Some? && k.current.value != IDLE
    ensures Armed(k) && ticks != 0 ==> Armed(Park(k, ticks))
  {
    if Armed(k) && ticks != 0 {
      forall c: bv5 | Bit(Park(k, ticks).delayed, c)
        ensures Registered(Park(k, ticks), SlotOf(c))
        ensures Park(k, ticks).threads[SlotOf(c)].value.timeout != 0
      {
        ParkArmedAt(k, ticks, c);
      }
    }
  }

  /** The thread owning a delayed bit after parking is the parked one, with
      its fresh timeout, or was delayed and armed before. */
  lemma ParkArmedAt(k: Kernel, ticks: u32, c: bv5)
    requires Inv(k) && Armed(k) && ticks != 0
    requires k.current.Some? && k.current.value != IDLE
    requires Bit(Park(k, ticks).delayed, c)
    ensures Registered(Park(k, ticks), SlotOf(c))
    ensures Park(k, ticks).threads[SlotOf(c)].value.timeout != 0
  {
    var r := Park(k, ticks);
    if SlotOf(c) != k.current.value {
      assert Bit(k.delayed, c);
      assert r.threads[SlotOf(c)] == k.threads[SlotOf(c)];
    }
  }

  /** `rtos_delay(ticks)`: park the running thread and reschedule. The
      `DBC_REQUIRE` that the caller is not the idle thread is the second
      precondition. The threads and the two sets are exactly those `Park`
      leaves, so every other thread and every other bit is left as it was. */
  function Delay(k: Kernel, ticks: u32): (r: Kernel)
    requires Inv(k)
    requires k.current.Some? && k.current.value != IDLE
    ensures Inv(r)
    ensures r.threads[k.current.value].Some? && r.threads[k.current.value].value.timeout == ticks
    ensures !Bit(r.ready, BitOf(k.current.value)) && Bit(r.delayed, BitOf(k.current.value))
    ensures r.next == Pick(r.ready, r.threads[IDLE])
    ensures r.next != k.current ==> r.switchPending
    ensures Armed(k) && ticks != 0 ==> Armed(r)
    ensures r.current == k.current
    ensures r.threads == Park(k, ticks).threads
    ensures r.ready == Park(k, ticks).ready && r.delayed == Park(k, ticks).delayed
  {
    ParkInv(k, ticks);
    ParkArmed(k, ticks);
    var parked := Park(k, ticks);
    ScheduleInv(parked);
    Schedule(parked)
  }

  /** `rtos_delay(0)` parks the thread with nothing left to count down: the
      next `rtos_tick` fails its `timeout != 0` assertion. */
  lemma DelayZeroTrips(k: Kernel)
    requires Inv(k)
    requires k.current.Some? && k.current.value != IDLE
    ensures !TickSafe(Delay(k, 0))
  {
    var p := k.current.value;
    var r := Delay(k, 0);
    assert r.threads[p].value.timeout == 0;
    assert Bit(r.delayed, BitOf(p));
    ExhaustedUnsafe(r, BitOf(p));
  }

  /** A delayed slot whose timeout is already zero breaks `TickSafe`. */
  lemma ExhaustedUnsafe(r: Kernel, b: bv5)
    requires Bit(r.delayed, b) && Registered(r, SlotOf(b))
    requires r.threads[SlotOf(b)].value.timeout == 0
    ensures !TickSafe(r)
  {
  }

  /** A thread delayed by `n > 0` ticks stays delayed, and not ready, through
      the first `n - 1` ticks with `n - i` ticks left after `i` of them, and is
      ready and no longer delayed after exactly `n`. `ks` is the sequence of
      kernel states across the ticks. */
  lemma {:induction false} WakesAfterExactly(ks: seq<Kernel>, b: bv5, n: nat, i: nat)
    requires |ks| == n + 1 && 0 < n && i <= n
    requires forall j | 0 <= j < n :: TickStep(ks[j], ks[j + 1])
    requires |ks[0].threads| == SLOTS && Registered(ks[0], SlotOf(b))
    requires Bit(ks[0].delayed, b) && !Bit(ks[0].ready, b)
    requires ks[0].threads[SlotOf(b)].value.timeout == n
    ensures |ks[i].threads| == SLOTS && Registered(ks[i], SlotOf(b))
    ensures i < n ==> Bit(ks[i].delayed, b) && !Bit(ks[i].ready, b)
    ensures i < n ==> ks[i].threads[SlotOf(b)].value.timeout == n - i
    ensures i == n ==> Bit(ks[i].ready, b) && !Bit(ks[i].delayed, b)
  {
    if i > 0 {
      WakesAfterExactly(ks, b, n, i - 1);
      assert TickStep(ks[i - 1], ks[i]);
    }
  }

  /** `rtos_thread_create`: lay out the thread's initial stack, then register
      it at slot `priority` with the saved stack pointer pointing at the
      pushed R4. Switching to it later restores the initial context. */
  method ThreadCreate(k: Kernel, self: Thread, handler: bv32, stack: Stack, priority: nat)
      returns (r: Kernel, words: seq<bv32>)
    requires |k.threads| == SLOTS && priority < SLOTS && k.threads[priority].None?
    requires ValidStack(stack) && TopIndex(stack) >= FRAME_WORDS
    ensures r == Create(k, self, TopIndex(stack) - FRAME_WORDS, priority)
    ensures |words| == |stack.words|
    ensures r.threads[priority].Some? && r.threads[priority].value.sp + FRAME_WORDS <= |words|
    ensures Restore(words, r.threads[priority].value.sp) == InitialContext(handler)
    ensures forall i | LimitIndex(stack) <= i < r.threads[priority].value.sp :: words[i] == PAINT
    ensures forall i | 0 <= i < |words| && (i < LimitIndex(stack) || TopIndex(stack) <= i) ::
      words[i] == stack.words[i]
  {
    var sp;
    words, sp := Fabricate(stack, handler);
    r := Create(k, self, sp, priority);
  }
}
