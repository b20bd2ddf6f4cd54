/** The millisecond tick: the periodic-timer predicate the application
    threads poll, and the tick interrupt that advances the counter and
    drives the kernel. */
module SysTick {
  import opened Common
  import Rtos

  /** `a + b` in 32-bit unsigned arithmetic. */
  function Add(a: u32, b: u32): (r: u32)
    ensures a + b < U32_MODULUS ==> r == a + b
    ensures a + b >= U32_MODULUS ==> r == a + b - U32_MODULUS
  {
    (a + b) % U32_MODULUS
  }

  /** A poll's answer and the timer it leaves behind. */
  datatype Polled = Polled(expired: bool, timer: u32)

  /** The deadline a poll compares against: a timer that lies beyond
      `now + period` (the sum having wrapped) is dropped, and a dropped or
      never-armed timer (0) is armed to `now + period`. */
  function Deadline(timer: u32, period: u32, now: u32): (d: u32)
    ensures timer == 0 || Add(now, period) < timer ==> d == Add(now, period)
    ensures timer != 0 && timer <= Add(now, period) ==> d == timer
  {
    var t := if Add(now, period) < timer then 0 else timer;
    if t == 0 then Add(now, period) else t
  }

  /** `systick_timer_expired`. It answers whether the deadline has been
      reached. If not, the timer holds the deadline. If so, the next
      deadline is one period later, or `now + period` when the poll comes
      more than a period late. */
  function TimerExpired(timer: u32, period: u32, now: u32): (r: Polled)
    ensures r.expired == (Deadline(timer, period, now) <= now)
    ensures !r.expired ==> r.timer == Deadline(timer, period, now)
    ensures r.expired && now - Deadline(timer, period, now) > period ==> r.timer == Add(now, period)
    ensures r.expired && now - Deadline(timer, period, now) <= period ==>
      r.timer == Add(Deadline(timer, period, now), period)
    ensures timer == 0 && 0 < period && now + period < U32_MODULUS ==>
      r == Polled(false, now + period)
  {
    var t := Deadline(timer, period, now);
    if t > now then Polled(false, t)
    else if (now - t) % U32_MODULUS > period then Polled(true, Add(now, period))
    else Polled(true, Add(t, period))
  }

  /** The number of polls that report expiry when the timer is polled once
      at each of the `n` ticks from `now` on. */
  function Expiries(timer: u32, period: u32, now: u32, n: nat): nat
    requires now + n <= U32_MODULUS
    decreases n
  {
    if n == 0 then 0
    else
      var p := TimerExpired(timer, period, now);
      (if p.expired then 1 else 0) + (if n == 1 then 0 else Expiries(p.timer, period, now + 1, n - 1))
  }

  /** Whole periods: one more period adds one to the quotient, and a
      remainder shorter than a period has quotient 0. */
  lemma Periods(x: nat, period: nat)
    requires 0 < period
    ensures x >= period ==> (x - period) / period + 1 == x / period
    ensures x < period ==> x / period == 0
  {
    if x >= period {
      DivMod(x, period, (x - period) / period + 1, (x - period) % period);
    } else {
      DivMod(x, period, 0, x);
    }
  }

  /** The number of deadlines `deadline + i * period` among the ticks
      before `end`. */
  function Due(deadline: nat, period: nat, end: nat): nat
    requires 0 < period
  {
    if end <= deadline then 0 else (end - 1 - deadline) / period + 1
  }

  /** A deadline one period on leaves one deadline fewer. */
  lemma DueStep(deadline: nat, period: nat, end: nat)
    requires 0 < period && deadline < end
    ensures Due(deadline, period, end) == 1 + Due(deadline + period, period, end)
  {
    Periods(end - 1 - deadline, period);
  }

  /** An armed timer polled at every tick expires at its deadline and then
      once every period, as long as no sum wraps. */
  lemma {:induction false} ArmedExpiries(deadline: u32, period: u32, now: u32, n: nat)
    requires 0 < period && 0 < deadline && now <= deadline && deadline - now <= period
    requires now + n + period < U32_MODULUS
    ensures Expiries(deadline, period, now, n) == Due(deadline, period, now + n)
    decreases n
  {
    if n > 0 {
      var p := TimerExpired(deadline, period, now);
      assert Deadline(deadline, period, now) == deadline;
      if now < deadline {
        assert p == Polled(false, deadline);
        if n > 1 {
          ArmedExpiries(deadline, period, now + 1, n - 1);
        }
      } else {
        assert p == Polled(true, deadline + period);
        DueStep(deadline, period, now + n);
        if n > 1 {
          ArmedExpiries(deadline + period, period, now + 1, n - 1);
        }
      }
    }
  }

  /** The blinky thread's timer: starting unarmed and polled at every tick
      over `n` ticks, a timer with period `p` fires `(n - 1) / p` times. */
  lemma Rate(period: u32, start: u32, n: nat)
    requires 0 < period && 0 < n && start + n + period < U32_MODULUS
    ensures Expiries(0, period, start, n) == (n - 1) / period
  {
    assert TimerExpired(0, period, start) == Polled(false, start + period);
    if n > 1 {
      ArmedExpiries(start + period, period, start + 1, n - 1);
    }
    Periods(n - 1, period);
  }

  /** `SysTick_Handler`: count the tick, run the kernel's tick, then
      schedule, so the pick already sees the threads this tick woke. The
      kernel invariant and the armed delays are kept, the running thread is
      still current, and a switch is requested exactly when the pick is not
      the running thread (or one was already pending). */
  method Handler(ticks: u32, k: Rtos.Kernel) returns (ticks': u32, r: Rtos.Kernel)
    requires Rtos.Inv(k) && Rtos.Armed(k)
    ensures ticks' == IncU32(ticks)
    ensures Rtos.Inv(r) && Rtos.Armed(r)
    ensures Rtos.TickStep(k, r.(next := k.next, switchPending := k.switchPending))
    ensures r.next == Rtos.Pick(r.ready, r.threads[Rtos.IDLE])
    ensures r.current == k.current
    ensures r.next != k.current ==> r.switchPending
    ensures r.switchPending && !k.switchPending ==> r.next != k.current
  {
    ticks' := IncU32(ticks);
    Rtos.TickSafeFromInv(k);
    var m := Rtos.Tick(k);
    Rtos.TickInvariant(k, m);
    Rtos.ScheduleInv(m);
    r := Rtos.Schedule(m);
  }
}
