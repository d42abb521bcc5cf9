/** The tick counter of kernel/timer.c. `unsigned long` is 32 bits on
    i386, so the counter and the millisecond product wrap at 2^32. The
    PIT's port writes are reduced to the two divisor bytes they send, and
    waiting with `hlt` is modelled as the timer interrupt arriving once per
    wake-up. */
module Timer {
  import opened Word

  /** Ticks per second. */
  const FREQUENCY: nat := 100
  /** The PIT's input clock in Hz. */
  const PIT_BASE: nat := 1193182

  /** The reload value timer_init programs into channel 0. */
  const DIVISOR: nat := PIT_BASE / FREQUENCY

  /** The divisor as the two bytes sent to port 0x40, low byte first. */
  function PitBytes(divisor: nat): (r: (nat, nat))
    requires IsU32(divisor)
    ensures r.0 < 256 && r.1 < 256
    ensures divisor < 0x1_0000 ==> r.0 + 256 * r.1 == divisor
  {
    (divisor % 256, divisor / 256 % 256)
  }

  /** timer_init sends 0x9B then 0x2E, which the PIT reads back as 11931:
      100 Hz, up to the rounding of 1193182 / 100. */
  lemma TimerDivisor()
    ensures DIVISOR == 11931 && PitBytes(DIVISOR) == (0x9B, 0x2E)
    ensures DIVISOR * FREQUENCY <= PIT_BASE < (DIVISOR + 1) * FREQUENCY
  {
  }

  /** get_uptime: whole seconds elapsed. */
  function Uptime(ticks: nat): (r: nat)
    ensures r * FREQUENCY <= ticks < (r + 1) * FREQUENCY
  {
    ticks / FREQUENCY
  }

  /** The uptime goes up by one second exactly on every hundredth tick. */
  lemma UptimeStep(ticks: nat)
    ensures Uptime(ticks + 1) == Uptime(ticks) + (if (ticks + 1) % FREQUENCY == 0 then 1 else 0)
  {
  }

  /** sleep_ms's conversion as written: ms * 100 is an `unsigned long`
      product, so it wraps before the division by 1000. */
  function SleepTicksAsWritten(ms: nat): (r: nat)
    requires IsU32(ms)
    ensures r < U32 / 1000 + 1
  {
    Wrap32(ms * FREQUENCY) / 1000
  }

  /** sleep_ms's conversion as intended: ms * 100 / 1000 in exact
      arithmetic, one tick per 10 ms. */
  function SleepTicks(ms: nat): (r: nat)
    ensures r * 1000 <= ms * FREQUENCY < (r + 1) * 1000
  {
    ms / 10
  }

  /** Below 10 ms sleep_ms waits no tick at all. */
  lemma ShortSleepIsNoSleep(ms: nat)
    requires ms < 10
    ensures SleepTicks(ms) == 0 && SleepTicksAsWritten(ms) == 0
  {
  }

  /** The two conversions agree as long as ms * 100 fits in 32 bits,
      that is up to 42949672 ms (about 11.9 hours). */
  lemma SleepTicksAgree(ms: nat)
    requires ms * FREQUENCY < U32
    ensures SleepTicksAsWritten(ms) == SleepTicks(ms)
  {
  }

  /** Beyond that the written conversion sleeps far too little: 50000000 ms
      (13.9 hours) becomes 705032 ticks (under 2 hours) instead of 5000000. */
  lemma SleepOverflow()
    ensures SleepTicksAsWritten(50_000_000) == 705_032
    ensures SleepTicks(50_000_000) == 5_000_000
  {
    assert Wrap32(50_000_000 * FREQUENCY) == 705_032_704;
  }

  /** timer_wait's target: the tick count at entry plus n, wrapped. */
  function WaitTarget(ticks: nat, n: nat): (r: nat)
    requires IsU32(ticks) && IsU32(n)
    ensures IsU32(r)
    ensures ticks + n < U32 ==> r == ticks + n
    ensures ticks + n >= U32 ==> r < ticks
  {
    Wrap32(ticks + n)
  }

  /** The tick count timer_wait returns at: the target, or the count at
      entry when that is already past the target. */
  function WaitEnd(ticks: nat, n: nat): (r: nat)
    requires IsU32(ticks) && IsU32(n)
    ensures IsU32(r) && r >= WaitTarget(ticks, n) && r >= ticks
    ensures ticks + n < U32 ==> r == ticks + n
  {
    if ticks < WaitTarget(ticks, n) then WaitTarget(ticks, n) else ticks
  }

  /** When the target wraps past 2^32 - 1, timer_wait returns at once. */
  lemma WaitWrapsEarly(ticks: nat, n: nat)
    requires IsU32(ticks) && IsU32(n) && ticks + n >= U32
    ensures WaitEnd(ticks, n) == ticks
  {
  }

  /** The timer's one piece of state: timer_ticks, which timer_get_ticks
      reads. */
  class Clock {
    var ticks: nat

    ghost predicate Valid()
      reads this
    {
      IsU32(ticks)
    }

    /** The counter starts at 0. */
    constructor Init()
      ensures Valid() && ticks == 0
    {
      ticks := 0;
    }

    /** timer_handler: one more tick, wrapping at 2^32. */
    method Tick()
      requires Valid()
      modifies this
      ensures Valid() && ticks == Wrap32(old(ticks) + 1)
    {
      ticks := Wrap32(ticks + 1);
    }

    /** timer_wait: idle until the counter reaches the target computed on
        entry; each wake-up from `hlt` is one timer interrupt. */
    method Wait(n: nat)
      requires Valid() && IsU32(n)
      modifies this
      ensures Valid() && ticks == WaitEnd(old(ticks), n)
    {
      var target := Wrap32(ticks + n);
      while ticks < target
        invariant Valid() && old(ticks) <= ticks && (old(ticks) < target ==> ticks <= target)
        invariant old(ticks) >= target ==> ticks == old(ticks)
        invariant target == WaitTarget(old(ticks), n)
        decreases target - ticks
      {
        Tick();
      }
    }

    /** sleep_ms, with the conversion as intended. */
    method Sleep(ms: nat)
      requires Valid() && IsU32(ms)
      modifies this
      ensures Valid() && ticks == WaitEnd(old(ticks), SleepTicks(ms))
    {
      Wait(ms / 10);
    }
  }
}
