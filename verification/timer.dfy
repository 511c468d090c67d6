/** The machine timer driver (timer.c): the two tick counters it keeps and
    the mtime and mtimecmp registers of the machine timer it programs.
    Counters and registers are uint64_t, so every `++` and every addition
    is taken modulo 2^64. The condition variables the handler broadcasts
    on are not part of this model. */
module Timer {
  const U64: nat := 0x1_0000_0000_0000_0000
  /** The mtime frequency of the QEMU virt machine, in Hz. */
  const MTIME_FREQ: nat := 10_000_000
  const TIMER_10HZ: nat := 10
  /** Timer cycles between two ticks: a tenth of a second. */
  const INTERVAL: nat := MTIME_FREQ / TIMER_10HZ
  const UINT64_MAX: nat := U64 - 1

  /** The two counters: ticks at 1 Hz and at 10 Hz. */
  datatype Counts = Counts(tick1: nat, tick10: nat)

  /** Both counters fit in 64 bits. */
  predicate CountsOk(c: Counts) {
    c.tick1 < U64 && c.tick10 < U64
  }

  /** The counter update of one timer interrupt: the 10 Hz count goes up by
      one, and the 1 Hz count goes up by one when the new 10 Hz count is a
      multiple of 10. */
  function Tick(c: Counts): (r: Counts)
    ensures CountsOk(r)
    ensures r.tick10 == (c.tick10 + 1) % U64
    ensures r.tick1 == c.tick1 % U64 || r.tick1 == (c.tick1 + 1) % U64
  {
    var t10 := (c.tick10 + 1) % U64;
    Counts(if t10 % TIMER_10HZ == 0 then (c.tick1 + 1) % U64 else c.tick1 % U64, t10)
  }

  /** The counters after `n` timer interrupts. */
  function Ticks(c: Counts, n: nat): Counts
  {
    if n == 0 then c else Tick(Ticks(c, n - 1))
  }

  /** Below 2^64 a tick adds without wrapping. */
  lemma TickNoWrap(c: Counts)
    requires c.tick10 + 1 < U64 && c.tick1 + 1 < U64
    ensures Tick(c) == Counts(if (c.tick10 + 1) % TIMER_10HZ == 0 then c.tick1 + 1 else c.tick1, c.tick10 + 1)
  {
  }

  /** Counting one more tick adds a whole second exactly at a multiple of
      ten. */
  lemma SecondsStep(n: nat)
    requires n > 0
    ensures n / TIMER_10HZ == (n - 1) / TIMER_10HZ + (if n % TIMER_10HZ == 0 then 1 else 0)
  {
  }

  /** From zero, and before the 10 Hz count wraps, after `n` interrupts the
      10 Hz count is `n` and the 1 Hz count is the number of whole seconds
      in it. */
  lemma {:induction false} TicksFromZero(n: nat)
    requires n < U64
    ensures Ticks(Counts(0, 0), n) == Counts(n / TIMER_10HZ, n)
  {
    if n > 0 {
      TicksFromZero(n - 1);
      TickNoWrap(Counts((n - 1) / TIMER_10HZ, n - 1));
      SecondsStep(n);
    }
  }

  /** Each tick keeps the 1 Hz count at a tenth of the 10 Hz count, while
      neither wraps. */
  lemma OneHzFollows(c: Counts)
    requires c.tick10 + 1 < U64 && c.tick1 + 1 < U64
    requires c.tick1 == c.tick10 / TIMER_10HZ
    ensures Tick(c).tick1 == Tick(c).tick10 / TIMER_10HZ
  {
    TickNoWrap(c);
    SecondsStep(c.tick10 + 1);
  }

  /** The compare value the handler programs: the previous one plus a
      tenth of a second, in 64 bits. */
  function NextCmp(x: nat): (r: nat)
    ensures r < U64
    ensures x + INTERVAL < U64 ==> r == x + INTERVAL
  {
    (x + INTERVAL) % U64
  }

  /** The compare value after `n` interrupts. */
  function CmpAfter(x: nat, n: nat): nat
  {
    if n == 0 then x else NextCmp(CmpAfter(x, n - 1))
  }

  /** Reducing before adding a tenth of a second changes nothing modulo
      2^64. */
  lemma AddMod(a: nat)
    ensures (a % U64 + INTERVAL) % U64 == (a + INTERVAL) % U64
  {
    var q := a / U64;
    assert a == q * U64 + a % U64;
    assert a + INTERVAL == q * U64 + (a % U64 + INTERVAL);
  }

  /** After timer_start and `n` interrupts, the next interrupt is due at
      (n + 1) tenths of a second of mtime, modulo 2^64: the ticks stay on a
      fixed 10 Hz schedule however late each handler runs. */
  lemma {:induction false} CmpSchedule(n: nat)
    ensures CmpAfter(INTERVAL, n) == (INTERVAL * (n + 1)) % U64
  {
    if n > 0 {
      CmpSchedule(n - 1);
      AddMod(INTERVAL * n);
      assert INTERVAL * n + INTERVAL == INTERVAL * (n + 1);
    }
  }

  /** The timer's state: timer_initialized, the MTIE bit of mie, the two
      registers and the two counters. */
  class Clock {
    var initialized: bool
    var mtie: bool
    var mtime: nat
    var mtimecmp: nat
    var tick1: nat
    var tick10: nat

    /** Every register and counter is a uint64_t. */
    predicate Valid()
      reads this
    {
      mtime < U64 && mtimecmp < U64 && tick1 < U64 && tick10 < U64
    }

    /** The counters as a value. */
    function Counters(): (c: Counts)
      reads this
      ensures c.tick1 == tick1 && c.tick10 == tick10
    {
      Counts(tick1, tick10)
    }

    /** At boot: the globals are zero and the registers hold whatever the
        hardware reset left in them. */
    constructor(mtime0: nat, mtimecmp0: nat)
      requires mtime0 < U64 && mtimecmp0 < U64
      ensures Valid() && !initialized && !mtie
      ensures tick1 == 0 && tick10 == 0 && mtime == mtime0 && mtimecmp == mtimecmp0
    {
      initialized, mtie := false, false;
      mtime, mtimecmp := mtime0, mtimecmp0;
      tick1, tick10 := 0, 0;
    }

    /** timer_init: panics unless interrupts are initialized; otherwise
        mtime is cleared, the compare register is set as far away as it
        goes, timer interrupts are disabled and the timer is marked
        initialized. */
    method Init(intrInitialized: bool) returns (panicked: bool)
      requires Valid()
      modifies this
      ensures Valid()
      ensures panicked <==> !intrInitialized
      ensures panicked ==> (mtime == old(mtime) && mtimecmp == old(mtimecmp) && mtie == old(mtie)
        && initialized == old(initialized))
      ensures !panicked ==> mtime == 0 && mtimecmp == UINT64_MAX && !mtie && initialized
      ensures Counters() == old(Counters())
    {
      if !intrInitialized {
        return true;
      }
      panicked := false;
      mtime := 0;
      mtimecmp := UINT64_MAX;
      mtie := false;
      initialized := true;
    }

    /** timer_start: mtime is cleared, the first interrupt is due a tenth
        of a second later, and timer interrupts are enabled. */
    method Start()
      requires Valid()
      modifies this
      ensures Valid()
      ensures mtime == 0 && mtimecmp == INTERVAL && mtime < mtimecmp && mtie
      ensures initialized == old(initialized) && Counters() == old(Counters())
    {
      mtime := 0;
      mtimecmp := MTIME_FREQ / 10;
      mtie := true;
    }

    /** timer_intr_handler: the counters take one tick and the next
        interrupt is due a tenth of a second after the one just taken. */
    method Handler()
      requires Valid()
      modifies this
      ensures Valid()
      ensures Counters() == Tick(old(Counters()))
      ensures mtimecmp == NextCmp(old(mtimecmp))
      ensures mtime == old(mtime) && mtie == old(mtie) && initialized == old(initialized)
    {
      var cmp := mtimecmp;
      tick10 := (tick10 + 1) % U64;
      if tick10 % TIMER_10HZ == 0 {
        tick1 := (tick1 + 1) % U64;
      }
      mtimecmp := (cmp + MTIME_FREQ / TIMER_10HZ) % U64;
    }
  }
}
