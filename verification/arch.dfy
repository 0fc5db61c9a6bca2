/** The AArch64 architecture code (`src/arch/aarch64.rs`): the generic
    timer's microsecond wait, and the entry point's choice of the core that
    boots the kernel. */
module Arch {
  import opened Words
  import Poll

  // ---------------------------------------------------------------------------
  // wait_usec
  // ---------------------------------------------------------------------------

  /** `((frq * n) / 1_000_000) as u32`: the product wraps modulo 2^64 as a
      release build computes it, and the cast keeps the low 32 bits of the
      quotient. */
  function TickCount(frq: u32, n: u64): (t: u32)
    ensures t * 1_000_000 <= (frq * n) % TWO_64
  {
    ((frq * n) % TWO_64 / 1_000_000) % TWO_32
  }

  /** When nothing overflows, the tick count is the number of whole ticks of
      a `frq` Hz counter in `n` microseconds: never more time than asked,
      short of it by less than one tick. */
  lemma TickCountExact(frq: u32, n: u64)
    requires frq * n < TWO_64 && frq * n < TWO_32 * 1_000_000
    ensures TickCount(frq, n) * 1_000_000 <= frq * n < (TickCount(frq, n) + 1) * 1_000_000
  {
  }

  /** A wait longer than the 32-bit tick count can hold is cut short: at the
      Raspberry Pi 3's 19.2 MHz, 224 seconds come out as fewer ticks than
      one second has. */
  lemma LongWaitTruncates()
    ensures TickCount(19_200_000, 224_000_000) < 19_200_000
  {
  }

  /** CNTP_CTL_EL0.ISTATUS (bit 2): the timer condition has been met. */
  predicate TimerFired(ctl: u32) {
    Poll.BitSet(ctl, 2)
  }

  datatype TimerWrite = Tval(ticks: u32) | Ctl(value: u32)

  /** A run of `wait_usec`: the writes made and whether it returned. */
  datatype TimerRun = TimerRun(writes: seq<TimerWrite>, returned: bool)

  /** `wait_usec(n)`. `ctl` is the trace of CNTP_CTL_EL0 readings: the one
      the enabling `modify` makes, then the polls of ISTATUS, then the one
      the disabling `modify` makes. The compare value is written, the timer
      enabled with its interrupt masked (bits 0 and 1), ISTATUS polled, and
      only once it is seen set is ENABLE cleared. */
  function WaitUsec(frq: u32, n: u64, ctl: seq<u32>): (run: TimerRun)
    ensures |run.writes| >= 1 && run.writes[0] == Tval(TickCount(frq, n))
    ensures run.returned ==> |run.writes| == 3 && run.writes[2].Ctl? && run.writes[2].value % 2 == 0
  {
    if |ctl| == 0 then TimerRun([Tval(TickCount(frq, n))], false)
    else
      var start := [Tval(TickCount(frq, n)), Ctl(Poll.SetBits01(ctl[0]))];
      var polls := ctl[1..];
      var k := Poll.FirstReady(polls, (c: u32) => TimerFired(c));
      if k + 1 < |polls| then TimerRun(start + [Ctl(Poll.ClearBit0(polls[k + 1]))], true)
      else TimerRun(start, false)
  }

  /** The wait programs the tick count and enables the timer with its
      interrupt masked before anything else; it returns exactly when some
      poll sees ISTATUS set (and a reading is left for the final `modify`),
      and then its last write clears ENABLE in the reading that follows the
      first such poll, keeping every other bit of it. Before returning it writes nothing but those two. */
  lemma WaitUsecMeetsSpec(frq: u32, n: u64, ctl: seq<u32>)
    requires |ctl| > 0
    ensures var run := WaitUsec(frq, n, ctl);
      && |run.writes| >= 2
      && run.writes[0] == Tval(TickCount(frq, n))
      && run.writes[1].Ctl? && run.writes[1].value % 4 == 3 && run.writes[1].value / 4 == ctl[0] / 4
      && (run.returned <==> exists i | 1 <= i < |ctl| - 1 :: TimerFired(ctl[i]))
      && (!run.returned ==> |run.writes| == 2)
      && (run.returned ==>
            (|run.writes| == 3 && run.writes[2].Ctl?
             && exists i | 1 <= i < |ctl| - 1 ::
                  && TimerFired(ctl[i])
                  && (forall j | 1 <= j < i :: !TimerFired(ctl[j]))
                  && run.writes[2] == Ctl(Poll.ClearBit0(ctl[i + 1]))))
  {
    var polls := ctl[1..];
    var k := Poll.FirstReady(polls, (c: u32) => TimerFired(c));
    if exists i | 1 <= i < |ctl| - 1 :: TimerFired(ctl[i]) {
      var i :| 1 <= i < |ctl| - 1 && TimerFired(ctl[i]);
      assert polls[i - 1] == ctl[i];
      assert k <= i - 1;
    }
    if k + 1 < |polls| {
      assert polls[k] == ctl[k + 1];
      assert polls[k + 1] == ctl[k + 2];
    }
  }

  // ---------------------------------------------------------------------------
  // _start
  // ---------------------------------------------------------------------------

  /** `a & b` on non-negative integers, bit by bit. */
  function And(a: nat, b: nat): (r: nat)
    ensures r <= a && r <= b
  {
    if a == 0 || b == 0 then 0 else 2 * And(a / 2, b / 2) + (a % 2) * (b % 2)
  }

  /** Masking with `0x3` keeps the core number, the value modulo 4. */
  lemma AndThree(x: nat)
    ensures And(x, 3) == x % 4
  {
    if x != 0 {
      assert And(x, 3) == 2 * And(x / 2, 1) + x % 2;
      if x / 2 != 0 {
        assert And(x / 2, 1) == 2 * And(x / 4, 0) + (x / 2) % 2;
      }
    }
  }

  /** Where `_start` leaves a core. */
  datatype Boot =
    /** The boot core with its stack pointer set, entering `runtime_init`. */
    | RuntimeInit(sp: u64)
    /** A core in `wait_forever`. */
    | Parked

  /** `_start`: a core whose `MPIDR_EL1 & coreMask` equals `bootCoreId` sets
      the stack pointer to `stackStart` and reads it back (`spReadBack`);
      a non-zero read-back enters runtime init, anything else parks. The
      board constants are parameters. */
  function Start(mpidr: u64, bootCoreId: u64, coreMask: u64, stackStart: u64, spReadBack: u64): (b: Boot)
    ensures b.RuntimeInit? <==> And(mpidr, coreMask) == bootCoreId && spReadBack != 0
    ensures b.RuntimeInit? ==> b.sp == stackStart
  {
    if And(mpidr, coreMask) == bootCoreId then
      if spReadBack != 0 then RuntimeInit(stackStart) else Parked
    else Parked
  }

  /** The Raspberry Pi 3 board's values: core 0 boots, the core number is
      the low two bits of MPIDR_EL1, and the stack grows down from the
      kernel's load address. */
  const BOOT_CORE_ID: u64 := 0
  const CORE_MASK: u64 := 0x3
  const STACK_START: u64 := 0x80_000

  /** With those values a core boots exactly when its affinity-0 number is
      0, once the stack pointer reads back as it was set: of the four cores
      of the chip, only core 0 goes on. */
  lemma OnlyCoreZeroBoots(mpidr: u64)
    ensures Start(mpidr, BOOT_CORE_ID, CORE_MASK, STACK_START, STACK_START) == (if mpidr % 4 == 0 then RuntimeInit(STACK_START) else Parked)
    ensures forall core: u64 | core < 4 :: Start(core, BOOT_CORE_ID, CORE_MASK, STACK_START, STACK_START).RuntimeInit? <==> core == 0
  {
    AndThree(mpidr);
    forall core: u64 | core < 4
      ensures Start(core, BOOT_CORE_ID, CORE_MASK, STACK_START, STACK_START).RuntimeInit? <==> core == 0
    {
      AndThree(core);
    }
  }

  /** A stack pointer that reads back as zero parks even the boot core. */
  lemma ZeroReadBackParks(mpidr: u64, bootCoreId: u64, coreMask: u64, stackStart: u64)
    ensures Start(mpidr, bootCoreId, coreMask, stackStart, 0) == Parked
  {
  }
}
