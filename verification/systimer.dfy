/** The BCM2835 system timer (`bcm2835_systimer.rs`): a free-running 64-bit
    microsecond counter read through two 32-bit registers, CHI and CLO.

    The hardware is the trace of the counter's value at each successive
    register read: a read of CHI returns the high half of the value at that
    moment, a read of CLO the low half. */
module SysTimer {
  import opened Results
  import opened Words
  import Sync
  import Interface

  /** A counter value and the number of register reads it took. */
  datatype Sample = Sample(value: u64, count: nat)

  /** `get_systimer`: read CHI, then CLO, then CHI again; if the high half
      moved, read CHI and CLO once more and use that pair. `None` when the
      trace ends first. */
  function GetSysTimer(c: seq<u64>): (s: Option<Sample>)
    ensures s.Some? ==> (s.value.count == 3 || s.value.count == 5) && s.value.count <= |c|
    ensures s.None? <==> |c| < 3 || (|c| < 5 && Hi(c[0]) != Hi(c[2]))
    ensures s.Some? ==> (s.value.count == 3 <==> Hi(c[0]) == Hi(c[2]))
    ensures s.Some? && s.value.count == 3 ==> s.value.value == Join(Hi(c[0]), Lo(c[1]))
    ensures s.Some? && s.value.count == 5 ==> s.value.value == Join(Hi(c[3]), Lo(c[4]))
  {
    if |c| < 3 then None
    else
      var high := Hi(c[0]);
      var low := Lo(c[1]);
      if high != Hi(c[2]) then
        if |c| < 5 then None else Some(Sample(Join(Hi(c[3]), Lo(c[4])), 5))
      else Some(Sample(Join(high, low), 3))
  }

  /** The counter never goes backwards over the trace. */
  ghost predicate Monotone(c: seq<u64>) {
    forall i, j | 0 <= i <= j < |c| :: c[i] <= c[j]
  }

  lemma DivMonotone(a: u64, b: u64)
    requires a <= b
    ensures Hi(a) <= Hi(b)
  {
  }

  /** Whatever the moment of the carry, a read over a counter that does not
      go backwards and advances by less than 2^32 during the five reads is
      never torn: it is exactly the counter's value at one of the reads,
      the CLO read of the first pair, or that of the second. */
  lemma ConsistentRead(c: seq<u64>)
    requires |c| >= 5 && Monotone(c) && c[4] - c[0] < TWO_32
    ensures GetSysTimer(c).Some?
    ensures GetSysTimer(c).value.value == c[1] || GetSysTimer(c).value.value == c[4]
  {
    DivMonotone(c[0], c[1]);
    DivMonotone(c[1], c[2]);
    DivMonotone(c[2], c[3]);
    DivMonotone(c[3], c[4]);
    JoinSplit(c[1]);
    JoinSplit(c[4]);
    if Hi(c[0]) != Hi(c[2]) {
      assert Hi(c[4]) <= Hi(c[0]) + 1;
      assert Hi(c[3]) == Hi(c[4]);
    } else {
      assert Hi(c[1]) == Hi(c[0]);
    }
  }

  /** Why the second CHI read is there: pairing the first CHI with the first
      CLO across a carry yields a value the counter never held. */
  lemma SinglePairCanTear()
    ensures Join(Hi(TWO_32 - 1), Lo(TWO_32)) == 0
    ensures GetSysTimer([TWO_32 - 1, TWO_32, TWO_32, TWO_32, TWO_32]) == Some(Sample(TWO_32, 5))
  {
    JoinSplit(TWO_32);
  }

  // ---------------------------------------------------------------------------
  // Waiting
  // ---------------------------------------------------------------------------

  /** `t + n` on `u64` as the release build computes it: wrapping. */
  function Deadline(t: u64, n: u64): (d: u64)
    ensures t + n < TWO_64 ==> d == t + n
    ensures t + n >= TWO_64 ==> d == t + n - TWO_64 && d < t
  {
    (t + n) % TWO_64
  }

  /** The samples a busy wait took, the reads they consumed, and whether it
      returned. */
  datatype Wait = Wait(samples: seq<u64>, count: nat, done: bool)

  /** Sample the timer until a value strictly past `deadline` appears. Every
      sample but a returning wait's last is at most the deadline, and a wait
      returns exactly on a sample past it. */
  function WaitFrom(c: seq<u64>, deadline: u64): (w: Wait)
    ensures w.count <= |c|
    ensures !w.done ==> w.count == |c|
    ensures |w.samples| > 0 ==> GetSysTimer(c).Some? && w.samples[0] == GetSysTimer(c).value.value
    ensures w.done ==> |w.samples| > 0 && w.samples[|w.samples| - 1] > deadline
    ensures forall i | 0 <= i < |w.samples| && (i < |w.samples| - 1 || !w.done) :: w.samples[i] <= deadline
    decreases |c|
  {
    match GetSysTimer(c)
    case None => Wait([], |c|, false)
    case Some(s) =>
      if s.value > deadline then Wait([s.value], s.count, true)
      else
        var rest := WaitFrom(c[s.count..], deadline);
        Wait([s.value] + rest.samples, s.count + rest.count, rest.done)
  }

  /** Every value successive `get_systimer` calls take from the trace, until
      it runs out: the reference the busy wait is measured against. */
  function Samples(c: seq<u64>): seq<u64>
    decreases |c|
  {
    match GetSysTimer(c)
    case None => []
    case Some(s) => [s.value] + Samples(c[s.count..])
  }

  /** The busy wait takes the trace's samples in order and stops at the
      first one past the deadline: it returns iff some sample of the trace
      is past it, and a wait that does not return has taken them all. */
  lemma {:induction false} WaitFromTakesSamples(c: seq<u64>, deadline: u64)
    ensures WaitFrom(c, deadline).samples <= Samples(c)
    ensures WaitFrom(c, deadline).done <==> exists i | 0 <= i < |Samples(c)| :: Samples(c)[i] > deadline
    ensures !WaitFrom(c, deadline).done ==> WaitFrom(c, deadline).samples == Samples(c)
    decreases |c|
  {
    match GetSysTimer(c)
    case None =>
    case Some(s) =>
      var all := Samples(c);
      assert all == [s.value] + Samples(c[s.count..]);
      if s.value > deadline {
        assert all[0] > deadline;
      } else {
        var tail := c[s.count..];
        WaitFromTakesSamples(tail, deadline);
        var rest := WaitFrom(tail, deadline);
        assert WaitFrom(c, deadline).samples == [s.value] + rest.samples;
        if rest.done {
          var i :| 0 <= i < |Samples(tail)| && Samples(tail)[i] > deadline;
          assert all[i + 1] == Samples(tail)[i];
        }
        if exists i | 0 <= i < |all| :: all[i] > deadline {
          var i :| 0 <= i < |all| && all[i] > deadline;
          assert i > 0 && Samples(tail)[i - 1] == all[i];
        }
      }
  }

  /** `SysTimer::wait_usec(n)`: take a first sample `t`; a zero first sample
      returns at once; otherwise wait for a sample past `t + n`. */
  function WaitUsec(c: seq<u64>, n: u64): (w: Wait)
    ensures w.count <= |c|
    ensures !w.done ==> w.count == |c|
    ensures w.done ==> |w.samples| > 0
  {
    match GetSysTimer(c)
    case None => Wait([], |c|, false)
    case Some(t) =>
      if t.value == 0 then Wait([0], t.count, true)
      else
        var rest := WaitFrom(c[t.count..], Deadline(t.value, n));
        Wait([t.value] + rest.samples, t.count + rest.count, rest.done)
  }

  /** A wait that returns after a non-zero first sample `t` has seen a later
      sample past `t + n` (modulo 2^64), and no earlier one. */
  lemma WaitReturnsPastDeadline(c: seq<u64>, n: u64)
    requires WaitUsec(c, n).done && WaitUsec(c, n).samples[0] != 0
    ensures |WaitUsec(c, n).samples| >= 2
    ensures var w := WaitUsec(c, n);
      && w.samples[|w.samples| - 1] > Deadline(w.samples[0], n)
      && forall i | 1 <= i < |w.samples| - 1 :: w.samples[i] <= Deadline(w.samples[0], n)
  {
    var t := GetSysTimer(c).value;
    var rest := WaitFrom(c[t.count..], Deadline(t.value, n));
    var w := WaitUsec(c, n);
    assert w.samples == [t.value] + rest.samples;
    forall i | 1 <= i < |w.samples| - 1
      ensures w.samples[i] <= Deadline(w.samples[0], n)
    {
      assert w.samples[i] == rest.samples[i - 1];
    }
  }

  /** A zero first sample ends the wait after that one read. */
  lemma ZeroFirstSampleReturns(c: seq<u64>, n: u64)
    requires GetSysTimer(c).Some? && GetSysTimer(c).value.value == 0
    ensures WaitUsec(c, n) == Wait([0], GetSysTimer(c).value.count, true)
  {
  }

  /** The wait as the driver runs it: one sample, then a loop of samples
      until one is past the deadline. It takes exactly the samples
      `WaitUsec` describes. */
  method WaitUsecLoop(c: seq<u64>, n: u64) returns (w: Wait)
    ensures w == WaitUsec(c, n)
  {
    var first := GetSysTimer(c);
    if first.None? {
      return Wait([], |c|, false);
    }
    var t := first.value;
    if t.value == 0 {
      return Wait([0], t.count, true);
    }
    var deadline := Deadline(t.value, n);
    var pos := t.count;
    var samples := [t.value];
    while true
      invariant pos <= |c|
      invariant WaitUsec(c, n) == Prepend(samples, pos, WaitFrom(c[pos..], deadline))
      decreases |c| - pos
    {
      var s := GetSysTimer(c[pos..]);
      if s.None? {
        return Wait(samples, |c|, false);
      }
      assert c[pos..][s.value.count..] == c[pos + s.value.count..];
      if s.value.value > deadline {
        return Wait(samples + [s.value.value], pos + s.value.count, true);
      }
      PrependTwice(samples, pos, [s.value.value], s.value.count, WaitFrom(c[pos + s.value.count..], deadline));
      samples := samples + [s.value.value];
      pos := pos + s.value.count;
    }
  }

  /** `w` with `samples` taken over `count` register reads in front of it. */
  function Prepend(samples: seq<u64>, count: nat, w: Wait): Wait {
    Wait(samples + w.samples, count + w.count, w.done)
  }

  lemma PrependTwice(a: seq<u64>, m: nat, b: seq<u64>, k: nat, w: Wait)
    ensures Prepend(a, m, Prepend(b, k, w)) == Prepend(a + b, m + k, w)
  {
    assert a + (b + w.samples) == (a + b) + w.samples;
  }

  // ---------------------------------------------------------------------------
  // Initialisation
  // ---------------------------------------------------------------------------

  /** The four compare registers. */
  datatype Compare = C0 | C1 | C2 | C3

  /** `SysTimerInner::init` writes zero to every compare register, once
      each; `DeviceDriver::init` then returns `Ok`. */
  function Init(): (r: (seq<(Compare, u32)>, Interface.DriverResult))
    ensures r.1.Ok?
    ensures forall i, j | 0 <= i < j < |r.0| :: r.0[i].0 != r.0[j].0
    ensures forall i | 0 <= i < |r.0| :: r.0[i].1 == 0
    ensures |r.0| == 4
  {
    ([(C0, 0), (C1, 0), (C2, 0), (C3, 0)], Ok(()))
  }

  /** The compare registers' values. */
  datatype Compares = Compares(c0: u32, c1: u32, c2: u32, c3: u32)

  /** `get_cN_register`. */
  function Get(cs: Compares, k: Compare): u32 {
    match k
    case C0 => cs.c0
    case C1 => cs.c1
    case C2 => cs.c2
    case C3 => cs.c3
  }

  /** `set_cN_register`: register `k` takes `v`, the others keep theirs. */
  function Set(cs: Compares, k: Compare, v: u32): (r: Compares)
    ensures Get(r, k) == v
    ensures forall j: Compare | j != k :: Get(r, j) == Get(cs, j)
  {
    match k
    case C0 => cs.(c0 := v)
    case C1 => cs.(c1 := v)
    case C2 => cs.(c2 := v)
    case C3 => cs.(c3 := v)
  }

  /** The register file after a sequence of writes. */
  function Apply(cs: Compares, writes: seq<(Compare, u32)>): Compares
    decreases |writes|
  {
    if |writes| == 0 then cs else Apply(Set(cs, writes[0].0, writes[0].1), writes[1..])
  }

  /** Whatever the compare registers held, `init` leaves every one at zero. */
  lemma InitClearsCompares(cs: Compares)
    ensures forall k: Compare :: Get(Apply(cs, Init().0), k) == 0
  {
    var w: seq<(Compare, u32)> := Init().0;
    var rest: seq<(Compare, u32)> := w[3..];
    assert rest[1..] == [];
  }

  const COMPATIBLE: string := "BCM2835 System Timer"

  datatype SysTimerInner = SysTimerInner(baseAddr: nat)

  datatype SysTimer = SysTimer(inner: Sync.NullLock<SysTimerInner>)

  /** `SysTimer::new`. */
  function New(baseAddr: nat): (t: SysTimer)
    ensures t.inner.data.baseAddr == baseAddr
  {
    SysTimer(Sync.New(SysTimerInner(baseAddr)))
  }

  /** `SysTimer::get_systimer`: the inner read through the lock, which it
      leaves as it was. */
  function DriverGetSysTimer(t: SysTimer, c: seq<u64>): (r: (SysTimer, Option<Sample>))
    ensures r.0 == t
    ensures r.1 == GetSysTimer(c)
  {
    var (l, s) := Sync.Lock(t.inner, (u: SysTimerInner) => (u, GetSysTimer(c)));
    (SysTimer(l), s)
  }

  /** `DeviceDriver::init`: the compare writes through the lock, then `Ok`. */
  function DriverInit(t: SysTimer): (r: (SysTimer, seq<(Compare, u32)>, Interface.DriverResult))
    ensures r.0 == t && r.2.Ok?
    ensures r.1 == Init().0
  {
    var (l, w) := Sync.Lock(t.inner, (u: SysTimerInner) => (u, Init()));
    (SysTimer(l), w.0, w.1)
  }
}
