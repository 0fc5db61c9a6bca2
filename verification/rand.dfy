/** The BCM2835 hardware random number generator (`bcm2835_rand.rs`): wait
    until the generator holds words, read two of them, join them into one
    64-bit value and reduce it into the caller's range.

    Arithmetic is that of a release build: `max - min` and `+ min` wrap
    modulo 2^64, and a remainder by zero panics. */
module Rand {
  import opened Results
  import opened Words
  import Sync
  import Interface
  import Poll

  /** RNG_WARMUP_COUNT: the number of words the generator discards before
      the first one it offers. */
  const RNG_WARMUP_COUNT: u32 := 0x40_000

  /** `STATUS >> 24 != 0`: the top byte of STATUS counts the words ready to
      read, and the loop waits for at least one. */
  predicate HasWords(status: u32) {
    status / 0x100_0000 != 0
  }

  /** How a call to `rand` ends. */
  datatype Draw =
    | Drawn(value: u64)
    /** `max - min` wrapped to zero, and the remainder by it panicked. */
    | DivideByZero
    /** Every STATUS reading of the trace was still empty. */
    | Spinning

  /** `rand % (max - min) + min` on `usize`: `None` is the panic of a
      remainder by zero. For bounds in order the value lands in the
      half-open range `[min, max)`, at the offset the remainder gives. */
  function Reduce(v: u64, min: u64, max: u64): (r: Option<u64>)
    ensures r.None? <==> min == max
    ensures min < max ==> r.Some? && min <= r.value < max && r.value - min == v % (max - min)
  {
    var span := (max - min) % TWO_64;
    if span == 0 then None
    else
      RemainderBelow(v, span);
      Some((v % span + min) % TWO_64)
  }

  lemma RemainderBelow(v: nat, span: nat)
    requires span > 0
    ensures 0 <= v % span < span
  {
  }

  lemma SmallRemainder(x: nat, p: nat)
    requires x < p
    ensures x % p == x
  {
  }

  /** `RngInner::rand`: poll STATUS (the trace `status`) until it holds
      words, read DATA twice (`l`, then `r`), join the first read above the
      second and reduce. DATA is not read while the trace shows no words. */
  function Rand(status: seq<u32>, l: u32, r: u32, min: u64, max: u64): (d: Draw)
    ensures d.Spinning? <==> forall i | 0 <= i < |status| :: !HasWords(status[i])
    ensures d.DivideByZero? <==> !d.Spinning? && min == max
    ensures d.Drawn? ==> Reduce(Join(l, r), min, max) == Some(d.value)
  {
    var k := Poll.FirstReady(status, (s: u32) => HasWords(s));
    if k == |status| then Spinning
    else
      match Reduce(Join(l, r), min, max)
      case None => DivideByZero
      case Some(v) => Drawn(v)
  }

  /** The first DATA word is the high half of the value reduced and the
      second the low half: swapping the reads changes the draw. */
  lemma FirstReadIsHigh(l: u32, r: u32)
    ensures Join(l, r) / TWO_32 == l && Join(l, r) % TWO_32 == r
    ensures l != r ==> Join(l, r) != Join(r, l)
  {
  }

  /** Every value of the range can come out: the generator words holding
      `target - min` produce it. */
  lemma EveryValueReachable(target: u64, min: u64, max: u64)
    requires min <= target < max
    ensures Rand([0x100_0000], Hi(target - min), Lo(target - min), min, max) == Drawn(target)
  {
    JoinSplit(target - min);
    ReduceOffset(target, min, max);
    assert HasWords(0x100_0000);
  }

  lemma ReduceOffset(target: u64, min: u64, max: u64)
    requires min <= target < max
    ensures Reduce(target - min, min, max) == Some(target)
  {
    SmallRemainder(max - min, TWO_64);
    SmallRemainder(target - min, max - min);
    SmallRemainder(target, TWO_64);
  }

  /** With the bounds the wrong way round the subtraction wraps and the
      value can fall outside both bounds: here 15 from `min = 10`,
      `max = 0`. */
  lemma ReversedBoundsEscape()
    ensures Reduce(5, 10, 0) == Some(15)
  {
  }

  // ---------------------------------------------------------------------------
  // Initialisation
  // ---------------------------------------------------------------------------

  datatype Reg = Ctrl | Status | IntMask

  datatype RegWrite = RegWrite(reg: Reg, value: u32)

  /** `RngInner::init`, given the values CTRL and INT_MASK hold before: mask
      the interrupt (INT_MASK.INT_OFF, bit 0), program the warm-up count,
      then enable the generator (CTRL.ENABLE, bit 0). The two `modify`
      writes change only bit 0. */
  function Init(ctrl: u32, intMask: u32): (w: seq<RegWrite>)
    ensures |w| == 3
    ensures w[0].reg == IntMask && Poll.BitSet(w[0].value, 0) && w[0].value / 2 == intMask / 2
    ensures w[1] == RegWrite(Status, RNG_WARMUP_COUNT)
    ensures w[2].reg == Ctrl && Poll.BitSet(w[2].value, 0) && w[2].value / 2 == ctrl / 2
  {
    [RegWrite(IntMask, Poll.SetBit0(intMask)), RegWrite(Status, RNG_WARMUP_COUNT), RegWrite(Ctrl, Poll.SetBit0(ctrl))]
  }

  /** The generator is enabled only after its interrupt is masked and the
      warm-up count is set. */
  lemma EnabledLast(ctrl: u32, intMask: u32)
    ensures forall i | 0 <= i < |Init(ctrl, intMask)| :: Init(ctrl, intMask)[i].reg == Ctrl <==> i == 2
  {
  }

  // ---------------------------------------------------------------------------
  // Driver
  // ---------------------------------------------------------------------------

  datatype RngInner = RngInner(baseAddr: nat)

  datatype Rng = Rng(inner: Sync.NullLock<RngInner>)

  const COMPATIBLE: string := "BCM2835 Hardware Random Number Generator"

  /** `Rng::new`. */
  function New(baseAddr: nat): (g: Rng)
    ensures g.inner.data.baseAddr == baseAddr
  {
    Rng(Sync.New(RngInner(baseAddr)))
  }

  /** `Rng::rand`: the inner draw through the lock, which it leaves as it
      was. */
  function DriverRand(g: Rng, status: seq<u32>, l: u32, r: u32, min: u64, max: u64): (res: (Rng, Draw))
    ensures res.0 == g
    ensures min < max && res.1.Drawn? ==> min <= res.1.value < max
    ensures res.1 == Rand(status, l, r, min, max)
  {
    var (lk, d) := Sync.Lock(g.inner, (u: RngInner) => (u, Rand(status, l, r, min, max)));
    (Rng(lk), d)
  }

  /** `DeviceDriver::init`: the register writes through the lock, then
      `Ok`. */
  function DriverInit(g: Rng, ctrl: u32, intMask: u32): (res: (Rng, seq<RegWrite>, Interface.DriverResult))
    ensures res.0 == g && res.2.Ok?
    ensures res.1 == Init(ctrl, intMask)
  {
    var (lk, w) := Sync.Lock(g.inner, (u: RngInner) => (u, Init(ctrl, intMask)));
    (Rng(lk), w, Ok(()))
  }
}
