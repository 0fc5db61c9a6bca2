/** Register bits and busy-wait polling, shared by the drivers.

    A spin loop such as "loop until FR.TXFF is clear" is modelled over the
    finite trace of values successive reads of the register return. The
    loop stops at the first reading that satisfies its condition; a trace
    with no such reading is the loop still spinning when the trace ends. */
module Poll {
  import opened Results
  import opened Words

  function Pow2(k: nat): (p: nat)
    ensures p >= 1
  {
    if k == 0 then 1 else 2 * Pow2(k - 1)
  }

  /** Bit `k` of `x` is set: `x & (1 << k) != 0`. */
  predicate BitSet(x: int, k: nat) {
    (x / Pow2(k)) % 2 == 1
  }

  /** A read-modify-write that sets bit 0: `x | 1`. Bit 0 ends up set and
      every other bit keeps its value. */
  function SetBit0(x: u32): (r: u32)
    ensures r % 2 == 1 && r / 2 == x / 2
  {
    if x % 2 == 1 then x else x + 1
  }

  /** A read-modify-write that sets bits 0 and 1: `x | 0b11`. */
  function SetBits01(x: u32): (r: u32)
    ensures r % 4 == 3 && r / 4 == x / 4
  {
    x - x % 4 + 3
  }

  /** A read-modify-write that clears bit 0: `x & !1`. */
  function ClearBit0(x: u32): (r: u32)
    ensures r % 2 == 0 && r / 2 == x / 2
  {
    x - x % 2
  }

  /** The number of readings a spin loop takes before the first ready one:
      the ready reading is at index `k`, or `k == |rs|` when none is. */
  function FirstReady(rs: seq<u32>, ready: u32 -> bool): (k: nat)
    ensures k <= |rs|
    ensures k < |rs| ==> ready(rs[k])
    ensures forall j | 0 <= j < k :: !ready(rs[j])
    decreases |rs|
  {
    if |rs| == 0 then 0
    else if ready(rs[0]) then 0
    else 1 + FirstReady(rs[1..], ready)
  }

  /** The spin loop as the drivers run it: it reads until a ready value
      comes and reports how many readings it took, `None` if the trace ends
      first. It stops at exactly the reading `FirstReady` names. */
  method Spin(rs: seq<u32>, ready: u32 -> bool) returns (taken: Option<nat>)
    ensures taken.Some? <==> FirstReady(rs, ready) < |rs|
    ensures taken.Some? ==> taken.value == FirstReady(rs, ready) + 1
  {
    var i := 0;
    while i < |rs| && !ready(rs[i])
      invariant i <= |rs|
      invariant forall j | 0 <= j < i :: !ready(rs[j])
    {
      i := i + 1;
    }
    FirstReadyIsFirst(rs, ready, i);
    if i == |rs| {
      return None;
    }
    return Some(i + 1);
  }

  /** The first ready reading is unique: any index whose reading is ready
      and has only unready readings before it is the one `FirstReady`
      names. */
  lemma {:induction false} FirstReadyIsFirst(rs: seq<u32>, ready: u32 -> bool, i: nat)
    requires i <= |rs|
    requires i < |rs| ==> ready(rs[i])
    requires forall j | 0 <= j < i :: !ready(rs[j])
    ensures FirstReady(rs, ready) == i
    decreases |rs|
  {
    if |rs| > 0 && !ready(rs[0]) {
      assert forall j | 0 <= j < i - 1 :: rs[1..][j] == rs[j + 1];
      FirstReadyIsFirst(rs[1..], ready, i - 1);
    }
  }
}
