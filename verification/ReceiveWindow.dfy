/** Arithmetic of the receive window: 64-bit mask words, the expansion of a 16-bit wire
    number, and the count of packet numbers that never arrived. */
module ReceiveWindow {

  // ---------- Bits of a mask word ----------

  /** The six-bit shift amount that stands for n. */
  function Slot(n: nat): bv6
    requires n < 64
  {
    if n == 0 then 0 else Slot(n - 1) + 1
  }

  function Mask(n: nat): bv64
    requires n < 64
  {
    (1 as bv64) << Slot(n)
  }

  predicate Bit(w: bv64, n: nat)
    requires n < 64
  {
    w & Mask(n) != 0
  }

  lemma SlotSuccessor(i: bv6)
    ensures i as int < 63 ==> (i + 1) as int == i as int + 1
  {
  }

  lemma {:induction false} SlotValue(n: nat)
    requires n < 64
    ensures Slot(n) as int == n
  {
    if n > 0 {
      SlotValue(n - 1);
      SlotSuccessor(Slot(n - 1));
    }
  }

  lemma SlotOrder(n: nat, m: nat)
    requires n < 64 && m < 64
    ensures n == m <==> Slot(n) == Slot(m)
    ensures n < m <==> Slot(n) < Slot(m)
  {
    SlotValue(n);
    SlotValue(m);
  }

  lemma OrBit(w: bv64, i: bv6, j: bv6)
    ensures (w | ((1 as bv64) << i)) & ((1 as bv64) << i) != 0
    ensures i != j ==> (w | ((1 as bv64) << i)) & ((1 as bv64) << j) == w & ((1 as bv64) << j)
  {
  }

  lemma SetOwnBit(w: bv64, n: nat)
    requires n < 64
    ensures Bit(w | Mask(n), n)
  {
    OrBit(w, Slot(n), Slot(n));
  }

  lemma KeepOtherBit(w: bv64, n: nat, m: nat)
    requires n < 64 && m < 64 && n != m
    ensures (w | Mask(n)) & Mask(m) == w & Mask(m)
  {
    SlotOrder(n, m);
    OrBit(w, Slot(n), Slot(m));
  }

  /** The positions of the one-bits of a word. */
  function Bits(w: bv64): set<nat> {
    set n: nat | n < 64 && Bit(w, n)
  }

  function SetBit(w: bv64, n: nat): bv64
    requires n < 64
  {
    w | Mask(n)
  }

  lemma BitsOfSetBit(w: bv64, n: nat)
    requires n < 64
    ensures Bits(SetBit(w, n)) == Bits(w) + {n}
  {
    forall m: nat | m < 64
      ensures Bit(SetBit(w, n), m) <==> n == m || Bit(w, m)
    {
      if n == m {
        SetOwnBit(w, n);
      } else {
        KeepOtherBit(w, n, m);
      }
    }
  }

  lemma LowBits6(i: bv6, j: bv6)
    ensures (((1 as bv64) << i) - 1) & ((1 as bv64) << j) != 0 <==> j < i
  {
  }

  lemma LowBits(n: nat, m: nat)
    requires n < 64 && m < 64
    ensures Bit(Mask(n) - 1, m) <==> m < n
  {
    LowBits6(Slot(n), Slot(m));
    SlotOrder(m, n);
  }

  lemma BitsOfLowMask(w: bv64, n: nat)
    requires n < 64 && w == Mask(n) - 1
    ensures forall m: nat :: m in Bits(w) <==> m < n
  {
    forall m: nat
      ensures m in Bits(w) <==> m < n
    {
      if m < 64 {
        LowBits(n, m);
      }
    }
  }

  lemma BitsOfOnes(w: bv64)
    requires w == !0
    ensures forall m: nat :: m in Bits(w) <==> m < 64
  {
    forall m: nat
      ensures m in Bits(w) <==> m < 64
    {
      if m < 64 {
        OrBit(w, Slot(m), Slot(m));
      }
    }
  }

  lemma BitsOfZero()
    ensures Bits(0) == {}
  {
  }

  // ---------- Two words as a sliding window over packet numbers ----------

  /** The largest multiple of 64 that is at most max. */
  function Base(max: int): int {
    max - max % 64
  }

  /** Which mask word holds k: 0 or 1 inside the window, negative before it, 2 or more after. */
  function WordIndex(k: int, max: int): int {
    (k - Base(max)) / 64 + 1
  }

  lemma WordIndexRange(k: int, max: int)
    ensures WordIndex(k, max) < 0 <==> k < Base(max) - 64
    ensures WordIndex(k, max) == 0 <==> Base(max) - 64 <= k < Base(max)
    ensures WordIndex(k, max) == 1 <==> Base(max) <= k < Base(max) + 64
    ensures WordIndex(k, max) == 1 <==> Base(k) == Base(max)
    ensures WordIndex(k, max) == 2 <==> Base(k) == Base(max) + 64
    ensures Base(max) <= max < Base(max) + 64
  {
  }

  lemma AboveWindowStart(k: int, max: int)
    requires k >= Base(max) - 64
    ensures k - max >= -128
  {
  }

  /** What a bit of the window stands for: k has been seen, or lies at or below the last
      number the window was initialised to. */
  ghost predicate Marked(k: int, max: int, init: int, done: set<int>) {
    k <= max && (k <= init || k in done)
  }

  /** s1 holds Base(max) .. Base(max)+63 and s0 the 64 numbers before. */
  ghost predicate SetWindow(s0: set<nat>, s1: set<nat>, max: int, init: int, done: set<int>) {
    forall j: nat | j < 64 ::
      && (j in s0 <==> Marked(Base(max) - 64 + j, max, init, done))
      && (j in s1 <==> Marked(Base(max) + j, max, init, done))
  }

  ghost predicate Window(w0: bv64, w1: bv64, max: int, init: int, done: set<int>) {
    SetWindow(Bits(w0), Bits(w1), max, init, done)
  }

  lemma WindowBit(w0: bv64, w1: bv64, max: int, init: int, done: set<int>, k: int)
    requires Window(w0, w1, max, init, done)
    requires Base(max) - 64 <= k < Base(max) + 64
    ensures Bit(if k < Base(max) then w0 else w1, k % 64) <==> Marked(k, max, init, done)
  {
    var j := k % 64;
    assert k == Base(max) + j || k == Base(max) - 64 + j;
    assert Bit(w0, j) <==> j in Bits(w0);
    assert Bit(w1, j) <==> j in Bits(w1);
  }

  /** The mask words that say "everything so far has been received": all ones below, and
      the lowest bitsToSet bits above. */
  function InitLow(): bv64 {
    !0
  }

  function InitHigh(bitsToSet: nat): bv64
    requires bitsToSet <= 64
  {
    if bitsToSet == 64 then !0 else Mask(bitsToSet) - 1
  }

  lemma InitWindow(n: nat, done: set<int>)
    requires forall d | d in done :: d <= n
    ensures Window(InitLow(), InitHigh(n % 64 + 1), n, n, done)
  {
    BitsOfOnes(InitLow());
    if n % 64 == 63 {
      BitsOfOnes(InitHigh(64));
    } else {
      BitsOfLowMask(InitHigh(n % 64 + 1), n % 64 + 1);
    }
  }

  lemma MarkInSetWindow(s0: set<nat>, s1: set<nat>, max: int, init: int, done: set<int>, k: int)
    requires SetWindow(s0, s1, max, init, done)
    requires Base(max) - 64 <= k <= max
    ensures k < Base(max) ==> SetWindow(s0 + {k % 64}, s1, max, init, done + {k})
    ensures k >= Base(max) ==> SetWindow(s0, s1 + {k % 64}, max, init, done + {k})
  {
    assert k == (if k < Base(max) then Base(max) - 64 else Base(max)) + k % 64;
  }

  /** Setting the bit of k, at or below the maximum, adds k to the set the window stands for. */
  lemma MarkInWindow(w0: bv64, w1: bv64, max: int, init: int, done: set<int>, k: int, v0: bv64, v1: bv64)
    requires Window(w0, w1, max, init, done)
    requires Base(max) - 64 <= k <= max
    requires k < Base(max) ==> Bits(v0) == Bits(w0) + {k % 64} && v1 == w1
    requires k >= Base(max) ==> v0 == w0 && Bits(v1) == Bits(w1) + {k % 64}
    ensures Window(v0, v1, max, init, done + {k})
  {
    hide Bits;
    MarkInSetWindow(Bits(w0), Bits(w1), max, init, done, k);
  }

  /** The words once the maximum moves up to k: kept, shifted by one word, or cleared. */
  function SlideLow(w0: bv64, w1: bv64, max: int, k: int): bv64 {
    if Base(k) == Base(max) then w0 else if Base(k) == Base(max) + 64 then w1 else 0
  }

  function SlideHigh(w1: bv64, max: int, k: int): bv64 {
    if Base(k) == Base(max) then w1 else 0
  }

  lemma SlideWindow(w0: bv64, w1: bv64, max: int, init: int, done: set<int>, k: int)
    requires Window(w0, w1, max, init, done)
    requires init <= max < k && forall d | d in done :: d <= max
    ensures Window(SlideLow(w0, w1, max, k), SlideHigh(w1, max, k), k, init, done)
  {
    BitsOfZero();
  }

  // ---------- Sixteen bits on the wire ----------

  /** The signed 16-bit difference between a wire number and the maximum. */
  function Gap(wire: int, max: int): int {
    var d := (wire - max % 0x1_0000) % 0x1_0000;
    if d >= 0x8000 then d - 0x1_0000 else d
  }

  function Expand(wire: int, max: int): int {
    max + Gap(wire, max)
  }

  /** The expansion recovers a sender's number exactly when that number lies within
      [max - 2^15, max + 2^15). */
  lemma ExpandRecovers(s: int, max: int)
    ensures Expand(s % 0x1_0000, max) == s <==> max - 0x8000 <= s < max + 0x8000
  {
    var d := (s % 0x1_0000 - max % 0x1_0000) % 0x1_0000;
    assert (s - max - d) % 0x1_0000 == 0;
    assert -0x8000 <= Gap(s % 0x1_0000, max) < 0x8000;
    var q := (s - max - d) / 0x1_0000;
    assert s - max == d + 0x1_0000 * q;
  }

  // ---------- Numbers that never arrived ----------

  /** How many k in (lo, hi] are not in done. */
  function Missing(lo: int, hi: int, done: set<int>): nat
    decreases hi - lo
  {
    if hi <= lo then 0 else Missing(lo, hi - 1, done) + (if hi in done then 0 else 1)
  }

  /** It is how many numbers above lo and up to hi are not done. */
  lemma {:induction false} MissingCounts(lo: int, hi: int, done: set<int>, absent: set<int>)
    requires forall k :: k in absent <==> lo < k <= hi && k !in done
    ensures Missing(lo, hi, done) == |absent|
    decreases hi - lo
  {
    if hi <= lo {
      assert forall k :: k !in absent;
      assert absent == {};
    } else {
      MissingCounts(lo, hi - 1, done, absent - {hi});
      assert hi in absent ==> absent == absent - {hi} + {hi};
      assert hi !in absent ==> absent - {hi} == absent;
    }
  }

  lemma {:induction false} MissingAfterArrival(lo: int, hi: int, done: set<int>, k: int)
    requires k !in done
    ensures Missing(lo, hi, done + {k}) == Missing(lo, hi, done) - (if lo < k <= hi then 1 else 0)
    decreases hi - lo
  {
    if hi > lo {
      MissingAfterArrival(lo, hi - 1, done, k);
    }
  }

  lemma {:induction false} MissingAfterGap(lo: int, max: int, hi: int, done: set<int>)
    requires lo <= max <= hi && forall d | d in done :: d <= max
    ensures Missing(lo, hi, done) == Missing(lo, max, done) + (hi - max)
    decreases hi - max
  {
    if hi > max {
      MissingAfterGap(lo, max, hi - 1, done);
    }
  }
}
