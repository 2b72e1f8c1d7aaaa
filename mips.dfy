/**
  The dimension arithmetic of a mip chain: the halving step GenerateMipmaps
  applies to the width and the height, how many steps it takes until both are 1,
  and how the chain's dimensions relate to the shifted dimensions SaveToFile
  writes into the mip table.
*/
module Mips {
  import opened DstFormat

  /** INT_MAX of a 32-bit int. */
  const IntMax: nat := 0x7fff_ffff

  function Max(a: nat, b: nat): nat {
    if a < b then b else a
  }

  /** One mip step on a dimension: std::max(1, d / 2). */
  function Halve(d: nat): (r: nat)
    ensures 1 <= r && (d >= 2 ==> 2 * r <= d < 2 * r + 2)
  {
    if d / 2 < 1 then 1 else d / 2
  }

  /** The dimension after `k` mip steps. */
  function HalveN(d: nat, k: nat): nat {
    if k == 0 then d else Halve(HalveN(d, k - 1))
  }

  /** The number of mip steps until both dimensions are at most 1: the number
      of times the body of GenerateMipmaps' loop runs. */
  function MipSteps(w: nat, h: nat): (n: nat)
    ensures n == 0 <==> w <= 1 && h <= 1
    decreases Max(w, h)
  {
    if w <= 1 && h <= 1 then 0 else 1 + MipSteps(Halve(w), Halve(h))
  }

  /** The byte counts of the levels GenerateMipmaps appends to a chain whose
      base is w x h: one per step, each for the dimensions after that step. */
  function StepSizes(w: nat, h: nat, channels: nat): (r: seq<nat>)
    ensures |r| == MipSteps(w, h)
    decreases Max(w, h)
  {
    if w <= 1 && h <= 1 then []
    else
      var hw, hh := Halve(w), Halve(h);
      ProductNonNegative(hw, hh, channels);
      var size: nat := hw * hh * channels;
      [size] + StepSizes(hw, hh, channels)
  }

  /** floor(log2 n), and 0 for n <= 1. */
  function Log2(n: nat): nat {
    if n <= 1 then 0 else 1 + Log2(n / 2)
  }

  /** The byte count of the level `k` steps down a chain whose base is
      width x height with `channels` bytes per pixel. */
  function LevelBytes(width: nat, height: nat, channels: nat, k: nat): nat {
    HalveN(width, k) * HalveN(height, k) * channels
  }

  /** A step yields at least 1, halves anything of 2 or more and never grows a
      dimension of 1 or more. */
  lemma HalveBounds(d: nat)
    ensures Halve(d) >= 1
    ensures d >= 2 ==> Halve(d) == d / 2 && Halve(d) < d
    ensures d >= 1 ==> Halve(d) <= d
    ensures d <= 1 ==> Halve(d) == 1
  {
  }

  /** k steps then one more are one step then k more. */
  lemma {:induction false} HalveNShift(d: nat, k: nat)
    ensures HalveN(d, k + 1) == HalveN(Halve(d), k)
  {
    if k > 0 {
      HalveNShift(d, k - 1);
    }
  }

  /** After any number of steps a dimension of 1 or more is still between 1 and
      where it started. */
  lemma {:induction false} HalveNBounds(d: nat, k: nat)
    requires d >= 1
    ensures 1 <= HalveN(d, k) <= d
  {
    if k > 0 {
      HalveNBounds(d, k - 1);
    }
  }

  /** The dimension after k steps is max(1, d >> k), which SaveToFile writes as
      the width or height of table entry k; for k = 0 this needs d >= 1. */
  lemma {:induction false} HalveNIsShift(d: U32, k: nat)
    requires d >= 1 || k >= 1
    ensures HalveN(d, k) == MaxOne(Shr(d, k))
  {
    if k > 1 {
      HalveNIsShift(d, k - 1);
    }
  }

  /** The step on the larger dimension is the larger of the two steps. */
  lemma HalveMax(w: nat, h: nat)
    ensures Max(Halve(w), Halve(h)) == Halve(Max(w, h))
  {
  }

  /** The number of steps is floor(log2(max(w, h))): 0 for a 1 x 1 base. */
  lemma {:induction false} MipStepsIsLog2(w: nat, h: nat)
    ensures MipSteps(w, h) == Log2(Max(w, h))
    decreases Max(w, h)
  {
    if !(w <= 1 && h <= 1) {
      MipStepsIsLog2(Halve(w), Halve(h));
      HalveMax(w, h);
    }
  }

  /** The loop stops exactly when both dimensions are 1: after MipSteps(w, h)
      steps both are at most 1, and both are exactly 1 when at least one step
      was taken. */
  lemma {:induction false} MipStepsReachUnit(w: nat, h: nat)
    ensures HalveN(w, MipSteps(w, h)) <= 1 && HalveN(h, MipSteps(w, h)) <= 1
    ensures MipSteps(w, h) > 0 ==> HalveN(w, MipSteps(w, h)) == 1 && HalveN(h, MipSteps(w, h)) == 1
    decreases Max(w, h)
  {
    if !(w <= 1 && h <= 1) {
      var hw, hh := Halve(w), Halve(h);
      var n := MipSteps(w, h);
      assert n == 1 + MipSteps(hw, hh);
      MipStepsReachUnit(hw, hh);
      HalveNShift(w, n - 1);
      HalveNShift(h, n - 1);
      HalveBounds(w);
      HalveBounds(h);
      HalveNBounds(hw, n - 1);
      HalveNBounds(hh, n - 1);
    }
  }

  /** Before the last step at least one dimension is above 1, so the loop does
      not stop early. */
  lemma {:induction false} MipStepsBeforeUnit(w: nat, h: nat)
    ensures forall k :: 0 <= k < MipSteps(w, h) ==> HalveN(w, k) > 1 || HalveN(h, k) > 1
    decreases Max(w, h)
  {
    if !(w <= 1 && h <= 1) {
      var hw, hh := Halve(w), Halve(h);
      assert MipSteps(w, h) == 1 + MipSteps(hw, hh);
      MipStepsBeforeUnit(hw, hh);
      forall k | 0 < k < MipSteps(w, h)
        ensures HalveN(w, k) > 1 || HalveN(h, k) > 1
      {
        HalveNShift(w, k - 1);
        HalveNShift(h, k - 1);
      }
    }
  }

  /** floor(log2 n) is below e for any n below 2^e. */
  lemma {:induction false} Log2Bound(n: nat, e: nat)
    requires n < Pow2(e)
    ensures e >= 1 ==> Log2(n) < e
  {
    if n > 1 && e >= 1 {
      Log2Bound(n / 2, e - 1);
    }
  }

  /** 2^e. */
  function Pow2(e: nat): (p: nat)
    ensures p >= 1
  {
    if e == 0 then 1 else 2 * Pow2(e - 1)
  }

  /** 2^(a + b) = 2^a * 2^b. */
  lemma {:induction false} Pow2Add(a: nat, b: nat)
    ensures Pow2(a + b) == Pow2(a) * Pow2(b)
  {
    if b > 0 {
      Pow2Add(a, b - 1);
      assert Pow2(a + b) == 2 * Pow2(a + b - 1);
    }
  }

  /** A base of at most INT_MAX in each dimension takes at most 30 steps, so a
      chain GenerateMipmaps builds from a single base level has at most 31 levels
      and every shift SaveToFile applies to it is below 32. */
  lemma MipStepsBound(w: nat, h: nat)
    requires w <= IntMax && h <= IntMax
    ensures MipSteps(w, h) <= 30
  {
    MipStepsIsLog2(w, h);
    IntMaxIsPow2();
    Log2Bound(Max(w, h), 31);
  }

  /** INT_MAX is 2^31 - 1. */
  lemma IntMaxIsPow2()
    ensures Pow2(31) == IntMax + 1
  {
    var p := Pow2(15);
    assert p == 0x8000 by {
      Pow2Add(5, 10);
      Pow2Add(5, 5);
      assert Pow2(5) == 32;
    }
    assert Pow2(1) == 2;
    Pow2Add(15, 1);
    assert Pow2(16) == 0x1_0000;
    Pow2Add(15, 16);
    assert Pow2(31) == 0x8000 * 0x1_0000;
  }

  /** One size per step, and the size appended at step k + 1 is the byte count
      of the level k + 1 steps down. */
  lemma {:induction false} StepSizesAreLevels(w: nat, h: nat, channels: nat)
    ensures |StepSizes(w, h, channels)| == MipSteps(w, h)
    ensures forall k :: 0 <= k < |StepSizes(w, h, channels)| ==>
              StepSizes(w, h, channels)[k] == LevelBytes(w, h, channels, k + 1)
    decreases Max(w, h)
  {
    if !(w <= 1 && h <= 1) {
      var hw, hh := Halve(w), Halve(h);
      StepSizesAreLevels(hw, hh, channels);
      var s := StepSizes(w, h, channels);
      forall k | 0 <= k < |s|
        ensures s[k] == LevelBytes(w, h, channels, k + 1)
      {
        HalveNShift(w, k);
        HalveNShift(h, k);
      }
    }
  }

  /** A product of natural numbers is a natural number. */
  lemma ProductNonNegative(a: nat, b: nat, c: nat)
    ensures a * b * c >= 0
  {
  }

  /** A product of smaller factors is smaller. */
  lemma ProductMonotone(a: nat, b: nat, c: nat, x: nat, y: nat)
    requires a <= x && b <= y
    ensures a * b * c <= x * y * c
  {
    assert a * b <= x * b <= x * y;
  }

  /** Every level of a chain is at most as large as its base. */
  lemma LevelBytesBound(width: nat, height: nat, channels: nat, k: nat)
    requires width >= 1 && height >= 1
    ensures 1 * 1 * channels <= LevelBytes(width, height, channels, k) <= width * height * channels
  {
    HalveNBounds(width, k);
    HalveNBounds(height, k);
    ProductMonotone(HalveN(width, k), HalveN(height, k), channels, width, height);
    ProductMonotone(1, 1, channels, HalveN(width, k), HalveN(height, k));
  }
}
