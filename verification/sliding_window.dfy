/** The sliding absolute-mean noise gate shared by `file_rms` and `ess_detect`,
    and `file_rms` itself. The gate is a ring of 16 `short` slots: slot `i`
    receives the newest magnitude (`ShortAbs`) and slot `j == i+1` is subtracted from
    the running sum, so the sum always covers the newest 15 samples, and the
    mean divides it by 16. */
module SlidingWindow {
  import opened Wrappers
  import opened Pcm
  import opened IntSqrt

  /** `abs_sample[16]`, the write index `i`, the eviction index `j` and `abs_sum`. */
  datatype Window = Window(slots: seq<int>, i: nat, j: nat, absSum: int)

  predicate Valid(w: Window) {
    |w.slots| == 16 && w.i < 16 && w.j == (w.i + 1) % 16
  }

  /** All slots zero, `i = 0`, `j = 1`, `abs_sum = 0`. */
  function Empty(): (w: Window)
    ensures Valid(w)
  {
    Window(seq(16, _ => 0), 0, 1, 0)
  }

  /** One sample through the gate: store `abs(sample)` at `i`, add it and take
      away slot `j`, then advance both indices modulo 16. */
  function Push(w: Window, x: int): (r: Window)
    requires Valid(w)
    ensures Valid(r)
  {
    var slots := w.slots[w.i := ShortAbs(x)];
    Window(slots, (w.i + 1) % 16, (w.j + 1) % 16, w.absSum + slots[w.i] - slots[w.j])
  }

  /** `sliding_abs_mean = abs_sum >> 4`. */
  function Mean(w: Window): int {
    w.absSum / 16
  }

  /** The gate after reading `xs` from an empty gate. */
  function Feed(xs: seq<int>): (w: Window)
    ensures Valid(w)
  {
    if |xs| == 0 then Empty() else Push(Feed(xs[..|xs| - 1]), xs[|xs| - 1])
  }

  /** The newest 15 samples of `xs` (all of them when there are fewer). */
  function Last15(xs: seq<int>): seq<int> {
    if |xs| <= 15 then xs else xs[|xs| - 15..]
  }

  /** The magnitude the gate remembers for position `p`, 0 before the start. */
  function Past(xs: seq<int>, p: int): int
    requires p < |xs|
  {
    if p < 0 then 0 else ShortAbs(xs[p])
  }

  /** After `n` samples, `Age(n, k)` more writes go to other slots before
      slot `k` is overwritten, i.e. it holds position `n - 16 + Age(n, k)`. */
  function Age(n: nat, k: nat): int {
    if n % 16 <= k then k - n % 16 else k + 16 - n % 16
  }

  lemma Mod16Succ(n: nat)
    ensures (n + 1) % 16 == if n % 16 == 15 then 0 else n % 16 + 1
  {
  }

  /** What one more sample does to the age of every slot. */
  lemma AgeStep(n: nat, k: nat)
    requires k < 16
    ensures k == n % 16 ==> Age(n, k) == 0 && Age(n + 1, k) == 15
    ensures k != n % 16 ==> 1 <= Age(n, k) && Age(n + 1, k) == Age(n, k) - 1
    ensures k == (n % 16 + 1) % 16 ==> Age(n, k) == 1
  {
    Mod16Succ(n);
  }

  /** The contents of the ring after the samples `xs`. */
  ghost predicate Holds(w: Window, xs: seq<int>) {
    && Valid(w)
    && w.i == |xs| % 16
    && forall k :: 0 <= k < 16 ==> w.slots[k] == Past(xs, |xs| - 16 + Age(|xs|, k))
  }

  lemma PushHolds(w: Window, xs: seq<int>, x: int)
    requires Holds(w, xs)
    ensures Holds(Push(w, x), xs + [x])
  {
    var n := |xs|;
    var ys := xs + [x];
    var r := Push(w, x);
    Mod16Succ(n);
    assert r.i == |ys| % 16;
    forall k | 0 <= k < 16
      ensures r.slots[k] == Past(ys, |ys| - 16 + Age(|ys|, k))
    {
      AgeStep(n, k);
      if k != w.i {
        assert r.slots[k] == w.slots[k];
        assert Past(xs, n - 16 + Age(n, k)) == Past(ys, n - 16 + Age(n, k));
      }
    }
  }

  /** The ring holds the magnitudes of the newest 16 samples, the write index
      is the sample count modulo 16. */
  lemma {:induction false} FeedSlots(xs: seq<int>)
    ensures Holds(Feed(xs), xs)
  {
    if |xs| == 0 {
      var w := Feed(xs);
      forall k | 0 <= k < 16
        ensures w.slots[k] == Past(xs, |xs| - 16 + Age(|xs|, k))
      {
      }
    } else {
      var n := |xs| - 1;
      FeedSlots(xs[..n]);
      PushHolds(Feed(xs[..n]), xs[..n], xs[n]);
      assert xs[..n] + [xs[n]] == xs;
    }
  }

  lemma {:induction false} SumAbsPrepend(a: int, s: seq<int>)
    ensures SumAbs([a] + s) == ShortAbs(a) + SumAbs(s)
    decreases |s|
  {
    if |s| > 0 {
      var t := [a] + s;
      assert t[..|t| - 1] == [a] + s[..|s| - 1];
      SumAbsPrepend(a, s[..|s| - 1]);
    }
  }

  /** The running sum is the sum of the magnitudes of the newest 15 samples
      (not 16: the slot taken away is the one written 15 samples ago). */
  lemma {:induction false} FeedSum(xs: seq<int>)
    ensures Feed(xs).absSum == SumAbs(Last15(xs))
  {
    if |xs| > 0 {
      var n := |xs| - 1;
      var pre, x := xs[..n], xs[n];
      assert pre + [x] == xs;
      assert Feed(xs) == Push(Feed(pre), x);
      FeedSum(pre);
      FeedSlots(pre);
      PushSum(Feed(pre), pre, x);
      Last15Step(pre, x);
    }
  }

  /** One push adds the new magnitude and takes away the one from 15 samples ago. */
  lemma PushSum(w: Window, xs: seq<int>, x: int)
    requires Holds(w, xs)
    ensures Push(w, x).absSum == w.absSum + ShortAbs(x) - Past(xs, |xs| - 15)
  {
    var n := |xs|;
    AgeStep(n, w.j);
    assert w.slots[w.j] == Past(xs, n - 16 + Age(n, w.j));
  }

  /** The newest 15 samples gain `x` and lose the one 15 samples back. */
  lemma Last15Step(xs: seq<int>, x: int)
    ensures SumAbs(Last15(xs + [x])) == SumAbs(Last15(xs)) + ShortAbs(x) - Past(xs, |xs| - 15)
  {
    if |xs| < 15 {
      ShortStep(xs, x);
    } else {
      LongStep(xs, x);
    }
  }

  lemma ShortStep(xs: seq<int>, x: int)
    requires |xs| < 15
    ensures SumAbs(xs + [x]) == SumAbs(xs) + ShortAbs(x)
  {
    assert (xs + [x])[..|xs|] == xs;
  }

  lemma LongStep(xs: seq<int>, x: int)
    requires |xs| >= 15
    ensures SumAbs(Last15(xs + [x])) == SumAbs(Last15(xs)) + ShortAbs(x) - ShortAbs(xs[|xs| - 15])
  {
    var n := |xs|;
    var mid := xs[n - 14..n];
    var ys := (xs + [x])[n - 14..];
    assert ys[..14] == mid && ys[14] == x;
    assert xs[n - 15..] == [xs[n - 15]] + mid;
    SumAbsPrepend(xs[n - 15], mid);
  }

  /** The gate's mean after `xs`: the sum over the newest 15 samples, divided by 16. */
  lemma FeedMean(xs: seq<int>)
    ensures Mean(Feed(xs)) == SumAbs(Last15(xs)) / 16
  {
    FeedSum(xs);
  }

  /** `sliding_abs_mean = abs_sum >> 4` as the program evaluates it: `abs_sum`
      is an `unsigned int`, so the running sum is held modulo 2^32 and shifted
      logically, and the quotient is stored into a `short`. */
  function ShiftedMean(absSum: int): int {
    ToShort((absSum % UInt32Modulus) / 16)
  }

  /** On every sum the gate can hold, the unsigned shift and the truncation
      cancel out: the program's mean is the floor of the signed sum over 16,
      which -32768, counted as -32768 rather than +32768, can make negative. */
  lemma ShiftedMeanExact(s: int)
    requires -15 * 0x8000 <= s <= 15 * 0x7fff
    ensures ShiftedMean(s) == s / 16
  {
    if s < 0 {
      assert s % UInt32Modulus == s + UInt32Modulus;
      assert (s + UInt32Modulus) / 16 == s / 16 + 0x1000_0000;
    }
  }

  lemma {:induction false} SumAbsBounds(xs: seq<int>)
    requires Samples(xs)
    ensures -0x8000 * |xs| <= SumAbs(xs) <= 0x7fff * |xs|
  {
    if |xs| > 0 {
      SumAbsBounds(xs[..|xs| - 1]);
    }
  }

  /** For 16-bit samples the gate's mean is the one the program computes. */
  lemma FeedMeanAsWritten(xs: seq<int>)
    requires Samples(xs)
    ensures ShiftedMean(Feed(xs).absSum) == Mean(Feed(xs))
  {
    FeedSum(xs);
    SumAbsBounds(Last15(xs));
    ShiftedMeanExact(Feed(xs).absSum);
  }

  /** A lone -32768 leaves -32768 in its slot, so the mean is -2048, below
      any non-negative noise floor, where its magnitude would give 2048. */
  lemma MinSampleGate()
    ensures Mean(Feed([-0x8000])) == -2048
  {
    FeedSum([-0x8000]);
  }

  /** -32768 still counts as -32768 beside louder samples, but their
      magnitudes can keep the sum, and the mean, positive. */
  lemma MinSampleBeside()
    ensures Mean(Feed([-0x8000, 0x7fff, 0x7fff])) == 2047
  {
    var xs := [-0x8000, 0x7fff, 0x7fff];
    FeedSum(xs);
    assert xs[..2] == [-0x8000, 0x7fff] && xs[..2][..1] == [-0x8000] && xs[..2][..1][..0] == [];
    assert SumAbs([-0x8000]) == -0x8000;
    assert SumAbs(xs[..2]) == -0x8000 + 0x7fff;
  }

  /** The running energy totals of `file_rms`. */
  datatype Energy = Energy(window: Window, sumOfSquares: nat, n: nat)

  /** The loop of `file_rms` over `xs`: every sample goes through the gate, and
      its square and a count are added only when the mean is strictly above the
      noise floor. */
  function Accumulate(xs: seq<int>, noiseFloor: int): (e: Energy)
    ensures Valid(e.window)
  {
    if |xs| == 0 then Energy(Empty(), 0, 0)
    else
      var e := Accumulate(xs[..|xs| - 1], noiseFloor);
      var x := xs[|xs| - 1];
      var w := Push(e.window, x);
      if Mean(w) > noiseFloor then Energy(w, e.sumOfSquares + x * x, e.n + 1)
      else Energy(w, e.sumOfSquares, e.n)
  }

  /** Reference definition of the gated samples: those at whose arrival the mean
      of the newest 15 magnitudes, divided by 16, exceeds the noise floor. */
  function Gated(xs: seq<int>, noiseFloor: int): seq<int> {
    if |xs| == 0 then []
    else
      Gated(xs[..|xs| - 1], noiseFloor)
      + (if SumAbs(Last15(xs)) / 16 > noiseFloor then [xs[|xs| - 1]] else [])
  }

  /** The ring-buffer loop computes exactly the energy of the gated samples. */
  lemma {:induction false} AccumulateGated(xs: seq<int>, noiseFloor: int)
    ensures Accumulate(xs, noiseFloor).window == Feed(xs)
    ensures Accumulate(xs, noiseFloor).sumOfSquares == SumSq(Gated(xs, noiseFloor))
    ensures Accumulate(xs, noiseFloor).n == |Gated(xs, noiseFloor)|
  {
    if |xs| > 0 {
      var pre := xs[..|xs| - 1];
      AccumulateGated(pre, noiseFloor);
      FeedMean(xs);
      var g := Gated(xs, noiseFloor);
      if SumAbs(Last15(xs)) / 16 > noiseFloor {
        assert g[..|g| - 1] == Gated(pre, noiseFloor);
      } else {
        assert g == Gated(pre, noiseFloor);
      }
    }
  }

  /** `sqroot(sum_of_squares/n)`; a zero count is the division by zero at
      which `file_rms` traps. */
  function RootMean(sumOfSquares: nat, n: nat): (r: Option<nat>)
    ensures r.None? <==> n == 0
    ensures r.Some? ==> r.value * r.value <= sumOfSquares / n < (r.value + 1) * (r.value + 1)
  {
    if n == 0 then None else Some(Sqroot(sumOfSquares / n))
  }

  /** `file_rms`: the floor square root of the mean square over the gated
      samples, `None` when no sample is gated. */
  function FileRms(xs: seq<int>, noiseFloor: int): (r: Option<nat>)
    ensures r == RootMean(SumSq(Gated(xs, noiseFloor)), |Gated(xs, noiseFloor)|)
  {
    var e := Accumulate(xs, noiseFloor);
    AccumulateGated(xs, noiseFloor);
    RootMean(e.sumOfSquares, e.n)
  }
}
