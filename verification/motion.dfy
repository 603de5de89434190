/**
  Frame differencing: the total absolute change of the R, G and B samples of
  every pixel between the previous and the current frame. The alpha sample
  of each pixel is never read.
 */
module Motion {
  import opened Frames

  /** `Math.abs(a - b)` on two samples. */
  function AbsDiff(a: int, b: int): nat {
    if a >= b then a - b else b - a
  }

  /** Two buffers that the pixel loop can walk together: same length, whole pixels. */
  predicate SameShape(p: Buffer, c: Buffer) {
    |p| == |c| && |c| % 4 == 0
  }

  /** Change of the colour channels of the pixel that starts at sample `i`. */
  function PixelDiff(p: Buffer, c: Buffer, i: nat): nat
    requires i + 3 <= |p| && i + 3 <= |c|
  {
    AbsDiff(c[i], p[i]) + AbsDiff(c[i + 1], p[i + 1]) + AbsDiff(c[i + 2], p[i + 2])
  }

  /** The pixel loop's running total after it has walked the first `n` samples. */
  function DiffUpTo(p: Buffer, c: Buffer, n: nat): nat
    requires n % 4 == 0 && n <= |p| && n <= |c|
    decreases n
  {
    if n == 0 then 0 else DiffUpTo(p, c, n - 4) + PixelDiff(p, c, n - 4)
  }

  /** The raw difference `diff` between two frames. */
  function Diff(p: Buffer, c: Buffer): nat
    requires SameShape(p, c)
  {
    DiffUpTo(p, c, |c|)
  }

  /**
    Reference definition, sample by sample: the contribution of sample `k`
    is its absolute change, unless it is an alpha sample.
   */
  function SampleTerm(p: Buffer, c: Buffer, k: nat): nat
    requires k < |p| && k < |c|
  {
    if IsAlpha(k) then 0 else AbsDiff(c[k], p[k])
  }

  function SampleSum(p: Buffer, c: Buffer, n: nat): nat
    requires n <= |p| && n <= |c|
    decreases n
  {
    if n == 0 then 0 else SampleSum(p, c, n - 1) + SampleTerm(p, c, n - 1)
  }

  /** The pixel loop, stepping four samples at a time and skipping alpha. */
  method ComputeDiff(p: Buffer, c: Buffer) returns (diff: nat)
    requires SameShape(p, c)
    ensures diff == Diff(p, c)
    ensures diff == SampleSum(p, c, |c|)
  {
    diff := 0;
    var i := 0;
    while i < |c|
      invariant 0 <= i <= |c| && i % 4 == 0
      invariant diff == DiffUpTo(p, c, i)
    {
      diff := diff + AbsDiff(c[i], p[i]);
      diff := diff + AbsDiff(c[i + 1], p[i + 1]);
      diff := diff + AbsDiff(c[i + 2], p[i + 2]);
      i := i + 4;
    }
    DiffIsSampleSum(p, c);
  }

  /** Within one pixel only the fourth sample is alpha. */
  lemma PixelLayout(i: nat)
    requires i % 4 == 0
    ensures !IsAlpha(i) && !IsAlpha(i + 1) && !IsAlpha(i + 2) && IsAlpha(i + 3)
  {
  }

  lemma {:induction false} DiffUpToIsSampleSum(p: Buffer, c: Buffer, n: nat)
    requires n % 4 == 0 && n <= |p| && n <= |c|
    ensures DiffUpTo(p, c, n) == SampleSum(p, c, n)
    decreases n
  {
    if n > 0 {
      var i := n - 4;
      DiffUpToIsSampleSum(p, c, i);
      PixelLayout(i);
      assert SampleSum(p, c, i + 4) == SampleSum(p, c, i + 3);
      assert SampleSum(p, c, i + 3) == SampleSum(p, c, i + 2) + AbsDiff(c[i + 2], p[i + 2]);
      assert SampleSum(p, c, i + 2) == SampleSum(p, c, i + 1) + AbsDiff(c[i + 1], p[i + 1]);
      assert SampleSum(p, c, i + 1) == SampleSum(p, c, i) + AbsDiff(c[i], p[i]);
    }
  }

  /** The stride-4 loop adds exactly the colour samples and nothing else. */
  lemma DiffIsSampleSum(p: Buffer, c: Buffer)
    requires SameShape(p, c)
    ensures Diff(p, c) == SampleSum(p, c, |c|)
  {
    DiffUpToIsSampleSum(p, c, |c|);
  }

  lemma {:induction false} SampleSumZeroIff(p: Buffer, c: Buffer, n: nat)
    requires n <= |p| && n <= |c|
    ensures SampleSum(p, c, n) == 0 <==> forall k :: 0 <= k < n && !IsAlpha(k) ==> p[k] == c[k]
    decreases n
  {
    if n > 0 {
      SampleSumZeroIff(p, c, n - 1);
    }
  }

  /**
    The difference is zero exactly when the two frames agree on every colour
    sample; in particular two identical frames differ by zero.
   */
  lemma DiffZeroIff(p: Buffer, c: Buffer)
    requires SameShape(p, c)
    ensures Diff(p, c) == 0 <==> forall k :: 0 <= k < |c| && !IsAlpha(k) ==> p[k] == c[k]
  {
    DiffIsSampleSum(p, c);
    SampleSumZeroIff(p, c, |c|);
  }

  lemma DiffSelf(f: Buffer)
    requires |f| % 4 == 0
    ensures Diff(f, f) == 0
  {
    DiffZeroIff(f, f);
  }

  /** Buffers that agree everywhere except possibly on alpha samples. */
  predicate SameColours(a: Buffer, b: Buffer) {
    |a| == |b| && forall k :: 0 <= k < |a| && !IsAlpha(k) ==> a[k] == b[k]
  }

  lemma {:induction false} SampleSumMonotone(p: Buffer, c: Buffer, p': Buffer, c': Buffer, n: nat)
    requires n <= |p| && n <= |c| && n <= |p'| && n <= |c'|
    requires forall k :: 0 <= k < n ==> SampleTerm(p, c, k) <= SampleTerm(p', c', k)
    ensures SampleSum(p, c, n) <= SampleSum(p', c', n)
    decreases n
  {
    if n > 0 {
      SampleSumMonotone(p, c, p', c', n - 1);
      assert SampleTerm(p, c, n - 1) <= SampleTerm(p', c', n - 1);
    }
  }

  /**
    Monotonicity: if no colour sample's absolute change shrinks, the total
    does not shrink.
   */
  lemma DiffMonotone(p: Buffer, c: Buffer, p': Buffer, c': Buffer)
    requires SameShape(p, c) && |p'| == |p| && |c'| == |c|
    requires forall k :: 0 <= k < |c| && !IsAlpha(k) ==> AbsDiff(c[k], p[k]) <= AbsDiff(c'[k], p'[k])
    ensures Diff(p, c) <= Diff(p', c')
  {
    forall k | 0 <= k < |c|
      ensures SampleTerm(p, c, k) <= SampleTerm(p', c', k)
    {
      if !IsAlpha(k) {
        assert AbsDiff(c[k], p[k]) <= AbsDiff(c'[k], p'[k]);
      }
    }
    SampleSumMonotone(p, c, p', c', |c|);
    DiffIsSampleSum(p, c);
    DiffIsSampleSum(p', c');
  }

  /** Alpha samples are never read: frames with the same colours give the same difference. */
  lemma DiffIgnoresAlpha(p: Buffer, c: Buffer, p': Buffer, c': Buffer)
    requires SameShape(p, c) && SameColours(p, p') && SameColours(c, c')
    ensures SameShape(p', c')
    ensures Diff(p', c') == Diff(p, c)
  {
    forall k | 0 <= k < |c| && !IsAlpha(k)
      ensures AbsDiff(c[k], p[k]) <= AbsDiff(c'[k], p'[k])
      ensures AbsDiff(c'[k], p'[k]) <= AbsDiff(c[k], p[k])
    {
      assert p[k] == p'[k] && c[k] == c'[k];
    }
    DiffMonotone(p, c, p', c');
    DiffMonotone(p', c', p, c);
  }

  lemma {:induction false} SampleSumUpdate(p: Buffer, c: Buffer, j: nat, v: Sample, n: nat)
    requires j < |c| && n <= |p| && n <= |c|
    ensures SampleSum(p, c[j := v], n) + (if j < n then SampleTerm(p, c, j) else 0)
         == SampleSum(p, c, n) + (if j < n then SampleTerm(p, c[j := v], j) else 0)
    decreases n
  {
    if n > 0 {
      SampleSumUpdate(p, c, j, v, n - 1);
      if n - 1 != j {
        assert SampleTerm(p, c[j := v], n - 1) == SampleTerm(p, c, n - 1);
      }
    }
  }

  /**
    Changing one colour sample of the current frame moves the difference by
    exactly the change of that sample's absolute difference, so growing one
    channel's absolute change never lowers the total. (Changing an alpha
    sample moves nothing: see DiffIgnoresAlpha.)
   */
  lemma DiffChannelUpdate(p: Buffer, c: Buffer, j: nat, v: Sample)
    requires SameShape(p, c) && j < |c| && !IsAlpha(j)
    ensures Diff(p, c[j := v]) + AbsDiff(c[j], p[j]) == Diff(p, c) + AbsDiff(v, p[j])
  {
    SampleSumUpdate(p, c, j, v, |c|);
    DiffIsSampleSum(p, c);
    DiffIsSampleSum(p, c[j := v]);
  }

  lemma {:induction false} DiffUpToBound(p: Buffer, c: Buffer, m: nat)
    requires 4 * m <= |p| && 4 * m <= |c|
    ensures DiffUpTo(p, c, 4 * m) <= 765 * m
    decreases m
  {
    if m > 0 {
      DiffUpToBound(p, c, m - 1);
      assert 4 * m - 4 == 4 * (m - 1);
    }
  }

  /** Each pixel contributes at most 3 * 255, so the score never exceeds 765. */
  lemma DiffBound(p: Buffer, c: Buffer)
    requires SameShape(p, c)
    ensures Diff(p, c) <= 765 * (|c| / 4)
  {
    DiffUpToBound(p, c, |c| / 4);
    assert 4 * (|c| / 4) == |c|;
  }
}
