/**
 * Waveform binning, `peaks` of audio-core/src/waveform.rs, over exact reals.  The square root is a
 * parameter: nothing here depends on it.
 */
module Waveform {
  import opened Arithmetic

  function Abs(x: real): real {
    if x < 0.0 then -x else x
  }

  function Max(a: real, b: real): real {
    if a < b then b else a
  }

  function SumAbs(samples: seq<real>): (r: real)
    ensures r >= 0.0
  {
    if samples == [] then 0.0
    else SumAbs(samples[..|samples| - 1]) + Abs(samples[|samples| - 1])
  }

  lemma {:induction false} SumAbsSplit(a: seq<real>, b: seq<real>)
    ensures SumAbs(a + b) == SumAbs(a) + SumAbs(b)
  {
    if b == [] {
      assert a + b == a;
    } else {
      assert (a + b)[..|a + b| - 1] == a + b[..|b| - 1];
      SumAbsSplit(a, b[..|b| - 1]);
    }
  }

  // ---------------------------------------------------------------------------------------------
  // Which samples each bin sums
  // ---------------------------------------------------------------------------------------------

  /** The samples from `lo` up to but excluding `hi`. */
  datatype Range = Range(lo: nat, hi: nat)

  predicate Within(r: Range, n: nat) {
    r.lo < r.hi <= n
  }

  /** Not empty, and one after the other from sample 0, up to sample `n` at most. */
  predicate Consecutive(ranges: seq<Range>, n: nat) {
    forall k :: 0 <= k < |ranges| ==> Within(ranges[k], n) && ranges[k].lo == EndOf(ranges[..k])
  }

  function EndOf(ranges: seq<Range>): nat {
    if ranges == [] then 0 else ranges[|ranges| - 1].hi
  }

  predicate InBin(ranges: seq<Range>, k: nat, i: nat) {
    k < |ranges| && ranges[k].lo <= i < ranges[k].hi
  }

  ghost predicate InSomeBin(ranges: seq<Range>, i: nat) {
    exists k :: InBin(ranges, k, i)
  }

  function Bucket(i: nat, bins: nat, total: nat): nat
    requires total > 0
  {
    i * bins / total
  }

  /** The bins closed by the first `n` samples. */
  function Closed(n: nat, bins: nat, total: nat): seq<Range>
    requires total > 0
  {
    if n == 0 then []
    else
      var before := Closed(n - 1, bins, total);
      if Bucket(n - 1, bins, total) == |before| then before + [Range(EndOf(before), n)] else before
  }

  lemma BucketBelow(i: nat, bins: nat, total: nat)
    requires i < total && bins > 0
    ensures Bucket(i, bins, total) < bins
  {
    var b := Bucket(i, bins, total);
    assert i * bins == total * b + i * bins % total;
    MulStrict(bins, i, total);
    if b >= bins {
      MulMonotone(total, bins, b);
    }
  }

  lemma MulStrict(c: nat, a: nat, b: nat)
    requires a < b && c > 0
    ensures a * c < b * c
  {
    assert b * c == a * c + (b - a) * c;
  }

  /** With at least as many samples as bins, the bucket number rises by one at most. */
  lemma BucketStep(i: nat, bins: nat, total: nat)
    requires 0 < bins <= total
    ensures Bucket(i, bins, total) <= Bucket(i + 1, bins, total) <= Bucket(i, bins, total) + 1
  {
    var b, r := i * bins / total, i * bins % total;
    assert (i + 1) * bins == total * b + r + bins;
    if r + bins < total {
      DivUnique((i + 1) * bins, total, b, r + bins);
    } else {
      MulNext(total, b);
      DivUnique((i + 1) * bins, total, b + 1, r + bins - total);
    }
  }

  lemma LastBucket(bins: nat, total: nat)
    requires 0 < bins <= total
    ensures Bucket(total - 1, bins, total) == bins - 1
  {
    MulNext(total, bins - 1);
    assert (total - 1) * bins == total * bins - bins;
    DivUnique((total - 1) * bins, total, bins - 1, total - bins);
  }

  lemma BucketZero(bins: nat, total: nat)
    requires total > 0
    ensures Bucket(0, bins, total) == 0
  {
    DivUnique(0, total, 0, 0);
  }

  lemma ConsecutiveAppend(ranges: seq<Range>, n: nat, m: nat)
    requires Consecutive(ranges, n) && n < m && EndOf(ranges) <= n
    ensures Consecutive(ranges + [Range(EndOf(ranges), m)], m)
  {
    var more := ranges + [Range(EndOf(ranges), m)];
    forall k | 0 <= k < |more| ensures Within(more[k], m) && more[k].lo == EndOf(more[..k]) {
      assert more[..k] == ranges[..k];
      assert k == |ranges| ==> ranges[..k] == ranges;
    }
  }

  lemma {:induction false} ClosedConsecutive(n: nat, bins: nat, total: nat)
    requires n <= total && total > 0 && bins > 0
    ensures Consecutive(Closed(n, bins, total), n) && EndOf(Closed(n, bins, total)) <= n
    ensures |Closed(n, bins, total)| <= bins && (n > 0 ==> Closed(n, bins, total) != [])
  {
    hide Bucket, Consecutive;
    if n > 0 {
      ClosedConsecutive(n - 1, bins, total);
      BucketBelow(n - 1, bins, total);
      BucketZero(bins, total);
      ConsecutiveAppend(Closed(n - 1, bins, total), n - 1, n);
      ConsecutiveGrows(Closed(n - 1, bins, total), n - 1, n);
    } else {
      NoneConsecutive();
    }
  }

  lemma NoneConsecutive()
    ensures Consecutive([], 0)
  {
  }

  lemma ConsecutiveGrows(ranges: seq<Range>, n: nat, m: nat)
    requires Consecutive(ranges, n) && n <= m
    ensures Consecutive(ranges, m)
  {
  }

  /** With at least as many samples as bins, bin `k` closes at the first sample of bucket `k`. */
  lemma {:induction false} BinsFollowBuckets(n: nat, bins: nat, total: nat)
    requires 0 < bins <= total && n > 0
    ensures |Closed(n, bins, total)| == Bucket(n - 1, bins, total) + 1
    ensures forall k :: 0 <= k < |Closed(n, bins, total)| ==>
              var e := Closed(n, bins, total)[k].hi;
              e > 0 && Bucket(e - 1, bins, total) == k && (e > 1 ==> Bucket(e - 2, bins, total) == k - 1)
  {
    hide Bucket;
    if n == 1 {
      BucketZero(bins, total);
      assert Closed(0, bins, total) == [];
    } else {
      BinsFollowBuckets(n - 1, bins, total);
      BucketStep(n - 2, bins, total);
    }
  }

  /** The last bin takes what is left over. */
  function Stretched(ranges: seq<Range>, total: nat): seq<Range>
    requires ranges != []
  {
    var last := |ranges| - 1;
    ranges[last := Range(ranges[last].lo, total)]
  }

  lemma StretchedConsecutive(ranges: seq<Range>, total: nat)
    requires ranges != [] && Consecutive(ranges, total)
    ensures Consecutive(Stretched(ranges, total), total) && EndOf(Stretched(ranges, total)) == total
  {
    var shown := Stretched(ranges, total);
    forall k | 0 <= k < |shown| ensures Within(shown[k], total) && shown[k].lo == EndOf(shown[..k]) {
      assert shown[..k] == ranges[..k];
      assert Within(ranges[k], total);
    }
  }

  lemma {:induction false} ConsecutiveCover(ranges: seq<Range>, n: nat, i: nat)
    requires Consecutive(ranges, n) && i < EndOf(ranges)
    ensures InSomeBin(ranges, i)
  {
    var last := |ranges| - 1;
    if ranges[last].lo <= i {
      assert InBin(ranges, last, i);
    } else {
      assert forall k :: 0 <= k < last ==> ranges[..last][..k] == ranges[..k];
      ConsecutiveCover(ranges[..last], n, i);
      var k :| InBin(ranges[..last], k, i);
      assert InBin(ranges, k, i);
    }
  }

  lemma {:induction false} ConsecutiveAscend(ranges: seq<Range>, n: nat, k: nat, l: nat)
    requires Consecutive(ranges, n) && k < l < |ranges|
    ensures ranges[k].hi <= ranges[l].lo
    decreases l
  {
    assert Within(ranges[l - 1], n) && ranges[l].lo == EndOf(ranges[..l]) == ranges[l - 1].hi;
    if k < l - 1 {
      ConsecutiveAscend(ranges, n, k, l - 1);
    }
  }

  /** The ranges of the bins as shown. */
  function Bins(bins: nat, total: nat): (r: seq<Range>)
    requires bins > 0 && total > 0
  {
    ClosedConsecutive(total, bins, total);
    Stretched(Closed(total, bins, total), total)
  }

  /**
   * Every sample is in exactly one bin, no bin is empty, and there are `bins` of them whenever
   * there are samples enough.
   */
  lemma BinsPartition(bins: nat, total: nat)
    requires bins > 0 && total > 0
    ensures Consecutive(Bins(bins, total), total) && 0 < |Bins(bins, total)| <= bins
    ensures bins <= total ==> |Bins(bins, total)| == bins
    ensures forall i: nat :: i < total ==> InSomeBin(Bins(bins, total), i)
    ensures forall i, k, l :: InBin(Bins(bins, total), k, i) && InBin(Bins(bins, total), l, i) ==> k == l
  {
    hide Closed, Bucket, Consecutive, InSomeBin;
    var ranges := Bins(bins, total);
    ClosedConsecutive(total, bins, total);
    StretchedConsecutive(Closed(total, bins, total), total);
    if bins <= total {
      BinsFollowBuckets(total, bins, total);
      LastBucket(bins, total);
    }
    forall i: nat | i < total ensures InSomeBin(ranges, i) {
      ConsecutiveCover(ranges, total, i);
    }
    forall i, k, l | InBin(ranges, k, i) && InBin(ranges, l, i) ensures k == l {
      if k < l {
        ConsecutiveAscend(ranges, total, k, l);
      }
      if l < k {
        ConsecutiveAscend(ranges, total, l, k);
      }
    }
  }

  lemma BucketAt(i: nat, bins: nat, total: nat, k: nat)
    requires total > 0 && Bucket(i, bins, total) == k
    ensures k * total <= i * bins < (k + 1) * total
  {
    assert i * bins == total * k + i * bins % total;
    assert (k + 1) * total == total * k + total;
  }

  /**
   * Where the bins start when there are samples enough: bin 0 at sample 0, and bin k after it just
   * past the first sample at or beyond `(k - 1) * total / bins`.
   */
  lemma BinStartsInFigures(bins: nat, total: nat, k: nat)
    requires 0 < k < bins <= total
    ensures |Bins(bins, total)| == bins && Bins(bins, total)[0].lo == 0 && Bins(bins, total)[k].lo > 0
    ensures var first := Bins(bins, total)[k].lo - 1;
      first * bins >= (k - 1) * total && (first > 0 ==> (first - 1) * bins < (k - 1) * total)
  {
    hide Closed, Bucket;
    BinsPartition(bins, total);
    BinsFollowBuckets(total, bins, total);
    LastBucket(bins, total);
    ClosedConsecutive(total, bins, total);
    var closed, shown := Closed(total, bins, total), Bins(bins, total);
    assert shown[k].lo == closed[k].lo && shown[0].lo == closed[0].lo;
    assert Within(closed[k], total) && closed[k].lo == EndOf(closed[..k]) == closed[k - 1].hi;
    assert Within(closed[0], total) && closed[0].lo == EndOf(closed[..0]) == 0;
    var e := closed[k - 1].hi;
    BucketAt(e - 1, bins, total, k - 1);
    if e > 1 {
      if k > 1 {
        BucketAt(e - 2, bins, total, k - 2);
      }
    }
  }

  function Singles(m: nat): seq<Range> {
    seq(m, i requires 0 <= i < m => Range(i, i + 1))
  }

  lemma BucketAhead(i: nat, bins: nat, total: nat)
    requires 0 < total <= bins
    ensures Bucket(i, bins, total) >= i
  {
    var b := Bucket(i, bins, total);
    assert i * bins == total * b + i * bins % total;
    MulMonotone(i, total, bins);
    if b < i {
      MulMonotone(total, b + 1, i);
      MulNext(total, b);
    }
  }

  lemma {:induction false} FewSamplesClose(n: nat, bins: nat, total: nat) returns (m: nat)
    requires 0 < total <= bins
    ensures m <= n && Closed(n, bins, total) == Singles(m)
    ensures forall j :: 0 <= j < m ==> Bucket(j, bins, total) == j
    ensures m < n ==> Bucket(m, bins, total) > m
  {
    hide Bucket;
    if n == 0 {
      m := 0;
    } else {
      m := FewSamplesClose(n - 1, bins, total);
      BucketAhead(n - 1, bins, total);
      assert m > 0 ==> EndOf(Singles(m)) == m;
      if m == n - 1 && Bucket(n - 1, bins, total) == m {
        assert Singles(m) + [Range(m, n)] == Singles(n);
        m := n;
      }
    }
  }

  /**
   * Fewer samples than bins: the first bins take one sample each, as long as bucket `j` belongs to
   * sample `j`, and the last of them takes all that follow.
   */
  lemma FewSamplesInFigures(bins: nat, total: nat) returns (m: nat)
    requires 0 < total <= bins
    ensures 0 < m <= total && Bins(bins, total) == Singles(m - 1) + [Range(m - 1, total)]
    ensures forall j :: 0 <= j < m ==> j * bins < (j + 1) * total
    ensures m < total ==> m * bins >= (m + 1) * total
  {
    hide Bucket, Closed;
    m := FewSamplesClose(total, bins, total);
    ClosedConsecutive(total, bins, total);
    assert Stretched(Singles(m), total) == Singles(m - 1) + [Range(m - 1, total)];
    forall j | 0 <= j < m ensures j * bins < (j + 1) * total {
      BucketAt(j, bins, total, j);
    }
    if m < total {
      BucketAt(m, bins, total, Bucket(m, bins, total));
      MulMonotone(total, m + 1, Bucket(m, bins, total));
    }
  }

  // ---------------------------------------------------------------------------------------------
  // Heights
  // ---------------------------------------------------------------------------------------------

  function Floored(sqrt: real -> real, sum: real, count: nat): (r: real)
    requires sum >= 0.0 && count > 0
    ensures r >= 0.0
  {
    var rms := sqrt(Mean(sum, count));
    if rms > 0.01 then rms else 0.0
  }

  function Mean(sum: real, count: nat): real
    requires count > 0
  {
    sum / count as real
  }

  function SumOf(samples: seq<real>, r: Range): (sum: real)
    requires r.lo <= r.hi <= |samples|
    ensures sum >= 0.0
  {
    SumAbs(samples[r.lo..r.hi])
  }

  function Level(sqrt: real -> real, samples: seq<real>, r: Range): (level: real)
    requires Within(r, |samples|)
    ensures level >= 0.0
  {
    Floored(sqrt, SumOf(samples, r), r.hi - r.lo)
  }

  predicate AllWithin(ranges: seq<Range>, n: nat) {
    forall k :: 0 <= k < |ranges| ==> Within(ranges[k], n)
  }

  function Levels(sqrt: real -> real, samples: seq<real>, ranges: seq<Range>): (r: seq<real>)
    requires AllWithin(ranges, |samples|)
    ensures |r| == |ranges|
    ensures forall k :: 0 <= k < |r| ==> r[k] == Level(sqrt, samples, ranges[k]) && r[k] >= 0.0
  {
    seq(|ranges|, k requires 0 <= k < |ranges| => Level(sqrt, samples, ranges[k]))
  }

  function Loudest(levels: seq<real>): (r: real)
    ensures r >= 0.0 && forall k :: 0 <= k < |levels| ==> levels[k] <= r
    ensures r == 0.0 || r in levels
  {
    if levels == [] then 0.0
    else
      var before, last := levels[..|levels| - 1], levels[|levels| - 1];
      assert forall k :: 0 <= k < |before| ==> levels[k] == before[k];
      Max(Loudest(before), last)
  }

  /** A level on the scale of the peak. */
  function Scaled(level: real, peak: real): (r: real)
    requires 0.0 <= level
    ensures 0.0 <= r <= 1.0
    ensures peak > 0.0 ==> (r == 1.0 <==> level >= peak)
  {
    if peak <= 0.0 then 0.0
    else
      Ratio(level, peak);
      var v := if level / peak < 1.0 then level / peak else 1.0;
      if v < 0.001 then 0.0 else v
  }

  lemma Ratio(a: real, b: real)
    requires b > 0.0
    ensures a >= 0.0 ==> a / b >= 0.0
    ensures a / b >= 1.0 <==> a >= b
  {
  }

  lemma TimesPositive(q: real, r: real, b: real)
    requires b > 0.0
    ensures q < r <==> q * b < r * b
  {
    if q < r {
      assert (r - q) * b > 0.0;
    } else {
      assert (q - r) * b >= 0.0;
    }
  }

  /** From a thousandth of the peak up the height keeps the ratio; below it nothing is left. */
  ghost predicate KeepsRatio(height: real, level: real, peak: real) {
    if peak <= 0.0 || level < 0.001 * peak then height == 0.0 else height * peak == level
  }

  lemma ScaledKeepsRatio(level: real, peak: real)
    requires 0.0 <= level <= peak
    ensures KeepsRatio(Scaled(level, peak), level, peak)
  {
    if peak > 0.0 {
      var ratio := level / peak;
      assert ratio * peak == level;
      TimesPositive(ratio, 0.001, peak);
      Ratio(level, peak);
    }
  }

  /** The bins as closed and as shown are fit for `Levels`. */
  lemma RangesWithin(bins: nat, total: nat)
    requires bins > 0 && total > 0
    ensures var closed := Closed(total, bins, total);
      && closed != [] && AllWithin(closed, total)
      && AllWithin(Stretched(closed, total), total) && Bins(bins, total) == Stretched(closed, total)
  {
    hide Closed;
    ClosedConsecutive(total, bins, total);
    StretchedConsecutive(Closed(total, bins, total), total);
  }

  function ClosedLevels(sqrt: real -> real, samples: seq<real>, bins: nat): (r: seq<real>)
    requires bins > 0 && samples != []
    ensures |r| == |Closed(|samples|, bins, |samples|)| > 0
  {
    RangesWithin(bins, |samples|);
    Levels(sqrt, samples, Closed(|samples|, bins, |samples|))
  }

  function ShownLevels(sqrt: real -> real, samples: seq<real>, bins: nat): (r: seq<real>)
    requires bins > 0 && samples != []
    ensures |r| == |Bins(bins, |samples|)| <= bins
    ensures |r| == |ClosedLevels(sqrt, samples, bins)| > 0 && forall k :: 0 <= k < |r| ==> r[k] >= 0.0
    ensures forall k :: 0 <= k < |r| - 1 ==> r[k] == ClosedLevels(sqrt, samples, bins)[k]
  {
    hide Closed;
    RangesWithin(bins, |samples|);
    BinsPartition(bins, |samples|);
    Levels(sqrt, samples, Bins(bins, |samples|))
  }

  /** The loudest level met: of the bins as closed, and of the last one as shown. */
  function Peak(sqrt: real -> real, samples: seq<real>, bins: nat): (r: real)
    requires bins > 0 && samples != []
    ensures forall k :: 0 <= k < |ShownLevels(sqrt, samples, bins)| ==> ShownLevels(sqrt, samples, bins)[k] <= r
    ensures r in ShownLevels(sqrt, samples, bins) || r == Loudest(ClosedLevels(sqrt, samples, bins))
    ensures r >= Loudest(ClosedLevels(sqrt, samples, bins))
  {
    hide ClosedLevels, ShownLevels;
    var shown := ShownLevels(sqrt, samples, bins);
    Max(Loudest(ClosedLevels(sqrt, samples, bins)), shown[|shown| - 1])
  }

  function Heights(sqrt: real -> real, samples: seq<real>, bins: nat): (r: seq<real>)
    ensures |r| == bins
  {
    if bins == 0 || samples == [] then seq(bins, _ => 0.0)
    else
      var shown, peak := ShownLevels(sqrt, samples, bins), Peak(sqrt, samples, bins);
      seq(bins, k requires 0 <= k < bins =>
        if k < |shown| then Scaled(shown[k], peak) else 0.0)
  }

  /**
   * Heights lie between 0 and 1.  Some bin has full height exactly when there is a sound and the
   * last bin, before the leftover samples joined it, was not louder than all bins shown.
   */
  lemma HeightsAreNormal(sqrt: real -> real, samples: seq<real>, bins: nat)
    ensures forall k :: 0 <= k < bins ==> 0.0 <= Heights(sqrt, samples, bins)[k] <= 1.0
    ensures bins > 0 && samples != [] ==>
      var closed, shown := ClosedLevels(sqrt, samples, bins), Loudest(ShownLevels(sqrt, samples, bins));
      1.0 in Heights(sqrt, samples, bins) <==> shown > 0.0 && closed[|closed| - 1] <= shown
  {
    if bins > 0 && samples != [] {
      hide ClosedLevels, ShownLevels, Loudest, Scaled;
      var closed, shown := ClosedLevels(sqrt, samples, bins), ShownLevels(sqrt, samples, bins);
      var heights, peak := Heights(sqrt, samples, bins), Peak(sqrt, samples, bins);
      if 1.0 in heights {
        var k :| 0 <= k < bins && heights[k] == 1.0;
        assert k < |shown| && shown[k] >= peak;
        assert peak > 0.0;
      } else {
        forall k | 0 <= k < |shown| ensures peak > 0.0 ==> shown[k] < peak {
          assert heights[k] == Scaled(shown[k], peak);
        }
      }
    }
  }

  /** A height keeps the ratio of its level to the peak, from a thousandth of the peak up. */
  lemma HeightsKeepRatios(sqrt: real -> real, samples: seq<real>, bins: nat, k: nat)
    requires k < bins && samples != []
    ensures
      var (h, shown, peak) :=
        (Heights(sqrt, samples, bins)[k], ShownLevels(sqrt, samples, bins), Peak(sqrt, samples, bins));
      if k < |shown| then KeepsRatio(h, shown[k], peak) else h == 0.0
  {
    hide ShownLevels, ClosedLevels, Peak, Scaled, KeepsRatio, Loudest;
    var shown, peak := ShownLevels(sqrt, samples, bins), Peak(sqrt, samples, bins);
    if k < |shown| {
      assert Heights(sqrt, samples, bins)[k] == Scaled(shown[k], peak);
      ScaledKeepsRatio(shown[k], peak);
    }
  }

  lemma {:induction false} ConstantSum(samples: seq<real>, c: real)
    requires forall i :: 0 <= i < |samples| ==> samples[i] == c || samples[i] == -c
    ensures SumAbs(samples) == |samples| as real * Abs(c)
  {
    if samples != [] {
      var n := |samples| - 1;
      ConstantSum(samples[..n], c);
      SumAbsLast(samples);
      assert Abs(samples[n]) == Abs(c);
      hide SumAbs, Abs;
      OneMore(n, Abs(c));
    }
  }

  lemma SumAbsLast(samples: seq<real>)
    requires samples != []
    ensures SumAbs(samples) == SumAbs(samples[..|samples| - 1]) + Abs(samples[|samples| - 1])
  {
  }

  lemma OneMore(n: nat, c: real)
    ensures n as real * c + c == (n + 1) as real * c
  {
  }

  /** The level of a steady sound is the square root of its amplitude, cut off at one hundredth. */
  lemma ConstantLevel(sqrt: real -> real, samples: seq<real>, r: Range, c: real)
    requires Within(r, |samples|) && forall i :: r.lo <= i < r.hi ==> samples[i] == c || samples[i] == -c
    requires c >= 0.0
    ensures Level(sqrt, samples, r) == if sqrt(c) > 0.01 then sqrt(c) else 0.0
  {
    hide Mean, SumOf;
    ConstantMean(samples, r, c);
  }

  lemma ConstantMean(samples: seq<real>, r: Range, c: real)
    requires Within(r, |samples|) && forall i :: r.lo <= i < r.hi ==> samples[i] == c || samples[i] == -c
    ensures Mean(SumOf(samples, r), r.hi - r.lo) == Abs(c)
  {
    hide Mean, SumAbs;
    var part, n, a := samples[r.lo..r.hi], r.hi - r.lo, Abs(c);
    assert |part| == n;
    ConstantSum(part, c);
    Average(n, a);
    assert SumOf(samples, r) == n as real * a;
  }

  lemma Average(n: nat, c: real)
    requires n > 0
    ensures Mean(n as real * c, n) == c
  {
    ProductOverFactor(n as real, c);
  }

  lemma ProductOverFactor(x: real, c: real)
    requires x > 0.0
    ensures x * c / x == c
  {
    var q := x * c / x;
    assert q * x == x * c;
    assert (q - c) * x == 0.0;
  }

  /** The input: a sound with silence after it in one bin, whose level falls below the peak it set. */
  lemma FullHeightCanBeMissing(sqrt: real -> real)
    requires sqrt(1.0) == 1.0 && 0.01 < sqrt(0.5) < 1.0
    ensures 1.0 !in Heights(sqrt, [1.0, 0.0], 1)
  {
    var samples := [1.0, 0.0];
    hide Scaled, Peak;
    BucketZero(1, 2);
    assert Bucket(1, 1, 2) == 0;
    assert Closed(1, 1, 2) == [Range(0, 1)] == Closed(2, 1, 2);
    assert samples[0..1] == [1.0] && samples[0..2] == samples && samples[..1] == [1.0];
    assert SumAbs(samples) == SumAbs([1.0]) == 1.0;
    assert ClosedLevels(sqrt, samples, 1) == [1.0];
    assert ShownLevels(sqrt, samples, 1) == [sqrt(0.5)];
    HeightsAreNormal(sqrt, samples, 1);
  }

  // ---------------------------------------------------------------------------------------------
  // The loop
  // ---------------------------------------------------------------------------------------------

  lemma ClosedOne(i: nat, bins: nat, total: nat)
    requires total > 0
    ensures Closed(0, bins, total) == []
    ensures var before := Closed(i, bins, total);
      Closed(i + 1, bins, total)
      == if Bucket(i, bins, total) == |before| then before + [Range(EndOf(before), i + 1)] else before
  {
  }

  lemma LoudestAppend(levels: seq<real>, v: real)
    ensures Loudest([]) == 0.0
    ensures Loudest(levels + [v]) == Max(Loudest(levels), v)
  {
    assert (levels + [v])[..|levels|] == levels;
  }

  lemma SumOne(samples: seq<real>, lo: nat, i: nat)
    requires lo <= i < |samples|
    ensures SumOf(samples, Range(lo, i + 1)) == SumOf(samples, Range(lo, i)) + Abs(samples[i])
  {
    assert samples[lo..i + 1][..i - lo] == samples[lo..i];
  }

  lemma SumNone(samples: seq<real>, i: nat)
    requires i <= |samples|
    ensures SumOf(samples, Range(i, i)) == 0.0
  {
  }

  lemma SumJoin(samples: seq<real>, lo: nat, mid: nat, hi: nat)
    requires lo <= mid <= hi <= |samples|
    ensures SumOf(samples, Range(lo, hi)) == SumOf(samples, Range(lo, mid)) + SumOf(samples, Range(mid, hi))
  {
    SumAbsSplit(samples[lo..mid], samples[mid..hi]);
    assert samples[lo..hi] == samples[lo..mid] + samples[mid..hi];
  }

  lemma LevelsAppend(sqrt: real -> real, samples: seq<real>, ranges: seq<Range>, r: Range)
    requires AllWithin(ranges, |samples|) && Within(r, |samples|)
    ensures Levels(sqrt, samples, []) == [] && AllWithin(ranges + [r], |samples|)
    ensures Levels(sqrt, samples, ranges + [r])
         == Levels(sqrt, samples, ranges) + [Floored(sqrt, SumOf(samples, r), r.hi - r.lo)]
  {
    hide SumOf, Floored;
  }

  /** The sums kept by the loop after `i` samples: of the last bin closed, and of what follows it. */
  ghost predicate Summed(samples: seq<real>, closed: seq<Range>, i: nat,
                         lastSum: real, lastCount: nat, accSum: real, accCount: nat)
    requires i <= |samples|
  {
    && AllWithin(closed, i) && EndOf(closed) <= i
    && accCount == i - EndOf(closed) && accSum == SumOf(samples, Range(EndOf(closed), i))
    && (closed != [] ==>
          var last := closed[|closed| - 1];
          lastCount == last.hi - last.lo && lastSum == SumOf(samples, last))
  }

  lemma SummedNone(samples: seq<real>)
    ensures Summed(samples, [], 0, 0.0, 0, 0.0, 0) && AllWithin([], |samples|)
  {
  }

  lemma SummedMore(samples: seq<real>, closed: seq<Range>, i: nat,
                   lastSum: real, lastCount: nat, accSum: real, accCount: nat)
    requires i < |samples| && Summed(samples, closed, i, lastSum, lastCount, accSum, accCount)
    ensures
      var sum, more := accSum + Abs(samples[i]), closed + [Range(EndOf(closed), i + 1)];
      && Summed(samples, closed, i + 1, lastSum, lastCount, sum, accCount + 1)
      && Summed(samples, more, i + 1, sum, accCount + 1, 0.0, 0)
      && AllWithin(closed, |samples|) && Within(Range(EndOf(closed), i + 1), |samples|)
      && sum == SumOf(samples, Range(EndOf(closed), i + 1)) && accCount + 1 == i + 1 - EndOf(closed)
  {
    hide SumOf;
    SumOne(samples, EndOf(closed), i);
    SumNone(samples, i + 1);
  }

  /** The loop over the samples: the levels closed and the loudest, the sums of the last bin and of the tail. */
  method CloseBins(sqrt: real -> real, samples: seq<real>, bins: nat)
    returns (out: seq<real>, peakMax: real, lastSum: real, lastCount: nat, accSum: real, accCount: nat)
    requires bins > 0 && samples != []
    ensures out == ClosedLevels(sqrt, samples, bins) && peakMax == Loudest(out)
    ensures Summed(samples, Closed(|samples|, bins, |samples|), |samples|, lastSum, lastCount, accSum, accCount)
  {
    hide Summed, SumOf, Loudest, Floored, Bucket, Closed, Levels, EndOf, AllWithin, Abs;
    var total := |samples|;
    RangesWithin(bins, total);
    out, peakMax, accSum, accCount, lastSum, lastCount := [], 0.0, 0.0, 0, 0.0, 0;
    ghost var closed: seq<Range> := [];
    ClosedOne(0, bins, total);
    LoudestAppend([], 0.0);
    SummedNone(samples);
    LevelsAppend(sqrt, samples, [], Range(0, total));
    for i := 0 to total
      invariant closed == Closed(i, bins, total) && AllWithin(closed, total)
      invariant out == Levels(sqrt, samples, closed) && peakMax == Loudest(out)
      invariant Summed(samples, closed, i, lastSum, lastCount, accSum, accCount)
    {
      var bucket := Bucket(i, bins, total);
      SummedMore(samples, closed, i, lastSum, lastCount, accSum, accCount);
      ClosedOne(i, bins, total);
      ghost var r := Range(EndOf(closed), i + 1);
      accSum := accSum + Abs(samples[i]);
      accCount := accCount + 1;
      if bucket == |out| {
        var floored := Floored(sqrt, accSum, accCount);
        LevelsAppend(sqrt, samples, closed, r);
        LoudestAppend(out, floored);
        peakMax := Max(peakMax, floored);
        closed := closed + [r];
        out := out + [floored];
        lastSum, lastCount := accSum, accCount;
        accSum, accCount := 0.0, 0;
      }
    }
  }

  /** The tail joins the last bin: the levels to show, and the peak. */
  method Collect(sqrt: real -> real, samples: seq<real>, bins: nat) returns (out: seq<real>, peakMax: real)
    requires bins > 0 && samples != []
    ensures out == ShownLevels(sqrt, samples, bins) && peakMax == Peak(sqrt, samples, bins)
  {
    hide SumOf, Loudest, Floored, Closed;
    var lastSum, lastCount, accSum, accCount;
    out, peakMax, lastSum, lastCount, accSum, accCount := CloseBins(sqrt, samples, bins);
    ghost var closed := Closed(|samples|, bins, |samples|);
    ghost var last := closed[|closed| - 1];
    RangesWithin(bins, |samples|);
    SumJoin(samples, last.lo, last.hi, |samples|);
    if accCount > 0 {
      var floored := Floored(sqrt, lastSum + accSum, lastCount + accCount);
      out := out[|out| - 1 := floored];
      peakMax := Max(peakMax, floored);
    }
  }

  method Peaks(sqrt: real -> real, samples: seq<real>, bins: nat) returns (out: seq<real>)
    ensures out == Heights(sqrt, samples, bins)
  {
    if bins == 0 {
      return [];
    }
    if samples == [] {
      return seq(bins, _ => 0.0);
    }
    hide ShownLevels, Scaled, Peak;
    var peakMax;
    out, peakMax := Collect(sqrt, samples, bins);
    ghost var shown := out;
    while |out| < bins
      invariant |shown| <= |out| <= bins
      invariant forall k :: 0 <= k < |out| ==> out[k] == if k < |shown| then shown[k] else 0.0
    {
      out := out + [0.0];
    }
    if peakMax > 0.0 {
      ScaledZero(peakMax);
      for i := 0 to |out|
        invariant |out| == bins
        invariant forall k :: 0 <= k < i ==> out[k] == Heights(sqrt, samples, bins)[k]
        invariant forall k :: i <= k < bins ==> out[k] == if k < |shown| then shown[k] else 0.0
      {
        out := out[i := Scaled(out[i], peakMax)];
      }
    } else {
      forall k | 0 <= k < bins ensures out[k] == Heights(sqrt, samples, bins)[k] {
        ScaledSilence(out[k], peakMax);
      }
    }
  }

  lemma ScaledZero(peak: real)
    ensures Scaled(0.0, peak) == 0.0
  {
  }

  lemma ScaledSilence(level: real, peak: real)
    ensures peak <= 0.0 && level == 0.0 ==> Scaled(level, peak) == 0.0
  {
  }
}
