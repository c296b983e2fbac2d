/** Frame statistics: least and greatest sample, the exact integer sum and sum
    of squares that the mean and the standard deviation are computed from, and
    the median, taken as the element at index count/2 of a sorted copy. */
module FrameStatistics {
  import opened Sorting
  import CameraFrames

  const I64_MIN: int := -0x8000_0000_0000_0000
  const I64_MAX: int := 0x7FFF_FFFF_FFFF_FFFF

  function Sum(s: seq<int>): int {
    if s == [] then 0 else Sum(s[..|s| - 1]) + s[|s| - 1]
  }

  function SumSq(s: seq<int>): int {
    if s == [] then 0 else SumSq(s[..|s| - 1]) + s[|s| - 1] * s[|s| - 1]
  }

  /** One pass over vals keeping a running minimum that starts at `top`, a
      running maximum that starts at `bottom`, a sum and a sum of squares.
      The minimum is at most `top` and every sample, and is `top` itself or one
      of the samples; symmetrically for the maximum. */
  method Accumulate(vals: seq<int>, top: int, bottom: int)
    returns (mn: int, mx: int, sum: int, sumsq: int)
    ensures sum == Sum(vals) && sumsq == SumSq(vals)
    ensures mn <= top && (forall i | 0 <= i < |vals| :: mn <= vals[i])
    ensures mn == top || mn in vals
    ensures mx >= bottom && (forall i | 0 <= i < |vals| :: vals[i] <= mx)
    ensures mx == bottom || mx in vals
  {
    mn, mx, sum, sumsq := top, bottom, 0, 0;
    for i := 0 to |vals|
      invariant sum == Sum(vals[..i]) && sumsq == SumSq(vals[..i])
      invariant mn <= top && (forall k | 0 <= k < i :: mn <= vals[k])
      invariant mn == top || mn in vals[..i]
      invariant mx >= bottom && (forall k | 0 <= k < i :: vals[k] <= mx)
      invariant mx == bottom || mx in vals[..i]
    {
      var v := vals[i];
      assert vals[..i + 1][..i] == vals[..i];
      sum := sum + v;
      sumsq := sumsq + v * v;
      if v < mn {
        mn := v;
      }
      if v > mx {
        mx := v;
      }
    }
    assert vals[..|vals|] == vals;
  }

  /** The samples converted to 64-bit integers. */
  function Widened<T>(s: seq<T>, widen: T -> int): (w: seq<int>)
    ensures |w| == |s|
    ensures forall i | 0 <= i < |s| :: w[i] == widen(s[i])
  {
    seq(|s|, i requires 0 <= i < |s| => widen(s[i]))
  }

  /** The statistics of one frame. The floating-point mean is sum/count and
      the standard deviation sqrt((sumsq - count*mean^2)/(count - 1)); both
      are computed from the exact values kept here. */
  datatype FrameStats = FrameStats(min: int, max: int, median: int, count: nat, sum: int, sumsq: int)

  /** `FrameStats::new` for a non-empty frame whose samples widen losslessly
      into 64-bit integers. */
  method New<T>(frame: CameraFrames.CameraFrameMono<T>, widen: T -> int) returns (st: FrameStats)
    requires frame.rawdata.Length > 0
    requires forall x :: I64_MIN <= widen(x) <= I64_MAX
    ensures st.count == frame.rawdata.Length
    ensures st.sum == Sum(Widened(frame.Samples(), widen))
    ensures st.sumsq == SumSq(Widened(frame.Samples(), widen))
    ensures st.min in Widened(frame.Samples(), widen)
    ensures forall i | 0 <= i < frame.rawdata.Length :: st.min <= widen(frame.rawdata[i])
    ensures st.max in Widened(frame.Samples(), widen)
    ensures forall i | 0 <= i < frame.rawdata.Length :: widen(frame.rawdata[i]) <= st.max
    ensures st.median == SortedSeq(Widened(frame.Samples(), widen))[st.count / 2]
    ensures st.median in Widened(frame.Samples(), widen)
    ensures st.min <= st.median <= st.max
  {
    var vals := Widened(frame.Samples(), widen);
    st := Summarize(vals);
  }

  /** The statistics of the widened samples vals, in the order `FrameStats::new`
      computes them: one pass for the extremes and the sums, then the median
      of a sorted copy. */
  method Summarize(vals: seq<int>) returns (st: FrameStats)
    requires |vals| > 0
    requires forall i | 0 <= i < |vals| :: I64_MIN <= vals[i] <= I64_MAX
    ensures st.count == |vals|
    ensures st.sum == Sum(vals) && st.sumsq == SumSq(vals)
    ensures st.min in vals && forall i | 0 <= i < |vals| :: st.min <= vals[i]
    ensures st.max in vals && forall i | 0 <= i < |vals| :: vals[i] <= st.max
    ensures st.median == SortedSeq(vals)[|vals| / 2]
    ensures st.median in vals
    ensures st.min <= st.median <= st.max
  {
    var mn, mx, sum, sumsq := Accumulate(vals, I64_MAX, I64_MIN);
    assert mn in vals && mx in vals by {
      assert I64_MIN <= vals[0] <= I64_MAX;
    }
    var median := SortedMiddle(vals);
    SortedSeqAt(vals, |vals| / 2);
    st := FrameStats(mn, mx, median, |vals|, sum, sumsq);
  }

  /** Copies vals, sorts the copy in place and returns its element at index
      count/2 (the upper median for an even count). */
  method SortedMiddle(vals: seq<int>) returns (median: int)
    requires |vals| > 0
    ensures median == SortedSeq(vals)[|vals| / 2]
  {
    var count := |vals|;
    var values := new int[count](i requires 0 <= i < count => vals[i]);
    assert values[..] == vals;
    var le := (x: int, y: int) => x <= y;
    SortBy(values, le);
    assert Sorted(values[..]) by {
      forall i, j | 0 <= i < j < values.Length ensures values[..][i] <= values[..][j] {
        assert le(values[..][i], values[..][j]);
      }
    }
    SortedUnique(values[..], SortedSeq(vals));
    median := values[count / 2];
  }

  /** With 16-bit samples and at most 2^31 of them, neither the sum nor the
      sum of squares can leave the range of a 64-bit signed integer, so the
      unbounded values above are the ones the source computes. */
  lemma {:induction false} AccumulatorsFitI64(s: seq<int>)
    requires |s| <= 0x8000_0000
    requires forall i | 0 <= i < |s| :: 0 <= s[i] < 0x1_0000
    ensures 0 <= Sum(s) <= SumSq(s) <= I64_MAX
  {
    SumSqBound(s);
    assert |s| * 0xFFFE_0001 <= 0x8000_0000 * 0xFFFE_0001;
  }

  lemma SquareBound(v: int)
    requires 0 <= v < 0x1_0000
    ensures v <= v * v <= 0xFFFE_0001
  {
    if v > 0 {
      assert v * v >= v * 1;
    }
    assert v * v <= 0xFFFF * v;
  }

  lemma {:induction false} SumSqBound(s: seq<int>)
    requires forall i | 0 <= i < |s| :: 0 <= s[i] < 0x1_0000
    ensures 0 <= Sum(s) <= SumSq(s) <= |s| * 0xFFFE_0001
  {
    if s != [] {
      var t, v := s[..|s| - 1], s[|s| - 1];
      assert forall i | 0 <= i < |t| :: t[i] == s[i];
      SumSqBound(t);
      var sq := v * v;
      SquareBound(v);
      assert Sum(s) == Sum(t) + v;
      assert SumSq(s) == SumSq(t) + sq;
      assert |s| * 0xFFFE_0001 == |t| * 0xFFFE_0001 + 0xFFFE_0001;
    }
  }
}
