/** The per-platform summary of the dashboard page (src/pages/Index.tsx):
    peak, rounded average and peak time, all over the strictly positive
    counts of one loaded series. */
module Stats {
  import opened Wrappers
  import opened Timeline
  import Seqs

  /** The number of samples of `s` whose count is `v`. */
  ghost function Occurrences(s: Series, v: int): nat {
    |set i | 0 <= i < |s| && s[i].count == v|
  }

  /** Dropping the last sample removes one occurrence of its count. */
  lemma OccurrencesSnoc(s: Series, v: int)
    requires |s| > 0
    ensures Occurrences(s, v) == Occurrences(s[..|s| - 1], v) + if s[|s| - 1].count == v then 1 else 0
  {
    var init := s[..|s| - 1];
    var n := |s| - 1;
    var before := set i | 0 <= i < |init| && init[i].count == v;
    var all := set i | 0 <= i < |s| && s[i].count == v;
    if s[n].count == v {
      assert all == before + {n};
    } else {
      assert all == before;
    }
  }

  /** `data.map(item => item.hashtags).filter(val => val > 0)`: every
      positive sample contributes its count once, and nothing else is kept. */
  function Positives(s: Series): (r: seq<int>)
    ensures |r| <= |s|
    ensures forall v :: v in r ==> v > 0
    ensures forall i :: 0 <= i < |s| && s[i].count > 0 ==> s[i].count in r
    ensures forall v :: v in r ==> exists i :: 0 <= i < |s| && s[i].count == v
    ensures forall v :: multiset(r)[v] == if v > 0 then Occurrences(s, v) else 0
  {
    if |s| == 0 then []
    else
      var rest := Positives(s[..|s| - 1]);
      assert forall i :: 0 <= i < |s| - 1 ==> s[..|s| - 1][i] == s[i];
      assert forall v :: Occurrences(s, v) == Occurrences(s[..|s| - 1], v) + (if s[|s| - 1].count == v then 1 else 0) by {
        forall v ensures Occurrences(s, v) == Occurrences(s[..|s| - 1], v) + (if s[|s| - 1].count == v then 1 else 0) {
          OccurrencesSnoc(s, v);
        }
      }
      if s[|s| - 1].count > 0 then rest + [s[|s| - 1].count] else rest
  }

  function Sum(xs: seq<int>): int {
    if |xs| == 0 then 0 else Sum(xs[..|xs| - 1]) + xs[|xs| - 1]
  }

  /** `Math.max(...xs)` on a non-empty list. */
  function Max(xs: seq<int>): (m: int)
    requires |xs| > 0
    ensures m in xs
    ensures forall x :: x in xs ==> x <= m
  {
    if |xs| == 1 then xs[0]
    else
      var rest := Max(xs[1..]);
      assert xs == [xs[0]] + xs[1..];
      if xs[0] >= rest then xs[0] else rest
  }

  /** The peak count; `None` where the source's `Math.max()` of an empty list
      would give `-Infinity`. */
  function Peak(s: Series): (r: Option<int>)
    ensures r.None? <==> forall i :: 0 <= i < |s| ==> s[i].count <= 0
    ensures r.Some? ==> r.value > 0 && exists i :: 0 <= i < |s| && s[i].count == r.value
    ensures r.Some? ==> forall i :: 0 <= i < |s| ==> s[i].count <= r.value
  {
    var xs := Positives(s);
    if |xs| == 0 then None else Some(Max(xs))
  }

  /** `Math.round(sum / n)` for a non-negative mean, in integer arithmetic:
      the nearest integer, halves rounded up. `None` where the source's
      `0 / 0` would give `NaN`. */
  function Average(s: Series): (r: Option<int>)
    ensures r.None? <==> forall i :: 0 <= i < |s| ==> s[i].count <= 0
    ensures r.Some? ==> RoundedMean(r.value, Sum(Positives(s)), |Positives(s)|)
  {
    var xs := Positives(s);
    assert |xs| > 0 ==> xs[0] in xs;
    MeanOf(xs)
  }

  /** `Math.round(sum / n)` of a list, `None` for the empty list. */
  function MeanOf(xs: seq<int>): (r: Option<int>)
    ensures r.None? <==> |xs| == 0
    ensures r.Some? ==> RoundedMean(r.value, Sum(xs), |xs|)
  {
    var n := |xs|;
    if n == 0 then None
    else
      var q := (2 * Sum(xs) + n) / (2 * n);
      FloorDivision(2 * Sum(xs) + n, 2 * n);
      Some(q)
  }

  /** `a` is `sum / n` rounded to the nearest integer, halves rounded up:
      `a - 1/2 <= sum / n < a + 1/2`, scaled by `2 * n`. */
  predicate RoundedMean(a: int, sum: int, n: nat) {
    (2 * n) * a <= 2 * sum + n < (2 * n) * a + 2 * n
  }

  lemma {:induction false} SumBounds(xs: seq<int>, hi: int)
    requires forall x :: x in xs ==> 0 < x <= hi
    ensures |xs| <= Sum(xs) <= |xs| * hi
  {
    if |xs| > 0 {
      var init := xs[..|xs| - 1];
      assert forall x :: x in init ==> x in xs;
      SumBounds(init, hi);
      assert xs[|xs| - 1] in xs;
      assert |xs| * hi == |init| * hi + hi;
    }
  }

  lemma FloorDivision(a: int, d: int)
    requires d > 0
    ensures d * (a / d) <= a < d * (a / d) + d
  {
  }

  lemma CancelFactor(d: int, a: int, b: int)
    requires d > 0 && d * a < d * b
    ensures a < b
  {
    assert d * b - d * a == d * (b - a);
  }

  lemma RoundedMeanBounds(a: int, sum: int, n: nat, p: int)
    requires n > 0 && n <= sum <= n * p
    requires RoundedMean(a, sum, n)
    ensures 1 <= a <= p
  {
    var m := 2 * n;
    assert 2 * sum <= 2 * (n * p);
    assert m * (p + 1) == 2 * (n * p) + m;
    assert m * a < m * (p + 1);
    CancelFactor(m, a, p + 1);
    assert m * 0 < m * a;
    CancelFactor(m, 0, a);
  }

  /** The rounded average of positive counts lies between 1 and the peak. */
  lemma AverageBelowPeak(s: Series)
    requires Average(s).Some?
    ensures Peak(s).Some?
    ensures 1 <= Average(s).value <= Peak(s).value
  {
    var xs := Positives(s);
    var n := |xs|;
    var p := Peak(s).value;
    var a := Average(s).value;
    SumBounds(xs, p);
    RoundedMeanBounds(a, Sum(xs), n, p);
  }

  /** The filter works piecewise: the positives of a concatenation are
      those of each part, in order. */
  lemma {:induction false} PositivesAppend(a: Series, b: Series)
    ensures Positives(a + b) == Positives(a) + Positives(b)
  {
    if |b| == 0 {
      assert a + b == a;
    } else {
      var binit, last := b[..|b| - 1], b[|b| - 1];
      PositivesAppend(a, binit);
      assert (a + b)[..|a + b| - 1] == a + binit && (a + b)[|a + b| - 1] == last;
      var tail := if last.count > 0 then [last.count] else [];
      var pa, pb := Positives(a), Positives(binit);
      assert Positives(a + b) == (pa + pb) + tail;
      assert Positives(b) == pb + tail;
      assert (pa + pb) + tail == pa + (pb + tail);
    }
  }

  /** Zero and negative counts are not candidates: inserting one anywhere in
      a series changes neither its positives, nor its peak, nor its
      average. */
  lemma NonPositiveIgnored(s: Series, i: nat, x: Sample)
    requires i <= |s| && x.count <= 0
    ensures Positives(s[..i] + [x] + s[i..]) == Positives(s)
    ensures Peak(s[..i] + [x] + s[i..]) == Peak(s) && Average(s[..i] + [x] + s[i..]) == Average(s)
  {
    var a, b := s[..i], s[i..];
    var t := a + [x] + b;
    assert Positives([x]) == [] by {
      assert [x][..0] == [];
    }
    PositivesAppend(a, [x]);
    assert Positives(a + [x]) == Positives(a) by {
      Seqs.AppendEmpty(Positives(a));
    }
    PositivesAppend(a + [x], b);
    Seqs.SplitAt(s, i);
    PositivesAppend(a, b);
    SamePositives(t, s);
  }

  /** Peak and average depend on a series only through its positives. */
  lemma SamePositives(s: Series, t: Series)
    requires Positives(s) == Positives(t)
    ensures Peak(s) == Peak(t) && Average(s) == Average(t)
  {
    assert Average(s) == MeanOf(Positives(s));
  }

  /** `data.find(item => item.hashtags === p)?.time`: the time of the first
      sample with count `p`. */
  function FindTime(s: Series, p: int): (r: Option<string>)
    ensures r.None? <==> forall i :: 0 <= i < |s| ==> s[i].count != p
    ensures r.Some? ==> exists i :: (0 <= i < |s| && s[i].count == p && r.value == TimeOf(s[i].timestamp)
                                     && forall j :: 0 <= j < i ==> s[j].count != p)
  {
    if |s| == 0 then None
    else if s[0].count == p then Some(TimeOf(s[0].timestamp))
    else
      var r := FindTime(s[1..], p);
      assert forall i :: 0 < i < |s| ==> s[i] == s[1..][i - 1];
      r
  }

  /** The peak time: the time of day of the first sample, in series order,
      whose count is the peak; the empty string when there is no peak. */
  function PeakTime(s: Series): (t: string)
    ensures Peak(s).None? ==> t == ""
    ensures Peak(s).Some? ==> exists i :: (0 <= i < |s| && s[i].count == Peak(s).value
                                           && t == TimeOf(s[i].timestamp)
                                           && forall j :: 0 <= j < i ==> s[j].count != Peak(s).value)
  {
    match Peak(s)
    case None => ""
    case Some(p) =>
      match FindTime(s, p)
      case None => ""
      case Some(time) => time
  }
}
