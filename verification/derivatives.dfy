/** The derivative engine of the dashboard page (src/pages/Index.tsx): each
    combined point gains a first and a second discrete derivative per series,
    and a derivative exists only where every operand it needs is present. */
module Derivatives {
  import opened Wrappers
  import opened Timeline

  /** A combined point extended with its four derivatives (`...item`
      followed by the derivative fields). */
  datatype ChartPoint = ChartPoint(
    time: string,
    timestamp: string,
    instagram: Option<int>,
    wechat: Option<int>,
    instagramFirstDerivative: Option<int>,
    wechatFirstDerivative: Option<int>,
    instagramSecondDerivative: Option<int>,
    wechatSecondDerivative: Option<int>)

  /** First difference of series `s` at `index`: the current value minus the
      previous one, when both are present. */
  function FirstDerivative(data: seq<Point>, s: Platform, index: nat): (d: Option<int>)
    requires index < |data|
    ensures d.Some? <==> index > 0 && Value(data[index], s).Some? && Value(data[index - 1], s).Some?
    ensures d.Some? ==> d.value == Value(data[index], s).value - Value(data[index - 1], s).value
  {
    if index > 0 && Value(data[index], s).Some? then
      var prev := Value(data[index - 1], s);
      if prev.Some? then Some(Value(data[index], s).value - prev.value) else None
    else
      None
  }

  /** Second difference of series `s` at `index`, recomputed from the three
      raw values rather than from the stored first differences. */
  function SecondDerivative(data: seq<Point>, s: Platform, index: nat): (d: Option<int>)
    requires index < |data|
    ensures d.Some? <==> index > 1 && Value(data[index], s).Some? && Value(data[index - 1], s).Some? && Value(data[index - 2], s).Some?
    ensures d.Some? ==>
      d.value == (Value(data[index], s).value - Value(data[index - 1], s).value)
                 - (Value(data[index - 1], s).value - Value(data[index - 2], s).value)
  {
    if index > 1 && Value(data[index], s).Some? then
      var prev := Value(data[index - 1], s);
      var prevPrev := Value(data[index - 2], s);
      if prev.Some? && prevPrev.Some? then
        var currentFirst := Value(data[index], s).value - prev.value;
        var prevFirst := prev.value - prevPrev.value;
        Some(currentFirst - prevFirst)
      else
        None
    else
      None
  }

  /** The chart data: every combined point with its derivatives attached;
      nothing of the combined point itself changes. */
  function Chart(data: seq<Point>): (r: seq<ChartPoint>)
    ensures |r| == |data|
    ensures forall i :: 0 <= i < |r| ==>
      && r[i].time == data[i].time
      && r[i].timestamp == data[i].timestamp
      && r[i].instagram == data[i].instagram
      && r[i].wechat == data[i].wechat
    ensures forall i, s :: 0 <= i < |r| ==>
      && FirstOf(r[i], s) == FirstDerivative(data, s, i)
      && SecondOf(r[i], s) == SecondDerivative(data, s, i)
  {
    var r := seq(|data|, i requires 0 <= i < |data| => PointAt(data, i));
    assert forall i :: 0 <= i < |r| ==> r[i] == PointAt(data, i);
    r
  }

  /** Point `i` of the chart: the raw point with its four derivatives. */
  function PointAt(data: seq<Point>, i: nat): (p: ChartPoint)
    requires i < |data|
    ensures forall s :: FirstOf(p, s) == FirstDerivative(data, s, i) && SecondOf(p, s) == SecondDerivative(data, s, i)
  {
    ChartPoint(
      data[i].time, data[i].timestamp, data[i].instagram, data[i].wechat,
      FirstDerivative(data, Instagram, i), FirstDerivative(data, WeChat, i),
      SecondDerivative(data, Instagram, i), SecondDerivative(data, WeChat, i))
  }

  function FirstOf(p: ChartPoint, s: Platform): Option<int> {
    match s
    case Instagram => p.instagramFirstDerivative
    case WeChat => p.wechatFirstDerivative
  }

  function SecondOf(p: ChartPoint, s: Platform): Option<int> {
    match s
    case Instagram => p.instagramSecondDerivative
    case WeChat => p.wechatSecondDerivative
  }

  /** The second derivative is the difference of two adjacent first
      derivatives: it is present exactly when both of them are, and then
      equals their difference. */
  lemma SecondIsDifferenceOfFirsts(data: seq<Point>, s: Platform, i: nat)
    requires 0 < i < |data|
    ensures SecondOf(Chart(data)[i], s).Some? <==>
      FirstOf(Chart(data)[i], s).Some? && FirstOf(Chart(data)[i - 1], s).Some?
    ensures SecondOf(Chart(data)[i], s).Some? ==>
      SecondOf(Chart(data)[i], s).value == FirstOf(Chart(data)[i], s).value - FirstOf(Chart(data)[i - 1], s).value
  {
    var c := Chart(data);
    assert FirstOf(c[i], s) == FirstDerivative(data, s, i);
    assert FirstOf(c[i - 1], s) == FirstDerivative(data, s, i - 1);
    assert SecondOf(c[i], s) == SecondDerivative(data, s, i);
  }

  /** Absence is infectious: a missing value leaves undefined every
      derivative that would read it, at its own index and the next ones. */
  lemma AbsencePropagates(data: seq<Point>, s: Platform, i: nat)
    requires i < |data| && Value(data[i], s).None?
    ensures FirstOf(Chart(data)[i], s).None? && SecondOf(Chart(data)[i], s).None?
    ensures i + 1 < |data| ==> FirstOf(Chart(data)[i + 1], s).None? && SecondOf(Chart(data)[i + 1], s).None?
    ensures i + 2 < |data| ==> SecondOf(Chart(data)[i + 2], s).None?
  {
    var c := Chart(data);
    assert FirstOf(c[i], s) == FirstDerivative(data, s, i);
    assert SecondOf(c[i], s) == SecondDerivative(data, s, i);
    if i + 1 < |data| {
      assert FirstOf(c[i + 1], s) == FirstDerivative(data, s, i + 1);
      assert SecondOf(c[i + 1], s) == SecondDerivative(data, s, i + 1);
    }
    if i + 2 < |data| {
      assert SecondOf(c[i + 2], s) == SecondDerivative(data, s, i + 2);
    }
  }

  /** Sum of the first derivatives at indices `lo+1 .. hi`. */
  function SumFirst(c: seq<ChartPoint>, s: Platform, lo: nat, hi: nat): int
    requires lo <= hi < |c|
    requires forall k :: lo < k <= hi ==> FirstOf(c[k], s).Some?
    decreases hi - lo
  {
    if lo == hi then 0 else SumFirst(c, s, lo, hi - 1) + FirstOf(c[hi], s).value
  }

  /** Differencing is undone by summation: across a stretch where every first
      derivative is defined, the later value is the earlier one plus the sum
      of the first derivatives in between. */
  lemma {:induction false} FirstDerivativesTelescope(data: seq<Point>, s: Platform, lo: nat, hi: nat)
    requires lo <= hi < |data|
    requires forall k :: lo < k <= hi ==> FirstOf(Chart(data)[k], s).Some?
    requires Value(data[lo], s).Some?
    ensures Value(data[hi], s).Some?
    ensures Value(data[hi], s).value == Value(data[lo], s).value + SumFirst(Chart(data), s, lo, hi)
    decreases hi - lo
  {
    if lo < hi {
      FirstDerivativesTelescope(data, s, lo, hi - 1);
      assert FirstOf(Chart(data)[hi], s) == FirstDerivative(data, s, hi);
    }
  }
}
