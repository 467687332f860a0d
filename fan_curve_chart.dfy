/**
 * The fan curve chart of `gui.FanCurvePane`: the change points, sorted by
 * key, become the corners of a step line. Between two consecutive change
 * points an invisible point at the new key and the previous value draws the
 * vertical riser.
 */
module FanCurveChart {
  import opened Mappings

  /** A chart point; `riser` marks the invisible corner point of a step. */
  datatype ChartPoint = ChartPoint(x: real, y: real, riser: bool)

  /** `r` is the step line over the change points `s`, taken in the order given. */
  predicate IsStepLine(s: seq<Mapping>, r: seq<ChartPoint>)
  {
    && |r| == (if s == [] then 0 else 2 * |s| - 1)
    && (forall i :: 0 <= i < |s| ==> r[2 * i] == ChartPoint(s[i].key, s[i].value, false))
    && (forall i :: 1 <= i < |s| ==> r[2 * i - 1] == ChartPoint(s[i].key, s[i - 1].value, true))
  }

  /** Over change points ascending by key, the step line never goes left. */
  lemma StepLineAscends(s: seq<Mapping>, r: seq<ChartPoint>)
    requires SortedByKey(s) && IsStepLine(s, r)
    ensures forall j, l :: 0 <= j < l < |r| ==> r[j].x <= r[l].x
  {
    forall j, l | 0 <= j < l < |r| ensures r[j].x <= r[l].x {
      // point j belongs to change point (j + 1) / 2, and likewise for l
      var a, b := (j + 1) / 2, (l + 1) / 2;
      assert a <= b < |s|;
      if j % 2 == 0 {
        assert j == 2 * a && r[j].x == s[a].key;
      } else {
        assert j == 2 * a - 1 && 1 <= a;
        assert r[2 * a - 1] == ChartPoint(s[a].key, s[a - 1].value, true);
      }
      if l % 2 == 0 {
        assert l == 2 * b && r[l].x == s[b].key;
      } else {
        assert l == 2 * b - 1 && 1 <= b;
        assert r[2 * b - 1] == ChartPoint(s[b].key, s[b - 1].value, true);
      }
    }
  }

  /**
   * The chart series for a curve's change points: the points sorted by key,
   * each preceded, from the second on, by its riser point.
   */
  method ChartPoints(changePoints: seq<Mapping>) returns (chartPoints: seq<ChartPoint>)
    ensures IsStepLine(SortByKey(changePoints), chartPoints)
    ensures changePoints == [] ==> chartPoints == []
    ensures changePoints != [] ==> |chartPoints| == 2 * |changePoints| - 1
    ensures forall j, l :: 0 <= j < l < |chartPoints| ==> chartPoints[j].x <= chartPoints[l].x
  {
    var sorted := SortByKey(changePoints);
    SortByKeyCorrect(changePoints);
    chartPoints := [];
    for i := 0 to |sorted|
      invariant |chartPoints| == (if i == 0 then 0 else 2 * i - 1)
      invariant forall k :: 0 <= k < i ==> chartPoints[2 * k] == ChartPoint(sorted[k].key, sorted[k].value, false)
      invariant forall k :: 1 <= k < i ==> chartPoints[2 * k - 1] == ChartPoint(sorted[k].key, sorted[k - 1].value, true)
    {
      var m := sorted[i];
      if i > 0 {
        var prev := sorted[i - 1];
        chartPoints := chartPoints + [ChartPoint(m.key, prev.value, true)];
      }
      chartPoints := chartPoints + [ChartPoint(m.key, m.value, false)];
    }
    StepLineAscends(sorted, chartPoints);
  }
}
