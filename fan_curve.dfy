/**
 * `core.FanCurve`: a sensor, a fan controller and a list of change points,
 * evaluated as a step function that holds the value of the closest change
 * point at or below the sensor value, and clamps to the smallest key below
 * the first change point. Nothing is interpolated.
 */
module FanCurves {
  import opened Options
  import opened Mappings
  import opened Hardware

  /** The two locals of the evaluation loop. */
  datatype ScanState = ScanState(closestBelow: Option<Mapping>, smallest: Option<Mapping>)

  /**
   * One iteration of the evaluation loop. The comparisons are strict, so a
   * later change point with an equal key never displaces an earlier one.
   */
  function Step(st: ScanState, m: Mapping, x: real): ScanState
  {
    ScanState(
      if m.key <= x && (st.closestBelow.None? || m.key > st.closestBelow.value.key) then Some(m)
      else st.closestBelow,
      if st.smallest.None? || m.key < st.smallest.value.key then Some(m)
      else st.smallest)
  }

  /** The loop's state after visiting the change points in list order. */
  function Scan(cps: seq<Mapping>, x: real): ScanState
  {
    if cps == [] then ScanState(None, None)
    else Step(Scan(cps[..|cps| - 1], x), cps[|cps| - 1], x)
  }

  /** The curve's value at sensor value `x` (the specification of `getFanValueAt`). */
  function FanValueAt(cps: seq<Mapping>, x: real): Option<real>
  {
    var st := Scan(cps, x);
    if st.closestBelow.Some? then Some(st.closestBelow.value.value)
    else if st.smallest.Some? then Some(st.smallest.value.value)
    else None
  }

  /**
   * `cps[i]` has the greatest key at or below `x`, and no earlier change
   * point has that key.
   */
  predicate IsClosestBelow(cps: seq<Mapping>, x: real, i: int)
  {
    && 0 <= i < |cps|
    && cps[i].key <= x
    && (forall j :: 0 <= j < |cps| && cps[j].key <= x ==> cps[j].key <= cps[i].key)
    && (forall j :: 0 <= j < i ==> cps[j].key != cps[i].key)
  }

  /** `cps[i]` has the smallest key, and no earlier change point has that key. */
  predicate IsSmallest(cps: seq<Mapping>, i: int)
  {
    && 0 <= i < |cps|
    && (forall j :: 0 <= j < |cps| ==> cps[i].key <= cps[j].key)
    && (forall j :: 0 <= j < i ==> cps[j].key != cps[i].key)
  }

  predicate SomeKeyAtOrBelow(cps: seq<Mapping>, x: real)
  {
    exists j :: 0 <= j < |cps| && cps[j].key <= x
  }

  /** What the loop's two locals hold, in terms of the whole list visited so far. */
  lemma ScanFinds(cps: seq<Mapping>, x: real)
    ensures Scan(cps, x).closestBelow.Some? <==> SomeKeyAtOrBelow(cps, x)
    ensures Scan(cps, x).closestBelow.Some? ==>
              exists i :: IsClosestBelow(cps, x, i) && cps[i] == Scan(cps, x).closestBelow.value
    ensures Scan(cps, x).smallest.Some? <==> cps != []
    ensures Scan(cps, x).smallest.Some? ==>
              exists i :: IsSmallest(cps, i) && cps[i] == Scan(cps, x).smallest.value
  {
    ScanFindsClosestBelow(cps, x);
    ScanFindsSmallest(cps, x);
  }

  lemma {:induction false} ScanFindsClosestBelow(cps: seq<Mapping>, x: real)
    ensures Scan(cps, x).closestBelow.Some? <==> SomeKeyAtOrBelow(cps, x)
    ensures Scan(cps, x).closestBelow.Some? ==>
              exists i :: IsClosestBelow(cps, x, i) && cps[i] == Scan(cps, x).closestBelow.value
  {
    if cps != [] {
      var n := |cps| - 1;
      var p, m := cps[..n], cps[n];
      assert cps == p + [m];
      ScanFindsClosestBelow(p, x);
      var st := Scan(p, x);
      if m.key <= x && (st.closestBelow.None? || m.key > st.closestBelow.value.key) {
        if st.closestBelow.Some? {
          var i :| IsClosestBelow(p, x, i) && p[i] == st.closestBelow.value;
          assert IsClosestBelow(cps, x, n);
        } else {
          assert IsClosestBelow(cps, x, n);
        }
      } else if st.closestBelow.Some? {
        var i :| IsClosestBelow(p, x, i) && p[i] == st.closestBelow.value;
        assert IsClosestBelow(cps, x, i);
      } else {
        assert !SomeKeyAtOrBelow(p, x);
        assert m.key > x;
        assert !SomeKeyAtOrBelow(cps, x);
      }
    }
  }

  lemma {:induction false} ScanFindsSmallest(cps: seq<Mapping>, x: real)
    ensures Scan(cps, x).smallest.Some? <==> cps != []
    ensures Scan(cps, x).smallest.Some? ==>
              exists i :: IsSmallest(cps, i) && cps[i] == Scan(cps, x).smallest.value
  {
    if cps != [] {
      var n := |cps| - 1;
      var p, m := cps[..n], cps[n];
      assert cps == p + [m];
      ScanFindsSmallest(p, x);
      var st := Scan(p, x);
      if st.smallest.None? {
        assert p == [];
        assert IsSmallest(cps, n);
      } else if m.key < st.smallest.value.key {
        var i :| IsSmallest(p, i) && p[i] == st.smallest.value;
        assert IsSmallest(cps, n);
      } else {
        var i :| IsSmallest(p, i) && p[i] == st.smallest.value;
        assert IsSmallest(cps, i);
      }
    }
  }

  lemma ClosestBelowUnique(cps: seq<Mapping>, x: real, i: int, k: int)
    requires IsClosestBelow(cps, x, i) && IsClosestBelow(cps, x, k)
    ensures i == k
  {
    assert cps[i].key == cps[k].key;
  }

  lemma SmallestUnique(cps: seq<Mapping>, i: int, k: int)
    requires IsSmallest(cps, i) && IsSmallest(cps, k)
    ensures i == k
  {
    assert cps[i].key == cps[k].key;
  }

  /** No change points, no value; any change points, some value. */
  lemma FanValueAtPresent(cps: seq<Mapping>, x: real)
    ensures FanValueAt(cps, x).None? <==> cps == []
  {
    ScanFinds(cps, x);
  }

  /** When some key is at or below `x`, the value of the change point with the greatest such key. */
  lemma FanValueAtClosestBelow(cps: seq<Mapping>, x: real, i: int)
    requires IsClosestBelow(cps, x, i)
    ensures FanValueAt(cps, x) == Some(cps[i].value)
  {
    ScanFinds(cps, x);
    assert SomeKeyAtOrBelow(cps, x);
    var k :| IsClosestBelow(cps, x, k) && cps[k] == Scan(cps, x).closestBelow.value;
    ClosestBelowUnique(cps, x, i, k);
  }

  /** When every key is above `x`, the value of the change point with the smallest key. */
  lemma FanValueAtClamped(cps: seq<Mapping>, x: real, i: int)
    requires forall j :: 0 <= j < |cps| ==> cps[j].key > x
    requires IsSmallest(cps, i)
    ensures FanValueAt(cps, x) == Some(cps[i].value)
  {
    ScanFinds(cps, x);
    var k :| IsSmallest(cps, k) && cps[k] == Scan(cps, x).smallest.value;
    SmallestUnique(cps, i, k);
  }

  /** Some change point always qualifies for each of the two cases above. */
  lemma CasesExist(cps: seq<Mapping>, x: real)
    requires cps != []
    ensures SomeKeyAtOrBelow(cps, x) ==> exists i :: IsClosestBelow(cps, x, i)
    ensures exists i :: IsSmallest(cps, i)
  {
    ScanFinds(cps, x);
  }

  /** An exact key match returns that change point's value, because the comparison is `<=`. */
  lemma FanValueAtExactKey(cps: seq<Mapping>, i: int)
    requires 0 <= i < |cps|
    requires forall j :: 0 <= j < i ==> cps[j].key != cps[i].key
    ensures FanValueAt(cps, cps[i].key) == Some(cps[i].value)
  {
    var x := cps[i].key;
    assert IsClosestBelow(cps, x, i);
    FanValueAtClosestBelow(cps, x, i);
  }

  /** A present value is always the value of some change point: no interpolation. */
  lemma FanValueAtIsAChangePointValue(cps: seq<Mapping>, x: real)
    ensures FanValueAt(cps, x).Some? ==> exists i :: 0 <= i < |cps| && cps[i].value == FanValueAt(cps, x).value
  {
    ScanFinds(cps, x);
  }

  /**
   * The fan curve of `core.FanCurve`. The sensor and the fan controller are
   * fixed; the change-point list is edited in place by the curve editor.
   */
  class FanCurve {
    const sensor: Sensor
    const fanController: FanController
    var changePoints: seq<Mapping>

    /** Keeps the two references and a copy of the given list. */
    constructor (sensor: Sensor, fanController: FanController, changePoints: seq<Mapping>)
      ensures this.sensor == sensor && this.fanController == fanController
      ensures this.changePoints == changePoints
    {
      this.sensor := sensor;
      this.fanController := fanController;
      this.changePoints := changePoints;
    }

    /** `getFanValueAt`: one pass over the change points, in list order. */
    method GetFanValueAt(sensorValue: real) returns (r: Option<real>)
      ensures r == FanValueAt(changePoints, sensorValue)
    {
      var closestBelow: Option<Mapping> := None;
      var smallest: Option<Mapping> := None;
      for i := 0 to |changePoints|
        invariant ScanState(closestBelow, smallest) == Scan(changePoints[..i], sensorValue)
      {
        var m := changePoints[i];
        assert changePoints[..i + 1][..i] == changePoints[..i];
        if m.key <= sensorValue && (closestBelow.None? || m.key > closestBelow.value.key) {
          closestBelow := Some(m);
        }
        if smallest.None? || m.key < smallest.value.key {
          smallest := Some(m);
        }
      }
      assert changePoints[..|changePoints|] == changePoints;
      if closestBelow.Some? {
        return Some(closestBelow.value.value);
      } else if smallest.Some? {
        return Some(smallest.value.value);
      } else {
        return None;
      }
    }
  }
}
