/**
 * The earlier `FanCurve`: change points kept in a sorted map (a TreeMap),
 * so keys are unique and putting an existing key replaces its value. The
 * target value is read at `floorKey(x)`, or at `firstKey()` when every key
 * is above `x`.
 */
module LegacyFanCurve {
  import opened Options
  import opened Hardware
  import Mappings
  import FanCurves

  /** The earlier curve: a source sensor, a target control and the change-point map. */
  datatype FanCurve = FanCurve(source: Sensor, target: FanController, changePoints: map<real, real>)

  /** A new curve has no change points; `getSource`/`getTarget` give back the arguments. */
  function NewFanCurve(source: Sensor, target: FanController): (c: FanCurve)
    ensures c.source == source && c.target == target
    ensures c.changePoints == map[]
  {
    FanCurve(source, target, map[])
  }

  lemma HasElement(s: set<real>)
    requires s != {}
    ensures exists y :: y in s
  {
    if forall y :: y !in s {
      assert false;
    }
  }

  /** The greatest element of a non-empty finite set. */
  ghost function Max(s: set<real>): (r: real)
    requires s != {}
    ensures r in s && forall z :: z in s ==> z <= r
  {
    HasElement(s);
    var y :| y in s;
    if s == {y} then y
    else
      var rest := Max(s - {y});
      assert forall z :: z in s ==> z == y || z in s - {y};
      if y < rest then rest else y
  }

  /** The smallest element of a non-empty finite set. */
  ghost function Min(s: set<real>): (r: real)
    requires s != {}
    ensures r in s && forall z :: z in s ==> r <= z
  {
    HasElement(s);
    var y :| y in s;
    if s == {y} then y
    else
      var rest := Min(s - {y});
      assert forall z :: z in s ==> z == y || z in s - {y};
      if rest < y then rest else y
  }

  /** `floorKey(x)`: the greatest key at or below `x`, or null. */
  ghost function FloorKey(m: map<real, real>, x: real): (r: Option<real>)
    ensures r.None? <==> forall k :: k in m ==> x < k
    ensures r.Some? ==> r.value in m && r.value <= x && forall k :: k in m && k <= x ==> k <= r.value
  {
    var below := set k | k in m && k <= x;
    assert forall k :: k in m && k <= x ==> k in below;
    if below == {} then None else Some(Max(below))
  }

  /** `firstKey()`: the smallest key; TreeMap throws on an empty map. */
  ghost function FirstKey(m: map<real, real>): (r: real)
    requires m != map[]
    ensures r in m && forall k :: k in m ==> r <= k
  {
    assert m.Keys != {} by {
      assert m == map k | k in m.Keys :: m[k];
    }
    Min(m.Keys)
  }

  /**
   * `getTargetValueAt`: the value at the greatest key at or below `x`, else
   * the value at the smallest key. On an empty map `firstKey` throws, which
   * is `None` here.
   */
  ghost function TargetValueAt(c: FanCurve, x: real): (r: Option<real>)
    ensures r.None? <==> c.changePoints == map[]
    ensures r.Some? && (exists k :: k in c.changePoints && k <= x) ==>
              exists k :: k in c.changePoints && k <= x && r.value == c.changePoints[k]
                          && forall k' :: k' in c.changePoints && k' <= x ==> k' <= k
    ensures r.Some? && (forall k :: k in c.changePoints ==> x < k) ==>
              exists k :: k in c.changePoints && r.value == c.changePoints[k]
                          && forall k' :: k' in c.changePoints ==> k <= k'
    ensures x in c.changePoints ==> r == Some(c.changePoints[x])
  {
    if c.changePoints == map[] then None
    else
      var floor := FloorKey(c.changePoints, x);
      var key := if floor.Some? then floor.value else FirstKey(c.changePoints);
      Some(c.changePoints[key])
  }

  /** The change-point list as a map; with unique keys, nothing is lost. */
  function ToMap(cps: seq<Mappings.Mapping>): (m: map<real, real>)
    ensures forall k :: k in m <==> Mappings.HasKey(cps, k)
  {
    if cps == [] then map[]
    else
      var last := cps[|cps| - 1];
      var m := ToMap(cps[..|cps| - 1])[last.key := last.value];
      assert forall k :: Mappings.HasKey(cps, k) <==> Mappings.HasKey(cps[..|cps| - 1], k) || k == last.key;
      m
  }

  lemma {:induction false} ToMapAt(cps: seq<Mappings.Mapping>, i: int)
    requires Mappings.UniqueKeys(cps) && 0 <= i < |cps|
    ensures cps[i].key in ToMap(cps) && ToMap(cps)[cps[i].key] == cps[i].value
  {
    if i < |cps| - 1 {
      ToMapAt(cps[..|cps| - 1], i);
    }
  }

  /**
   * The list-based evaluation of `core.FanCurve` agrees with this map-based
   * one whenever the change points have unique keys.
   */
  lemma AgreesWithListCurve(cps: seq<Mappings.Mapping>, source: Sensor, target: FanController, x: real)
    requires Mappings.UniqueKeys(cps)
    ensures FanCurves.FanValueAt(cps, x) == TargetValueAt(FanCurve(source, target, ToMap(cps)), x)
  {
    var m := ToMap(cps);
    FanCurves.FanValueAtPresent(cps, x);
    if cps == [] {
      return;
    }
    assert Mappings.HasKey(cps, cps[0].key);
    assert cps[0].key in m;
    var c := FanCurve(source, target, m);
    var floor := FloorKey(m, x);
    if floor.Some? {
      var i :| 0 <= i < |cps| && cps[i].key == floor.value;
      ToMapAt(cps, i);
      forall j | 0 <= j < |cps| && cps[j].key <= x ensures cps[j].key <= cps[i].key {
        assert Mappings.HasKey(cps, cps[j].key);
      }
      assert FanCurves.IsClosestBelow(cps, x, i);
      FanCurves.FanValueAtClosestBelow(cps, x, i);
    } else {
      var first := FirstKey(m);
      var i :| 0 <= i < |cps| && cps[i].key == first;
      ToMapAt(cps, i);
      forall j | 0 <= j < |cps| ensures cps[i].key <= cps[j].key && x < cps[j].key {
        assert Mappings.HasKey(cps, cps[j].key);
      }
      assert FanCurves.IsSmallest(cps, i);
      FanCurves.FanValueAtClamped(cps, x, i);
    }
  }
}
