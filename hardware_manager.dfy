/**
 * The default methods of `hwinterface.HardwareManager`: depth-first listings
 * of the hardware tree built with an explicit stack, and lookup by id.
 * Each method takes the tree root that `getHardwareRoot()` returns.
 */
module HardwareManager {
  import opened Options
  import opened Hardware

  /** The first sensor in `ss` whose id is `id`, as `findSensorById` looks it up. */
  function SensorWithId(ss: seq<Sensor>, id: string): (r: Option<Sensor>)
    ensures r.None? <==> forall i :: 0 <= i < |ss| ==> ss[i].id != id
    ensures r.Some? ==> exists i :: 0 <= i < |ss| && ss[i] == r.value && ss[i].id == id
                                    && forall j :: 0 <= j < i ==> ss[j].id != id
  {
    if ss == [] then None
    else if ss[0].id == id then Some(ss[0])
    else
      var r := SensorWithId(ss[1..], id);
      assert r.Some? ==> exists i :: 0 <= i < |ss[1..]| && ss[1..][i] == r.value && ss[1..][i].id == id
                                       && forall j :: 0 <= j < i ==> ss[1..][j].id != id;
      assert r.Some? ==> exists i :: 1 <= i < |ss| && ss[i] == r.value && ss[i].id == id
                                       && forall j :: 0 <= j < i ==> ss[j].id != id;
      r
  }

  /**
   * The first fan controller in `fs` whose id is `id`, as `findFanControllerById`
   * looks it up. The interface has one lookup per kind of hardware element, and
   * sensors and fan controllers are unrelated classes, so the model keeps the
   * two lookups side by side as well.
   */
  function FanWithId(fs: seq<FanController>, id: string): (r: Option<FanController>)
    ensures r.None? <==> forall i :: 0 <= i < |fs| ==> fs[i].id != id
    ensures r.Some? ==> exists i :: 0 <= i < |fs| && fs[i] == r.value && fs[i].id == id
                                    && forall j :: 0 <= j < i ==> fs[j].id != id
  {
    if fs == [] then None
    else if fs[0].id == id then Some(fs[0])
    else
      var r := FanWithId(fs[1..], id);
      assert r.Some? ==> exists i :: 0 <= i < |fs[1..]| && fs[1..][i] == r.value && fs[1..][i].id == id
                                       && forall j :: 0 <= j < i ==> fs[1..][j].id != id;
      assert r.Some? ==> exists i :: 1 <= i < |fs| && fs[i] == r.value && fs[i].id == id
                                       && forall j :: 0 <= j < i ==> fs[j].id != id;
      r
  }

  predicate UniqueSensorIds(ss: seq<Sensor>)
  {
    forall i, j :: 0 <= i < j < |ss| ==> ss[i].id != ss[j].id
  }

  predicate UniqueFanIds(fs: seq<FanController>)
  {
    forall i, j :: 0 <= i < j < |fs| ==> fs[i].id != fs[j].id
  }

  /** With unique ids, looking up a listed sensor's id finds that very sensor. */
  lemma SensorWithIdFindsListed(ss: seq<Sensor>, k: nat)
    requires k < |ss| && UniqueSensorIds(ss)
    ensures SensorWithId(ss, ss[k].id) == Some(ss[k])
  {
    var r := SensorWithId(ss, ss[k].id);
    var i :| 0 <= i < |ss| && ss[i] == r.value && ss[i].id == ss[k].id
              && forall j :: 0 <= j < i ==> ss[j].id != ss[k].id;
    assert i == k;
  }

  /** With unique ids, looking up a listed fan controller's id finds that very controller. */
  lemma FanWithIdFindsListed(fs: seq<FanController>, k: nat)
    requires k < |fs| && UniqueFanIds(fs)
    ensures FanWithId(fs, fs[k].id) == Some(fs[k])
  {
    var r := FanWithId(fs, fs[k].id);
    var i :| 0 <= i < |fs| && fs[i] == r.value && fs[i].id == fs[k].id
              && forall j :: 0 <= j < i ==> fs[j].id != fs[k].id;
    assert i == k;
  }

  /**
   * Pops the top of the stack `[hw] + rest` and pushes `hw`'s children last
   * to first, so that the first child ends on top.
   */
  method PushChildren(hw: HardwareItem, rest: seq<HardwareItem>) returns (stack: seq<HardwareItem>)
    ensures stack == hw.subHardware + rest
  {
    stack := rest;
    var i := |hw.subHardware| - 1;
    while i >= 0
      invariant -1 <= i < |hw.subHardware|
      invariant stack == hw.subHardware[i + 1..] + rest
    {
      stack := [hw.subHardware[i]] + stack;
      i := i - 1;
    }
  }

  /** After a pop-and-push step the listing still to come is the popped node, then the rest. */
  lemma PopStep(hw: HardwareItem, rest: seq<HardwareItem>)
    ensures PreorderForest([hw] + rest) == [hw] + PreorderForest(hw.subHardware + rest)
  {
    assert ([hw] + rest)[1..] == rest;
    PreorderForestAppend(hw.subHardware, rest);
  }

  /** `getAllHardware`: every node, in depth-first pre-order. */
  method GetAllHardware(root: HardwareItem) returns (hardware: seq<HardwareItem>)
    ensures hardware == Preorder(root)
  {
    hardware := [];
    var stack := [root];
    assert PreorderForest(stack) == Preorder(root) + PreorderForest([]) == Preorder(root);
    while stack != []
      invariant hardware + PreorderForest(stack) == Preorder(root)
      decreases |PreorderForest(stack)|
    {
      var hw, rest := stack[0], stack[1..];
      assert stack == [hw] + rest;
      PopStep(hw, rest);
      hardware := hardware + [hw];
      stack := PushChildren(hw, rest);
    }
  }

  /** `getAllSensors`: each node's sensors in stored order, nodes in pre-order. */
  method GetAllSensors(root: HardwareItem) returns (sensors: seq<Sensor>)
    ensures sensors == AllSensors(root)
  {
    sensors := [];
    var stack := [root];
    assert PreorderForest(stack) == Preorder(root) + PreorderForest([]) == Preorder(root);
    while stack != []
      invariant sensors + SensorsOf(PreorderForest(stack)) == AllSensors(root)
      decreases |PreorderForest(stack)|
    {
      var hw, rest := stack[0], stack[1..];
      assert stack == [hw] + rest;
      PopStep(hw, rest);
      SensorsOfAppend([hw], PreorderForest(hw.subHardware + rest));
      sensors := sensors + hw.sensors;
      stack := PushChildren(hw, rest);
    }
  }

  /** `getAllFanControllers`: each node's fan controllers in stored order, nodes in pre-order. */
  method GetAllFanControllers(root: HardwareItem) returns (fans: seq<FanController>)
    ensures fans == AllFans(root)
  {
    fans := [];
    var stack := [root];
    assert PreorderForest(stack) == Preorder(root) + PreorderForest([]) == Preorder(root);
    while stack != []
      invariant fans + FansOf(PreorderForest(stack)) == AllFans(root)
      decreases |PreorderForest(stack)|
    {
      var hw, rest := stack[0], stack[1..];
      assert stack == [hw] + rest;
      PopStep(hw, rest);
      FansOfAppend([hw], PreorderForest(hw.subHardware + rest));
      fans := fans + hw.fans;
      stack := PushChildren(hw, rest);
    }
  }

  /** `findSensorById`: the first sensor in `getAllSensors` order with the id, else empty. */
  method FindSensorById(root: HardwareItem, sensorId: string) returns (r: Option<Sensor>)
    ensures r == SensorWithId(AllSensors(root), sensorId)
  {
    var all := GetAllSensors(root);
    for i := 0 to |all|
      invariant forall j :: 0 <= j < i ==> all[j].id != sensorId
    {
      if all[i].id == sensorId {
        ghost var found := SensorWithId(all, sensorId);
        ghost var k :| 0 <= k < |all| && all[k] == found.value && all[k].id == sensorId
                        && forall j :: 0 <= j < k ==> all[j].id != sensorId;
        assert k == i;
        return Some(all[i]);
      }
    }
    return None;
  }

  /** `findFanControllerById`: the first fan controller in `getAllFanControllers` order with the id, else empty. */
  method FindFanControllerById(root: HardwareItem, fanControllerId: string) returns (r: Option<FanController>)
    ensures r == FanWithId(AllFans(root), fanControllerId)
  {
    var all := GetAllFanControllers(root);
    for i := 0 to |all|
      invariant forall j :: 0 <= j < i ==> all[j].id != fanControllerId
    {
      if all[i].id == fanControllerId {
        ghost var found := FanWithId(all, fanControllerId);
        ghost var k :| 0 <= k < |all| && all[k] == found.value && all[k].id == fanControllerId
                        && forall j :: 0 <= j < k ==> all[j].id != fanControllerId;
        assert k == i;
        return Some(all[i]);
      }
    }
    return None;
  }
}
