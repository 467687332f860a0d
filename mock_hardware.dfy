/**
 * The mock backend: a fixed hardware tree whose refresh makes every sensor
 * follow the commanded value of the first fan controller attached to it,
 * or read a fresh whole number in [30, 50) when nothing commands it.
 */
module MockHardware {
  import opened Options
  import opened Hardware
  import HardwareManager

  /** The first fan controller in `fans` that drives `s`, as the refresh's stream filter finds it. */
  function FirstControlOf(s: Sensor, fans: seq<FanController>): (r: Option<FanController>)
    ensures r.None? <==> forall i :: 0 <= i < |fans| ==> fans[i].sensor != s
    ensures r.Some? ==> exists i :: 0 <= i < |fans| && fans[i] == r.value && r.value.sensor == s
                                    && forall j :: 0 <= j < i ==> fans[j].sensor != s
  {
    if fans == [] then None
    else if fans[0].sensor == s then Some(fans[0])
    else
      var r := FirstControlOf(s, fans[1..]);
      assert r.Some? ==> exists i :: 0 <= i < |fans[1..]| && fans[1..][i] == r.value && r.value.sensor == s
                                       && forall j :: 0 <= j < i ==> fans[1..][j].sensor != s;
      assert r.Some? ==> exists i :: 1 <= i < |fans| && fans[i] == r.value && r.value.sensor == s
                                       && forall j :: 0 <= j < i ==> fans[j].sensor != s;
      r
  }

  /** A reading the random branch can produce: `nextInt(30, 50)` widened to a double. */
  predicate IsRandomReading(x: real)
  {
    x.Floor as real == x && 30.0 <= x < 50.0
  }

  /** The value the commanding controller of `s` asks for, if one commands it. */
  function CommandedValue(s: Sensor, fans: seq<FanController>): (r: Option<real>)
    reads fans
    ensures r.Some? ==> exists i :: 0 <= i < |fans| && fans[i].sensor == s && fans[i].controlledValue == r
  {
    var c := FirstControlOf(s, fans);
    if c.Some? && c.value.controlledValue.Some? then c.value.controlledValue else None
  }

  /** `s` reads the commanded value `v` if there is one, else a random reading. */
  predicate RefreshedWith(s: Sensor, v: Option<real>)
    reads s
  {
    if v.Some? then s.value == v.value else IsRandomReading(s.value)
  }

  /** What one refresh leaves in sensor `s`. */
  predicate Refreshed(s: Sensor, fans: seq<FanController>)
    reads s, fans
  {
    RefreshedWith(s, CommandedValue(s, fans))
  }

  class MockHardwareManager {
    const hwRoot: HardwareItem

    /** Keeps the given tree and refreshes it once. */
    constructor (hwRoot: HardwareItem)
      modifies SensorSet(hwRoot)
      ensures this.hwRoot == hwRoot
      ensures forall s :: s in AllSensors(hwRoot) ==> Refreshed(s, AllFans(hwRoot))
    {
      this.hwRoot := hwRoot;
      new;
      UpdateHardwareTree();
    }

    /**
     * The built-in tree: `computer` over `hardware a` (sensors a, b, c and
     * a controller on c with range 30..50) and `hardware b` (sensors d, e
     * and a controller on d with range 300..1000), refreshed once.
     */
    constructor Default()
      ensures hwRoot.id == "c" && hwRoot.name == "computer"
      ensures hwRoot.sensors == [] && hwRoot.fans == [] && |hwRoot.subHardware| == 2
      ensures hwRoot.subHardware[0].id == "ha" && hwRoot.subHardware[1].id == "hb"
      ensures hwRoot.subHardware[0].subHardware == [] && hwRoot.subHardware[1].subHardware == []
      ensures |AllSensors(hwRoot)| == 5 && |AllFans(hwRoot)| == 2
      ensures AllSensors(hwRoot)[0].id == "sa" && AllSensors(hwRoot)[1].id == "sb"
      ensures AllSensors(hwRoot)[2].id == "sc" && AllSensors(hwRoot)[3].id == "sd"
      ensures AllSensors(hwRoot)[4].id == "se"
      ensures AllFans(hwRoot)[0].id == "ca" && AllFans(hwRoot)[0].sensor == AllSensors(hwRoot)[2]
      ensures AllFans(hwRoot)[0].minControlledValue == 30.0 && AllFans(hwRoot)[0].maxControlledValue == 50.0
      ensures AllFans(hwRoot)[1].id == "cb" && AllFans(hwRoot)[1].sensor == AllSensors(hwRoot)[3]
      ensures AllFans(hwRoot)[1].minControlledValue == 300.0 && AllFans(hwRoot)[1].maxControlledValue == 1000.0
      ensures forall f :: f in AllFans(hwRoot) ==> f.controlledValue == None
      ensures forall s :: s in AllSensors(hwRoot) ==> IsRandomReading(s.value)
    {
      var sa := new Sensor("sensor a", "sa", "Temperature", "°C");
      var sb := new Sensor("sensor b", "sb", "Temperature", "°C");
      var sc := new Sensor("sensor c", "sc", "Voltage", "V");
      var ca := new FanController(sc, "ca", 30.0, 50.0);
      var ha := HardwareItem([], [sa, sb, sc], [ca], "hardware a", "ha");

      var sd := new Sensor("sensor d", "sd", "Fan speed", "RPM");
      var se := new Sensor("sensor e", "se", "Voltage", "V");
      var cb := new FanController(sd, "cb", 300.0, 1000.0);
      var hb := HardwareItem([], [sd, se], [cb], "hardware b", "hb");

      hwRoot := HardwareItem([ha, hb], [], [], "computer", "c");
      new;
      DefaultTreeListing(hwRoot, ha, hb);
      UpdateHardwareTree();
    }

    /**
     * `updateHardwareTree`: every listed sensor takes the commanded value of
     * the first controller driving it, or a fresh whole number in [30, 50).
     * Only sensor values change; the tree and the commanded values stay.
     */
    method UpdateHardwareTree()
      modifies SensorSet(hwRoot)
      ensures forall s :: s in AllSensors(hwRoot) ==> Refreshed(s, AllFans(hwRoot))
    {
      var sensors := HardwareManager.GetAllSensors(hwRoot);
      ghost var fans := AllFans(hwRoot);
      for i := 0 to |sensors|
        invariant forall j :: 0 <= j < i ==> Refreshed(sensors[j], fans)
      {
        label before:
        var sensor := sensors[i];
        var controls := HardwareManager.GetAllFanControllers(hwRoot);
        RefreshSensor(sensor, controls);
        forall j | 0 <= j < i + 1
          ensures Refreshed(sensors[j], fans)
        {
          if sensors[j] != sensor {
            assert old@before(Refreshed(sensors[j], fans));
            assert sensors[j].value == old@before(sensors[j].value);
            assert CommandedValue(sensors[j], fans) == old@before(CommandedValue(sensors[j], fans));
          }
        }
      }
    }

    /** The body of the refresh loop for one sensor. */
    static method RefreshSensor(sensor: Sensor, controls: seq<FanController>)
      modifies sensor
      ensures Refreshed(sensor, controls)
    {
      var sensorControl := FirstControlOf(sensor, controls);
      if sensorControl.Some? && sensorControl.value.controlledValue.Some? {
        sensor.value := sensorControl.value.controlledValue.value;
      } else {
        var n: int :| 30 <= n < 50;
        sensor.value := n as real;
      }
    }

    /** `getHardwareRoot`: the tree given at construction. */
    method GetHardwareRoot() returns (root: HardwareItem)
      ensures root == hwRoot
    {
      root := hwRoot;
    }
  }

  /** The listings of a root over two leaves. */
  lemma DefaultTreeListing(root: HardwareItem, ha: HardwareItem, hb: HardwareItem)
    requires root.subHardware == [ha, hb] && root.sensors == [] && root.fans == []
    requires ha.subHardware == [] && hb.subHardware == []
    ensures AllSensors(root) == ha.sensors + hb.sensors
    ensures AllFans(root) == ha.fans + hb.fans
  {
    assert Preorder(ha) == [ha] && Preorder(hb) == [hb];
    assert PreorderForest([hb]) == [hb] + PreorderForest([]);
    assert [ha, hb][1..] == [hb];
    assert Preorder(root) == [root, ha, hb];
    assert [root, ha, hb][1..] == [ha, hb];
    assert [ha, hb][1..] == [hb];
    assert [hb][1..] == [];
    assert SensorsOf([hb]) == hb.sensors + SensorsOf([]);
    assert SensorsOf([ha, hb]) == ha.sensors + SensorsOf([hb]);
    assert SensorsOf([root, ha, hb]) == root.sensors + SensorsOf([ha, hb]);
    assert root.sensors + ha.sensors + hb.sensors == ha.sensors + hb.sensors;
    assert FansOf([hb]) == hb.fans + FansOf([]);
    assert FansOf([ha, hb]) == ha.fans + FansOf([hb]);
    assert FansOf([root, ha, hb]) == root.fans + FansOf([ha, hb]);
    assert root.fans + ha.fans + hb.fans == ha.fans + hb.fans;
  }

  /** A sensor driven by a commanding controller reads exactly the commanded value after a refresh. */
  lemma CommandedSensorFollows(s: Sensor, fans: seq<FanController>, k: nat)
    requires k < |fans| && fans[k].sensor == s && fans[k].controlledValue.Some?
    requires forall j :: 0 <= j < k ==> fans[j].sensor != s
    requires Refreshed(s, fans)
    ensures s.value == fans[k].controlledValue.value
  {
    var c := FirstControlOf(s, fans);
    var i :| 0 <= i < |fans| && fans[i] == c.value && c.value.sensor == s
              && forall j :: 0 <= j < i ==> fans[j].sensor != s;
    assert i == k;
  }

  /** A sensor no controller drives reads a whole number in [30, 50) after a refresh. */
  lemma UndrivenSensorIsRandom(s: Sensor, fans: seq<FanController>)
    requires forall i :: 0 <= i < |fans| ==> fans[i].sensor != s || fans[i].controlledValue.None?
    requires Refreshed(s, fans)
    ensures IsRandomReading(s.value)
  {
  }
}
