/**
 * The hardware tree: hardware items own sub-hardware, sensors and fan
 * controllers. Sensors and fan controllers are objects whose values change
 * in place; the tree's shape does not change once built.
 */
module Hardware {
  import opened Options

  /** A sensor; `value` is overwritten by every hardware refresh. */
  class Sensor {
    const name: string
    const id: string
    const sensorType: string
    const measurementUnit: string
    var value: real

    /** A new sensor reads 0 until the first refresh (a fresh DoubleProperty). */
    constructor (name: string, id: string, sensorType: string, measurementUnit: string)
      ensures this.name == name && this.id == id
      ensures this.sensorType == sensorType && this.measurementUnit == measurementUnit
      ensures value == 0.0
    {
      this.name := name;
      this.id := id;
      this.sensorType := sensorType;
      this.measurementUnit := measurementUnit;
      value := 0.0;
    }
  }

  /**
   * A fan controller: the sensor it drives, its settable range and the value
   * the software commands (None: left to the hardware).
   */
  class FanController {
    const sensor: Sensor
    const id: string
    const minControlledValue: real
    const maxControlledValue: real
    var controlledValue: Option<real>

    constructor (sensor: Sensor, id: string, minControlledValue: real, maxControlledValue: real)
      ensures this.sensor == sensor && this.id == id
      ensures this.minControlledValue == minControlledValue
      ensures this.maxControlledValue == maxControlledValue
      ensures controlledValue == None
    {
      this.sensor := sensor;
      this.id := id;
      this.minControlledValue := minControlledValue;
      this.maxControlledValue := maxControlledValue;
      controlledValue := None;
    }
  }

  /** A node of the hardware tree, with its children in stored order. */
  datatype HardwareItem = HardwareItem(
    subHardware: seq<HardwareItem>,
    sensors: seq<Sensor>,
    fans: seq<FanController>,
    name: string,
    id: string)

  /** Depth-first pre-order: the node, then each child's subtree in order. */
  function Preorder(t: HardwareItem): (r: seq<HardwareItem>)
    decreases t, 1
  {
    [t] + PreorderForest(t.subHardware)
  }

  /** Pre-order of a list of subtrees, first subtree first. */
  function PreorderForest(ts: seq<HardwareItem>): (r: seq<HardwareItem>)
    decreases ts, 0
  {
    if ts == [] then [] else Preorder(ts[0]) + PreorderForest(ts[1..])
  }

  /** Concatenation of the nodes' sensor lists, in the given node order. */
  function SensorsOf(nodes: seq<HardwareItem>): seq<Sensor>
  {
    if nodes == [] then [] else nodes[0].sensors + SensorsOf(nodes[1..])
  }

  /** Concatenation of the nodes' fan-controller lists, in the given node order. */
  function FansOf(nodes: seq<HardwareItem>): seq<FanController>
  {
    if nodes == [] then [] else nodes[0].fans + FansOf(nodes[1..])
  }

  /** What `getAllSensors` must return for a tree. */
  function AllSensors(root: HardwareItem): seq<Sensor>
  {
    SensorsOf(Preorder(root))
  }

  /** What `getAllFanControllers` must return for a tree. */
  function AllFans(root: HardwareItem): seq<FanController>
  {
    FansOf(Preorder(root))
  }

  function SensorSet(root: HardwareItem): set<Sensor>
  {
    set s | s in AllSensors(root)
  }

  function FanSet(root: HardwareItem): set<FanController>
  {
    set f | f in AllFans(root)
  }

  /** The number of nodes in a list of subtrees. */
  function ForestSize(ts: seq<HardwareItem>): nat
    decreases ts
  {
    if ts == [] then 0 else 1 + ForestSize(ts[0].subHardware) + ForestSize(ts[1..])
  }

  lemma {:induction false} PreorderForestAppend(a: seq<HardwareItem>, b: seq<HardwareItem>)
    ensures PreorderForest(a + b) == PreorderForest(a) + PreorderForest(b)
  {
    if a == [] {
      assert a + b == b;
    } else {
      assert (a + b)[1..] == a[1..] + b;
      PreorderForestAppend(a[1..], b);
    }
  }

  lemma {:induction false} SensorsOfAppend(a: seq<HardwareItem>, b: seq<HardwareItem>)
    ensures SensorsOf(a + b) == SensorsOf(a) + SensorsOf(b)
  {
    if a == [] {
      assert a + b == b;
    } else {
      assert (a + b)[1..] == a[1..] + b;
      SensorsOfAppend(a[1..], b);
    }
  }

  lemma {:induction false} FansOfAppend(a: seq<HardwareItem>, b: seq<HardwareItem>)
    ensures FansOf(a + b) == FansOf(a) + FansOf(b)
  {
    if a == [] {
      assert a + b == b;
    } else {
      assert (a + b)[1..] == a[1..] + b;
      FansOfAppend(a[1..], b);
    }
  }

  /** Every node of a forest is listed exactly once: the listing has one entry per node. */
  lemma {:induction false} PreorderForestLength(ts: seq<HardwareItem>)
    ensures |PreorderForest(ts)| == ForestSize(ts)
    decreases ts
  {
    if ts != [] {
      PreorderForestLength(ts[0].subHardware);
      PreorderForestLength(ts[1..]);
    }
  }

  /** `getAllHardware` has as many entries as the tree has nodes. */
  lemma PreorderLength(root: HardwareItem)
    ensures |Preorder(root)| == ForestSize([root])
  {
    PreorderForestLength(root.subHardware);
    PreorderForestLength([root]);
    assert PreorderForest([root]) == Preorder(root) + PreorderForest([]);
  }

  /** Pre-order visits the parent first and then the children's subtrees in stored order. */
  lemma PreorderParentThenChildren(root: HardwareItem, i: nat)
    requires i < |root.subHardware|
    ensures Preorder(root)[0] == root
    ensures PreorderForest(root.subHardware) ==
            PreorderForest(root.subHardware[..i]) + Preorder(root.subHardware[i])
            + PreorderForest(root.subHardware[i + 1..])
  {
    var cs := root.subHardware;
    assert cs == cs[..i] + ([cs[i]] + cs[i + 1..]);
    PreorderForestAppend(cs[..i], [cs[i]] + cs[i + 1..]);
    assert ([cs[i]] + cs[i + 1..])[1..] == cs[i + 1..];
  }
}
