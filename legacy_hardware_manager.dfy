/**
 * The earlier `HardwareManager` interface, whose root is optional. Its three
 * listings run the same stack walk as the current interface once a root is
 * present; an absent root lists nothing. Its controls are the fan-controller
 * lists of the tree's nodes.
 */
module LegacyHardwareManager {
  import opened Options
  import opened Hardware
  import HardwareManager

  /** `getAllSensors`: empty without a root, else the pre-order concatenation of sensor lists. */
  method GetAllSensors(root: Option<HardwareItem>) returns (sensors: seq<Sensor>)
    ensures root.None? ==> sensors == []
    ensures root.Some? ==> sensors == AllSensors(root.value)
  {
    sensors := [];
    if root.Some? {
      sensors := HardwareManager.GetAllSensors(root.value);
    }
  }

  /** `getAllControls`: empty without a root, else the pre-order concatenation of control lists. */
  method GetAllControls(root: Option<HardwareItem>) returns (controls: seq<FanController>)
    ensures root.None? ==> controls == []
    ensures root.Some? ==> controls == AllFans(root.value)
    ensures root.Some? && (forall n :: n in Preorder(root.value) ==> n.fans == []) ==> controls == []
  {
    controls := [];
    if root.Some? {
      controls := HardwareManager.GetAllFanControllers(root.value);
      NoControlsAnywhere(Preorder(root.value));
    }
  }

  /** `getAllHardware`: empty without a root, else every node once, in pre-order. */
  method GetAllHardware(root: Option<HardwareItem>) returns (hardware: seq<HardwareItem>)
    ensures root.None? ==> hardware == []
    ensures root.Some? ==> hardware == Preorder(root.value)
    ensures root.Some? ==> |hardware| == ForestSize([root.value])
  {
    hardware := [];
    if root.Some? {
      hardware := HardwareManager.GetAllHardware(root.value);
      PreorderLength(root.value);
    }
  }

  /** Nodes that carry no controls contribute no controls. */
  lemma {:induction false} NoControlsAnywhere(nodes: seq<HardwareItem>)
    ensures (forall n :: n in nodes ==> n.fans == []) ==> FansOf(nodes) == []
  {
    if nodes != [] {
      NoControlsAnywhere(nodes[1..]);
      if forall n :: n in nodes ==> n.fans == [] {
        assert nodes[0] in nodes;
        assert forall n :: n in nodes[1..] ==> n in nodes;
      }
    }
  }
}
