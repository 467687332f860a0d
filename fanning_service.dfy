/**
 * `core.FanningService`: the curve list, its persistence, and one step of
 * the control loop, which refreshes the hardware and then commands every
 * fan controller from the first curve that targets it.
 */
module Service {
  import opened Options
  import opened Mappings
  import opened Hardware
  import HardwareManager
  import MockHardware
  import Persistence
  import FanCurves

  /** The first curve in list order that targets `fan`, as `findCurveOfFan` finds it. */
  function CurveOf(curves: seq<FanCurves.FanCurve>, fan: FanController): (r: Option<FanCurves.FanCurve>)
    ensures r.None? <==> forall i :: 0 <= i < |curves| ==> curves[i].fanController != fan
    ensures r.Some? ==> exists i :: 0 <= i < |curves| && curves[i] == r.value && r.value.fanController == fan
                                    && forall j :: 0 <= j < i ==> curves[j].fanController != fan
  {
    if curves == [] then None
    else if curves[0].fanController == fan then Some(curves[0])
    else
      var r := CurveOf(curves[1..], fan);
      assert r.Some? ==> exists i :: 0 <= i < |curves[1..]| && curves[1..][i] == r.value && r.value.fanController == fan
                                       && forall j :: 0 <= j < i ==> curves[1..][j].fanController != fan;
      assert r.Some? ==> exists i :: 1 <= i < |curves| && curves[i] == r.value && r.value.fanController == fan
                                       && forall j :: 0 <= j < i ==> curves[j].fanController != fan;
      r
  }

  /**
   * The value one control step commands for `fan`: its curve's value at the
   * curve sensor's current reading, or nothing when no curve targets it.
   */
  function ControlTarget(curves: seq<FanCurves.FanCurve>, fan: FanController): Option<real>
    reads curves, set c | c in curves :: c.sensor
  {
    var c := CurveOf(curves, fan);
    if c.None? then None else FanCurves.FanValueAt(c.value.changePoints, c.value.sensor.value)
  }

  /** With a curve `k` that is the first to target `fan`, that curve decides. */
  lemma CurveOfFindsFirst(curves: seq<FanCurves.FanCurve>, fan: FanController, k: nat)
    requires k < |curves| && curves[k].fanController == fan
    requires forall j :: 0 <= j < k ==> curves[j].fanController != fan
    ensures CurveOf(curves, fan) == Some(curves[k])
  {
    var c := CurveOf(curves, fan);
    var i :| 0 <= i < |curves| && curves[i] == c.value && c.value.fanController == fan
              && forall j :: 0 <= j < i ==> curves[j].fanController != fan;
    assert i == k;
  }

  /** A fan that no curve targets is left to the hardware. */
  lemma NoCurveNoCommand(curves: seq<FanCurves.FanCurve>, fan: FanController)
    requires forall i :: 0 <= i < |curves| ==> curves[i].fanController != fan
    ensures ControlTarget(curves, fan) == None
  {
  }

  /** A fan whose curve has no change points is left to the hardware too. */
  lemma EmptyCurveNoCommand(curves: seq<FanCurves.FanCurve>, fan: FanController, k: nat)
    requires k < |curves| && curves[k].fanController == fan && curves[k].changePoints == []
    requires forall j :: 0 <= j < k ==> curves[j].fanController != fan
    ensures ControlTarget(curves, fan) == None
  {
    CurveOfFindsFirst(curves, fan, k);
    FanCurves.FanValueAtPresent(curves[k].changePoints, curves[k].sensor.value);
  }

  /** A fan whose curve has change points is always commanded, to one of the curve's values. */
  lemma CurveCommands(curves: seq<FanCurves.FanCurve>, fan: FanController, k: nat)
    requires k < |curves| && curves[k].fanController == fan && curves[k].changePoints != []
    requires forall j :: 0 <= j < k ==> curves[j].fanController != fan
    ensures ControlTarget(curves, fan).Some?
    ensures exists i :: 0 <= i < |curves[k].changePoints| && curves[k].changePoints[i].value == ControlTarget(curves, fan).value
  {
    CurveOfFindsFirst(curves, fan, k);
    FanCurves.FanValueAtPresent(curves[k].changePoints, curves[k].sensor.value);
    FanCurves.FanValueAtIsAChangePointValue(curves[k].changePoints, curves[k].sensor.value);
  }

  class FanningService {
    const hardwareManager: MockHardware.MockHardwareManager
    const storage: Persistence.JsonStorage
    var fanCurves: seq<FanCurves.FanCurve>

    /** A new service has no curves. */
    constructor (hardwareManager: MockHardware.MockHardwareManager, storage: Persistence.JsonStorage)
      ensures this.hardwareManager == hardwareManager && this.storage == storage
      ensures fanCurves == []
    {
      this.hardwareManager := hardwareManager;
      this.storage := storage;
      fanCurves := [];
    }

    /**
     * `loadFromStorage`: on success the list becomes exactly what the
     * storage loaded, in order; a failing load leaves the list as it was.
     */
    method LoadFromStorage() returns (r: Result<(), Persistence.LoadError>)
      modifies this
      ensures r.Success? == Persistence.LoadResult(storage.file, storage.hwManager.hwRoot).Success?
      ensures r.Success? ==> Persistence.Views(fanCurves) == Persistence.LoadResult(storage.file, storage.hwManager.hwRoot).value
      ensures r.Failure? ==> fanCurves == old(fanCurves)
                             && r.error == Persistence.LoadResult(storage.file, storage.hwManager.hwRoot).error
    {
      var loaded := storage.Load();
      if loaded.Failure? {
        return Failure(loaded.error);
      }
      fanCurves := loaded.value;
      return Success(());
    }

    /** `storeToStorage`: the storage receives the current list, which stays as it is. */
    method StoreToStorage()
      modifies storage
      ensures storage.file == Persistence.Records(Persistence.Encode(Persistence.Views(fanCurves)))
    {
      storage.Store(fanCurves);
    }

    /** `findCurveOfFan`: the first curve in list order whose fan controller is `fan`. */
    method FindCurveOfFan(fan: FanController) returns (r: Option<FanCurves.FanCurve>)
      ensures r == CurveOf(fanCurves, fan)
    {
      for i := 0 to |fanCurves|
        invariant forall j :: 0 <= j < i ==> fanCurves[j].fanController != fan
      {
        if fanCurves[i].fanController == fan {
          CurveOfFindsFirst(fanCurves, fan, i);
          return Some(fanCurves[i]);
        }
      }
      return None;
    }

    /**
     * `update`: one refresh of the hardware, then every fan controller of
     * the tree, in listing order, is commanded from its curve at the
     * refreshed sensor reading, or released when no curve targets it. The
     * curve list is not touched.
     */
    method Update()
      modifies SensorSet(hardwareManager.hwRoot), FanSet(hardwareManager.hwRoot)
      ensures forall f :: f in AllFans(hardwareManager.hwRoot) ==> f.controlledValue == ControlTarget(fanCurves, f)
      ensures forall f :: f in AllFans(hardwareManager.hwRoot) && CurveOf(fanCurves, f).None? ==>
                f.controlledValue == None
      ensures forall f :: f in AllFans(hardwareManager.hwRoot) && CurveOf(fanCurves, f).Some? ==>
                f.controlledValue == FanCurves.FanValueAt(CurveOf(fanCurves, f).value.changePoints,
                                                          CurveOf(fanCurves, f).value.sensor.value)
    {
      hardwareManager.UpdateHardwareTree();
      var fans := HardwareManager.GetAllFanControllers(hardwareManager.hwRoot);
      for i := 0 to |fans|
        invariant forall j :: 0 <= j < i ==> fans[j].controlledValue == ControlTarget(fanCurves, fans[j])
      {
        ControlFan(fans[i]);
      }
    }

    /**
     * The body of `update`'s loop for one fan: command it from its curve at
     * the curve sensor's reading, or release it when no curve targets it.
     */
    method ControlFan(fan: FanController)
      modifies fan
      ensures fan.controlledValue == ControlTarget(fanCurves, fan)
    {
      var optFanCurve := FindCurveOfFan(fan);
      if optFanCurve.Some? {
        var fanCurve := optFanCurve.value;
        var sensorValue := fanCurve.sensor.value;
        var value := fanCurve.GetFanValueAt(sensorValue);
        fan.controlledValue := value;
      } else {
        fan.controlledValue := None;
      }
    }
  }
}
