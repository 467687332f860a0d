/**
 * `core.JsonStorage` at the level of records: a stored curve is the id of
 * its sensor, the id of its fan controller and its change points in list
 * order. Loading resolves both ids through the hardware tree; an id that
 * does not resolve makes the whole load fail.
 */
module Persistence {
  import opened Options
  import opened Mappings
  import opened Hardware
  import HardwareManager
  import MockHardware
  import FanCurves

  /** One element of the stored JSON array. */
  datatype CurveRecord = CurveRecord(sensor: string, fanController: string, changePoints: seq<Mapping>)

  /**
   * The storage file as `load` finds it: absent, not a well-formed array of
   * curve records, or such an array.
   */
  datatype StoredFile = Missing | Malformed | Records(records: seq<CurveRecord>)

  /** Why a load fails: the text does not parse, or an `Optional.get` finds no element. */
  datatype LoadError = MalformedJson | NoSuchElement

  /** The parts of a fan curve that storage reads and writes. */
  datatype CurveView = CurveView(sensor: Sensor, fanController: FanController, changePoints: seq<Mapping>)

  /** What a curve object currently holds. */
  function ViewOf(c: FanCurves.FanCurve): (v: CurveView)
    reads c
    ensures v.sensor == c.sensor && v.fanController == c.fanController && v.changePoints == c.changePoints
  {
    CurveView(c.sensor, c.fanController, c.changePoints)
  }

  /** What a list of curve objects currently holds, in list order. */
  function Views(cs: seq<FanCurves.FanCurve>): (vs: seq<CurveView>)
    reads cs
    ensures |vs| == |cs|
  {
    if cs == [] then [] else Views(cs[..|cs| - 1]) + [ViewOf(cs[|cs| - 1])]
  }

  /** Element `i` of the views is the view of curve `i`. */
  lemma {:induction false} ViewsAt(cs: seq<FanCurves.FanCurve>)
    ensures forall i :: 0 <= i < |cs| ==> Views(cs)[i] == ViewOf(cs[i])
  {
    if cs != [] {
      ViewsAt(cs[..|cs| - 1]);
    }
  }

  /** The record `store` writes for one curve. */
  function RecordOf(v: CurveView): (r: CurveRecord)
    ensures r.sensor == v.sensor.id && r.fanController == v.fanController.id
    ensures r.changePoints == v.changePoints
  {
    CurveRecord(v.sensor.id, v.fanController.id, v.changePoints)
  }

  /** The records `store` writes, one per curve, in list order. */
  function Encode(vs: seq<CurveView>): (rs: seq<CurveRecord>)
    ensures |rs| == |vs|
  {
    if vs == [] then [] else Encode(vs[..|vs| - 1]) + [RecordOf(vs[|vs| - 1])]
  }

  /** Record `i` is the record of curve `i`: one record per curve, in list order. */
  lemma {:induction false} EncodeAt(vs: seq<CurveView>)
    ensures forall i :: 0 <= i < |vs| ==> Encode(vs)[i] == RecordOf(vs[i])
  {
    if vs != [] {
      EncodeAt(vs[..|vs| - 1]);
    }
  }

  /** Both ids of a record name something in the tree. */
  predicate Resolves(rec: CurveRecord, root: HardwareItem)
  {
    && HardwareManager.SensorWithId(AllSensors(root), rec.sensor).Some?
    && HardwareManager.FanWithId(AllFans(root), rec.fanController).Some?
  }

  /** The curve a resolvable record loads as. */
  function Resolved(rec: CurveRecord, root: HardwareItem): CurveView
    requires Resolves(rec, root)
  {
    CurveView(
      HardwareManager.SensorWithId(AllSensors(root), rec.sensor).value,
      HardwareManager.FanWithId(AllFans(root), rec.fanController).value,
      rec.changePoints)
  }

  /**
   * The records loaded in array order: the sensor id of a record is looked
   * up before its fan-controller id, and the first lookup that finds nothing
   * ends the load.
   */
  function Decode(records: seq<CurveRecord>, root: HardwareItem): Result<seq<CurveView>, LoadError>
  {
    if records == [] then Success([])
    else
      match Decode(records[..|records| - 1], root)
      case Failure(e) => Failure(e)
      case Success(vs) =>
        var rec := records[|records| - 1];
        if HardwareManager.SensorWithId(AllSensors(root), rec.sensor).None? then Failure(NoSuchElement)
        else if HardwareManager.FanWithId(AllFans(root), rec.fanController).None? then Failure(NoSuchElement)
        else Success(vs + [Resolved(rec, root)])
  }

  /** What `load` returns for a given file and tree. */
  function LoadResult(file: StoredFile, root: HardwareItem): Result<seq<CurveView>, LoadError>
  {
    match file
    case Missing => Success([])
    case Malformed => Failure(MalformedJson)
    case Records(rs) => Decode(rs, root)
  }

  /**
   * Loading succeeds exactly when every record resolves, and then gives one
   * curve per record, in array order, with the looked-up sensor and fan
   * controller and the record's change points unchanged.
   */
  lemma DecodeCorrect(records: seq<CurveRecord>, root: HardwareItem)
    ensures Decode(records, root).Success? <==> forall i :: 0 <= i < |records| ==> Resolves(records[i], root)
    ensures Decode(records, root).Failure? ==> Decode(records, root).error == NoSuchElement
    ensures Decode(records, root).Success? ==>
              && |Decode(records, root).value| == |records|
              && forall i :: 0 <= i < |records| ==> Decode(records, root).value[i] == Resolved(records[i], root)
  {
    DecodeSucceeds(records, root);
    DecodeValues(records, root);
  }

  lemma {:induction false} DecodeSucceeds(records: seq<CurveRecord>, root: HardwareItem)
    ensures Decode(records, root).Success? <==> forall i :: 0 <= i < |records| ==> Resolves(records[i], root)
    ensures Decode(records, root).Failure? ==> Decode(records, root).error == NoSuchElement
  {
    if records != [] {
      var n := |records| - 1;
      var p := records[..n];
      DecodeSucceeds(p, root);
      var ok := Decode(records, root).Success?;
      assert ok <==> Decode(p, root).Success? && Resolves(records[n], root);
      if ok {
        forall i | 0 <= i < |records| ensures Resolves(records[i], root) {
          if i < n {
            assert p[i] == records[i];
          }
        }
      } else if Decode(p, root).Success? {
        assert !Resolves(records[n], root);
      } else {
        var i :| 0 <= i < n && !Resolves(p[i], root);
        assert p[i] == records[i];
      }
    }
  }

  lemma {:induction false} DecodeValues(records: seq<CurveRecord>, root: HardwareItem)
    ensures Decode(records, root).Success? ==>
              && |Decode(records, root).value| == |records|
              && forall i :: 0 <= i < |records| ==>
                   Resolves(records[i], root) && Decode(records, root).value[i] == Resolved(records[i], root)
  {
    if records != [] {
      var n := |records| - 1;
      var p := records[..n];
      DecodeValues(p, root);
      assert forall i :: 0 <= i < n ==> p[i] == records[i];
    }
  }

  /** A missing file loads as no curves, an unparsable one as an error with no curves. */
  lemma LoadResultCases(file: StoredFile, root: HardwareItem)
    ensures file.Missing? ==> LoadResult(file, root) == Success([])
    ensures file.Malformed? ==> LoadResult(file, root).Failure? && LoadResult(file, root).error == MalformedJson
    ensures file.Records? ==>
              (LoadResult(file, root).Success? <==> forall i :: 0 <= i < |file.records| ==> Resolves(file.records[i], root))
  {
    if file.Records? {
      DecodeCorrect(file.records, root);
    }
  }

  /**
   * Round trip: loading what `store` wrote gives back the same sensor ids,
   * fan-controller ids and change-point lists, whenever every stored id
   * resolves in the tree loaded into, which may be another tree than the one
   * the curves came from.
   */
  lemma RoundTripRecords(vs: seq<CurveView>, root: HardwareItem)
    requires forall v :: v in vs ==> Resolves(RecordOf(v), root)
    ensures Decode(Encode(vs), root).Success?
    ensures Encode(Decode(Encode(vs), root).value) == Encode(vs)
  {
    var rs := Encode(vs);
    EncodeAt(vs);
    forall i | 0 <= i < |rs|
      ensures Resolves(rs[i], root) && RecordOf(Resolved(rs[i], root)) == rs[i]
    {
      assert vs[i] in vs;
    }
    DecodeCorrect(rs, root);
    var out := Decode(rs, root).value;
    EncodeAt(out);
    assert Encode(out) == rs;
  }

  /**
   * The other round trip: records that load store back unchanged, since a
   * lookup by id finds an element carrying that id.
   */
  lemma LoadThenStore(rs: seq<CurveRecord>, root: HardwareItem)
    requires Decode(rs, root).Success?
    ensures Encode(Decode(rs, root).value) == rs
  {
    DecodeCorrect(rs, root);
    var out := Decode(rs, root).value;
    EncodeAt(out);
    forall i | 0 <= i < |rs| ensures Encode(out)[i] == rs[i] {
      assert out[i] == Resolved(rs[i], root);
    }
  }

  /**
   * With unique ids in the tree, the round trip gives back the very same
   * sensor and fan-controller objects.
   */
  lemma RoundTripExact(vs: seq<CurveView>, root: HardwareItem)
    requires HardwareManager.UniqueSensorIds(AllSensors(root)) && HardwareManager.UniqueFanIds(AllFans(root))
    requires forall v :: v in vs ==> v.sensor in AllSensors(root) && v.fanController in AllFans(root)
    ensures Decode(Encode(vs), root) == Success(vs)
  {
    var rs := Encode(vs);
    EncodeAt(vs);
    forall i | 0 <= i < |rs|
      ensures Resolves(rs[i], root) && Resolved(rs[i], root) == vs[i]
    {
      assert vs[i] in vs;
      var ss, fs := AllSensors(root), AllFans(root);
      var k :| 0 <= k < |ss| && ss[k] == vs[i].sensor;
      var l :| 0 <= l < |fs| && fs[l] == vs[i].fanController;
      HardwareManager.SensorWithIdFindsListed(ss, k);
      HardwareManager.FanWithIdFindsListed(fs, l);
    }
    DecodeCorrect(rs, root);
    assert Decode(rs, root).value == vs;
  }

  /** `core.JsonStorage`: reads and writes the curve list through one file. */
  class JsonStorage {
    const hwManager: MockHardware.MockHardwareManager
    var file: StoredFile

    constructor (hwManager: MockHardware.MockHardwareManager, file: StoredFile)
      ensures this.hwManager == hwManager && this.file == file
    {
      this.hwManager := hwManager;
      this.file := file;
    }

    /** `load`: the curves of the file, or why there are none. */
    method Load() returns (r: Result<seq<FanCurves.FanCurve>, LoadError>)
      ensures r.Success? == LoadResult(file, hwManager.hwRoot).Success?
      ensures r.Success? ==> Views(r.value) == LoadResult(file, hwManager.hwRoot).value
      ensures r.Failure? ==> r.error == LoadResult(file, hwManager.hwRoot).error
    {
      if file.Missing? {
        return Success([]);
      }
      if file.Malformed? {
        return Failure(MalformedJson);
      }
      var records := file.records;
      var root := hwManager.hwRoot;
      var fanCurves: seq<FanCurves.FanCurve> := [];
      for i := 0 to |records|
        invariant Decode(records[..i], root).Success?
        invariant Views(fanCurves) == Decode(records[..i], root).value
      {
        var rec := records[i];
        assert records[..i + 1][..i] == records[..i];
        var sensor := HardwareManager.FindSensorById(root, rec.sensor);
        if sensor.None? {
          DecodeFailsAfter(records, root, i);
          return Failure(NoSuchElement);
        }
        var fanController := HardwareManager.FindFanControllerById(root, rec.fanController);
        if fanController.None? {
          DecodeFailsAfter(records, root, i);
          return Failure(NoSuchElement);
        }
        var changePoints: seq<Mapping> := [];
        for j := 0 to |rec.changePoints|
          invariant changePoints == rec.changePoints[..j]
        {
          changePoints := changePoints + [rec.changePoints[j]];
        }
        assert rec.changePoints[..|rec.changePoints|] == rec.changePoints;
        ghost var done := Views(fanCurves);
        var curve := new FanCurves.FanCurve(sensor.value, fanController.value, changePoints);
        assert Views(fanCurves) == done;
        assert changePoints == rec.changePoints;
        LoadStep(records, root, i);
        ViewsAppend(fanCurves, curve);
        fanCurves := fanCurves + [curve];
      }
      assert records[..|records|] == records;
      return Success(fanCurves);
    }

    /** `store`: one record per curve, in list order; the file is rewritten. */
    method Store(fanCurves: seq<FanCurves.FanCurve>)
      modifies this
      ensures file == Records(Encode(Views(fanCurves)))
    {
      var jsonFanCurves := BuildRecords(fanCurves);
      file := Records(jsonFanCurves);
    }

    /** `store`'s outer loop: the records of the curves, one per curve, in list order. */
    static method BuildRecords(fanCurves: seq<FanCurves.FanCurve>) returns (jsonFanCurves: seq<CurveRecord>)
      ensures jsonFanCurves == Encode(Views(fanCurves))
    {
      jsonFanCurves := [];
      for i := 0 to |fanCurves|
        invariant jsonFanCurves == Encode(Views(fanCurves[..i]))
      {
        var jsonFanCurve := StoreCurve(fanCurves[i]);
        StoreStep(fanCurves, i);
        jsonFanCurves := jsonFanCurves + [jsonFanCurve];
      }
      assert fanCurves[..|fanCurves|] == fanCurves;
    }

    /** The body of `store`'s outer loop: the record of one curve, change points copied in order. */
    static method StoreCurve(fanCurve: FanCurves.FanCurve) returns (jsonFanCurve: CurveRecord)
      ensures jsonFanCurve == RecordOf(ViewOf(fanCurve))
    {
      var jsonChangePoints: seq<Mapping> := [];
      for j := 0 to |fanCurve.changePoints|
        invariant jsonChangePoints == fanCurve.changePoints[..j]
      {
        jsonChangePoints := jsonChangePoints + [fanCurve.changePoints[j]];
      }
      assert fanCurve.changePoints[..|fanCurve.changePoints|] == fanCurve.changePoints;
      jsonFanCurve := CurveRecord(fanCurve.sensor.id, fanCurve.fanController.id, jsonChangePoints);
    }
  }

  /** One more curve in the list is one more record at the end. */
  lemma StoreStep(cs: seq<FanCurves.FanCurve>, i: nat)
    requires i < |cs|
    ensures Encode(Views(cs[..i + 1])) == Encode(Views(cs[..i])) + [RecordOf(ViewOf(cs[i]))]
  {
    assert cs[..i + 1][..i] == cs[..i];
    assert Views(cs[..i + 1]) == Views(cs[..i]) + [ViewOf(cs[i])];
    assert Views(cs[..i + 1])[..i] == Views(cs[..i]);
  }

  lemma ViewsAppend(cs: seq<FanCurves.FanCurve>, c: FanCurves.FanCurve)
    ensures Views(cs + [c]) == Views(cs) + [ViewOf(c)]
  {
    assert (cs + [c])[..|cs|] == cs;
  }

  /** Loading one more resolvable record appends its curve. */
  lemma LoadStep(records: seq<CurveRecord>, root: HardwareItem, i: nat)
    requires i < |records| && Decode(records[..i], root).Success? && Resolves(records[i], root)
    ensures Decode(records[..i + 1], root) == Success(Decode(records[..i], root).value + [Resolved(records[i], root)])
  {
    assert records[..i + 1][..i] == records[..i];
  }

  /** Once the records before `i` resolve and record `i` does not, the load fails. */
  lemma DecodeFailsAfter(records: seq<CurveRecord>, root: HardwareItem, i: nat)
    requires i < |records| && !Resolves(records[i], root)
    ensures Decode(records, root) == Failure(NoSuchElement)
  {
    DecodeCorrect(records, root);
  }
}
