# Fanning, modelled in Dafny

Fanning is a desktop fan controller. The user draws a *fan curve* for each
fan controller. A curve pairs a sensor with a fan controller and holds a list
of *change points* (sensor value → fan value). At a sensor reading, the curve
gives the value of the closest change point at or below the reading. Below
the first change point it gives the value of the smallest key. Nothing is
interpolated.

A control step does two things:
- it refreshes the hardware tree;
- it commands every fan controller from the first curve that targets it, or
  releases the controller when no curve does.

The curves are stored as JSON records. Each record names its sensor and fan
controller by id, and loading resolves those ids against the hardware tree.
Two table editors and a step chart let the user edit and view a curve.

This project models that core and proves its properties:

| file | module | source |
|---|---|---|
| `options.dfy` | `Options` | `Optional` / `OptionalDouble`, and error results in place of exceptions |
| `mappings.dfy` | `Mappings` | `core.Mapping` and the list operations the editors and the chart use |
| `hardware.dfy` | `Hardware` | sensors, fan controllers, the hardware tree and its pre-order listing |
| `hardware_manager.dfy` | `HardwareManager` | `hwinterface.HardwareManager`: the stack-based tree walks and the lookups by id |
| `legacy_hardware_manager.dfy` | `LegacyHardwareManager` | the earlier `HardwareManager`, whose root is optional |
| `fan_curve.dfy` | `FanCurves` | `core.FanCurve` and its evaluation loop |
| `legacy_fan_curve.dfy` | `LegacyFanCurve` | the earlier map-based `FanCurve` |
| `mock_hardware.dfy` | `MockHardware` | `MockHardwareManager`: the demo tree and the refresh that drives the sensors |
| `json_storage.dfy` | `Persistence` | `JsonStorage`: loading and storing the curve list |
| `fanning_service.dfy` | `Service` | `FanningService`: the curve list, the load and store calls, and the control step |
| `fan_curve_table.dfy` | `CurveTable` | `FanCurveTableView`: add, edit and delete on the change-point list |
| `map_table.dfy` | `MapTable` | `MapTableView`: a map edited through a table that a change listener keeps sorted |
| `fan_curve_chart.dfy` | `FanCurveChart` | the step chart of `FanCurvePane` |

The model has the source's shape:
- **Mutable objects are classes.** Sensors, fan controllers, curves, the
  storage, the service, the two table views and the map table's rows are
  `class`es, and their methods carry `modifies` clauses.
- **Loops are methods.** The tree walks, the curve scan, the load and store
  loops, the control step, the listener loops and the chart builder are
  methods with loop invariants.
- **Specification functions.** Each such method is proved against a function
  on values, and the properties are lemmas about those functions.

In the source column below, paths are relative to the repository root.

## Model

| member | source | states |
|---|---|---|
| Mappings.WithoutKey | src/main/java/com/github/tuupertunut/fanning/gui/FanCurveTableView.java:138 | `removeIf(m -> m.key == k)` keeps exactly the change points whose key differs from `k`, and never lengthens the list |
| Mappings.RemoveFirst | src/main/java/com/github/tuupertunut/fanning/gui/FanCurveTableView.java:117 | `List.remove(Object)` shortens the list by one when the point is present, and changes nothing when it is absent |
| Mappings.SortByKeyCorrect | src/main/java/com/github/tuupertunut/fanning/gui/FanCurveTableView.java:130 | sorting by key yields a list ascending by key that is a permutation of the change points |
| Mappings.RemoveFirstMultiset | src/main/java/com/github/tuupertunut/fanning/gui/FanCurveTableView.java:117 | removing a present point drops exactly one copy of it |
| Mappings.RemoveFirstKeys | src/main/java/com/github/tuupertunut/fanning/gui/FanCurveTableView.java:85 | removing a present point drops exactly one copy of its key from the multiset of keys |
| Mappings.RemoveFirstUnique | src/main/java/com/github/tuupertunut/fanning/gui/FanCurveTableView.java:117 | with unique keys, removing a point keeps the keys unique and leaves no point with the removed key |
| Mappings.RemoveFirstAt | src/main/java/com/github/tuupertunut/fanning/gui/FanCurveTableView.java:117 | removing the point whose first copy is at index `k` splices out exactly index `k` |
| Mappings.WithoutKeyAbsent | src/main/java/com/github/tuupertunut/fanning/gui/FanCurveTableView.java:138 | `removeIf` on an absent key leaves the list unchanged |
| Mappings.WithoutKeyUnique | src/main/java/com/github/tuupertunut/fanning/gui/FanCurveTableView.java:138 | with unique keys, `removeIf` keeps them unique, drops one point when the key is present and none otherwise |
| Hardware.Sensor.constructor | src/main/java/com/github/tuupertunut/fanning/mockhardware/MockSensor.java:43-50 | a new sensor keeps its name, id, type and unit, and reads 0 |
| Hardware.FanController.constructor | src/main/java/com/github/tuupertunut/fanning/hwinterface/FanController.java:36-63 | a new controller keeps its sensor, id and bounds, and commands nothing |
| Hardware.PreorderLength | src/main/java/com/github/tuupertunut/fanning/hwinterface/HardwareManager.java:115-136 | the listing holds every node of the tree exactly once in count |
| Hardware.PreorderParentThenChildren | src/main/java/com/github/tuupertunut/fanning/hwinterface/HardwareManager.java:115-136 | the listing starts at the root, and a child's subtree comes after the subtrees of its earlier siblings and before those of its later ones |
| HardwareManager.SensorWithId | src/main/java/com/github/tuupertunut/fanning/hwinterface/HardwareManager.java:144-151 | none iff no listed sensor has the id; otherwise the first listed sensor with that id |
| HardwareManager.FanWithId | src/main/java/com/github/tuupertunut/fanning/hwinterface/HardwareManager.java:159-166 | none iff no listed controller has the id; otherwise the first listed controller with that id |
| HardwareManager.SensorWithIdFindsListed | src/main/java/com/github/tuupertunut/fanning/hwinterface/HardwareManager.java:144-151 | with unique ids, every listed sensor is found by its own id |
| HardwareManager.FanWithIdFindsListed | src/main/java/com/github/tuupertunut/fanning/hwinterface/HardwareManager.java:159-166 | with unique ids, every listed controller is found by its own id |
| HardwareManager.PushChildren | src/main/java/com/github/tuupertunut/fanning/hwinterface/HardwareManager.java:71-74 | pushing the children last-to-first puts them on the stack in list order, above the rest |
| HardwareManager.PopStep | src/main/java/com/github/tuupertunut/fanning/hwinterface/HardwareManager.java:64-75 | popping a node and pushing its children keeps the stack's pre-order listing: the node, then the rest |
| HardwareManager.GetAllHardware | src/main/java/com/github/tuupertunut/fanning/hwinterface/HardwareManager.java:115-136 | the stack walk lists the tree in pre-order |
| HardwareManager.GetAllSensors | src/main/java/com/github/tuupertunut/fanning/hwinterface/HardwareManager.java:57-78 | the walk lists the sensors of every node in pre-order, each node's in its own order |
| HardwareManager.GetAllFanControllers | src/main/java/com/github/tuupertunut/fanning/hwinterface/HardwareManager.java:86-107 | the walk lists the fan controllers of every node in pre-order |
| HardwareManager.FindSensorById | src/main/java/com/github/tuupertunut/fanning/hwinterface/HardwareManager.java:144-151 | finds the first sensor of the listing with the id, or nothing |
| HardwareManager.FindFanControllerById | src/main/java/com/github/tuupertunut/fanning/hwinterface/HardwareManager.java:159-166 | finds the first fan controller of the listing with the id, or nothing |
| LegacyHardwareManager.GetAllSensors | src/main/java/com/github/tuupertunut/fanning/HardwareManager.java:42-67 | no root gives no sensors; otherwise the pre-order sensor listing |
| LegacyHardwareManager.GetAllControls | src/main/java/com/github/tuupertunut/fanning/HardwareManager.java:69-94 | no root gives no controls; otherwise the pre-order control listing, which is empty when no node has controls |
| LegacyHardwareManager.GetAllHardware | src/main/java/com/github/tuupertunut/fanning/HardwareManager.java:96-121 | no root gives nothing; otherwise the pre-order listing of every node |
| LegacyHardwareManager.NoControlsAnywhere | src/main/java/com/github/tuupertunut/fanning/HardwareManager.java:69-94 | nodes without controls contribute no controls |
| FanCurves.ScanFinds | src/main/java/com/github/tuupertunut/fanning/core/FanCurve.java:63-72 | the loop keeps a closest-below point iff some key is at or below the reading, and that point is the first with the greatest such key; it keeps a smallest point iff the list is non-empty, and that point is the first with the least key |
| FanCurves.ClosestBelowUnique | src/main/java/com/github/tuupertunut/fanning/core/FanCurve.java:66-68 | the closest change point at or below a reading is determined uniquely |
| FanCurves.SmallestUnique | src/main/java/com/github/tuupertunut/fanning/core/FanCurve.java:69-71 | the smallest change point is determined uniquely |
| FanCurves.FanValueAtPresent | src/main/java/com/github/tuupertunut/fanning/core/FanCurve.java:73-79 | the curve gives no value iff it has no change points |
| FanCurves.FanValueAtClosestBelow | src/main/java/com/github/tuupertunut/fanning/core/FanCurve.java:73-74 | with a key at or below the reading, the value is that of the closest such change point |
| FanCurves.FanValueAtClamped | src/main/java/com/github/tuupertunut/fanning/core/FanCurve.java:75-76 | with every key above the reading, the value is that of the smallest change point |
| FanCurves.CasesExist | src/main/java/com/github/tuupertunut/fanning/core/FanCurve.java:63-72 | a non-empty curve has a smallest point, and a closest-below point whenever some key is at or below the reading |
| FanCurves.FanValueAtExactKey | src/main/java/com/github/tuupertunut/fanning/core/FanCurve.java:62-80 | at a change point's own key, the curve gives that point's value (the first point with the key wins) |
| FanCurves.FanValueAtIsAChangePointValue | src/main/java/com/github/tuupertunut/fanning/core/FanCurve.java:73-77 | every value the curve gives is the value of one of its change points |
| FanCurves.FanCurve.constructor | src/main/java/com/github/tuupertunut/fanning/core/FanCurve.java:44-48 | a curve keeps its sensor, its fan controller and the given change points |
| FanCurves.FanCurve.GetFanValueAt | src/main/java/com/github/tuupertunut/fanning/core/FanCurve.java:62-80 | the one-pass loop computes the curve's value at the reading |
| LegacyFanCurve.NewFanCurve | src/main/java/com/github/tuupertunut/fanning/FanCurve.java:47-61 | a new curve keeps its source and target and has no change points |
| LegacyFanCurve.FloorKey | src/main/java/com/github/tuupertunut/fanning/FanCurve.java:68 | `floorKey`: none iff every key is above the reading; otherwise the greatest key at or below it |
| LegacyFanCurve.FirstKey | src/main/java/com/github/tuupertunut/fanning/FanCurve.java:70 | `firstKey`: the least key of a non-empty map |
| LegacyFanCurve.TargetValueAt | src/main/java/com/github/tuupertunut/fanning/FanCurve.java:67-73 | none iff the map is empty (where `firstKey` throws); otherwise the value at the greatest key at or below the reading, else at the least key; at an exact key, that key's value |
| LegacyFanCurve.AgreesWithListCurve | src/main/java/com/github/tuupertunut/fanning/FanCurve.java:67-73 | on change points with unique keys, the map-based and the list-based curves give the same value at every reading |
| MockHardware.FirstControlOf | src/main/java/com/github/tuupertunut/fanning/mockhardware/MockHardwareManager.java:68 | none iff no control drives the sensor; otherwise the first listed control that does |
| MockHardware.CommandedValue | src/main/java/com/github/tuupertunut/fanning/mockhardware/MockHardwareManager.java:68-69 | a commanded value, when there is one, is what a control on that sensor commands |
| MockHardware.MockHardwareManager.constructor | src/main/java/com/github/tuupertunut/fanning/mockhardware/MockHardwareManager.java:42-46 | the manager keeps the given tree and refreshes every sensor once |
| MockHardware.MockHardwareManager.Default | src/main/java/com/github/tuupertunut/fanning/mockhardware/MockHardwareManager.java:48-63 | the demo tree: root `c` with children `ha` and `hb`; sensors `sa`..`se` in that order; `ca` drives `sc` in 30..50 and `cb` drives `sd` in 300..1000; nothing commanded; every sensor holds a random whole reading in [30, 50) |
| MockHardware.MockHardwareManager.UpdateHardwareTree | src/main/java/com/github/tuupertunut/fanning/mockhardware/MockHardwareManager.java:66-75 | every sensor of the tree now shows the value commanded by the first control on it, or a random whole reading in [30, 50) when that control commands nothing or there is none |
| MockHardware.MockHardwareManager.RefreshSensor | src/main/java/com/github/tuupertunut/fanning/mockhardware/MockHardwareManager.java:68-73 | one sensor's refresh, as above |
| MockHardware.MockHardwareManager.GetHardwareRoot | src/main/java/com/github/tuupertunut/fanning/mockhardware/MockHardwareManager.java:77-80 | returns the tree the manager holds |
| MockHardware.DefaultTreeListing | src/main/java/com/github/tuupertunut/fanning/mockhardware/MockHardwareManager.java:48-63 | in the two-level demo tree the listings are `ha`'s items followed by `hb`'s |
| MockHardware.CommandedSensorFollows | src/main/java/com/github/tuupertunut/fanning/mockhardware/MockHardwareManager.java:69-70 | after a refresh, a sensor whose first control commands a value reads exactly that value |
| MockHardware.UndrivenSensorIsRandom | src/main/java/com/github/tuupertunut/fanning/mockhardware/MockHardwareManager.java:71-72 | after a refresh, a sensor no commanding control drives holds a whole reading in [30, 50) |
| Persistence.RecordOf | src/main/java/com/github/tuupertunut/fanning/core/JsonStorage.java:93-108 | a stored record names the curve's sensor and fan controller by id and keeps its change points |
| Persistence.DecodeCorrect | src/main/java/com/github/tuupertunut/fanning/core/JsonStorage.java:67-86 | the records load iff every record's sensor id and fan controller id resolve in the tree; a failure is a missing element; a success has one curve per record, in order, with the resolved sensor and controller |
| Persistence.DecodeFailsAfter | src/main/java/com/github/tuupertunut/fanning/core/JsonStorage.java:71-72 | one unresolvable record makes the whole load fail |
| Persistence.LoadResultCases | src/main/java/com/github/tuupertunut/fanning/core/JsonStorage.java:57-87 | a missing file loads as no curves, a malformed file fails as malformed JSON, and a well-formed file loads iff all its records resolve |
| Persistence.RoundTripRecords | src/main/java/com/github/tuupertunut/fanning/core/JsonStorage.java:57-115 | storing curves whose sensor and fan-controller ids all resolve in the tree being loaded into (any tree with those ids), then loading, succeeds and gives curves that store to the same records |
| Persistence.LoadThenStore | src/main/java/com/github/tuupertunut/fanning/core/JsonStorage.java:57-115 | records that load successfully store back as exactly the same records |
| Persistence.RoundTripExact | src/main/java/com/github/tuupertunut/fanning/core/JsonStorage.java:57-115 | when the tree's ids are unique, loading what was stored gives back exactly the stored curves |
| Persistence.JsonStorage.constructor | src/main/java/com/github/tuupertunut/fanning/core/JsonStorage.java:51-54 | the storage keeps its hardware manager and its file |
| Persistence.JsonStorage.Load | src/main/java/com/github/tuupertunut/fanning/core/JsonStorage.java:57-87 | the loop's result is the load result of the file against the manager's tree: the same curves in order, or the same error |
| Persistence.JsonStorage.Store | src/main/java/com/github/tuupertunut/fanning/core/JsonStorage.java:90-115 | the file afterwards holds one record per curve, in list order |
| Persistence.JsonStorage.BuildRecords | src/main/java/com/github/tuupertunut/fanning/core/JsonStorage.java:91-110 | the loop builds one record per curve, in list order |
| Persistence.JsonStorage.StoreCurve | src/main/java/com/github/tuupertunut/fanning/core/JsonStorage.java:93-108 | one curve's record: the two ids and a copy of the change points |
| Service.CurveOf | src/main/java/com/github/tuupertunut/fanning/core/FanningService.java:125-132 | none iff no curve targets the fan; otherwise the first curve in list order that does |
| Service.CurveOfFindsFirst | src/main/java/com/github/tuupertunut/fanning/core/FanningService.java:125-132 | the first curve targeting the fan is the one found |
| Service.NoCurveNoCommand | src/main/java/com/github/tuupertunut/fanning/core/FanningService.java:105-107 | a fan that no curve targets is released |
| Service.EmptyCurveNoCommand | src/main/java/com/github/tuupertunut/fanning/core/FanningService.java:101-104 | a fan whose curve has no change points is released too |
| Service.CurveCommands | src/main/java/com/github/tuupertunut/fanning/core/FanningService.java:101-104 | a fan whose curve has change points is commanded, to one of that curve's values |
| Service.FanningService.constructor | src/main/java/com/github/tuupertunut/fanning/core/FanningService.java:56-60 | a new service keeps its manager and storage and has no curves |
| Service.FanningService.LoadFromStorage | src/main/java/com/github/tuupertunut/fanning/core/FanningService.java:68-70 | on success the curve list becomes what the storage loaded; on failure the list is unchanged and the storage's error comes back |
| Service.FanningService.StoreToStorage | src/main/java/com/github/tuupertunut/fanning/core/FanningService.java:77-79 | the storage afterwards holds the current curve list |
| Service.FanningService.FindCurveOfFan | src/main/java/com/github/tuupertunut/fanning/core/FanningService.java:125-132 | the loop finds the first curve targeting the fan, or nothing |
| Service.FanningService.Update | src/main/java/com/github/tuupertunut/fanning/core/FanningService.java:97-109 | after a control step every fan controller of the tree commands its first curve's value at that curve's sensor reading, or nothing when no curve targets it |
| Service.FanningService.ControlFan | src/main/java/com/github/tuupertunut/fanning/core/FanningService.java:100-107 | one fan controller commands its first curve's value at that curve's sensor reading, or nothing when no curve targets it |
| CurveTable.UpsertContents | src/main/java/com/github/tuupertunut/fanning/gui/FanCurveTableView.java:138-139 | replacing a key's points leaves the other points plus the new one, which comes last |
| CurveTable.UpsertKeepsOthers | src/main/java/com/github/tuupertunut/fanning/gui/FanCurveTableView.java:138-139 | the points with other keys keep their order |
| CurveTable.UpsertUniqueAndSize | src/main/java/com/github/tuupertunut/fanning/gui/FanCurveTableView.java:138-139 | unique keys stay unique; the list grows by one iff the key was new, and otherwise keeps its size |
| CurveTable.UpsertEvaluates | src/main/java/com/github/tuupertunut/fanning/gui/FanCurveTableView.java:138-139 | after adding, the curve gives the new value at the new key |
| CurveTable.KeyEditMoves | src/main/java/com/github/tuupertunut/fanning/gui/FanCurveTableView.java:83-88 | a key edit keeps keys unique, moves the row's value to the new key (overwriting any point there), leaves no point at a changed old key, and never lengthens the list |
| CurveTable.ValueEditKeepsKeys | src/main/java/com/github/tuupertunut/fanning/gui/FanCurveTableView.java:100-104 | a value edit keeps the list's size and its multiset of keys |
| CurveTable.ValueEditSetsValue | src/main/java/com/github/tuupertunut/fanning/gui/FanCurveTableView.java:100-104 | a value edit keeps keys unique and makes the curve give the new value at the row's key |
| CurveTable.DeleteRemovesRow | src/main/java/com/github/tuupertunut/fanning/gui/FanCurveTableView.java:116-118 | deleting a row drops exactly that point; with unique keys its key is gone and the keys stay unique |
| CurveTable.FanCurveTableView.constructor | src/main/java/com/github/tuupertunut/fanning/gui/FanCurveTableView.java:63-64 | a new editor has no change points and empty add fields |
| CurveTable.FanCurveTableView.DisplayedRows | src/main/java/com/github/tuupertunut/fanning/gui/FanCurveTableView.java:130 | the table shows the change points ascending by key, each exactly as often as it occurs |
| CurveTable.FanCurveTableView.Add | src/main/java/com/github/tuupertunut/fanning/gui/FanCurveTableView.java:133-151 | with two finite numbers, the point replaces any point at its key and both fields clear; otherwise the list is unchanged and only the invalid fields clear |
| CurveTable.FanCurveTableView.EditKey | src/main/java/com/github/tuupertunut/fanning/gui/FanCurveTableView.java:83-88 | the row goes, any point at the new key goes, and a point with the new key and the row's value is added |
| CurveTable.FanCurveTableView.EditValue | src/main/java/com/github/tuupertunut/fanning/gui/FanCurveTableView.java:100-104 | the row is replaced by a point with its key and the new value, added last |
| CurveTable.FanCurveTableView.Delete | src/main/java/com/github/tuupertunut/fanning/gui/FanCurveTableView.java:116-118 | the row's first copy is removed |
| CurveTable.FanCurveTableView.TryEditKey | src/main/java/com/github/tuupertunut/fanning/gui/FanCurveTableView.java:225-235 | a finite number that differs from the cell's key is applied as a key edit; an equal one changes nothing; anything else resets the cell |
| CurveTable.FanCurveTableView.TryEditValue | src/main/java/com/github/tuupertunut/fanning/gui/FanCurveTableView.java:225-235 | the same for the value cell |
| MapTable.Row.constructor | src/main/java/com/github/tuupertunut/fanning/gui/MapTableView.java:162-164 | a new row holds the announced key and value |
| MapTable.InsertionIndex | src/main/java/com/github/tuupertunut/fanning/gui/MapTableView.java:166-175 | the index of the first row whose key is not below the new key, or the end; every earlier row's key is below it |
| MapTable.IndexOfKey | src/main/java/com/github/tuupertunut/fanning/gui/MapTableView.java:178-183 | the index of the first row with the key, or the end; no earlier row has it |
| MapTable.MirrorSize | src/main/java/com/github/tuupertunut/fanning/gui/MapTableView.java:151-185 | a sorted mirror has exactly one row per map entry |
| MapTable.InsertedRowMirrors | src/main/java/com/github/tuupertunut/fanning/gui/MapTableView.java:160-175 | inserting a row for a new key at the listener's position keeps the rows strictly ascending and a mirror of the extended map |
| MapTable.RemovedRowMirrors | src/main/java/com/github/tuupertunut/fanning/gui/MapTableView.java:176-184 | removing the row of a removed key keeps the rows strictly ascending and a mirror of the reduced map |
| MapTable.MapTableView.constructor | src/main/java/com/github/tuupertunut/fanning/gui/MapTableView.java:65-66 | a new view has an empty map, no rows, empty add fields, and a valid mirror |
| MapTable.MapTableView.OnReplaced | src/main/java/com/github/tuupertunut/fanning/gui/MapTableView.java:152-159 | the row with the key takes the new value in place; no other row changes and the row list is the same |
| MapTable.MapTableView.OnAdded | src/main/java/com/github/tuupertunut/fanning/gui/MapTableView.java:160-175 | a fresh row with the key and value goes in before the first row whose key is not smaller, or at the end; the rows stay strictly ascending |
| MapTable.MapTableView.OnRemoved | src/main/java/com/github/tuupertunut/fanning/gui/MapTableView.java:176-184 | the first row with the key is spliced out, or nothing changes when there is none |
| MapTable.MapTableView.Put | src/main/java/com/github/tuupertunut/fanning/gui/MapTableView.java:151-175 | the map maps the key to the value; a replacement keeps the very same rows, a new key adds one row, and the rows stay a sorted mirror |
| MapTable.MapTableView.Remove | src/main/java/com/github/tuupertunut/fanning/gui/MapTableView.java:176-184 | the key leaves the map; one row goes when it was there and none otherwise; the rows stay a sorted mirror |
| MapTable.MapTableView.Add | src/main/java/com/github/tuupertunut/fanning/gui/MapTableView.java:133-148 | with two finite numbers the entry is put, overwriting the key, and both fields clear; otherwise the map is unchanged and only the invalid fields clear |
| MapTable.MapTableView.EditKey | src/main/java/com/github/tuupertunut/fanning/gui/MapTableView.java:85-89 | the row's entry moves to the new key with its old value, overwriting any entry there; the add row's key and value fields are unchanged |
| MapTable.MapTableView.EditValue | src/main/java/com/github/tuupertunut/fanning/gui/MapTableView.java:101-103 | the row's key now maps to the new value; the add row's key and value fields are unchanged |
| MapTable.MapTableView.Delete | src/main/java/com/github/tuupertunut/fanning/gui/MapTableView.java:115-117 | the row's key leaves the map; the add row's key and value fields are unchanged |
| MapTable.MapTableView.CommitKeyEdit | src/main/java/com/github/tuupertunut/fanning/gui/MapTableView.java:258-269 | when focus leaves a key cell, a finite number is applied as a key edit, even an unchanged one; anything else resets the cell and leaves the map alone; the add row's key and value fields are unchanged |
| MapTable.MapTableView.CommitValueEdit | src/main/java/com/github/tuupertunut/fanning/gui/MapTableView.java:258-269 | the same for the value cell; the add row's key and value fields are unchanged |
| FanCurveChart.StepLineAscends | src/main/java/com/github/tuupertunut/fanning/gui/FanCurvePane.java:127-141 | over change points ascending by key, the chart's x coordinates never decrease |
| FanCurveChart.ChartPoints | src/main/java/com/github/tuupertunut/fanning/gui/FanCurvePane.java:127-141 | no change points give no chart points; n give 2n−1; point 2i is the i-th sorted change point and point 2i−1 is the riser at that key with the previous value; x never decreases |

## Left out

- Mappings.RemoveFirst: `List.remove(Object)` is modelled with value equality on change points, which matches by key and value. `core.Mapping` is not part of this model. If it compared by identity, the two readings would differ only in which of two identical points is dropped.
- Mappings.SortByKey: `sorted` is stable, but the model does not state that change points with equal keys keep their list order. `SortByKeyCorrect` states only sortedness and permutation.
- Threads: `FanningService.initUpdater` runs `update` on a scheduled executor. The model has one `Update` step and no concurrency.
- File and JSON text: reading, writing and parsing are not modelled. The file is the value `StoredFile`: missing, malformed, or a list of records.
- JSON errors: every structural error in the JSON (a wrong type, a missing field) is the single `Malformed` case.
- Id resolution errors: `LoadError.NoSuchElement` does not carry the id that failed to resolve.
- Atomicity: the store writes the whole file at once. Partial or failed writes (`IOException`) are not modelled.
- Text fields: parsing text to a double is not modelled. A field or cell is `FieldText`: blank, a finite number, or anything else.
- Doubles: numbers are Dafny `real`s. NaN, infinities, signed zero, rounding, and `Double.equals` versus `==` are not modelled.
- JavaFX: bindings, FXML loading, cell factories, dialogs and the other panes are not modelled. `FanCurvePane` is modelled only for its chart builder.
- The `ObservableMap` change events: only the cases the listener distinguishes are modelled. An unchanged `put` fires no event.
- `MockControl`: the tree's controls are built with a four-argument constructor that this revision of `MockControl` does not have. They are modelled as `FanController(sensor, id, min, max)`.
- Legacy `Control`: the earlier `HardwareManager` lists `Control`s, which are modelled with the same fan controller class.
- Randomness: `ThreadLocalRandom.nextInt(30, 50)` is any whole number in [30, 50).
- Application start-up (`Fanning.java`) and the `laskarit` exercises are not part of this model.
- Service.FanningService.Update: its contract states the commanded values but not the sensor refresh. `MockHardware.MockHardwareManager.UpdateHardwareTree` states the refresh.
- MapTable.MapTableView.OnAdded: requires that no row carries the new key. The map announces an addition only for a key it did not hold.
- MapTable.MapTableView.OnReplaced: requires strictly ascending rows. That is the listener's own invariant, and it rules out one row object listed twice.
