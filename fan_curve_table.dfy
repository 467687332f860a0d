/**
 * The change-point editor of `gui.FanCurveTableView`: its add, key-edit,
 * value-edit and delete handlers on the curve's change-point list, the
 * guard that decides whether a cell edit is applied, and the sorted rows
 * the table shows.
 */
module CurveTable {
  import opened Options
  import opened Mappings
  import FanCurves

  /**
   * The text of an input field, as `validateDoubleString` sees it: empty,
   * a finite number, or anything else (unparsable, infinite or NaN).
   */
  datatype FieldText = Blank | Finite(x: real) | NotFinite

  /** `removeIf(m -> m.key == k)` then `add(new Mapping(k, v))`. */
  function Upsert(cps: seq<Mapping>, k: real, v: real): seq<Mapping>
  {
    WithoutKey(cps, k) + [Mapping(k, v)]
  }

  /** The key-edit handler: remove the row, drop any point at the new key, append the moved point. */
  function KeyEdited(cps: seq<Mapping>, row: Mapping, newKey: real): seq<Mapping>
  {
    Upsert(RemoveFirst(cps, row), newKey, row.value)
  }

  /** The value-edit handler: remove the row, append it again with the new value. */
  function ValueEdited(cps: seq<Mapping>, row: Mapping, newValue: real): seq<Mapping>
  {
    RemoveFirst(cps, row) + [Mapping(row.key, newValue)]
  }

  /** After an add, the new point is last, and a point is present iff it was there with another key or is the new one. */
  lemma UpsertContents(cps: seq<Mapping>, k: real, v: real)
    ensures Upsert(cps, k, v)[|Upsert(cps, k, v)| - 1] == Mapping(k, v)
    ensures forall m :: m in Upsert(cps, k, v) <==> (m in cps && m.key != k) || m == Mapping(k, v)
  {
  }

  /** An add leaves the points with other keys exactly as they were, in the same order. */
  lemma {:induction false} UpsertKeepsOthers(cps: seq<Mapping>, k: real, v: real)
    ensures WithoutKey(Upsert(cps, k, v), k) == WithoutKey(cps, k)
  {
    WithoutKeyAppendKey(WithoutKey(cps, k), Mapping(k, v));
    WithoutKeyTwice(cps, k);
  }

  lemma {:induction false} WithoutKeyAppendKey(cps: seq<Mapping>, m: Mapping)
    ensures WithoutKey(cps + [m], m.key) == WithoutKey(cps, m.key)
  {
    if cps == [] {
      assert [m][1..] == [];
    } else {
      assert (cps + [m])[1..] == cps[1..] + [m];
      WithoutKeyAppendKey(cps[1..], m);
    }
  }

  lemma {:induction false} WithoutKeyTwice(cps: seq<Mapping>, k: real)
    ensures WithoutKey(WithoutKey(cps, k), k) == WithoutKey(cps, k)
  {
    if cps != [] {
      WithoutKeyTwice(cps[1..], k);
      if cps[0].key != k {
        assert ([cps[0]] + WithoutKey(cps[1..], k))[1..] == WithoutKey(cps[1..], k);
      }
    }
  }

  /** An add keeps unique keys unique; it grows the list by one exactly when the key was absent. */
  lemma UpsertUniqueAndSize(cps: seq<Mapping>, k: real, v: real)
    requires UniqueKeys(cps)
    ensures UniqueKeys(Upsert(cps, k, v))
    ensures |Upsert(cps, k, v)| == |cps| + 1 <==> !HasKey(cps, k)
    ensures HasKey(cps, k) ==> |Upsert(cps, k, v)| == |cps|
  {
    var w := WithoutKey(cps, k);
    WithoutKeyUnique(cps, k);
    var r := w + [Mapping(k, v)];
    forall i, j | 0 <= i < j < |r| ensures r[i].key != r[j].key {
      if j == |w| {
        assert r[i] in w;
      } else {
        assert r[i] == w[i] && r[j] == w[j];
      }
    }
  }

  /** After an add, the curve is worth exactly the new value at the new key. */
  lemma UpsertEvaluates(cps: seq<Mapping>, k: real, v: real)
    ensures FanCurves.FanValueAt(Upsert(cps, k, v), k) == Some(v)
  {
    var r := Upsert(cps, k, v);
    var n := |r| - 1;
    forall j | 0 <= j < n ensures r[j].key != k {
      assert r[j] in WithoutKey(cps, k);
    }
    FanCurves.FanValueAtExactKey(r, n);
  }

  /**
   * A key edit of a listed row keeps keys unique, moves the row's value to
   * the new key, and leaves nothing at the old key when the key changed.
   */
  lemma KeyEditMoves(cps: seq<Mapping>, row: Mapping, newKey: real)
    requires UniqueKeys(cps) && row in cps
    ensures UniqueKeys(KeyEdited(cps, row, newKey))
    ensures FanCurves.FanValueAt(KeyEdited(cps, row, newKey), newKey) == Some(row.value)
    ensures newKey != row.key ==> !HasKey(KeyEdited(cps, row, newKey), row.key)
    ensures |KeyEdited(cps, row, newKey)| <= |cps|
  {
    var removed := RemoveFirst(cps, row);
    RemoveFirstUnique(cps, row);
    UpsertUniqueAndSize(removed, newKey, row.value);
    UpsertEvaluates(removed, newKey, row.value);
    var r := KeyEdited(cps, row, newKey);
    if newKey != row.key {
      forall i | 0 <= i < |r| ensures r[i].key != row.key {
        if i < |r| - 1 {
          assert r[i] in removed;
          var j :| 0 <= j < |removed| && removed[j] == r[i];
        }
      }
    }
  }

  /** A value edit of a listed row keeps the size and the multiset of keys. */
  lemma ValueEditKeepsKeys(cps: seq<Mapping>, row: Mapping, newValue: real)
    requires row in cps
    ensures |ValueEdited(cps, row, newValue)| == |cps|
    ensures multiset(Keys(ValueEdited(cps, row, newValue))) == multiset(Keys(cps))
  {
    var removed := RemoveFirst(cps, row);
    RemoveFirstKeys(cps, row);
    KeysAppend(removed, [Mapping(row.key, newValue)]);
    assert Keys([Mapping(row.key, newValue)]) == [row.key];
  }

  /** With unique keys, a value edit of a listed row keeps them unique and sets the value at the row's key. */
  lemma ValueEditSetsValue(cps: seq<Mapping>, row: Mapping, newValue: real)
    requires row in cps && UniqueKeys(cps)
    ensures UniqueKeys(ValueEdited(cps, row, newValue))
    ensures FanCurves.FanValueAt(ValueEdited(cps, row, newValue), row.key) == Some(newValue)
  {
    var removed := RemoveFirst(cps, row);
    var r := ValueEdited(cps, row, newValue);
    RemoveFirstUnique(cps, row);
    forall i, j | 0 <= i < j < |r| ensures r[i].key != r[j].key {
      if j == |removed| {
        assert r[i] == removed[i];
      } else {
        assert r[i] == removed[i] && r[j] == removed[j];
      }
    }
    forall j | 0 <= j < |removed| ensures r[j].key != row.key {
      assert r[j] == removed[j];
    }
    FanCurves.FanValueAtExactKey(r, |removed|);
  }

  /** Delete removes exactly the selected row, one copy of it. */
  lemma DeleteRemovesRow(cps: seq<Mapping>, row: Mapping)
    requires row in cps
    ensures multiset(RemoveFirst(cps, row)) == multiset(cps) - multiset{row}
    ensures UniqueKeys(cps) ==> !HasKey(RemoveFirst(cps, row), row.key) && UniqueKeys(RemoveFirst(cps, row))
  {
    RemoveFirstMultiset(cps, row);
    if UniqueKeys(cps) {
      RemoveFirstUnique(cps, row);
    }
  }

  /** The table's own state: the curve's change points and the two add fields. */
  class FanCurveTableView {
    var changePoints: seq<Mapping>
    var addKeyField: FieldText
    var addValueField: FieldText

    constructor ()
      ensures changePoints == [] && addKeyField == Blank && addValueField == Blank
    {
      changePoints := [];
      addKeyField := Blank;
      addValueField := Blank;
    }

    /** The rows on screen: the change points in ascending key order. */
    function DisplayedRows(): (rows: seq<Mapping>)
      reads this
      ensures SortedByKey(rows)
      ensures multiset(rows) == multiset(changePoints) && |rows| == |changePoints|
    {
      SortByKeyCorrect(changePoints);
      SortByKey(changePoints)
    }

    /**
     * The add button: with two finite numbers, put the point and clear both
     * fields; otherwise leave the list alone and clear each invalid field.
     */
    method Add()
      modifies this
      ensures old(addKeyField).Finite? && old(addValueField).Finite? ==>
                && changePoints == Upsert(old(changePoints), old(addKeyField).x, old(addValueField).x)
                && addKeyField == Blank && addValueField == Blank
      ensures !(old(addKeyField).Finite? && old(addValueField).Finite?) ==>
                && changePoints == old(changePoints)
                && addKeyField == (if old(addKeyField).Finite? then old(addKeyField) else Blank)
                && addValueField == (if old(addValueField).Finite? then old(addValueField) else Blank)
    {
      if addKeyField.Finite? && addValueField.Finite? {
        var newKey := addKeyField.x;
        var newValue := addValueField.x;
        changePoints := WithoutKey(changePoints, newKey);
        changePoints := changePoints + [Mapping(newKey, newValue)];
        addKeyField := Blank;
        addValueField := Blank;
      } else {
        if !addKeyField.Finite? {
          addKeyField := Blank;
        }
        if !addValueField.Finite? {
          addValueField := Blank;
        }
      }
    }

    /** The key column's edit action. */
    method EditKey(rowValue: Mapping, newCellValue: real)
      modifies this
      ensures changePoints == KeyEdited(old(changePoints), rowValue, newCellValue)
      ensures addKeyField == old(addKeyField) && addValueField == old(addValueField)
    {
      var oldValue := rowValue.value;
      changePoints := RemoveFirst(changePoints, rowValue);
      changePoints := WithoutKey(changePoints, newCellValue);
      changePoints := changePoints + [Mapping(newCellValue, oldValue)];
    }

    /** The value column's edit action. */
    method EditValue(rowValue: Mapping, newCellValue: real)
      modifies this
      ensures changePoints == ValueEdited(old(changePoints), rowValue, newCellValue)
      ensures addKeyField == old(addKeyField) && addValueField == old(addValueField)
    {
      var oldKey := rowValue.key;
      changePoints := RemoveFirst(changePoints, rowValue);
      changePoints := changePoints + [Mapping(oldKey, newCellValue)];
    }

    /** The delete button's action. */
    method Delete(rowValue: Mapping)
      modifies this
      ensures changePoints == RemoveFirst(old(changePoints), rowValue)
      ensures addKeyField == old(addKeyField) && addValueField == old(addValueField)
    {
      changePoints := RemoveFirst(changePoints, rowValue);
    }

    /**
     * `tryEdit` on a key cell: a finite number different from the row's key
     * is applied; the same number changes nothing; anything else changes
     * nothing and resets the cell text (`reset`).
     */
    method TryEditKey(rowValue: Mapping, text: FieldText) returns (reset: bool)
      modifies this
      ensures reset <==> !text.Finite?
      ensures text.Finite? && text.x != rowValue.key ==> changePoints == KeyEdited(old(changePoints), rowValue, text.x)
      ensures !(text.Finite? && text.x != rowValue.key) ==> changePoints == old(changePoints)
      ensures addKeyField == old(addKeyField) && addValueField == old(addValueField)
    {
      reset := false;
      if text.Finite? {
        if text.x != rowValue.key {
          EditKey(rowValue, text.x);
        }
      } else {
        reset := true;
      }
    }

    /** `tryEdit` on a value cell, with the row's value as the cell's current item. */
    method TryEditValue(rowValue: Mapping, text: FieldText) returns (reset: bool)
      modifies this
      ensures reset <==> !text.Finite?
      ensures text.Finite? && text.x != rowValue.value ==> changePoints == ValueEdited(old(changePoints), rowValue, text.x)
      ensures !(text.Finite? && text.x != rowValue.value) ==> changePoints == old(changePoints)
      ensures addKeyField == old(addKeyField) && addValueField == old(addValueField)
    {
      reset := false;
      if text.Finite? {
        if text.x != rowValue.value {
          EditValue(rowValue, text.x);
        }
      } else {
        reset := true;
      }
    }
  }
}
