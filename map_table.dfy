/**
 * `gui.MapTableView`: a map from sensor value to fan value, edited through
 * a table whose rows the map's change listener keeps as a mirror of the map,
 * one row per entry, in strictly ascending key order.
 */
module MapTable {
  import opened CurveTable

  /** A table row: a key fixed when the row is made, and a value the listener updates. */
  class Row {
    const key: real
    var value: real

    constructor (key: real, value: real)
      ensures this.key == key && this.value == value
    {
      this.key := key;
      this.value := value;
    }
  }

  /** Row keys strictly ascend; in particular no two rows share a key or an object. */
  predicate StrictlySorted(rows: seq<Row>)
  {
    forall i, j :: 0 <= i < j < |rows| ==> rows[i].key < rows[j].key
  }

  /** Every row shows an entry of `m`, and every entry of `m` has a row. */
  predicate Mirrors(rows: seq<Row>, m: map<real, real>)
    reads rows
  {
    RowsShow(rows, m) && RowsCover(rows, m)
  }

  /** Every row shows an entry of `m`: its key is in `m` and its value is the entry's. */
  predicate RowsShow(rows: seq<Row>, m: map<real, real>)
    reads rows
  {
    forall i :: 0 <= i < |rows| ==> rows[i].key in m && m[rows[i].key] == rows[i].value
  }

  /** Every key of `m` has a row. */
  predicate RowsCover(rows: seq<Row>, m: map<real, real>)
  {
    forall k :: k in m ==> exists i :: 0 <= i < |rows| && rows[i].key == k
  }

  /** Where the listener inserts a row for key `k`: before the first row whose key is not smaller, else at the end. */
  function InsertionIndex(rows: seq<Row>, k: real): (i: nat)
    ensures i <= |rows|
    ensures forall j :: 0 <= j < i ==> rows[j].key < k
    ensures i < |rows| ==> rows[i].key >= k
  {
    if rows == [] || rows[0].key >= k then 0 else 1 + InsertionIndex(rows[1..], k)
  }

  /** The index of the first row with key `k`, or the number of rows when there is none. */
  function IndexOfKey(rows: seq<Row>, k: real): (i: nat)
    ensures i <= |rows|
    ensures forall j :: 0 <= j < i ==> rows[j].key != k
    ensures i < |rows| ==> rows[i].key == k
  {
    if rows == [] || rows[0].key == k then 0 else 1 + IndexOfKey(rows[1..], k)
  }

  /** A sorted mirror has exactly one row per map entry. */
  lemma MirrorSize(rows: seq<Row>, m: map<real, real>)
    requires StrictlySorted(rows) && Mirrors(rows, m)
    ensures |rows| == |m|
  {
    DistinctKeysCount(rows, m.Keys);
    assert |m.Keys| == |m|;
  }

  lemma {:induction false} DistinctKeysCount(rows: seq<Row>, keys: set<real>)
    requires StrictlySorted(rows)
    requires forall k :: k in keys <==> exists i :: 0 <= i < |rows| && rows[i].key == k
    ensures |keys| == |rows|
  {
    if rows == [] {
      assert forall k :: k !in keys;
      assert keys == {};
    } else {
      var n := |rows| - 1;
      var last := rows[n];
      var init := rows[..n];
      assert last.key in keys;
      forall k ensures k in keys - {last.key} <==> exists i :: 0 <= i < |init| && init[i].key == k {
        if k in keys - {last.key} {
          var i :| 0 <= i < |rows| && rows[i].key == k;
          assert init[i].key == k;
        }
        if exists i :: 0 <= i < |init| && init[i].key == k {
          var i :| 0 <= i < |init| && init[i].key == k;
          assert rows[i].key == k;
        }
      }
      DistinctKeysCount(init, keys - {last.key});
    }
  }

  /** A row for an absent key, inserted where the listener puts it, keeps the table a sorted mirror. */
  lemma InsertedRowMirrors(rows: seq<Row>, m: map<real, real>, row: Row, value: real)
    requires StrictlySorted(rows) && Mirrors(rows, m) && row.key !in m && row.value == value
    ensures var n := InsertionIndex(rows, row.key);
            StrictlySorted(rows[..n] + [row] + rows[n..]) && Mirrors(rows[..n] + [row] + rows[n..], m[row.key := value])
  {
    var n := InsertionIndex(rows, row.key);
    forall i | 0 <= i < |rows| ensures rows[i].key != row.key {
    }
    InsertedRowSorted(rows, row, n);
    InsertedRowShows(rows, m, row, value, n);
    InsertedRowCovers(rows, m, row, value, n);
  }

  lemma InsertedRowSorted(rows: seq<Row>, row: Row, n: nat)
    requires StrictlySorted(rows) && n == InsertionIndex(rows, row.key)
    requires forall j :: 0 <= j < |rows| ==> rows[j].key != row.key
    ensures StrictlySorted(rows[..n] + [row] + rows[n..])
  {
    var t := rows[..n] + [row] + rows[n..];
    InsertAt(rows, row, n);
    forall i, j | 0 <= i < j < |t| ensures t[i].key < t[j].key {
      if j < n {
        assert t[i].key == rows[i].key && t[j].key == rows[j].key;
      } else if j == n {
        assert t[i].key == rows[i].key;
      } else if i == n {
        assert t[j].key == rows[j - 1].key;
        assert rows[n].key < rows[j - 1].key || n == j - 1;
      } else if i < n {
        assert t[i].key == rows[i].key && t[j].key == rows[j - 1].key;
        assert rows[n].key < rows[j - 1].key || n == j - 1;
      } else {
        assert t[i].key == rows[i - 1].key && t[j].key == rows[j - 1].key;
      }
    }
  }

  /** Where the rows land when `row` is inserted at index `n`. */
  lemma InsertAt(rows: seq<Row>, row: Row, n: nat)
    requires n <= |rows|
    ensures var t := rows[..n] + [row] + rows[n..];
            && |t| == |rows| + 1 && t[n] == row
            && (forall i :: 0 <= i < n ==> t[i] == rows[i])
            && (forall i :: n < i < |t| ==> t[i] == rows[i - 1])
  {
  }

  lemma InsertedRowShows(rows: seq<Row>, m: map<real, real>, row: Row, value: real, n: nat)
    requires RowsShow(rows, m) && row.key !in m && row.value == value && n <= |rows|
    ensures RowsShow(rows[..n] + [row] + rows[n..], m[row.key := value])
  {
    var t := rows[..n] + [row] + rows[n..];
    var m' := m[row.key := value];
    forall i | 0 <= i < |t| ensures t[i].key in m' && m'[t[i].key] == t[i].value {
      if i < n {
        assert t[i] == rows[i];
      } else if i > n {
        assert t[i] == rows[i - 1];
      }
    }
  }

  lemma InsertedRowCovers(rows: seq<Row>, m: map<real, real>, row: Row, value: real, n: nat)
    requires RowsCover(rows, m) && n <= |rows|
    ensures RowsCover(rows[..n] + [row] + rows[n..], m[row.key := value])
  {
    var t := rows[..n] + [row] + rows[n..];
    var m' := m[row.key := value];
    forall k | k in m' ensures exists i :: 0 <= i < |t| && t[i].key == k {
      if k == row.key {
        assert t[n].key == k;
      } else {
        var i :| 0 <= i < |rows| && rows[i].key == k;
        if i < n {
          assert t[i] == rows[i];
        } else {
          assert t[i + 1] == rows[i];
        }
      }
    }
  }

  /** Splicing out the row of a present key leaves a sorted mirror of the map without that key. */
  lemma RemovedRowMirrors(rows: seq<Row>, m: map<real, real>, key: real)
    requires StrictlySorted(rows) && Mirrors(rows, m) && key in m
    ensures var n := IndexOfKey(rows, key);
            && n < |rows|
            && StrictlySorted(rows[..n] + rows[n + 1..])
            && Mirrors(rows[..n] + rows[n + 1..], m - {key})
  {
    var n := IndexOfKey(rows, key);
    var w :| 0 <= w < |rows| && rows[w].key == key;
    assert n <= w;
    RemovedRowSorted(rows, n);
    RemovedRowShows(rows, m, key, n);
    RemovedRowCovers(rows, m, key, n);
  }

  lemma RemovedRowSorted(rows: seq<Row>, n: nat)
    requires StrictlySorted(rows) && n < |rows|
    ensures StrictlySorted(rows[..n] + rows[n + 1..])
  {
    var t := rows[..n] + rows[n + 1..];
    forall i, j | 0 <= i < j < |t| ensures t[i].key < t[j].key {
      var i', j' := if i < n then i else i + 1, if j < n then j else j + 1;
      assert t[i] == rows[i'] && t[j] == rows[j'];
    }
  }

  lemma RemovedRowShows(rows: seq<Row>, m: map<real, real>, key: real, n: nat)
    requires StrictlySorted(rows) && RowsShow(rows, m) && n < |rows| && rows[n].key == key
    ensures RowsShow(rows[..n] + rows[n + 1..], m - {key})
  {
    var t := rows[..n] + rows[n + 1..];
    var m' := m - {key};
    forall i | 0 <= i < |t| ensures t[i].key in m' && m'[t[i].key] == t[i].value {
      var i' := if i < n then i else i + 1;
      assert t[i] == rows[i'];
      assert rows[i'].key != rows[n].key;
    }
  }

  lemma RemovedRowCovers(rows: seq<Row>, m: map<real, real>, key: real, n: nat)
    requires RowsCover(rows, m) && n < |rows| && rows[n].key == key
    ensures RowsCover(rows[..n] + rows[n + 1..], m - {key})
  {
    var t := rows[..n] + rows[n + 1..];
    forall k | k in m - {key} ensures exists i :: 0 <= i < |t| && t[i].key == k {
      var i :| 0 <= i < |rows| && rows[i].key == k;
      if i < n {
        assert t[i] == rows[i];
      } else {
        assert t[i - 1] == rows[i];
      }
    }
  }

  /** The view's state: the map `entries`, the table rows and the two add fields. */
  class MapTableView {
    var entries: map<real, real>
    var tableItems: seq<Row>
    var addKeyField: FieldText
    var addValueField: FieldText

    /** The listener's invariant: the rows are the map's entries in ascending key order. */
    predicate Valid()
      reads this, tableItems
    {
      StrictlySorted(tableItems) && Mirrors(tableItems, entries)
    }

    constructor ()
      ensures Valid()
      ensures entries == map[] && tableItems == []
      ensures addKeyField == Blank && addValueField == Blank
    {
      entries := map[];
      tableItems := [];
      addKeyField := Blank;
      addValueField := Blank;
    }

    /** The listener on a replaced value: the row with that key takes the new value in place. */
    method OnReplaced(key: real, valueAdded: real)
      requires StrictlySorted(tableItems)
      modifies tableItems
      ensures forall r :: r in tableItems ==> r.value == if r.key == key then valueAdded else old(r.value)
    {
      for i := 0 to |tableItems|
        invariant forall j :: 0 <= j < i ==> tableItems[j].key != key
        invariant forall r :: r in tableItems ==> r.value == old(r.value)
      {
        var m := tableItems[i];
        if m.key == key {
          m.value := valueAdded;
          return;
        }
      }
    }

    /**
     * The listener on an added key: a new row goes before the first row
     * whose key is not smaller, or at the end.
     */
    method OnAdded(key: real, valueAdded: real)
      requires StrictlySorted(tableItems)
      requires forall j :: 0 <= j < |tableItems| ==> tableItems[j].key != key
      modifies this
      ensures StrictlySorted(tableItems)
      ensures |tableItems| == |old(tableItems)| + 1
      ensures var i := InsertionIndex(old(tableItems), key);
              && tableItems == old(tableItems)[..i] + [tableItems[i]] + old(tableItems)[i..]
              && fresh(tableItems[i]) && tableItems[i].key == key && tableItems[i].value == valueAdded
      ensures entries == old(entries) && addKeyField == old(addKeyField) && addValueField == old(addValueField)
    {
      var m := new Row(key, valueAdded);
      var i := 0;
      while i < |tableItems|
        invariant i <= |tableItems| && tableItems == old(tableItems)
        invariant forall j :: 0 <= j < i ==> tableItems[j].key < key
      {
        if tableItems[i].key >= key {
          assert i == InsertionIndex(tableItems, key);
          InsertedRowSorted(tableItems, m, i);
          tableItems := tableItems[..i] + [m] + tableItems[i..];
          return;
        }
        i := i + 1;
      }
      assert i == InsertionIndex(tableItems, key);
      InsertedRowSorted(tableItems, m, i);
      assert tableItems[..i] + [m] + tableItems[i..] == tableItems + [m];
      tableItems := tableItems + [m];
    }

    /** The listener on a removed key: the row with that key leaves the table. */
    method OnRemoved(key: real)
      modifies this
      ensures var i := IndexOfKey(old(tableItems), key);
              tableItems == if i < |old(tableItems)| then old(tableItems)[..i] + old(tableItems)[i + 1..] else old(tableItems)
      ensures entries == old(entries) && addKeyField == old(addKeyField) && addValueField == old(addValueField)
    {
      for i := 0 to |tableItems|
        invariant forall j :: 0 <= j < i ==> tableItems[j].key != key
        invariant tableItems == old(tableItems)
      {
        if tableItems[i].key == key {
          assert i == IndexOfKey(tableItems, key);
          tableItems := tableItems[..i] + tableItems[i + 1..];
          return;
        }
      }
    }

    /**
     * `map.put(key, value)` with its change event: a new key is announced as
     * an addition, a changed value as a replacement, an unchanged value not at all.
     */
    method Put(key: real, value: real)
      requires Valid()
      modifies this, tableItems
      ensures Valid()
      ensures entries == old(entries)[key := value]
      ensures key in old(entries) ==> tableItems == old(tableItems)
      ensures key !in old(entries) ==> |tableItems| == |old(tableItems)| + 1
      ensures addKeyField == old(addKeyField) && addValueField == old(addValueField)
    {
      if key in entries {
        if entries[key] != value {
          entries := entries[key := value];
          OnReplaced(key, value);
        } else {
          assert entries[key := value] == entries;
        }
      } else {
        ghost var rows := tableItems;
        ghost var m0 := entries;
        entries := entries[key := value];
        OnAdded(key, value);
        InsertedRowMirrors(rows, m0, tableItems[InsertionIndex(rows, key)], value);
      }
    }

    /** `map.remove(key)` with its change event, which comes only when the key was there. */
    method Remove(key: real)
      requires Valid()
      modifies this
      ensures Valid()
      ensures entries == old(entries) - {key}
      ensures |tableItems| == if key in old(entries) then |old(tableItems)| - 1 else |old(tableItems)|
      ensures forall i :: 0 <= i < |tableItems| ==> tableItems[i] in old(tableItems)
      ensures addKeyField == old(addKeyField) && addValueField == old(addValueField)
    {
      if key in entries {
        ghost var rows, m0 := tableItems, entries;
        entries := entries - {key};
        OnRemoved(key);
        RemovedRowMirrors(rows, m0, key);
      } else {
        assert entries - {key} == entries;
      }
    }

    /**
     * The add button: with two finite numbers, put the entry and clear both
     * fields; otherwise leave the map alone and clear each invalid field.
     */
    method Add()
      requires Valid()
      modifies this, tableItems
      ensures Valid()
      ensures old(addKeyField).Finite? && old(addValueField).Finite? ==>
                && entries == old(entries)[old(addKeyField).x := old(addValueField).x]
                && addKeyField == Blank && addValueField == Blank
      ensures !(old(addKeyField).Finite? && old(addValueField).Finite?) ==>
                && entries == old(entries)
                && addKeyField == (if old(addKeyField).Finite? then old(addKeyField) else Blank)
                && addValueField == (if old(addValueField).Finite? then old(addValueField) else Blank)
    {
      if addKeyField.Finite? && addValueField.Finite? {
        Put(addKeyField.x, addValueField.x);
        addKeyField := Blank;
        addValueField := Blank;
      } else {
        if !addKeyField.Finite? {
          addKeyField := Blank;
        }
        if !addValueField.Finite? {
          addValueField := Blank;
        }
      }
    }

    /** The key column's edit action: the entry moves to the new key, replacing what was there. */
    method EditKey(rowValue: Row, newCellValue: real)
      requires Valid()
      modifies this, tableItems
      ensures Valid()
      ensures entries == (old(entries) - {rowValue.key})[newCellValue := old(rowValue.value)]
      ensures addKeyField == old(addKeyField) && addValueField == old(addValueField)
    {
      var oldValue := rowValue.value;
      Remove(rowValue.key);
      assert forall i :: 0 <= i < |tableItems| ==> tableItems[i] in old(tableItems);
      Put(newCellValue, oldValue);
    }

    /** The value column's edit action. */
    method EditValue(rowValue: Row, newCellValue: real)
      requires Valid()
      modifies this, tableItems
      ensures Valid()
      ensures entries == old(entries)[rowValue.key := newCellValue]
      ensures addKeyField == old(addKeyField) && addValueField == old(addValueField)
    {
      Put(rowValue.key, newCellValue);
    }

    /** The delete button's action. */
    method Delete(rowValue: Row)
      requires Valid()
      modifies this
      ensures Valid()
      ensures entries == old(entries) - {rowValue.key}
      ensures addKeyField == old(addKeyField) && addValueField == old(addValueField)
    {
      Remove(rowValue.key);
    }

    /**
     * Focus leaving a key cell: a finite number is applied, even an
     * unchanged one; anything else resets the cell text (`reset`).
     */
    method CommitKeyEdit(rowValue: Row, text: FieldText) returns (reset: bool)
      requires Valid()
      modifies this, tableItems
      ensures Valid()
      ensures reset <==> !text.Finite?
      ensures text.Finite? ==> entries == (old(entries) - {rowValue.key})[text.x := old(rowValue.value)]
      ensures !text.Finite? ==> entries == old(entries)
      ensures addKeyField == old(addKeyField) && addValueField == old(addValueField)
    {
      reset := false;
      if text.Finite? {
        EditKey(rowValue, text.x);
      } else {
        reset := true;
      }
    }

    /** Focus leaving a value cell. */
    method CommitValueEdit(rowValue: Row, text: FieldText) returns (reset: bool)
      requires Valid()
      modifies this, tableItems
      ensures Valid()
      ensures reset <==> !text.Finite?
      ensures text.Finite? ==> entries == old(entries)[rowValue.key := text.x]
      ensures !text.Finite? ==> entries == old(entries)
      ensures addKeyField == old(addKeyField) && addValueField == old(addValueField)
    {
      reset := false;
      if text.Finite? {
        EditValue(rowValue, text.x);
      } else {
        reset := true;
      }
    }
  }
}
