/**
 * Change points of a fan curve: the (sensor value, fan value) pairs of
 * `core.Mapping`, and the operations on lists of them that the curve,
 * the curve editor and the chart share.
 */
module Mappings {

  /** One change point: from sensor value `key` on, the fan is set to `value`. */
  datatype Mapping = Mapping(key: real, value: real)

  /** No two change points share a key. */
  predicate UniqueKeys(cps: seq<Mapping>)
  {
    forall i, j :: 0 <= i < j < |cps| ==> cps[i].key != cps[j].key
  }

  /** The keys, in list order. */
  function Keys(cps: seq<Mapping>): (ks: seq<real>)
    ensures |ks| == |cps|
    ensures forall i :: 0 <= i < |cps| ==> ks[i] == cps[i].key
  {
    if cps == [] then [] else [cps[0].key] + Keys(cps[1..])
  }

  lemma {:induction false} KeysAppend(a: seq<Mapping>, b: seq<Mapping>)
    ensures Keys(a + b) == Keys(a) + Keys(b)
  {
    if a != [] {
      assert (a + b)[1..] == a[1..] + b;
      KeysAppend(a[1..], b);
    } else {
      assert a + b == b;
    }
  }

  predicate HasKey(cps: seq<Mapping>, k: real)
  {
    exists i :: 0 <= i < |cps| && cps[i].key == k
  }

  /** Ascending (not necessarily strictly) by key. */
  predicate SortedByKey(cps: seq<Mapping>)
  {
    forall i, j :: 0 <= i < j < |cps| ==> cps[i].key <= cps[j].key
  }

  /**
   * `removeIf(m -> m.key == k)`: every change point whose key is `k` is
   * dropped; the others keep their order.
   */
  function WithoutKey(cps: seq<Mapping>, k: real): (r: seq<Mapping>)
    ensures forall m :: m in r <==> m in cps && m.key != k
    ensures |r| <= |cps|
  {
    if cps == [] then []
    else if cps[0].key == k then WithoutKey(cps[1..], k)
    else [cps[0]] + WithoutKey(cps[1..], k)
  }

  /** `List.remove(Object)`: drops the first element equal to `m`, if any. */
  function RemoveFirst(cps: seq<Mapping>, m: Mapping): (r: seq<Mapping>)
    ensures m in cps ==> |r| == |cps| - 1
    ensures m !in cps ==> r == cps
  {
    if cps == [] then []
    else if cps[0] == m then cps[1..]
    else [cps[0]] + RemoveFirst(cps[1..], m)
  }

  /**
   * Inserts `m` before the first change point whose key is not smaller, the
   * step of an insertion sort.
   */
  function InsertByKey(m: Mapping, cps: seq<Mapping>): (r: seq<Mapping>)
  {
    if cps == [] || m.key <= cps[0].key then [m] + cps
    else [cps[0]] + InsertByKey(m, cps[1..])
  }

  /**
   * `sorted(Comparator.comparingDouble(m -> m.key))`: the change points in
   * ascending key order.
   */
  function SortByKey(cps: seq<Mapping>): (r: seq<Mapping>)
  {
    if cps == [] then [] else InsertByKey(cps[0], SortByKey(cps[1..]))
  }

  lemma {:induction false} InsertByKeyPermutes(m: Mapping, cps: seq<Mapping>)
    ensures multiset(InsertByKey(m, cps)) == multiset(cps) + multiset{m}
  {
    if cps != [] && m.key > cps[0].key {
      InsertByKeyPermutes(m, cps[1..]);
      assert cps == [cps[0]] + cps[1..];
    }
  }

  lemma {:induction false} InsertByKeyBounded(m: Mapping, cps: seq<Mapping>, low: real)
    requires low <= m.key
    requires forall i :: 0 <= i < |cps| ==> low <= cps[i].key
    ensures |InsertByKey(m, cps)| == |cps| + 1
    ensures forall i :: 0 <= i < |InsertByKey(m, cps)| ==> low <= InsertByKey(m, cps)[i].key
  {
    if cps != [] && m.key > cps[0].key {
      InsertByKeyBounded(m, cps[1..], low);
    }
  }

  lemma {:induction false} InsertByKeySorted(m: Mapping, cps: seq<Mapping>)
    requires SortedByKey(cps)
    ensures SortedByKey(InsertByKey(m, cps))
  {
    if cps != [] && m.key > cps[0].key {
      InsertByKeySorted(m, cps[1..]);
      InsertByKeyBounded(m, cps[1..], cps[0].key);
    }
  }

  /** The displayed table and the chart input: sorted, and the same change points. */
  lemma {:induction false} SortByKeyCorrect(cps: seq<Mapping>)
    ensures SortedByKey(SortByKey(cps))
    ensures multiset(SortByKey(cps)) == multiset(cps)
    ensures |SortByKey(cps)| == |cps|
  {
    if cps != [] {
      SortByKeyCorrect(cps[1..]);
      InsertByKeyPermutes(cps[0], SortByKey(cps[1..]));
      InsertByKeySorted(cps[0], SortByKey(cps[1..]));
      assert cps == [cps[0]] + cps[1..];
      assert |multiset(SortByKey(cps))| == |multiset(cps)|;
    }
  }

  /** `remove(m)` drops exactly one copy of `m` when there is one. */
  lemma {:induction false} RemoveFirstMultiset(cps: seq<Mapping>, m: Mapping)
    requires m in cps
    ensures multiset(RemoveFirst(cps, m)) + multiset{m} == multiset(cps)
  {
    assert cps == [cps[0]] + cps[1..];
    if cps[0] != m {
      RemoveFirstMultiset(cps[1..], m);
    }
  }

  /** `remove(m)` drops exactly one copy of `m.key` from the keys. */
  lemma {:induction false} RemoveFirstKeys(cps: seq<Mapping>, m: Mapping)
    requires m in cps
    ensures multiset(Keys(RemoveFirst(cps, m))) + multiset{m.key} == multiset(Keys(cps))
  {
    assert Keys(cps) == [cps[0].key] + Keys(cps[1..]);
    if cps[0] != m {
      RemoveFirstKeys(cps[1..], m);
      assert Keys(RemoveFirst(cps, m)) == [cps[0].key] + Keys(RemoveFirst(cps[1..], m));
    }
  }

  /** Removing a value keeps the keys unique. */
  lemma RemoveFirstUnique(cps: seq<Mapping>, m: Mapping)
    requires UniqueKeys(cps)
    ensures UniqueKeys(RemoveFirst(cps, m))
    ensures m in cps ==> !HasKey(RemoveFirst(cps, m), m.key)
  {
    if m in cps {
      var k :| 0 <= k < |cps| && cps[k] == m;
      RemoveFirstAt(cps, m, k);
      SpliceUnique(cps, k);
      SpliceDropsKey(cps, k);
    }
  }

  lemma SpliceUnique(cps: seq<Mapping>, k: nat)
    requires UniqueKeys(cps) && k < |cps|
    ensures UniqueKeys(cps[..k] + cps[k + 1..])
  {
    var r := cps[..k] + cps[k + 1..];
    forall i, j | 0 <= i < j < |r| ensures r[i].key != r[j].key {
      var i', j' := if i < k then i else i + 1, if j < k then j else j + 1;
      assert r[i] == cps[i'] && r[j] == cps[j'];
    }
  }

  lemma SpliceDropsKey(cps: seq<Mapping>, k: nat)
    requires UniqueKeys(cps) && k < |cps|
    ensures !HasKey(cps[..k] + cps[k + 1..], cps[k].key)
  {
    var r := cps[..k] + cps[k + 1..];
    forall i | 0 <= i < |r| ensures r[i].key != cps[k].key {
      var i' := if i < k then i else i + 1;
      assert r[i] == cps[i'];
    }
  }

  /** When the first copy of `m` is at `k`, `remove(m)` splices out index `k`. */
  lemma {:induction false} RemoveFirstAt(cps: seq<Mapping>, m: Mapping, k: nat)
    requires k < |cps| && cps[k] == m && forall j :: 0 <= j < k ==> cps[j] != m
    ensures RemoveFirst(cps, m) == cps[..k] + cps[k + 1..]
  {
    if k > 0 {
      RemoveFirstAt(cps[1..], m, k - 1);
      assert cps[1..][..k - 1] == cps[1..k];
      assert cps[1..][k..] == cps[k + 1..];
      assert [cps[0]] + cps[1..k] == cps[..k];
    }
  }

  /** `removeIf` on a key that is absent changes nothing. */
  lemma {:induction false} WithoutKeyAbsent(cps: seq<Mapping>, k: real)
    requires !HasKey(cps, k)
    ensures WithoutKey(cps, k) == cps
  {
    if cps != [] {
      assert cps[0].key != k;
      forall i | 0 <= i < |cps[1..]| ensures cps[1..][i].key != k {
        assert cps[1..][i] == cps[i + 1];
      }
      WithoutKeyAbsent(cps[1..], k);
    }
  }

  /** `removeIf` keeps unique keys unique, and with unique keys drops at most one point. */
  lemma WithoutKeyUnique(cps: seq<Mapping>, k: real)
    requires UniqueKeys(cps)
    ensures UniqueKeys(WithoutKey(cps, k))
    ensures HasKey(cps, k) ==> |WithoutKey(cps, k)| == |cps| - 1
    ensures !HasKey(cps, k) ==> |WithoutKey(cps, k)| == |cps|
  {
    WithoutKeyStaysUnique(cps, k);
    WithoutKeySize(cps, k);
  }

  lemma {:induction false} WithoutKeyStaysUnique(cps: seq<Mapping>, k: real)
    requires UniqueKeys(cps)
    ensures UniqueKeys(WithoutKey(cps, k))
  {
    if cps != [] {
      var t := cps[1..];
      TailUnique(cps);
      WithoutKeyStaysUnique(t, k);
      if cps[0].key != k {
        var rt := WithoutKey(t, k);
        forall m | m in rt ensures m.key != cps[0].key {
          var j :| 0 <= j < |t| && t[j] == m;
          assert cps[j + 1] == m;
        }
        ConsUnique(cps[0], rt);
      }
    }
  }

  lemma {:induction false} WithoutKeySize(cps: seq<Mapping>, k: real)
    requires UniqueKeys(cps)
    ensures HasKey(cps, k) ==> |WithoutKey(cps, k)| == |cps| - 1
    ensures !HasKey(cps, k) ==> |WithoutKey(cps, k)| == |cps|
  {
    if cps != [] {
      var t := cps[1..];
      TailUnique(cps);
      WithoutKeySize(t, k);
      if cps[0].key == k {
        forall j | 0 <= j < |t| ensures t[j].key != k {
          assert t[j] == cps[j + 1];
        }
        assert HasKey(cps, k);
      } else {
        assert HasKey(cps, k) ==> HasKey(t, k) by {
          if HasKey(cps, k) {
            var j :| 0 <= j < |cps| && cps[j].key == k;
            assert t[j - 1].key == k;
          }
        }
        assert HasKey(t, k) ==> HasKey(cps, k) by {
          if HasKey(t, k) {
            var j :| 0 <= j < |t| && t[j].key == k;
            assert cps[j + 1].key == k;
          }
        }
      }
    }
  }

  lemma TailUnique(cps: seq<Mapping>)
    requires UniqueKeys(cps) && cps != []
    ensures UniqueKeys(cps[1..])
  {
    var t := cps[1..];
    forall i, j | 0 <= i < j < |t| ensures t[i].key != t[j].key {
      assert t[i] == cps[i + 1] && t[j] == cps[j + 1];
    }
  }

  lemma ConsUnique(m: Mapping, rt: seq<Mapping>)
    requires UniqueKeys(rt) && forall x :: x in rt ==> x.key != m.key
    ensures UniqueKeys([m] + rt)
  {
    var r := [m] + rt;
    forall i, j | 0 <= i < j < |r| ensures r[i].key != r[j].key {
      if i == 0 {
        assert r[j] in rt;
      } else {
        assert r[i] == rt[i - 1] && r[j] == rt[j - 1];
      }
    }
  }
}
