/** Lists of pairs with distinct keys, and the map of ImsMap.h among them: pairs in a vector ordered by
    key (ImsSortedVector.h). Both refine a map.
 */
module SortedMaps {

  type Pairs<K, V> = seq<(K, V)>

  predicate Distinct<K(==), V>(p: Pairs<K, V>) {
    forall i, j :: 0 <= i < j < |p| ==> p[i].0 != p[j].0
  }

  /** GetIndexOfKey: the first pair with the key, or -1. */
  function IndexOfKey<K(==), V>(p: Pairs<K, V>, key: K): (k: int)
    ensures -1 <= k < |p|
    ensures k >= 0 ==> p[k].0 == key
    ensures forall i :: 0 <= i < (if k < 0 then |p| else k) ==> p[i].0 != key
  {
    if p == [] then -1
    else if p[0].0 == key then 0
    else
      var k := IndexOfKey(p[1..], key);
      if k < 0 then -1 else k + 1
  }

  function RemoveAt<K, V>(p: Pairs<K, V>, i: nat): Pairs<K, V>
    requires i < |p|
  {
    p[..i] + p[i + 1..]
  }

  /** The map that the pairs stand for. */
  function ToMap<K(==), V>(p: Pairs<K, V>): map<K, V> {
    if p == [] then map[] else ToMap(p[..|p| - 1])[p[|p| - 1].0 := p[|p| - 1].1]
  }

  lemma {:induction false} ToMapHas<K, V>(p: Pairs<K, V>, key: K)
    requires Distinct(p)
    ensures key in ToMap(p) <==> IndexOfKey(p, key) >= 0
    ensures IndexOfKey(p, key) >= 0 ==> ToMap(p)[key] == p[IndexOfKey(p, key)].1
  {
    hide IndexOfKey;
    if p != [] {
      var init, last := p[..|p| - 1], p[|p| - 1];
      ToMapHas(init, key);
      assert forall i :: 0 <= i < |init| ==> p[i] == init[i];
    }
  }

  lemma KeyAt<K, V>(p: Pairs<K, V>, i: nat)
    requires Distinct(p) && i < |p|
    ensures IndexOfKey(p, p[i].0) == i
  {
    hide IndexOfKey;
  }

  lemma SetDistinct<K, V>(p: Pairs<K, V>, i: nat, value: V)
    requires Distinct(p) && i < |p|
    ensures Distinct(p[i := (p[i].0, value)])
  {
    var q := p[i := (p[i].0, value)];
    assert forall x :: 0 <= x < |p| ==> q[x].0 == p[x].0;
  }

  lemma SetAt<K, V>(p: Pairs<K, V>, i: nat, value: V, k: K)
    requires Distinct(p) && i < |p| && Distinct(p[i := (p[i].0, value)])
    ensures
      var q, m := ToMap(p[i := (p[i].0, value)]), ToMap(p)[p[i].0 := value];
      (k in q <==> k in m) && (k in q && k in m ==> q[k] == m[k])
  {
    hide ToMap, IndexOfKey, Distinct;
    var q := p[i := (p[i].0, value)];
    ToMapHas(p, k);
    ToMapHas(q, k);
    KeyAt(p, i);
    KeyAt(q, i);
    var x, y := IndexOfKey(p, k), IndexOfKey(q, k);
    if x >= 0 {
      assert q[x].0 == k;
      KeyAt(q, x);
    }
    if y >= 0 {
      assert p[y].0 == k;
      KeyAt(p, y);
    }
  }

  /** Replacing a value in place is a map update. */
  lemma SetRefines<K(!new), V>(p: Pairs<K, V>, i: nat, value: V)
    requires Distinct(p) && i < |p|
    ensures Distinct(p[i := (p[i].0, value)])
    ensures ToMap(p[i := (p[i].0, value)]) == ToMap(p)[p[i].0 := value]
  {
    hide ToMap, IndexOfKey, Distinct;
    var q, m := p[i := (p[i].0, value)], ToMap(p)[p[i].0 := value];
    SetDistinct(p, i, value);
    forall k: K
      ensures k in ToMap(q) <==> k in m
      ensures k in ToMap(q) && k in m ==> ToMap(q)[k] == m[k]
    {
      SetAt(p, i, value, k);
    }
    assert ToMap(q).Keys == m.Keys;
  }

  /** Appending a new key is a map update. */
  lemma AppendRefines<K, V>(p: Pairs<K, V>, key: K, value: V)
    requires Distinct(p) && IndexOfKey(p, key) < 0
    ensures Distinct(p + [(key, value)]) && ToMap(p + [(key, value)]) == ToMap(p)[key := value]
  {
    hide IndexOfKey;
    var q := p + [(key, value)];
    assert q[..|q| - 1] == p;
    assert forall i :: 0 <= i < |p| ==> q[i] == p[i];
  }

  lemma RemoveIndex<K, V>(p: Pairs<K, V>, i: nat)
    requires i < |p|
    ensures |RemoveAt(p, i)| == |p| - 1
    ensures forall x :: 0 <= x < |p| - 1 ==> RemoveAt(p, i)[x] == p[if x < i then x else x + 1]
  {
  }

  lemma RemovedAt<K, V>(p: Pairs<K, V>, i: nat, k: K)
    requires Distinct(p) && i < |p| && Distinct(RemoveAt(p, i))
    ensures k in ToMap(RemoveAt(p, i)) <==> k in ToMap(p) && k != p[i].0
    ensures k in ToMap(RemoveAt(p, i)) && k in ToMap(p) ==> ToMap(RemoveAt(p, i))[k] == ToMap(p)[k]
  {
    hide ToMap, IndexOfKey, Distinct, RemoveAt;
    var q := RemoveAt(p, i);
    RemoveIndex(p, i);
    ToMapHas(p, k);
    ToMapHas(q, k);
    KeyAt(p, i);
    var x, y := IndexOfKey(p, k), IndexOfKey(q, k);
    if x >= 0 && x != i {
      var z := if x < i then x else x - 1;
      assert q[z] == p[x];
      KeyAt(q, z);
    }
    if y >= 0 {
      var z := if y < i then y else y + 1;
      assert p[z] == q[y];
      KeyAt(p, z);
    }
  }

  lemma RemoveDistinct<K, V>(p: Pairs<K, V>, i: nat)
    requires Distinct(p) && i < |p|
    ensures Distinct(RemoveAt(p, i))
  {
    var q := RemoveAt(p, i);
    assert forall x :: 0 <= x < |q| ==> q[x] == p[if x < i then x else x + 1];
  }

  /** Removing a pair removes its key. */
  lemma RemoveRefines<K(!new), V>(p: Pairs<K, V>, i: nat)
    requires Distinct(p) && i < |p|
    ensures Distinct(RemoveAt(p, i)) && ToMap(RemoveAt(p, i)) == ToMap(p) - {p[i].0}
  {
    hide ToMap, IndexOfKey, Distinct, RemoveAt;
    var q, m := RemoveAt(p, i), ToMap(p) - {p[i].0};
    RemoveDistinct(p, i);
    forall k: K
      ensures k in ToMap(q) <==> k in m
      ensures k in ToMap(q) && k in m ==> ToMap(q)[k] == m[k]
    {
      RemovedAt(p, i, k);
    }
    assert ToMap(q).Keys == m.Keys;
  }

  lemma EmptyMap<K, V>(p: Pairs<K, V>)
    ensures p == [] <==> ToMap(p) == map[]
  {
    if p != [] {
      assert p[|p| - 1].0 in ToMap(p);
    }
  }

  // ---- ordered by key ---------------------------------------------------------------------------

  predicate Sorted<V>(p: Pairs<int, V>) {
    forall i, j :: 0 <= i < j < |p| ==> p[i].0 < p[j].0
  }

  /** GetOrderOf: in front of the first greater key. */
  function OrderOf<V>(p: Pairs<int, V>, key: int): (k: nat)
    ensures k <= |p|
    ensures forall i :: 0 <= i < k ==> p[i].0 <= key
    ensures k < |p| ==> key < p[k].0
  {
    if p == [] || key < p[0].0 then 0 else 1 + OrderOf(p[1..], key)
  }

  /** Add: replaces the value of a key or inserts the pair in its place. */
  function Add<V>(p: Pairs<int, V>, key: int, value: V): Pairs<int, V> {
    var k := IndexOfKey(p, key);
    if k >= 0 then p[k := (key, value)]
    else p[..OrderOf(p, key)] + [(key, value)] + p[OrderOf(p, key)..]
  }

  lemma SortedIsDistinct<V>(p: Pairs<int, V>)
    requires Sorted(p)
    ensures Distinct(p)
  {
  }

  lemma RemoveSorted<V>(p: Pairs<int, V>, i: nat)
    requires Sorted(p) && i < |p|
    ensures Sorted(RemoveAt(p, i))
  {
    var q := RemoveAt(p, i);
    assert forall x :: 0 <= x < |q| ==> q[x] == p[if x < i then x else x + 1];
  }

  lemma AddSorted<V>(p: Pairs<int, V>, key: int, value: V)
    requires Sorted(p)
    ensures Sorted(Add(p, key, value))
  {
    hide IndexOfKey, OrderOf;
    var n := OrderOf(p, key);
    if IndexOfKey(p, key) < 0 {
      var q := Add(p, key, value);
      assert forall i :: 0 <= i < |q| ==> q[i] == if i < n then p[i] else if i == n then (key, value) else p[i - 1];
    }
  }

  /** Inserting a new key anywhere is a map update: taking it out again gives the map before. */
  lemma InsertRefines<K(!new), V>(p: Pairs<K, V>, n: nat, key: K, value: V)
    requires Distinct(p) && n <= |p| && IndexOfKey(p, key) < 0
    requires Distinct(p[..n] + [(key, value)] + p[n..])
    ensures ToMap(p[..n] + [(key, value)] + p[n..]) == ToMap(p)[key := value]
  {
    hide ToMap, IndexOfKey, Distinct;
    var q := p[..n] + [(key, value)] + p[n..];
    assert q[n] == (key, value);
    assert RemoveAt(q, n) == p;
    RemoveRefines(q, n);
    KeyAt(q, n);
    ToMapHas(q, key);
    ToMapHas(p, key);
    assert ToMap(p) == ToMap(q) - {key};
  }

  /** Adding is a map update, and keeps the order. */
  lemma AddRefines<V>(p: Pairs<int, V>, key: int, value: V)
    requires Sorted(p)
    ensures Sorted(Add(p, key, value)) && ToMap(Add(p, key, value)) == ToMap(p)[key := value]
  {
    hide ToMap, IndexOfKey, OrderOf, Distinct, Sorted;
    SortedIsDistinct(p);
    AddSorted(p, key, value);
    var k := IndexOfKey(p, key);
    if k >= 0 {
      SetRefines(p, k, value);
    } else {
      SortedIsDistinct(Add(p, key, value));
      InsertRefines(p, OrderOf(p, key), key, value);
    }
  }
}
