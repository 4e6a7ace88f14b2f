/** Lists of keyed values, searched from the front: replacing or appending is updating a map. */
module KeyedList {
  import opened Wrappers

  datatype Keyed<K, V> = Keyed(key: K, value: V)

  predicate DistinctKeys<K(==), V>(list: seq<Keyed<K, V>>) {
    forall i, j | 0 <= i < j < |list| :: list[i].key != list[j].key
  }

  /** The index of the first entry with a key, or the length. */
  function IndexOf<K(==), V>(list: seq<Keyed<K, V>>, k: K): (i: nat)
    ensures i <= |list|
    ensures i < |list| ==> list[i].key == k
    ensures forall j | 0 <= j < i :: list[j].key != k
    decreases |list|
  {
    if list == [] then 0 else if list[0].key == k then 0 else 1 + IndexOf(list[1..], k)
  }

  /** Replace the value of the first entry with the key, or append one. */
  function Put<K(==), V>(list: seq<Keyed<K, V>>, k: K, v: V): (r: seq<Keyed<K, V>>) {
    var i := IndexOf(list, k);
    if i < |list| then list[i := Keyed(k, v)] else list + [Keyed(k, v)]
  }

  function PutAll<K(==), V>(list: seq<Keyed<K, V>>, updates: seq<Keyed<K, V>>): seq<Keyed<K, V>>
    decreases |updates|
  {
    if updates == [] then list
    else
      var n := |updates| - 1;
      Put(PutAll(list, updates[..n]), updates[n].key, updates[n].value)
  }

  /** The map a list stands for; of entries with one key the last counts. */
  function AsMap<K(==), V>(list: seq<Keyed<K, V>>): map<K, V>
    decreases |list|
  {
    if list == [] then map[] else AsMap(list[..|list| - 1])[list[|list| - 1].key := list[|list| - 1].value]
  }

  function Keys<K, V>(list: seq<Keyed<K, V>>): (r: seq<K>)
    ensures |r| == |list|
  {
    seq(|list|, i requires 0 <= i < |list| => list[i].key)
  }

  lemma {:induction false} AsMapMeaning<K, V>(list: seq<Keyed<K, V>>, k: K)
    requires DistinctKeys(list)
    ensures var i := IndexOf(list, k);
      (k in AsMap(list) <==> i < |list|) && (i < |list| ==> AsMap(list)[k] == list[i].value)
    decreases |list|
  {
    if list != [] {
      var n := |list| - 1;
      AsMapMeaning(list[..n], k);
      var i, j := IndexOf(list, k), IndexOf(list[..n], k);
      assert j < n ==> list[..n][j] == list[j];
      assert i < n ==> list[..n][i] == list[i];
    }
  }

  /** Of two lists read one after the other, the second wins. */
  lemma {:induction false} AsMapOfBoth<K, V>(a: seq<Keyed<K, V>>, b: seq<Keyed<K, V>>)
    ensures AsMap(a + b) == AsMap(a) + AsMap(b)
    decreases |b|
  {
    if b == [] {
      assert a + b == a;
    } else {
      var n := |b| - 1;
      assert (a + b)[..|a + b| - 1] == a + b[..n];
      AsMapOfBoth(a, b[..n]);
    }
  }

  /** Putting keeps the keys distinct and in place, a new one coming last. */
  lemma PutKeepsDistinct<K, V>(list: seq<Keyed<K, V>>, k: K, v: V)
    requires DistinctKeys(list)
    ensures DistinctKeys(Put(list, k, v)) && Keys(list) <= Keys(Put(list, k, v))
  {
  }

  lemma IndexAfterPut<K, V>(list: seq<Keyed<K, V>>, k: K, v: V, x: K)
    ensures
      var i, after := IndexOf(list, x), Put(list, k, v);
      IndexOf(after, x) == if x == k || i < |list| then i else |after|
  {
    var i, after := IndexOf(list, x), Put(list, k, v);
    FirstIsIndex(after, x, if x == k || i < |list| then i else |after|);
  }

  lemma PutUpdatesMap<K, V>(list: seq<Keyed<K, V>>, k: K, v: V)
    requires DistinctKeys(list)
    ensures AsMap(Put(list, k, v)) == AsMap(list)[k := v]
  {
    PutKeepsDistinct(list, k, v);
    var a, b := AsMap(Put(list, k, v)), AsMap(list)[k := v];
    forall x | x in a.Keys + b.Keys
      ensures x in a && x in b && a[x] == b[x]
    {
      MapAfterPut(list, k, v, x);
    }
    assert a.Keys == b.Keys;
    assert a == b;
  }

  lemma MapAfterPut<K, V>(list: seq<Keyed<K, V>>, k: K, v: V, x: K)
    requires DistinctKeys(list) && DistinctKeys(Put(list, k, v))
    ensures x in AsMap(Put(list, k, v)) <==> x in AsMap(list)[k := v]
    ensures x in AsMap(Put(list, k, v)) ==> AsMap(Put(list, k, v))[x] == AsMap(list)[k := v][x]
  {
    hide AsMap, DistinctKeys;
    AsMapMeaning(list, x);
    AsMapMeaning(Put(list, k, v), x);
    IndexAfterPut(list, k, v, x);
  }

  /** Merging updates one by one is one map update in which the last write of each key wins. */
  lemma {:induction false} PutAllIsMapUpdate<K, V>(list: seq<Keyed<K, V>>, updates: seq<Keyed<K, V>>)
    requires DistinctKeys(list)
    ensures DistinctKeys(PutAll(list, updates)) && Keys(list) <= Keys(PutAll(list, updates))
    ensures AsMap(PutAll(list, updates)) == AsMap(list) + AsMap(updates)
    decreases |updates|
  {
    hide Put, Keys, DistinctKeys;
    if updates == [] {
    } else {
      var n := |updates| - 1;
      var before := PutAll(list, updates[..n]);
      PutAllIsMapUpdate(list, updates[..n]);
      PutKeepsDistinct(before, updates[n].key, updates[n].value);
      PutUpdatesMap(before, updates[n].key, updates[n].value);
      assert (AsMap(list) + AsMap(updates[..n]))[updates[n].key := updates[n].value] == AsMap(list) + AsMap(updates);
    }
  }

  /** The index of the entry with a key, if there is one. */
  method Position<K(==), V>(list: seq<Keyed<K, V>>, k: K) returns (i: nat)
    ensures i == IndexOf(list, k)
  {
    i := 0;
    while i < |list| && list[i].key != k
      invariant i <= |list| && forall j | 0 <= j < i :: list[j].key != k
    {
      i := i + 1;
    }
    FirstIsIndex(list, k, i);
  }

  lemma FirstIsIndex<K, V>(list: seq<Keyed<K, V>>, k: K, i: nat)
    requires i <= |list| && (forall j | 0 <= j < i :: list[j].key != k) && (i < |list| ==> list[i].key == k)
    ensures i == IndexOf(list, k)
  {
  }

  method Merge<K(==), V>(existing: seq<Keyed<K, V>>, updates: seq<Keyed<K, V>>) returns (r: seq<Keyed<K, V>>)
    ensures r == PutAll(existing, updates)
  {
    r := existing;
    for n := 0 to |updates|
      invariant r == PutAll(existing, updates[..n])
    {
      assert updates[..n + 1][..n] == updates[..n];
      var i := Position(r, updates[n].key);
      if i < |r| {
        r := r[i := updates[n]];
      } else {
        r := r + [updates[n]];
      }
    }
    assert updates[..|updates|] == updates;
  }
}
