/** The abstract value of the threaded hash tables of dictionary.c and map.c: the
    entries in list order.  Entries of one bucket are neighbours, and a new entry
    goes behind the last of its bucket, or to the end of the list. */
module TableSpec {
  import opened Bytes

  datatype Entry<K, V> = Entry(key: K, value: V, bucket: nat)

  type Table<K, V> = seq<Entry<K, V>>

  /** Maps keyed by addresses only look at the bucket of a key, one of 100, and at its
      low 32 bits (map.c:101-106). */
  type Key = (nat, nat)

  function AddressKey(hash: word -> nat, p: word): Key { (hash(p) % 100, p % HALF_WORD) }

  /** How many entries at the front belong to bucket b. */
  function RunLength<K, V>(t: Table<K, V>, b: nat): (n: nat)
    ensures n <= |t| && (n < |t| ==> t[n].bucket != b)
    ensures forall i :: 0 <= i < n ==> t[i].bucket == b
  {
    if t == [] || t[0].bucket != b then 0 else 1 + RunLength(t[1..], b)
  }

  /** Where an entry of bucket b is inserted. */
  function Slot<K, V>(t: Table<K, V>, b: nat): (n: nat)
    ensures n <= |t|
  {
    if t == [] then 0 else if t[0].bucket == b then RunLength(t, b) else 1 + Slot(t[1..], b)
  }

  function Insert<K, V>(t: Table<K, V>, e: Entry<K, V>): (r: Table<K, V>)
    ensures |r| == |t| + 1
  {
    var n := Slot(t, e.bucket);
    t[..n] + [e] + t[n..]
  }

  /** The index of a key, or the number of entries. */
  function Find<K(==), V>(t: Table<K, V>, k: K): (n: nat)
    ensures n <= |t| && (n < |t| ==> t[n].key == k)
    ensures forall i :: 0 <= i < n ==> t[i].key != k
  {
    if t == [] || t[0].key == k then 0 else 1 + Find(t[1..], k)
  }

  function Get<K(==), V>(t: Table<K, V>, k: K): Option<V>
  {
    var n := Find(t, k);
    if n < |t| then Some(t[n].value) else None
  }

  /** dictSet and mapSet: overwrite in place or insert. */
  function Set<K(==), V>(t: Table<K, V>, k: K, v: V, bucket: nat): (r: Table<K, V>)
    ensures |r| == if Find(t, k) < |t| then |t| else |t| + 1
  {
    var n := Find(t, k);
    if n < |t| then t[n := t[n].(value := v)] else Insert(t, Entry(k, v, bucket))
  }

  predicate DistinctKeys<K(==), V>(t: Table<K, V>)
  {
    forall i, j :: 0 <= i < j < |t| ==> t[i].key != t[j].key
  }

  /** Entries of one bucket are neighbours. */
  predicate Grouped<K, V>(t: Table<K, V>)
  {
    forall i, j, k :: 0 <= i < j < k < |t| && t[i].bucket == t[k].bucket ==> t[j].bucket == t[i].bucket
  }

  /** The abstract map. */
  function View<K(==), V>(t: Table<K, V>): map<K, V>
  {
    if t == [] then map[] else View(t[1..])[t[0].key := t[0].value]
  }

  lemma {:induction false} ViewGet<K, V>(t: Table<K, V>, k: K)
    ensures Get(t, k) == if k in View(t) then Some(View(t)[k]) else None
  {
    if t != [] && t[0].key != k { ViewGet(t[1..], k); }
  }

  /** Concatenation is union, the front taking precedence. */
  lemma {:induction false} ViewAppend<K, V>(a: Table<K, V>, b: Table<K, V>)
    ensures View(a + b) == View(b) + View(a)
  {
    if a == [] {
      assert a + b == b;
    } else {
      ViewAppend(a[1..], b);
      assert (a + b)[1..] == a[1..] + b;
    }
  }

  lemma {:induction false} ViewKeys<K, V>(t: Table<K, V>)
    ensures forall k :: k in View(t) <==> exists i :: 0 <= i < |t| && t[i].key == k
  {
    if t != [] {
      ViewKeys(t[1..]);
      forall k ensures k in View(t) <==> exists i :: 0 <= i < |t| && t[i].key == k {
        if k in View(t[1..]) {
          var i :| 0 <= i < |t[1..]| && t[1..][i].key == k;
          assert t[i + 1].key == k;
        }
        if i :| 0 <= i < |t| && t[i].key == k {
          if i > 0 { assert t[1..][i - 1].key == k; }
        }
      }
    }
  }

  lemma ViewAbsent<K, V>(t: Table<K, V>, k: K)
    requires forall i :: 0 <= i < |t| ==> t[i].key != k
    ensures k !in View(t)
  {
    ViewKeys(t);
  }

  /** An entry whose key does not occur before it, among other entries. */
  lemma PlaceView<K, V>(a: Table<K, V>, e: Entry<K, V>, b: Table<K, V>)
    requires forall i :: 0 <= i < |a| ==> a[i].key != e.key
    ensures View(a + [e] + b) == View(a + b)[e.key := e.value]
  {
    ViewAppend(a + [e], b);
    ViewAppend(a, [e]);
    ViewAppend(a, b);
    ViewAbsent(a, e.key);
    assert View([e]) == map[e.key := e.value] by { assert [e][1..] == []; }
  }

  /** Inserting a new key extends the map and keeps the keys distinct. */
  lemma InsertView<K, V>(t: Table<K, V>, e: Entry<K, V>)
    requires DistinctKeys(t) && Find(t, e.key) == |t|
    ensures View(Insert(t, e)) == View(t)[e.key := e.value]
    ensures DistinctKeys(Insert(t, e))
  {
    var n := Slot(t, e.bucket);
    var a, b := t[..n], t[n..];
    assert t == a + b;
    PlaceView(a, e, b);
    InsertDistinct(t, e, n);
  }

  lemma InsertDistinct<K, V>(t: Table<K, V>, e: Entry<K, V>, n: nat)
    requires DistinctKeys(t) && n <= |t| && forall i :: 0 <= i < |t| ==> t[i].key != e.key
    ensures DistinctKeys(t[..n] + [e] + t[n..])
  {
  }

  /** A set is a map update, whatever the order of the entries. */
  lemma SetView<K, V>(t: Table<K, V>, k: K, v: V, bucket: nat)
    requires DistinctKeys(t)
    ensures View(Set(t, k, v, bucket)) == View(t)[k := v]
    ensures DistinctKeys(Set(t, k, v, bucket))
  {
    var n := Find(t, k);
    if n < |t| {
      UpdateView(t, n, v);
    } else {
      InsertView(t, Entry(k, v, bucket));
    }
  }

  lemma UpdateView<K, V>(t: Table<K, V>, n: nat, v: V)
    requires n < |t| && DistinctKeys(t)
    ensures View(t[n := t[n].(value := v)]) == View(t)[t[n].key := v]
  {
    var a, b, e := t[..n], t[n + 1..], t[n];
    assert t == a + [e] + b && t[n := e.(value := v)] == a + [e.(value := v)] + b;
    PlaceView(a, e, b);
    PlaceView(a, e.(value := v), b);
  }

  /** Inserting keeps buckets together. */
  lemma {:induction false} InsertGrouped<K, V>(t: Table<K, V>, e: Entry<K, V>)
    requires Grouped(t)
    ensures Grouped(Insert(t, e))
  {
    var r := Insert(t, e);
    forall i, j, k | 0 <= i < j < k < |r| && r[i].bucket == r[k].bucket ensures r[j].bucket == r[i].bucket {
      InsertBetween(t, e, i, j, k);
    }
  }

  lemma InsertBetween<K, V>(t: Table<K, V>, e: Entry<K, V>, i: nat, j: nat, k: nat)
    requires Grouped(t) && i < j < k <= |t| && Insert(t, e)[i].bucket == Insert(t, e)[k].bucket
    ensures Insert(t, e)[j].bucket == Insert(t, e)[i].bucket
  {
    hide Grouped; hide Slot;
    var n := Slot(t, e.bucket);
    SlotRun(t, e.bucket);
    if j == n {
      Straddled(t, e.bucket, i, k - 1);
    } else if k == n {
      Between(t, i, j, n - 1);
    } else if i != n {
      Between(t, if i > n then i - 1 else i, if j > n then j - 1 else j, if k > n then k - 1 else k);
    }
  }

  lemma Between<K, V>(t: Table<K, V>, i: nat, j: nat, k: nat)
    requires Grouped(t) && i <= j <= k < |t| && t[i].bucket == t[k].bucket
    ensures t[j].bucket == t[i].bucket
  {
  }

  /** A run of another bucket does not straddle the slot. */
  lemma Straddled<K, V>(t: Table<K, V>, b: nat, i: nat, k: nat)
    requires Grouped(t) && i < Slot(t, b) <= k < |t|
    ensures t[i].bucket != t[k].bucket
  {
    SlotRun(t, b);
    assert i <= Slot(t, b) - 1 <= k;
  }

  /** All entries of bucket b lie before its slot, the last of them right before it. */
  lemma {:induction false} SlotRun<K, V>(t: Table<K, V>, b: nat)
    requires Grouped(t)
    ensures forall i :: Slot(t, b) <= i < |t| ==> t[i].bucket != b
    ensures Slot(t, b) == |t| || (Slot(t, b) > 0 && t[Slot(t, b) - 1].bucket == b)
    ensures (exists i :: 0 <= i < |t| && t[i].bucket == b) ==> Slot(t, b) > 0 && t[Slot(t, b) - 1].bucket == b
  {
    if t != [] {
      if t[0].bucket == b {
        var n := RunLength(t, b);
        assert 0 < n && (n < |t| ==> t[n].bucket != b);
        assert forall i :: n < i < |t| && t[i].bucket == b ==> t[n].bucket == b;
      } else {
        SlotRun(t[1..], b);
        var m := Slot(t[1..], b);
        forall i | m + 1 <= i < |t| ensures t[i].bucket != b { assert t[1..][i - 1].bucket != b; }
        if i :| 0 <= i < |t| && t[i].bucket == b { assert t[1..][i - 1].bucket == b; }
      }
    }
  }
}
