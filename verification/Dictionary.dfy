/** The hash table of util/dictionary.c (and util/map.c, which has the same structure):
    an array of bucket heads threaded through one doubly linked list, in which the
    nodes of a bucket are neighbours. */
module Dictionary {
  import opened Bytes
  import opened TableSpec

  class Node<K, V> {
    const key: K
    const hash: nat
    var data: V
    var next: Node?<K, V>
    var prev: Node?<K, V>

    constructor (key: K, hash: nat, data: V)
      ensures this.key == key && this.hash == hash && this.data == data && next == null && prev == null
    {
      this.key, this.hash, this.data, next, prev := key, hash, data, null, null;
    }
  }

  /** The first node of bucket b in a list of nodes, or null if there is none. */
  ghost predicate IsFirst<K, V>(head: Node?<K, V>, s: seq<Node<K, V>>, b: nat)
  {
    if head == null then forall i :: 0 <= i < |s| ==> s[i].hash != b
    else exists f :: 0 <= f < |s| && s[f] == head && s[f].hash == b && forall i :: 0 <= i < f ==> s[i].hash != b
  }

  /** Every head is the first node of its bucket. */
  ghost predicate HeadsOf<K, V>(heads: array<Node?<K, V>>, s: seq<Node<K, V>>)
    reads heads
  {
    forall b: nat :: b < heads.Length ==> IsFirst(heads[b], s, b)
  }

  ghost predicate NextRight<K, V>(s: seq<Node<K, V>>, i: nat)
    requires i < |s|
    reads s
  {
    s[i].next == if i + 1 < |s| then s[i + 1] else null
  }

  lemma NextIs<K, V>(s: seq<Node<K, V>>, i: nat)
    requires i < |s| && NextRight(s, i)
    ensures s[i].next == if i + 1 < |s| then s[i + 1] else null
  {
  }

  class Dictionary<K(==), V> {
    const numBuckets: nat
    const hashOf: K -> nat
    const heads: array<Node?<K, V>>
    var start: Node?<K, V>
    var end: Node?<K, V>
    var size: nat
    /** The nodes in list order. */
    ghost var nodes: seq<Node<K, V>>

    ghost function Repr(): set<object> reads this { {this, heads} + set n | n in nodes }

    function Bucket(key: K): nat
      requires numBuckets > 0
    {
      hashOf(key) % numBuckets
    }

    ghost predicate ThreadedAt(i: nat)
      requires i < |nodes|
      reads this, nodes
    {
      && nodes[i].next == (if i + 1 < |nodes| then nodes[i + 1] else null)
      && nodes[i].prev == (if i > 0 then nodes[i - 1] else null)
    }

    /** next and prev agree with the list order. */
    ghost predicate Threaded()
      reads this, nodes
    {
      && (forall i, j :: 0 <= i < j < |nodes| ==> nodes[i] != nodes[j])
      && (forall i :: 0 <= i < |nodes| ==> ThreadedAt(i))
      && start == (if nodes == [] then null else nodes[0])
      && end == (if nodes == [] then null else nodes[|nodes| - 1])
      && size == |nodes|
    }

    /** The head of a bucket is the first of its nodes. */
    ghost predicate HeadRight(b: nat)
      requires b < heads.Length
      reads this, heads
    {
      IsFirst(heads[b], nodes, b)
    }

    ghost predicate Valid()
      reads this, heads, nodes
    {
      && numBuckets > 0 && heads.Length == numBuckets && Threaded()
      && (forall i :: 0 <= i < |nodes| ==> nodes[i].hash == Bucket(nodes[i].key))
      && (forall b: nat :: b < numBuckets ==> HeadRight(b))
      && Grouped(Contents()) && DistinctKeys(Contents())
    }

    /** The entries in list order. */
    ghost function Contents(): (t: Table<K, V>)
      reads this, nodes
      ensures |t| == |nodes|
    {
      seq(|nodes|, i requires 0 <= i < |nodes| reads this, nodes => Entry(nodes[i].key, nodes[i].data, nodes[i].hash))
    }

    constructor (numBuckets: nat, hashOf: K -> nat)
      requires numBuckets > 0
      ensures Valid() && Contents() == [] && fresh(Repr())
      ensures heads.Length == numBuckets && forall b: nat :: b < numBuckets ==> heads[b] == null
      ensures this.numBuckets == numBuckets && this.hashOf == hashOf
    {
      this.numBuckets, this.hashOf := numBuckets, hashOf;
      heads := new Node?<K, V>[numBuckets](_ => null);
      start, end, size, nodes := null, null, 0, [];
    }

    lemma NextOf(i: nat)
      requires Valid() && i < |nodes|
      ensures nodes[i].next == if i + 1 < |nodes| then nodes[i + 1] else null
    {
      assert ThreadedAt(i);
    }

    lemma HeadAt(key: K) returns (at: nat)
      requires Valid()
      ensures numBuckets > 0 && Bucket(key) < heads.Length
      ensures var head := heads[Bucket(key)];
              if head == null then at == |nodes| else at < |nodes| && nodes[at] == head && head.hash == Bucket(key)
      ensures forall i :: 0 <= i < at ==> nodes[i].key != key
    {
      hide Threaded, Grouped, DistinctKeys;
      assert HeadRight(Bucket(key));
      at := |nodes|;
      if heads[Bucket(key)] != null {
        at :| 0 <= at < |nodes| && nodes[at] == heads[Bucket(key)] && nodes[at].hash == Bucket(key)
              && forall i :: 0 <= i < at ==> nodes[i].hash != Bucket(key);
      }
    }

    lemma FoundAt(key: K, at: nat)
      requires at <= |nodes| && (forall i :: 0 <= i < at ==> nodes[i].key != key) && (at < |nodes| ==> nodes[at].key == key)
      ensures at == Find(Contents(), key)
    {
      FindIs(Contents(), key, at);
    }

    /** Behind the nodes of its bucket a key is not found any more. */
    lemma NotBehind(key: K, at: nat, f: nat)
      requires Valid() && f <= at < |nodes| && nodes[f].hash == Bucket(key) && nodes[at].hash != Bucket(key)
      requires forall i :: 0 <= i < at ==> nodes[i].key != key
      ensures |nodes| == Find(Contents(), key)
    {
      hide Threaded, HeadRight, Grouped, DistinctKeys;
      assert Contents()[f].bucket == Bucket(key);
      BehindRun(Contents(), key, Bucket(key), at);
      FindIs(Contents(), key, |nodes|);
    }

    /** The walk over the nodes of a bucket: the node of a key, if there is one. */
    method Lookup(key: K) returns (node: Node?<K, V>, ghost at: nat)
      requires Valid()
      ensures at == Find(Contents(), key)
      ensures if node == null then at == |nodes| else at < |nodes| && nodes[at] == node
    {
      hide Valid, Bucket, Contents, Find;
      at := HeadAt(key);
      ghost var f := at;
      node := heads[Bucket(key)];
      while node != null && node.hash == Bucket(key) && node.key != key
        invariant if node == null then at == |nodes| else at < |nodes| && nodes[at] == node
        invariant forall i :: 0 <= i < at ==> nodes[i].key != key
        invariant node != null ==> f <= at && nodes[f].hash == Bucket(key)
        decreases |nodes| - at
      {
        NextOf(at);
        node, at := node.next, at + 1;
      }
      if node != null && node.hash != Bucket(key) {
        NotBehind(key, at, f);
        node, at := null, |nodes|;
      } else {
        FoundAt(key, at);
      }
    }

    /** dictExists. */
    method Exists(key: K) returns (found: bool)
      requires Valid()
      ensures found <==> key in View(Contents())
    {
      ghost var at;
      var node;
      node, at := Lookup(key);
      ViewGet(Contents(), key);
      found := node != null;
    }

    /** dictGet. */
    method Get(key: K) returns (value: Option<V>)
      requires Valid()
      ensures value == TableSpec.Get(Contents(), key)
    {
      ghost var at;
      var node;
      node, at := Lookup(key);
      value := if node == null then None else Some(node.data);
    }

    /** A node goes behind another one, or becomes the first of an empty list. */
    method Link(node: Node<K, V>, parent: Node?<K, V>, ghost n: nat)
      requires Threaded() && n <= |nodes| && node !in nodes
      requires if n == 0 then parent == null && nodes == [] else parent == nodes[n - 1]
      modifies this, nodes, node
      ensures Threaded() && nodes == old(nodes[..n] + [node] + nodes[n..])
      ensures forall x :: x in nodes ==> x.data == old(x.data)
    {
      ghost var s := nodes;
      assert n > 0 ==> ThreadedAt(n - 1);
      assert n < |nodes| ==> ThreadedAt(n);
      label before:
      node.prev := parent;
      if parent == null {
        start, end, node.next := node, node, null;
      } else {
        if parent == end { end := node; }
        node.next := parent.next;
        if node.next != null { node.next.prev := node; }
        parent.next := node;
      }
      nodes, size := s[..n] + [node] + s[n..], size + 1;
      forall i | 0 <= i < |nodes| ensures ThreadedAt(i) {
        if i < n {
          assert nodes[i] == s[i] && old@before(ThreadedAt(i));
        } else if i > n {
          assert nodes[i] == s[i - 1] && old@before(ThreadedAt(i - 1));
        }
      }
    }

    /** The node that a new node of a bucket goes behind. */
    method Parent(b: nat) returns (parent: Node?<K, V>, ghost n: nat)
      requires Valid() && b < numBuckets
      ensures n <= |nodes| && if n == 0 then parent == null && nodes == [] else parent == nodes[n - 1]
      ensures if heads[b] != null then n > 0 && nodes[n - 1].hash == b && (n < |nodes| ==> nodes[n].hash != b)
              else n == |nodes| && forall i :: 0 <= i < |nodes| ==> nodes[i].hash != b
    {
      parent := heads[b];
      assert HeadRight(b);
      if parent == null {
        return end, |nodes|;
      }
      n :| 0 <= n < |nodes| && nodes[n] == parent && nodes[n].hash == b;
      while parent.next != null && parent.next.hash == b
        invariant 0 <= n < |nodes| && nodes[n] == parent && nodes[n].hash == b
        decreases |nodes| - n
      {
        NextOf(n);
        parent, n := parent.next, n + 1;
      }
      NextOf(n);
      n := n + 1;
    }

    /** dictInsert: a new node goes behind the nodes of its bucket, or to the end of the
        list; a key that is present is refused. */
    method Insert(key: K, value: V) returns (ok: bool)
      requires Valid()
      modifies Repr()
      ensures Valid() && fresh(Repr() - old(Repr()))
      ensures ok <==> key !in View(old(Contents()))
      ensures Contents() == if ok then TableSpec.Insert(old(Contents()), Entry(key, value, Bucket(key))) else old(Contents())
    {
      hide Grouped, DistinctKeys, TableSpec.Insert, View, Find, Slot;
      var found := Exists(key);
      if found { return false; }
      var b := Bucket(key);
      ghost var n;
      var parent;
      parent, n := Parent(b);
      var node := new Node(key, b, value);
      InsertPlan(Contents(), Entry(key, value, b), n);
      Place(node, parent, n);
      return true;
    }

    /** Linking a node in and making it the head of its bucket if it is the first. */
    method Place(node: Node<K, V>, parent: Node?<K, V>, ghost n: nat)
      requires Valid() && node !in nodes && n == Slot(Contents(), node.hash) && node.hash == Bucket(node.key)
      requires if n == 0 then parent == null && nodes == [] else parent == nodes[n - 1]
      requires heads[node.hash] != null ==> n > 0 && nodes[n - 1].hash == node.hash
      requires var t := TableSpec.Insert(Contents(), Entry(node.key, node.data, node.hash)); Grouped(t) && DistinctKeys(t)
      modifies this, heads, nodes, node
      ensures Valid() && nodes == old(nodes[..n] + [node] + nodes[n..])
      ensures Contents() == TableSpec.Insert(old(Contents()), old(Entry(node.key, node.data, node.hash)))
    {
      hide Grouped, DistinctKeys, Slot, IsFirst, TableSpec.Insert;
      ghost var t, e := Contents(), Entry(node.key, node.data, node.hash);
      assert node.hash < numBuckets;
      hide Bucket;
      label before:
      Link(node, parent, n);
      var b := node.hash;
      if heads[b] == null { heads[b] := node; }
      InsertAt(t, e);
      assert Contents() == t[..n] + [e] + t[n..];
      forall c: nat | c < numBuckets ensures HeadRight(c) {
        assert old@before(HeadRight(c));
        HeadKept(old@before(nodes), n, node, c, old@before(heads[c]));
      }
    }

    /** The first node of a bucket after a node has been inserted behind its own kind. */
    lemma HeadKept(s: seq<Node<K, V>>, n: nat, node: Node<K, V>, c: nat, head: Node?<K, V>)
      requires n <= |s| && nodes == s[..n] + [node] + s[n..] && c < heads.Length && IsFirst(head, s, c)
      requires heads[c] == if head == null && node.hash == c then node else head
      requires head != null && node.hash == c ==> n > 0 && s[n - 1].hash == c
      ensures HeadRight(c)
    {
      if head != null {
        var f :| 0 <= f < |s| && s[f] == head && s[f].hash == c && forall i :: 0 <= i < f ==> s[i].hash != c;
        var g := if f < n then f else f + 1;
        assert nodes[g] == s[f];
      } else if node.hash == c {
        assert nodes[n] == node;
      }
    }

    /** dictSet. */
    method Set(key: K, value: V)
      requires Valid()
      modifies Repr()
      ensures Valid() && fresh(Repr() - old(Repr()))
      ensures Contents() == TableSpec.Set(old(Contents()), key, value, Bucket(key))
    {
      hide TableSpec.Insert, TableSpec.Set, View, Find, Slot, Threaded, HeadRight, Grouped, DistinctKeys, Contents;
      ghost var t := Contents();
      ghost var at;
      var node;
      node, at := Lookup(key);
      SetIs(t, key, value, Bucket(key));
      if node != null {
        OverwriteKeeps(t, at, value);
        Overwrite(node, value, at);
      } else {
        var ok := Insert(key, value);
      }
    }

    method Overwrite(node: Node<K, V>, value: V, ghost at: nat)
      requires Valid() && at < |nodes| && nodes[at] == node
      requires var t := Contents(); Grouped(t[at := t[at].(value := value)]) && DistinctKeys(t[at := t[at].(value := value)])
      modifies node`data
      ensures Valid() && Contents() == old(Contents()[at := Contents()[at].(value := value)])
    {
      hide Grouped, DistinctKeys, IsFirst, Bucket;
      ghost var t := Contents();
      node.data := value;
      forall i | 0 <= i < |nodes| ensures ThreadedAt(i) { assert old(ThreadedAt(i)); }
      forall b: nat | b < numBuckets ensures HeadRight(b) { assert old(HeadRight(b)); }
      assert Contents() == t[at := t[at].(value := value)];
    }

    /** dictKeys and dictValues: every entry once, in list order. */
    method Entries() returns (keys: seq<K>, values: seq<V>)
      requires Valid()
      ensures |keys| == |values| == |Contents()|
      ensures forall i :: 0 <= i < |keys| ==> keys[i] == Contents()[i].key && values[i] == Contents()[i].value
    {
      keys, values := [], [];
      var node := start;
      while node != null
        invariant |keys| == |values| <= |nodes|
        invariant node == if |keys| < |nodes| then nodes[|keys|] else null
        invariant forall i :: 0 <= i < |keys| ==> keys[i] == nodes[i].key && values[i] == nodes[i].data
        decreases |nodes| - |keys|
      {
        NextOf(|keys|);
        keys, values, node := keys + [node.key], values + [node.data], node.next;
      }
    }

    /** dictDuplicate: a table of its own with the same entries in the same order, the
        values copied by dataCP. */
    method Duplicate(dataCP: V -> V) returns (copy: Dictionary<K, V>)
      requires Valid()
      ensures copy.Valid() && fresh(copy.Repr())
      ensures copy.numBuckets == numBuckets && copy.hashOf == hashOf
      ensures copy.Contents() == CopiedTable(Contents(), dataCP)
    {
      hide Grouped, DistinctKeys, CopiedTable, IsFirst;
      copy := new Dictionary(numBuckets, hashOf);
      ghost var copies;
      forall i | 0 <= i < |nodes| ensures NextRight(nodes, i) { assert ThreadedAt(i); }
      var first;
      first, copies := DuplicateNodes(start, nodes, dataCP);
      copy.Adopt(first, size, copies, this, dataCP);
    }

    /** The copied nodes become those of an empty table. */
    method Adopt(first: Node?<K, V>, count: nat, ghost copies: seq<Node<K, V>>, ghost d: Dictionary<K, V>, dataCP: V -> V)
      requires d.Valid() && d != this && numBuckets == d.numBuckets && hashOf == d.hashOf && heads.Length == numBuckets
      requires heads != d.heads && forall b: nat :: b < numBuckets ==> heads[b] == null
      requires |copies| == |d.nodes| == count && first == if copies == [] then null else copies[0]
      requires forall i, j :: 0 <= i < j < |copies| ==> copies[i] != copies[j]
      requires forall i :: 0 <= i < |copies| ==> CopyOf(copies, d.nodes, i, dataCP)
      modifies this, heads
      ensures Valid() && nodes == copies && Contents() == CopiedTable(d.Contents(), dataCP)
    {
      hide Grouped, DistinctKeys, CopiedTable, IsFirst;
      forall i | 0 <= i < |copies| ensures copies[i].hash < numBuckets && NextRight(copies, i) {
        assert CopyOf(copies, d.nodes, i, dataCP);
      }
      start, size, nodes := first, count, copies;
      FillHeads(this, copies, first);
      CopyIsValid(d, dataCP);
    }

    lemma CopyIsValid(d: Dictionary<K, V>, dataCP: V -> V)
      requires d.Valid() && numBuckets == d.numBuckets && hashOf == d.hashOf && heads.Length == numBuckets
      requires |nodes| == |d.nodes| == size && start == (if nodes == [] then null else nodes[0])
      requires end == if nodes == [] then null else nodes[|nodes| - 1]
      requires forall i, j :: 0 <= i < j < |nodes| ==> nodes[i] != nodes[j]
      requires forall i :: 0 <= i < |nodes| ==> CopyOf(nodes, d.nodes, i, dataCP)
      requires HeadsOf(heads, nodes)
      ensures Valid() && Contents() == CopiedTable(d.Contents(), dataCP)
    {
      forall i | 0 <= i < |nodes| ensures ThreadedAt(i) && nodes[i].hash == Bucket(nodes[i].key) {
        assert CopyOf(nodes, d.nodes, i, dataCP);
      }
      forall i | 0 <= i < |nodes| ensures Contents()[i] == CopiedTable(d.Contents(), dataCP)[i] {
        assert CopyOf(nodes, d.nodes, i, dataCP);
      }
      CopiedKeeps(d.Contents(), dataCP);
      assert Contents() == CopiedTable(d.Contents(), dataCP);
      forall b: nat | b < numBuckets ensures HeadRight(b) {}
    }

    /** A node is the head of its bucket if that has none yet. */
    static method NoteHead(heads: array<Node?<K, V>>, n: Node<K, V>, ghost s: seq<Node<K, V>>)
      requires n.hash < heads.Length && HeadsOf(heads, s)
      modifies heads
      ensures HeadsOf(heads, s + [n])
    {
      hide IsFirst;
      ghost var was := heads[..];
      if heads[n.hash] == null { heads[n.hash] := n; }
      forall b: nat | b < heads.Length ensures IsFirst(heads[b], s + [n], b) {
        assert IsFirst(was[b], s, b);
        assert heads[b] == if was[b] == null && n.hash == b then n else was[b];
        FirstSnoc(was[b], s, n, b);
      }
    }

    /** The loop that finds the end and the bucket heads of the copy. */
    method FillHeads(copy: Dictionary<K, V>, ghost copies: seq<Node<K, V>>, first: Node?<K, V>)
      requires copy.heads.Length == copy.numBuckets && forall b: nat :: b < copy.numBuckets ==> copy.heads[b] == null
      requires first == if copies == [] then null else copies[0]
      requires forall i :: 0 <= i < |copies| ==> copies[i].hash < copy.numBuckets && NextRight(copies, i)
      modifies copy`end, copy.heads
      ensures copy.end == if copies == [] then null else copies[|copies| - 1]
      ensures HeadsOf(copy.heads, copies)
    {
      assert HeadsOf(copy.heads, copies[..0]);
      hide HeadsOf, NextRight;
      var n, prev: Node?<K, V> := first, null;
      ghost var j := 0;
      while n != null
        invariant 0 <= j <= |copies| && n == (if j < |copies| then copies[j] else null)
        invariant prev == if j == 0 then null else copies[j - 1]
        invariant forall i :: 0 <= i < |copies| ==> NextRight(copies, i)
        invariant HeadsOf(copy.heads, copies[..j])
        decreases |copies| - j
      {
        assert copies[..j] + [copies[j]] == copies[..j + 1];
        NextIs(copies, j);
        NoteHead(copy.heads, n, copies[..j]);
        prev, n, j := n, n.next, j + 1;
      }
      assert copies[..j] == copies;
      copy.end := prev;
    }
  }

  /** dictNodeDuplicate: a fresh node for every node behind n, linked both ways. */
  method DuplicateNodes<K, V>(n: Node?<K, V>, ghost nodes: seq<Node<K, V>>, dataCP: V -> V)
    returns (copy: Node?<K, V>, ghost copies: seq<Node<K, V>>)
    requires n == if nodes == [] then null else nodes[0]
    requires forall i :: 0 <= i < |nodes| ==> NextRight(nodes, i)
    ensures |copies| == |nodes| && copy == (if copies == [] then null else copies[0])
    ensures forall i :: 0 <= i < |copies| ==> fresh(copies[i])
    ensures forall i, j :: 0 <= i < j < |copies| ==> copies[i] != copies[j]
    ensures forall i :: 0 <= i < |copies| ==> CopyOf(copies, nodes, i, dataCP)
    decreases |nodes|
  {
    if n == null { return null, []; }
    var node := new Node(n.key, n.hash, dataCP(n.data));
    assert NextRight(nodes, 0);
    forall i | 0 <= i < |nodes[1..]| ensures NextRight(nodes[1..], i) { assert NextRight(nodes, i + 1); }
    ghost var others;
    var next;
    next, others := DuplicateNodes(n.next, nodes[1..], dataCP);
    label before:
    node.next := next;
    if next != null { next.prev := node; }
    copy, copies := node, [node] + others;
    forall i | 0 <= i < |copies| ensures CopyOf(copies, nodes, i, dataCP) {
      if i > 0 {
        assert old@before(CopyOf(others, nodes[1..], i - 1, dataCP));
        assert copies[i] == others[i - 1] && nodes[i] == nodes[1..][i - 1];
      }
    }
  }

  /** A copied node, linked to the copies of its neighbours. */
  ghost predicate CopyOf<K, V>(copies: seq<Node<K, V>>, nodes: seq<Node<K, V>>, i: nat, dataCP: V -> V)
    requires i < |copies| == |nodes|
    reads copies, nodes
  {
    && copies[i].key == nodes[i].key && copies[i].hash == nodes[i].hash && copies[i].data == dataCP(nodes[i].data)
    && copies[i].next == (if i + 1 < |copies| then copies[i + 1] else null)
    && copies[i].prev == (if i > 0 then copies[i - 1] else null)
  }

  ghost function CopiedTable<K, V>(t: Table<K, V>, dataCP: V -> V): Table<K, V>
  {
    seq(|t|, i requires 0 <= i < |t| => t[i].(value := dataCP(t[i].value)))
  }

  lemma CopiedKeeps<K, V>(t: Table<K, V>, dataCP: V -> V)
    requires Grouped(t) && DistinctKeys(t)
    ensures Grouped(CopiedTable(t, dataCP)) && DistinctKeys(CopiedTable(t, dataCP))
  {
  }

  lemma FirstSnoc<K, V>(head: Node?<K, V>, s: seq<Node<K, V>>, node: Node<K, V>, b: nat)
    requires IsFirst(head, s, b)
    ensures IsFirst(if head == null && node.hash == b then node else head, s + [node], b)
  {
    if head != null {
      var f :| 0 <= f < |s| && s[f] == head && s[f].hash == b && forall i :: 0 <= i < f ==> s[i].hash != b;
      assert (s + [node])[f] == head;
    } else if node.hash == b {
      assert (s + [node])[|s|] == node;
    }
  }

  /** Behind the nodes of a bucket there is no key of that bucket. */
  lemma BehindRun<K, V>(t: Table<K, V>, key: K, b: nat, at: nat)
    requires Grouped(t) && at < |t| && t[at].bucket != b
    requires exists f :: 0 <= f <= at && t[f].bucket == b
    ensures forall i :: at <= i < |t| ==> t[i].bucket != b
  {
    var f :| 0 <= f <= at && t[f].bucket == b;
  }

  lemma {:induction false} FindIs<K, V>(t: Table<K, V>, key: K, at: nat)
    requires at <= |t| && (forall i :: 0 <= i < at ==> t[i].key != key) && (at < |t| ==> t[at].key == key)
    ensures Find(t, key) == at
  {
    if at > 0 { FindIs(t[1..], key, at - 1); }
  }

  /** What setting does, by whether the key is found. */
  lemma SetIs<K, V>(t: Table<K, V>, key: K, value: V, b: nat)
    ensures Find(t, key) <= |t|
    ensures key in View(t) <==> Find(t, key) < |t|
    ensures TableSpec.Set(t, key, value, b)
         == var at := Find(t, key); if at < |t| then t[at := t[at].(value := value)] else TableSpec.Insert(t, Entry(key, value, b))
  {
    hide TableSpec.Insert, View, Find;
    ViewGet(t, key);
  }

  lemma InsertAt<K, V>(t: Table<K, V>, e: Entry<K, V>)
    ensures var n := Slot(t, e.bucket); TableSpec.Insert(t, e) == t[..n] + [e] + t[n..]
  {
    hide Slot;
  }

  lemma OverwriteKeeps<K, V>(t: Table<K, V>, at: nat, value: V)
    requires Grouped(t) && DistinctKeys(t) && at < |t|
    ensures Grouped(t[at := t[at].(value := value)]) && DistinctKeys(t[at := t[at].(value := value)])
  {
  }

  /** A new entry keeps the table grouped and its keys distinct. */
  lemma InsertPlan<K, V>(t: Table<K, V>, e: Entry<K, V>, n: nat)
    requires Grouped(t) && DistinctKeys(t) && n <= |t| && e.key !in View(t)
    requires if n > 0 && t[n - 1].bucket == e.bucket then n == |t| || t[n].bucket != e.bucket
             else n == |t| && forall i :: 0 <= i < |t| ==> t[i].bucket != e.bucket
    ensures n == Slot(t, e.bucket) && Grouped(TableSpec.Insert(t, e)) && DistinctKeys(TableSpec.Insert(t, e))
  {
    hide Grouped, DistinctKeys, TableSpec.Insert, View, Find, Slot;
    SlotIs(t, e.bucket, n);
    InsertGrouped(t, e);
    ViewGet(t, e.key);
    InsertView(t, e);
  }

  /** The slot of a bucket is behind its last node, or at the end. */
  lemma SlotIs<K, V>(t: Table<K, V>, b: nat, n: nat)
    requires Grouped(t) && n <= |t|
    requires if n > 0 && t[n - 1].bucket == b then n == |t| || t[n].bucket != b
             else n == |t| && forall i :: 0 <= i < |t| ==> t[i].bucket != b
    ensures Slot(t, b) == n
  {
    hide Grouped, Slot;
    SlotRun(t, b);
    var s := Slot(t, b);
    if n > 0 && t[n - 1].bucket == b {
      if n < s { Between(t, n - 1, n, s - 1); }
    }
  }
}
