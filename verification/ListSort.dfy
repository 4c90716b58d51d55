/** Singly linked lists and their in-place merge sort (util/list.c). */
module ListSort {
  class Node<V> {
    const value: V
    var next: Node?<V>

    constructor (value: V)
      ensures this.value == value && next == null
    {
      this.value, next := value, null;
    }
  }

  // ----- what sorting means -----

  function Merge<T>(a: seq<T>, b: seq<T>, le: (T, T) -> bool): seq<T>
    decreases |a| + |b|
  {
    if a == [] then b
    else if b == [] then a
    else if le(a[0], b[0]) then [a[0]] + Merge(a[1..], b, le)
    else [b[0]] + Merge(a, b[1..], le)
  }

  /** The list as the algorithm sorts it. */
  function Sort<T>(s: seq<T>, le: (T, T) -> bool): seq<T>
    decreases |s|
  {
    if |s| / 2 < 1 then s else Merge(Sort(s[..|s| / 2], le), Sort(s[|s| / 2..], le), le)
  }

  /** le is a total preorder on the elements of s. */
  ghost predicate Preorder<T>(s: seq<T>, le: (T, T) -> bool)
  {
    && (forall x, y :: x in s && y in s ==> le(x, y) || le(y, x))
    && forall x, y, z :: x in s && y in s && z in s && le(x, y) && le(y, z) ==> le(x, z)
  }

  predicate Sorted<T>(s: seq<T>, le: (T, T) -> bool)
  {
    forall i, j :: 0 <= i < j < |s| ==> le(s[i], s[j])
  }

  /** The elements that are equivalent to v, in order. */
  function Class<T>(s: seq<T>, v: T, le: (T, T) -> bool): seq<T>
  {
    if s == [] then [] else (if le(s[0], v) && le(v, s[0]) then [s[0]] else []) + Class(s[1..], v, le)
  }

  lemma ClassFirst<T>(s: seq<T>, v: T, le: (T, T) -> bool)
    requires s != []
    ensures Class(s, v, le) == (if le(s[0], v) && le(v, s[0]) then [s[0]] else []) + Class(s[1..], v, le)
  {
  }

  lemma {:induction false} ClassAppend<T>(a: seq<T>, b: seq<T>, v: T, le: (T, T) -> bool)
    ensures Class(a + b, v, le) == Class(a, v, le) + Class(b, v, le)
  {
    hide *;
    if a == [] {
      NoClass<T>(v, le);
      assert a + b == b && [] + Class(b, v, le) == Class(b, v, le);
    } else {
      ClassFirst(a, v, le);
      ClassCons(a[0], a[1..] + b, v, le);
      HeadTail(a, b);
      ClassAppend(a[1..], b, v, le);
      Associative(if le(a[0], v) && le(v, a[0]) then [a[0]] else [], Class(a[1..], v, le), Class(b, v, le));
    }
  }

  lemma NoClass<T>(v: T, le: (T, T) -> bool)
    ensures Class([], v, le) == []
  {
  }

  lemma HeadTail<T>(a: seq<T>, b: seq<T>)
    requires a != []
    ensures a + b == [a[0]] + (a[1..] + b)
  {
  }

  lemma Associative<T>(a: seq<T>, b: seq<T>, c: seq<T>)
    ensures (a + b) + c == a + (b + c)
  {
  }

  lemma {:induction false} ClassEmpty<T>(s: seq<T>, v: T, le: (T, T) -> bool)
    requires forall x :: x in s ==> !(le(x, v) && le(v, x))
    ensures Class(s, v, le) == []
  {
    if s != [] { ClassEmpty(s[1..], v, le); }
  }

  lemma {:induction false} MergeElements<T>(a: seq<T>, b: seq<T>, le: (T, T) -> bool)
    ensures multiset(Merge(a, b, le)) == multiset(a) + multiset(b)
    ensures forall x :: x in Merge(a, b, le) <==> x in a || x in b
    decreases |a| + |b|
  {
    if a != [] && b != [] {
      assert a == [a[0]] + a[1..] && b == [b[0]] + b[1..];
      if le(a[0], b[0]) { MergeElements(a[1..], b, le); } else { MergeElements(a, b[1..], le); }
    }
  }

  lemma MergeMember<T>(a: seq<T>, b: seq<T>, le: (T, T) -> bool, x: T)
    ensures x in Merge(a, b, le) <==> x in a || x in b
  {
    hide Merge;
    MergeElements(a, b, le);
  }

  lemma {:induction false} MergeSorted<T>(a: seq<T>, b: seq<T>, le: (T, T) -> bool)
    requires Preorder(a + b, le) && Sorted(a, le) && Sorted(b, le)
    ensures Sorted(Merge(a, b, le), le)
    decreases |a| + |b|
  {
    if a != [] && b != [] {
      var (a', b') := if le(a[0], b[0]) then (a[1..], b) else (a, b[1..]);
      var x := if le(a[0], b[0]) then a[0] else b[0];
      assert forall y :: y in a' + b' ==> y in a + b;
      MergeSorted(a', b', le);
      forall y | y in Merge(a', b', le) ensures le(x, y) {
        MergeMember(a', b', le, y);
        assert y in a || y in b;
        Least(a, b, le, x, y);
      }
    }
  }

  lemma Least<T>(a: seq<T>, b: seq<T>, le: (T, T) -> bool, x: T, y: T)
    requires a != [] && b != [] && Preorder(a + b, le) && Sorted(a, le) && Sorted(b, le)
    requires x == (if le(a[0], b[0]) then a[0] else b[0]) && (y in a || y in b)
    ensures le(x, y)
  {
    assert a[0] in a + b && b[0] in a + b && y in a + b;
    assert le(a[0], a[0]) && le(b[0], b[0]);
    if y in a {
      var i :| 0 <= i < |a| && a[i] == y;
      assert le(a[0], y);
    } else {
      var i :| 0 <= i < |b| && b[i] == y;
      assert le(b[0], y);
    }
  }

  /** Merging keeps equivalent elements in order, those of the first list in front. */
  lemma {:induction false} MergeStable<T>(a: seq<T>, b: seq<T>, v: T, le: (T, T) -> bool)
    requires Preorder(a + b + [v], le) && Sorted(a, le) && Sorted(b, le)
    ensures Class(Merge(a, b, le), v, le) == Class(a, v, le) + Class(b, v, le)
    decreases |a| + |b|
  {
    hide *;
    if a == [] || b == [] {
      MergeOne(a, b, v, le);
    } else if le(a[0], b[0]) {
      Rest(a, b, v, le, true);
      MergeStable(a[1..], b, v, le);
      MergeTakes(a, b, le);
      ClassCons(a[0], Merge(a[1..], b, le), v, le);
      ClassFirst(a, v, le);
    } else {
      Rest(a, b, v, le, false);
      MergeStable(a, b[1..], v, le);
      MergeTakes(a, b, le);
      ClassCons(b[0], Merge(a, b[1..], le), v, le);
      ClassFirst(b, v, le);
      if le(b[0], v) && le(v, b[0]) {
        forall x | x in a ensures !(le(x, v) && le(v, x)) { Above(a, b, v, le, x); }
        ClassEmpty(a, v, le);
      }
    }
  }

  lemma MergeOne<T>(a: seq<T>, b: seq<T>, v: T, le: (T, T) -> bool)
    requires a == [] || b == []
    ensures Class(Merge(a, b, le), v, le) == Class(a, v, le) + Class(b, v, le)
  {
    assert Class([], v, le) == [];
  }

  lemma MergeTakes<T>(a: seq<T>, b: seq<T>, le: (T, T) -> bool)
    requires a != [] && b != []
    ensures Merge(a, b, le) == if le(a[0], b[0]) then [a[0]] + Merge(a[1..], b, le) else [b[0]] + Merge(a, b[1..], le)
  {
  }

  lemma ClassCons<T>(x: T, rest: seq<T>, v: T, le: (T, T) -> bool)
    ensures Class([x] + rest, v, le) == (if le(x, v) && le(v, x) then [x] else []) + Class(rest, v, le)
  {
    assert ([x] + rest)[1..] == rest;
  }

  /** What holds of two lists holds without the first element of one. */
  lemma Rest<T>(a: seq<T>, b: seq<T>, v: T, le: (T, T) -> bool, first: bool)
    requires Preorder(a + b + [v], le) && Sorted(a, le) && Sorted(b, le) && a != [] && b != []
    ensures var (a', b') := if first then (a[1..], b) else (a, b[1..]);
            Preorder(a' + b' + [v], le) && Sorted(a', le) && Sorted(b', le)
  {
    var (a', b') := if first then (a[1..], b) else (a, b[1..]);
    assert forall y :: y in a' + b' + [v] ==> y in a + b + [v];
  }

  /** All of a is strictly above the first of b, which is equivalent to v. */
  lemma Above<T>(a: seq<T>, b: seq<T>, v: T, le: (T, T) -> bool, x: T)
    requires Preorder(a + b + [v], le) && Sorted(a, le) && a != [] && b != [] && x in a
    requires !le(a[0], b[0]) && le(v, b[0])
    ensures !le(x, v)
  {
    var i :| 0 <= i < |a| && a[i] == x;
    assert a[0] in a + b + [v] && x in a + b + [v] && b[0] in a + b + [v] && v in a + b + [v];
    assert le(a[0], x);
  }

  lemma Halves<T>(s: seq<T>, le: (T, T) -> bool)
    requires |s| / 2 >= 1
    ensures var (a, b) := (s[..|s| / 2], s[|s| / 2..]); a + b == s && 0 < |a| < |s| && 0 < |b| < |s|
  {
  }

  /** Sorting loses and adds nothing, whatever le is. */
  lemma {:induction false} SortElements<T>(s: seq<T>, le: (T, T) -> bool)
    ensures multiset(Sort(s, le)) == multiset(s)
    ensures forall x :: x in Sort(s, le) <==> x in s
    decreases |s|
  {
    if |s| / 2 >= 1 {
      var (a, b) := (s[..|s| / 2], s[|s| / 2..]);
      Halves(s, le);
      SortElements(a, le);
      SortElements(b, le);
      MergeElements(Sort(a, le), Sort(b, le), le);
      assert multiset(a + b) == multiset(a) + multiset(b);
    }
  }

  lemma SortMember<T>(s: seq<T>, le: (T, T) -> bool, x: T)
    ensures x in Sort(s, le) <==> x in s
  {
    hide Sort;
    SortElements(s, le);
  }

  lemma SortMerged<T>(a: seq<T>, b: seq<T>, le: (T, T) -> bool)
    requires Preorder(a + b, le) && Sorted(Sort(a, le), le) && Sorted(Sort(b, le), le)
    ensures Sorted(Merge(Sort(a, le), Sort(b, le), le), le)
  {
    hide Sort, Sorted, Merge;
    forall y | y in Sort(a, le) + Sort(b, le) ensures y in a + b {
      SortMember(a, le, y);
      SortMember(b, le, y);
    }
    MergeSorted(Sort(a, le), Sort(b, le), le);
  }

  lemma SortUnfold<T>(s: seq<T>, le: (T, T) -> bool)
    requires |s| / 2 >= 1
    ensures Sort(s, le) == Merge(Sort(s[..|s| / 2], le), Sort(s[|s| / 2..], le), le)
  {
  }

  /** With a total preorder the result is sorted. */
  lemma {:induction false} SortSorted<T>(s: seq<T>, le: (T, T) -> bool)
    requires Preorder(s, le)
    ensures Sorted(Sort(s, le), le)
    decreases |s|
  {
    if |s| / 2 >= 1 {
      var (a, b) := (s[..|s| / 2], s[|s| / 2..]);
      Halves(s, le);
      Part(s, a, b, le);
      SortSorted(a, le);
      SortSorted(b, le);
      SortUnfold(s, le);
      hide *;
      SortMerged(a, b, le);
    }
  }

  lemma Part<T>(s: seq<T>, a: seq<T>, b: seq<T>, le: (T, T) -> bool)
    requires Preorder(s, le) && (forall y :: y in a || y in b ==> y in s)
    ensures Preorder(a, le) && Preorder(b, le) && Preorder(a + b, le)
  {
  }

  lemma MergedStable<T>(a: seq<T>, b: seq<T>, v: T, le: (T, T) -> bool)
    requires Preorder(a + b + [v], le)
    ensures Class(Merge(Sort(a, le), Sort(b, le), le), v, le) == Class(Sort(a, le), v, le) + Class(Sort(b, le), v, le)
  {
    hide Sort, Merge, Class, Preorder, Sorted;
    var all := a + b + [v];
    Part(all, a, b, le);
    SortSorted(a, le);
    SortSorted(b, le);
    SortElements(a, le);
    SortElements(b, le);
    Part(all, Sort(a, le) + Sort(b, le) + [v], [], le);
    MergeStable(Sort(a, le), Sort(b, le), v, le);
  }

  /** ... in which equivalent elements keep their order. */
  lemma {:induction false} SortStable<T>(s: seq<T>, v: T, le: (T, T) -> bool)
    requires Preorder(s + [v], le)
    ensures Class(Sort(s, le), v, le) == Class(s, v, le)
    decreases |s|
  {
    if |s| / 2 >= 1 {
      var (a, b) := (s[..|s| / 2], s[|s| / 2..]);
      Halves(s, le);
      SortUnfold(s, le);
      hide *;
      Part(s + [v], a + [v], b + [v], le);
      SortStable(a, v, le);
      SortStable(b, v, le);
      MergedStable(a, b, v, le);
      ClassAppend(a, b, v, le);
    }
  }

  // ----- lists in memory -----

  predicate Distinct<V>(s: seq<Node<V>>) { forall i, j :: 0 <= i < j < |s| ==> s[i] != s[j] }

  /** Every node but the last refers to the one behind it. */
  ghost predicate Linked<V>(s: seq<Node<V>>)
    reads s
  {
    Distinct(s) && forall i :: 0 <= i < |s| - 1 ==> s[i].next == s[i + 1]
  }

  ghost predicate IsList<V>(head: Node?<V>, s: seq<Node<V>>)
    reads s
  {
    Linked(s) && head == Head(s) && (s != [] ==> s[|s| - 1].next == null)
  }

  twostate lemma ListKept<V>(s: seq<Node<V>>)
    requires old(IsList(Head(s), s)) && forall x :: x in s ==> x.next == old(x.next)
    ensures IsList(Head(s), s)
  {
    forall i | 0 <= i < |s| ensures s[i].next == if i < |s| - 1 then s[i + 1] else null {
      assert s[i] in s && (i < |s| - 1 ==> old(s[i].next) == s[i + 1]);
    }
  }

  function Head<V>(s: seq<Node<V>>): Node?<V> { if s == [] then null else s[0] }

  predicate Apart<V>(a: seq<Node<V>>, b: seq<Node<V>>) { forall x :: x in a ==> x !in b }

  method ListLength<V>(lst: Node?<V>, ghost s: seq<Node<V>>) returns (cnt: nat)
    requires IsList(lst, s)
    ensures cnt == |s|
  {
    cnt := 0;
    var li := lst;
    while li != null
      invariant cnt <= |s| && li == if cnt < |s| then s[cnt] else null
      decreases |s| - cnt
    {
      assert cnt < |s| - 1 ==> s[cnt].next == s[cnt + 1];
      li, cnt := li.next, cnt + 1;
    }
  }

  function Le<V>(cmp: (V, V) -> int): (Node<V>, Node<V>) -> bool
  {
    (x: Node<V>, y: Node<V>) => cmp(x.value, y.value) <= 0
  }

  lemma ListTail<V>(a: Node?<V>, s: seq<Node<V>>)
    requires IsList(a, s) && a != null
    ensures s != [] && a == s[0] && a !in s[1..] && IsList(a.next, s[1..])
  {
    assert 0 < |s| - 1 ==> s[0].next == s[0 + 1];
    forall i | 0 <= i < |s[1..]| - 1 ensures s[1..][i].next == s[1..][i + 1] {
      assert s[i + 1].next == s[i + 1 + 1];
    }
  }

  /** What is left of the two lists and what has been merged. */
  ghost predicate Merging<V>(a: Node?<V>, b: Node?<V>, result: Node?<V>, tail: Node?<V>,
                             ra: seq<Node<V>>, rb: seq<Node<V>>, done: seq<Node<V>>)
    reads ra, rb, done
  {
    && IsList(a, ra) && IsList(b, rb) && Linked(done)
    && Apart(ra, rb) && Apart(done, ra) && Apart(done, rb)
    && if done == [] then result == null else result == done[0] && tail == done[|done| - 1]
  }

  predicate Within<V>(s: seq<Node<V>>, all: set<Node<V>>) { forall x :: x in s ==> x in all }

  /** A node goes to the end of the result. */
  method Append<V>(result: Node?<V>, resultTail: Node?<V>, node: Node<V>, a: Node?<V>, b: Node?<V>,
                   ghost ra: seq<Node<V>>, ghost rb: seq<Node<V>>, ghost done: seq<Node<V>>)
    returns (result': Node<V>)
    requires Merging(a, b, result, resultTail, ra, rb, done) && node !in done && node !in ra && node !in rb
    modifies if done == [] then {} else {done[|done| - 1]}
    ensures Merging(a, b, result', node, ra, rb, done + [node])
  {
    if result == null {
      result' := node;
    } else {
      assert resultTail in done;
      resultTail.next := node;
      result' := result;
    }
    ghost var all := done + [node];
    forall i | 0 <= i < |all| - 1 ensures all[i].next == all[i + 1] {
      if i < |done| - 1 { assert done[i] in done && old(done[i].next) == done[i + 1]; }
    }
  }

  /** One step of the merge, which takes a node from the first list given. */
  method TakeFirst<V>(result: Node?<V>, resultTail: Node?<V>, a: Node<V>, b: Node?<V>,
                      ghost ra: seq<Node<V>>, ghost rb: seq<Node<V>>, ghost done: seq<Node<V>>, ghost all: set<Node<V>>)
    returns (rest: Node?<V>, result': Node<V>)
    requires Merging(a, b, result, resultTail, ra, rb, done) && Within(ra, all) && Within(done, all)
    modifies all
    ensures ra != [] && a == ra[0] && Merging(rest, b, result', a, ra[1..], rb, done + [a])
  {
    ListTail(a, ra);
    rest := a.next;
    assert a in ra;
    label before:
    a.next := null;
    forall i | 0 <= i < |done| - 1 ensures done[i].next == done[i + 1] {
      assert done[i] in done && old@before(done[i].next) == done[i + 1];
    }
    if done != [] { assert done[|done| - 1] in done; }
    result' := Append(result, resultTail, a, rest, b, ra[1..], rb, done);
  }

  lemma MergingSwap<V>(a: Node?<V>, b: Node?<V>, result: Node?<V>, tail: Node?<V>,
                       ra: seq<Node<V>>, rb: seq<Node<V>>, done: seq<Node<V>>)
    requires Merging(a, b, result, tail, ra, rb, done)
    ensures Merging(b, a, result, tail, rb, ra, done)
  {
  }

  /** What both lists, and what has been merged, are at one point of the loop. */
  ghost predicate Partly<V>(all: set<Node<V>>, sa: seq<Node<V>>, sb: seq<Node<V>>, le: (Node<V>, Node<V>) -> bool,
                            ra: seq<Node<V>>, rb: seq<Node<V>>, done: seq<Node<V>>)
  {
    && Within(ra, all) && Within(rb, all) && Within(done, all)
    && Merge(sa, sb, le) == done + Merge(ra, rb, le)
    && (ra == [] && rb == [] ==> done == [])
  }

  lemma PartlyStep<V>(all: set<Node<V>>, sa: seq<Node<V>>, sb: seq<Node<V>>, le: (Node<V>, Node<V>) -> bool,
                      ra: seq<Node<V>>, rb: seq<Node<V>>, done: seq<Node<V>>)
    requires Partly(all, sa, sb, le, ra, rb, done) && ra != [] && rb != []
    ensures if le(ra[0], rb[0]) then Partly(all, sa, sb, le, ra[1..], rb, done + [ra[0]])
            else Partly(all, sa, sb, le, ra, rb[1..], done + [rb[0]])
  {
    var next := if le(ra[0], rb[0]) then ra[0] else rb[0];
    var rest := if le(ra[0], rb[0]) then Merge(ra[1..], rb, le) else Merge(ra, rb[1..], le);
    assert Merge(ra, rb, le) == [next] + rest;
    assert done + ([next] + rest) == (done + [next]) + rest;
  }

  /** One turn of the first loop: the smaller of the two first nodes goes to the end of the result. */
  method MergeStep<V>(a: Node<V>, b: Node<V>, cmp: (V, V) -> int, result: Node?<V>, resultTail: Node?<V>,
                      ghost ra: seq<Node<V>>, ghost rb: seq<Node<V>>, ghost done: seq<Node<V>>, ghost all: set<Node<V>>)
    returns (a': Node?<V>, b': Node?<V>, result': Node<V>, next: Node<V>, ghost ra': seq<Node<V>>, ghost rb': seq<Node<V>>)
    requires Merging(a, b, result, resultTail, ra, rb, done) && Within(ra, all) && Within(rb, all) && Within(done, all)
    modifies all
    ensures ra != [] && rb != [] && a == ra[0] && b == rb[0]
    ensures Merging(a', b', result', next, ra', rb', done + [next])
    ensures if cmp(a.value, b.value) <= 0 then next == a && ra' == ra[1..] && rb' == rb
            else next == b && ra' == ra && rb' == rb[1..]
  {
    ListTail(a, ra);
    ListTail(b, rb);
    ra', rb', a', b' := ra, rb, a, b;
    if cmp(a.value, b.value) <= 0 {
      next := a;
      a', result' := TakeFirst(result, resultTail, a, b, ra, rb, done, all);
      ra' := ra[1..];
    } else {
      next := b;
      MergingSwap(a, b, result, resultTail, ra, rb, done);
      b', result' := TakeFirst(result, resultTail, b, a, rb, ra, done, all);
      rb' := rb[1..];
      MergingSwap(b', a, result', next, rb', ra, done + [next]);
    }
  }

  lemma PartlyStart<V>(all: set<Node<V>>, sa: seq<Node<V>>, sb: seq<Node<V>>, le: (Node<V>, Node<V>) -> bool)
    requires Within(sa, all) && Within(sb, all)
    ensures Partly(all, sa, sb, le, sa, sb, [])
  {
  }

  /** With one list at its end the rest of the other one is what is missing. */
  lemma PartlyEnd<V>(all: set<Node<V>>, sa: seq<Node<V>>, sb: seq<Node<V>>, le: (Node<V>, Node<V>) -> bool,
                     ra: seq<Node<V>>, rb: seq<Node<V>>, done: seq<Node<V>>)
    requires Partly(all, sa, sb, le, ra, rb, done) && (ra == [] || rb == [])
    ensures Merge(sa, sb, le) == done + (if rb == [] then ra else rb)
    ensures ra == [] && rb == [] ==> Merge(sa, sb, le) == []
  {
  }

  /** What a step of the loop needs to know of where the nodes are. */
  lemma PartlyWithin<V>(all: set<Node<V>>, sa: seq<Node<V>>, sb: seq<Node<V>>, le: (Node<V>, Node<V>) -> bool,
                        ra: seq<Node<V>>, rb: seq<Node<V>>, done: seq<Node<V>>)
    requires Partly(all, sa, sb, le, ra, rb, done)
    ensures Within(ra, all) && Within(rb, all) && Within(done, all)
  {
  }

  /** mergeSortedLists: the nodes of both lists are relinked. */
  method MergeSortedLists<V>(a0: Node?<V>, b0: Node?<V>, cmp: (V, V) -> int,
                             ghost sa: seq<Node<V>>, ghost sb: seq<Node<V>>, ghost all: set<Node<V>>)
    returns (result: Node?<V>)
    requires IsList(a0, sa) && IsList(b0, sb) && Apart(sa, sb) && Within(sa, all) && Within(sb, all)
    modifies all
    ensures IsList(result, Merge(sa, sb, Le(cmp)))
  {
    hide Partly, Within, Merge;
    ghost var le := Le(cmp);
    var a, b := a0, b0;
    var resultTail: Node?<V> := null;
    result := null;
    ghost var ra, rb := sa, sb;
    ghost var done: seq<Node<V>> := [];
    PartlyStart(all, sa, sb, le);
    while a != null && b != null
      invariant Merging(a, b, result, resultTail, ra, rb, done) && Partly(all, sa, sb, le, ra, rb, done)
      decreases |ra| + |rb|
    {
      PartlyWithin(all, sa, sb, le, ra, rb, done);
      ghost var ra1, rb1 := ra, rb;
      a, b, result, resultTail, ra, rb := MergeStep(a, b, cmp, result, resultTail, ra, rb, done, all);
      PartlyStep(all, sa, sb, le, ra1, rb1, done);
      done := done + [resultTail];
    }
    PartlyWithin(all, sa, sb, le, ra, rb, done);
    PartlyEnd(all, sa, sb, le, ra, rb, done);
    if a != null {
      result := TakeRest(result, resultTail, a, done, ra, all);
    } else if b != null {
      MergingSwap(a, b, result, resultTail, ra, rb, done);
      result := TakeRest(result, resultTail, b, done, rb, all);
    }
  }

  /** The loops for what is left of one list. */
  method TakeRest<V>(result0: Node?<V>, tail0: Node?<V>, a0: Node<V>,
                     ghost done0: seq<Node<V>>, ghost ra0: seq<Node<V>>, ghost all: set<Node<V>>)
    returns (result: Node?<V>)
    requires Merging(a0, null, result0, tail0, ra0, [], done0) && Within(done0, all) && Within(ra0, all)
    modifies all
    ensures IsList(result, done0 + ra0)
  {
    var tail, a: Node?<V> := tail0, a0;
    result := result0;
    ghost var done, ra := done0, ra0;
    while a != null
      invariant Merging(a, null, result, tail, ra, [], done)
      invariant done + ra == done0 + ra0 && Within(done, all) && Within(ra, all)
      invariant a == null ==> done != [] && tail.next == null
      decreases |ra|
    {
      ListTail(a, ra);
      ghost var node: Node<V> := a;
      if done != [] { assert done[|done| - 1] in done; }
      assert node in ra;
      assert Merging(a.next, null, result, tail, ra[1..], [], done);
      result := Append(result, tail, a, a.next, null, ra[1..], [], done);
      tail := a;
      assert done + ra == (done + [node]) + ra[1..];
      done, ra := done + [node], ra[1..];
      a := a.next;
    }
    assert done == done0 + ra0;
  }

  /** The link of one node when the list is cut before position n. */
  ghost predicate CutAt<V>(s: seq<Node<V>>, n: nat, i: nat)
    requires i < |s|
    reads s[i]
  {
    s[i].next == if i + 1 == n || i == |s| - 1 then null else s[i + 1]
  }

  /** Where a list is cut in two. */
  lemma Cut<V>(s: seq<Node<V>>, n: nat)
    requires 0 < n < |s| && Distinct(s)
    requires forall i: nat :: i < |s| ==> CutAt(s, n, i)
    ensures IsList(s[0], s[..n]) && IsList(s[n], s[n..]) && Apart(s[..n], s[n..])
  {
    var (a, b) := (s[..n], s[n..]);
    assert CutAt(s, n, |s| - 1) && CutAt(s, n, n - 1);
    forall i: nat | i < |b| ensures b[i].next == if i == |b| - 1 then null else b[i + 1] { assert CutAt(s, n, n + i); }
    forall i: nat | i < |a| ensures a[i].next == if i == |a| - 1 then null else a[i + 1] { assert CutAt(s, n, i); }
  }

  /** The node in the middle and the one before it. */
  method Middle<V>(lst: Node<V>, halflen: nat, ghost s: seq<Node<V>>) returns (middle: Node<V>, beforeMiddle: Node<V>)
    requires IsList(lst, s) && 0 < halflen < |s|
    ensures middle == s[halflen] && beforeMiddle == s[halflen - 1]
  {
    var before: Node?<V> := null;
    middle := lst;
    for i := 0 to halflen
      invariant middle == s[i] && (i > 0 ==> before == s[i - 1])
    {
      assert s[i].next == s[i + 1];
      before, middle := middle, middle.next;
    }
    beforeMiddle := before;
  }

  /** The list becomes two. */
  method Halve<V>(lst: Node<V>, halflen: nat, ghost s: seq<Node<V>>) returns (middle: Node<V>)
    requires IsList(lst, s) && 0 < halflen < |s|
    modifies s
    ensures IsList(lst, s[..halflen]) && IsList(middle, s[halflen..]) && Apart(s[..halflen], s[halflen..])
  {
    var beforeMiddle: Node<V>;
    middle, beforeMiddle := Middle(lst, halflen, s);
    assert s[halflen - 1] in s;
    label before:
    beforeMiddle.next := null;
    forall i: nat | i < |s| ensures CutAt(s, halflen, i) {
      assert i < |s| - 1 ==> old@before(s[i].next) == s[i + 1];
    }
    Cut(s, halflen);
  }

  lemma SortedApart<V>(s: seq<Node<V>>, a: seq<Node<V>>, b: seq<Node<V>>, le: (Node<V>, Node<V>) -> bool)
    requires Apart(a, b) && a + b == s
    ensures Apart(Sort(a, le), b) && Apart(Sort(a, le), Sort(b, le))
    ensures var all := set x | x in s;
      Within(a, all) && Within(b, all) && Within(Sort(a, le), all) && Within(Sort(b, le), all)
  {
    hide Sort;
    forall x | x in Sort(a, le) ensures x in a && x !in b && x !in Sort(b, le) && x in s {
      SortMember(a, le, x);
      SortMember(b, le, x);
    }
    forall x | x in Sort(b, le) ensures x in s { SortMember(b, le, x); }
    forall x | x in a || x in b ensures x in s { assert x in a + b; }
  }

  /** sortList. */
  method SortList<V>(lst: Node?<V>, cmp: (V, V) -> int, ghost s: seq<Node<V>>) returns (result: Node?<V>)
    requires IsList(lst, s)
    modifies s
    ensures IsList(result, Sort(s, Le(cmp)))
    decreases |s|, 1
  {
    hide Sort, Merge, Apart, Le, Within;
    var length := ListLength(lst, s);
    var halflen := length / 2;
    if halflen < 1 {
      SortShort(s, Le(cmp));
      return lst;
    }
    var middle := Halve(lst, halflen, s);
    ghost var le, all := Le(cmp), set x | x in s;
    ghost var sa, sb := s[..halflen], s[halflen..];
    SortedApart(s, sa, sb, le);
    SortUnfold(s, le);
    var a, b := SortHalves(lst, middle, cmp, sa, sb, all);
    result := MergeSortedLists(a, b, cmp, Sort(sa, le), Sort(sb, le), all);
  }

  method SortHalves<V>(lst: Node?<V>, middle: Node?<V>, cmp: (V, V) -> int,
                       ghost sa: seq<Node<V>>, ghost sb: seq<Node<V>>, ghost all: set<Node<V>>)
    returns (a: Node?<V>, b: Node?<V>)
    requires sa != [] && sb != [] && IsList(lst, sa) && IsList(middle, sb) && Apart(sa, sb) && Within(sa, all) && Within(sb, all)
    modifies all
    ensures IsList(a, Sort(sa, Le(cmp))) && IsList(b, Sort(sb, Le(cmp)))
    decreases |sa| + |sb|, 0
  {
    hide Sort, Linked;
    label first:
    a := SortList(lst, cmp, sa);
    ListKept@first(sb);
    label second:
    b := SortList(middle, cmp, sb);
    SortedApart(sa + sb, sa, sb, Le(cmp));
    ListKept@second(Sort(sa, Le(cmp)));
  }

  lemma SortShort<T>(s: seq<T>, le: (T, T) -> bool)
    requires |s| / 2 < 1
    ensures Sort(s, le) == s
  {
  }

  // ----- concatenation -----

  ghost predicate Ended<V>(end: Node?<V>, s: seq<Node<V>>) { end == null || (s != [] && end == s[|s| - 1]) }

  lemma LinkAt<V>(s: seq<Node<V>>, i: nat)
    requires i < |s| - 1 && Linked(s)
    ensures s[i].next == s[i + 1]
  {
  }

  /** The last node of a list. */
  method LastOf<V>(lst: Node<V>, ghost s: seq<Node<V>>) returns (end: Node<V>)
    requires IsList(lst, s)
    ensures s != [] && end == s[|s| - 1]
  {
    end := lst;
    ghost var i := 0;
    while end.next != null
      invariant i < |s| && end == s[i]
      decreases |s| - i
    {
      assert i < |s| - 1 ==> s[i].next == s[i + 1];
      end, i := end.next, i + 1;
    }
    if i < |s| - 1 { LinkAt(s, i); assert false; }
  }

  /** Of a first list whose end is not given only the first node is kept: the search for its
      end walks along the second list. */
  function KeptOf<V>(end: Node?<V>, s: seq<Node<V>>): seq<Node<V>> {
    if s != [] && end == null then s[..1] else s
  }

  lemma Joined<V>(a: seq<Node<V>>, b: seq<Node<V>>)
    requires a != [] && b != [] && Linked(a) && IsList(b[0], b) && Apart(a, b) && a[|a| - 1].next == b[0]
    ensures IsList(a[0], a + b)
  {
    var all := a + b;
    forall i | 0 <= i < |all| - 1 ensures all[i].next == all[i + 1] {
      if i < |a| - 1 { assert a[i].next == a[i + 1]; }
      if i >= |a| { assert b[i - |a|].next == b[i - |a| + 1]; }
    }
    forall i, j | 0 <= i < j < |all| ensures all[i] != all[j] {
      if i < |a| <= j { assert a[i] in a && b[j - |a|] in b; }
    }
  }

  /** concatLists. */
  method ConcatLists<V>(start1: Node?<V>, end1: Node?<V>, start2: Node?<V>, end2: Node?<V>,
                        ghost s1: seq<Node<V>>, ghost s2: seq<Node<V>>) returns (start: Node?<V>, end: Node?<V>)
    requires IsList(start1, s1) && IsList(start2, s2) && Apart(s1, s2) && Ended(end1, s1) && Ended(end2, s2)
    requires s1 != [] && end1 == null ==> end2 != null
    modifies s1
    ensures var all := KeptOf(end1, s1) + s2;
      IsList(start, all) && end == if all == [] then null else all[|all| - 1]
  {
    if start1 == null && start2 == null { return null, null; }
    var last1, last2 := end1, end2;
    // the search that starts here walks along the second list, whose given end has no successor
    if start1 != null && end1 == null { last1 := start1; }
    if start2 != null && end2 == null { last2 := LastOf(start2, s2); }
    if start1 == null {
      assert KeptOf(end1, s1) + s2 == s2;
      return start2, last2;
    }
    if start2 == null {
      assert KeptOf(end1, s1) + s2 == s1;
      return start1, last1;
    }
    ghost var kept := KeptOf(end1, s1);
    assert last1 in s1;
    label before:
    last1.next := start2;
    forall i | 0 <= i < |kept| - 1 ensures kept[i].next == kept[i + 1] {
      assert old@before(s1[i].next) == s1[i + 1];
    }
    ListKept@before(s2);
    Joined(kept, s2);
    return start1, last2;
  }

  /** Nothing is lost exactly when the end is given or the list has at most one node. */
  lemma ConcatKeepsIff<V>(end1: Node?<V>, s1: seq<Node<V>>, s2: seq<Node<V>>)
    requires Ended(end1, s1)
    ensures KeptOf(end1, s1) + s2 == s1 + s2 <==> end1 != null || |s1| <= 1
  {
    if end1 == null && |s1| > 1 { assert |KeptOf(end1, s1) + s2| < |s1 + s2|; }
  }
}
