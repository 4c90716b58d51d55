/** The action table of an exception handling table (exceptTable.c): records that are
    chained by self-relative displacements.  The writer lays chains out one behind
    the other and jumps back to records it has written; the reader follows the
    chains of the call sites and numbers records as it meets them. */
module ActionTable {
  import opened Bytes
  import opened Leb
  import opened LebWords
  import opened Registers
  import opened Expressions
  import opened Cfa

  /** filter is an index into the type table, or -1 for a catch-all. */
  datatype Action = Action(filter: int, next: Option<nat>)

  type Actions = seq<Action>

  predicate Valid(actions: Actions)
  {
    forall i :: 0 <= i < |actions| ==>
      -1 <= actions[i].filter < HALF_WORD / 2 - 1 && (actions[i].next.Some? ==> actions[i].next.value < |actions|)
  }

  // ----- writing -----

  /** actionBuf and actionIdxToOffset, and which records have been written in which
      order.  The source takes an offset of zero to mean that a record has not been
      written, except for record zero, which always comes first. */
  datatype Written = Written(bytes: seq<byte>, offset: seq<nat>, order: seq<nat>)

  function Filter(a: Action): seq<byte>
    requires a.filter >= -1
  {
    Uleb(a.filter + 1)
  }

  /** The records that still have offset zero and are not record zero. */
  function Unwritten(offset: seq<nat>): set<nat>
  {
    set i: nat | i < |offset| && offset[i] == 0 && i != 0
  }

  /** What WriteChain is called with: a record that has not been written; record
      zero only at the very start. */
  predicate Ready(actions: Actions, idx: nat, w: Written)
  {
    && Valid(actions) && idx < |actions| && |w.offset| == |actions| && w.offset[idx] == 0
    && (idx == 0 <==> w.bytes == [])
  }

  /** One turn of the inner loop.  A successor that has been written is referred to
      by its displacement; any other is written next, right behind the record. */
  function WriteRecord(actions: Actions, idx: nat, w: Written): (r: Written)
    requires Ready(actions, idx, w)
    ensures |r.offset| == |actions| && r.bytes != []
    ensures r.offset == w.offset[idx := |w.bytes|]
  {
    var offset := w.offset[idx := |w.bytes|];
    var bytes := w.bytes + Filter(actions[idx]);
    var displacement := match actions[idx].next
      case None => [0]
      case Some(n) => if offset[n] != 0 || n == 0 then Sleb(offset[n] - |bytes|) else [1];
    Written(bytes + displacement, offset, w.order + [idx])
  }

  predicate Forward(actions: Actions, idx: nat, w: Written)
    requires Ready(actions, idx, w)
  {
    actions[idx].next.Some? &&
    var n := actions[idx].next.value; w.offset[idx := |w.bytes|][n] == 0 && n != 0
  }

  /** The inner loop: the chain that starts at idx, up to a record that has been
      written before. */
  function WriteChain(actions: Actions, idx: nat, w: Written): (r: Written)
    requires Ready(actions, idx, w)
    ensures |r.offset| == |actions| && r.bytes != []
    decreases Unwritten(w.offset), if idx == 0 then 1 else 0
  {
    var r := WriteRecord(actions, idx, w);
    if Forward(actions, idx, w) then
      Fewer(actions, idx, w);
      WriteChain(actions, actions[idx].next.value, r)
    else r
  }

  /** Why the inner loop ends on every graph. */
  lemma Fewer(actions: Actions, idx: nat, w: Written)
    requires Ready(actions, idx, w) && Forward(actions, idx, w)
    ensures var r := WriteRecord(actions, idx, w);
            && Ready(actions, actions[idx].next.value, r)
            && Unwritten(r.offset) <= Unwritten(w.offset)
            && (idx != 0 ==> Unwritten(r.offset) < Unwritten(w.offset))
  {
    assert idx != 0 ==> idx in Unwritten(w.offset) && idx !in Unwritten(w.offset[idx := |w.bytes|]);
  }

  /** The outer loop. */
  function WriteFrom(actions: Actions, j: nat, w: Written): (r: Written)
    requires Valid(actions) && j <= |actions| && |w.offset| == |actions| && (j == 0 <==> w.bytes == [])
    requires j == 0 ==> |w.offset| > 0 ==> w.offset[0] == 0
    ensures |r.offset| == |actions|
    decreases |actions| - j
  {
    if j == |actions| then w
    else if w.offset[j] != 0 then WriteFrom(actions, j + 1, w)
    else WriteFrom(actions, j + 1, WriteChain(actions, j, w))
  }

  function Zeros(n: nat): seq<nat> { seq(n, (i: nat) => 0) }

  /** The whole action table of an LSDA. */
  function WriteTable(actions: Actions): (r: Written)
    requires Valid(actions)
    ensures |r.offset| == |actions|
  {
    WriteFrom(actions, 0, Written([], Zeros(|actions|), []))
  }

  // ----- the layout of the table -----

  /** A record when the records start at the given offsets: the displacement counts
      from its own position. */
  function RecBytes(actions: Actions, offset: seq<nat>, i: nat): seq<byte>
    requires Valid(actions) && |offset| == |actions| && i < |actions|
  {
    var a := actions[i];
    Filter(a) + if a.next.None? then [0] else Sleb(offset[a.next.value] - (offset[i] + |Filter(a)|))
  }

  predicate Indices(actions: Actions, order: seq<nat>) { forall k :: 0 <= k < |order| ==> order[k] < |actions| }

  /** The records one behind the other. */
  function Concat(actions: Actions, offset: seq<nat>, order: seq<nat>): seq<byte>
    requires Valid(actions) && |offset| == |actions| && Indices(actions, order)
  {
    if order == [] then []
    else Concat(actions, offset, order[..|order| - 1]) + RecBytes(actions, offset, order[|order| - 1])
  }

  function Place(w: Written, p: Option<nat>): seq<nat>
    requires p.Some? ==> p.value < |w.offset|
  {
    if p.None? then w.offset else w.offset[p.value := |w.bytes|]
  }

  predicate Distinct(order: seq<nat>) { forall i, j :: 0 <= i < j < |order| ==> order[i] != order[j] }

  /** What a state of the writer means, when record p, if any, is to come next: the
      bytes are the records in the order they were written, the offsets are where they
      start, and what they refer to has been written or comes next. */
  ghost predicate Laid(actions: Actions, w: Written, p: Option<nat>)
  {
    && Valid(actions) && |w.offset| == |actions| && Indices(actions, w.order) && Distinct(w.order)
    && (p.Some? ==> p.value < |actions| && p.value !in w.order)
    && Marked(w)
    && w.bytes == Concat(actions, Place(w, p), w.order)
    && (forall k :: 0 <= k < |w.order| ==> Starts(actions, Place(w, p), w.order, k))
    && forall k :: 0 <= k < |w.order| ==> Followed(actions, w.order, p, k)
  }

  /** Offset zero means not written, but for record zero. */
  predicate Marked(w: Written)
  {
    forall i: nat :: i < |w.offset| ==> (i in w.order <==> w.offset[i] != 0 || (i == 0 && w.bytes != []))
  }

  predicate Starts(actions: Actions, offset: seq<nat>, order: seq<nat>, k: nat)
    requires Valid(actions) && |offset| == |actions| && Indices(actions, order) && k < |order|
  {
    offset[order[k]] == |Concat(actions, offset, order[..k])|
  }

  predicate Followed(actions: Actions, order: seq<nat>, p: Option<nat>, k: nat)
    requires Indices(actions, order) && k < |order|
  {
    actions[order[k]].next.Some? ==> actions[order[k]].next.value in order || p == actions[order[k]].next
  }

  /** Offsets of records that are not mentioned do not matter. */
  lemma {:induction false} ConcatFrame(actions: Actions, o: seq<nat>, o': seq<nat>, order: seq<nat>)
    requires Valid(actions) && |o| == |actions| == |o'| && Indices(actions, order)
    requires forall k :: 0 <= k < |order| ==> SameAt(actions, o, o', order[k])
    ensures Concat(actions, o, order) == Concat(actions, o', order)
    decreases |order|
  {
    hide RecBytes; hide SameAt;
    if order != [] {
      ConcatFrame(actions, o, o', order[..|order| - 1]);
      SameRec(actions, o, o', order[|order| - 1]);
    }
  }

  lemma SameRec(actions: Actions, o: seq<nat>, o': seq<nat>, i: nat)
    requires Valid(actions) && |o| == |actions| == |o'| && i < |actions| && SameAt(actions, o, o', i)
    ensures RecBytes(actions, o, i) == RecBytes(actions, o', i)
  {
    hide Filter; hide Sleb; hide Valid;
  }

  predicate SameAt(actions: Actions, o: seq<nat>, o': seq<nat>, i: nat)
    requires Valid(actions) && |o| == |actions| == |o'| && i < |actions|
  {
    o[i] == o'[i] && (actions[i].next.Some? ==> o[actions[i].next.value] == o'[actions[i].next.value])
  }

  /** Naming the record that comes next. */
  lemma Expect(actions: Actions, w: Written, n: nat)
    requires Laid(actions, w, None) && n < |actions| && n !in w.order
    ensures Laid(actions, w, Some(n))
  {
    var o, o' := Place(w, None), Place(w, Some(n));
    forall k | 0 <= k < |w.order| ensures SameAt(actions, o, o', w.order[k]) {
      assert Followed(actions, w.order, None, k);
    }
    ConcatFrame(actions, o, o', w.order);
    forall k | 0 <= k < |w.order| ensures Starts(actions, o', w.order, k) {
      assert Starts(actions, o, w.order, k);
      ConcatFrame(actions, o, o', w.order[..k]);
    }
    forall k | 0 <= k < |w.order| ensures Followed(actions, w.order, Some(n), k) {
      assert Followed(actions, w.order, None, k);
    }
  }

  lemma ConcatSnoc(actions: Actions, offset: seq<nat>, order: seq<nat>, i: nat)
    requires Valid(actions) && |offset| == |actions| && Indices(actions, order) && i < |actions|
    ensures Indices(actions, order + [i])
    ensures Concat(actions, offset, order + [i]) == Concat(actions, offset, order) + RecBytes(actions, offset, i)
  {
    var all := order + [i];
    assert all[..|all| - 1] == order && all[|all| - 1] == i;
  }

  /** Writing a record whose successor is known, or that has none. */
  lemma WriteLast(actions: Actions, idx: nat, w: Written, bytes: seq<byte>)
    requires Ready(actions, idx, w) && Laid(actions, w, Some(idx)) && bytes != []
    requires var offset := w.offset[idx := |w.bytes|];
             && bytes == w.bytes + RecBytes(actions, offset, idx)
             && (actions[idx].next.Some? ==> offset[actions[idx].next.value] != 0 || actions[idx].next.value == 0)
    ensures Laid(actions, Written(bytes, w.offset[idx := |w.bytes|], w.order + [idx]), None)
  {
    var offset, order := w.offset[idx := |w.bytes|], w.order + [idx];
    hide Concat; hide RecBytes; hide Ready; hide Marked; hide Starts; hide Followed; hide Distinct; hide Valid;
    DistinctSnoc(w.order, idx);
    MarkOne(actions, idx, w, bytes);
    ConcatSnoc(actions, offset, w.order, idx);
    StartsSnoc(actions, offset, w.order, idx);
    FollowedSnoc(actions, w.order, idx, None);
  }

  lemma MarkOne(actions: Actions, idx: nat, w: Written, bytes: seq<byte>)
    requires Ready(actions, idx, w) && Marked(w) && idx !in w.order && bytes != []
    ensures Marked(Written(bytes, w.offset[idx := |w.bytes|], w.order + [idx]))
    ensures forall n: nat :: n < |actions| && (w.offset[idx := |w.bytes|][n] != 0 || n == 0) ==> n in w.order + [idx]
  {
  }

  lemma StartsSnoc(actions: Actions, offset: seq<nat>, order: seq<nat>, i: nat)
    requires Valid(actions) && |offset| == |actions| && Indices(actions, order) && i < |actions|
    requires forall k :: 0 <= k < |order| ==> Starts(actions, offset, order, k)
    requires offset[i] == |Concat(actions, offset, order)|
    ensures forall k :: 0 <= k < |order + [i]| ==> Starts(actions, offset, order + [i], k)
  {
    hide Concat;
    var all := order + [i];
    forall k | 0 <= k < |all| ensures Starts(actions, offset, all, k) {
      if k < |order| {
        assert Starts(actions, offset, order, k);
        assert all[..k] == order[..k];
      } else {
        assert all[..k] == order;
      }
    }
  }

  lemma FollowedSnoc(actions: Actions, order: seq<nat>, i: nat, p: Option<nat>)
    requires Valid(actions) && Indices(actions, order) && i < |actions|
    requires forall k :: 0 <= k < |order| ==> Followed(actions, order, Some(i), k)
    requires actions[i].next.Some? ==> actions[i].next.value in order + [i] || p == actions[i].next
    ensures forall k :: 0 <= k < |order + [i]| ==> Followed(actions, order + [i], p, k)
  {
    forall k | 0 <= k < |order + [i]| ensures Followed(actions, order + [i], p, k) {
      if k < |order| { assert Followed(actions, order, Some(i), k); }
    }
  }

  /** Writing a record whose successor is to come right behind it. */
  lemma WriteForward(actions: Actions, idx: nat, w: Written, n: nat)
    requires Ready(actions, idx, w) && Laid(actions, w, Some(idx)) && actions[idx].next == Some(n)
    requires w.offset[idx := |w.bytes|][n] == 0 && n != 0
    ensures var r := Written(w.bytes + Filter(actions[idx]) + [1], w.offset[idx := |w.bytes|], w.order + [idx]);
            Laid(actions, r, Some(n))
  {
    var bytes := w.bytes + Filter(actions[idx]) + [1];
    var o := w.offset[idx := |w.bytes|];
    var o' := o[n := |bytes|];
    NotYet(actions, idx, w, n);
    MarkOne(actions, idx, w, bytes);
    UntouchedByNext(actions, w, idx, n, |bytes|);
    hide Concat; hide RecBytes; hide Marked; hide Filter; hide SameAt; hide Starts; hide Followed; hide Distinct; hide Valid; hide Ready;
    ConcatFrame(actions, o, o', w.order);
    StartsFrame(actions, o, o', w.order);
    ForwardBytes(actions, o', idx, n, w.bytes);
    ConcatSnoc(actions, o', w.order, idx);
    StartsSnoc(actions, o', w.order, idx);
    FollowedSnoc(actions, w.order, idx, Some(n));
    DistinctSnoc(w.order, idx);
  }

  lemma UntouchedByNext(actions: Actions, w: Written, idx: nat, n: nat, v: nat)
    requires Laid(actions, w, Some(idx)) && n < |actions| && n != idx && n !in w.order
    ensures forall k :: 0 <= k < |w.order| ==>
              SameAt(actions, w.offset[idx := |w.bytes|], w.offset[idx := |w.bytes|][n := v], w.order[k])
  {
    hide Concat; hide Starts; hide Marked; hide Distinct;
    forall k | 0 <= k < |w.order|
      ensures SameAt(actions, w.offset[idx := |w.bytes|], w.offset[idx := |w.bytes|][n := v], w.order[k])
    {
      assert Followed(actions, w.order, Some(idx), k);
    }
  }

  lemma DistinctSnoc(order: seq<nat>, i: nat)
    requires Distinct(order) && i !in order
    ensures Distinct(order + [i])
  {
  }

  lemma NotYet(actions: Actions, idx: nat, w: Written, n: nat)
    requires Ready(actions, idx, w) && Laid(actions, w, Some(idx)) && n < |actions|
    requires w.offset[idx := |w.bytes|][n] == 0 && n != 0
    ensures n != idx && n !in w.order
  {
    hide Concat; hide Starts; hide Followed;
  }

  lemma StartsFrame(actions: Actions, o: seq<nat>, o': seq<nat>, order: seq<nat>)
    requires Valid(actions) && |o| == |actions| == |o'| && Indices(actions, order)
    requires forall k :: 0 <= k < |order| ==> SameAt(actions, o, o', order[k])
    requires forall k :: 0 <= k < |order| ==> Starts(actions, o, order, k)
    ensures forall k :: 0 <= k < |order| ==> Starts(actions, o', order, k)
  {
    hide Concat;
    forall k | 0 <= k < |order| ensures Starts(actions, o', order, k) {
      assert Starts(actions, o, order, k) && SameAt(actions, o, o', order[k]);
      forall j | 0 <= j < k ensures SameAt(actions, o, o', order[..k][j]) { assert SameAt(actions, o, o', order[j]); }
      ConcatFrame(actions, o, o', order[..k]);
    }
  }

  /** The displacement to the record right behind is one. */
  lemma ForwardBytes(actions: Actions, offset: seq<nat>, idx: nat, n: nat, bytes: seq<byte>)
    requires Valid(actions) && |offset| == |actions| && idx < |actions| && actions[idx].next == Some(n)
    requires offset[idx] == |bytes| && offset[n] == |bytes + Filter(actions[idx]) + [1]|
    ensures bytes + Filter(actions[idx]) + [1] == bytes + RecBytes(actions, offset, idx)
  {
    assert offset[n] - (offset[idx] + |Filter(actions[idx])|) == 1;
    assert Sleb(1) == [1];
  }

  lemma WriteChainLaid(actions: Actions, idx: nat, w: Written)
    requires Ready(actions, idx, w) && Laid(actions, w, Some(idx))
    ensures var r := WriteChain(actions, idx, w);
            Laid(actions, r, None) && w.order <= r.order && idx in r.order
    decreases Unwritten(w.offset), if idx == 0 then 1 else 0
  {
    hide *;
    RecordLaid(actions, idx, w);
    ChainUnfold(actions, idx, w);
    if Forward(actions, idx, w) {
      Fewer(actions, idx, w);
      var r := WriteRecord(actions, idx, w);
      WriteChainLaid(actions, actions[idx].next.value, r);
      var r' := WriteChain(actions, actions[idx].next.value, r);
      assert w.order <= r.order <= r'.order && idx == r.order[|w.order|] == r'.order[|w.order|];
    }
  }

  lemma ChainUnfold(actions: Actions, idx: nat, w: Written)
    requires Ready(actions, idx, w)
    ensures idx < |actions|
    ensures !Forward(actions, idx, w) ==> WriteChain(actions, idx, w) == WriteRecord(actions, idx, w)
    ensures Forward(actions, idx, w) ==>
              && actions[idx].next.Some? && Ready(actions, actions[idx].next.value, WriteRecord(actions, idx, w))
              && WriteChain(actions, idx, w) == WriteChain(actions, actions[idx].next.value, WriteRecord(actions, idx, w))
  {
    hide WriteRecord;
    if Forward(actions, idx, w) { Fewer(actions, idx, w); }
  }

  lemma RecordLaid(actions: Actions, idx: nat, w: Written)
    requires Ready(actions, idx, w) && Laid(actions, w, Some(idx))
    ensures var r := WriteRecord(actions, idx, w);
            && Laid(actions, r, if Forward(actions, idx, w) then actions[idx].next else None)
            && r.order == w.order + [idx]
  {
    hide Laid; hide Filter; hide Sleb;
    if Forward(actions, idx, w) {
      WriteForward(actions, idx, w, actions[idx].next.value);
    } else {
      var r := WriteRecord(actions, idx, w);
      assert r.bytes == w.bytes + RecBytes(actions, r.offset, idx);
      WriteLast(actions, idx, w, r.bytes);
    }
  }

  lemma WrittenIff(actions: Actions, w: Written, j: nat)
    requires Laid(actions, w, None) && j < |actions| && (j == 0 <==> w.bytes == [])
    ensures j in w.order <==> w.offset[j] != 0
    ensures w.offset[j] == 0 ==> Ready(actions, j, w)
  {
    hide Concat; hide Starts; hide Followed;
  }

  /** Every record is written exactly once, whatever the chains look like, and the
      table is laid out right. */
  lemma WriteFromLaid(actions: Actions, j: nat, w: Written)
    requires Laid(actions, w, None) && j <= |actions| && (j == 0 <==> w.bytes == [])
    requires j == 0 ==> |w.offset| > 0 ==> w.offset[0] == 0
    requires forall i: nat :: i < j ==> i in w.order
    ensures var r := WriteFrom(actions, j, w);
            Laid(actions, r, None) && forall i: nat :: i < |actions| ==> i in r.order
    decreases |actions| - j
  {
    hide *;
    FromUnfold(actions, j, w);
    if j < |actions| {
      WrittenIff(actions, w, j);
      if w.offset[j] != 0 {
        WriteFromLaid(actions, j + 1, w);
      } else {
        Expect(actions, w, j);
        WriteChainLaid(actions, j, w);
        var r := WriteChain(actions, j, w);
        forall i: nat | i < j ensures i in r.order {
          assert i in w.order;
          var k :| 0 <= k < |w.order| && w.order[k] == i;
          assert r.order[k] == i;
        }
        WriteFromLaid(actions, j + 1, r);
      }
    }
  }

  lemma FromUnfold(actions: Actions, j: nat, w: Written)
    requires Laid(actions, w, None) && j <= |actions| && (j == 0 <==> w.bytes == [])
    requires j == 0 ==> |w.offset| > 0 ==> w.offset[0] == 0
    ensures Valid(actions) && |w.offset| == |actions|
    ensures j == |actions| ==> WriteFrom(actions, j, w) == w
    ensures j < |actions| && w.offset[j] != 0 ==> WriteFrom(actions, j, w) == WriteFrom(actions, j + 1, w)
    ensures j < |actions| && w.offset[j] == 0 ==>
              && Ready(actions, j, w) && WriteFrom(actions, j, w) == WriteFrom(actions, j + 1, WriteChain(actions, j, w))
  {
    hide Concat; hide Starts; hide Followed; hide WriteChain;
  }

  // ----- reading -----

  /** A record at an offset: what it says, and where it ends. */
  datatype Record = Record(filter: int, next: Option<int>, end: nat)

  /** A displacement that is not zero is made relative to the start of the record; if
      it becomes zero then, the record counts as the last of its chain. */
  function ReadRecord(stream: seq<byte>, off: int): (r: Option<Record>)
    ensures r.Some? ==> 0 <= off < |stream| && r.value.end <= |stream|
  {
    if off < 0 || off > |stream| then None
    else
      assert Base256(8) == WORD;
      var (t, n) :- ReadUnsigned(stream[off..], 8);
      var (d, m) :- ReadSigned(stream[off + n..], 8);
      var next := if d != 0 then AsSigned(d) + n else 0;
      Some(Record(if t == 0 then -1 else AsInt(t - 1), if next == 0 then None else Some(off + next), off + n + m))
  }

  /** actionOffsets, the records read so far, and the highest end of one. */
  datatype Reading = Reading(offs: seq<nat>, actions: Actions, end: nat)

  const NOTHING_READ := Reading([], [], 0)

  function IndexOf<T(==)>(s: seq<T>, x: T): (k: nat)
    ensures k <= |s| && (k < |s| ==> s[k] == x)
    ensures forall i :: 0 <= i < k ==> s[i] != x
  {
    if s == [] || s[0] == x then 0 else 1 + IndexOf(s[1..], x)
  }

  function Max(a: nat, b: nat): nat { if a < b then b else a }

  /** The record before in the chain, if there is one, learns its successor's index. */
  function Link(actions: Actions, prev: Option<nat>, k: nat): (r: Actions)
    requires prev.Some? ==> prev.value < |actions|
    ensures |r| == |actions|
  {
    if prev.None? then actions else actions[prev.value := actions[prev.value].(next := Some(k))]
  }

  function Left(stream: seq<byte>, offs: seq<nat>): set<nat>
  {
    set o: nat | o < |stream| && o !in offs
  }

  predicate InStep(r: Reading, prev: Option<nat>)
  {
    |r.offs| == |r.actions| && (prev.Some? ==> prev.value < |r.actions|)
  }

  /** A new record is noted. */
  function Append(r: Reading, prev: Option<nat>, off: nat, filter: int, end: nat): (r': Reading)
    requires InStep(r, prev)
    ensures InStep(r', Some(|r.offs|)) && |r'.offs| == |r.offs| + 1
  {
    Reading(r.offs + [off], Link(r.actions + [Action(filter, None)], prev, |r.offs|), Max(r.end, end))
  }

  /** Following a chain until it ends or meets a record that has been read. */
  function Follow(stream: seq<byte>, off: int, prev: Option<nat>, r: Reading): (r': Option<Reading>)
    requires InStep(r, prev)
    ensures r'.Some? ==> InStep(r'.value, None)
    decreases Left(stream, r.offs)
  {
    var k := if off < 0 then |r.offs| else IndexOf(r.offs, off);
    if k < |r.offs| then Some(r.(actions := Link(r.actions, prev, k)))
    else
      var rec :- ReadRecord(stream, off);
      var r1 := Append(r, prev, off, rec.filter, rec.end);
      assert Left(stream, r1.offs) < Left(stream, r.offs) by { assert off in Left(stream, r.offs); }
      if rec.next.None? then Some(r1) else Follow(stream, rec.next.value, Some(|r.offs|), r1)
  }

  /** The chains of the call sites, one after the other. */
  function ReadChains(stream: seq<byte>, firsts: seq<Option<nat>>, r: Reading): (r': Option<Reading>)
    requires InStep(r, None)
    ensures r'.Some? ==> InStep(r'.value, None)
    decreases |firsts|
  {
    if firsts == [] then Some(r)
    else
      var r1 :- if firsts[0].None? then Some(r) else Follow(stream, firsts[0].value, None, r);
      ReadChains(stream, firsts[1..], r1)
  }

  // ----- first-reach order -----

  /** A record that is its own successor loses it. */
  function CutNext(actions: Actions, i: nat): Option<nat>
    requires i < |actions|
  {
    if actions[i].next == Some(i) then None else actions[i].next
  }

  function Unseen(actions: Actions, order: seq<nat>): set<nat>
  {
    set i: nat | i < |actions| && i !in order
  }

  /** The order in which records are met, after the chain from i. */
  function Reach(actions: Actions, i: nat, order: seq<nat>): (r: seq<nat>)
    requires Valid(actions) && i < |actions| && Indices(actions, order)
    ensures Indices(actions, r) && order <= r && i in r
    decreases Unseen(actions, order)
  {
    if i in order then order
    else
      assert Unseen(actions, order + [i]) < Unseen(actions, order) by { assert i in Unseen(actions, order); }
      if CutNext(actions, i).None? then order + [i] else Reach(actions, CutNext(actions, i).value, order + [i])
  }

  predicate Firsts(actions: Actions, firsts: seq<Option<nat>>)
  {
    forall j :: 0 <= j < |firsts| ==> firsts[j].Some? ==> firsts[j].value < |actions|
  }

  function ReachAll(actions: Actions, firsts: seq<Option<nat>>, order: seq<nat>): (r: seq<nat>)
    requires Valid(actions) && Firsts(actions, firsts) && Indices(actions, order)
    ensures Indices(actions, r) && order <= r
    decreases |firsts|
  {
    if firsts == [] then order
    else
      var order1 := if firsts[0].None? then order else Reach(actions, firsts[0].value, order);
      ReachAll(actions, firsts[1..], order1)
  }

  /** The table in a new order. */
  function Renumbered(actions: Actions, order: seq<nat>): Actions
    requires Indices(actions, order)
  {
    seq(|order|, k requires 0 <= k < |order| => RenumberedAt(actions, order, k))
  }

  function RenumberedAt(actions: Actions, order: seq<nat>, k: nat): Action
    requires Indices(actions, order) && k < |order|
  {
    var next := CutNext(actions, order[k]);
    Action(actions[order[k]].filter, if next.None? then None else Some(IndexOf(order, next.value)))
  }

  // ----- a written record is read back -----

  /** The whole table as it is written. */
  ghost predicate Complete(actions: Actions, w: Written)
  {
    Laid(actions, w, None) && forall i: nat :: i < |actions| ==> i in w.order
  }

  /** Whatever the graph, the writer ends and writes every record exactly once. */
  lemma TableComplete(actions: Actions)
    requires Valid(actions)
    ensures Complete(actions, WriteTable(actions))
  {
    var w := Written([], Zeros(|actions|), []);
    assert Laid(actions, w, None);
    WriteFromLaid(actions, 0, w);
  }

  lemma {:induction false} ConcatSplit(actions: Actions, offset: seq<nat>, order: seq<nat>, k: nat)
    requires Valid(actions) && |offset| == |actions| && Indices(actions, order) && k < |order|
    ensures var s, rec, all := |Concat(actions, offset, order[..k])|, RecBytes(actions, offset, order[k]), Concat(actions, offset, order);
            && s + |rec| <= |all| && all[s..s + |rec|] == rec
            && (k + 1 == |order| ==> s + |rec| == |all|)
    ensures k + 1 < |order| ==> |Concat(actions, offset, order[..k + 1])| == |Concat(actions, offset, order[..k])| + |RecBytes(actions, offset, order[k])|
    decreases |order|
  {
    hide RecBytes;
    var n := |order| - 1;
    if k < n {
      ConcatSplit(actions, offset, order[..n], k);
      assert order[..n][..k] == order[..k];
      var part, all := Concat(actions, offset, order[..n]), Concat(actions, offset, order);
      var s, rec := |Concat(actions, offset, order[..k])|, RecBytes(actions, offset, order[k]);
      assert all[s..s + |rec|] == part[s..s + |rec|];
      if k + 1 < n { assert order[..n][..k + 1] == order[..k + 1]; } else { assert order[..n] == order[..k + 1]; }
    } else {
      assert order[..n] == order[..k];
    }
  }

  /** Where the record of an index is. */
  lemma RecordIn(actions: Actions, w: Written, i: nat)
    requires Complete(actions, w) && i < |actions|
    ensures var s, rec := w.offset[i], RecBytes(actions, w.offset, i);
            s + |rec| <= |w.bytes| && w.bytes[s..s + |rec|] == rec
  {
    hide Concat; hide RecBytes; hide Marked; hide Followed;
    assert i in w.order;
    var k :| 0 <= k < |w.order| && w.order[k] == i;
    assert Starts(actions, w.offset, w.order, k);
    ConcatSplit(actions, w.offset, w.order, k);
  }

  lemma {:induction false} ConcatGrows(actions: Actions, offset: seq<nat>, order: seq<nat>, j: nat, k: nat)
    requires Valid(actions) && |offset| == |actions| && Indices(actions, order) && j < k < |order|
    ensures |Concat(actions, offset, order[..j])| < |Concat(actions, offset, order[..k])|
    decreases k
  {
    hide Concat; hide RecBytes;
    var i := k - 1;
    ConcatSplit(actions, offset, order, i);
    RecNonEmpty(actions, offset, order[i]);
    assert i + 1 == k;
    if j < i { ConcatGrows(actions, offset, order, j, i); }
  }

  lemma RecNonEmpty(actions: Actions, offset: seq<nat>, i: nat)
    requires Valid(actions) && |offset| == |actions| && i < |actions|
    ensures |RecBytes(actions, offset, i)| > 0
  {
    assert |Filter(actions[i])| > 0;
    hide Filter; hide Sleb;
  }

  /** Different records start at different offsets. */
  lemma OffsetsDiffer(actions: Actions, w: Written, i: nat, j: nat)
    requires Complete(actions, w) && i < |actions| && j < |actions| && i != j
    ensures w.offset[i] != w.offset[j]
  {
    hide Concat; hide RecBytes; hide Marked; hide Followed;
    assert i in w.order && j in w.order;
    var k :| 0 <= k < |w.order| && w.order[k] == i;
    var l :| 0 <= l < |w.order| && w.order[l] == j;
    assert Starts(actions, w.offset, w.order, k) && Starts(actions, w.offset, w.order, l);
    if k < l { ConcatGrows(actions, w.offset, w.order, k, l); } else { ConcatGrows(actions, w.offset, w.order, l, k); }
  }

  lemma ReadFilter(f: int, rest: seq<byte>)
    requires -1 <= f < HALF_WORD / 2 - 1
    ensures ReadUnsigned(Uleb(f + 1) + rest, 8) == Some((f + 1, |Uleb(f + 1)|))
    ensures (if f + 1 == 0 then -1 else AsInt(f)) == f
  {
    ReadUlebWord(f + 1, rest);
    if f >= 0 { SmallMod(f, HALF_WORD); }
  }

  lemma ReadDisplacement(v: int, rest: seq<byte>)
    requires -0x800_0000 <= v < 0x800_0000
    ensures var r := ReadSigned(Sleb(v) + rest, 8);
            r.Some? && r.value.1 == |Sleb(v)| && AsSigned(r.value.0) == v && (r.value.0 == 0 <==> v == 0)
  {
    ReadSlebIff(v, 8, rest);
    FourSeptets(v);
    if v >= 0 { SmallMod(v, WORD); } else { DivModUnique(v, WORD, -1, v + WORD); }
  }

  /** What should be read for a record. */
  function RecordOf(actions: Actions, w: Written, i: nat): Record
    requires Valid(actions) && |w.offset| == |actions| && i < |actions|
  {
    CutValid(actions, i);
    var next := CutNext(actions, i);
    Record(actions[i].filter, if next.None? then None else Some(w.offset[next.value]), w.offset[i] + |RecBytes(actions, w.offset, i)|)
  }

  /** The record of an action read at its offset: its filter, and the offset of its
      successor.  A record that is its own successor comes back as the last of its
      chain, because its displacement is minus the length of its filter. */
  lemma ReadBack(actions: Actions, w: Written, i: nat, rest: seq<byte>)
    requires Complete(actions, w) && i < |actions| && |w.bytes| < 0x800_0000
    ensures |w.offset| == |actions| && Valid(actions)
    ensures ReadRecord(w.bytes + rest, w.offset[i]) == Some(RecordOf(actions, w, i))
  {
    hide *;
    Sizes(actions, w);
    FilterBound(actions, i);
    RecordOfIs(actions, w, i);
    DisplacementBound(actions, w, i);
    StreamAt(actions, w, i, rest);
    var s, n := w.offset[i], |RecBytes(actions, w.offset, i)|;
    ReadShape(w.bytes + rest, s, actions[i].filter, Displacement(actions, w, i), (w.bytes + rest)[s + n..]);
  }

  lemma FilterBound(actions: Actions, i: nat)
    requires Valid(actions) && i < |actions|
    ensures -1 <= actions[i].filter < HALF_WORD / 2 - 1
  {
  }

  function Displacement(actions: Actions, w: Written, i: nat): int
    requires Valid(actions) && |w.offset| == |actions| && i < |actions|
  {
    if actions[i].next.None? then 0 else w.offset[actions[i].next.value] - (w.offset[i] + |Filter(actions[i])|)
  }

  lemma RecordOfIs(actions: Actions, w: Written, i: nat)
    requires Complete(actions, w) && i < |actions|
    ensures |w.offset| == |actions| && Valid(actions)
    ensures var s, f, disp := w.offset[i], actions[i].filter, Displacement(actions, w, i);
            var n := |Uleb(f + 1)|;
            RecordOf(actions, w, i)
            == Record(f, if disp == 0 || disp + n == 0 then None else Some(s + disp + n), s + n + |Sleb(disp)|)
  {
    Sizes(actions, w);
    RecLength(actions, w, i);
    if actions[i].next.Some? {
      NotRightAfterFilter(actions, w, i);
      if actions[i].next.value != i { OffsetsDiffer(actions, w, i, actions[i].next.value); }
    }
    hide Complete; hide Uleb; hide Sleb; hide RecBytes; hide Valid;
  }

  lemma RecLength(actions: Actions, w: Written, i: nat)
    requires Valid(actions) && |w.offset| == |actions| && i < |actions|
    ensures RecBytes(actions, w.offset, i) == Uleb(actions[i].filter + 1) + Sleb(Displacement(actions, w, i))
  {
    hide Uleb; hide Sleb; hide Valid;
    SmallSlebs();
  }

  lemma SmallSlebs()
    ensures Sleb(0) == [0] && Sleb(1) == [1]
  {
  }

  /** No record starts inside another, so no displacement is zero. */
  lemma NotRightAfterFilter(actions: Actions, w: Written, i: nat)
    requires Complete(actions, w) && i < |actions| && actions[i].next.Some?
    ensures Displacement(actions, w, i) != 0
  {
    Sizes(actions, w);
    var j := actions[i].next.value;
    assert |RecBytes(actions, w.offset, i)| > |Filter(actions[i])|;
    if j != i { RecordsApart(actions, w, i, j); }
  }

  lemma RecordsApart(actions: Actions, w: Written, i: nat, j: nat)
    requires Complete(actions, w) && i < |actions| && j < |actions| && i != j
    ensures Valid(actions) && |w.offset| == |actions|
    ensures w.offset[i] + |RecBytes(actions, w.offset, i)| <= w.offset[j] || w.offset[j] < w.offset[i]
  {
    hide Concat; hide RecBytes; hide Marked; hide Followed;
    assert i in w.order && j in w.order;
    var k :| 0 <= k < |w.order| && w.order[k] == i;
    var l :| 0 <= l < |w.order| && w.order[l] == j;
    assert Starts(actions, w.offset, w.order, k) && Starts(actions, w.offset, w.order, l);
    if k < l {
      ConcatSplit(actions, w.offset, w.order, k);
      if k + 1 < l { ConcatGrows(actions, w.offset, w.order, k + 1, l); }
    } else {
      ConcatGrows(actions, w.offset, w.order, l, k);
    }
  }

  lemma DisplacementBound(actions: Actions, w: Written, i: nat)
    requires Complete(actions, w) && i < |actions|
    ensures Valid(actions) && |w.offset| == |actions|
    ensures -|w.bytes| <= Displacement(actions, w, i) <= |w.bytes|
  {
    Sizes(actions, w);
    RecordIn(actions, w, i);
    if actions[i].next.Some? { RecordIn(actions, w, actions[i].next.value); }
    assert |RecBytes(actions, w.offset, i)| >= |Filter(actions[i])|;
    hide Complete;
  }

  lemma StreamAt(actions: Actions, w: Written, i: nat, rest: seq<byte>)
    requires Complete(actions, w) && i < |actions|
    ensures Valid(actions) && |w.offset| == |actions|
    ensures var stream, s, n := w.bytes + rest, w.offset[i], |RecBytes(actions, w.offset, i)|;
            && s + n <= |stream|
            && stream[s..] == Uleb(actions[i].filter + 1) + Sleb(Displacement(actions, w, i)) + stream[s + n..]
  {
    hide *;
    Sizes(actions, w);
    RecordIn(actions, w, i);
    RecLength(actions, w, i);
    Window(w.bytes, rest, w.offset[i], RecBytes(actions, w.offset, i));
  }

  lemma Window(bytes: seq<byte>, rest: seq<byte>, s: nat, part: seq<byte>)
    requires s + |part| <= |bytes| && bytes[s..s + |part|] == part
    ensures (bytes + rest)[s..] == part + (bytes + rest)[s + |part|..]
  {
    assert (bytes + rest)[s..s + |part|] == part;
  }

  /** Reading a filter and a displacement. */
  lemma ReadShape(stream: seq<byte>, s: nat, f: int, disp: int, tail: seq<byte>)
    requires -1 <= f < HALF_WORD / 2 - 1 && -0x800_0000 <= disp < 0x800_0000
    requires s <= |stream| && stream[s..] == Uleb(f + 1) + Sleb(disp) + tail
    ensures var n := |Uleb(f + 1)|;
            ReadRecord(stream, s)
            == Some(Record(f, if disp == 0 || disp + n == 0 then None else Some(s + disp + n), s + n + |Sleb(disp)|))
  {
    hide Uleb; hide Sleb; hide ReadUnsigned; hide ReadSigned; hide AsSigned; hide AsInt;
    var n := |Uleb(f + 1)|;
    assert stream[s..] == Uleb(f + 1) + (Sleb(disp) + tail);
    assert stream[s + n..] == stream[s..][n..] == Sleb(disp) + tail;
    ReadFilter(f, Sleb(disp) + tail);
    ReadDisplacement(disp, tail);
  }

  lemma OffsetBound(actions: Actions, w: Written, i: nat)
    requires Complete(actions, w) && i < |actions|
    ensures w.offset[i] <= |w.bytes|
  {
    RecordIn(actions, w, i);
  }

  // ----- reading the table is walking the graph -----

  predicate Inside(actions: Actions, w: Written, order: seq<nat>)
  {
    |w.offset| == |actions| && Indices(actions, order)
  }

  /** The last byte of the records met so far. */
  function EndOf(actions: Actions, w: Written, order: seq<nat>): nat
    requires Valid(actions) && Inside(actions, w, order)
  {
    if order == [] then 0
    else
      var i := order[|order| - 1];
      Max(EndOf(actions, w, order[..|order| - 1]), w.offset[i] + |RecBytes(actions, w.offset, i)|)
  }

  /** What the reader has is the graph as met so far; the record at prev still has to
      learn its successor's index. */
  ghost predicate Matches(actions: Actions, w: Written, order: seq<nat>, prev: Option<nat>, r: Reading)
    requires Valid(actions) && Inside(actions, w, order)
  {
    && Distinct(order) && |r.offs| == |order| == |r.actions|
    && (forall k :: 0 <= k < |order| ==> r.offs[k] == w.offset[order[k]])
    && (forall k :: 0 <= k < |order| ==> MatchesAt(actions, order, prev, r, k))
    && r.end == EndOf(actions, w, order)
  }

  predicate MatchesAt(actions: Actions, order: seq<nat>, prev: Option<nat>, r: Reading, k: nat)
    requires Indices(actions, order) && k < |order| == |r.actions|
  {
    if prev == Some(k) then r.actions[k] == Action(actions[order[k]].filter, None)
    else
      && r.actions[k] == RenumberedAt(actions, order, k)
      && (CutNext(actions, order[k]).Some? ==> CutNext(actions, order[k]).value in order)
  }

  lemma {:induction false} IndexIn<T>(s: seq<T>, x: T)
    requires x in s
    ensures IndexOf(s, x) < |s|
  {
    if s[0] != x { IndexIn(s[1..], x); }
  }

  lemma IndexUnique(s: seq<nat>, k: nat)
    requires Distinct(s) && k < |s|
    ensures IndexOf(s, s[k]) == k
  {
    IndexIn(s, s[k]);
  }

  lemma {:induction false} IndexAppend<T>(s: seq<T>, t: seq<T>, x: T)
    requires x in s
    ensures IndexOf(s + t, x) == IndexOf(s, x)
  {
    if s[0] != x {
      assert (s + t)[1..] == s[1..] + t;
      IndexAppend(s[1..], t, x);
    }
  }

  /** The offsets the reader has seen are those of the records it has met. */
  lemma SeenIff(actions: Actions, w: Written, order: seq<nat>, prev: Option<nat>, r: Reading, i: nat)
    requires Complete(actions, w) && Inside(actions, w, order) && Matches(actions, w, order, prev, r) && i < |actions|
    ensures IndexOf(r.offs, w.offset[i]) == IndexOf(order, i)
  {
    hide Complete; hide MatchesAt; hide EndOf; hide IndexOf;
    forall n | 0 <= n < |order| ensures r.offs[n] == w.offset[i] <==> order[n] == i {
      if order[n] != i { OffsetsDiffer(actions, w, i, order[n]); }
    }
    SameIndex(r.offs, order, w.offset[i], i);
  }

  lemma {:induction false} SameIndex(s: seq<nat>, t: seq<nat>, x: nat, y: nat)
    requires |s| == |t| && forall n :: 0 <= n < |s| ==> (s[n] == x <==> t[n] == y)
    ensures IndexOf(s, x) == IndexOf(t, y)
  {
    if s != [] { SameIndex(s[1..], t[1..], x, y); }
  }

  /** Meeting a record that has been read before. */
  lemma MeetOld(actions: Actions, w: Written, order: seq<nat>, prev: nat, r: Reading, i: nat)
    requires Valid(actions) && Inside(actions, w, order) && Matches(actions, w, order, Some(prev), r)
    requires prev < |order| && i in order && CutNext(actions, order[prev]) == Some(i)
    ensures Matches(actions, w, order, None, r.(actions := Link(r.actions, Some(prev), IndexOf(order, i))))
  {
    var r' := r.(actions := Link(r.actions, Some(prev), IndexOf(order, i)));
    hide RecBytes; hide EndOf; hide CutNext;
    forall k | 0 <= k < |order| ensures MatchesAt(actions, order, None, r', k) {
      assert MatchesAt(actions, order, Some(prev), r, k);
    }
  }

  /** Meeting a new record. */
  lemma MeetNew(actions: Actions, w: Written, order: seq<nat>, prev: Option<nat>, r: Reading, i: nat)
    requires Valid(actions) && Inside(actions, w, order) && Matches(actions, w, order, prev, r)
    requires i < |actions| && i !in order
    requires prev.Some? ==> prev.value < |order| && CutNext(actions, order[prev.value]) == Some(i)
    ensures Indices(actions, order + [i]) && Inside(actions, w, order + [i])
    ensures InStep(r, prev) && Matches(actions, w, order + [i], Some(|order|), Met(actions, w, prev, r, i))
  {
    var order', r' := order + [i], Met(actions, w, prev, r, i);
    MetIs(actions, w, order, prev, r, i);
    DistinctSnoc(order, i);
    hide RecBytes, CutNext, MatchesAt, Link, Max, Distinct, Valid, RenumberedAt, IndexOf, Met, EndOf, Append;
    forall k | 0 <= k < |order'| ensures MatchesAt(actions, order', Some(|order|), r', k) {
      MeetNewAt(actions, order, prev, r, i, r', k);
    }
  }

  lemma MetIs(actions: Actions, w: Written, order: seq<nat>, prev: Option<nat>, r: Reading, i: nat)
    requires Valid(actions) && Inside(actions, w, order) && Indices(actions, order + [i]) && i < |actions| && InStep(r, prev)
    ensures var r' := Met(actions, w, prev, r, i);
      && r'.offs == r.offs + [w.offset[i]] && r'.actions == Link(r.actions + [Action(actions[i].filter, None)], prev, |r.offs|)
      && |r'.actions| == |r'.offs|
      && (r.end == EndOf(actions, w, order) ==> r'.end == EndOf(actions, w, order + [i]))
  {
    hide RecBytes, Link, Valid;
    assert (order + [i])[..|order|] == order;
  }

  lemma MeetNewAt(actions: Actions, order: seq<nat>, prev: Option<nat>, r: Reading, i: nat, r': Reading, k: nat)
    requires Valid(actions) && Indices(actions, order) && Distinct(order + [i]) && |r.actions| == |order| && i < |actions|
    requires forall l :: 0 <= l < |order| ==> MatchesAt(actions, order, prev, r, l)
    requires prev.Some? ==> prev.value < |order| && CutNext(actions, order[prev.value]) == Some(i)
    requires k <= |order| && r'.actions == Link(r.actions + [Action(actions[i].filter, None)], prev, |order|)
    ensures Indices(actions, order + [i]) && MatchesAt(actions, order + [i], Some(|order|), r', k)
  {
    var order' := order + [i];
    hide CutNext;
    IndexUnique(order', |order|);
    hide IndexOf; hide Distinct;
    if k < |order| {
      assert MatchesAt(actions, order, prev, r, k);
      var next := CutNext(actions, order[k]);
      if next.Some? && next.value in order { IndexAppend(order, [i], next.value); }
    }
  }

  /** The chain has ended: nothing is pending. */
  lemma MeetEnd(actions: Actions, w: Written, order: seq<nat>, prev: nat, r: Reading)
    requires Valid(actions) && Inside(actions, w, order) && Matches(actions, w, order, Some(prev), r)
    requires prev < |order| && CutNext(actions, order[prev]).None?
    ensures Matches(actions, w, order, None, r)
  {
    hide RecBytes; hide EndOf; hide CutNext;
    forall k | 0 <= k < |order| ensures MatchesAt(actions, order, None, r, k) {
      assert MatchesAt(actions, order, Some(prev), r, k);
    }
  }

  /** The state of the reader after a new record. */
  function Met(actions: Actions, w: Written, prev: Option<nat>, r: Reading, i: nat): (r': Reading)
    requires Valid(actions) && |w.offset| == |actions| && i < |actions| && InStep(r, prev)
    ensures InStep(r', Some(|r.offs|))
  {
    Append(r, prev, w.offset[i], actions[i].filter, w.offset[i] + |RecBytes(actions, w.offset, i)|)
  }

  lemma FollowUnfold(actions: Actions, w: Written, rest: seq<byte>, i: nat, prev: Option<nat>, r: Reading)
    requires Complete(actions, w) && |w.bytes| < 0x800_0000 && i < |actions| && InStep(r, prev)
    ensures Valid(actions) && |w.offset| == |actions|
    ensures IndexOf(r.offs, w.offset[i]) < |r.offs| ==>
              Follow(w.bytes + rest, w.offset[i], prev, r)
              == Some(r.(actions := Link(r.actions, prev, IndexOf(r.offs, w.offset[i]))))
    ensures IndexOf(r.offs, w.offset[i]) == |r.offs| && CutNext(actions, i).None? ==>
              Follow(w.bytes + rest, w.offset[i], prev, r) == Some(Met(actions, w, prev, r, i))
    ensures IndexOf(r.offs, w.offset[i]) == |r.offs| && CutNext(actions, i).Some? ==>
              && CutNext(actions, i).value < |actions|
              && Follow(w.bytes + rest, w.offset[i], prev, r)
                 == Follow(w.bytes + rest, w.offset[CutNext(actions, i).value], Some(|r.offs|), Met(actions, w, prev, r, i))
  {
    Sizes(actions, w);
    hide *;
    CutValid(actions, i);
    MetIsAppend(actions, w, prev, r, i);
    ReadBack(actions, w, i, rest);
    FollowStep(w.bytes + rest, w.offset[i], prev, r, RecordOf(actions, w, i));
  }

  lemma Sizes(actions: Actions, w: Written)
    requires Complete(actions, w)
    ensures Valid(actions) && |w.offset| == |actions|
  {
    hide Valid;
  }

  lemma MetIsAppend(actions: Actions, w: Written, prev: Option<nat>, r: Reading, i: nat)
    requires Valid(actions) && |w.offset| == |actions| && i < |actions| && InStep(r, prev)
    ensures var rec, next := RecordOf(actions, w, i), CutNext(actions, i);
            && Met(actions, w, prev, r, i) == Append(r, prev, w.offset[i], rec.filter, rec.end)
            && (next.None? ==> rec.next.None?)
            && (next.Some? ==> rec.next == Some(w.offset[next.value]))
  {
    hide Append; hide RecBytes; hide CutNext;
  }

  lemma FollowStep(stream: seq<byte>, off: nat, prev: Option<nat>, r: Reading, rec: Record)
    requires InStep(r, prev) && ReadRecord(stream, off) == Some(rec)
    ensures var k := IndexOf(r.offs, off);
            var r1 := Append(r, prev, off, rec.filter, rec.end);
            && (k < |r.offs| ==> Follow(stream, off, prev, r) == Some(r.(actions := Link(r.actions, prev, k))))
            && (k == |r.offs| ==>
                  Follow(stream, off, prev, r)
                  == if rec.next.None? then Some(r1) else Follow(stream, rec.next.value, Some(|r.offs|), r1))
  {
    hide ReadRecord; hide Left; hide Link; hide Max;
  }

  /** Following a chain from the offset of a record meets the records in the order
      that walking the graph from its index does. */
  lemma {:induction false} FollowReach(actions: Actions, w: Written, rest: seq<byte>, i: nat, order: seq<nat>, prev: Option<nat>, r: Reading)
    requires Complete(actions, w) && |w.bytes| < 0x800_0000 && i < |actions|
    requires Valid(actions) && Inside(actions, w, order) && Matches(actions, w, order, prev, r)
    requires prev.Some? ==> prev.value < |order| && CutNext(actions, order[prev.value]) == Some(i)
    ensures var r' := Follow(w.bytes + rest, w.offset[i], prev, r);
            r'.Some? && Matches(actions, w, Reach(actions, i, order), None, r'.value)
    decreases Unseen(actions, order)
  {
    MatchesInStep(actions, w, order, prev, r);
    hide *;
    FollowUnfold(actions, w, rest, i, prev, r);
    SeenIff(actions, w, order, prev, r, i);
    ReachUnfold(actions, i, order);
    if i in order {
      IndexIn(order, i);
      if prev.Some? {
        MeetOld(actions, w, order, prev.value, r, i);
      } else {
        NoLink(r, IndexOf(order, i));
      }
    } else {
      MeetNew(actions, w, order, prev, r, i);
      var order1, r1 := order + [i], Met(actions, w, prev, r, i);
      if CutNext(actions, i).None? {
        MeetEnd(actions, w, order1, |order|, r1);
      } else {
        FollowReach(actions, w, rest, CutNext(actions, i).value, order1, Some(|order|), r1);
      }
    }
  }

  lemma MatchesInStep(actions: Actions, w: Written, order: seq<nat>, prev: Option<nat>, r: Reading)
    requires Valid(actions) && Inside(actions, w, order) && Matches(actions, w, order, prev, r)
    ensures |order| == |r.offs| == |r.actions|
    ensures prev.Some? && prev.value < |order| ==> InStep(r, prev)
    ensures prev.None? ==> InStep(r, prev)
    ensures |w.offset| == |actions|
  {
    hide RecBytes; hide EndOf; hide MatchesAt;
  }

  lemma NoLink(r: Reading, k: nat)
    ensures r.(actions := Link(r.actions, None, k)) == r
  {
  }

  lemma ReachUnfold(actions: Actions, i: nat, order: seq<nat>)
    requires Valid(actions) && i < |actions| && Indices(actions, order)
    ensures i in order ==> Reach(actions, i, order) == order
    ensures i !in order ==>
              && Indices(actions, order + [i]) && Unseen(actions, order + [i]) < Unseen(actions, order)
              && (CutNext(actions, i).None? ==> Reach(actions, i, order) == order + [i])
              && (CutNext(actions, i).Some? ==>
                   && CutNext(actions, i).value < |actions|
                   && Reach(actions, i, order) == Reach(actions, CutNext(actions, i).value, order + [i]))
    ensures |order + [i]| == |order| + 1 && (order + [i])[|order|] == i
  {
    CutValid(actions, i);
    if i !in order {
      assert Unseen(actions, order + [i]) < Unseen(actions, order) by { assert i in Unseen(actions, order); }
    }
  }

  lemma CutValid(actions: Actions, i: nat)
    requires Valid(actions) && i < |actions|
    ensures CutNext(actions, i).Some? ==> CutNext(actions, i).value < |actions|
  {
  }

  /** firstAction of the call sites as offsets, the way the writer turns them. */
  function OffsetsOf(offset: seq<nat>, firsts: seq<Option<nat>>): seq<Option<nat>>
    requires forall j :: 0 <= j < |firsts| ==> firsts[j].Some? ==> firsts[j].value < |offset|
  {
    seq(|firsts|, j requires 0 <= j < |firsts| => if firsts[j].None? then None else Some(offset[firsts[j].value]))
  }

  /** ... and back to indices, the way the reader does. */
  function IndicesOf<T(==)>(s: seq<T>, firsts: seq<Option<T>>): seq<Option<nat>>
  {
    seq(|firsts|, j requires 0 <= j < |firsts| => if firsts[j].None? then None else Some(IndexOf(s, firsts[j].value)))
  }

  lemma {:induction false} ReadChainsReach(actions: Actions, w: Written, rest: seq<byte>, firsts: seq<Option<nat>>,
                                           order: seq<nat>, r: Reading)
    requires Complete(actions, w) && |w.bytes| < 0x800_0000
    requires Valid(actions) && Inside(actions, w, order) && Matches(actions, w, order, None, r) && Firsts(actions, firsts)
    ensures InStep(r, None)
    ensures var r' := ReadChains(w.bytes + rest, OffsetsOf(w.offset, firsts), r);
            r'.Some? && Matches(actions, w, ReachAll(actions, firsts, order), None, r'.value)
    decreases |firsts|
  {
    hide *;
    Sizes(actions, w);
    InsideIs(actions, w, order);
    MatchesInStep(actions, w, order, None, r);
    FirstsTail(actions, w.offset, firsts);
    ReachAllUnfold(actions, firsts, order);
    if firsts == [] {
      ChainsEmpty(w.bytes + rest, r);
    } else {
      var stream, others := w.bytes + rest, firsts[1..];
      ChainsUnfold(stream, OffsetsOf(w.offset, firsts), r);
      if firsts[0].None? {
        ReadChainsReach(actions, w, rest, others, order, r);
      } else {
        var i := firsts[0].value;
        FollowReach(actions, w, rest, i, order, None, r);
        InsideIs(actions, w, Reach(actions, i, order));
        ReadChainsReach(actions, w, rest, others, Reach(actions, i, order), Follow(stream, w.offset[i], None, r).value);
      }
    }
  }

  lemma InsideIs(actions: Actions, w: Written, order: seq<nat>)
    ensures Inside(actions, w, order) <==> |w.offset| == |actions| && Indices(actions, order)
  {
  }

  lemma FirstsTail(actions: Actions, offset: seq<nat>, firsts: seq<Option<nat>>)
    requires Firsts(actions, firsts) && |offset| == |actions|
    ensures firsts == [] ==> OffsetsOf(offset, firsts) == []
    ensures firsts != [] ==>
              && Firsts(actions, firsts[1..])
              && OffsetsOf(offset, firsts) == [OffsetsOf(offset, firsts)[0]] + OffsetsOf(offset, firsts[1..])
              && (firsts[0].None? ==> OffsetsOf(offset, firsts)[0] == None)
              && (firsts[0].Some? ==>
                   firsts[0].value < |actions| && OffsetsOf(offset, firsts)[0] == Some(offset[firsts[0].value]))
  {
    if firsts != [] {
      assert forall j :: 0 <= j < |firsts| - 1 ==> firsts[1..][j] == firsts[j + 1];
    }
  }

  lemma ReachAllUnfold(actions: Actions, firsts: seq<Option<nat>>, order: seq<nat>)
    requires Valid(actions) && Firsts(actions, firsts) && Indices(actions, order)
    ensures firsts == [] ==> ReachAll(actions, firsts, order) == order
    ensures firsts != [] ==>
              && Firsts(actions, firsts[1..])
              && (firsts[0].None? ==> ReachAll(actions, firsts, order) == ReachAll(actions, firsts[1..], order))
              && (firsts[0].Some? ==>
                    && firsts[0].value < |actions| && Indices(actions, Reach(actions, firsts[0].value, order))
                    && ReachAll(actions, firsts, order) == ReachAll(actions, firsts[1..], Reach(actions, firsts[0].value, order)))
  {
    if firsts != [] {
      assert forall j :: 0 <= j < |firsts| - 1 ==> firsts[1..][j] == firsts[j + 1];
    }
  }

  lemma ChainsEmpty(stream: seq<byte>, r: Reading)
    requires InStep(r, None)
    ensures ReadChains(stream, [], r) == Some(r)
  {
  }

  lemma ChainsUnfold(stream: seq<byte>, offs: seq<Option<nat>>, r: Reading)
    requires InStep(r, None) && offs != []
    ensures offs[0].None? ==> ReadChains(stream, offs, r) == ReadChains(stream, offs[1..], r)
    ensures offs[0].Some? && Follow(stream, offs[0].value, None, r).Some? ==>
              && InStep(Follow(stream, offs[0].value, None, r).value, None)
              && ReadChains(stream, offs, r) == ReadChains(stream, offs[1..], Follow(stream, offs[0].value, None, r).value)
  {
    hide Follow;
  }

  ghost predicate AllReached(actions: Actions, firsts: seq<Option<nat>>)
    requires Valid(actions) && Firsts(actions, firsts)
  {
    forall i: nat :: i < |actions| ==> i in ReachAll(actions, firsts, [])
  }

  function RecordEnd(actions: Actions, w: Written, i: nat): nat
    requires Valid(actions) && |w.offset| == |actions| && i < |actions|
  {
    w.offset[i] + |RecBytes(actions, w.offset, i)|
  }

  lemma {:induction false} EndOfBounds(actions: Actions, w: Written, order: seq<nat>)
    requires Complete(actions, w) && Valid(actions) && Inside(actions, w, order)
    ensures EndOf(actions, w, order) <= |w.bytes|
    ensures forall k :: 0 <= k < |order| ==> RecordEnd(actions, w, order[k]) <= EndOf(actions, w, order)
    decreases |order|
  {
    EndOfUnfold(actions, w, order);
    if order != [] {
      var before := order[..|order| - 1];
      RecordIn(actions, w, order[|order| - 1]);
      EndOfBounds(actions, w, before);
      hide *;
      forall k | 0 <= k < |order| ensures RecordEnd(actions, w, order[k]) <= EndOf(actions, w, order) {
        if k < |order| - 1 { assert before[k] == order[k]; }
      }
    }
  }

  lemma EndOfUnfold(actions: Actions, w: Written, order: seq<nat>)
    requires Valid(actions) && Inside(actions, w, order)
    ensures order == [] ==> EndOf(actions, w, order) == 0
    ensures order != [] ==>
              var before, i := order[..|order| - 1], order[|order| - 1];
              && Inside(actions, w, before) && EndOf(actions, w, order) >= EndOf(actions, w, before)
              && EndOf(actions, w, order) >= RecordEnd(actions, w, i)
              && (EndOf(actions, w, order) == EndOf(actions, w, before) || EndOf(actions, w, order) == RecordEnd(actions, w, i))
              && RecordEnd(actions, w, i) == w.offset[i] + |RecBytes(actions, w.offset, i)|
  {
    hide RecBytes; hide Valid;
  }

  /** When every record can be reached, the reader finds the end of the table. */
  lemma EndOfTable(actions: Actions, w: Written, order: seq<nat>)
    requires Complete(actions, w) && Valid(actions) && Inside(actions, w, order)
    requires forall i: nat :: i < |actions| ==> i in order
    ensures EndOf(actions, w, order) == |w.bytes|
  {
    EndOfBounds(actions, w, order);
    if w.order == [] {
      assert Concat(actions, w.offset, []) == [];
    } else {
      var k := |w.order| - 1;
      assert Starts(actions, w.offset, w.order, k);
      ConcatSplit(actions, w.offset, w.order, k);
      assert w.order[k] in order;
      var l :| 0 <= l < |order| && order[l] == w.order[k];
      assert RecordEnd(actions, w, order[l]) <= EndOf(actions, w, order);
    }
  }

  lemma ReachAllDistinct(actions: Actions, w: Written, order: seq<nat>, r: Reading)
    requires Valid(actions) && Inside(actions, w, order) && Matches(actions, w, order, None, r)
    ensures r.actions == Renumbered(actions, order) && Distinct(order) && |r.offs| == |order|
    ensures r.end == EndOf(actions, w, order)
  {
    hide RecBytes; hide EndOf; hide RenumberedAt; hide CutNext;
    forall k | 0 <= k < |order| ensures r.actions[k] == RenumberedAt(actions, order, k) {
      assert MatchesAt(actions, order, None, r, k);
    }
  }

  /** The action table read back: the records in the order in which the call sites
      reach them, each with its successor under the new numbering, and the call sites'
      first actions renumbered the same way.  What follows the table does not matter. */
  lemma TableReadBack(actions: Actions, w: Written, rest: seq<byte>, firsts: seq<Option<nat>>)
    requires Complete(actions, w) && |w.bytes| < 0x800_0000 && Firsts(actions, firsts)
    ensures Valid(actions) && |w.offset| == |actions|
    ensures var order, offs := ReachAll(actions, firsts, []), OffsetsOf(w.offset, firsts);
            var r := ReadChains(w.bytes + rest, offs, NOTHING_READ);
            && r.Some? && r.value.actions == Renumbered(actions, order)
            && IndicesOf(r.value.offs, offs) == IndicesOf(order, firsts)
            && r.value.end <= |w.bytes| && (AllReached(actions, firsts) ==> r.value.end == |w.bytes|)
            && Inside(actions, w, order) && r.value.end == EndOf(actions, w, order)
  {
    Sizes(actions, w);
    NothingMatches(actions, w);
    ReadChainsReach(actions, w, rest, firsts, [], NOTHING_READ);
    var order, offs := ReachAll(actions, firsts, []), OffsetsOf(w.offset, firsts);
    var r := ReadChains(w.bytes + rest, offs, NOTHING_READ).value;
    ReachAllDistinct(actions, w, order, r);
    EndOfBounds(actions, w, order);
    if AllReached(actions, firsts) { EndOfTable(actions, w, order); }
    SameIndices(actions, w, order, r, firsts);
  }

  lemma SameIndices(actions: Actions, w: Written, order: seq<nat>, r: Reading, firsts: seq<Option<nat>>)
    requires Complete(actions, w) && Valid(actions) && Inside(actions, w, order) && Matches(actions, w, order, None, r)
    requires Firsts(actions, firsts)
    ensures IndicesOf(r.offs, OffsetsOf(w.offset, firsts)) == IndicesOf(order, firsts)
  {
    hide IndexOf; hide Complete; hide Matches;
    forall j | 0 <= j < |firsts| && firsts[j].Some?
      ensures IndexOf(r.offs, w.offset[firsts[j].value]) == IndexOf(order, firsts[j].value)
    {
      SeenIff(actions, w, order, None, r, firsts[j].value);
    }
  }

  lemma NothingMatches(actions: Actions, w: Written)
    requires Valid(actions) && |w.offset| == |actions|
    ensures Inside(actions, w, []) && Matches(actions, w, [], None, NOTHING_READ)
  {
  }

  // ----- when the table comes back as it was -----

  function Iota(n: nat): seq<nat> { seq(n, (i: nat) => i) }

  predicate NoSelfLoop(actions: Actions) { forall i: nat :: i < |actions| ==> actions[i].next != Some(i) }

  /** A record is met because it is the first of a call site or because it follows the
      record met before it. */
  predicate Origin(actions: Actions, firsts: seq<Option<nat>>, order: seq<nat>, k: nat)
    requires Indices(actions, order) && k < |order|
  {
    Some(order[k]) in firsts || (k > 0 && CutNext(actions, order[k - 1]) == Some(order[k]))
  }

  lemma {:induction false} ReachOrigin(actions: Actions, firsts: seq<Option<nat>>, i: nat, order: seq<nat>)
    requires Valid(actions) && i < |actions| && Indices(actions, order) && Distinct(order)
    requires forall k :: 0 <= k < |order| ==> Origin(actions, firsts, order, k)
    requires Some(i) in firsts || (order != [] && CutNext(actions, order[|order| - 1]) == Some(i))
    ensures var r := Reach(actions, i, order);
            Distinct(r) && forall k :: 0 <= k < |r| ==> Origin(actions, firsts, r, k)
    decreases Unseen(actions, order)
  {
    ReachUnfold(actions, i, order);
    if i !in order {
      var order1 := order + [i];
      DistinctSnoc(order, i);
      hide CutNext; hide Reach; hide Distinct;
      forall k | 0 <= k < |order1| ensures Origin(actions, firsts, order1, k) {
        if k < |order| { assert Origin(actions, firsts, order, k); }
      }
      if CutNext(actions, i).Some? { ReachOrigin(actions, firsts, CutNext(actions, i).value, order1); }
    }
  }

  lemma {:induction false} ReachAllOrigin(actions: Actions, all: seq<Option<nat>>, firsts: seq<Option<nat>>, order: seq<nat>)
    requires Valid(actions) && Firsts(actions, firsts) && Indices(actions, order) && Distinct(order)
    requires forall f :: f in firsts ==> f in all
    requires forall k :: 0 <= k < |order| ==> Origin(actions, all, order, k)
    ensures var r := ReachAll(actions, firsts, order);
            Distinct(r) && forall k :: 0 <= k < |r| ==> Origin(actions, all, r, k)
    decreases |firsts|
  {
    if firsts != [] {
      assert Firsts(actions, firsts[1..]) by { assert forall j :: 0 <= j < |firsts| - 1 ==> firsts[1..][j] == firsts[j + 1]; }
      assert firsts[0] in all;
      hide Reach; hide Origin; hide Distinct;
      if firsts[0].Some? { ReachOrigin(actions, all, firsts[0].value, order); }
      ReachAllOrigin(actions, all, firsts[1..], if firsts[0].None? then order else Reach(actions, firsts[0].value, order));
    }
  }

  lemma {:induction false} OrderIsIota(actions: Actions, firsts: seq<Option<nat>>, order: seq<nat>, k: nat)
    requires Valid(actions) && Indices(actions, order) && Distinct(order) && k < |order|
    requires forall l :: 0 <= l < |order| ==> Origin(actions, firsts, order, l)
    requires Renumbered(actions, order) == actions && IndicesOf(order, firsts) == firsts
    ensures order[k] == k
  {
    IndexUnique(order, k);
    assert Origin(actions, firsts, order, k);
    hide Valid; hide Distinct; hide IndexOf;
    if Some(order[k]) in firsts {
      FirstKept(order, firsts, order[k]);
    } else {
      OrderIsIota(actions, firsts, order, k - 1);
      NextKept(actions, order, k - 1);
    }
  }

  lemma FirstKept(order: seq<nat>, firsts: seq<Option<nat>>, f: nat)
    requires IndicesOf(order, firsts) == firsts && Some(f) in firsts
    ensures IndexOf(order, f) == f
  {
    hide IndexOf;
    var j :| 0 <= j < |firsts| && firsts[j] == Some(f);
    assert IndicesOf(order, firsts)[j] == Some(IndexOf(order, f));
  }

  lemma NextKept(actions: Actions, order: seq<nat>, k: nat)
    requires Indices(actions, order) && Renumbered(actions, order) == actions && k < |order| && order[k] == k
    ensures k < |actions| && (CutNext(actions, k).Some? ==> IndexOf(order, CutNext(actions, k).value) == CutNext(actions, k).value)
  {
    hide IndexOf;
    assert |Renumbered(actions, order)| == |order|;
    assert Renumbered(actions, order)[k] == RenumberedAt(actions, order, k);
  }

  /** Reading back changes nothing exactly when the records are numbered in the order
      in which the call sites reach them, and none is its own successor. */
  lemma UnchangedIff(actions: Actions, firsts: seq<Option<nat>>)
    requires Valid(actions) && Firsts(actions, firsts)
    ensures var order := ReachAll(actions, firsts, []);
            (Renumbered(actions, order) == actions && IndicesOf(order, firsts) == firsts)
            <==> (order == Iota(|actions|) && NoSelfLoop(actions))
  {
    hide ReachAll; hide Renumbered; hide IndicesOf; hide Iota; hide NoSelfLoop; hide Valid; hide Firsts;
    if Renumbered(actions, ReachAll(actions, firsts, [])) == actions && IndicesOf(ReachAll(actions, firsts, []), firsts) == firsts {
      UnchangedOnlyIf(actions, firsts);
    }
    if ReachAll(actions, firsts, []) == Iota(|actions|) && NoSelfLoop(actions) {
      UnchangedWhen(actions, firsts);
    }
  }

  lemma UnchangedOnlyIf(actions: Actions, firsts: seq<Option<nat>>)
    requires Valid(actions) && Firsts(actions, firsts)
    requires Renumbered(actions, ReachAll(actions, firsts, [])) == actions
    requires IndicesOf(ReachAll(actions, firsts, []), firsts) == firsts
    ensures ReachAll(actions, firsts, []) == Iota(|actions|) && NoSelfLoop(actions)
  {
    var order := ReachAll(actions, firsts, []);
    ReachAllOrigin(actions, firsts, firsts, []);
    hide Valid; hide Firsts; hide ReachAll; hide Origin; hide IndicesOf; hide Distinct; hide IndexOf;
    forall k: nat | k < |order| ensures order[k] == k && actions[k].next != Some(k) {
      OrderIsIota(actions, firsts, order, k);
      assert Renumbered(actions, order)[k] == RenumberedAt(actions, order, k);
    }
    assert |order| == |actions|;
    assert order == Iota(|actions|);
  }

  lemma UnchangedWhen(actions: Actions, firsts: seq<Option<nat>>)
    requires Valid(actions) && Firsts(actions, firsts)
    requires ReachAll(actions, firsts, []) == Iota(|actions|) && NoSelfLoop(actions)
    ensures Renumbered(actions, ReachAll(actions, firsts, [])) == actions
    ensures IndicesOf(ReachAll(actions, firsts, []), firsts) == firsts
  {
    var order := ReachAll(actions, firsts, []);
    assert Distinct(order);
    hide ReachAll; hide IndexOf; hide Renumbered; hide IndicesOf; hide Iota;
    IotaIndices(|actions|);
    IotaRenumbered(actions);
    IotaFirsts(|actions|, firsts);
  }

  lemma IotaIndices(n: nat)
    ensures |Iota(n)| == n && forall i: nat :: i < n ==> Iota(n)[i] == i && IndexOf(Iota(n), i) == i
  {
    forall i: nat | i < n ensures IndexOf(Iota(n), i) == i { IndexUnique(Iota(n), i); }
  }

  lemma IotaFirsts(n: nat, firsts: seq<Option<nat>>)
    requires forall j :: 0 <= j < |firsts| ==> firsts[j].Some? ==> firsts[j].value < n
    ensures IndicesOf(Iota(n), firsts) == firsts
  {
    IotaIndices(n);
    hide IndexOf; hide Iota;
  }

  lemma IotaRenumbered(actions: Actions)
    requires Valid(actions) && NoSelfLoop(actions)
    ensures Indices(actions, Iota(|actions|)) && Renumbered(actions, Iota(|actions|)) == actions
  {
    var order := Iota(|actions|);
    IotaIndices(|actions|);
    hide IndexOf; hide Iota;
    forall k | 0 <= k < |actions| ensures RenumberedAt(actions, order, k) == actions[k] {}
  }

  // ----- the writer as it runs -----

  predicate OffsetsBelow(offset: seq<nat>, n: nat) { forall i :: 0 <= i < |offset| ==> offset[i] <= n }

  lemma {:induction false} ChainGrows(actions: Actions, idx: nat, w: Written)
    requires Ready(actions, idx, w)
    ensures |w.bytes| <= |WriteChain(actions, idx, w).bytes|
    decreases Unwritten(w.offset), if idx == 0 then 1 else 0
  {
    ChainUnfold(actions, idx, w);
    assert |WriteRecord(actions, idx, w).bytes| >= |w.bytes|;
    if Forward(actions, idx, w) {
      Fewer(actions, idx, w);
      hide WriteRecord; hide WriteChain; hide Ready; hide Forward;
      ChainGrows(actions, actions[idx].next.value, WriteRecord(actions, idx, w));
    }
  }

  lemma {:induction false} FromGrows(actions: Actions, j: nat, w: Written)
    requires Valid(actions) && j <= |actions| && |w.offset| == |actions| && (j == 0 <==> w.bytes == [])
    requires j == 0 ==> |w.offset| > 0 ==> w.offset[0] == 0
    ensures |w.bytes| <= |WriteFrom(actions, j, w).bytes|
    decreases |actions| - j
  {
    if j < |actions| {
      if w.offset[j] != 0 {
        FromGrows(actions, j + 1, w);
      } else {
        ChainGrows(actions, j, w);
        hide WriteChain;
        FromGrows(actions, j + 1, WriteChain(actions, j, w));
      }
    }
  }

  /** One turn of the inner loop: the record of idx, and whether its successor is to be
      written next. */
  method AddRecord(actions: Actions, idx: nat, bytes: seq<byte>, offset: array<nat>, ghost order: seq<nat>)
    returns (result: seq<byte>, forward: bool)
    requires offset.Length == |actions| && Ready(actions, idx, Written(bytes, offset[..], order))
    requires |bytes| < 0x8000_0000 && OffsetsBelow(offset[..], |bytes|)
    modifies offset
    ensures var w := Written(bytes, old(offset[..]), order);
            && Written(result, offset[..], order + [idx]) == WriteRecord(actions, idx, w)
            && forward == Forward(actions, idx, w)
    ensures OffsetsBelow(offset[..], |result|)
  {
    hide Uleb; hide Sleb;
    offset[idx] := |bytes|;
    assert offset[..] == old(offset[..])[idx := |bytes|];
    var action := actions[idx];
    var leb := EncodeWord(action.filter + 1, false);
    result, forward := bytes + leb, false;
    assert leb == Filter(action);
    if action.next.Some? {
      var n := action.next.value;
      if offset[n] != 0 || n == 0 {
        FilterShort(action.filter + 1);
        assert offset[..][n] <= |bytes|;
        var displacement := EncodeWord(offset[n] - |result|, true);
        result := result + displacement;
      } else {
        result, forward := result + [1], true;
      }
    } else {
      result := result + [0];
    }
  }

  lemma FilterShort(v: nat)
    requires v < HALF_WORD
    ensures |Uleb(v)| <= 5
  {
    UlebLength(v, 5);
    assert Pow2(10) == 1024 && Pow2(5) == 32;
    Pow2Add(10, 10);
    Pow2Add(20, 10);
    Pow2Add(30, 5);
  }

  /** The loops over the records and along the chains. */
  method WriteActionTable(actions: Actions) returns (bytes: seq<byte>, offsets: seq<nat>)
    requires Valid(actions) && |WriteTable(actions).bytes| < 0x8000_0000
    ensures bytes == WriteTable(actions).bytes && offsets == WriteTable(actions).offset
  {
    hide WriteChain; hide WriteFrom; hide OffsetsBelow; hide Valid;
    var actionIdxToOffset := new nat[|actions|](_ => 0);
    ghost var order := [];
    bytes := [];
    var j := 0;
    assert actionIdxToOffset[..] == Zeros(|actions|);
    NoneAbove(|actions|);
    while j < |actions|
      invariant 0 <= j <= |actions| && (j == 0 <==> bytes == [])
      invariant j == 0 ==> |actions| > 0 ==> actionIdxToOffset[0] == 0
      invariant OffsetsBelow(actionIdxToOffset[..], |bytes|)
      invariant WriteTable(actions) == WriteFrom(actions, j, Written(bytes, actionIdxToOffset[..], order))
    {
      ghost var w := Written(bytes, actionIdxToOffset[..], order);
      FromStep(actions, j, w);
      if actionIdxToOffset[j] == 0 {
        FromGrows(actions, j + 1, WriteChain(actions, j, w));
        bytes, order := WriteWholeChain(actions, j, bytes, actionIdxToOffset, order);
      }
      j := j + 1;
    }
    FromEnd(actions, Written(bytes, actionIdxToOffset[..], order));
    offsets := actionIdxToOffset[..];
  }

  lemma NoneAbove(n: nat)
    ensures OffsetsBelow(Zeros(n), 0)
  {
  }

  lemma FromEnd(actions: Actions, w: Written)
    requires Valid(actions) && |w.offset| == |actions| && (|actions| == 0 <==> w.bytes == [])
    ensures WriteFrom(actions, |actions|, w) == w
  {
  }

  lemma FromStep(actions: Actions, j: nat, w: Written)
    requires Valid(actions) && j < |actions| && |w.offset| == |actions| && (j == 0 <==> w.bytes == [])
    requires j == 0 ==> w.offset[0] == 0
    ensures w.offset[j] != 0 ==> WriteFrom(actions, j, w) == WriteFrom(actions, j + 1, w)
    ensures w.offset[j] == 0 ==>
              && Ready(actions, j, w) && WriteFrom(actions, j, w) == WriteFrom(actions, j + 1, WriteChain(actions, j, w))
  {
    hide WriteChain;
  }

  method WriteWholeChain(actions: Actions, j: nat, bytes: seq<byte>, offset: array<nat>, ghost order: seq<nat>)
    returns (result: seq<byte>, ghost order': seq<nat>)
    requires offset.Length == |actions| && Ready(actions, j, Written(bytes, offset[..], order))
    requires OffsetsBelow(offset[..], |bytes|)
    requires |WriteChain(actions, j, Written(bytes, offset[..], order)).bytes| < 0x8000_0000
    modifies offset
    ensures Written(result, offset[..], order') == WriteChain(actions, j, Written(bytes, old(offset[..]), order))
    ensures OffsetsBelow(offset[..], |result|)
  {
    hide WriteRecord; hide Forward; hide WriteChain; hide OffsetsBelow; hide Unwritten;
    ghost var all := WriteChain(actions, j, Written(bytes, offset[..], order));
    var idx, going := j, true;
    result, order' := bytes, order;
    while going
      invariant going ==> Ready(actions, idx, Written(result, offset[..], order'))
      invariant all == if going then WriteChain(actions, idx, Written(result, offset[..], order')) else Written(result, offset[..], order')
      invariant OffsetsBelow(offset[..], |result|)
      decreases going, Unwritten(offset[..]), if idx == 0 then 1 else 0
    {
      ghost var w := Written(result, offset[..], order');
      ChainGrows(actions, idx, w);
      ChainUnfold(actions, idx, w);
      if Forward(actions, idx, w) { Fewer(actions, idx, w); }
      var forward;
      result, forward := AddRecord(actions, idx, result, offset, order');
      order' := order' + [idx];
      if forward {
        idx := actions[idx].next.value;
      } else {
        going := false;
      }
    }
  }

  // ----- the reader as it runs -----

  method FindOffset(actionOffsets: seq<nat>, off: int) returns (k: nat)
    ensures k == if off < 0 then |actionOffsets| else IndexOf(actionOffsets, off)
  {
    k := 0;
    assert actionOffsets[0..] == actionOffsets;
    while k < |actionOffsets| && actionOffsets[k] != off
      invariant k <= |actionOffsets|
      invariant off >= 0 ==> IndexOf(actionOffsets, off) == k + IndexOf(actionOffsets[k..], off)
      decreases |actionOffsets| - k
    {
      assert actionOffsets[k..][1..] == actionOffsets[k + 1..];
      k := k + 1;
    }
  }

  /** Following the chain of one call site; first is the index of its first action. */
  method FollowChain(stream: seq<byte>, start: nat, r: Reading) returns (result: Option<Reading>, first: nat)
    requires InStep(r, None)
    ensures result == Follow(stream, start, None, r)
    ensures result.Some? ==> r.offs <= result.value.offs && first == IndexOf(result.value.offs, start) < |result.value.offs|
  {
    hide ReadRecord; hide Left; hide IndexOf;
    var actionOffset: int := start;
    var prev: Option<nat> := None;
    var cur := r;
    var continueChain, fixedFirst := true, false;
    first := 0;
    while continueChain
      invariant InStep(cur, if continueChain then prev else None)
      invariant Follow(stream, start, None, r) == if continueChain then Follow(stream, actionOffset, prev, cur) else Some(cur)
      invariant r.offs <= cur.offs && (!fixedFirst ==> continueChain && actionOffset == start && cur == r && prev == None)
      invariant fixedFirst ==> start in cur.offs && first == IndexOf(cur.offs, start) < |cur.offs|
      decreases continueChain, Left(stream, cur.offs)
    {
      var k := FindOffset(cur.offs, actionOffset);
      if k < |cur.offs| {
        cur := cur.(actions := Link(cur.actions, prev, k));
        continueChain := false;
        if !fixedFirst { first, fixedFirst := k, true; }
      } else {
        var rec := ReadRecord(stream, actionOffset);
        if rec.None? { return None, 0; }
        ghost var before := cur;
        var idx := |cur.offs|;
        Shrinks(stream, cur.offs, actionOffset);
        NewIndex(cur.offs, actionOffset);
        if fixedFirst { IndexAppend(cur.offs, [actionOffset], start); }
        cur := Append(cur, prev, actionOffset, rec.value.filter, rec.value.end);
        FollowStep(stream, actionOffset, prev, before, rec.value);
        if !fixedFirst { first, fixedFirst := idx, true; }
        if rec.value.next.None? {
          continueChain := false;
        } else {
          actionOffset, prev := rec.value.next.value, Some(idx);
        }
      }
    }
    result := Some(cur);
  }

  lemma Shrinks(stream: seq<byte>, offs: seq<nat>, off: nat)
    requires off < |stream| && IndexOf(offs, off) == |offs|
    ensures Left(stream, offs + [off]) < Left(stream, offs)
  {
    assert off in Left(stream, offs);
  }

  lemma {:induction false} NewIndex(offs: seq<nat>, off: nat)
    requires IndexOf(offs, off) == |offs|
    ensures IndexOf(offs + [off], off) == |offs| && off in offs + [off]
  {
    if offs != [] {
      assert (offs + [off])[1..] == offs[1..] + [off];
      NewIndex(offs[1..], off);
    }
  }

  /** readActionTable: the chains of all call sites, and their first actions as indices. */
  method ReadActionTable(stream: seq<byte>, firsts: seq<Option<nat>>) returns (result: Option<Reading>, indices: seq<Option<nat>>)
    ensures result == ReadChains(stream, firsts, NOTHING_READ)
    ensures result.Some? ==> indices == IndicesOf(result.value.offs, firsts)
  {
    hide Follow; hide IndexOf;
    var cur := NOTHING_READ;
    indices := [];
    assert firsts[0..] == firsts;
    for j := 0 to |firsts|
      invariant InStep(cur, None) && ReadChains(stream, firsts, NOTHING_READ) == ReadChains(stream, firsts[j..], cur)
      invariant indices == IndicesOf(cur.offs, firsts[..j])
      invariant forall i :: 0 <= i < j && firsts[i].Some? ==> firsts[i].value in cur.offs
    {
      assert firsts[j..][1..] == firsts[j + 1..];
      assert firsts[..j + 1] == firsts[..j] + [firsts[j]];
      if firsts[j].None? {
        indices := indices + [None];
      } else {
        var r, first := FollowChain(stream, firsts[j].value, cur);
        if r.None? { return None, []; }
        IndicesKept(cur.offs, r.value.offs, firsts[..j]);
        cur, indices := r.value, indices + [Some(first)];
      }
    }
    assert firsts[..|firsts|] == firsts;
    result := Some(cur);
  }

  lemma IndicesKept(s: seq<nat>, t: seq<nat>, firsts: seq<Option<nat>>)
    requires s <= t && forall i :: 0 <= i < |firsts| && firsts[i].Some? ==> firsts[i].value in s
    ensures IndicesOf(s, firsts) == IndicesOf(t, firsts)
  {
    hide IndexOf;
    forall i | 0 <= i < |firsts| && firsts[i].Some? ensures IndexOf(s, firsts[i].value) == IndexOf(t, firsts[i].value) {
      IndexAppend(s, t[|s|..], firsts[i].value);
      assert s + t[|s|..] == t;
    }
  }
}
