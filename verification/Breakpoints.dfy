/** When removing breakpoints puts the text back (patcher/target.c): exactly, for any list
    of breakpoints and any order of removal. */
module Breakpoints {
  import opened Bytes
  import opened TableSpec
  import opened Target

  predicate Covered(l: int, x: int) { l <= x < l + 4 }

  /** The last breakpoint of a list that is over an address. */
  function LastCover(locs: seq<word>, x: word): (r: Option<word>)
    ensures r.Some? ==> r.value in locs && Covered(r.value, x)
    ensures r.None? ==> forall l :: l in locs ==> !Covered(l, x)
  {
    if locs == [] then None
    else
      var n := |locs| - 1;
      if Covered(locs[n], x) then Some(locs[n]) else LastCover(locs[..n], x)
  }

  lemma {:induction false} LastFromFront(locs: seq<word>, x: word)
    requires locs != []
    ensures var r := LastCover(locs[1..], x);
            LastCover(locs, x) == if r.Some? then r else if Covered(locs[0], x) then Some(locs[0]) else None
    decreases |locs|
  {
    if |locs| > 1 {
      var n := |locs| - 1;
      assert locs[1..][..n - 1] == locs[..n][1..] && locs[1..][n - 1] == locs[n];
      LastFromFront(locs[..n], x);
    }
  }

  /** The byte at an address when the breakpoints have been set in the order of the list. */
  function ByteUnder(text: Memory, locs: seq<word>, x: word): byte
    requires x in text
  {
    var l := LastCover(locs, x);
    if l.Some? then BREAKPOINT[x - l.value] else text[x]
  }

  /** The breakpoints that are set before l. */
  function Before(locs: seq<word>, l: word): seq<word>
  {
    if locs == [] then []
    else
      var n := |locs| - 1;
      if locs[n] == l then locs[..n] else Before(locs[..n], l)
  }

  /** The byte at an address when the breakpoints of order have then been removed: what the
      last one to be removed there had under it when it was set. */
  function ByteLeft(text: Memory, locs: seq<word>, order: seq<word>, x: word): byte
    requires x in text
  {
    var l := LastCover(order, x);
    if l.Some? then ByteUnder(text, Before(locs, l.value), x) else ByteUnder(text, locs, x)
  }

  lemma SetOneByte(hash: word -> nat, s: Text, loc: word, x: word)
    requires SetAt(hash, s, loc).Some?
    ensures var t := SetAt(hash, s, loc).value;
      && t.mem.Keys == s.mem.Keys && AddressKey(hash, loc) !in s.saved
      && t.saved.Keys == s.saved.Keys + {AddressKey(hash, loc)}
      && (forall key :: key in s.saved ==> t.saved[key] == s.saved[key])
      && (x in s.mem ==> t.mem[x] == if Covered(loc, x) then BREAKPOINT[x - loc] else s.mem[x])
      && (Covered(loc, x) ==> x in s.mem && t.saved[AddressKey(hash, loc)][x - loc] == s.mem[x])
  {
    SetKeeps(hash, s, loc);
    MappedFour(s.mem, loc);
    WrittenByte(s.mem, loc, BREAKPOINT, x);
    if Covered(loc, x) { SlicedByte(s.mem, loc, x); }
    hide WriteBytes, Writable, Readable, Slice, AddressKey;
  }

  lemma MappedFour(mem: Memory, loc: word)
    requires Mapped(mem, loc, 8)
    ensures Mapped(mem, loc, 4) && loc + 4 <= WORD
  {
  }

  lemma SlicedByte(mem: Memory, loc: word, x: word)
    requires Mapped(mem, loc, 4) && Covered(loc, x)
    ensures x in mem && Slice(mem, loc, 4)[x - loc] == mem[x]
  {
  }

  /** Setting, byte by byte. */
  lemma {:induction false} SetByte(hash: word -> nat, s: Text, locs: seq<word>, x: word)
    requires SetAll(hash, s, locs).Some?
    ensures var t := SetAll(hash, s, locs).value;
      t.mem.Keys == s.mem.Keys && (x in s.mem ==> t.mem[x] == ByteUnder(s.mem, locs, x))
    decreases |locs|
  {
    hide SetAt;
    if locs != [] {
      var n := |locs| - 1;
      SetByte(hash, s, locs[..n], x);
      SetOneByte(hash, SetAll(hash, s, locs[..n]).value, locs[n], x);
    }
  }

  /** What is remembered for a breakpoint, byte by byte. */
  lemma {:induction false} SetSaved(hash: word -> nat, s: Text, locs: seq<word>, l: word, x: word)
    requires SetAll(hash, s, locs).Some? && l in locs && Covered(l, x)
    ensures var t := SetAll(hash, s, locs).value;
      && x in s.mem && AddressKey(hash, l) in t.saved
      && t.saved[AddressKey(hash, l)][x - l] == ByteUnder(s.mem, Before(locs, l), x)
    decreases |locs|
  {
    hide SetAt, AddressKey;
    var n := |locs| - 1;
    var t := SetAll(hash, s, locs[..n]).value;
    SetByte(hash, s, locs[..n], x);
    SetOneByte(hash, t, locs[n], x);
    if locs[n] != l { SetSaved(hash, s, locs[..n], l, x); }
  }

  lemma RemoveOneByte(hash: word -> nat, s: Text, loc: word, x: word)
    requires RemoveAt(hash, s, loc).Some? && Mapped(s.mem, loc, 4)
    ensures var t := RemoveAt(hash, s, loc).value;
      && t.mem.Keys == s.mem.Keys && t.saved == s.saved && AddressKey(hash, loc) in s.saved
      && (x in s.mem ==> t.mem[x] == if Covered(loc, x) then s.saved[AddressKey(hash, loc)][x - loc] else s.mem[x])
  {
    WrittenByte(s.mem, loc, s.saved[AddressKey(hash, loc)], x);
    SameWrite(s.mem, loc, s.saved[AddressKey(hash, loc)]);
    hide WriteBytes, Writable, AddressKey;
  }

  lemma AllMapped(m: Memory, m': Memory, loc: word)
    requires m.Keys == m'.Keys && Mapped(m, loc, 4)
    ensures Mapped(m', loc, 4)
  {
    assert forall x: word :: x in m <==> x in m';
  }

  /** Removing, byte by byte. */
  lemma {:induction false} RemoveByte(hash: word -> nat, s: Text, order: seq<word>, x: word)
    requires RemoveAll(hash, s, order).Some? && forall l :: l in order ==> Mapped(s.mem, l, 4)
    ensures var u := RemoveAll(hash, s, order).value;
      && u.mem.Keys == s.mem.Keys
      && (LastCover(order, x).Some? ==> AddressKey(hash, LastCover(order, x).value) in s.saved)
      && (x in s.mem ==>
            u.mem[x] == var l := LastCover(order, x);
                        if l.Some? then s.saved[AddressKey(hash, l.value)][x - l.value] else s.mem[x])
    decreases |order|
  {
    if order != [] {
      RemoveOneByte(hash, s, order[0], x);
      LastFromFront(order, x);
      hide RemoveAt, Mapped, AddressKey, LastCover;
      var t := RemoveAt(hash, s, order[0]).value;
      forall l | l in order[1..] ensures Mapped(t.mem, l, 4) {
        assert l in order;
        AllMapped(s.mem, t.mem, l);
      }
      RemoveByte(hash, t, order[1..], x);
    }
  }

  lemma {:induction false} SetMapped(hash: word -> nat, s: Text, locs: seq<word>, l: word)
    requires SetAll(hash, s, locs).Some? && l in locs
    ensures Mapped(s.mem, l, 4)
    decreases |locs|
  {
    hide *;
    SetLast(hash, s, locs);
    var n := |locs| - 1;
    var t := SetAll(hash, s, locs[..n]).value;
    if locs[n] == l {
      SetByte(hash, s, locs[..n], l);
      SetKeeps(hash, t, l);
      MappedFour(t.mem, l);
      AllMapped(t.mem, s.mem, l);
    } else {
      SetMapped(hash, s, locs[..n], l);
    }
  }

  lemma SetLast(hash: word -> nat, s: Text, locs: seq<word>)
    requires SetAll(hash, s, locs).Some? && locs != []
    ensures var n := |locs| - 1;
      SetAll(hash, s, locs[..n]).Some? && SetAt(hash, SetAll(hash, s, locs[..n]).value, locs[n]) == SetAll(hash, s, locs)
  {
    hide SetAt;
  }

  lemma BreakpointsMapped(hash: word -> nat, s: Text, locs: seq<word>, l: word)
    requires SetAll(hash, s, locs).Some? && l in locs
    ensures var t := SetAll(hash, s, locs).value;
      Mapped(s.mem, l, 4) && t.mem.Keys == s.mem.Keys && AddressKey(hash, l) in t.saved && Writable(t.mem, l, 4)
  {
    assert Covered(l, l);
    hide *;
    AllWritable(hash, s, locs);
    SetMapped(hash, s, locs, l);
    SetSaved(hash, s, locs, l, l);
    SameKeys(s.mem, SetAll(hash, s, locs).value.mem, l, 4);
  }

  /** Removing any breakpoints that are set, in any order, succeeds. */
  lemma {:induction false} RemovalSucceeds(hash: word -> nat, s: Text, order: seq<word>)
    requires forall l :: l in order ==> AddressKey(hash, l) in s.saved && Writable(s.mem, l, 4) && Mapped(s.mem, l, 4)
    ensures RemoveAll(hash, s, order).Some?
    decreases |order|
  {
    if order != [] {
      var zero: word := 0;
      assert order[0] in order;
      RemoveOneByte(hash, s, order[0], zero);
      var t := RemoveAt(hash, s, order[0]).value;
      hide RemoveAt, Mapped, Writable, AddressKey;
      forall l | l in order[1..] ensures AddressKey(hash, l) in t.saved && Writable(t.mem, l, 4) && Mapped(t.mem, l, 4) {
        assert l in order;
        SameKeys(s.mem, t.mem, l, 4);
      }
      RemovalSucceeds(hash, t, order[1..]);
    }
  }

  /** Main result: removing breakpoints in any order succeeds, and leaves the text as it was
      exactly when every byte is the one that the last breakpoint to be removed there had
      under it, which is known before any of them is set. */
  lemma RemovalIff(hash: word -> nat, s: Text, locs: seq<word>, order: seq<word>)
    requires SetAll(hash, s, locs).Some? && forall l :: l in order ==> l in locs
    ensures var u := RemoveAll(hash, SetAll(hash, s, locs).value, order);
      && u.Some?
      && (u.value.mem == s.mem <==> forall x :: x in s.mem ==> ByteLeft(s.mem, locs, order, x) == s.mem[x])
  {
    var t := SetAll(hash, s, locs).value;
    forall l | l in order
      ensures AddressKey(hash, l) in t.saved && Writable(t.mem, l, 4) && Mapped(t.mem, l, 4)
    {
      BreakpointsMapped(hash, s, locs, l);
      AllMapped(s.mem, t.mem, l);
    }
    RemovalSucceeds(hash, t, order);
    hide *;
    var zero: word := 0;
    RemoveByte(hash, t, order, zero);
    SetByte(hash, s, locs, zero);
    var u := RemoveAll(hash, t, order).value;
    forall x: word | x in s.mem ensures u.mem[x] == ByteLeft(s.mem, locs, order, x) {
      RemoveByte(hash, t, order, x);
      SetByte(hash, s, locs, x);
      CoverOf(order, x);
      if LastCover(order, x).Some? { SetSaved(hash, s, locs, LastCover(order, x).value, x); }
      ByteLeftIs(s.mem, locs, order, x);
    }
    if forall x :: x in s.mem ==> ByteLeft(s.mem, locs, order, x) == s.mem[x] {
      assert u.mem == s.mem;
    }
  }

  lemma CoverOf(order: seq<word>, x: word)
    ensures LastCover(order, x).Some? ==> LastCover(order, x).value in order && Covered(LastCover(order, x).value, x)
  {
  }

  lemma ByteLeftIs(text: Memory, locs: seq<word>, order: seq<word>, x: word)
    requires x in text
    ensures ByteLeft(text, locs, order, x)
         == var l := LastCover(order, x);
            if l.Some? then ByteUnder(text, Before(locs, l.value), x) else ByteUnder(text, locs, x)
  {
  }

  /** Two breakpoints, removed first to last: the text is back exactly when under both of them
      it already was what the first one puts there.  For breakpoints apart that is always so. */
  lemma FirstInFirstOutIff(hash: word -> nat, s: Text, a: word, b: word)
    requires SetAll(hash, s, [a, b]).Some?
    ensures var u := RemoveAll(hash, SetAll(hash, s, [a, b]).value, [a, b]);
      && u.Some?
      && (u.value.mem == s.mem <==>
          forall x: word :: Covered(a, x) && Covered(b, x) ==> x in s.mem && s.mem[x] == BREAKPOINT[x - a])
  {
    RemovalIff(hash, s, [a, b], [a, b]);
    BreakpointsMapped(hash, s, [a, b], a);
    DifferentKeys(hash, s, a, b);
    forall x: word | x in s.mem
      ensures ByteLeft(s.mem, [a, b], [a, b], x) == if Covered(a, x) && Covered(b, x) then BREAKPOINT[x - a] else s.mem[x]
    {
      TwoBytes(s.mem, a, b, x);
    }
    forall x: word | Covered(a, x) ensures x in s.mem { SlicedByte(s.mem, a, x); }
  }

  lemma DifferentKeys(hash: word -> nat, s: Text, a: word, b: word)
    requires SetAll(hash, s, [a, b]).Some?
    ensures a != b
  {
    assert [a, b][..1] == [a];
    var t := SetAll(hash, s, [a]).value;
    var zero: word := 0;
    SetOneByte(hash, SetAll(hash, s, []).value, a, zero);
    SetOneByte(hash, t, b, zero);
  }

  lemma TwoBytes(text: Memory, a: word, b: word, x: word)
    requires x in text && a != b
    ensures ByteLeft(text, [a, b], [a, b], x) == if Covered(a, x) && Covered(b, x) then BREAKPOINT[x - a] else text[x]
  {
    var both, one := [a, b], [a];
    assert both[..1] == one && one[..0] == [];
    assert Before(both, b) == one && Before(one, a) == [] && Before(both, a) == Before(one, a);
    assert LastCover(one, x) == if Covered(a, x) then Some(a) else None;
    assert LastCover(both, x) == if Covered(b, x) then Some(b) else LastCover(one, x);
  }

  /** Two breakpoints on the same word can be set. */
  lemma TwoSet(hash: word -> nat, s: Text, a: word)
    requires a % 8 == 0 && Mapped(s.mem, a, 12) && s.saved == map[] && AddressKey(hash, a) != AddressKey(hash, a + 1)
    ensures SetAll(hash, s, [a, a + 1]).Some?
  {
    hide WriteBytes, Writable, Readable, Mapped, AddressKey, Slice, SetAll;
    Accessible(s.mem, a);
    var zero: word := 0;
    SetOneByte(hash, s, a, zero);
    var t := SetAt(hash, s, a).value;
    SameMapped(s.mem, t.mem, a);
    Accessible(t.mem, a);
    SetTwo(hash, s, a, a + 1);
  }

  lemma SameMapped(m: Memory, m': Memory, a: word)
    requires m.Keys == m'.Keys && Mapped(m, a, 12)
    ensures Mapped(m', a, 12)
  {
    SameKeys(m, m', a, 12);
  }

  lemma SetTwo(hash: word -> nat, s: Text, a: word, b: word)
    ensures SetAll(hash, s, [a, b]) == match SetAt(hash, s, a) { case None => None case Some(t) => SetAt(hash, t, b) }
  {
    hide SetAt;
    assert [a, b][..1] == [a] && [a][..0] == [];
    assert SetAll(hash, s, []) == Some(s);
    assert SetAll(hash, s, [a]) == SetAt(hash, s, a);
  }

  /** Overlapping breakpoints that are removed first to last leave part of a breakpoint behind. */
  lemma FirstInFirstOutFails(hash: word -> nat, s: Text, a: word)
    requires a % 8 == 0 && Mapped(s.mem, a, 12) && s.saved == map[]
    requires s.mem[a + 1] != 0x90
    requires AddressKey(hash, a) != AddressKey(hash, a + 1)
    ensures var t := SetAll(hash, s, [a, a + 1]);
            t.Some? && var r := RemoveAll(hash, t.value, [a, a + 1]); r.Some? && r.value.mem != s.mem
  {
    var x: word := a + 1;
    Overlap(s.mem, a, x);
    hide *;
    TwoSet(hash, s, a);
    FirstInFirstOutIff(hash, s, a, x);
  }

  lemma Overlap(mem: Memory, a: word, x: word)
    requires Mapped(mem, a, 12) && x == a + 1
    ensures x in mem && Covered(a, x) && Covered(x, x) && BREAKPOINT[x - a] == 0x90
  {
  }
}
