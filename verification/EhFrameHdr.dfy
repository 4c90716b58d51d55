/** The search table of .eh_frame_hdr (callFrameInfo.c). */
module EhFrameHdr {
  import opened Bytes
  import opened EhFrame
  import ListSort

  datatype Entry = Entry(initialLocation: int32, fdeAddress: int32)

  /** The conversion to a 32-bit signed number. */
  function ToInt32(x: int): int32
  {
    var low := x % HALF_WORD;
    if low >= HALF_WORD / 2 then low - HALF_WORD else low
  }

  function EntryOf(f: Frame, hdr: word, d: Fde, start: nat): Entry
  {
    Entry(ToInt32(d.lowpc - hdr), ToInt32(f.ehAddress + start - hdr))
  }

  /** The comparison for qsort, a difference of two 32-bit numbers. */
  function Compare(a: Entry, b: Entry): int32 { ToInt32(a.initialLocation - b.initialLocation) }

  function Below(): (Entry, Entry) -> bool { (a: Entry, b: Entry) => Compare(a, b) <= 0 }

  lemma Wraps(x: int)
    requires -HALF_WORD < x < HALF_WORD
    ensures ToInt32(x) == if x >= 0x8000_0000 then x - HALF_WORD else if x < -0x8000_0000 then x + HALF_WORD else x
  {
    if x >= 0 { SmallMod(x, HALF_WORD); } else { DivModUnique(x, HALF_WORD, -1, x + HALF_WORD); }
  }

  /** The comparison is right about two entries exactly when their difference fits. */
  lemma CompareIff(a: Entry, b: Entry)
    ensures (Compare(a, b) <= 0 <==> a.initialLocation <= b.initialLocation)
            <==> -0x8000_0000 <= a.initialLocation - b.initialLocation < 0x8000_0000
  {
    Wraps(a.initialLocation - b.initialLocation);
  }

  predicate Close(a: Entry, b: Entry) { -0x8000_0000 < a.initialLocation - b.initialLocation < 0x8000_0000 }

  predicate AllClose(table: seq<Entry>) { forall a, b :: a in table && b in table ==> Close(a, b) }

  predicate InOrder(table: seq<Entry>)
  {
    forall i, j :: 0 <= i < j < |table| ==> table[i].initialLocation <= table[j].initialLocation
  }

  /** What qsort promises: the same entries, in order if the comparison is a preorder on them. */
  ghost predicate Qsorted(table: seq<Entry>, sorted: seq<Entry>)
  {
    multiset(sorted) == multiset(table)
    && (ListSort.Preorder(table, Below()) ==> ListSort.Sorted(sorted, Below()))
  }

  /** A merge sort keeps the promise. */
  lemma MergeSortQsorts(table: seq<Entry>)
    ensures Qsorted(table, ListSort.Sort(table, Below()))
  {
    hide Below;
    ListSort.SortElements(table, Below());
    if ListSort.Preorder(table, Below()) { ListSort.SortSorted(table, Below()); }
  }

  lemma ClosePreorder(table: seq<Entry>)
    requires AllClose(table)
    ensures ListSort.Preorder(table, Below())
  {
    var le := Below();
    forall x, y | x in table && y in table ensures le(x, y) <==> x.initialLocation <= y.initialLocation {
      assert Close(x, y);
      CompareIff(x, y);
    }
  }

  /** The table comes out in the order of the locations when they are less than 2 GiB apart. */
  lemma CloseSorts(table: seq<Entry>, sorted: seq<Entry>)
    requires Qsorted(table, sorted) && AllClose(table)
    ensures InOrder(sorted)
  {
    ClosePreorder(table);
    forall i, j | 0 <= i < j < |sorted| ensures sorted[i].initialLocation <= sorted[j].initialLocation {
      assert Below()(sorted[i], sorted[j]);
      Member(table, sorted, i);
      Member(table, sorted, j);
      assert Close(sorted[i], sorted[j]);
      CompareIff(sorted[i], sorted[j]);
    }
  }

  lemma Member(table: seq<Entry>, sorted: seq<Entry>, i: nat)
    requires multiset(sorted) == multiset(table) && i < |sorted|
    ensures sorted[i] in table
  {
    assert sorted[i] in multiset(sorted);
  }

  lemma Position(table: seq<Entry>, sorted: seq<Entry>, i: nat) returns (k: nat)
    requires multiset(sorted) == multiset(table) && i < |table|
    ensures k < |sorted| && sorted[k] == table[i]
  {
    assert table[i] in multiset(sorted);
    k :| 0 <= k < |sorted| && sorted[k] == table[i];
  }

  /** ... and not when the comparison orders them but two are further apart: the larger one of
      the two comes out first. */
  lemma FarApartFails(table: seq<Entry>, sorted: seq<Entry>, i: nat, j: nat)
    requires Qsorted(table, sorted) && ListSort.Preorder(table, Below())
    requires i < |table| && j < |table| && table[j].initialLocation - table[i].initialLocation > 0x8000_0000
    ensures !InOrder(sorted)
  {
    var a, b := table[i], table[j];
    Wraps(a.initialLocation - b.initialLocation);
    assert !Below()(a, b);
    var p := Position(table, sorted, i);
    var q := Position(table, sorted, j);
    assert ListSort.Sorted(sorted, Below());
  }

  function Swapped<T>(s: seq<T>, p: nat, q: nat): seq<T>
    requires p < |s| && q < |s|
  {
    s[p := s[q]][q := s[p]]
  }

  /** Exchanging two entries that the comparison takes for equal is a sort as well. */
  lemma SwapQsorted(table: seq<Entry>, s: seq<Entry>, p: nat, q: nat)
    requires Qsorted(table, s) && p < q < |s|
    requires ListSort.Preorder(table, Below()) ==> Below()(s[p], s[q]) && Below()(s[q], s[p])
    ensures Qsorted(table, Swapped(s, p, q))
  {
    var le := Below();
    var t := Swapped(s, p, q);
    assert multiset(t) == multiset(s);
    if ListSort.Preorder(table, le) {
      hide Below;
      forall i, j | 0 <= i < j < |t| ensures le(t[i], t[j]) {
        Member(table, s, i);
        Member(table, s, j);
        Member(table, s, p);
        Member(table, s, q);
        assert i < p ==> le(s[i], s[p]);
        assert q < j ==> le(s[q], s[j]);
      }
    }
  }

  /** Where two entries are too far apart a sort may put the larger one first. */
  lemma FarMisplaced(table: seq<Entry>, a: Entry, b: Entry) returns (sorted: seq<Entry>)
    requires a in table && b in table && a.initialLocation - b.initialLocation >= 0x8000_0000
    ensures Qsorted(table, sorted) && !InOrder(sorted)
  {
    var le := Below();
    Wraps(a.initialLocation - b.initialLocation);
    assert le(a, b);
    var i :| 0 <= i < |table| && table[i] == a;
    var j :| 0 <= j < |table| && table[j] == b;
    MergeSortQsorts(table);
    hide Below, ListSort.Preorder, ListSort.Sort;
    var s := if ListSort.Preorder(table, le) then ListSort.Sort(table, le) else table;
    assert Qsorted(table, s);
    var p := Position(table, s, i);
    var q := Position(table, s, j);
    if p < q {
      sorted := s;
    } else {
      SwapQsorted(table, s, q, p);
      sorted := Swapped(s, q, p);
      assert sorted[q] == a && sorted[p] == b;
    }
  }

  /** Main result on the order: every sort that keeps the promise of qsort puts the table in the
      order of the locations exactly when all locations are less than 2 GiB apart. */
  lemma OrderIff(table: seq<Entry>)
    ensures (forall sorted :: Qsorted(table, sorted) ==> InOrder(sorted)) <==> AllClose(table)
  {
    if AllClose(table) {
      forall sorted | Qsorted(table, sorted) ensures InOrder(sorted) { CloseSorts(table, sorted); }
    } else {
      hide Qsorted, InOrder;
      var a, b :| a in table && b in table && !Close(a, b);
      var sorted;
      if a.initialLocation > b.initialLocation {
        sorted := FarMisplaced(table, a, b);
      } else {
        sorted := FarMisplaced(table, b, a);
      }
    }
  }

  // ----- what the entries say -----

  /** The table is relative to its own section. */
  function Decoded(hdr: word, offset: int32): word { (hdr + offset) % WORD }

  predicate Near(x: int, hdr: word) { (x - hdr) % WORD < 0x8000_0000 || (x - hdr) % WORD >= WORD - 0x8000_0000 }

  /** An address is read back from the table exactly when it is within 2 GiB of it. */
  lemma DecodedIff(x: int, hdr: word)
    ensures Decoded(hdr, ToInt32(x - hdr)) == x % WORD <==> Near(x, hdr)
  {
    var d := (x - hdr) % WORD;
    var t := ToInt32(x - hdr);
    LowHalf(x - hdr);
    assert t == if d % HALF_WORD >= 0x8000_0000 then d % HALF_WORD - HALF_WORD else d % HALF_WORD;
    hide ToInt32;
    Same(x, hdr, t);
    Cut(d, t);
  }

  lemma LowHalf(x: int)
    ensures x % WORD % HALF_WORD == x % HALF_WORD
  {
    SmallMod(x % WORD, WORD);
    ModOfProduct(x % WORD, x, HALF_WORD, HALF_WORD);
  }

  lemma Same(x: int, hdr: word, t: int)
    ensures (hdr + t) % WORD == x % WORD <==> t % WORD == (x - hdr) % WORD
  {
    if (hdr + t) % WORD == x % WORD {
      AddMultiple(x - hdr, WORD, (hdr + t) / WORD - x / WORD);
      assert t == (x - hdr) + WORD * ((hdr + t) / WORD - x / WORD);
    }
    if t % WORD == (x - hdr) % WORD {
      AddMultiple(x, WORD, t / WORD - (x - hdr) / WORD);
      assert hdr + t == x + WORD * (t / WORD - (x - hdr) / WORD);
    }
  }

  lemma Cut(d: word, t: int)
    requires t == if d % HALF_WORD >= 0x8000_0000 then d % HALF_WORD - HALF_WORD else d % HALF_WORD
    ensures t % WORD == d <==> d < 0x8000_0000 || d >= WORD - 0x8000_0000
  {
    var q, r := d / HALF_WORD, d % HALF_WORD;
    assert d == HALF_WORD * q + r;
    if t < 0 { DivModUnique(t, WORD, -1, t + WORD); } else { SmallMod(t, WORD); }
  }

  // ----- the section -----

  /** The table before it is sorted. */
  function Table(f: Frame, hdr: word, offsets: seq<nat>, n: nat): (t: seq<Entry>)
    requires n <= |f.fdes| && |offsets| == |f.fdes|
    ensures |t| == n
  {
    if n == 0 then [] else Table(f, hdr, offsets, n - 1) + [EntryOf(f, hdr, f.fdes[n - 1], offsets[n - 1])]
  }

  lemma {:induction false} TableAt(f: Frame, hdr: word, offsets: seq<nat>, n: nat, i: nat)
    requires i < n <= |f.fdes| && |offsets| == |f.fdes|
    ensures Table(f, hdr, offsets, n)[i] == EntryOf(f, hdr, f.fdes[i], offsets[i])
    decreases n
  {
    if i < n - 1 { TableAt(f, hdr, offsets, n - 1, i); }
  }

  /** Main result on the header: whatever way the table is sorted, each FDE has its entry, each
      entry is that of an FDE, and if the two addresses are near the table the entry pairs the
      FDE's start location with the address of its record. */
  lemma TablePairs(f: Frame, hdr: word, offsets: seq<nat>, sorted: seq<Entry>)
    requires |offsets| == |f.fdes| && Qsorted(Table(f, hdr, offsets, |f.fdes|), sorted)
    ensures |sorted| == |f.fdes|
    ensures forall i :: 0 <= i < |f.fdes| ==> EntryOf(f, hdr, f.fdes[i], offsets[i]) in sorted
    ensures forall e :: e in sorted ==> exists i :: 0 <= i < |f.fdes| && e == EntryOf(f, hdr, f.fdes[i], offsets[i])
    ensures forall i :: 0 <= i < |f.fdes| ==>
      var e := EntryOf(f, hdr, f.fdes[i], offsets[i]);
      && (Decoded(hdr, e.initialLocation) == f.fdes[i].lowpc % WORD <==> Near(f.fdes[i].lowpc, hdr))
      && (Decoded(hdr, e.fdeAddress) == Address(f.ehAddress, offsets[i]) <==> Near(f.ehAddress + offsets[i], hdr))
  {
    var table := Table(f, hdr, offsets, |f.fdes|);
    assert |sorted| == |multiset(sorted)| == |multiset(table)| == |table|;
    forall i | 0 <= i < |f.fdes| ensures EntryOf(f, hdr, f.fdes[i], offsets[i]) in sorted {
      TableAt(f, hdr, offsets, |f.fdes|, i);
      var k := Position(table, sorted, i);
    }
    forall e | e in sorted ensures exists i :: 0 <= i < |f.fdes| && e == EntryOf(f, hdr, f.fdes[i], offsets[i]) {
      var k :| 0 <= k < |sorted| && sorted[k] == e;
      Member(table, sorted, k);
      var i :| 0 <= i < |table| && table[i] == e;
      TableAt(f, hdr, offsets, |f.fdes|, i);
    }
    forall i | 0 <= i < |f.fdes|
      ensures var e := EntryOf(f, hdr, f.fdes[i], offsets[i]);
        && (Decoded(hdr, e.initialLocation) == f.fdes[i].lowpc % WORD <==> Near(f.fdes[i].lowpc, hdr))
        && (Decoded(hdr, e.fdeAddress) == Address(f.ehAddress, offsets[i]) <==> Near(f.ehAddress + offsets[i], hdr))
    {
      hide Decoded, Near, ToInt32;
      DecodedIff(f.fdes[i].lowpc, hdr);
      DecodedIff(f.ehAddress + offsets[i], hdr);
    }
  }

  /** The loop that fills the table, and the sort. */
  method BuildTable(f: Frame, hdr: word, fdeOffsets: seq<nat>) returns (sorted: seq<Entry>)
    requires |fdeOffsets| == |f.fdes|
    ensures Qsorted(Table(f, hdr, fdeOffsets, |f.fdes|), sorted)
    ensures AllClose(Table(f, hdr, fdeOffsets, |f.fdes|)) ==> InOrder(sorted)
  {
    var table: seq<Entry> := [];
    for i := 0 to |f.fdes|
      invariant table == Table(f, hdr, fdeOffsets, i)
    {
      table := table + [EntryOf(f, hdr, f.fdes[i], fdeOffsets[i])];
    }
    sorted := ListSort.Sort(table, Below());
    hide ToInt32, ListSort.Sort, AllClose, InOrder, Qsorted, Below;
    MergeSortQsorts(table);
    if AllClose(table) { CloseSorts(table, sorted); }
  }
}
