/** Exactly when an LSDA with a type table comes back (exceptTable.c): every entry has to survive,
    and the actions that no call site reaches must not leave room for an entry more. */
module ExceptTypes {
  import opened Bytes
  import opened LebWords
  import opened Cfa
  import opened ActionTable
  import opened EhPointers
  import opened TypeBase
  import opened ExceptTable

  /** The entries from lo on survive in a table that starts at an address. */
  predicate SurviveFrom(types: seq<word>, lo: nat, enc: byte, size: nat, start: word)
  {
    forall j: nat :: lo <= j < |types| ==> EntrySurvives(types[j], enc, size, (start + (|types| - 1 - j) * size) % WORD, j)
  }

  lemma {:induction false} EntriesCount(types: seq<word>, lo: nat, enc: byte, size: nat, start: word)
    requires lo <= |types| && Entries(types, lo, enc, size, start).Some?
    ensures |Entries(types, lo, enc, size, start).value| == (|types| - lo) * size
    decreases |types| - lo
  {
    hide StoredEntry, Entries;
    EntriesUnfold(types, lo, enc, size, start);
    if lo < |types| {
      EntriesCount(types, lo + 1, enc, size, start);
      var before := Entries(types, lo + 1, enc, size, start).value;
      EntryLength(types[lo], enc, size, (start + |before|) % WORD, lo);
      assert (|types| - lo) * size == (|types| - 1 - lo) * size + size;
    }
  }

  /** What is read of the entries from lo on, behind less than an entry's worth of other bytes. */
  lemma {:induction false} ReadFromIff(types: seq<word>, lo: nat, enc: byte, ptrSize: nat, front: seq<byte>, at: word)
    requires lo <= |types| && ptrSize <= 8 && TypeSize(EntrySize(enc, ptrSize))
    requires |front| < EntrySize(enc, ptrSize).value
    requires Entries(types, lo, enc, EntrySize(enc, ptrSize).value, (at + |front|) % WORD).Some?
    ensures var size := EntrySize(enc, ptrSize).value;
      var bytes := Entries(types, lo, enc, size, (at + |front|) % WORD).value;
      ReadTypes(front + bytes, enc, size, ptrSize, at) == Some(types[lo..])
      <==> SurviveFrom(types, lo, enc, size, (at + |front|) % WORD)
    decreases |types| - lo
  {
    hide EntrySize; hide Entries; hide ReadTypes; hide StoredEntry; hide DecodePointer; hide EntrySurvives; hide SurviveFrom;
    var size := EntrySize(enc, ptrSize).value;
    var start := (at + |front|) % WORD;
    EntriesUnfold(types, lo, enc, size, start);
    SurviveStep(types, lo, enc, size, start);
    if lo == |types| {
      NoTypes(front, enc, size, ptrSize, at);
    } else {
      ReadFromIff(types, lo + 1, enc, ptrSize, front, at);
      EntriesCount(types, lo + 1, enc, size, start);
      var before := Entries(types, lo + 1, enc, size, start).value;
      var location := (start + |before|) % WORD;
      EntryIff(types[lo], enc, ptrSize, location, lo);
      var e := StoredEntry(types[lo], enc, size, location, lo).value;
      ModPlus(at, |front|, |before|);
      EntryLength(types[lo], enc, size, location, lo);
      LastEntry(front, before, e, enc, size, ptrSize, at, types[lo..]);
    }
  }

  lemma SurviveStep(types: seq<word>, lo: nat, enc: byte, size: nat, start: word)
    requires lo <= |types|
    ensures lo == |types| ==> SurviveFrom(types, lo, enc, size, start)
    ensures lo < |types| ==>
      (SurviveFrom(types, lo, enc, size, start) <==>
       EntrySurvives(types[lo], enc, size, (start + (|types| - 1 - lo) * size) % WORD, lo) && SurviveFrom(types, lo + 1, enc, size, start))
  {
    hide EntrySurvives;
  }

  /** The entry that is read first is the last one. */
  lemma LastEntry(front: seq<byte>, before: seq<byte>, e: seq<byte>, enc: byte, size: nat, ptrSize: nat, at: word, types: seq<word>)
    requires ptrSize <= 8 && |e| == size > 0 && types != []
    ensures var v := DecodePointer(e, (at + |front| + |before|) % WORD, enc, ptrSize);
      ReadTypes(front + (before + e), enc, size, ptrSize, at) == Some(types)
      <==> v.Some? && v.value.0 == types[0] && ReadTypes(front + before, enc, size, ptrSize, at) == Some(types[1..])
  {
    hide DecodePointer;
    var table := front + (before + e);
    assert table[|front + before|..] == e && table[..|front + before|] == front + before;
    assert types == [types[0]] + types[1..];
  }

  /** ... and with more in front of them the number of entries is wrong. */
  lemma ReadTableIff(types: seq<word>, enc: byte, ptrSize: nat, front: seq<byte>, at: word)
    requires ptrSize <= 8 && TypeSize(EntrySize(enc, ptrSize))
    requires Entries(types, 0, enc, EntrySize(enc, ptrSize).value, (at + |front|) % WORD).Some?
    ensures var size := EntrySize(enc, ptrSize).value;
      var bytes := Entries(types, 0, enc, size, (at + |front|) % WORD).value;
      ReadTypes(front + bytes, enc, size, ptrSize, at) == Some(types)
      <==> |front| < size && TypesSurvive(types, enc, size, (at + |front|) % WORD)
  {
    hide EntrySize, Entries, ReadTypes, EntrySurvives;
    var size := EntrySize(enc, ptrSize).value;
    var start := (at + |front|) % WORD;
    var bytes := Entries(types, 0, enc, size, start).value;
    EntriesCount(types, 0, enc, size, start);
    if |front| < size {
      ReadFromIff(types, 0, enc, ptrSize, front, at);
      assert types[0..] == types;
      SurvivesAll(types, enc, size, start);
    } else if ReadTypes(front + bytes, enc, size, ptrSize, at) == Some(types) {
      EntryCountIff(front + bytes, |types|, |front|, enc, size, ptrSize, at);
    }
  }

  lemma SurvivesAll(types: seq<word>, enc: byte, size: nat, start: word)
    ensures SurviveFrom(types, 0, enc, size, start) <==> TypesSurvive(types, enc, size, start)
  {
    hide EntrySurvives;
  }

  /** What the sizes allow of an LSDA with a type table, whose entries the program can store. */
  predicate Writable(l: Lsda, ptrSize: nat)
  {
    && Valid(l.actions) && FirstsValid(l) && |WriteTable(l.actions).bytes| < 0x800_0000
    && |Body(l)| + 8 * |l.types| < 0x8000_0000
    && l.ttEncoding != DW_EH_PE_OMIT && ptrSize <= 8 && TypeSize(EntrySize(l.ttEncoding, ptrSize))
    && (l.types == [] || Storable(l.ttEncoding))
  }

  lemma WritableBuilt(l: Lsda, address: word, ptrSize: nat)
    requires Writable(l, ptrSize)
    ensures LsdaBytes(l, address, ptrSize).Some?
  {
    hide Valid, LsdaBytes, Storable, WriteTable, Body, EntrySize;
    FirstsExist(l);
    LsdaBuiltIff(l, address, ptrSize);
  }

  /** The bytes at the end of the action table that belong to no action that is reached. */
  function Unread(l: Lsda): int
    requires Valid(l.actions) && FirstsValid(l)
  {
    |WriteTable(l.actions).bytes| - ReadEnd(l)
  }

  /** What survives: the entries do, and the bytes in front of them are too few for another one. */
  predicate ComesBack(l: Lsda, address: word, ptrSize: nat)
    requires Valid(l.actions) && FirstsValid(l) && EntrySize(l.ttEncoding, ptrSize).Some?
  {
    var size := EntrySize(l.ttEncoding, ptrSize).value;
    && Unread(l) + Padding(SizesOf(l, size)) < size
    && TypesSurvive(l.types, l.ttEncoding, size, (address + |Lead(l, size)|) % WORD)
  }

  lemma EntriesOf(l: Lsda, address: word, ptrSize: nat) returns (size: nat, types: seq<byte>)
    requires Writable(l, ptrSize)
    ensures EntrySize(l.ttEncoding, ptrSize) == Some(size) && TypeSize(Some(size)) && |Body(l)| + size * |l.types| < 0x8000_0000
    ensures Entries(l.types, 0, l.ttEncoding, size, (address + |Lead(l, size)|) % WORD) == Some(types)
    ensures LsdaBytes(l, address, ptrSize) == Some(Lead(l, size) + types)
  {
    WritableBuilt(l, address, ptrSize);
    size := EntrySize(l.ttEncoding, ptrSize).value;
    assert TypeSize(Some(size));
    MulMonotone(|l.types|, size, 8);
    hide Body, Lead, Entries, WriteTable, Valid, FirstsValid, EntrySize, TypeSize, Storable;
    types := Entries(l.types, 0, l.ttEncoding, size, (address + |Lead(l, size)|) % WORD).value;
  }

  /** The pieces of the LSDA. */
  lemma Pieces(l: Lsda, size: nat, types: seq<byte>, start: word, rest: seq<byte>)
    requires Valid(l.actions) && FirstsValid(l) && |Body(l)| + size * |l.types| < 0x8000_0000
    requires Entries(l.types, 0, l.ttEncoding, size, start) == Some(types)
    ensures var s := SizesOf(l, size);
      && |types| == s.types && s.middle == |Body(l)| && s.middle + s.types < 0x8000_0000
      && |Lead(l, size)| == |Header(l)| + Reserved(s) + |Body(l)| + Padding(s)
      && Lead(l, size) + types + rest
         == Header(l) + (FixedUleb(Base(s), Reserved(s)) + (Body(l) + (ExceptTable.Zeros(Padding(s)) + types + rest)))
      && |FixedUleb(Base(s), Reserved(s))| == Reserved(s) && |ExceptTable.Zeros(Padding(s))| == Padding(s)
  {
    var s := SizesOf(l, size);
    hide *;
    LeadIs(l, size);
    PadLength(Padding(s));
    EntriesCount(l.types, 0, l.ttEncoding, size, start);
    Rearrange(Header(l), FixedUleb(Base(s), Reserved(s)), Body(l), ExceptTable.Zeros(Padding(s)), types, rest);
  }

  /** What is read of the type table when the reader is behind the actions that are reached; front
      are the bytes from there to the entries. */
  lemma TableIff(types: seq<word>, enc: byte, size: nat, ptrSize: nat, front: seq<byte>, bytes: seq<byte>,
                 rest: seq<byte>, at: word, h: Head, t: Tables)
    requires ptrSize <= 8 && h.ttEncoding == enc && enc != DW_EH_PE_OMIT
    requires EntrySize(enc, ptrSize) == Some(size) && TypeSize(Some(size))
    requires t.rest == front + bytes + rest && h.base - (|h.rest| - |t.rest|) == |front| + |bytes|
    requires Entries(types, 0, enc, size, (at + |front|) % WORD) == Some(bytes)
    ensures ReadTypeTable(h, t, at, ptrSize) == Some(types)
       <==> |front| < size && TypesSurvive(types, enc, size, (at + |front|) % WORD)
  {
    assert t.rest[..|front| + |bytes|] == front + bytes;
    TypeTableIs(h, t, at, ptrSize, size, |front| + |bytes|);
    hide *;
    ReadTableIff(types, enc, ptrSize, front, at);
  }

  lemma TypeTableIs(h: Head, t: Tables, address: word, ptrSize: nat, size: nat, end: nat)
    requires ptrSize <= 8 && h.ttEncoding != DW_EH_PE_OMIT && EntrySize(h.ttEncoding, ptrSize) == Some(size) && size > 0
    requires end == h.base - (|h.rest| - |t.rest|) && end <= |t.rest|
    ensures ReadTypeTable(h, t, address, ptrSize) == ReadTypes(t.rest[..end], h.ttEncoding, size, ptrSize, address)
  {
    hide EntrySize, ReadTypes;
  }

  lemma Joined(a: seq<byte>, b: seq<byte>, types: seq<byte>, rest: seq<byte>)
    ensures a + (b + types + rest) == a + b + types + rest && |a + b| == |a| + |b|
  {
  }

  /** Everything is read but the type table: the rest begins behind the actions that are reached. */
  lemma ReadUp(l: Lsda, address: word, ptrSize: nat, tail: seq<byte>) returns (h: Head, t: Tables)
    requires Writable(l, ptrSize)
    ensures var s := SizesOf(l, EntrySize(l.ttEncoding, ptrSize).value);
      var leb := FixedUleb(Base(s), Reserved(s));
      var bytes := Header(l) + (leb + (Body(l) + tail));
      && h == Head(l.lpStart, l.ttEncoding, Base(s), Body(l) + tail) && ReadHeader(bytes, address, ptrSize) == Some(h)
      && |leb| == Reserved(s)
      && ReadBody(h.rest, (address + (|bytes| - |h.rest|)) % WORD, ptrSize) == Some(t)
      && ReadEnd(l) <= |WriteTable(l.actions).bytes| <= |Body(l)|
      && t.rest == WriteTable(l.actions).bytes[ReadEnd(l)..] + tail
      && Lsda(l.lpStart, l.ttEncoding, WithFirsts(t.sites, IndicesOf(t.reading.offs, FirstsOf(t.sites))), t.reading.actions, l.types)
         == Canonical(l)
  {
    hide Header; hide Body; hide ReadHeader; hide ReadBody; hide WriteTable; hide ReachAll; hide Renumbered; hide WithFirsts;
    hide IndicesOf; hide FirstsOf; hide AllReached; hide Valid; hide Firsts; hide Lead; hide Entries;
    hide EntrySize; hide Base; hide Reserved; hide Padding; hide FixedUleb; hide TakeWord; hide ReadEnd; hide LsdaBytes;
    var size := EntrySize(l.ttEncoding, ptrSize).value;
    var s := SizesOf(l, size);
    var leb := FixedUleb(Base(s), Reserved(s));
    LeadIs(l, size);
    TakeBase(s, Body(l) + tail);
    ReadHeaderAt(l, leb, Base(s), Body(l) + tail, address, ptrSize);
    h := Head(l.lpStart, l.ttEncoding, Base(s), Body(l) + tail);
    var place := (address + (|Header(l)| + Reserved(s))) % WORD;
    ReadBodyAt(l, tail, place, ptrSize);
    t := ReadBody(Body(l) + tail, place, ptrSize).value;
    BodyHasTable(l);
  }

  lemma BodyHasTable(l: Lsda)
    requires Valid(l.actions) && FirstsValid(l)
    ensures |WriteTable(l.actions).bytes| <= |Body(l)|
  {
    hide Uleb; hide SitesBytes; hide WriteTable; hide RawSites;
  }

  lemma ParseIff(l: Lsda, bytes: seq<byte>, address: word, ptrSize: nat, h: Head, t: Tables)
    requires ptrSize <= 8 && Valid(l.actions) && FirstsValid(l) && ReadHeader(bytes, address, ptrSize) == Some(h)
    requires ReadBody(h.rest, (address + (|bytes| - |h.rest|)) % WORD, ptrSize) == Some(t)
    requires h.lpStart == l.lpStart && h.ttEncoding == l.ttEncoding && |t.rest| <= |bytes|
    requires Lsda(l.lpStart, l.ttEncoding, WithFirsts(t.sites, IndicesOf(t.reading.offs, FirstsOf(t.sites))),
                  t.reading.actions, l.types) == Canonical(l)
    ensures ParseLsda(bytes, address, ptrSize) == Some(Canonical(l))
       <==> ReadTypeTable(h, t, (address + (|bytes| - |t.rest|)) % WORD, ptrSize) == Some(l.types)
  {
    hide ReadHeader, ReadBody, ReadTypeTable, WithFirsts, IndicesOf, FirstsOf, Valid, Firsts, Canonical;
  }

  /** Main result: an LSDA with a type table is read back, in its canonical form, exactly when its
      entries survive and the bytes between the actions that are reached and the type table are
      too few for another entry.  (When every action is reached these are at most three.) */
  lemma LsdaIff(l: Lsda, address: word, ptrSize: nat, rest: seq<byte>)
    requires Writable(l, ptrSize)
    ensures LsdaBytes(l, address, ptrSize).Some?
    ensures ParseLsda(LsdaBytes(l, address, ptrSize).value + rest, address, ptrSize) == Some(Canonical(l))
            <==> ComesBack(l, address, ptrSize)
  {
    hide Header; hide Body; hide ReadHeader; hide ReadBody; hide WriteTable; hide ReachAll; hide Renumbered; hide WithFirsts;
    hide IndicesOf; hide FirstsOf; hide AllReached; hide Valid; hide Firsts; hide Lead; hide Entries; hide TypesSurvive;
    hide EntrySize; hide Base; hide Reserved; hide Padding; hide FixedUleb; hide ReadTypeTable; hide ReadEnd; hide LsdaBytes;
    hide ParseLsda; hide Canonical; hide SizesOf; hide ExceptTable.Zeros;
    var size, types := EntriesOf(l, address, ptrSize);
    var (s, start) := (SizesOf(l, size), (address + |Lead(l, size)|) % WORD);
    Pieces(l, size, types, start, rest);
    var tail := ExceptTable.Zeros(Padding(s)) + types + rest;
    var bytes := LsdaBytes(l, address, ptrSize).value + rest;
    var h, t := ReadUp(l, address, ptrSize, tail);
    var unread := WriteTable(l.actions).bytes[ReadEnd(l)..];
    ParseIff(l, bytes, address, ptrSize, h, t);
    var n := |bytes| - |t.rest|;
    ModPlus(address, n, |unread| + Padding(s));
    BaseIs(s);
    var front := unread + ExceptTable.Zeros(Padding(s));
    Joined(unread, ExceptTable.Zeros(Padding(s)), types, rest);
    TableIff(l.types, l.ttEncoding, size, ptrSize, front, types, rest, (address + n) % WORD, h, t);
  }

  lemma BaseIs(s: Sizes)
    ensures Base(s) == s.middle + Padding(s) + s.types
  {
  }

  // ----- without a type table -----

  /** What the sizes allow of an LSDA without a type table. */
  predicate Plain(l: Lsda, ptrSize: nat)
  {
    && Valid(l.actions) && FirstsValid(l) && |WriteTable(l.actions).bytes| < 0x800_0000 && |Body(l)| < 0x8000_0000
    && l.ttEncoding == DW_EH_PE_OMIT && ptrSize <= 8
  }

  /** An LSDA that says it has no type table is read back exactly when it has none. */
  lemma PlainIff(l: Lsda, address: word, ptrSize: nat, rest: seq<byte>)
    requires Plain(l, ptrSize)
    ensures LsdaBytes(l, address, ptrSize).Some?
    ensures ParseLsda(LsdaBytes(l, address, ptrSize).value + rest, address, ptrSize) == Some(Canonical(l)) <==> l.types == []
  {
    hide Header; hide Body; hide ReadHeader; hide ReadBody; hide WriteTable; hide ReachAll; hide Renumbered; hide WithFirsts;
    hide IndicesOf; hide FirstsOf; hide AllReached; hide Valid; hide Firsts; hide ReadEnd;
    ReadHeaderAt(l, [], 0, Body(l) + rest, address, ptrSize);
    ReadBodyAt(l, rest, (address + |Header(l)|) % WORD, ptrSize);
    Rearrange(Header(l), [], Body(l), [], [], rest);
  }

  /** With every action reached only the padding is in front of the entries, which is at most three
      bytes. */
  lemma ReachedComesBack(l: Lsda, address: word, ptrSize: nat)
    requires Writable(l, ptrSize) && AllReached(l.actions, FirstsOf(l.callSites))
    ensures var size := EntrySize(l.ttEncoding, ptrSize).value;
      ComesBack(l, address, ptrSize)
      <==> Padding(SizesOf(l, size)) < size && TypesSurvive(l.types, l.ttEncoding, size, (address + |Lead(l, size)|) % WORD)
  {
    hide WriteTable, Body, Lead, TypesSurvive, ReachAll, EndOf, Entries, Complete, LsdaBytes;
    TableComplete(l.actions);
    ReadEndIs(l);
    EndOfTable(l.actions, WriteTable(l.actions), ReachAll(l.actions, FirstsOf(l.callSites), []));
  }
}
