/** .gcc_except_table (exceptTable.c): a language-specific data area (LSDA) for each
    function, with its call sites, its action table and its type table. */
module ExceptTable {
  import opened Bytes
  import opened Leb
  import opened LebWords
  import opened Cfa
  import opened ActionTable
  import opened EhPointers
  import opened TypeBase

  /** first is the index of the first action; while a table is read or written it is an
      offset into the action table. */
  datatype CallSite = CallSite(position: word, length: word, landingPad: word, first: Option<nat>)

  datatype Lsda = Lsda(lpStart: word, ttEncoding: byte, callSites: seq<CallSite>, actions: Actions, types: seq<word>)

  function FirstsOf(sites: seq<CallSite>): seq<Option<nat>>
  {
    seq(|sites|, j requires 0 <= j < |sites| => sites[j].first)
  }

  function WithFirsts(sites: seq<CallSite>, firsts: seq<Option<nat>>): seq<CallSite>
    requires |sites| == |firsts|
  {
    seq(|sites|, j requires 0 <= j < |sites| => sites[j].(first := firsts[j]))
  }

  // ----- the call site table -----

  function Biased(first: Option<nat>): nat { if first.None? then 0 else 1 + first.value }

  function SiteBytes(c: CallSite): seq<byte>
  {
    Uleb(c.position) + (Uleb(c.length) + (Uleb(c.landingPad) + Uleb(Biased(c.first))))
  }

  function SitesBytes(sites: seq<CallSite>): seq<byte>
  {
    if sites == [] then [] else SiteBytes(sites[0]) + SitesBytes(sites[1..])
  }

  function TakeWord(bytes: seq<byte>): (r: Option<Read<word>>)
    ensures r.Some? ==> |r.value.rest| < |bytes|
  {
    var (v, n) :- FromLeb(bytes);
    Some(Read(v, bytes[n..]))
  }

  /** A field in the format of the call sites; address is where bytes are. */
  function TakeField(bytes: seq<byte>, address: word, format: byte, ptrSize: nat): (r: Option<Read<word>>)
    requires ptrSize <= 8
    ensures r.Some? ==> |r.value.rest| <= |bytes|
  {
    var (v, n) :- DecodePointer(bytes, address, format, ptrSize);
    if n > |bytes| then None else Some(Read(v, bytes[n..]))
  }

  function ReadSite(bytes: seq<byte>, address: word, format: byte, ptrSize: nat): (r: Option<Read<CallSite>>)
    requires ptrSize <= 8
    ensures r.Some? ==> |r.value.rest| <= |bytes|
  {
    var p :- TakeField(bytes, address, format, ptrSize);
    var n :- TakeField(p.rest, At(address, |bytes| - |p.rest|), format, ptrSize);
    var l :- TakeField(n.rest, At(address, |bytes| - |n.rest|), format, ptrSize);
    var f :- TakeField(l.rest, At(address, |bytes| - |l.rest|), format, ptrSize);
    Some(Read(CallSite(p.value, n.value, l.value, if f.value == 0 then None else Some(f.value - 1)), f.rest))
  }

  /** readCallSiteTable: the records have to end exactly where the table does.  At the end of the
      section a pointer in the default format takes no bytes; the program then never ends. */
  function ReadSites(bytes: seq<byte>, size: nat, address: word, format: byte, ptrSize: nat): (r: Option<seq<CallSite>>)
    requires ptrSize <= 8
    ensures r.Some? ==> size <= |bytes|
    decreases |bytes|
  {
    if size == 0 then Some([])
    else
      var c :- ReadSite(bytes, address, format, ptrSize);
      var n := |bytes| - |c.rest|;
      if n > size || n == 0 then None
      else Prefixed([c.value], ReadSites(c.rest, size - n, At(address, n), format, ptrSize))
  }

  function At(address: word, n: nat): word { (address + n) % WORD }

  lemma TakeFieldAt(v: word, rest: seq<byte>, address: word, ptrSize: nat)
    requires ptrSize <= 8
    ensures TakeField(Uleb(v) + rest, address, DW_EH_PE_ULEB128, ptrSize) == Some(Read(v, rest))
  {
    hide Uleb, DecodePointer;
    DecodeUlebAt(v, rest, address, ptrSize);
    assert (Uleb(v) + rest)[|Uleb(v)|..] == rest;
  }

  predicate SiteOk(c: CallSite) { c.first.Some? ==> c.first.value < WORD - 1 }

  lemma ReadSiteAt(c: CallSite, rest: seq<byte>, address: word, ptrSize: nat)
    requires SiteOk(c) && ptrSize <= 8
    ensures ReadSite(SiteBytes(c) + rest, address, DW_EH_PE_ULEB128, ptrSize) == Some(Read(c, rest))
  {
    hide TakeField; hide Uleb; hide At;
    var a, b, d, e := Uleb(c.position), Uleb(c.length), Uleb(c.landingPad), Uleb(Biased(c.first));
    var all := SiteBytes(c) + rest;
    assert all == a + (b + (d + (e + rest)));
    TakeFieldAt(c.position, b + (d + (e + rest)), address, ptrSize);
    TakeFieldAt(c.length, d + (e + rest), At(address, |all| - |b + (d + (e + rest))|), ptrSize);
    TakeFieldAt(c.landingPad, e + rest, At(address, |all| - |d + (e + rest)|), ptrSize);
    TakeFieldAt(Biased(c.first), rest, At(address, |all| - |e + rest|), ptrSize);
  }

  lemma {:induction false} ReadSitesAt(sites: seq<CallSite>, rest: seq<byte>, address: word, ptrSize: nat)
    requires ptrSize <= 8 && forall c :: c in sites ==> SiteOk(c)
    ensures ReadSites(SitesBytes(sites) + rest, |SitesBytes(sites)|, address, DW_EH_PE_ULEB128, ptrSize) == Some(sites)
  {
    hide *;
    SitesUnfold(sites, rest);
    if sites == [] {
      NoSites(SitesBytes(sites) + rest, address, DW_EH_PE_ULEB128, ptrSize);
    } else {
      var others := SitesBytes(sites[1..]) + rest;
      ReadSiteAt(sites[0], others, address, ptrSize);
      ReadSitesAt(sites[1..], rest, At(address, |SiteBytes(sites[0])|), ptrSize);
      ReadSitesStep(SitesBytes(sites) + rest, |SitesBytes(sites)|, sites[0], others, address, DW_EH_PE_ULEB128, ptrSize);
      OneMore(sites);
    }
  }

  lemma NoSites(bytes: seq<byte>, address: word, format: byte, ptrSize: nat)
    requires ptrSize <= 8
    ensures ReadSites(bytes, 0, address, format, ptrSize) == Some([])
  {
  }

  lemma OneMore<T>(s: seq<T>)
    requires s != []
    ensures Prefixed([s[0]], Some(s[1..])) == Some(s)
  {
    assert [s[0]] + s[1..] == s;
  }

  lemma SitesUnfold(sites: seq<CallSite>, rest: seq<byte>)
    ensures sites == [] ==> SitesBytes(sites) == []
    ensures sites != [] ==>
              && SitesBytes(sites) + rest == SiteBytes(sites[0]) + (SitesBytes(sites[1..]) + rest)
              && |SitesBytes(sites)| == |SiteBytes(sites[0])| + |SitesBytes(sites[1..])|
              && |SiteBytes(sites[0])| > 0
  {
    if sites != [] {
      assert |SiteBytes(sites[0])| > 0;
      hide SiteBytes;
    }
  }

  lemma ReadSitesStep(bytes: seq<byte>, size: nat, c: CallSite, rest: seq<byte>, address: word, format: byte, ptrSize: nat)
    requires ptrSize <= 8 && ReadSite(bytes, address, format, ptrSize) == Some(Read(c, rest))
    requires 0 < |bytes| - |rest| <= size
    ensures ReadSites(bytes, size, address, format, ptrSize)
         == Prefixed([c], ReadSites(rest, size - (|bytes| - |rest|), At(address, |bytes| - |rest|), format, ptrSize))
  {
    hide ReadSite;
  }

  // ----- the type table -----

  /** The loop from the last entry down to entry lo; at is where the table starts. */
  function Entries(types: seq<word>, lo: nat, enc: byte, size: nat, at: word): Option<seq<byte>>
    requires lo <= |types|
    decreases |types| - lo
  {
    if lo == |types| then Some([])
    else
      var before :- Entries(types, lo + 1, enc, size, at);
      var e :- StoredEntry(types[lo], enc, size, (at + |before|) % WORD, lo);
      Some(before + e)
  }

  /** readTypeTable: entries are taken from the end as long as there are bytes between
      the end of the action table and the end of the type table. */
  function ReadTypes(table: seq<byte>, enc: byte, size: nat, ptrSize: nat, at: word): Option<seq<word>>
    requires size > 0 && ptrSize <= 8
    decreases |table|
  {
    if |table| < size then Some([])
    else
      var top := |table| - size;
      var v :- DecodePointer(table[top..], (at + top) % WORD, enc, ptrSize);
      Prefixed([v.0], ReadTypes(table[..top], enc, size, ptrSize, at))
  }

  /** As many entries are read as fit behind the action table. */
  lemma {:induction false} TypesRead(table: seq<byte>, enc: byte, size: nat, ptrSize: nat, at: word)
    requires size > 0 && ptrSize <= 8 && ReadTypes(table, enc, size, ptrSize, at).Some?
    ensures var n := |ReadTypes(table, enc, size, ptrSize, at).value|; n * size <= |table| < (n + 1) * size
    decreases |table|
  {
    if |table| >= size {
      TypesRead(table[..|table| - size], enc, size, ptrSize, at);
      var n := |ReadTypes(table[..|table| - size], enc, size, ptrSize, at).value|;
      assert (n + 1) * size == n * size + size && (n + 2) * size == n * size + 2 * size;
    }
  }

  /** Behind pad bytes of padding, a table of n entries is read with n entries exactly
      when the padding is shorter than an entry: with two-byte entries, two or three
      bytes of padding become an entry of their own. */
  lemma EntryCountIff(table: seq<byte>, n: nat, pad: nat, enc: byte, size: nat, ptrSize: nat, at: word)
    requires size > 0 && ptrSize <= 8 && |table| == pad + n * size
    requires ReadTypes(table, enc, size, ptrSize, at).Some?
    ensures |ReadTypes(table, enc, size, ptrSize, at).value| == n <==> pad < size
  {
    TypesRead(table, enc, size, ptrSize, at);
    var m := |ReadTypes(table, enc, size, ptrSize, at).value|;
    hide ReadTypes;
    CountIff(m, n, pad, size);
  }

  lemma CountIff(m: nat, n: nat, pad: nat, size: nat)
    requires size > 0 && m * size <= pad + n * size < (m + 1) * size
    ensures m == n <==> pad < size
  {
    if m > n { MulMonotone(size, n + 1, m); }
    if m < n { MulMonotone(size, m + 1, n); }
  }

  predicate TypesSurvive(types: seq<word>, enc: byte, size: nat, at: word)
  {
    forall j: nat :: j < |types| ==> EntrySurvives(types[j], enc, size, (at + (|types| - 1 - j) * size) % WORD, j)
  }

  lemma NoTypes(pad: seq<byte>, enc: byte, size: nat, ptrSize: nat, at: word)
    requires |pad| < size && ptrSize <= 8
    ensures ReadTypes(pad + [], enc, size, ptrSize, at) == Some([])
  {
  }

  lemma EntryLength(v: word, enc: byte, size: nat, location: word, j: nat)
    requires StoredEntry(v, enc, size, location, j).Some?
    ensures |StoredEntry(v, enc, size, location, j).value| == size
  {
  }

  lemma EntriesUnfold(types: seq<word>, lo: nat, enc: byte, size: nat, at: word)
    requires lo <= |types| && Entries(types, lo, enc, size, at).Some?
    ensures lo == |types| ==> Entries(types, lo, enc, size, at) == Some([]) && types[lo..] == []
    ensures lo < |types| ==>
              && Entries(types, lo + 1, enc, size, at).Some?
              && var before := Entries(types, lo + 1, enc, size, at).value;
                 var e := StoredEntry(types[lo], enc, size, (at + |before|) % WORD, lo);
                 && e.Some? && Entries(types, lo, enc, size, at) == Some(before + e.value)
                 && types[lo..][0] == types[lo] && types[lo..][1..] == types[lo + 1..]
  {
    hide StoredEntry;
  }

  lemma ModPlus(a: nat, b: nat, c: nat)
    ensures ((a + b) % WORD + c) % WORD == (a + b + c) % WORD
  {
    var q, r := (a + b) / WORD, (a + b) % WORD;
    assert a + b == WORD * q + r;
    AddMultiple(r + c, WORD, q);
  }

  // ----- an LSDA -----

  function Zeros(n: nat): seq<byte> { seq(n, (i: nat) => 0) }

  function Header(l: Lsda): seq<byte>
  {
    (if l.lpStart != 0 then [DW_EH_PE_ULEB128] + Uleb(l.lpStart) else [DW_EH_PE_OMIT]) + [l.ttEncoding]
  }

  predicate FirstsValid(l: Lsda) { Firsts(l.actions, FirstsOf(l.callSites)) }

  /** The call sites with offsets into the action table. */
  function RawSites(l: Lsda, w: Written): seq<CallSite>
    requires FirstsValid(l) && |w.offset| == |l.actions|
  {
    WithFirsts(l.callSites, OffsetsOf(w.offset, FirstsOf(l.callSites)))
  }

  /** From the call site format to the end of the action table. */
  function Body(l: Lsda): seq<byte>
    requires Valid(l.actions) && FirstsValid(l)
  {
    var w := WriteTable(l.actions);
    var sites := SitesBytes(RawSites(l, w));
    [DW_EH_PE_ULEB128] + (Uleb(|sites|) + (sites + w.bytes))
  }

  function SizesOf(l: Lsda, size: nat): Sizes
    requires Valid(l.actions) && FirstsValid(l)
  {
    MulMonotone(|l.types|, 0, size);
    Sizes(|Header(l)|, |Body(l)|, |l.types| * size)
  }

  /** Everything before the type table. */
  function Lead(l: Lsda, size: nat): seq<byte>
    requires Valid(l.actions) && FirstsValid(l)
  {
    var s := SizesOf(l, size);
    Header(l) + (FixedUleb(Base(s), Reserved(s)) + (Body(l) + Zeros(Padding(s))))
  }

  /** The loop body of buildExceptTableRawData, for an LSDA that is to be at an address. */
  function LsdaBytes(l: Lsda, address: word, ptrSize: nat): Option<seq<byte>>
    requires Valid(l.actions)
  {
    if !FirstsValid(l) then None
    else
      var size :- EntrySize(l.ttEncoding, ptrSize);
      if l.ttEncoding == DW_EH_PE_OMIT then Some(Header(l) + Body(l))
      else
        var types :- Entries(l.types, 0, l.ttEncoding, size, (address + |Lead(l, size)|) % WORD);
        Some(Lead(l, size) + types)
  }

  // ----- when an LSDA is built -----

  /** What the program asks of an LSDA: first actions that exist, an encoding of the type table with
      an entry size, and one that it can store if there is anything to be stored. */
  predicate Buildable(l: Lsda, ptrSize: nat)
  {
    && (forall c :: c in l.callSites && c.first.Some? ==> c.first.value < |l.actions|)
    && EntrySize(l.ttEncoding, ptrSize).Some?
    && (l.ttEncoding == DW_EH_PE_OMIT || l.types == [] || Storable(l.ttEncoding))
  }

  lemma {:induction false} EntriesIff(types: seq<word>, lo: nat, enc: byte, size: nat, at: word)
    requires lo <= |types|
    ensures Entries(types, lo, enc, size, at).Some? <==> lo == |types| || Storable(enc)
    decreases |types| - lo
  {
    if lo < |types| { EntriesIff(types, lo + 1, enc, size, at); }
  }

  lemma FirstsExist(l: Lsda)
    ensures FirstsValid(l) <==> forall c :: c in l.callSites && c.first.Some? ==> c.first.value < |l.actions|
  {
    if FirstsValid(l) {
      forall c | c in l.callSites && c.first.Some? ensures c.first.value < |l.actions| {
        var j :| 0 <= j < |l.callSites| && l.callSites[j] == c;
        assert FirstsOf(l.callSites)[j] == c.first;
      }
    }
    if forall c :: c in l.callSites && c.first.Some? ==> c.first.value < |l.actions| {
      forall j | 0 <= j < |l.callSites| && FirstsOf(l.callSites)[j].Some? ensures FirstsOf(l.callSites)[j].value < |l.actions| {
        assert l.callSites[j] in l.callSites;
      }
    }
  }

  /** An LSDA is built, wherever it is to be, exactly when the program's demands are met. */
  lemma LsdaBuiltIff(l: Lsda, address: word, ptrSize: nat)
    requires Valid(l.actions)
    ensures LsdaBytes(l, address, ptrSize).Some? <==> Buildable(l, ptrSize)
  {
    FirstsExist(l);
    hide FirstsValid, Header, Body, Lead, Entries, EntrySize, Storable, Valid;
    if FirstsValid(l) && EntrySize(l.ttEncoding, ptrSize).Some? {
      var size := EntrySize(l.ttEncoding, ptrSize).value;
      EntriesIff(l.types, 0, l.ttEncoding, size, (address + |Lead(l, size)|) % WORD);
    }
  }

  // ----- reading an LSDA -----

  datatype Head = Head(lpStart: word, ttEncoding: byte, base: nat, rest: seq<byte>)

  /** The header; base is the distance from rest to the end of the type table. */
  function ReadHeader(bytes: seq<byte>, address: word, ptrSize: nat): Option<Head>
    requires ptrSize <= 8
  {
    if bytes == [] then None
    else
      var lp :- ReadLpStart(bytes, address, ptrSize);
      if lp.rest == [] then None
      else
        var enc, rest := lp.rest[0], lp.rest[1..];
        if enc == DW_EH_PE_OMIT then Some(Head(lp.value, enc, 0, rest))
        else
          var base :- TakeWord(rest);
          Some(Head(lp.value, enc, base.value, base.rest))
  }

  function ReadLpStart(bytes: seq<byte>, address: word, ptrSize: nat): Option<Read<word>>
    requires ptrSize <= 8 && bytes != []
  {
    if bytes[0] == DW_EH_PE_OMIT then Some(Read(0, bytes[1..]))
    else
      var (v, n) :- DecodePointer(bytes[1..], (address + 1) % WORD, bytes[0], ptrSize);
      if n > |bytes| - 1 then None else Some(Read(v, bytes[1 + n..]))
  }

  /** Call sites as they are read, the records their chains lead to, and what is left. */
  datatype Tables = Tables(sites: seq<CallSite>, reading: Reading, rest: seq<byte>)

  function ReadBody(bytes: seq<byte>, address: word, ptrSize: nat): (r: Option<Tables>)
    requires ptrSize <= 8
    ensures r.Some? ==> |r.value.rest| <= |bytes| && InStep(r.value.reading, None)
  {
    if bytes == [] then None
    else
      var format := bytes[0];
      var size :- TakeField(bytes[1..], At(address, 1), format, ptrSize);
      var sites :- ReadSites(size.rest, size.value, At(address, |bytes| - |size.rest|), format, ptrSize);
      var stream := size.rest[size.value..];
      var r :- ReadChains(stream, FirstsOf(sites), NOTHING_READ);
      if r.end > |stream| then None else Some(Tables(sites, r, stream[r.end..]))
  }

  /** parseExceptFrame for one LSDA. */
  function ParseLsda(bytes: seq<byte>, address: word, ptrSize: nat): Option<Lsda>
    requires ptrSize <= 8
  {
    var h :- ReadHeader(bytes, address, ptrSize);
    var t :- ReadBody(h.rest, (address + (|bytes| - |h.rest|)) % WORD, ptrSize);
    var types :- ReadTypeTable(h, t, (address + (|bytes| - |t.rest|)) % WORD, ptrSize);
    Some(Lsda(h.lpStart, h.ttEncoding,
              WithFirsts(t.sites, IndicesOf(t.reading.offs, FirstsOf(t.sites))), t.reading.actions, types))
  }

  function ReadTypeTable(h: Head, t: Tables, address: word, ptrSize: nat): Option<seq<word>>
    requires ptrSize <= 8
  {
    if h.ttEncoding == DW_EH_PE_OMIT then Some([])
    else
      var size :- EntrySize(h.ttEncoding, ptrSize);
      var end := h.base - (|h.rest| - |t.rest|);
      if size == 0 || end > |t.rest| then None
      else if end < 0 then Some([])
      else ReadTypes(t.rest[..end], h.ttEncoding, size, ptrSize, address)
  }

  // ----- there and back -----

  /** The LSDA with its actions in the order in which the call sites reach them. */
  function Canonical(l: Lsda): Lsda
    requires Valid(l.actions) && FirstsValid(l)
  {
    var order := ReachAll(l.actions, FirstsOf(l.callSites), []);
    l.(callSites := WithFirsts(l.callSites, IndicesOf(order, FirstsOf(l.callSites))), actions := Renumbered(l.actions, order))
  }

  lemma ReadHeaderAt(l: Lsda, base: seq<byte>, v: word, rest: seq<byte>, address: word, ptrSize: nat)
    requires ptrSize <= 8
    requires if l.ttEncoding == DW_EH_PE_OMIT then base == [] && v == 0 else TakeWord(base + rest) == Some(Read(v, rest))
    ensures ReadHeader(Header(l) + (base + rest), address, ptrSize) == Some(Head(l.lpStart, l.ttEncoding, v, rest))
  {
    hide Uleb; hide TakeWord; hide ReadLpStart; hide ReadHeader;
    var lp := if l.lpStart != 0 then [DW_EH_PE_ULEB128] + Uleb(l.lpStart) else [DW_EH_PE_OMIT];
    var more := [l.ttEncoding] + (base + rest);
    LpStartAt(l, more, address, ptrSize);
    assert Header(l) + (base + rest) == lp + more;
    ReadHeaderStep(lp + more, address, ptrSize, l.lpStart, l.ttEncoding, base + rest);
    assert [] + rest == rest;
  }

  lemma ReadHeaderStep(bytes: seq<byte>, address: word, ptrSize: nat, v: word, enc: byte, tail: seq<byte>)
    requires ptrSize <= 8 && bytes != [] && ReadLpStart(bytes, address, ptrSize) == Some(Read(v, [enc] + tail))
    ensures ReadHeader(bytes, address, ptrSize)
         == if enc == DW_EH_PE_OMIT then Some(Head(v, enc, 0, tail))
            else if TakeWord(tail).None? then None
            else Some(Head(v, enc, TakeWord(tail).value.value, TakeWord(tail).value.rest))
  {
    hide TakeWord; hide ReadLpStart;
    assert ([enc] + tail)[1..] == tail;
  }

  lemma LpStartAt(l: Lsda, more: seq<byte>, address: word, ptrSize: nat)
    requires ptrSize <= 8
    ensures ReadLpStart((if l.lpStart != 0 then [DW_EH_PE_ULEB128] + Uleb(l.lpStart) else [DW_EH_PE_OMIT]) + more, address, ptrSize)
         == Some(Read(l.lpStart, more))
  {
    hide Uleb; hide DecodePointer;
    if l.lpStart != 0 {
      var leb := Uleb(l.lpStart);
      var bytes := [DW_EH_PE_ULEB128] + leb + more;
      assert bytes[1..] == leb + more && bytes[1 + |leb|..] == more;
      DecodeUlebAt(l.lpStart, more, (address + 1) % WORD, ptrSize);
    } else {
      assert ([DW_EH_PE_OMIT] + more)[1..] == more;
    }
  }

  lemma DecodeUlebAt(v: word, rest: seq<byte>, address: word, ptrSize: nat)
    requires ptrSize <= 8
    ensures DecodePointer(Uleb(v) + rest, address, DW_EH_PE_ULEB128, ptrSize) == Some((v, |Uleb(v)|))
  {
    hide Uleb; hide ReadUnsigned;
    ReadUlebWord(v, rest);
  }

  /** Where the last record ends that a call site reaches. */
  function ReadEnd(l: Lsda): nat
    requires Valid(l.actions) && FirstsValid(l)
  {
    RawDefined(l);
    EndOf(l.actions, WriteTable(l.actions), ReachAll(l.actions, FirstsOf(l.callSites), []))
  }

  lemma ReadEndIs(l: Lsda)
    requires Valid(l.actions) && FirstsValid(l)
    ensures Inside(l.actions, WriteTable(l.actions), ReachAll(l.actions, FirstsOf(l.callSites), []))
    ensures ReadEnd(l) == EndOf(l.actions, WriteTable(l.actions), ReachAll(l.actions, FirstsOf(l.callSites), []))
  {
    RawDefined(l);
  }

  lemma ReadBodyAt(l: Lsda, rest: seq<byte>, address: word, ptrSize: nat)
    requires ptrSize <= 8 && Valid(l.actions) && FirstsValid(l) && |WriteTable(l.actions).bytes| < 0x800_0000 && |Body(l)| < 0x8000_0000
    ensures var t, order := ReadBody(Body(l) + rest, address, ptrSize), ReachAll(l.actions, FirstsOf(l.callSites), []);
            && t.Some?
            && WithFirsts(t.value.sites, IndicesOf(t.value.reading.offs, FirstsOf(t.value.sites)))
               == WithFirsts(l.callSites, IndicesOf(order, FirstsOf(l.callSites)))
            && t.value.reading.actions == Renumbered(l.actions, order)
            && (AllReached(l.actions, FirstsOf(l.callSites)) ==> t.value.rest == rest)
            && ReadEnd(l) <= |WriteTable(l.actions).bytes|
            && t.value.rest == WriteTable(l.actions).bytes[ReadEnd(l)..] + rest
  {
    var order := ReachedOrder(l);
    hide *;
    RawDefined(l);
    ReadEndIs(l);
    var w, firsts := WriteTable(l.actions), FirstsOf(l.callSites);
    BodySites(l, rest, address, ptrSize);
    TableComplete(l.actions);
    TableReadBack(l.actions, w, rest, firsts);
    SitesRenumbered(l, w, order);
    Suffix(w.bytes, rest, |w.bytes|);
    Suffix(w.bytes, rest, ReadEnd(l));
  }

  lemma ReachedOrder(l: Lsda) returns (order: seq<nat>)
    requires Valid(l.actions) && FirstsValid(l)
    ensures Indices(l.actions, []) && Firsts(l.actions, FirstsOf(l.callSites))
    ensures order == ReachAll(l.actions, FirstsOf(l.callSites), [])
  {
    order := ReachAll(l.actions, FirstsOf(l.callSites), []);
  }

  /** The call sites are read, with offsets into the action table behind them. */
  lemma BodySites(l: Lsda, rest: seq<byte>, address: word, ptrSize: nat)
    requires ptrSize <= 8 && Valid(l.actions) && FirstsValid(l) && |WriteTable(l.actions).bytes| < 0x800_0000 && |Body(l)| < 0x8000_0000
    ensures |WriteTable(l.actions).offset| == |l.actions| && Firsts(l.actions, FirstsOf(l.callSites))
    ensures var stream := WriteTable(l.actions).bytes + rest;
      var offs := OffsetsOf(WriteTable(l.actions).offset, FirstsOf(l.callSites));
      var sites := RawSites(l, WriteTable(l.actions));
      var r := ReadChains(stream, offs, NOTHING_READ);
      && FirstsOf(sites) == offs
      && ReadBody(Body(l) + rest, address, ptrSize)
         == if r.None? || r.value.end > |stream| then None else Some(Tables(sites, r.value, stream[r.value.end..]))
  {
    RawDefined(l);
    BodyLength(l);
    var w := WriteTable(l.actions);
    var sites, stream := RawSites(l, w), w.bytes + rest;
    assert |SitesBytes(sites)| < WORD;
    hide *;
    RawSitesFacts(l, w);
    BodyStream(l, rest);
    SitesInFront(Body(l) + rest, SitesBytes(sites), sites, stream, address, ptrSize);
  }

  lemma SitesInFront(bytes: seq<byte>, s: seq<byte>, sites: seq<CallSite>, stream: seq<byte>, address: word, ptrSize: nat)
    requires ptrSize <= 8 && s == SitesBytes(sites) && |s| < WORD && forall c :: c in sites ==> SiteOk(c)
    requires bytes == [DW_EH_PE_ULEB128] + (Uleb(|s|) + (s + stream))
    ensures var r := ReadChains(stream, FirstsOf(sites), NOTHING_READ);
            ReadBody(bytes, address, ptrSize)
            == if r.None? || r.value.end > |stream| then None else Some(Tables(sites, r.value, stream[r.value.end..]))
  {
    hide *;
    var tail := Uleb(|s|) + (s + stream);
    BodyTail(bytes, tail, s, stream);
    var size: Read<word> := Read(|s|, s + stream);
    ReadSitesAt(sites, stream, At(address, |bytes| - |size.rest|), ptrSize);
    TakeFieldAt(|s|, s + stream, At(address, 1), ptrSize);
    ReadBodyIs(bytes, tail, size, sites, address, ptrSize);
  }

  lemma SitesRenumbered(l: Lsda, w: Written, order: seq<nat>)
    requires FirstsValid(l) && |w.offset| == |l.actions|
    ensures var f := IndicesOf(order, FirstsOf(l.callSites));
      && |f| == |RawSites(l, w)| == |l.callSites|
      && WithFirsts(RawSites(l, w), f) == WithFirsts(l.callSites, f)
  {
    hide IndexOf;
  }

  lemma Suffix(a: seq<byte>, rest: seq<byte>, n: nat)
    requires n <= |a|
    ensures (a + rest)[n..] == a[n..] + rest
    ensures n == |a| ==> (a + rest)[n..] == rest
  {
  }

  lemma RawDefined(l: Lsda)
    requires Valid(l.actions) && FirstsValid(l)
    ensures Firsts(l.actions, FirstsOf(l.callSites)) && |WriteTable(l.actions).offset| == |l.actions|
  {
    hide WriteTable;
  }

  lemma BodyLength(l: Lsda)
    requires Valid(l.actions) && FirstsValid(l)
    ensures |SitesBytes(RawSites(l, WriteTable(l.actions)))| <= |Body(l)|
  {
    hide Uleb; hide SitesBytes; hide WriteTable; hide RawSites;
  }

  lemma RawSitesFacts(l: Lsda, w: Written)
    requires FirstsValid(l) && |w.offset| == |l.actions| && Valid(l.actions) && w == WriteTable(l.actions)
    requires |w.bytes| < 0x800_0000
    ensures var sites := RawSites(l, w);
            && FirstsOf(sites) == OffsetsOf(w.offset, FirstsOf(l.callSites))
            && (forall c :: c in sites ==> SiteOk(c))
            && |sites| == |l.callSites|
  {
    var sites := RawSites(l, w);
    TableComplete(l.actions);
    forall c | c in sites ensures SiteOk(c) {
      if c.first.Some? {
        var j :| 0 <= j < |sites| && sites[j] == c;
        OffsetBound(l.actions, w, FirstsOf(l.callSites)[j].value);
      }
    }
    assert FirstsOf(sites) == OffsetsOf(w.offset, FirstsOf(l.callSites));
  }

  lemma BodyStream(l: Lsda, rest: seq<byte>)
    requires Valid(l.actions) && FirstsValid(l)
    ensures var w := WriteTable(l.actions);
            var sites := SitesBytes(RawSites(l, w));
            Body(l) + rest == [DW_EH_PE_ULEB128] + (Uleb(|sites|) + (sites + (w.bytes + rest)))
  {
    hide Uleb; hide SitesBytes; hide WriteTable; hide RawSites;
  }

  lemma BodyTail(bytes: seq<byte>, tail: seq<byte>, s: seq<byte>, stream: seq<byte>)
    requires bytes == [DW_EH_PE_ULEB128] + tail && tail == Uleb(|s|) + (s + stream)
    ensures bytes != [] && bytes[0] == DW_EH_PE_ULEB128 && bytes[1..] == tail
    ensures |s + stream| <= |tail| < |bytes| && (s + stream)[|s|..] == stream
  {
    hide Uleb;
  }

  lemma ReadBodyIs(bytes: seq<byte>, tail: seq<byte>, size: Read<word>, sites: seq<CallSite>, address: word, ptrSize: nat)
    requires ptrSize <= 8 && bytes != [] && tail == bytes[1..] && |size.rest| <= |tail|
    requires TakeField(tail, At(address, 1), bytes[0], ptrSize) == Some(size)
    requires ReadSites(size.rest, size.value, At(address, |bytes| - |size.rest|), bytes[0], ptrSize) == Some(sites)
    ensures size.value <= |size.rest|
    ensures var stream := size.rest[size.value..];
            var r := ReadChains(stream, FirstsOf(sites), NOTHING_READ);
            ReadBody(bytes, address, ptrSize)
            == if r.None? || r.value.end > |stream| then None else Some(Tables(sites, r.value, stream[r.value.end..]))
  {
    hide ReadSites, TakeField, ReadChains, At, FirstsOf, InStep;
  }

  /** The pieces of an LSDA with a type table. */
  lemma LeadIs(l: Lsda, size: nat)
    requires Valid(l.actions) && FirstsValid(l) && |Body(l)| + size * |l.types| < 0x8000_0000
    ensures var s := SizesOf(l, size);
            && s.middle == |Body(l)| && s.types == |l.types| * size
            && |FixedUleb(Base(s), Reserved(s))| == Reserved(s)
            && Lead(l, size) == Header(l) + (FixedUleb(Base(s), Reserved(s)) + (Body(l) + Zeros(Padding(s))))
            && |Lead(l, size)| % 4 == 0
  {
    hide Header; hide Body; hide FixedUleb; hide Reserved; hide Base;
    var s := SizesOf(l, size);
    BaseFits(s, []);
  }

  lemma Rearrange(h: seq<byte>, leb: seq<byte>, body: seq<byte>, pad: seq<byte>, types: seq<byte>, rest: seq<byte>)
    ensures (h + (leb + (body + pad))) + types + rest == h + (leb + (body + (pad + types + rest)))
    ensures h + body + rest == h + ([] + (body + rest))
  {
  }

  lemma PadLength(n: nat)
    ensures |Zeros(n)| == n
  {
  }

  lemma TakeBase(s: Sizes, rest: seq<byte>)
    requires s.middle + s.types < 0x8000_0000
    ensures Base(s) < WORD && TakeWord(FixedUleb(Base(s), Reserved(s)) + rest) == Some(Read(Base(s), rest))
  {
    hide FixedUleb; hide Base; hide Reserved; hide ReadUnsigned;
    BaseFits(s, rest);
    var leb := FixedUleb(Base(s), Reserved(s));
    assert (leb + rest)[|leb|..] == rest;
  }

  // ----- the section -----

  function Aligned(buf: seq<byte>): (r: seq<byte>)
    ensures buf <= r && |r| % 4 == 0
  {
    buf + Zeros(ToAlignment(|buf|))
  }

  predicate AllActionsValid(lsdas: seq<Lsda>) { forall i :: 0 <= i < |lsdas| ==> Valid(lsdas[i].actions) }

  /** buildExceptTableRawData: the section, and the offset of each LSDA in it. */
  function Build(lsdas: seq<Lsda>, buf: seq<byte>, address: word, ptrSize: nat): Option<(seq<byte>, seq<nat>)>
    requires AllActionsValid(lsdas)
    decreases |lsdas|
  {
    if lsdas == [] then Some((buf, []))
    else
      var start := Aligned(buf);
      var bytes :- LsdaBytes(lsdas[0], At(address, |start|), ptrSize);
      var (section, offsets) :- Build(lsdas[1..], start + bytes, address, ptrSize);
      Some((section, [|start|] + offsets))
  }

  predicate AllBuildable(lsdas: seq<Lsda>, ptrSize: nat) { forall l :: l in lsdas ==> Buildable(l, ptrSize) }

  /** A section is built exactly when every LSDA can be. */
  lemma {:induction false} BuildIff(lsdas: seq<Lsda>, buf: seq<byte>, address: word, ptrSize: nat)
    requires AllActionsValid(lsdas)
    ensures Build(lsdas, buf, address, ptrSize).Some? <==> AllBuildable(lsdas, ptrSize)
    decreases |lsdas|
  {
    hide LsdaBytes, Buildable, Valid, Aligned;
    if lsdas != [] {
      var start := Aligned(buf);
      LsdaBuiltIff(lsdas[0], At(address, |start|), ptrSize);
      assert forall l :: l in lsdas <==> l == lsdas[0] || l in lsdas[1..];
      var bytes := LsdaBytes(lsdas[0], At(address, |start|), ptrSize);
      if bytes.Some? { BuildIff(lsdas[1..], start + bytes.value, address, ptrSize); }
    }
  }

  /** parseExceptFrame: the LSDAs at the given offsets; all other data is ignored, and in an
      empty section there are none. */
  function Parse(section: seq<byte>, offsets: seq<nat>, address: word, ptrSize: nat): Option<seq<Lsda>>
    requires ptrSize <= 8
    decreases |offsets|
  {
    if offsets == [] || section == [] then Some([])
    else if offsets[0] > |section| then None
    else
      var l :- ParseLsda(section[offsets[0]..], At(address, offsets[0]), ptrSize);
      Prefixed([l], Parse(section, offsets[1..], address, ptrSize))
  }

  /** An LSDA is its own canonical form exactly when its actions are numbered in
      first-reach order and none is its own successor. */
  lemma CanonicalIff(l: Lsda)
    requires Valid(l.actions) && FirstsValid(l)
    ensures Canonical(l) == l <==>
            ReachAll(l.actions, FirstsOf(l.callSites), []) == Iota(|l.actions|) && NoSelfLoop(l.actions)
  {
    hide ReachAll; hide Renumbered; hide Valid; hide NoSelfLoop; hide Iota; hide IndexOf;
    var firsts := FirstsOf(l.callSites);
    var order := ReachAll(l.actions, firsts, []);
    UnchangedIff(l.actions, firsts);
    SameSites(l.callSites, IndicesOf(order, firsts));
  }

  lemma SameSites(sites: seq<CallSite>, firsts: seq<Option<nat>>)
    requires |firsts| == |sites|
    ensures WithFirsts(sites, firsts) == sites <==> firsts == FirstsOf(sites)
  {
    if WithFirsts(sites, firsts) == sites {
      forall j | 0 <= j < |sites| ensures firsts[j] == FirstsOf(sites)[j] {
        assert WithFirsts(sites, firsts)[j] == sites[j];
      }
    }
  }

  // ----- the writer as it runs -----

  method WriteCallSites(sites: seq<CallSite>, offsets: seq<nat>) returns (buf: Option<seq<byte>>)
    requires forall i :: 0 <= i < |offsets| ==> offsets[i] < WORD - 1
    ensures buf.Some? <==> forall j :: 0 <= j < |sites| ==> sites[j].first.Some? ==> sites[j].first.value < |offsets|
    ensures buf.Some? ==> buf.value == SitesBytes(WithFirsts(sites, OffsetsOf(offsets, FirstsOf(sites))))
  {
    hide Uleb; hide SiteBytes;
    var bytes := [];
    for j := 0 to |sites|
      invariant forall i :: 0 <= i < j ==> sites[i].first.Some? ==> sites[i].first.value < |offsets|
      invariant bytes == SitesBytes(WithFirsts(sites[..j], OffsetsOf(offsets, FirstsOf(sites[..j]))))
    {
      var c := sites[j];
      if c.first.Some? && c.first.value >= |offsets| { return None; }
      var raw := c.(first := if c.first.None? then None else Some(offsets[c.first.value]));
      var part := WriteCallSite(raw);
      ghost var done := WithFirsts(sites[..j], OffsetsOf(offsets, FirstsOf(sites[..j])));
      assert WithFirsts(sites[..j + 1], OffsetsOf(offsets, FirstsOf(sites[..j + 1]))) == done + [raw];
      SitesSnoc(done, raw);
      bytes := bytes + part;
    }
    assert sites[..|sites|] == sites;
    return Some(bytes);
  }

  method WriteCallSite(c: CallSite) returns (bytes: seq<byte>)
    requires SiteOk(c)
    ensures bytes == SiteBytes(c)
  {
    hide Uleb;
    var position := EncodeWord(c.position, false);
    var length := EncodeWord(c.length, false);
    var landingPad := EncodeWord(c.landingPad, false);
    var action := EncodeWord(Biased(c.first), false);
    bytes := position + (length + (landingPad + action));
  }

  lemma {:induction false} SitesSnoc(sites: seq<CallSite>, c: CallSite)
    ensures SitesBytes(sites + [c]) == SitesBytes(sites) + SiteBytes(c)
  {
    hide SiteBytes;
    if sites == [] {
      assert [c][1..] == [];
    } else {
      assert (sites + [c])[1..] == sites[1..] + [c];
      SitesSnoc(sites[1..], c);
    }
  }

  /** The type table, from the last entry to the first. */
  method WriteTypes(types: seq<word>, enc: byte, size: nat, at: word) returns (table: Option<seq<byte>>)
    ensures table == Entries(types, 0, enc, size, at)
  {
    hide StoredEntry;
    var bytes, j := [], |types|;
    while j > 0
      invariant 0 <= j <= |types| && Entries(types, j, enc, size, at) == Some(bytes)
    {
      EntriesStep(types, j - 1, enc, size, at);
      var e := StoredEntry(types[j - 1], enc, size, (at + |bytes|) % WORD, j - 1);
      if e.None? {
        EntriesFail(types, j - 1, enc, size, at);
        return None;
      }
      j, bytes := j - 1, bytes + e.value;
    }
    return Some(bytes);
  }

  lemma EntriesStep(types: seq<word>, lo: nat, enc: byte, size: nat, at: word)
    requires lo < |types|
    ensures var before := Entries(types, lo + 1, enc, size, at);
            Entries(types, lo, enc, size, at)
            == if before.None? then None
               else
                 var e := StoredEntry(types[lo], enc, size, (at + |before.value|) % WORD, lo);
                 if e.None? then None else Some(before.value + e.value)
  {
    hide StoredEntry;
  }

  lemma {:induction false} EntriesFail(types: seq<word>, lo: nat, enc: byte, size: nat, at: word)
    requires lo <= |types| && Entries(types, lo, enc, size, at).None?
    ensures Entries(types, 0, enc, size, at).None?
  {
    if lo > 0 { EntriesFail(types, lo - 1, enc, size, at); }
  }

  /** One turn of the loop over the LSDAs. */
  method BuildLsda(l: Lsda, address: word, ptrSize: nat) returns (bytes: Option<seq<byte>>)
    requires Valid(l.actions) && |WriteTable(l.actions).bytes| < 0x8000_0000
    requires FirstsValid(l) ==> |Body(l)| + 8 * |l.types| < 0x8000_0000 && ptrSize <= 8
    ensures bytes == LsdaBytes(l, address, ptrSize)
  {
    hide Uleb; hide SitesBytes; hide WriteTable; hide Entries; hide Reserved; hide Base; hide FixedUleb; hide Padding;
    var header := [DW_EH_PE_OMIT];
    if l.lpStart != 0 {
      var leb := EncodeWord(l.lpStart, false);
      header := [DW_EH_PE_ULEB128] + leb;
    }
    header := header + [l.ttEncoding];
    assert header == Header(l);
    var actionBuf, offsets := WriteActionTable(l.actions);
    SmallOffsets(l.actions);
    var callSiteBuf := WriteCallSites(l.callSites, offsets);
    FirstsValidIff(l);
    if callSiteBuf.None? { return None; }
    var length := EncodeLength(|callSiteBuf.value|);
    var body := [DW_EH_PE_ULEB128] + (length + (callSiteBuf.value + actionBuf));
    assert body == Body(l);
    var size := EntrySize(l.ttEncoding, ptrSize);
    if size.None? { return None; }
    if l.ttEncoding == DW_EH_PE_OMIT { return Some(header + body); }
    SizeBound(l.ttEncoding, ptrSize, |l.types|);
    var leb, misalignment := FindBase(Sizes(|header|, |body|, |l.types| * size.value));
    var lead := header + (leb + (body + Zeros(misalignment)));
    assert lead == Lead(l, size.value);
    var table := WriteTypes(l.types, l.ttEncoding, size.value, (address + |lead|) % WORD);
    if table.None? { return None; }
    return Some(lead + table.value);
  }

  lemma SizeBound(enc: byte, ptrSize: nat, n: nat)
    requires EntrySize(enc, ptrSize).Some? && ptrSize <= 8
    ensures 0 <= n * EntrySize(enc, ptrSize).value <= 8 * n
  {
    MulMonotone(n, 0, EntrySize(enc, ptrSize).value);
    MulMonotone(n, EntrySize(enc, ptrSize).value, 8);
  }

  lemma SmallOffsets(actions: Actions)
    requires Valid(actions) && |WriteTable(actions).bytes| < 0x8000_0000
    ensures forall i :: 0 <= i < |actions| ==> WriteTable(actions).offset[i] < WORD - 1
  {
    hide WriteTable;
    TableComplete(actions);
    forall i | 0 <= i < |actions| ensures WriteTable(actions).offset[i] < WORD - 1 {
      OffsetBound(actions, WriteTable(actions), i);
    }
  }

  lemma FirstsValidIff(l: Lsda)
    ensures FirstsValid(l) <==>
            forall j :: 0 <= j < |l.callSites| ==> l.callSites[j].first.Some? ==> l.callSites[j].first.value < |l.actions|
  {
    assert forall j :: 0 <= j < |l.callSites| ==> FirstsOf(l.callSites)[j] == l.callSites[j].first;
  }

  method EncodeLength(n: nat) returns (leb: seq<byte>)
    requires n < HALF_WORD
    ensures leb == Uleb(n)
  {
    leb := EncodeWord(n, false);
  }

  /** The lengths of an LSDA fit an int. */
  predicate Bounded(l: Lsda)
  {
    && Valid(l.actions) && |WriteTable(l.actions).bytes| < 0x8000_0000
    && (FirstsValid(l) ==> |Body(l)| + 8 * |l.types| < 0x8000_0000)
  }

  /** buildExceptTableRawData. */
  method BuildExceptTableRawData(lsdas: seq<Lsda>, address: word, ptrSize: nat) returns (r: Option<(seq<byte>, seq<nat>)>)
    requires ptrSize <= 8 && forall i :: 0 <= i < |lsdas| ==> Bounded(lsdas[i])
    ensures AllActionsValid(lsdas) && r == Build(lsdas, [], address, ptrSize)
    ensures r.Some? <==> AllBuildable(lsdas, ptrSize)
  {
    hide LsdaBytes; hide Aligned; hide Valid; hide FirstsValid; hide At; hide WriteTable; hide Body; hide AllBuildable;
    var buf: seq<byte>, lsdaOffsets: seq<nat> := [], [];
    var i := 0;
    assert lsdas[0..] == lsdas;
    NoOffsets(Build(lsdas, [], address, ptrSize));
    BuildIff(lsdas, [], address, ptrSize);
    while i < |lsdas|
      invariant 0 <= i <= |lsdas| && AllActionsValid(lsdas[i..])
      invariant Build(lsdas, [], address, ptrSize) == Behind(lsdaOffsets, Build(lsdas[i..], buf, address, ptrSize))
    {
      assert lsdas[i..][1..] == lsdas[i + 1..] && Bounded(lsdas[i]);
      var start := Aligned(buf);
      var bytes := BuildLsda(lsdas[i], At(address, |start|), ptrSize);
      if bytes.None? { return None; }
      BehindOne(lsdaOffsets, |start|, Build(lsdas[i + 1..], start + bytes.value, address, ptrSize));
      buf, lsdaOffsets := start + bytes.value, lsdaOffsets + [|start|];
      i := i + 1;
    }
    assert lsdaOffsets + [] == lsdaOffsets;
    return Some((buf, lsdaOffsets));
  }

  ghost function Behind(offsets: seq<nat>, r: Option<(seq<byte>, seq<nat>)>): Option<(seq<byte>, seq<nat>)>
  {
    if r.None? then None else Some((r.value.0, offsets + r.value.1))
  }

  lemma NoOffsets(r: Option<(seq<byte>, seq<nat>)>)
    ensures Behind([], r) == r
  {
    if r.Some? { assert [] + r.value.1 == r.value.1; }
  }

  lemma BehindOne(offsets: seq<nat>, o: nat, r: Option<(seq<byte>, seq<nat>)>)
    ensures Behind(offsets + [o], r) == Behind(offsets, if r.None? then None else Some((r.value.0, [o] + r.value.1)))
  {
    if r.Some? { assert (offsets + [o]) + r.value.1 == offsets + ([o] + r.value.1); }
  }

  // ----- the reader as it runs -----

  method ReadCallSiteTable(bytes: seq<byte>, callSiteTableSize: nat, address: word, format: byte, ptrSize: nat)
    returns (sites: Option<seq<CallSite>>)
    requires ptrSize <= 8
    ensures sites == ReadSites(bytes, callSiteTableSize, address, format, ptrSize)
  {
    hide ReadSite, At;
    var table, rest, left, at := [], bytes, callSiteTableSize, address;
    NoPrefix(ReadSites(bytes, callSiteTableSize, address, format, ptrSize));
    while left > 0
      invariant left >= 0
      invariant ReadSites(bytes, callSiteTableSize, address, format, ptrSize)
             == Prefixed(table, ReadSites(rest, left, at, format, ptrSize))
      decreases |rest|
    {
      var c := ReadSite(rest, at, format, ptrSize);
      if c.None? { return None; }
      var n := |rest| - |c.value.rest|;
      if n > left || n == 0 { return None; }
      PrefixedAppend(table, [c.value.value], ReadSites(c.value.rest, left - n, At(at, n), format, ptrSize));
      table, rest, left, at := table + [c.value.value], c.value.rest, left - n, At(at, n);
    }
    assert table + [] == table;
    return Some(table);
  }

  lemma NoPrefix<T>(r: Option<seq<T>>)
    ensures Prefixed([], r) == r
  {
    PrefixedAppend([], [], r);
  }

  method ReadTypeEntries(table: seq<byte>, enc: byte, size: nat, ptrSize: nat, at: word) returns (types: Option<seq<word>>)
    requires size > 0 && ptrSize <= 8
    ensures types == ReadTypes(table, enc, size, ptrSize, at)
  {
    hide DecodePointer;
    var entries, ttOffset := [], |table| - size;
    NoPrefix(ReadTypes(table, enc, size, ptrSize, at));
    assert table[..|table|] == table;
    while ttOffset >= 0
      invariant 0 <= ttOffset + size <= |table| || (ttOffset == |table| - size && |table| < size)
      invariant ReadTypes(table, enc, size, ptrSize, at) == Prefixed(entries, ReadTypes(table[..ttOffset + size], enc, size, ptrSize, at))
      decreases ttOffset + size
    {
      var top := table[..ttOffset + size];
      assert top[..ttOffset] == table[..ttOffset] && top[ttOffset..] == table[ttOffset..ttOffset + size];
      var v := DecodePointer(table[ttOffset..ttOffset + size], (at + ttOffset) % WORD, enc, ptrSize);
      if v.None? { return None; }
      PrefixedAppend(entries, [v.value.0], ReadTypes(table[..ttOffset], enc, size, ptrSize, at));
      entries, ttOffset := entries + [v.value.0], ttOffset - size;
    }
    assert entries + [] == entries;
    return Some(entries);
  }

  /** parseExceptFrame. */
  method ParseExceptFrame(section: seq<byte>, lsdaOffsets: seq<nat>, address: word, ptrSize: nat) returns (lsdas: Option<seq<Lsda>>)
    requires ptrSize <= 8
    ensures lsdas == Parse(section, lsdaOffsets, address, ptrSize)
  {
    hide ParseLsda;
    var result, i := [], 0;
    if section == [] { return Some([]); }
    NoPrefix(Parse(section, lsdaOffsets, address, ptrSize));
    assert lsdaOffsets[0..] == lsdaOffsets;
    while i < |lsdaOffsets|
      invariant 0 <= i <= |lsdaOffsets|
      invariant Parse(section, lsdaOffsets, address, ptrSize) == Prefixed(result, Parse(section, lsdaOffsets[i..], address, ptrSize))
    {
      var offset := lsdaOffsets[i];
      assert lsdaOffsets[i..][1..] == lsdaOffsets[i + 1..];
      if offset > |section| { return None; }
      var l := ReadLsda(section[offset..], At(address, offset), ptrSize);
      if l.None? { return None; }
      PrefixedAppend(result, [l.value], Parse(section, lsdaOffsets[i + 1..], address, ptrSize));
      result, i := result + [l.value], i + 1;
    }
    assert result + [] == result;
    return Some(result);
  }

  method ReadLsda(bytes: seq<byte>, address: word, ptrSize: nat) returns (lsda: Option<Lsda>)
    requires ptrSize <= 8
    ensures lsda == ParseLsda(bytes, address, ptrSize)
  {
    hide ReadSites; hide ReadChains; hide ReadTypes; hide DecodePointer; hide TakeWord; hide TakeField; hide At; hide EntrySize; hide IndexOf; hide ReadLpStart;
    var h := ReadHeader(bytes, address, ptrSize);
    if h.None? { return None; }
    var rest := h.value.rest;
    var place := (address + (|bytes| - |rest|)) % WORD;
    if rest == [] { return None; }
    var format := rest[0];
    var size := TakeField(rest[1..], At(place, 1), format, ptrSize);
    if size.None? { return None; }
    var sites := ReadCallSiteTable(size.value.rest, size.value.value, At(place, |rest| - |size.value.rest|), format, ptrSize);
    if sites.None? { return None; }
    var stream := size.value.rest[size.value.value..];
    var r, firsts := ReadActionTable(stream, FirstsOf(sites.value));
    if r.None? || r.value.end > |stream| { return None; }
    var t := Tables(sites.value, r.value, stream[r.value.end..]);
    assert ReadBody(rest, place, ptrSize) == Some(t);
    hide ReadBody;
    var types := ReadTypesBehind(h.value, t, (address + (|bytes| - |t.rest|)) % WORD, ptrSize);
    if types.None? { return None; }
    return Some(Lsda(h.value.lpStart, h.value.ttEncoding, WithFirsts(sites.value, firsts), r.value.actions, types.value));
  }

  /** readTypeTable. */
  method ReadTypesBehind(h: Head, t: Tables, address: word, ptrSize: nat) returns (types: Option<seq<word>>)
    requires ptrSize <= 8
    ensures types == ReadTypeTable(h, t, address, ptrSize)
  {
    hide ReadTypes; hide EntrySize;
    if h.ttEncoding == DW_EH_PE_OMIT { return Some([]); }
    var size := EntrySize(h.ttEncoding, ptrSize);
    var end := h.base - (|h.rest| - |t.rest|);
    if size.None? || size.value == 0 || end > |t.rest| { return None; }
    if end < 0 { return Some([]); }
    types := ReadTypeEntries(t.rest[..end], h.ttEncoding, size.value, ptrSize, address);
  }
}
