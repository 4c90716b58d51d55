/** The formats of the exception handling sections with the numbers of the LSB Core specification ("DWARF
    Exception Header Encoding") and of the LSDA, against eh_pe.c and exceptTable.c. */
module EhFormats {
  import opened Bytes
  import opened LebWords
  import opened Cfa
  import opened ActionTable
  import opened EhPointers
  import opened TypeBase
  import opened ExceptTable
  import opened ExceptTypes

  // ----- pointer encodings -----

  /** The formats absptr, udata2, udata4, udata8, sdata2, sdata4 and sdata8 by their number. */
  predicate FixedFormat(format: nat, n: nat, ptrSize: nat)
  {
    || (format == 0x00 && n == ptrSize) || (format in {0x02, 0x0a} && n == 2) || (format in {0x03, 0x0b} && n == 4)
    || (format in {0x04, 0x0c} && n == 8)
  }

  /** How long pointers are: omitted ones take no bytes, and LEB formats have no size. */
  lemma PointerSizes(enc: byte, ptrSize: nat, n: nat)
    ensures EntrySize(0xff, ptrSize) == Some(0)
    ensures enc != 0xff ==> (EntrySize(enc, ptrSize) == Some(n) <==> FixedFormat(enc % 16, n, ptrSize))
    ensures enc != 0xff && (enc % 16 in {0x01, 0x09} || 0x05 <= enc % 16 <= 0x08 || enc % 16 > 0x0c) ==>
              EntrySize(enc, ptrSize) == None
  {
  }

  /** What is stored for a pointer: itself or its distance.  The encodings 0x20 and up, relative to something
      else or aligned, are not supported; the bit 0x80 for indirect pointers is not looked at. */
  lemma StoredPointer(v: word, enc: byte, location: word)
    ensures enc % 0x80 < 0x10 ==> EncodePointer(v, enc, location) == Some(v)
    ensures 0x10 <= enc % 0x80 < 0x20 ==> EncodePointer(v, enc, location) == Some((v - location) % WORD)
    ensures enc % 0x80 >= 0x20 ==> EncodePointer(v, enc, location) == None
  {
    HighBits(enc);
  }

  lemma HighBits(enc: byte)
    ensures Application(enc) == enc % 0x80 / 16 && Format(enc) == enc % 16
  {
    var q, r := enc / 0x80, enc % 0x80;
    var a, b := r / 16, r % 16;
    assert enc == 0x80 * q + r && r == 16 * a + b && 0 <= a < 8;
    DivModUnique(enc, 16, 8 * q + a, b);
    DivModUnique(8 * q + a, 8, q, a);
  }

  /** What a pointer in a fixed format is read as, behind anything: signed formats are not extended, and of the
      eight-byte formats only four bytes are said to be taken. */
  lemma FixedPointerRead(bs: seq<byte>, enc: byte, location: word, ptrSize: nat, rest: seq<byte>)
    requires ptrSize <= 8 && FixedFormat(enc % 16, |bs|, ptrSize)
    ensures 0 <= Unsigned(bs) < WORD
    ensures var n := if enc % 16 in {0x04, 0x0c} then 4 else |bs|;
      var r := DecodePointer(bs + rest, location, enc, ptrSize);
      && (enc % 0x80 < 0x10 ==> r == Some((Unsigned(bs), n)))
      && (0x10 <= enc % 0x80 < 0x20 ==> r == Some(((Unsigned(bs) + location) % WORD, n)))
      && (enc % 0x80 >= 0x20 ==> r == None)
  {
    HighBits(enc);
    UnsignedWord(bs);
    assert (bs + rest)[..|bs|] == bs;
    hide Unsigned, Application, Format;
  }

  /** Both LEB formats are read unsigned. */
  lemma LebPointerRead(v: word, enc: byte, location: word, ptrSize: nat, rest: seq<byte>)
    requires ptrSize <= 8 && enc % 16 in {0x01, 0x09}
    ensures var r := DecodePointer(Uleb(v) + rest, location, enc, ptrSize);
      && (enc % 0x80 < 0x10 ==> r == Some((v, |Uleb(v)|)))
      && (0x10 <= enc % 0x80 < 0x20 ==> r == Some(((v + location) % WORD, |Uleb(v)|)))
  {
    HighBits(enc);
    hide Uleb, ReadUnsigned;
    ReadUlebWord(v, rest);
  }

  // ----- call sites in fixed formats -----

  /** The formats whose fields the reader steps over as a whole. */
  predicate SteppedOver(enc: byte, n: nat, ptrSize: nat)
  {
    enc % 0x80 < 0x20 && FixedFormat(enc % 16, n, ptrSize) && enc % 16 !in {0x04, 0x0c} && 0 < n <= 8
  }

  /** What is stored for a field: itself, or its distance from where it is. */
  function Stored(v: word, enc: byte, location: word): word { if enc % 0x80 < 0x10 then v else (v - location) % WORD }

  /** A call site in which every field has n bytes; at is where it is. */
  function WideSite(c: CallSite, enc: byte, n: nat, at: word): seq<byte>
    requires Biased(c.first) < WORD
  {
    ToBytes(Stored(c.position, enc, at), n)
    + (ToBytes(Stored(c.length, enc, At(at, n)), n)
       + (ToBytes(Stored(c.landingPad, enc, At(at, 2 * n)), n) + ToBytes(Stored(Biased(c.first), enc, At(at, 3 * n)), n)))
  }

  predicate SiteFits(c: CallSite, enc: byte, n: nat, at: word)
  {
    && Biased(c.first) < WORD && Stored(c.position, enc, at) < Base256(n) && Stored(c.length, enc, At(at, n)) < Base256(n)
    && Stored(c.landingPad, enc, At(at, 2 * n)) < Base256(n) && Stored(Biased(c.first), enc, At(at, 3 * n)) < Base256(n)
  }

  lemma WideField(v: word, n: nat, rest: seq<byte>, at: word, enc: byte, ptrSize: nat)
    requires ptrSize <= 8 && SteppedOver(enc, n, ptrSize) && Stored(v, enc, at) < Base256(n)
    ensures TakeField(ToBytes(Stored(v, enc, at), n) + rest, at, enc, ptrSize) == Some(Read(v, rest))
  {
    var s := Stored(v, enc, at);
    var bs := ToBytes(s, n);
    ToBytesValue(s, n);
    SmallMod(s, Base256(n));
    Distance(s, at, v);
    hide Base256, Unsigned, DecodePointer, ToBytes;
    FixedPointerRead(bs, enc, at, ptrSize, rest);
    assert (bs + rest)[|bs|..] == rest;
  }

  /** Every field of a call site is read at its own address, in the order start, length, landing pad, action. */
  lemma WideSiteRead(c: CallSite, n: nat, rest: seq<byte>, at: word, enc: byte, ptrSize: nat)
    requires ptrSize <= 8 && SteppedOver(enc, n, ptrSize) && SiteFits(c, enc, n, at)
    ensures ReadSite(WideSite(c, enc, n, at) + rest, at, enc, ptrSize) == Some(Read(c, rest))
    ensures |WideSite(c, enc, n, at)| == 4 * n
  {
    hide TakeField, ToBytes, At, Base256, SteppedOver, Stored;
    var a, b := ToBytes(Stored(c.position, enc, at), n), ToBytes(Stored(c.length, enc, At(at, n)), n);
    var d, e := ToBytes(Stored(c.landingPad, enc, At(at, 2 * n)), n), ToBytes(Stored(Biased(c.first), enc, At(at, 3 * n)), n);
    var all := WideSite(c, enc, n, at) + rest;
    assert all == a + (b + (d + (e + rest)));
    WideField(c.position, n, b + (d + (e + rest)), at, enc, ptrSize);
    WideField(c.length, n, d + (e + rest), At(at, n), enc, ptrSize);
    WideField(c.landingPad, n, e + rest, At(at, 2 * n), enc, ptrSize);
    WideField(Biased(c.first), n, rest, At(at, 3 * n), enc, ptrSize);
    SiteSteps(all, at, enc, ptrSize, c, b + (d + (e + rest)), d + (e + rest), e + rest, rest, n);
  }

  lemma SiteSteps(all: seq<byte>, at: word, enc: byte, ptrSize: nat, c: CallSite, p: seq<byte>, l: seq<byte>, m: seq<byte>, rest: seq<byte>, n: nat)
    requires ptrSize <= 8 && Biased(c.first) < WORD
    requires |p| == |all| - n && |l| == |all| - 2 * n && |m| == |all| - 3 * n
    requires TakeField(all, at, enc, ptrSize) == Some(Read(c.position, p))
    requires TakeField(p, At(at, n), enc, ptrSize) == Some(Read(c.length, l))
    requires TakeField(l, At(at, 2 * n), enc, ptrSize) == Some(Read(c.landingPad, m))
    requires TakeField(m, At(at, 3 * n), enc, ptrSize) == Some(Read(Biased(c.first), rest))
    ensures ReadSite(all, at, enc, ptrSize) == Some(Read(c, rest))
  {
    hide TakeField, At;
  }

  function WideSites(sites: seq<CallSite>, enc: byte, n: nat, at: word): seq<byte>
    requires forall c :: c in sites ==> Biased(c.first) < WORD
    decreases |sites|
  {
    if sites == [] then [] else WideSite(sites[0], enc, n, at) + WideSites(sites[1..], enc, n, At(at, 4 * n))
  }

  predicate SitesFit(sites: seq<CallSite>, enc: byte, n: nat, at: word)
    decreases |sites|
  {
    sites == [] || (SiteFits(sites[0], enc, n, at) && SitesFit(sites[1..], enc, n, At(at, 4 * n)))
  }

  /** Main result on call sites: a table in any format of two or four bytes or of pointers, absolute or pc-relative,
      is read back, whatever follows.  (The program itself writes unsigned LEBs.) */
  lemma {:induction false} WideSitesRead(sites: seq<CallSite>, n: nat, rest: seq<byte>, at: word, enc: byte, ptrSize: nat)
    requires ptrSize <= 8 && SteppedOver(enc, n, ptrSize) && SitesFit(sites, enc, n, at)
    requires forall c :: c in sites ==> Biased(c.first) < WORD
    ensures var bytes := WideSites(sites, enc, n, at);
            ReadSites(bytes + rest, |bytes|, at, enc, ptrSize) == Some(sites)
    decreases |sites|
  {
    hide *;
    var bytes := WideSites(sites, enc, n, at);
    WideUnfold(sites, enc, n, at, rest);
    if sites == [] {
      NoSites(bytes + rest, at, enc, ptrSize);
    } else {
      var others := WideSites(sites[1..], enc, n, At(at, 4 * n)) + rest;
      WideSiteRead(sites[0], n, others, at, enc, ptrSize);
      StepPositive(enc, n, ptrSize);
      WideSitesRead(sites[1..], n, rest, At(at, 4 * n), enc, ptrSize);
      ReadSitesStep(bytes + rest, |bytes|, sites[0], others, at, enc, ptrSize);
      OneMore(sites);
    }
  }

  lemma StepPositive(enc: byte, n: nat, ptrSize: nat)
    requires SteppedOver(enc, n, ptrSize)
    ensures n > 0
  {
  }

  lemma WideUnfold(sites: seq<CallSite>, enc: byte, n: nat, at: word, rest: seq<byte>)
    requires SitesFit(sites, enc, n, at) && forall c :: c in sites ==> Biased(c.first) < WORD
    ensures sites == [] ==> WideSites(sites, enc, n, at) == []
    ensures sites != [] ==>
              && SiteFits(sites[0], enc, n, at) && SitesFit(sites[1..], enc, n, At(at, 4 * n)) && Biased(sites[0].first) < WORD
              && (forall c :: c in sites[1..] ==> Biased(c.first) < WORD)
              && var (first, others) := (WideSite(sites[0], enc, n, at), WideSites(sites[1..], enc, n, At(at, 4 * n)));
                 && WideSites(sites, enc, n, at) + rest == first + (others + rest)
                 && |WideSites(sites, enc, n, at)| == |first| + |others|
  {
    hide WideSite, SiteFits, At;
  }

  /** A start of the landing pads in a fixed format is read at its own address, behind its encoding. */
  lemma StartRead(v: word, n: nat, rest: seq<byte>, at: word, enc: byte, ptrSize: nat)
    requires ptrSize <= 8 && SteppedOver(enc, n, ptrSize) && enc != 0xff && Stored(v, enc, At(at, 1)) < Base256(n)
    ensures ReadLpStart([enc] + (ToBytes(Stored(v, enc, At(at, 1)), n) + rest), at, ptrSize) == Some(Read(v, rest))
  {
    var bs := ToBytes(Stored(v, enc, At(at, 1)), n);
    assert ([enc] + (bs + rest))[1..] == bs + rest;
    WideField(v, n, rest, At(at, 1), enc, ptrSize);
    hide ToBytes, DecodePointer, Base256, SteppedOver, Stored;
    LpField(enc, bs + rest, at, ptrSize);
  }

  lemma LpField(enc: byte, bytes: seq<byte>, at: word, ptrSize: nat)
    requires ptrSize <= 8 && enc != 0xff
    ensures ReadLpStart([enc] + bytes, at, ptrSize) == TakeField(bytes, At(at, 1), enc, ptrSize)
  {
    hide DecodePointer;
    assert ([enc] + bytes)[1..] == bytes;
    var r := DecodePointer(bytes, At(at, 1), enc, ptrSize);
    if r.Some? && r.value.1 <= |bytes| { assert ([enc] + bytes)[1 + r.value.1..] == bytes[r.value.1..]; }
  }

  // ----- the LSDA -----

  /** What an LSDA begins with: an encoding and a start where there is one, the encoding of the type table, and
      the distance to its end where there is one. */
  lemma LsdaStart(l: Lsda, address: word, ptrSize: nat)
    requires Valid(l.actions) && LsdaBytes(l, address, ptrSize).Some? && FirstsValid(l)
    ensures var start := if l.lpStart == 0 then [0xff] else [0x01] + Uleb(l.lpStart);
      && start + [l.ttEncoding] <= LsdaBytes(l, address, ptrSize).value
      && (l.ttEncoding == 0xff ==>
            LsdaBytes(l, address, ptrSize).value == start + [l.ttEncoding] + ([0x01] + Uleb(|Sites(l)|) + Sites(l) + WriteTable(l.actions).bytes))
  {
    hide Uleb, SitesBytes, WriteTable, Entries, FixedUleb, Base, Reserved, Padding, RawSites;
    var start := if l.lpStart == 0 then [0xff] else [0x01] + Uleb(l.lpStart);
    assert Header(l) == start + [l.ttEncoding];
    hide Header;
    var (s, w) := (Sites(l), WriteTable(l.actions).bytes);
    assert Body(l) == [0x01] + Uleb(|s|) + s + w by { assert [0x01] + (Uleb(|s|) + (s + w)) == [0x01] + Uleb(|s|) + s + w; }
  }

  /** The call sites as they are written. */
  function Sites(l: Lsda): seq<byte>
    requires Valid(l.actions) && FirstsValid(l)
  {
    SitesBytes(RawSites(l, WriteTable(l.actions)))
  }

  /** The four numbers of a call site: where it starts, how long it is, its landing pad, and one more than the
      offset of its first action, or zero. */
  lemma SiteNumbers(l: Lsda, j: nat)
    requires Valid(l.actions) && FirstsValid(l) && j < |l.callSites|
    ensures var c := l.callSites[j];
      SiteBytes(RawSites(l, WriteTable(l.actions))[j])
      == Uleb(c.position) + Uleb(c.length) + Uleb(c.landingPad)
         + Uleb(if c.first.Some? then 1 + WriteTable(l.actions).offset[c.first.value] else 0)
  {
    hide Uleb, WriteTable;
    assert FirstsOf(l.callSites)[j] == l.callSites[j].first;
  }

  /** Type entries are counted from the end of the table: entry j ends j entries before it. */
  lemma {:induction false} EntryFromEnd(types: seq<word>, lo: nat, j: nat, enc: byte, size: nat, at: word)
    requires lo <= j < |types| && Entries(types, lo, enc, size, at).Some?
    ensures var bytes := Entries(types, lo, enc, size, at).value;
      var end := |bytes| - (j - lo) * size;
      && 0 <= end - size <= end <= |bytes|
      && Some(bytes[end - size..end]) == StoredEntry(types[j], enc, size, (at + (|types| - 1 - j) * size) % WORD, j)
    decreases j - lo
  {
    hide Entries, StoredEntry;
    EntriesUnfold(types, lo, enc, size, at);
    EntriesCount(types, lo + 1, enc, size, at);
    var before := Entries(types, lo + 1, enc, size, at).value;
    var e := StoredEntry(types[lo], enc, size, (at + |before|) % WORD, lo).value;
    EntryLength(types[lo], enc, size, (at + |before|) % WORD, lo);
    var bytes := before + e;
    if lo == j {
      assert bytes[|bytes| - size..|bytes|] == e;
    } else {
      EntryFromEnd(types, lo + 1, j, enc, size, at);
      assert (j - lo) * size == (j - lo - 1) * size + size;
      var end := |bytes| - (j - lo) * size;
      assert bytes[end - size..end] == before[end - size..end];
    }
  }
}
