/** The whole of .gcc_except_table, there and back (exceptTable.c). */
module ExceptSection {
  import opened Bytes
  import opened ActionTable
  import opened EhPointers
  import opened ExceptTable
  import opened ExceptTypes

  predicate AllValid(lsdas: seq<Lsda>) { forall i :: 0 <= i < |lsdas| ==> Valid(lsdas[i].actions) && FirstsValid(lsdas[i]) }

  predicate AllAligned(offsets: seq<nat>) { forall i :: 0 <= i < |offsets| ==> offsets[i] % 4 == 0 }

  function Canonicals(lsdas: seq<Lsda>): seq<Lsda>
    requires AllValid(lsdas)
  {
    seq(|lsdas|, i requires 0 <= i < |lsdas| => Canonical(lsdas[i]))
  }

  /** An LSDA that can be written: without a type table, or with entries of four or eight bytes. */
  predicate Writes(l: Lsda, ptrSize: nat)
  {
    if l.ttEncoding == DW_EH_PE_OMIT then Plain(l, ptrSize) else Writable(l, ptrSize)
  }

  /** The exact condition for an LSDA to be read back. */
  predicate Back(l: Lsda, at: word, ptrSize: nat)
    requires Writes(l, ptrSize)
  {
    if l.ttEncoding == DW_EH_PE_OMIT then l.types == [] else ComesBack(l, at, ptrSize)
  }

  lemma LsdaBackIff(l: Lsda, at: word, ptrSize: nat, rest: seq<byte>)
    requires Writes(l, ptrSize)
    ensures Valid(l.actions) && FirstsValid(l) && LsdaBytes(l, at, ptrSize).Some? && ptrSize <= 8
    ensures ParseLsda(LsdaBytes(l, at, ptrSize).value + rest, at, ptrSize) == Some(Canonical(l)) <==> Back(l, at, ptrSize)
  {
    hide Plain, Writable, ComesBack, ParseLsda, LsdaBytes, Canonical;
    if l.ttEncoding == DW_EH_PE_OMIT {
      PlainParts(l, at, ptrSize);
      PlainIff(l, at, ptrSize, rest);
    } else {
      WritableParts(l, at, ptrSize);
      LsdaIff(l, at, ptrSize, rest);
    }
  }

  lemma PlainParts(l: Lsda, at: word, ptrSize: nat)
    requires Plain(l, ptrSize)
    ensures Valid(l.actions) && FirstsValid(l) && ptrSize <= 8
  {
  }

  lemma WritableParts(l: Lsda, at: word, ptrSize: nat)
    requires Writable(l, ptrSize)
    ensures Valid(l.actions) && FirstsValid(l) && ptrSize <= 8
    ensures EntrySize(l.ttEncoding, ptrSize).Some?
  {
    hide Valid, FirstsValid, WriteTable, Body, LsdaBytes;
  }

  predicate AllWrite(lsdas: seq<Lsda>, ptrSize: nat) { forall l :: l in lsdas ==> Writes(l, ptrSize) }

  /** Each LSDA comes back from the place it gets. */
  predicate AllBack(lsdas: seq<Lsda>, buf: seq<byte>, address: word, ptrSize: nat)
    requires AllWrite(lsdas, ptrSize)
    decreases |lsdas|
  {
    lsdas == [] ||
    var at := At(address, |Aligned(buf)|);
    Built(lsdas[0], at, ptrSize);
    && Back(lsdas[0], at, ptrSize)
    && AllBack(lsdas[1..], Aligned(buf) + LsdaBytes(lsdas[0], at, ptrSize).value, address, ptrSize)
  }

  lemma Built(l: Lsda, at: word, ptrSize: nat)
    requires Writes(l, ptrSize)
    ensures Valid(l.actions) && LsdaBytes(l, at, ptrSize).Some?
  {
    hide *;
    LsdaBackIff(l, at, ptrSize, []);
  }

  lemma AllWriteStep(lsdas: seq<Lsda>, buf: seq<byte>, address: word, ptrSize: nat)
    requires AllWrite(lsdas, ptrSize) && lsdas != []
    ensures var at := At(address, |Aligned(buf)|);
      && Writes(lsdas[0], ptrSize) && Valid(lsdas[0].actions) && LsdaBytes(lsdas[0], at, ptrSize).Some?
      && var buf1 := Aligned(buf) + LsdaBytes(lsdas[0], at, ptrSize).value;
         && AllWrite(lsdas[1..], ptrSize)
         && (AllBack(lsdas, buf, address, ptrSize) <==> Back(lsdas[0], at, ptrSize) && AllBack(lsdas[1..], buf1, address, ptrSize))
  {
    hide Writes, LsdaBytes, Valid, Back;
    Built(lsdas[0], At(address, |Aligned(buf)|), ptrSize);
  }

  lemma AllWriteValid(lsdas: seq<Lsda>, ptrSize: nat)
    requires AllWrite(lsdas, ptrSize)
    ensures AllValid(lsdas) && AllActionsValid(lsdas)
  {
    hide Writes, Valid, FirstsValid;
    forall i | 0 <= i < |lsdas| ensures Valid(lsdas[i].actions) && FirstsValid(lsdas[i]) {
      LsdaBackIff(lsdas[i], 0, ptrSize, []);
    }
  }

  lemma AlignedStep(o: nat, offsets: seq<nat>)
    ensures AllAligned([])
    ensures o % 4 == 0 && AllAligned(offsets) ==> AllAligned([o] + offsets)
  {
  }

  lemma PrefixOf(a: seq<byte>, b: seq<byte>, c: seq<byte>)
    requires a <= b <= c
    ensures a <= c
  {
  }

  lemma NoLsdas(buf: seq<byte>, address: word, ptrSize: nat)
    requires ptrSize <= 8
    ensures Build([], buf, address, ptrSize) == Some((buf, [])) && Canonicals([]) == []
    ensures Parse(buf, [], address, ptrSize) == Some([]) && AllAligned([])
  {
  }

  lemma BuildStep(lsdas: seq<Lsda>, buf: seq<byte>, address: word, ptrSize: nat, bytes: seq<byte>, section: seq<byte>, offsets: seq<nat>)
    requires lsdas != [] && AllActionsValid(lsdas)
    requires LsdaBytes(lsdas[0], At(address, |Aligned(buf)|), ptrSize) == Some(bytes)
    requires Build(lsdas[1..], Aligned(buf) + bytes, address, ptrSize) == Some((section, offsets))
    ensures Build(lsdas, buf, address, ptrSize) == Some((section, [|Aligned(buf)|] + offsets))
  {
    hide LsdaBytes; hide Valid; hide Aligned;
  }

  lemma Piece(section: seq<byte>, start: seq<byte>, bytes: seq<byte>, more: seq<byte>)
    requires start + bytes <= section && more == section[|start + bytes|..]
    ensures start <= section && section[|start|..] == bytes + more
  {
    assert section == start + (bytes + more);
  }

  lemma ParseStep(section: seq<byte>, offset: nat, offsets: seq<nat>, address: word, ptrSize: nat)
    requires ptrSize <= 8 && offset <= |section| && section != []
    ensures Parse(section, [offset] + offsets, address, ptrSize)
         == FirstAnd(ParseLsda(section[offset..], At(address, offset), ptrSize), Parse(section, offsets, address, ptrSize))
  {
    hide ParseLsda;
    assert ([offset] + offsets)[1..] == offsets;
  }

  function FirstAnd<T>(first: Option<T>, others: Option<seq<T>>): Option<seq<T>>
  {
    if first.None? then None else Prefixed([first.value], others)
  }

  lemma FirstAndIff<T>(first: Option<T>, others: Option<seq<T>>, s: seq<T>)
    requires s != []
    ensures FirstAnd(first, others) == Some(s) <==> first == Some(s[0]) && others == Some(s[1..])
  {
    assert s == [s[0]] + s[1..];
  }

  lemma CanonicalsStep(lsdas: seq<Lsda>)
    requires lsdas != [] && AllValid(lsdas)
    ensures Canonicals(lsdas) != [] && Canonicals(lsdas)[0] == Canonical(lsdas[0]) && Canonicals(lsdas)[1..] == Canonicals(lsdas[1..])
  {
    hide Canonical, Valid, FirstsValid;
  }

  lemma NotNothing(l: Lsda, at: word, ptrSize: nat)
    requires Valid(l.actions) && LsdaBytes(l, at, ptrSize).Some?
    ensures LsdaBytes(l, at, ptrSize).value != []
  {
    hide Valid, FirstsValid, Body, Entries;
    assert |Header(l)| > 0;
  }

  /** Where an LSDA is in the section, it is read back exactly under its condition. */
  lemma InSection(l: Lsda, at: word, ptrSize: nat, section: seq<byte>, start: seq<byte>)
    requires Writes(l, ptrSize) && Valid(l.actions) && LsdaBytes(l, at, ptrSize).Some?
    requires start + LsdaBytes(l, at, ptrSize).value <= section
    ensures FirstsValid(l) && ptrSize <= 8 && section != [] && |start| <= |section|
    ensures ParseLsda(section[|start|..], at, ptrSize) == Some(Canonical(l)) <==> Back(l, at, ptrSize)
  {
    hide *;
    var bytes := LsdaBytes(l, at, ptrSize).value;
    var more := section[|start + bytes|..];
    Piece(section, start, bytes, more);
    NotNothing(l, at, ptrSize);
    LsdaBackIff(l, at, ptrSize, more);
  }

  /** Main result: in a built section every LSDA starts aligned, and the whole section is parsed back
      to the canonical forms exactly when each LSDA meets its own condition. */
  lemma {:induction false} SectionIff(lsdas: seq<Lsda>, buf: seq<byte>, address: word, ptrSize: nat)
    requires ptrSize <= 8 && AllWrite(lsdas, ptrSize)
    ensures AllValid(lsdas) && AllActionsValid(lsdas)
    ensures var r := Build(lsdas, buf, address, ptrSize);
      && r.Some? && buf <= r.value.0 && |r.value.1| == |lsdas| && AllAligned(r.value.1)
      && (Parse(r.value.0, r.value.1, address, ptrSize) == Some(Canonicals(lsdas)) <==> AllBack(lsdas, buf, address, ptrSize))
    decreases |lsdas|
  {
    hide *;
    AllWriteValid(lsdas, ptrSize);
    if lsdas == [] {
      NoLsdas(buf, address, ptrSize);
      NoneBack(buf, address, ptrSize);
    } else {
      AllWriteStep(lsdas, buf, address, ptrSize);
      var start, at := Aligned(buf), At(address, |Aligned(buf)|);
      var bytes := LsdaBytes(lsdas[0], at, ptrSize).value;
      SectionIff(lsdas[1..], start + bytes, address, ptrSize);
      var (section, offsets) := Build(lsdas[1..], start + bytes, address, ptrSize).value;
      BuildStep(lsdas, buf, address, ptrSize, bytes, section, offsets);
      InSection(lsdas[0], at, ptrSize, section, start);
      ParseStep(section, |start|, offsets, address, ptrSize);
      CanonicalsStep(lsdas);
      FirstAndIff(ParseLsda(section[|start|..], at, ptrSize), Parse(section, offsets, address, ptrSize), Canonicals(lsdas));
      PrefixOf(buf, start, section);
      AlignedStep(|start|, offsets);
    }
  }

  lemma NoneBack(buf: seq<byte>, address: word, ptrSize: nat)
    ensures AllWrite([], ptrSize) && AllBack([], buf, address, ptrSize)
  {
  }

  // ----- the layout -----

  /** The LSDAs lie in the section from end on, each at its offset, which is the first aligned one behind the
      LSDA before it; only zeros are in between, and nothing comes behind the last. */
  predicate Tight(lsdas: seq<Lsda>, offsets: seq<nat>, section: seq<byte>, end: nat, address: word, ptrSize: nat)
    requires AllActionsValid(lsdas)
    decreases |lsdas|
  {
    if lsdas == [] then offsets == [] && |section| == end
    else
      && offsets != []
      && var at := offsets[0];
         && end <= at < end + 4 && at % 4 == 0
         && var bytes := LsdaBytes(lsdas[0], At(address, at), ptrSize);
            && bytes.Some? && at + |bytes.value| <= |section|
            && section[at..at + |bytes.value|] == bytes.value
            && (forall i :: end <= i < at ==> section[i] == 0)
            && Tight(lsdas[1..], offsets[1..], section, at + |bytes.value|, address, ptrSize)
  }

  lemma {:induction false} SectionTight(lsdas: seq<Lsda>, buf: seq<byte>, address: word, ptrSize: nat)
    requires AllActionsValid(lsdas) && Build(lsdas, buf, address, ptrSize).Some?
    ensures var (section, offsets) := Build(lsdas, buf, address, ptrSize).value;
      buf <= section && Tight(lsdas, offsets, section, |buf|, address, ptrSize)
    decreases |lsdas|
  {
    hide LsdaBytes, Valid, Aligned;
    if lsdas != [] {
      var start := Aligned(buf);
      var bytes := LsdaBytes(lsdas[0], At(address, |start|), ptrSize).value;
      var (section, offsets) := Build(lsdas[1..], start + bytes, address, ptrSize).value;
      SectionTight(lsdas[1..], start + bytes, address, ptrSize);
      AlignedZeros(buf);
      OneTight(buf, start, bytes, section);
      assert ([|start|] + offsets)[1..] == offsets;
    }
  }

  lemma AlignedZeros(buf: seq<byte>)
    ensures var start := Aligned(buf);
      buf <= start && |start| < |buf| + 4 && |start| % 4 == 0 && forall i :: |buf| <= i < |start| ==> start[i] == 0
  {
  }

  lemma OneTight(buf: seq<byte>, start: seq<byte>, bytes: seq<byte>, section: seq<byte>)
    requires buf <= start && start + bytes <= section && forall i :: |buf| <= i < |start| ==> start[i] == 0
    ensures buf <= section && section[|start|..|start| + |bytes|] == bytes
    ensures forall i :: |buf| <= i < |start| ==> section[i] == 0
  {
    assert section[..|start| + |bytes|] == start + bytes;
  }
}
