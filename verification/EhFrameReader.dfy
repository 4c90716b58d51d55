/** Reading the FDEs of .eh_frame back (LSB Core, sections on .eh_frame and on DWARF extensions). */
module EhFrameReader {
  import opened Bytes
  import opened Leb
  import opened LebWords
  import opened Cfa
  import opened EhPointers
  import opened EhFrame

  // ----- pointers -----

  predicate SignedFormat(enc: byte) { Format(enc) >= 8 }

  /** Addresses of the ELF file are as wide as its pointers. */
  function AddressSpace(ptrSize: nat): nat { if ptrSize == 4 then HALF_WORD else WORD }

  /** A pointer at its own address. */
  function TakePointer(bs: seq<byte>, enc: byte, location: word, ptrSize: nat): Option<Read<int>>
  {
    var size :- EntrySize(enc, ptrSize);
    var stored :- TakeBytes(bs, size);
    var raw := if SignedFormat(enc) && size > 0 then Signed(stored.value) else Unsigned(stored.value);
    if Application(enc) == ABSOLUTE then Some(Read(raw % AddressSpace(ptrSize), stored.rest))
    else if Application(enc) == PC_RELATIVE then Some(Read((raw + location) % AddressSpace(ptrSize), stored.rest))
    else None
  }

  /** What is stored fits the width, as a signed or an unsigned number. */
  predicate Fits(x: int, signed: bool, m: nat, space: nat)
    requires space > 0
  {
    m >= space || (if signed then x % space < m / 2 || x % space >= space - m / 2 else x % space < m)
  }

  predicate PointerFits(v: int, enc: byte, location: word, ptrSize: nat)
  {
    EntrySize(enc, ptrSize).Some?
    && Fits(if Application(enc) == ABSOLUTE then v else v - location, SignedFormat(enc),
            Base256(EntrySize(enc, ptrSize).value), AddressSpace(ptrSize))
  }

  /** Cut to m and extended again. */
  function Recut(x: int, signed: bool, m: nat): int
    requires m > 0
  {
    if signed && x % m >= m / 2 then x % m - m else x % m
  }

  lemma RecutWide(x: int, signed: bool, m: nat, k: nat, space: nat)
    requires m == space * k && m > 0 && space > 0
    ensures Recut(x, signed, m) % space == x % space
  {
    var u := x % m;
    var r := Recut(x, signed, m);
    assert r == u || r == u + space * (0 - k);
    hide Recut;
    SmallMod(u, m);
    ModOfProduct(u, x, space, k);
    AddMultiple(u, space, 0 - k);
  }

  lemma RecutNarrow(x: int, signed: bool, m: nat, k: nat, space: nat)
    requires space == m * k && m > 0 && space > 0 && k >= 2 && m % 2 == 0
    ensures Recut(x, signed, m) % space == x % space <==> Fits(x, signed, m, space)
  {
    var y := x % space;
    SmallMod(y, space);
    ModOfProduct(x, y, m, k);
    TopDigit(y, m, k);
    hide *;
    Narrow(x, y, signed, m, y / m, y % m, m * (k - 1), space);
  }

  lemma TopDigit(y: nat, m: nat, k: nat)
    requires m > 0 && k >= 2 && y < m * k
    ensures var (q, top) := (y / m, m * (k - 1));
      && m * k == top + m && top >= m && y == m * q + y % m && q >= 0
      && (y < top ==> m * q <= top - m) && (y >= top ==> m * q == top) && (y < m ==> q == 0)
  {
    var q := y / m;
    DivBound(y, m, k - 1);
    DivBound(y, m, k);
    DivBound(y, m, 1);
    MulMonotone(m, 1, k - 1);
    assert m * k == m * (k - 1) + m;
    if y < m * (k - 1) {
      MulMonotone(m, q, k - 2);
      assert m * (k - 2) == m * (k - 1) - m;
    } else {
      assert q == k - 1;
    }
  }

  lemma Narrow(x: int, y: nat, signed: bool, m: nat, q: nat, u: nat, top: nat, space: nat)
    requires m > 0 && m % 2 == 0 && space == top + m && top >= m && y == x % space && u == x % m && u < m
    requires y == m * q + u && y < space && (y < top ==> m * q <= top - m) && (y >= top ==> m * q == top) && (y < m ==> q == 0)
    ensures Recut(x, signed, m) % space == x % space <==> Fits(x, signed, m, space)
  {
    var p := m * q;
    if signed && u >= m / 2 {
      DivModUnique(u - m, space, -1, u + top);
    } else {
      SmallMod(u, space);
    }
  }

  predicate Width(m: nat) { m in {0x1_0000, HALF_WORD, WORD} }

  /** What comes out of a field of two, four or eight bytes. */
  lemma RecutIff(x: int, signed: bool, m: nat, ptrSize: nat)
    requires Width(m) && ptrSize in {4, 8}
    ensures Recut(x, signed, m) % AddressSpace(ptrSize) == x % AddressSpace(ptrSize) <==> Fits(x, signed, m, AddressSpace(ptrSize))
  {
    var space := AddressSpace(ptrSize);
    hide Recut, Fits;
    if space == WORD {
      if m == WORD { RecutWide(x, signed, m, 1, space); }
      else if m == HALF_WORD { RecutNarrow(x, signed, m, HALF_WORD, space); }
      else { RecutNarrow(x, signed, m, 0x1_0000_0000_0000, space); }
    } else {
      if m == WORD { RecutWide(x, signed, m, HALF_WORD, space); }
      else if m == HALF_WORD { RecutWide(x, signed, m, 1, space); }
      else { RecutNarrow(x, signed, m, 0x1_0000, space); }
    }
    if m >= space { WideFits(x, signed, m, space); }
  }

  lemma WideFits(x: int, signed: bool, m: nat, space: nat)
    requires space > 0 && m >= space
    ensures Fits(x, signed, m, space)
  {
  }

  lemma FieldWidth(enc: byte, ptrSize: nat)
    requires ptrSize in {4, 8} && EntrySize(enc, ptrSize).Some? && enc != DW_EH_PE_OMIT
    ensures EntrySize(enc, ptrSize).value in {2, 4, 8} && Width(Base256(EntrySize(enc, ptrSize).value))
  {
    assert Base256(2) == 0x1_0000 && Base256(4) == HALF_WORD && Base256(8) == WORD;
  }

  /** The number in a field of a stored word. */
  lemma FieldNumber(x: int, signed: bool, size: nat)
    requires size in {2, 4, 8}
    ensures var bs := ToBytes(x % WORD, size);
            (if signed then Signed(bs) else Unsigned(bs)) == Recut(x, signed, Base256(size))
  {
    var w, m := x % WORD, Base256(size);
    var bs := ToBytes(w, size);
    CutTwice(x, size);
    hide *;
    ToBytesValue(w, size);
    SignedFromUnsigned(bs);
    UnsignedHalf(bs);
    RecutIs(x, signed, m);
  }

  lemma RecutIs(x: int, signed: bool, m: nat)
    requires m > 0 && m % 2 == 0
    ensures Recut(x, signed, m) == if signed && 2 * (x % m) >= m then x % m - m else x % m
  {
  }

  lemma CutTwice(x: int, size: nat)
    requires size in {2, 4, 8}
    ensures x % WORD % Base256(size) == x % Base256(size) && Base256(size) % 2 == 0
  {
    var w := x % WORD;
    assert Base256(2) == 0x1_0000 && Base256(4) == HALF_WORD && Base256(8) == WORD;
    SmallMod(w, WORD);
    ModOfProduct(w, x, Base256(size), if size == 2 then 0x1_0000_0000_0000 else if size == 4 then HALF_WORD else 1);
  }

  lemma Moved(raw: int, v: int, location: int, space: nat)
    requires space > 0
    ensures (raw + location) % space == v % space <==> raw % space == (v - location) % space
  {
    var q := (raw + location) / space - v / space;
    var p := raw / space - (v - location) / space;
    if (raw + location) % space == v % space {
      assert raw == (v - location) + space * q;
      AddMultiple(v - location, space, q);
    }
    if raw % space == (v - location) % space {
      assert raw + location == v + space * p;
      AddMultiple(v, space, p);
    }
  }

  /** What the writer stores, as a number of any size. */
  function Stored(v: int, enc: byte, location: word): int { if Application(enc) == ABSOLUTE then v else v - location }

  /** A pointer is read back, as an address of the ELF file, exactly when what is stored fits. */
  lemma PointerIff(v: word, enc: byte, location: word, ptrSize: nat, rest: seq<byte>)
    requires ptrSize in {4, 8} && EntrySize(enc, ptrSize).Some? && EncodePointer(v, enc, location).Some?
    ensures var field := ToBytes(EncodePointer(v, enc, location).value, EntrySize(enc, ptrSize).value);
      var r := TakePointer(field + rest, enc, location, ptrSize);
      && r.Some? && r.value.rest == rest
      && (r.value.value == v % AddressSpace(ptrSize) <==> PointerFits(v, enc, location, ptrSize))
  {
    var size, space, signed := EntrySize(enc, ptrSize).value, AddressSpace(ptrSize), SignedFormat(enc);
    var x := Stored(v, enc, location);
    SmallMod(v, WORD);
    assert EncodePointer(v, enc, location).value == x % WORD;
    NotOmitted(v, enc, location);
    hide *;
    FieldWidth(enc, ptrSize);
    PointerTaken(x % WORD, enc, location, ptrSize, rest);
    FieldNumber(x, signed, size);
    RecutIff(x, signed, Base256(size), ptrSize);
    PointerFitsIs(v, enc, location, ptrSize);
    if Application(enc) != ABSOLUTE { Moved(Recut(x, signed, Base256(size)), v, location, space); }
    StoredIs(v, enc, location);
  }

  lemma PointerTaken(w: word, enc: byte, location: word, ptrSize: nat, rest: seq<byte>)
    requires ptrSize in {4, 8} && EntrySize(enc, ptrSize).Some? && EntrySize(enc, ptrSize).value > 0
    requires Application(enc) == ABSOLUTE || Application(enc) == PC_RELATIVE
    ensures var bs := ToBytes(w, EntrySize(enc, ptrSize).value);
      var raw := if SignedFormat(enc) then Signed(bs) else Unsigned(bs);
      TakePointer(bs + rest, enc, location, ptrSize)
      == Some(Read((if Application(enc) == ABSOLUTE then raw else raw + location) % AddressSpace(ptrSize), rest))
  {
    var bs := ToBytes(w, EntrySize(enc, ptrSize).value);
    hide ToBytes, EntrySize, Signed, Unsigned, TakeBytes, AddressSpace, Application, SignedFormat;
    TakeBytesAt(bs, rest);
  }

  lemma PointerFitsIs(v: int, enc: byte, location: word, ptrSize: nat)
    requires ptrSize in {4, 8} && EntrySize(enc, ptrSize).Some?
    ensures PointerFits(v, enc, location, ptrSize)
        <==> Fits(Stored(v, enc, location), SignedFormat(enc), Base256(EntrySize(enc, ptrSize).value), AddressSpace(ptrSize))
  {
  }

  lemma StoredIs(v: int, enc: byte, location: word)
    ensures Stored(v, enc, location) == if Application(enc) == ABSOLUTE then v else v - location
  {
  }

  // ----- augmentation data of a CIE -----

  datatype Encodings = Encodings(fde: byte, lsda: Option<byte>)

  function SkipPersonality(data: seq<byte>, ptrSize: nat): Option<seq<byte>>
  {
    var enc :- TakeBytes(data, 1);
    var size :- EntrySize(enc.value[0], ptrSize);
    var field :- TakeBytes(enc.rest, size);
    Some(field.rest)
  }

  /** The letters say what the data hold; without an R pointers are absolute. */
  function ReadEncodings(augmentation: seq<byte>, data: seq<byte>, ptrSize: nat): Option<Encodings>
  {
    var rest :- if 0x50 in augmentation then SkipPersonality(data, ptrSize) else Some(data);
    var lsda :- TakeBytes(rest, if 0x4c in augmentation then 1 else 0);
    var fde :- TakeBytes(lsda.rest, if 0x52 in augmentation then 1 else 0);
    Some(Encodings(if fde.value == [] then 0 else fde.value[0], if lsda.value == [] then None else Some(lsda.value[0])))
  }

  /** Without the flag for it the encoding of the FDEs is the default one. */
  predicate Declared(c: Cie) { (c.augmented && c.hasFdeEncoding) || c.fdeEncoding == 0 }

  function EncodingsOf(c: Cie): Encodings
  {
    Encodings(c.fdeEncoding, if c.augmented && c.hasLsda then Some(c.lsdaEncoding) else None)
  }

  lemma PersonalityForm(c: Cie, location: word, ptrSize: nat, spare: seq<byte>) returns (enc: byte, field: seq<byte>)
    requires |spare| == 4 && PersonalityData(c, location, ptrSize, spare).Some?
    ensures PersonalityData(c, location, ptrSize, spare).value == [enc] + field && EntrySize(enc, ptrSize) == Some(|field|)
    ensures c.personality >= HALF_WORD ==> enc == 0x04 && field == ToBytes(c.personality, 4) + spare
  {
    hide ToBytes, EncodePointer;
    var data := PersonalityData(c, location, ptrSize, spare).value;
    enc := data[0];
    if c.personality < HALF_WORD {
      field := ToBytes(EncodePointer(c.personality, c.personalityEncoding, location).value,
                       EntrySize(c.personalityEncoding, ptrSize).value);
    } else {
      field := ToBytes(c.personality, 4) + spare;
    }
  }

  lemma SkipField(enc: byte, field: seq<byte>, rest: seq<byte>, ptrSize: nat)
    requires EntrySize(enc, ptrSize) == Some(|field|)
    ensures SkipPersonality([enc] + field + rest, ptrSize) == Some(rest)
  {
    hide TakeBytes, EntrySize;
    Assoc([enc], field, rest);
    TakeBytesAt([enc], field + rest);
    TakeBytesAt(field, rest);
  }

  lemma PersonalitySkipped(c: Cie, location: word, ptrSize: nat, spare: seq<byte>, rest: seq<byte>)
    requires |spare| == 4 && PersonalityData(c, location, ptrSize, spare).Some?
    ensures SkipPersonality(PersonalityData(c, location, ptrSize, spare).value + rest, ptrSize) == Some(rest)
  {
    hide *;
    var enc, field := PersonalityForm(c, location, ptrSize, spare);
    SkipField(enc, field, rest, ptrSize);
  }

  lemma AugmentationLetters(c: Cie)
    ensures 0x50 in Augmentation(c) <==> c.augmented && c.hasPersonality
    ensures 0x4c in Augmentation(c) <==> c.augmented && c.hasLsda
    ensures 0x52 in Augmentation(c) <==> c.augmented && c.hasFdeEncoding
    ensures IsAugmented(Augmentation(c)) <==> c.augmented
  {
  }

  function LsdaLetter(c: Cie): seq<byte> { if c.augmented && c.hasLsda then [c.lsdaEncoding] else [] }

  function FdeLetter(c: Cie): seq<byte> { if c.augmented && c.hasFdeEncoding then [c.fdeEncoding] else [] }

  lemma EncodingsRead(f: Frame, c: Cie, at: nat)
    requires |f.spare| == 4 && f.ptrSize in {4, 8} && CieData(f, c, at).Some? && Declared(c)
    ensures ReadEncodings(Augmentation(c), CieData(f, c, at).value, f.ptrSize) == Some(EncodingsOf(c))
  {
    AugmentationLetters(c);
    var (l, r) := (LsdaLetter(c), FdeLetter(c));
    EncodingsParts(f, c, at);
    assert |l| == (if c.augmented && c.hasLsda then 1 else 0) && |r| == (if c.augmented && c.hasFdeEncoding then 1 else 0);
    assert r + [] == r;
    hide PersonalityData, TakeBytes, Augmentation, SkipPersonality, Address, AssumedDataOffset, CieData;
    TakeBytesAt(l, r);
    TakeBytesAt(r, []);
  }

  /** What is left behind the personality. */
  lemma EncodingsParts(f: Frame, c: Cie, at: nat)
    requires |f.spare| == 4 && CieData(f, c, at).Some?
    ensures var (data, rest) := (CieData(f, c, at).value, LsdaLetter(c) + FdeLetter(c));
            if c.augmented && c.hasPersonality then SkipPersonality(data, f.ptrSize) == Some(rest) else data == rest
  {
    hide PersonalityData, Address, AssumedDataOffset, SkipPersonality;
    if c.augmented && c.hasPersonality {
      CieDataParts(f, c, at);
      PersonalitySkipped(c, Address(f.ehAddress, at + AssumedDataOffset(c) + 1), f.ptrSize, f.spare, LsdaLetter(c) + FdeLetter(c));
    } else {
      assert CieData(f, c, at).value == LsdaLetter(c) + FdeLetter(c);
    }
  }

  // ----- FDEs -----

  datatype FdeRead = FdeRead(cieAt: int, lowpc: int, range: int, lsda: Option<int>, program: seq<Instr>)

  /** An FDE from the place of its record alone: its CIE is looked up for the encodings. */
  function ReadFde(f: Frame, image: seq<byte>, at: nat): Option<FdeRead>
  {
    var body :- TakeRecord(image, at);
    var pointer :- TakeBytes(body, 4);
    var cieAt := at + 4 - Unsigned(pointer.value);
    if cieAt == at + 4 || cieAt < 0 then None
    else
      var cieBody :- TakeRecord(image, cieAt);
      var cie :- ReadCie(cieBody);
      var enc :- ReadEncodings(cie.augmentation, cie.data, f.ptrSize);
      ReadFdeFields(f, at, cieAt, IsAugmented(cie.augmentation), enc, pointer.rest)
  }

  function ReadFdeFields(f: Frame, at: nat, cieAt: int, augmented: bool, enc: Encodings, bs: seq<byte>): Option<FdeRead>
  {
    var low :- TakePointer(bs, enc.fde, Address(f.ehAddress, at + 8), f.ptrSize);
    var range :- TakeBytes(low.rest, 4);
    var block :- TakeData(range.rest, augmented);
    var lsda :- ReadLsda(f, at + 8 + |bs| - |block.rest| - |block.value|, enc.lsda, block.value);
    var program :- ParseProgram(block.rest);
    Some(FdeRead(cieAt, low.value, Unsigned(range.value), lsda, program))
  }

  function ReadLsda(f: Frame, offset: int, enc: Option<byte>, data: seq<byte>): Option<Option<int>>
  {
    if data == [] || enc.None? then Some(None)
    else
      var p :- TakePointer(data, enc.value, (f.ehAddress + offset) % WORD, f.ptrSize);
      Some(Some(p.value))
  }

  /** Whether the writer gives the FDE a pointer to its LSDA, and where. */
  predicate HasLsda(c: Cie, d: Fde) { c.augmented && c.hasLsda && d.lsda.Some? }

  function LsdaOffset(f: Frame, c: Cie, at: nat): nat
    requires EntrySize(c.fdeEncoding, f.ptrSize).Some?
  {
    at + 8 + EntrySize(c.fdeEncoding, f.ptrSize).value + 4 + 1
  }

  function WantedLsda(f: Frame, c: Cie, d: Fde): Option<int>
    requires ValidFde(f, d)
  {
    if HasLsda(c, d) then Some(f.lsdaPointers[d.lsda.value] % AddressSpace(f.ptrSize)) else None
  }

  predicate LsdaFits(f: Frame, c: Cie, d: Fde, at: nat)
    requires ValidFde(f, d)
  {
    HasLsda(c, d) ==>
      && EntrySize(c.fdeEncoding, f.ptrSize).Some?
      && PointerFits(f.lsdaPointers[d.lsda.value], c.lsdaEncoding, Address(f.ehAddress, LsdaOffset(f, c, at)), f.ptrSize)
  }

  predicate FdeFits(f: Frame, c: Cie, d: Fde, at: nat)
    requires ValidFde(f, d)
  {
    PointerFits(d.lowpc % WORD, c.fdeEncoding, Address(f.ehAddress, at + 8), f.ptrSize) && LsdaFits(f, c, d, at)
  }

  /** The pointer to the LSDA is right exactly when it fits; its address, with one byte for
      the length in front of it, is always the one assumed. */
  lemma LsdaIff(f: Frame, c: Cie, d: Fde, at: nat)
    requires ValidFde(f, d) && f.ptrSize in {4, 8} && Location(f, c, d, at).Some? && LsdaData(f, c, d, at).Some?
    ensures var data := LsdaData(f, c, d, at).value;
      && |data| <= 8
      && var r := ReadLsda(f, LsdaOffset(f, c, at), EncodingsOf(c).lsda, data);
         r.Some? && (r.value == WantedLsda(f, c, d) <==> LsdaFits(f, c, d, at))
  {
    hide *;
    LocationIs(f, c, d, at);
    NoLsdaWritten(f, c, d, at);
    if HasLsda(c, d) {
      LsdaWritten(f, c, d, at);
      var v, location := f.lsdaPointers[d.lsda.value], Address(f.ehAddress, LsdaOffset(f, c, at));
      var data := LsdaData(f, c, d, at).value;
      NotOmitted(v, c.lsdaEncoding, location);
      FieldWidth(c.lsdaEncoding, f.ptrSize);
      PointerIff(v, c.lsdaEncoding, location, f.ptrSize, []);
      assert data + [] == data;
      LsdaRead(f, c, d, at, data);
    }
  }

  lemma NoLsdaWritten(f: Frame, c: Cie, d: Fde, at: nat)
    requires ValidFde(f, d) && Location(f, c, d, at).Some? && LsdaData(f, c, d, at).Some?
    ensures EntrySize(c.fdeEncoding, f.ptrSize).Some?
    ensures !HasLsda(c, d) ==>
      && LsdaData(f, c, d, at).value == [] && WantedLsda(f, c, d) == None && LsdaFits(f, c, d, at)
      && ReadLsda(f, LsdaOffset(f, c, at), EncodingsOf(c).lsda, []) == Some(None)
  {
    hide EntrySize, EncodePointer;
  }

  /** The pointer to the LSDA that is written. */
  lemma LsdaWritten(f: Frame, c: Cie, d: Fde, at: nat)
    requires ValidFde(f, d) && LsdaData(f, c, d, at).Some? && HasLsda(c, d)
    ensures d.lsda.Some? && d.lsda.value < |f.lsdaPointers| && EntrySize(c.fdeEncoding, f.ptrSize).Some?
    ensures EntrySize(c.lsdaEncoding, f.ptrSize).Some?
    ensures var stored := EncodePointer(f.lsdaPointers[d.lsda.value], c.lsdaEncoding, Address(f.ehAddress, LsdaOffset(f, c, at)));
      && stored.Some? && LsdaData(f, c, d, at).value == ToBytes(stored.value, EntrySize(c.lsdaEncoding, f.ptrSize).value)
      && |LsdaData(f, c, d, at).value| == EntrySize(c.lsdaEncoding, f.ptrSize).value
  {
    hide EntrySize, EncodePointer;
  }

  /** ... and what is read of it. */
  lemma LsdaRead(f: Frame, c: Cie, d: Fde, at: nat, data: seq<byte>)
    requires ValidFde(f, d) && HasLsda(c, d) && d.lsda.Some? && d.lsda.value < |f.lsdaPointers| && f.ptrSize in {4, 8}
    requires data != [] && EntrySize(c.fdeEncoding, f.ptrSize).Some?
    requires TakePointer(data, c.lsdaEncoding, Address(f.ehAddress, LsdaOffset(f, c, at)), f.ptrSize).Some?
    ensures ReadLsda(f, LsdaOffset(f, c, at), EncodingsOf(c).lsda, data)
         == Some(Some(TakePointer(data, c.lsdaEncoding, Address(f.ehAddress, LsdaOffset(f, c, at)), f.ptrSize).value.value))
    ensures WantedLsda(f, c, d) == Some(f.lsdaPointers[d.lsda.value] % AddressSpace(f.ptrSize))
    ensures LsdaFits(f, c, d, at)
       <==> PointerFits(f.lsdaPointers[d.lsda.value], c.lsdaEncoding, Address(f.ehAddress, LsdaOffset(f, c, at)), f.ptrSize)
  {
    hide EntrySize, TakePointer, PointerFits;
  }

  lemma NotOmitted(v: word, enc: byte, location: word)
    requires EncodePointer(v, enc, location).Some?
    ensures enc != DW_EH_PE_OMIT
  {
  }

  /** The fields of an FDE behind the pointer to its CIE. */
  lemma FieldsRead(f: Frame, c: Cie, d: Fde, at: nat, cieAt: int, tail: seq<byte>)
    requires ValidFde(f, d) && f.ptrSize in {4, 8} && Location(f, c, d, at).Some? && LsdaData(f, c, d, at).Some?
    requires ParseProgram(tail).Some?
    ensures var bs := Location(f, c, d, at).value
                      + (ToBytes(d.highpc - d.lowpc, 4) + (Block(c.augmented, LsdaData(f, c, d, at).value) + tail));
      var r := ReadFdeFields(f, at, cieAt, c.augmented, EncodingsOf(c), bs);
      && r.Some?
      && (FdeFits(f, c, d, at)
          <==> r.value == FdeRead(cieAt, d.lowpc % WORD % AddressSpace(f.ptrSize), (d.highpc - d.lowpc) % HALF_WORD,
                                  WantedLsda(f, c, d), ParseProgram(tail).value))
  {
    hide *;
    var low, data := Location(f, c, d, at).value, LsdaData(f, c, d, at).value;
    var location := Address(f.ehAddress, at + 8);
    var range := ToBytes(d.highpc - d.lowpc, 4);
    var enc := EncodingsOf(c);
    var t0 := Block(c.augmented, data) + tail;
    var t1 := range + t0;
    var bs := low + t1;
    var p := TakePointer(bs, c.fdeEncoding, location, f.ptrSize);
    LsdaIff(f, c, d, at);
    LocationIs(f, c, d, at);
    LsdaPlace(f, c, d, at, |bs| - |tail| - |data|, bs, tail);
    EncodingsOfFde(c);
    FdeFitsIs(f, c, d, at);
    RangeRead(d.highpc - d.lowpc);
    PointerIff(d.lowpc % WORD, c.fdeEncoding, location, f.ptrSize, t1);
    TakeBytesAt(range, t0);
    TakeDataAt(c.augmented, data, tail);
    FieldsAre(f, at, cieAt, c.augmented, enc, bs, p.value, Read(range, t0), Read(data, tail),
              ReadLsda(f, at + 8 + |bs| - |tail| - |data|, enc.lsda, data).value);
  }

  lemma FieldsAre(f: Frame, at: nat, cieAt: int, augmented: bool, enc: Encodings, bs: seq<byte>, low: Read<int>,
                  range: Read<seq<byte>>, block: Read<seq<byte>>, lsda: Option<int>)
    requires TakePointer(bs, enc.fde, Address(f.ehAddress, at + 8), f.ptrSize) == Some(low)
    requires TakeBytes(low.rest, 4) == Some(range) && TakeData(range.rest, augmented) == Some(block)
    requires ReadLsda(f, at + 8 + |bs| - |block.rest| - |block.value|, enc.lsda, block.value) == Some(lsda)
    requires ParseProgram(block.rest).Some?
    ensures ReadFdeFields(f, at, cieAt, augmented, enc, bs)
         == Some(FdeRead(cieAt, low.value, Unsigned(range.value), lsda, ParseProgram(block.rest).value))
  {
    hide TakePointer, TakeBytes, TakeData, ReadLsda, ParseProgram, Address, Unsigned;
  }

  lemma EncodingsOfFde(c: Cie)
    ensures EncodingsOf(c).fde == c.fdeEncoding
  {
  }

  lemma FdeFitsIs(f: Frame, c: Cie, d: Fde, at: nat)
    requires ValidFde(f, d)
    ensures FdeFits(f, c, d, at)
        <==> PointerFits(d.lowpc % WORD, c.fdeEncoding, Address(f.ehAddress, at + 8), f.ptrSize) && LsdaFits(f, c, d, at)
  {
  }

  /** Where the reader meets the data: behind one byte of length, if there are any. */
  lemma LsdaPlace(f: Frame, c: Cie, d: Fde, at: nat, k: int, bs: seq<byte>, tail: seq<byte>)
    requires ValidFde(f, d) && f.ptrSize in {4, 8} && Location(f, c, d, at).Some? && LsdaData(f, c, d, at).Some?
    requires bs == Location(f, c, d, at).value + (ToBytes(d.highpc - d.lowpc, 4) + (Block(c.augmented, LsdaData(f, c, d, at).value) + tail))
    requires k == |bs| - |tail| - |LsdaData(f, c, d, at).value|
    ensures EntrySize(c.fdeEncoding, f.ptrSize).Some?
    ensures var data := LsdaData(f, c, d, at).value;
      && (!c.augmented ==> data == [])
      && ReadLsda(f, at + 8 + k, EncodingsOf(c).lsda, data) == ReadLsda(f, LsdaOffset(f, c, at), EncodingsOf(c).lsda, data)
  {
    LsdaIff(f, c, d, at);
    LocationIs(f, c, d, at);
    PlainData(f, c, d, at);
    var data := LsdaData(f, c, d, at).value;
    BlockLength(c.augmented, data);
    NoLsda(f, at + 8 + k, LsdaOffset(f, c, at), EncodingsOf(c).lsda, data);
    hide Location, LsdaData, EntrySize, EncodePointer, ToBytes, Block, ReadLsda, EncodingsOf;
  }

  lemma NoLsda(f: Frame, a: int, b: int, enc: Option<byte>, data: seq<byte>)
    ensures data == [] ==> ReadLsda(f, a, enc, data) == ReadLsda(f, b, enc, data)
  {
  }

  lemma RangeRead(range: int)
    ensures Unsigned(ToBytes(range, 4)) == range % HALF_WORD
  {
    ToBytesValue(range, 4);
    assert Base256(4) == HALF_WORD;
  }

  lemma BlockLength(augmented: bool, data: seq<byte>)
    requires |data| <= 8 && (!augmented ==> data == [])
    ensures |Block(augmented, data)| == if augmented then 1 + |data| else 0
  {
  }

  lemma PlainData(f: Frame, c: Cie, d: Fde, at: nat)
    requires ValidFde(f, d) && LsdaData(f, c, d, at).Some?
    ensures !HasLsda(c, d) ==> LsdaData(f, c, d, at).value == []
  {
  }

  lemma LocationIs(f: Frame, c: Cie, d: Fde, at: nat)
    requires Location(f, c, d, at).Some?
    ensures var location := Address(f.ehAddress, at + 8);
      && EntrySize(c.fdeEncoding, f.ptrSize).Some? && EncodePointer(d.lowpc % WORD, c.fdeEncoding, location).Some?
      && Location(f, c, d, at).value
         == ToBytes(EncodePointer(d.lowpc % WORD, c.fdeEncoding, location).value, EntrySize(c.fdeEncoding, f.ptrSize).value)
  {
  }

  lemma FdeStep(f: Frame, image: seq<byte>, at: nat, body: seq<byte>, pointer: seq<byte>, rest: seq<byte>, cieAt: nat,
                cieBody: seq<byte>, cie: CieRead, enc: Encodings)
    requires TakeRecord(image, at) == Some(body) && TakeBytes(body, 4) == Some(Read(pointer, rest))
    requires Unsigned(pointer) == at - cieAt + 4 > 0
    requires TakeRecord(image, cieAt) == Some(cieBody) && ReadCie(cieBody) == Some(cie)
    requires ReadEncodings(cie.augmentation, cie.data, f.ptrSize) == Some(enc)
    ensures ReadFde(f, image, at) == ReadFdeFields(f, at, cieAt, IsAugmented(cie.augmentation), enc, rest)
  {
    hide TakeRecord, TakeBytes, ReadCie, ReadEncodings, ReadFdeFields, Unsigned, IsAugmented;
  }

  /** rs are the records of the whole section. */
  predicate Built(f: Frame, rs: seq<seq<byte>>)
  {
    && ValidFrame(f) && Records(f, Count(f)) == Some(rs) && |Flat(rs)| < HALF_WORD
    && |rs| == |f.cies| + |f.fdes|
  }

  /** Where an FDE and its CIE are. */
  lemma Places(f: Frame, rs: seq<seq<byte>>, j: nat)
    requires Built(f, rs) && j < |f.fdes|
    ensures var (d, i) := (f.fdes[j], |f.cies| + j);
      && ValidFde(f, d) && StartOf(rs, d.cie) <= StartOf(rs, i) < HALF_WORD - 4
      && FdeRecord(f, d, StartOf(rs, i), StartOf(rs, d.cie)) == Some(rs[i]) && 4 < |rs[i]| < HALF_WORD
      && TakeRecord(Flat(rs), StartOf(rs, i)) == Some(rs[i][4..])
  {
    hide Records, FdeRecord, CieRecord, TakeRecord, Flat;
    var (d, i) := (f.fdes[j], |f.cies| + j);
    assert ValidFde(f, d);
    RecordsAt(f, Count(f), i);
    FramedAt(f, i);
    RecordAt(rs, i);
    FlatLength(rs, i);
    assert rs[..i][..d.cie] == rs[..d.cie];
    FlatLength(rs[..i], d.cie);
  }

  /** What is behind the pointer to the CIE. */
  function FdeRest(f: Frame, c: Cie, d: Fde, at: nat, tail: seq<byte>): seq<byte>
    requires ValidFde(f, d) && Location(f, c, d, at).Some? && LsdaData(f, c, d, at).Some?
  {
    Location(f, c, d, at).value + (ToBytes(d.highpc - d.lowpc, 4) + (Block(c.augmented, LsdaData(f, c, d, at).value) + tail))
  }

  /** A program of instructions that survive printing and parsing. */
  predicate Supported(p: seq<Instr>) { forall k :: k in p ==> Cfa.RoundTrips(k) }

  /** What the record of an FDE holds. */
  lemma FdeContents(f: Frame, d: Fde, at: nat, cieAt: nat) returns (tail: seq<byte>)
    requires ValidFde(f, d) && d.cie < |f.cies| && FdeRecord(f, d, at, cieAt).Some? && 4 < |FdeRecord(f, d, at, cieAt).value| < HALF_WORD
    requires Supported(d.program)
    ensures Location(f, f.cies[d.cie], d, at).Some? && LsdaData(f, f.cies[d.cie], d, at).Some?
    ensures ParseProgram(tail) == Some(WithoutNops(d.program))
    ensures FdeRecord(f, d, at, cieAt).value[4..]
         == FdeFields(at - cieAt + 4, Location(f, f.cies[d.cie], d, at).value, d.highpc - d.lowpc, f.cies[d.cie].augmented,
                      LsdaData(f, f.cies[d.cie], d, at).value, tail)
  {
    var c := f.cies[d.cie];
    assert forall k :: k in d.program ==> Cfa.RoundTrips(k);
    hide *;
    FdeRecordIs(f, d, at, cieAt);
    var pad: nat :| FdeRecord(f, d, at, cieAt).value[4..]
                    == FdeFields(at - cieAt + 4, Location(f, c, d, at).value, d.highpc - d.lowpc, c.augmented,
                                 LsdaData(f, c, d, at).value, PrintProgram(d.program).value + Nops(pad));
    ProgramRoundTrip(d.program, pad);
    tail := PrintProgram(d.program).value + Nops(pad);
  }

  /** ... as a reader takes it apart. */
  lemma FdeBody(f: Frame, d: Fde, at: nat, cieAt: nat, body: seq<byte>, tail: seq<byte>)
    requires ValidFde(f, d) && d.cie < |f.cies|
    requires Location(f, f.cies[d.cie], d, at).Some? && LsdaData(f, f.cies[d.cie], d, at).Some?
    requires body == FdeFields(at - cieAt + 4, Location(f, f.cies[d.cie], d, at).value, d.highpc - d.lowpc,
                               f.cies[d.cie].augmented, LsdaData(f, f.cies[d.cie], d, at).value, tail)
    requires 0 <= at - cieAt < HALF_WORD - 4
    ensures TakeBytes(body, 4) == Some(Read(ToBytes(at - cieAt + 4, 4), FdeRest(f, f.cies[d.cie], d, at, tail)))
    ensures Unsigned(ToBytes(at - cieAt + 4, 4)) == at - cieAt + 4
  {
    hide *;
    LengthBytes(at - cieAt + 4);
    FdeFieldsAre(f, f.cies[d.cie], d, at, cieAt, tail);
    TakeBytesAt(ToBytes(at - cieAt + 4, 4), FdeRest(f, f.cies[d.cie], d, at, tail));
  }

  lemma FdeFieldsAre(f: Frame, c: Cie, d: Fde, at: nat, cieAt: nat, tail: seq<byte>)
    requires ValidFde(f, d) && Location(f, c, d, at).Some? && LsdaData(f, c, d, at).Some?
    ensures FdeFields(at - cieAt + 4, Location(f, c, d, at).value, d.highpc - d.lowpc, c.augmented, LsdaData(f, c, d, at).value, tail)
         == ToBytes(at - cieAt + 4, 4) + FdeRest(f, c, d, at, tail)
    ensures |ToBytes(at - cieAt + 4, 4)| == 4
  {
    hide Location, LsdaData, Block, ToBytes;
    FourBytes(at - cieAt + 4);
  }

  /** Main result on FDEs: from the place of a record alone the reader finds the right CIE, and
      through it the location, the range, the LSDA and the program, exactly when both pointers fit
      their encodings. */
  lemma FdeIff(f: Frame, rs: seq<seq<byte>>, j: nat)
    requires Built(f, rs) && j < |f.fdes| && f.fdes[j].cie < |f.cies| && Declared(f.cies[f.fdes[j].cie])
    requires Supported(f.cies[f.fdes[j].cie].program)
    requires Supported(f.fdes[j].program)
    ensures ValidFde(f, f.fdes[j])
    ensures var (d, at) := (f.fdes[j], StartOf(rs, |f.cies| + j));
      var r := ReadFde(f, Flat(rs), at);
      && r.Some? && r.value.cieAt == StartOf(rs, d.cie)
      && (FdeFits(f, f.cies[d.cie], d, at)
          <==> r.value == Wanted(f, d, StartOf(rs, d.cie), WithoutNops(d.program)))
  {
    BuiltParts(f, rs, j);
    hide *;
    var d := f.fdes[j];
    var c := f.cies[d.cie];
    var (at, cieAt) := (StartOf(rs, |f.cies| + j), StartOf(rs, d.cie));
    var tail := FdeReached(f, rs, j);
    RestRead(f, c, d, at, cieAt, tail);
    FieldsCie(f, at, cieAt, c.augmented, EncodingsOf(c), FdeRest(f, c, d, at, tail));
  }

  /** The reader gets through the pointer to the CIE and back to the fields of the FDE. */
  lemma FdeReached(f: Frame, rs: seq<seq<byte>>, j: nat) returns (tail: seq<byte>)
    requires Built(f, rs) && |rs| == |f.cies| + |f.fdes| && j < |f.fdes| && ValidFde(f, f.fdes[j])
    requires f.fdes[j].cie < |f.cies| && Declared(f.cies[f.fdes[j].cie])
    requires Supported(f.cies[f.fdes[j].cie].program)
    requires Supported(f.fdes[j].program)
    ensures ParseProgram(tail) == Some(WithoutNops(f.fdes[j].program))
    ensures var (d, at) := (f.fdes[j], StartOf(rs, |f.cies| + j));
      var c := f.cies[d.cie];
      && Location(f, c, d, at).Some? && LsdaData(f, c, d, at).Some?
      && ReadFde(f, Flat(rs), at)
         == ReadFdeFields(f, at, StartOf(rs, d.cie), c.augmented, EncodingsOf(c), FdeRest(f, c, d, at, tail))
  {
    BuiltParts(f, rs, j);
    hide *;
    var d := f.fdes[j];
    var c := f.cies[d.cie];
    var (at, cieAt) := (StartOf(rs, |f.cies| + j), StartOf(rs, d.cie));
    var body, pointer;
    body, pointer, tail := FdeOpened(f, rs, j);
    var cieBody, cie := CieReached(f, rs, d.cie);
    FdeStep(f, Flat(rs), at, body, pointer, FdeRest(f, c, d, at, tail), cieAt, cieBody, cie, EncodingsOf(c));
  }

  lemma FdeOpened(f: Frame, rs: seq<seq<byte>>, j: nat) returns (body: seq<byte>, pointer: seq<byte>, tail: seq<byte>)
    requires Built(f, rs) && |rs| == |f.cies| + |f.fdes| && j < |f.fdes| && ValidFde(f, f.fdes[j])
    requires f.fdes[j].cie < |f.cies| && Supported(f.fdes[j].program)
    ensures ParseProgram(tail) == Some(WithoutNops(f.fdes[j].program))
    ensures var (d, at) := (f.fdes[j], StartOf(rs, |f.cies| + j));
      var c := f.cies[d.cie];
      && Location(f, c, d, at).Some? && LsdaData(f, c, d, at).Some?
      && TakeRecord(Flat(rs), at) == Some(body) && TakeBytes(body, 4) == Some(Read(pointer, FdeRest(f, c, d, at, tail)))
      && Unsigned(pointer) == at - StartOf(rs, d.cie) + 4 > 0
  {
    hide *;
    var d := f.fdes[j];
    var (at, cieAt) := (StartOf(rs, |f.cies| + j), StartOf(rs, d.cie));
    Places(f, rs, j);
    body := FdeRecord(f, d, at, cieAt).value[4..];
    pointer := ToBytes(at - cieAt + 4, 4);
    tail := FdeContents(f, d, at, cieAt);
    FdeBody(f, d, at, cieAt, body, tail);
  }

  lemma CieReached(f: Frame, rs: seq<seq<byte>>, i: nat) returns (body: seq<byte>, cie: CieRead)
    requires Built(f, rs) && i < |f.cies| && |rs| == |f.cies| + |f.fdes| && Declared(f.cies[i])
    requires Supported(f.cies[i].program)
    ensures TakeRecord(Flat(rs), StartOf(rs, i)) == Some(body) && ReadCie(body) == Some(cie)
    ensures IsAugmented(cie.augmentation) == f.cies[i].augmented
    ensures ReadEncodings(cie.augmentation, cie.data, f.ptrSize) == Some(EncodingsOf(f.cies[i]))
  {
    assert ValidFrame(f) && Records(f, Count(f)) == Some(rs) && |Flat(rs)| < HALF_WORD && |f.spare| == 4 && f.ptrSize in {4, 8};
    assert forall k :: k in f.cies[i].program ==> Cfa.RoundTrips(k);
    hide *;
    CieFound(f, i);
    CieLetters(f, f.cies[i], StartOf(rs, i));
    body := TakeRecord(Flat(rs), StartOf(rs, i)).value;
    cie := ReadBack(f, f.cies[i], StartOf(rs, i));
  }

  /** What should be read: the addresses as those of the ELF file. */
  function Wanted(f: Frame, d: Fde, cieAt: int, program: seq<Instr>): FdeRead
    requires ValidFde(f, d)
  {
    FdeRead(cieAt, d.lowpc % WORD % AddressSpace(f.ptrSize), (d.highpc - d.lowpc) % HALF_WORD, WantedLsda(f, f.cies[d.cie], d), program)
  }

  lemma RestRead(f: Frame, c: Cie, d: Fde, at: nat, cieAt: int, tail: seq<byte>)
    requires ValidFde(f, d) && f.ptrSize in {4, 8} && Location(f, c, d, at).Some? && LsdaData(f, c, d, at).Some?
    requires ParseProgram(tail).Some? && c == f.cies[d.cie]
    ensures var r := ReadFdeFields(f, at, cieAt, c.augmented, EncodingsOf(c), FdeRest(f, c, d, at, tail));
      && r.Some?
      && (FdeFits(f, c, d, at)
          <==> r.value == Wanted(f, d, cieAt, ParseProgram(tail).value))
  {
    hide Location, LsdaData, Block, ReadFdeFields, FdeFits, ToBytes, ParseProgram, WantedLsda, EncodingsOf;
    FieldsRead(f, c, d, at, cieAt, tail);
  }

  lemma BuiltParts(f: Frame, rs: seq<seq<byte>>, j: nat)
    requires Built(f, rs) && j < |f.fdes|
    ensures ValidFrame(f) && Records(f, Count(f)) == Some(rs) && |Flat(rs)| < HALF_WORD && |rs| == |f.cies| + |f.fdes|
    ensures ValidFde(f, f.fdes[j]) && f.fdes[j].cie < |f.cies| && |f.spare| == 4 && f.ptrSize in {4, 8}
  {
  }

  lemma CieLetters(f: Frame, c: Cie, at: nat)
    requires c.addressSize < 256 && c.segmentSize < 256 && CieData(f, c, at).Some?
    requires |f.spare| == 4 && f.ptrSize in {4, 8} && Declared(c)
    ensures var cie := ReadBack(f, c, at);
      IsAugmented(cie.augmentation) == c.augmented && ReadEncodings(cie.augmentation, cie.data, f.ptrSize) == Some(EncodingsOf(c))
  {
    hide Augmentation, ReadEncodings, CieData, Declared;
    EncodingsRead(f, c, at);
    AugmentationLetters(c);
  }

  lemma FieldsCie(f: Frame, at: nat, cieAt: int, augmented: bool, enc: Encodings, bs: seq<byte>)
    requires ReadFdeFields(f, at, cieAt, augmented, enc, bs).Some?
    ensures ReadFdeFields(f, at, cieAt, augmented, enc, bs).value.cieAt == cieAt
  {
  }

  // ----- the personality -----

  /** Where the augmentation data really begin. */
  function DataOffset(c: Cie, data: seq<byte>): nat
  {
    AssumedDataOffset(c) + |if c.version >= 4 then [0, 0] else []| + |Uleb(|data|)|
  }

  /** Absolute pointers that fit; wide ones only if the unset bytes happen to be right. */
  predicate PersonalityKept(f: Frame, c: Cie)
  {
    if c.personality < HALF_WORD
    then Application(c.personalityEncoding) == ABSOLUTE && PointerFits(c.personality, c.personalityEncoding, 0, f.ptrSize)
    else f.ptrSize == 4 || Unsigned(f.spare) == c.personality / HALF_WORD
  }

  /** A distance taken from the wrong place, by at most a few bytes, is never right. */
  lemma MisplacedNever(v: word, enc: byte, location: word, k: nat, ptrSize: nat, rest: seq<byte>)
    requires ptrSize in {4, 8} && EntrySize(enc, ptrSize).Some? && Application(enc) == PC_RELATIVE && 0 < k < 0x1_0000
    ensures EncodePointer(v, enc, location).Some?
    ensures var field := ToBytes(EncodePointer(v, enc, location).value, EntrySize(enc, ptrSize).value);
      var r := TakePointer(field + rest, enc, (location + k) % WORD, ptrSize);
      r.Some? && r.value.rest == rest && r.value.value != v % AddressSpace(ptrSize)
  {
    var size, space, signed := EntrySize(enc, ptrSize).value, AddressSpace(ptrSize), SignedFormat(enc);
    var x := v - location;
    var near := (location + k) % WORD;
    assert EncodePointer(v, enc, location).value == x % WORD && enc != DW_EH_PE_OMIT;
    FieldWidth(enc, ptrSize);
    var bs := ToBytes(x % WORD, size);
    var raw := Recut(x, signed, Base256(size));
    FieldNumber(x, signed, size);
    PointerTaken(x % WORD, enc, near, ptrSize, rest);
    Low16(x, signed, Base256(size));
    hide ToBytes, EntrySize, Signed, Unsigned, TakeBytes, Recut, TakePointer, EncodePointer, Base256;
    Misplaced(v, location, k, raw, ptrSize);
  }

  lemma Low16(x: int, signed: bool, m: nat)
    requires Width(m)
    ensures m > 0 && Recut(x, signed, m) % 0x1_0000 == x % 0x1_0000
  {
    RecutWide(x, signed, m, if m == WORD then 0x1_0000_0000_0000 else if m == HALF_WORD then 0x1_0000 else 1, 0x1_0000);
  }

  lemma Misplaced(v: word, location: word, k: nat, raw: int, ptrSize: nat)
    requires ptrSize in {4, 8} && 0 < k < 0x1_0000 && raw % 0x1_0000 == (v - location) % 0x1_0000
    ensures (raw + (location + k) % WORD) % AddressSpace(ptrSize) != v % AddressSpace(ptrSize)
  {
    var near := (location + k) % WORD;
    NearLow(v, location, k, raw);
    NotSame(v, k);
    if ptrSize == 4 {
      OtherLow(raw + near, v, 0x1_0000);
    } else {
      OtherLow(raw + near, v, 0x1_0000_0000_0000);
    }
  }

  lemma OtherLow(a: int, b: int, k: nat)
    requires k > 0 && 0x1_0000 * k > 0 && a % 0x1_0000 != b % 0x1_0000
    ensures a % (0x1_0000 * k) != b % (0x1_0000 * k)
  {
    if a % (0x1_0000 * k) == b % (0x1_0000 * k) { ModOfProduct(a, b, 0x1_0000, k); }
  }

  lemma NotSame(v: int, k: nat)
    requires 0 < k < 0x1_0000
    ensures (v + k) % 0x1_0000 != v % 0x1_0000
  {
  }

  lemma NearLow(v: word, location: word, k: nat, raw: int)
    requires raw % 0x1_0000 == (v - location) % 0x1_0000
    ensures (raw + (location + k) % WORD) % 0x1_0000 == (v + k) % 0x1_0000
  {
    var near := (location + k) % WORD;
    var q, t := (location + k) / WORD, raw / 0x1_0000 - (v - location) / 0x1_0000;
    assert raw == (v - location) + 0x1_0000 * t;
    assert raw + near == (v + k) + 0x1_0000 * (t - 0x1_0000_0000_0000 * q);
    AddMultiple(v + k, 0x1_0000, t - 0x1_0000_0000_0000 * q);
  }

  /** The personality is read back exactly when it is kept.  A pc-relative one never is: its
      distance is taken from a place in front of its own. */
  lemma PersonalityIff(f: Frame, c: Cie, at: nat)
    requires |f.spare| == 4 && f.ptrSize in {4, 8} && c.augmented && c.hasPersonality && CieData(f, c, at).Some?
    ensures var data := CieData(f, c, at).value;
      && |data| > 0
      && var r := TakePointer(data[1..], data[0], Address(f.ehAddress, at + DataOffset(c, data) + 1), f.ptrSize);
         r.Some? && (r.value.value == c.personality % AddressSpace(f.ptrSize) <==> PersonalityKept(f, c))
  {
    hide *;
    var data := CieData(f, c, at).value;
    var near := Address(f.ehAddress, at + AssumedDataOffset(c) + 1);
    var there := Address(f.ehAddress, at + DataOffset(c, data) + 1);
    var p := PersonalityFirst(f, c, at);
    DataShift(f, c, at, data);
    if c.personality < HALF_WORD {
      NarrowPersonality(f, c, near, there, DataOffset(c, data) - AssumedDataOffset(c), p, LsdaLetter(c) + FdeLetter(c));
    } else {
      WidePersonality(f, c, there, p, LsdaLetter(c) + FdeLetter(c));
    }
  }

  lemma PersonalityFirst(f: Frame, c: Cie, at: nat) returns (p: seq<byte>)
    requires |f.spare| == 4 && f.ptrSize in {4, 8} && c.augmented && c.hasPersonality && CieData(f, c, at).Some?
    ensures PersonalityData(c, Address(f.ehAddress, at + AssumedDataOffset(c) + 1), f.ptrSize, f.spare) == Some(p)
    ensures c.personality >= HALF_WORD ==> p == [0x04] + (ToBytes(c.personality, 4) + f.spare)
    ensures var data := CieData(f, c, at).value;
      |p| > 0 && |data| > 0 && data[0] == p[0] && data[1..] == p[1..] + (LsdaLetter(c) + FdeLetter(c))
  {
    CieDataParts(f, c, at);
    hide *;
    var enc, field := PersonalityForm(c, Address(f.ehAddress, at + AssumedDataOffset(c) + 1), f.ptrSize, f.spare);
    p := [enc] + field;
    assert (p + (LsdaLetter(c) + FdeLetter(c)))[1..] == p[1..] + (LsdaLetter(c) + FdeLetter(c));
  }

  lemma CieDataParts(f: Frame, c: Cie, at: nat)
    requires c.augmented && c.hasPersonality && CieData(f, c, at).Some?
    ensures var p := PersonalityData(c, Address(f.ehAddress, at + AssumedDataOffset(c) + 1), f.ptrSize, f.spare);
      p.Some? && CieData(f, c, at).value == p.value + (LsdaLetter(c) + FdeLetter(c))
  {
    hide PersonalityData, Address, AssumedDataOffset;
  }

  lemma NarrowPersonality(f: Frame, c: Cie, near: word, there: word, k: nat, p: seq<byte>, rest: seq<byte>)
    requires f.ptrSize in {4, 8} && c.personality < HALF_WORD && 0 < k < 0x1_0000 && there == (near + k) % WORD
    requires PersonalityData(c, near, f.ptrSize, f.spare) == Some(p)
    ensures |p| > 0 && p[0] == c.personalityEncoding
    ensures var r := TakePointer(p[1..] + rest, c.personalityEncoding, there, f.ptrSize);
         r.Some? && (r.value.value == c.personality % AddressSpace(f.ptrSize) <==> PersonalityKept(f, c))
  {
    var enc := c.personalityEncoding;
    var field := ToBytes(EncodePointer(c.personality, enc, near).value, EntrySize(enc, f.ptrSize).value);
    assert p[1..] == field by { assert p == [enc] + field; }
    hide TakePointer, AddressSpace, EntrySize, ToBytes, Base256;
    if Application(enc) == ABSOLUTE {
      PointerIff(c.personality, enc, there, f.ptrSize, rest);
    } else {
      MisplacedNever(c.personality, enc, near, k, f.ptrSize, rest);
    }
  }

  lemma WidePersonality(f: Frame, c: Cie, there: word, p: seq<byte>, rest: seq<byte>)
    requires |f.spare| == 4 && f.ptrSize in {4, 8} && c.personality >= HALF_WORD
    requires p == [0x04] + (ToBytes(c.personality, 4) + f.spare)
    ensures var r := TakePointer(p[1..] + rest, 0x04, there, f.ptrSize);
         r.Some? && (r.value.value == c.personality % AddressSpace(f.ptrSize) <==> PersonalityKept(f, c))
  {
    var field := ToBytes(c.personality, 4) + f.spare;
    assert p[1..] == field;
    WideNumber(c.personality, f.spare);
    UnsignedNonNegative(f.spare);
    UnsignedBelow(f.spare);
    assert Base256(4) == HALF_WORD;
    WideRead(field, there, f.ptrSize, rest);
    hide TakePointer, Unsigned, ToBytes, AddressSpace;
    WideKept(Unsigned(field), c.personality, Unsigned(f.spare), f.ptrSize);
  }

  lemma WideRead(field: seq<byte>, there: word, ptrSize: nat, rest: seq<byte>)
    requires |field| == 8 && ptrSize in {4, 8}
    ensures Unsigned(field) >= 0
    ensures TakePointer(field + rest, 0x04, there, ptrSize) == Some(Read(Unsigned(field) % AddressSpace(ptrSize), rest))
  {
    UnsignedNonNegative(field);
    assert EntrySize(0x04, ptrSize) == Some(8) && Application(0x04) == ABSOLUTE && !SignedFormat(0x04);
    hide TakeBytes, Unsigned, AddressSpace, ToBytes;
    TakeBytesAt(field, rest);
  }

  /** Four bytes are enough for the low half; the high half is the other four. */
  lemma WideKept(u: nat, v: word, h: nat, ptrSize: nat)
    requires u == v % HALF_WORD + HALF_WORD * h && h < HALF_WORD && ptrSize in {4, 8}
    ensures u % AddressSpace(ptrSize) == v % AddressSpace(ptrSize) <==> ptrSize == 4 || h == v / HALF_WORD
  {
    assert v == v % HALF_WORD + HALF_WORD * (v / HALF_WORD);
    if ptrSize == 4 {
      AddMultiple(v % HALF_WORD, HALF_WORD, h);
      SmallMod(v % HALF_WORD, HALF_WORD);
    } else {
      SmallMod(u, WORD);
      SmallMod(v, WORD);
    }
  }

  lemma WideNumber(v: word, spare: seq<byte>)
    ensures Unsigned(ToBytes(v, 4) + spare) == v % HALF_WORD + HALF_WORD * Unsigned(spare)
  {
    FoldBytesAppend(ToBytes(v, 4), spare, 0);
    FoldBytesTop(ToBytes(v, 4), Unsigned(spare));
    ToBytesValue(v, 4);
    assert Base256(4) == HALF_WORD;
  }

  lemma {:induction false} FoldBytesTop(bs: seq<byte>, top: int)
    ensures FoldBytes(bs, top) == Unsigned(bs) + Base256(|bs|) * top
  {
    if bs != [] {
      FoldBytesTop(bs[1..], top);
      MulAssoc(256, Base256(|bs| - 1), top);
    }
  }

  lemma DataShift(f: Frame, c: Cie, at: nat, data: seq<byte>)
    requires |f.spare| == 4 && f.ptrSize in {4, 8} && CieData(f, c, at) == Some(data)
    ensures var k := DataOffset(c, data) - AssumedDataOffset(c);
      0 < k < 0x1_0000
      && Address(f.ehAddress, at + DataOffset(c, data) + 1) == (Address(f.ehAddress, at + AssumedDataOffset(c) + 1) + k) % WORD
  {
    var k := DataOffset(c, data) - AssumedDataOffset(c);
    ShortData(f, c, at);
    hide AssumedDataOffset, CieData;
    assert 0 < k < 0x1_0000;
    var x := f.ehAddress + at + AssumedDataOffset(c) + 1;
    assert x == WORD * (x / WORD) + x % WORD;
    AddMultiple(x % WORD + k, WORD, x / WORD);
  }

  lemma ShortData(f: Frame, c: Cie, at: nat)
    requires |f.spare| == 4 && f.ptrSize in {4, 8} && CieData(f, c, at).Some?
    ensures |CieData(f, c, at).value| < 128
  {
    hide EncodePointer, AssumedDataOffset, ToBytes;
  }
}
