/** The layout of .eh_frame (callFrameInfo.c), against a reader that follows the LSB Core
    specification of the section. */
module EhFrame {
  import opened Bytes
  import opened Leb
  import opened LebWords
  import opened Cfa
  import opened EhPointers

  /** The personality is only written when the data are present and hasPersonality is set,
      and likewise the two encodings; fdeEncoding is used for the FDEs all the same. */
  datatype Cie = Cie(version: byte, addressSize: nat, segmentSize: nat,
                     codeAlign: word, dataAlign: int, returnReg: nat,
                     augmented: bool, hasPersonality: bool, hasLsda: bool, hasFdeEncoding: bool,
                     personality: word, personalityEncoding: byte, lsdaEncoding: byte, fdeEncoding: byte,
                     program: seq<Instr>)

  type int32 = x: int | -0x8000_0000 <= x < 0x8000_0000

  datatype Fde = Fde(cie: nat, lowpc: int32, highpc: int32, lsda: Option<nat>, program: seq<Instr>)

  /** cfi: the section's address, the pointer size of the ELF file, the two lists and where
      the LSDAs are.  spare is what the stack holds behind a wide personality pointer. */
  datatype Frame = Frame(ehAddress: word, ptrSize: nat, cies: seq<Cie>, fdes: seq<Fde>,
                         lsdaPointers: seq<word>, spare: seq<byte>)

  predicate ValidFrame(f: Frame)
  {
    && f.ptrSize in {4, 8} && |f.spare| == 4
    && forall j :: 0 <= j < |f.fdes| ==> ValidFde(f, f.fdes[j])
  }

  predicate ValidFde(f: Frame, d: Fde)
  {
    d.cie < |f.cies| && (d.lsda.Some? ==> d.lsda.value < |f.lsdaPointers|)
  }

  function Address(base: word, offset: nat): word { (base + offset) % WORD }

  // ----- records -----

  /** How many nops align the contents of a record. */
  function Padding(n: nat, size: nat): nat
    requires size > 0
  {
    if n % size == 0 then 0 else size - n % size
  }

  function Record(body: seq<byte>, size: nat): seq<byte>
    requires size > 0
  {
    var pad := Padding(|body|, size);
    ToBytes(|body| + pad, 4) + (body + Nops(pad))
  }

  // ----- CIEs -----

  function Augmentation(c: Cie): seq<byte>
  {
    if !c.augmented then []
    else [0x7a] + (if c.hasPersonality then [0x50] else []) + (if c.hasLsda then [0x4c] else [])
         + (if c.hasFdeEncoding then [0x52] else [])
  }

  function Sizes(c: Cie): seq<byte>
    requires c.addressSize < 256 && c.segmentSize < 256
  {
    if c.version >= 4 then [c.addressSize, c.segmentSize] else []
  }

  /** The alignment factors are cut to 32 bits before they are written. */
  function CodeAlign(c: Cie): seq<byte> { Uleb(c.codeAlign % HALF_WORD) }

  function DataAlign(c: Cie): seq<byte> { IntLeb(c.dataAlign % WORD) }

  /** Where the writer takes the augmentation data to begin: it leaves out both the length
      in front of them and the two size bytes of version 4. */
  function AssumedDataOffset(c: Cie): nat
  {
    9 + |Augmentation(c)| + 1 + |CodeAlign(c)| + |DataAlign(c)| + |Uleb(c.returnReg)|
  }

  /** A personality above 32 bits gets eight bytes, of which four are set. */
  function PersonalityData(c: Cie, location: word, ptrSize: nat, spare: seq<byte>): Option<seq<byte>>
  {
    if c.personality < HALF_WORD then
      var size :- EntrySize(c.personalityEncoding, ptrSize);
      var stored :- EncodePointer(c.personality, c.personalityEncoding, location);
      Some([c.personalityEncoding] + ToBytes(stored, size))
    else Some([0x04] + (ToBytes(c.personality, 4) + spare))
  }

  function CieData(f: Frame, c: Cie, at: nat): Option<seq<byte>>
  {
    if !c.augmented then Some([])
    else
      var p :- if c.hasPersonality
               then PersonalityData(c, Address(f.ehAddress, at + AssumedDataOffset(c) + 1), f.ptrSize, f.spare)
               else Some([]);
      Some(p + (if c.hasLsda then [c.lsdaEncoding] else []) + (if c.hasFdeEncoding then [c.fdeEncoding] else []))
  }

  function Block(augmented: bool, data: seq<byte>): seq<byte>
  {
    if augmented then Uleb(|data|) + data else []
  }

  /** All of a CIE behind its length, up to a tail. */
  function CieFields(c: Cie, data: seq<byte>, tail: seq<byte>): seq<byte>
    requires c.addressSize < 256 && c.segmentSize < 256
  {
    ToBytes(0, 4) + ([c.version] + (Augmentation(c) + ([0] + (Sizes(c) + (CodeAlign(c) + (DataAlign(c)
    + (Uleb(c.returnReg) + (Block(c.augmented, data) + tail))))))))
  }

  /** buildCIERawData: None where the program aborts. */
  function CieRecord(f: Frame, c: Cie, at: nat): Option<seq<byte>>
  {
    if !(0 < c.addressSize < 256 && c.segmentSize < 256) then None
    else
      var data :- CieData(f, c, at);
      var program :- PrintProgram(c.program);
      Some(Record(CieFields(c, data, program), c.addressSize))
  }

  // ----- FDEs -----

  /** buildFDERawData's pointer to the LSDA. */
  function LsdaData(f: Frame, c: Cie, d: Fde, at: nat): Option<seq<byte>>
    requires ValidFde(f, d)
  {
    if !c.augmented || !c.hasLsda || d.lsda.None? then Some([])
    else
      var first :- EntrySize(c.fdeEncoding, f.ptrSize);
      var size :- EntrySize(c.lsdaEncoding, f.ptrSize);
      var stored :- EncodePointer(f.lsdaPointers[d.lsda.value], c.lsdaEncoding, Address(f.ehAddress, at + 8 + first + 4 + 1));
      Some(ToBytes(stored, size))
  }

  function FdeFields(pointer: int, location: seq<byte>, range: int, augmented: bool, data: seq<byte>, tail: seq<byte>): seq<byte>
  {
    ToBytes(pointer, 4) + (location + (ToBytes(range, 4) + (Block(augmented, data) + tail)))
  }

  function Location(f: Frame, c: Cie, d: Fde, at: nat): Option<seq<byte>>
  {
    var size :- EntrySize(c.fdeEncoding, f.ptrSize);
    var stored :- EncodePointer(d.lowpc % WORD, c.fdeEncoding, Address(f.ehAddress, at + 8));
    Some(ToBytes(stored, size))
  }

  /** buildFDERawData: the CIE is named by its distance from the field that names it. */
  function FdeRecord(f: Frame, d: Fde, at: nat, cieAt: nat): Option<seq<byte>>
    requires ValidFde(f, d)
  {
    var c := f.cies[d.cie];
    if c.addressSize == 0 then None
    else
      var location :- Location(f, c, d, at);
      var data :- LsdaData(f, c, d, at);
      var program :- PrintProgram(d.program);
      Some(Record(FdeFields(at - cieAt + 4, location, d.highpc - d.lowpc, c.augmented, data, program), c.addressSize))
  }

  // ----- the section -----

  function Flat(rs: seq<seq<byte>>): seq<byte>
  {
    if rs == [] then [] else Flat(rs[..|rs| - 1]) + rs[|rs| - 1]
  }

  function StartOf(rs: seq<seq<byte>>, i: nat): nat
    requires i <= |rs|
  {
    |Flat(rs[..i])|
  }

  function Count(f: Frame): nat { |f.cies| + |f.fdes| }

  /** Record number i, given those before it. */
  function RecordOf(f: Frame, i: nat, rs: seq<seq<byte>>): Option<seq<byte>>
    requires ValidFrame(f) && i < Count(f) && |rs| == i
  {
    if i < |f.cies| then CieRecord(f, f.cies[i], |Flat(rs)|)
    else
      var d := f.fdes[i - |f.cies|];
      FdeRecord(f, d, |Flat(rs)|, StartOf(rs, d.cie))
  }

  function Records(f: Frame, n: nat): (r: Option<seq<seq<byte>>>)
    requires ValidFrame(f) && n <= Count(f)
    ensures r.Some? ==> |r.value| == n
  {
    if n == 0 then Some([])
    else
      var rs :- Records(f, n - 1);
      var r :- RecordOf(f, n - 1, rs);
      Some(rs + [r])
  }

  function Starts(rs: seq<seq<byte>>, n: nat): seq<nat>
    requires n <= |rs|
  {
    if n == 0 then [] else Starts(rs, n - 1) + [StartOf(rs, n - 1)]
  }

  // ----- reading -----

  function TakeBytes(bs: seq<byte>, n: nat): (r: Option<Read<seq<byte>>>)
    ensures r.Some? ==> |r.value.value| == n
  {
    if |bs| < n then None else Some(Read(bs[..n], bs[n..]))
  }

  function TakeLeb(bs: seq<byte>, signed: bool): Option<Read<int>>
  {
    if !Terminated(bs) then None
    else
      var n := Length(bs);
      Some(Read(Value(bs[..n], signed), bs[n..]))
  }

  /** A string that ends with a zero byte. */
  function TakeString(bs: seq<byte>): Option<Read<seq<byte>>>
  {
    if bs == [] then None
    else if bs[0] == 0 then Some(Read([], bs[1..]))
    else
      var r :- TakeString(bs[1..]);
      Some(Read([bs[0]] + r.value, r.rest))
  }

  function TakeData(bs: seq<byte>, augmented: bool): Option<Read<seq<byte>>>
  {
    if !augmented then Some(Read([], bs))
    else
      var n :- TakeLeb(bs, false);
      if n.value < 0 then None else TakeBytes(n.rest, n.value)
  }

  lemma TakeBytesAt(a: seq<byte>, rest: seq<byte>)
    ensures TakeBytes(a + rest, |a|) == Some(Read(a, rest))
  {
    assert (a + rest)[..|a|] == a && (a + rest)[|a|..] == rest;
  }

  lemma TakeLebAt(leb: seq<byte>, signed: bool, rest: seq<byte>)
    requires WellFormed(leb)
    ensures TakeLeb(leb + rest, signed) == Some(Read(Value(leb, signed), rest))
  {
    LengthOfEncoding(leb, rest);
    assert (leb + rest)[..|leb|] == leb && (leb + rest)[|leb|..] == rest;
  }

  lemma {:induction false} TakeStringAt(s: seq<byte>, rest: seq<byte>)
    requires 0 !in s
    ensures TakeString(s + ([0] + rest)) == Some(Read(s, rest))
  {
    if s == [] {
      assert s + ([0] + rest) == [0] + rest && ([0] + rest)[1..] == rest;
    } else {
      TakeStringAt(s[1..], rest);
      var all := s + ([0] + rest);
      assert all[1..] == s[1..] + ([0] + rest) && all[0] == s[0];
      assert [s[0]] + s[1..] == s;
    }
  }

  lemma TakeDataAt(augmented: bool, data: seq<byte>, rest: seq<byte>)
    ensures TakeData(Block(augmented, data) + rest, augmented) == Some(Read(if augmented then data else [], rest))
  {
    if augmented {
      UlebValue(|data|);
      TakeLebAt(Uleb(|data|), false, data + rest);
      TakeBytesAt(data, rest);
      assert Block(augmented, data) + rest == Uleb(|data|) + (data + rest);
    } else {
      assert [] + rest == rest;
    }
  }

  /** The length of the record at a place and what comes behind it; None at a terminator or
      where the section is cut off. */
  function TakeRecord(image: seq<byte>, at: nat): (r: Option<seq<byte>>)
    ensures r.Some? ==> |r.value| > 0 && at + 4 + |r.value| <= |image|
  {
    if at + 4 > |image| then None
    else
      var n := Unsigned(image[at..at + 4]);
      if n <= 0 || at + 4 + n > |image| then None else Some(image[at + 4..at + 4 + n])
  }

  /** Stepping from record to record, up to the end of the section. */
  function Walk(image: seq<byte>, at: nat): Option<seq<nat>>
    decreases |image| - at
  {
    if at == |image| then Some([])
    else
      var body :- TakeRecord(image, at);
      Prefixed([at], Walk(image, at + 4 + |body|))
  }

  // ----- walking -----

  predicate Framed(r: seq<byte>) { |r| > 4 && Unsigned(r[..4]) == |r| - 4 }

  lemma RecordFramed(body: seq<byte>, size: nat)
    requires size > 0 && body != [] && |Record(body, size)| < HALF_WORD
    ensures Framed(Record(body, size)) && Record(body, size)[4..] == body + Nops(Padding(|body|, size))
  {
    var pad := Padding(|body|, size);
    var (len, rest) := (ToBytes(|body| + pad, 4), body + Nops(pad));
    assert (len + rest)[..4] == len && (len + rest)[4..] == rest;
    LengthBytes(|rest|);
  }

  lemma LengthBytes(n: nat)
    requires n < HALF_WORD
    ensures Unsigned(ToBytes(n, 4)) == n
  {
    ToBytesValue(n, 4);
    assert Base256(4) == HALF_WORD;
    SmallMod(n, HALF_WORD);
  }

  lemma TakeRecordAt(pre: seq<byte>, r: seq<byte>, rest: seq<byte>)
    requires Framed(r)
    ensures TakeRecord(pre + r + rest, |pre|) == Some(r[4..])
  {
    var image := pre + r + rest;
    assert image[|pre|..|pre| + 4] == r[..4];
    assert image[|pre| + 4..|pre| + |r|] == r[4..];
  }

  lemma {:induction false} FlatParts(rs: seq<seq<byte>>, i: nat)
    requires i < |rs|
    ensures exists rest :: Flat(rs) == Flat(rs[..i]) + rs[i] + rest
    ensures StartOf(rs, i + 1) == StartOf(rs, i) + |rs[i]|
    decreases |rs|
  {
    var front := rs[..|rs| - 1];
    assert rs[..i + 1][..i] == rs[..i];
    if i == |rs| - 1 {
      assert Flat(rs) == Flat(rs[..i]) + rs[i] + [];
      assert rs[..i + 1] == rs;
    } else {
      FlatParts(front, i);
      assert front[..i] == rs[..i] && front[..i + 1] == rs[..i + 1];
      var rest :| Flat(front) == Flat(rs[..i]) + rs[i] + rest;
      assert Flat(rs) == Flat(rs[..i]) + rs[i] + (rest + rs[|rs| - 1]);
    }
  }

  /** What a reader finds at the start of a record. */
  lemma RecordAt(rs: seq<seq<byte>>, i: nat)
    requires i < |rs| && Framed(rs[i])
    ensures TakeRecord(Flat(rs), StartOf(rs, i)) == Some(rs[i][4..])
  {
    hide TakeRecord, Framed;
    FlatParts(rs, i);
    var rest :| Flat(rs) == Flat(rs[..i]) + rs[i] + rest;
    TakeRecordAt(Flat(rs[..i]), rs[i], rest);
  }

  function StartsFrom(rs: seq<seq<byte>>, i: nat): seq<nat>
    requires i <= |rs|
    decreases |rs| - i
  {
    if i == |rs| then [] else [StartOf(rs, i)] + StartsFrom(rs, i + 1)
  }

  lemma {:induction false} StartsSplit(rs: seq<seq<byte>>, n: nat)
    requires n <= |rs|
    ensures Starts(rs, |rs|) == Starts(rs, n) + StartsFrom(rs, n)
    decreases |rs| - n
  {
    if n < |rs| {
      StartsSplit(rs, n + 1);
      assert Starts(rs, n) + ([StartOf(rs, n)] + StartsFrom(rs, n + 1)) == (Starts(rs, n) + [StartOf(rs, n)]) + StartsFrom(rs, n + 1);
    }
  }

  lemma {:induction false} WalkFrom(rs: seq<seq<byte>>, i: nat)
    requires i <= |rs| && forall k :: 0 <= k < |rs| ==> Framed(rs[k])
    ensures Walk(Flat(rs), StartOf(rs, i)) == Some(StartsFrom(rs, i))
    decreases |rs| - i
  {
    hide TakeRecord, Flat;
    if i == |rs| {
      assert rs[..i] == rs;
    } else {
      RecordAt(rs, i);
      FlatParts(rs, i);
      WalkFrom(rs, i + 1);
    }
  }

  lemma {:induction false} FlatLength(rs: seq<seq<byte>>, i: nat)
    requires i < |rs|
    ensures StartOf(rs, i) + |rs[i]| <= |Flat(rs)|
  {
    FlatParts(rs, i);
  }

  lemma RecordsLast(f: Frame, n: nat)
    requires ValidFrame(f) && 0 < n <= Count(f) && Records(f, n).Some?
    ensures var rs := Records(f, n).value;
            |rs| == n && Records(f, n - 1) == Some(rs[..n - 1]) && RecordOf(f, n - 1, rs[..n - 1]) == Some(rs[n - 1])
  {
    hide RecordOf;
    assert Records(f, n).value[..n - 1] == Records(f, n - 1).value;
  }

  lemma FrontOfFront<T>(s: seq<T>, n: nat, i: nat)
    requires i < n <= |s|
    ensures s[..n][..i] == s[..i] && s[..n][i] == s[i]
  {
  }

  lemma {:induction false} RecordsAt(f: Frame, n: nat, i: nat)
    requires ValidFrame(f) && i < n <= Count(f) && Records(f, n).Some?
    ensures var rs := Records(f, n).value;
            Records(f, i) == Some(rs[..i]) && RecordOf(f, i, rs[..i]) == Some(rs[i])
    decreases n
  {
    hide *;
    RecordsLast(f, n);
    var rs := Records(f, n).value;
    if i < n - 1 {
      RecordsAt(f, n - 1, i);
      FrontOfFront(rs, n - 1, i);
    }
  }

  lemma CieTail(c: Cie, data: seq<byte>, program: seq<byte>, nops: seq<byte>)
    requires c.addressSize < 256 && c.segmentSize < 256
    ensures CieFields(c, data, program) + nops == CieFields(c, data, program + nops)
    ensures CieFields(c, data, program) != []
  {
    var f0 := Block(c.augmented, data);
    var f1 := Uleb(c.returnReg);
    var f2 := DataAlign(c);
    var f3 := CodeAlign(c);
    var f4 := Sizes(c);
    var f5 := Augmentation(c);
    hide *;
    Assoc(f0, program, nops);
    Assoc(f1, f0 + program, nops);
    Assoc(f2, f1 + (f0 + program), nops);
    Assoc(f3, f2 + (f1 + (f0 + program)), nops);
    Assoc(f4, f3 + (f2 + (f1 + (f0 + program))), nops);
    Assoc([0], f4 + (f3 + (f2 + (f1 + (f0 + program)))), nops);
    Assoc(f5, [0] + (f4 + (f3 + (f2 + (f1 + (f0 + program))))), nops);
    Assoc([c.version], f5 + ([0] + (f4 + (f3 + (f2 + (f1 + (f0 + program)))))), nops);
    Assoc(ToBytes(0, 4), [c.version] + (f5 + ([0] + (f4 + (f3 + (f2 + (f1 + (f0 + program))))))), nops);
    CieSplit(c, data, program);
    CieSplit(c, data, program + nops);
  }

  lemma CieSplit(c: Cie, data: seq<byte>, tail: seq<byte>)
    requires c.addressSize < 256 && c.segmentSize < 256
    ensures CieFields(c, data, tail) == ToBytes(0, 4) + ([c.version] + (Augmentation(c) + ([0] + (Sizes(c)
            + (CodeAlign(c) + (DataAlign(c) + (Uleb(c.returnReg) + (Block(c.augmented, data) + tail))))))))
  {
  }

  lemma Assoc<T>(a: seq<T>, b: seq<T>, c: seq<T>)
    ensures (a + b) + c == a + (b + c)
  {
  }

  /** A record from its contents. */
  lemma CieRecordIs(f: Frame, c: Cie, at: nat)
    requires CieRecord(f, c, at).Some? && |CieRecord(f, c, at).value| < HALF_WORD
    ensures Framed(CieRecord(f, c, at).value)
    ensures exists pad: nat :: CieRecord(f, c, at).value[4..]
                               == CieFields(c, CieData(f, c, at).value, PrintProgram(c.program).value + Nops(pad))
  {
    var data, program := CieData(f, c, at).value, PrintProgram(c.program).value;
    var body := CieFields(c, data, program);
    assert CieRecord(f, c, at).value == Record(body, c.addressSize);
    hide *;
    var pad := Padding(|body|, c.addressSize);
    CieTail(c, data, program, Nops(pad));
    RecordFramed(body, c.addressSize);
  }

  lemma FdeTail(pointer: int, location: seq<byte>, range: int, augmented: bool, data: seq<byte>, program: seq<byte>, nops: seq<byte>)
    ensures var fields := FdeFields(pointer, location, range, augmented, data, program);
      fields + nops == FdeFields(pointer, location, range, augmented, data, program + nops) && fields != []
  {
    var block := Block(augmented, data);
    hide Block;
    Assoc(block, program, nops);
    Assoc(ToBytes(range, 4), block + program, nops);
    Assoc(location, ToBytes(range, 4) + (block + program), nops);
    Assoc(ToBytes(pointer, 4), location + (ToBytes(range, 4) + (block + program)), nops);
  }

  lemma FdeRecordBody(f: Frame, d: Fde, at: nat, cieAt: nat)
    requires ValidFde(f, d) && d.cie < |f.cies| && FdeRecord(f, d, at, cieAt).Some?
    ensures var c := f.cies[d.cie];
      && c.addressSize > 0 && Location(f, c, d, at).Some? && LsdaData(f, c, d, at).Some? && PrintProgram(d.program).Some?
      && FdeRecord(f, d, at, cieAt).value
         == Record(FdeFields(at - cieAt + 4, Location(f, c, d, at).value, d.highpc - d.lowpc, c.augmented,
                             LsdaData(f, c, d, at).value, PrintProgram(d.program).value), c.addressSize)
  {
    hide Record, FdeFields, PrintProgram, Location, LsdaData;
  }

  lemma FdeRecordIs(f: Frame, d: Fde, at: nat, cieAt: nat)
    requires ValidFde(f, d) && d.cie < |f.cies| && FdeRecord(f, d, at, cieAt).Some? && |FdeRecord(f, d, at, cieAt).value| < HALF_WORD
    ensures Framed(FdeRecord(f, d, at, cieAt).value)
    ensures var c := f.cies[d.cie];
      && Location(f, c, d, at).Some? && LsdaData(f, c, d, at).Some? && PrintProgram(d.program).Some?
      && exists pad: nat :: FdeRecord(f, d, at, cieAt).value[4..]
                         == FdeFields(at - cieAt + 4, Location(f, c, d, at).value, d.highpc - d.lowpc, c.augmented,
                                      LsdaData(f, c, d, at).value, PrintProgram(d.program).value + Nops(pad))
  {
    hide *;
    FdeRecordBody(f, d, at, cieAt);
    FdePadded(at - cieAt + 4, Location(f, f.cies[d.cie], d, at).value, d.highpc - d.lowpc, f.cies[d.cie].augmented,
              LsdaData(f, f.cies[d.cie], d, at).value, PrintProgram(d.program).value, f.cies[d.cie].addressSize);
  }

  lemma FdePadded(pointer: int, location: seq<byte>, range: int, augmented: bool, data: seq<byte>, program: seq<byte>, size: nat)
    requires size > 0 && |Record(FdeFields(pointer, location, range, augmented, data, program), size)| < HALF_WORD
    ensures var r := Record(FdeFields(pointer, location, range, augmented, data, program), size);
      Framed(r) && exists pad: nat :: r[4..] == FdeFields(pointer, location, range, augmented, data, program + Nops(pad))
  {
    hide *;
    var body := FdeFields(pointer, location, range, augmented, data, program);
    var pad := Padding(|body|, size);
    FdeTail(pointer, location, range, augmented, data, program, Nops(pad));
    RecordFramed(body, size);
  }

  lemma BuiltFramed(f: Frame, i: nat, rs: seq<seq<byte>>)
    requires ValidFrame(f) && i < Count(f) && |rs| == i && RecordOf(f, i, rs).Some? && |RecordOf(f, i, rs).value| < HALF_WORD
    ensures Framed(RecordOf(f, i, rs).value)
  {
    hide CieRecord, FdeRecord, Flat, StartOf, Framed;
    if i < |f.cies| {
      CieRecordIs(f, f.cies[i], |Flat(rs)|);
    } else {
      var d := f.fdes[i - |f.cies|];
      FdeRecordIs(f, d, |Flat(rs)|, StartOf(rs, d.cie));
    }
  }

  lemma WalkAll(rs: seq<seq<byte>>)
    requires forall k :: 0 <= k < |rs| ==> Framed(rs[k])
    ensures Walk(Flat(rs), 0) == Some(Starts(rs, |rs|))
  {
    hide Walk, Framed, StartsFrom;
    WalkFrom(rs, 0);
    StartsSplit(rs, 0);
    assert Starts(rs, 0) + StartsFrom(rs, 0) == StartsFrom(rs, 0);
  }

  /** Main result on the layout: from the start of the section a reader steps exactly through
      the recorded starts, the CIEs' and then the FDEs', and gets to its end. */
  lemma Walkable(f: Frame)
    requires ValidFrame(f) && Records(f, Count(f)).Some?
    requires |Flat(Records(f, Count(f)).value)| < HALF_WORD
    ensures var rs := Records(f, Count(f)).value; Walk(Flat(rs), 0) == Some(Starts(rs, Count(f)))
  {
    hide Records, Walk, Flat, Framed, ValidFrame;
    var rs := Records(f, Count(f)).value;
    forall i | 0 <= i < |rs| ensures Framed(rs[i]) { FramedAt(f, i); }
    WalkAll(rs);
  }

  lemma FramedAt(f: Frame, i: nat)
    requires ValidFrame(f) && i < Count(f) && Records(f, Count(f)).Some?
    requires |Flat(Records(f, Count(f)).value)| < HALF_WORD
    ensures Framed(Records(f, Count(f)).value[i])
  {
    hide Records, RecordOf, Flat, Framed;
    var rs := Records(f, Count(f)).value;
    RecordsAt(f, Count(f), i);
    FlatLength(rs, i);
    BuiltFramed(f, i, rs[..i]);
  }

  // ----- alignment -----

  /** The address size that record number i is aligned to. */
  function AddressSizeOf(f: Frame, i: nat): nat
    requires ValidFrame(f) && i < Count(f)
  {
    if i < |f.cies| then f.cies[i].addressSize else f.cies[f.fdes[i - |f.cies|].cie].addressSize
  }

  /** A record behind whose contents just enough nops follow, none if the contents are aligned, to make
      its length a multiple of size. */
  predicate Filled(r: seq<byte>, contents: seq<byte>, size: nat)
  {
    && size > 0 && |r| >= 4 && Unsigned(r[..4]) == |r| - 4 && (|r| - 4) % size == 0
    && var n := |r| - 4 - |contents|;
       0 <= n < size && (|contents| % size == 0 ==> n == 0) && r[4..] == contents + Nops(n)
  }

  lemma RecordFilled(body: seq<byte>, size: nat)
    requires size > 0 && body != [] && |Record(body, size)| < HALF_WORD
    ensures Filled(Record(body, size), body, size)
  {
    PaddingFills(|body|, size);
    RecordFramed(body, size);
    hide ToBytes, Unsigned;
  }

  lemma PaddingFills(n: nat, size: nat)
    requires size > 0
    ensures var pad := Padding(n, size);
      0 <= pad < size && (n + pad) % size == 0 && (n % size == 0 ==> pad == 0)
  {
    if n % size != 0 {
      var q, r := n / size, n % size;
      assert n + Padding(n, size) == size * (q + 1) by { assert n == size * q + r; assert size * (q + 1) == size * q + size; }
      AddMultiple(0, size, q + 1);
    }
  }

  /** What record number i consists of, without its length and its nops. */
  function Contents(f: Frame, i: nat, rs: seq<seq<byte>>): Option<seq<byte>>
    requires ValidFrame(f) && i < Count(f) && |rs| == i
  {
    var at := |Flat(rs)|;
    if i < |f.cies| then
      var c := f.cies[i];
      if c.addressSize >= 256 || c.segmentSize >= 256 then None
      else
        var data :- CieData(f, c, at);
        var program :- PrintProgram(c.program);
        Some(CieFields(c, data, program))
    else
      var d := f.fdes[i - |f.cies|];
      var c := f.cies[d.cie];
      var location :- Location(f, c, d, at);
      var data :- LsdaData(f, c, d, at);
      var program :- PrintProgram(d.program);
      Some(FdeFields(at - StartOf(rs, d.cie) + 4, location, d.highpc - d.lowpc, c.augmented, data, program))
  }

  lemma ContentsOf(f: Frame, i: nat, rs: seq<seq<byte>>)
    requires ValidFrame(f) && i < Count(f) && |rs| == i && RecordOf(f, i, rs).Some?
    ensures AddressSizeOf(f, i) > 0 && Contents(f, i, rs).Some? && Contents(f, i, rs).value != []
    ensures RecordOf(f, i, rs).value == Record(Contents(f, i, rs).value, AddressSizeOf(f, i))
  {
    hide Record, PrintProgram, CieData, Location, LsdaData, Flat, Block;
    assert |ToBytes(0, 4)| == 4;
    if i >= |f.cies| {
      var d := f.fdes[i - |f.cies|];
      assert |ToBytes(|Flat(rs)| - StartOf(rs, d.cie) + 4, 4)| == 4;
    }
  }

  /** Main result on the alignment: the length of every record of a section is a multiple of the address
      size of its CIE, and no more nops are added than that takes. */
  lemma RecordAligned(f: Frame, i: nat)
    requires ValidFrame(f) && i < Count(f) && Records(f, Count(f)).Some?
    requires |Flat(Records(f, Count(f)).value)| < HALF_WORD
    ensures var rs := Records(f, Count(f)).value;
      Contents(f, i, rs[..i]).Some? && Filled(rs[i], Contents(f, i, rs[..i]).value, AddressSizeOf(f, i))
  {
    hide *;
    var rs := Records(f, Count(f)).value;
    RecordsAt(f, Count(f), i);
    FlatLength(rs, i);
    ContentsOf(f, i, rs[..i]);
    RecordFilled(Contents(f, i, rs[..i]).value, AddressSizeOf(f, i));
  }

  // ----- building -----

  datatype Section = Section(data: seq<byte>, cieOffsets: seq<nat>, fdeOffsets: seq<nat>)

  lemma {:induction false} RecordsFail(f: Frame, n: nat, m: nat)
    requires ValidFrame(f) && n <= m <= Count(f) && Records(f, n).None?
    ensures Records(f, m).None?
    decreases m
  {
    hide RecordOf;
    if n < m { RecordsFail(f, n, m - 1); }
  }

  lemma {:induction false} StartsOfMore(rs: seq<seq<byte>>, r: seq<byte>, n: nat)
    requires n <= |rs|
    ensures Starts(rs + [r], n) == Starts(rs, n) && StartOf(rs + [r], n) == StartOf(rs, n)
  {
    hide Flat;
    assert (rs + [r])[..n] == rs[..n];
    if n > 0 { StartsOfMore(rs, r, n - 1); }
  }

  lemma {:induction false} StartsAt(rs: seq<seq<byte>>, n: nat, i: nat)
    requires i < n <= |rs|
    ensures |Starts(rs, n)| == n && Starts(rs, n)[i] == StartOf(rs, i)
    decreases n
  {
    hide StartOf;
    if n > 1 { StartsAt(rs, n - 1, if i < n - 1 then i else 0); }
  }

  /** One more record. */
  lemma Grown(f: Frame, n: nat, rs: seq<seq<byte>>, r: seq<byte>)
    requires ValidFrame(f) && n < Count(f) && Records(f, n) == Some(rs) && RecordOf(f, n, rs) == Some(r)
    ensures Records(f, n + 1) == Some(rs + [r]) && Flat(rs + [r]) == Flat(rs) + r
    ensures Starts(rs + [r], n + 1) == Starts(rs, n) + [|Flat(rs)|]
  {
    hide RecordOf;
    assert (rs + [r])[..n] == rs;
    StartsOfMore(rs, r, n);
  }

  /** buildCallFrameSectionData: the CIEs, then the FDEs. */
  method BuildCallFrameSectionData(f: Frame) returns (result: Option<Section>)
    requires ValidFrame(f)
    ensures result.Some? <==> Records(f, Count(f)).Some?
    ensures result.Some? ==>
      var rs := Records(f, Count(f)).value;
      && result.value.data == Flat(rs)
      && result.value.cieOffsets + result.value.fdeOffsets == Starts(rs, Count(f))
      && |result.value.cieOffsets| == |f.cies|
      && (|result.value.data| < HALF_WORD
          ==> && Walk(result.value.data, 0) == Some(result.value.cieOffsets + result.value.fdeOffsets)
              && forall i :: 0 <= i < Count(f) ==>
                   Contents(f, i, rs[..i]).Some? && Filled(rs[i], Contents(f, i, rs[..i]).value, AddressSizeOf(f, i)))
  {
    hide Records, RecordOf, Flat, Starts, Walk, CieRecord, FdeRecord, Contents, Filled, AddressSizeOf;
    var buf: seq<byte>, cieOffsets: seq<nat>, fdeOffsets: seq<nat> := [], [], [];
    ghost var rs: seq<seq<byte>> := [];
    NoRecords(f);
    for i := 0 to |f.cies|
      invariant Records(f, i) == Some(rs) && |rs| == i && buf == Flat(rs) && cieOffsets == Starts(rs, i)
    {
      RecordOfCie(f, i, rs);
      var record := CieRecord(f, f.cies[i], |buf|);
      if record.None? {
        RecordsStop(f, i);
        return None;
      }
      Grown(f, i, rs, record.value);
      cieOffsets, buf, rs := cieOffsets + [|buf|], buf + record.value, rs + [record.value];
    }
    StartsCount(rs, |f.cies|);
    for j := 0 to |f.fdes|
      invariant Records(f, |f.cies| + j) == Some(rs) && |rs| == |f.cies| + j && buf == Flat(rs)
      invariant |cieOffsets| == |f.cies| && cieOffsets + fdeOffsets == Starts(rs, |f.cies| + j)
    {
      var i := |f.cies| + j;
      var d := f.fdes[j];
      StartsAt(rs, i, d.cie);
      assert cieOffsets[d.cie] == (cieOffsets + fdeOffsets)[d.cie];
      RecordOfFde(f, i, rs);
      var record := FdeRecord(f, d, |buf|, cieOffsets[d.cie]);
      if record.None? {
        RecordsStop(f, i);
        return None;
      }
      Grown(f, i, rs, record.value);
      assert cieOffsets + (fdeOffsets + [|buf|]) == (cieOffsets + fdeOffsets) + [|buf|];
      fdeOffsets, buf, rs := fdeOffsets + [|buf|], buf + record.value, rs + [record.value];
    }
    if |buf| < HALF_WORD {
      Walkable(f);
      forall i | 0 <= i < Count(f)
        ensures Contents(f, i, rs[..i]).Some? && Filled(rs[i], Contents(f, i, rs[..i]).value, AddressSizeOf(f, i))
      {
        RecordAligned(f, i);
      }
    }
    result := Some(Section(buf, cieOffsets, fdeOffsets));
  }

  lemma NoRecords(f: Frame)
    requires ValidFrame(f)
    ensures Records(f, 0) == Some([]) && Flat([]) == [] && Starts([], 0) == []
  {
  }

  lemma StartsCount(rs: seq<seq<byte>>, n: nat)
    requires n <= |rs|
    ensures |Starts(rs, n)| == n
  {
    if n > 0 { StartsAt(rs, n, 0); }
  }

  lemma RecordOfCie(f: Frame, i: nat, rs: seq<seq<byte>>)
    requires ValidFrame(f) && i < |f.cies| && |rs| == i
    ensures RecordOf(f, i, rs) == CieRecord(f, f.cies[i], |Flat(rs)|)
  {
    hide CieRecord, FdeRecord, Flat;
  }

  lemma RecordOfFde(f: Frame, i: nat, rs: seq<seq<byte>>)
    requires ValidFrame(f) && |f.cies| <= i < Count(f) && |rs| == i
    ensures var d := f.fdes[i - |f.cies|];
      ValidFde(f, d) && RecordOf(f, i, rs) == FdeRecord(f, d, |Flat(rs)|, StartOf(rs, d.cie))
  {
    hide CieRecord, FdeRecord, Flat;
    assert ValidFde(f, f.fdes[i - |f.cies|]);
  }

  lemma RecordsStop(f: Frame, i: nat)
    requires ValidFrame(f) && i < Count(f) && Records(f, i).Some? && RecordOf(f, i, Records(f, i).value).None?
    ensures Records(f, Count(f)).None?
  {
    hide RecordOf;
    assert Records(f, i + 1).None?;
    RecordsFail(f, i + 1, Count(f));
  }

  // ----- reading CIEs -----

  datatype CieRead = CieRead(version: seq<byte>, augmentation: seq<byte>, sizes: seq<byte>,
                             codeAlign: int, dataAlign: int, returnReg: int, data: seq<byte>, program: seq<Instr>)

  predicate IsAugmented(augmentation: seq<byte>) { augmentation != [] && augmentation[0] == 0x7a }

  /** A CIE from what is behind its length. */
  function ReadCie(body: seq<byte>): Option<CieRead>
  {
    var id :- TakeBytes(body, 4);
    if Unsigned(id.value) != 0 then None
    else
      var version :- TakeBytes(id.rest, 1);
      var augmentation :- TakeString(version.rest);
      var sizes :- TakeBytes(augmentation.rest, if version.value[0] >= 4 then 2 else 0);
      ReadFactors(version.value, augmentation.value, sizes.value, sizes.rest)
  }

  function ReadFactors(version: seq<byte>, augmentation: seq<byte>, sizes: seq<byte>, bs: seq<byte>): Option<CieRead>
  {
    var code :- TakeLeb(bs, false);
    var data :- TakeLeb(code.rest, true);
    var reg :- TakeLeb(data.rest, false);
    var block :- TakeData(reg.rest, IsAugmented(augmentation));
    var program :- ParseProgram(block.rest);
    Some(CieRead(version, augmentation, sizes, code.value, data.value, reg.value, block.value, program))
  }

  lemma FactorsRead(c: Cie, version: seq<byte>, sizes: seq<byte>, data: seq<byte>, tail: seq<byte>)
    requires ParseProgram(tail).Some?
    ensures ReadFactors(version, Augmentation(c), sizes,
                        CodeAlign(c) + (DataAlign(c) + (Uleb(c.returnReg) + (Block(c.augmented, data) + tail))))
         == Some(CieRead(version, Augmentation(c), sizes, c.codeAlign % HALF_WORD, Value(DataAlign(c), true), c.returnReg,
                         if c.augmented then data else [], ParseProgram(tail).value))
  {
    var t0 := Block(c.augmented, data) + tail;
    var t1 := Uleb(c.returnReg) + t0;
    var t2 := DataAlign(c) + t1;
    assert IsAugmented(Augmentation(c)) == c.augmented;
    var low := c.codeAlign % HALF_WORD;
    assert CodeAlign(c) == Uleb(low);
    UlebValue(low);
    UlebValue(c.returnReg);
    DataAlignFormed(c);
    hide Augmentation, IsAugmented, Block, TakeLeb, TakeData, ParseProgram, Value, Uleb, IntLeb, DataAlign, WellFormed, Minimal, CodeAlign;
    TakeLebAt(Uleb(low), false, t2);
    TakeLebAt(DataAlign(c), true, t1);
    TakeLebAt(Uleb(c.returnReg), false, t0);
    TakeDataAt(c.augmented, data, tail);
  }

  lemma DataAlignFormed(c: Cie)
    ensures WellFormed(DataAlign(c))
  {
  }

  /** What a reader makes of a CIE. */
  lemma CieFieldsRead(c: Cie, data: seq<byte>, tail: seq<byte>)
    requires c.addressSize < 256 && c.segmentSize < 256 && ParseProgram(tail).Some?
    ensures ReadCie(CieFields(c, data, tail))
         == Some(CieRead([c.version], Augmentation(c), Sizes(c), c.codeAlign % HALF_WORD, Value(DataAlign(c), true),
                         c.returnReg, if c.augmented then data else [], ParseProgram(tail).value))
  {
    var t0 := CodeAlign(c) + (DataAlign(c) + (Uleb(c.returnReg) + (Block(c.augmented, data) + tail)));
    var t1 := Sizes(c) + t0;
    var t2 := Augmentation(c) + ([0] + t1);
    assert 0 !in Augmentation(c);
    assert |Sizes(c)| == if c.version >= 4 then 2 else 0;
    hide *;
    CieSplit(c, data, tail);
    FactorsRead(c, [c.version], Sizes(c), data, tail);
    FourZeros();
    TakeBytesAt(ToBytes(0, 4), [c.version] + t2);
    TakeBytesAt([c.version], t2);
    TakeStringAt(Augmentation(c), t1);
    TakeBytesAt(Sizes(c), t0);
    CieStep(CieFields(c, data, tail), Read(ToBytes(0, 4), [c.version] + t2), Read([c.version], t2), Read(Augmentation(c), t1),
            Read(Sizes(c), t0));
  }

  lemma FourBytes(x: int)
    ensures |ToBytes(x, 4)| == 4
  {
  }

  lemma FourZeros()
    ensures |ToBytes(0, 4)| == 4 && Unsigned(ToBytes(0, 4)) == 0
  {
    LengthBytes(0);
  }

  lemma CieStep(body: seq<byte>, id: Read<seq<byte>>, version: Read<seq<byte>>, augmentation: Read<seq<byte>>, sizes: Read<seq<byte>>)
    requires TakeBytes(body, 4) == Some(id) && Unsigned(id.value) == 0 && TakeBytes(id.rest, 1) == Some(version)
    requires TakeString(version.rest) == Some(augmentation) && |version.value| == 1
    requires TakeBytes(augmentation.rest, if version.value[0] >= 4 then 2 else 0) == Some(sizes)
    ensures ReadCie(body) == ReadFactors(version.value, augmentation.value, sizes.value, sizes.rest)
  {
    hide TakeBytes, TakeString, ReadFactors, Unsigned;
  }

  /** The top septet of a number leaves its sign bit free. */
  predicate HighBitFree(v: nat) { if v < 128 then v < 64 else HighBitFree(v / 128) }

  /** The factors that are not changed: non-negative data alignments are written unsigned. */
  predicate FactorsKept(c: Cie)
  {
    c.codeAlign < HALF_WORD && -0x8000_0000 <= c.dataAlign < 0x8000_0000 && (c.dataAlign >= 0 ==> HighBitFree(c.dataAlign))
  }

  lemma {:induction false} HighBit(v: nat)
    ensures HighBitFree(v) <==> Uleb(v)[|Uleb(v)| - 1] < 64
  {
    if v >= 128 { HighBit(v / 128); }
  }

  /** A number whose top septet has its sign bit set is at least half of what its septets span. */
  lemma {:induction false} HighBitLarge(leb: seq<byte>)
    requires |leb| > 0 && leb[|leb| - 1] % 128 >= 64
    ensures 2 * Value(leb, false) >= Pow2(7 * |leb|)
  {
    if |leb| == 1 {
      ValueOne(leb, false);
    } else {
      ValueTail(leb, false);
      HighBitLarge(leb[1..]);
      Pow2Add(7, 7 * (|leb| - 1));
    }
    assert Pow2(7) == 128;
  }

  lemma AsIntOf(v: int)
    ensures var r := AsInt(v % WORD); -0x8000_0000 <= r < 0x8000_0000 && (-0x8000_0000 <= v < 0x8000_0000 ==> r == v)
  {
    var w := v % WORD;
    if 0 <= v < 0x8000_0000 {
      SmallMod(v, WORD);
      SmallMod(v, HALF_WORD);
    } else if -0x8000_0000 <= v < 0 {
      DivModUnique(v, WORD, -1, v + WORD);
      DivModUnique(w, HALF_WORD, HALF_WORD - 1, v + HALF_WORD);
    }
  }

  /** A 32-bit number in the form of intToLEB128, read as a signed one. */
  lemma IntLebRead(v: int)
    requires -0x8000_0000 <= v < 0x8000_0000
    ensures var r := Value(if v >= 0 then Uleb(v) else Sleb(v), true);
      -0x8000_0000 <= r < 0x8000_0000 && (r == v <==> v < 0 || HighBitFree(v))
  {
    hide Value;
    if v < 0 {
      SlebValue(v);
    } else {
      HighBit(v);
      UlebValue(v);
      SignedOfUnsignedForm(Uleb(v));
      hide *;
      if Uleb(v)[|Uleb(v)| - 1] >= 64 { HighBitLarge(Uleb(v)); }
    }
  }

  lemma DataAlignIff(c: Cie)
    ensures Value(DataAlign(c), true) == c.dataAlign
            <==> -0x8000_0000 <= c.dataAlign < 0x8000_0000 && (c.dataAlign >= 0 ==> HighBitFree(c.dataAlign))
  {
    var v := AsInt(c.dataAlign % WORD);
    assert DataAlign(c) == if v >= 0 then Uleb(v) else Sleb(v);
    hide *;
    AsIntOf(c.dataAlign);
    IntLebRead(v);
  }

  /** The CIE of a section as it is read back. */
  function ReadBack(f: Frame, c: Cie, at: nat): CieRead
    requires c.addressSize < 256 && c.segmentSize < 256 && CieData(f, c, at).Some?
  {
    CieRead([c.version], Augmentation(c), Sizes(c), c.codeAlign % HALF_WORD, Value(DataAlign(c), true), c.returnReg,
            CieData(f, c, at).value, WithoutNops(c.program))
  }

  lemma CieRecordRead(f: Frame, c: Cie, at: nat)
    requires CieRecord(f, c, at).Some? && |CieRecord(f, c, at).value| < HALF_WORD
    requires forall k :: k in c.program ==> Cfa.RoundTrips(k)
    ensures c.addressSize < 256 && c.segmentSize < 256 && CieData(f, c, at).Some?
    ensures var r := CieRecord(f, c, at).value; Framed(r) && ReadCie(r[4..]) == Some(ReadBack(f, c, at))
  {
    CieDataPlain(f, c, at);
    hide PrintProgram, ParseProgram, CieFields, CieData, Record, ReadCie, Augmentation, Sizes, Value, DataAlign, Cfa.RoundTrips;
    CieRecordIs(f, c, at);
    var r := CieRecord(f, c, at).value;
    var pad: nat :| r[4..] == CieFields(c, CieData(f, c, at).value, PrintProgram(c.program).value + Nops(pad));
    ProgramRoundTrip(c.program, pad);
    CieFieldsRead(c, CieData(f, c, at).value, PrintProgram(c.program).value + Nops(pad));
  }

  lemma CieDataPlain(f: Frame, c: Cie, at: nat)
    ensures !c.augmented ==> CieData(f, c, at) == Some([])
  {
  }

  lemma CieFound(f: Frame, i: nat)
    requires ValidFrame(f) && Records(f, Count(f)).Some? && i < |f.cies|
    requires |Flat(Records(f, Count(f)).value)| < HALF_WORD
    requires forall k :: k in f.cies[i].program ==> Cfa.RoundTrips(k)
    ensures var rs, c := Records(f, Count(f)).value, f.cies[i];
      && c.addressSize < 256 && c.segmentSize < 256 && CieData(f, c, StartOf(rs, i)).Some?
      && var body := TakeRecord(Flat(rs), StartOf(rs, i));
      && body.Some? && ReadCie(body.value) == Some(ReadBack(f, c, StartOf(rs, i)))
  {
    hide CieRecord, Records, TakeRecord, Flat, ReadCie, ReadBack, Cfa.RoundTrips, Framed, ValidFrame, CieData, FdeRecord;
    var rs := Records(f, Count(f)).value;
    RecordsAt(f, Count(f), i);
    FlatLength(rs, i);
    CieRecordRead(f, f.cies[i], StartOf(rs, i));
    RecordAt(rs, i);
  }

  /** Main result on CIEs: the reader finds everything but the nops again exactly when the
      factors are kept.  (The data are the bytes of the augmentation data.) */
  lemma CieIff(f: Frame, i: nat)
    requires ValidFrame(f) && Records(f, Count(f)).Some? && i < |f.cies|
    requires |Flat(Records(f, Count(f)).value)| < HALF_WORD
    requires forall k :: k in f.cies[i].program ==> Cfa.RoundTrips(k)
    ensures var rs, c := Records(f, Count(f)).value, f.cies[i];
      && c.addressSize < 256 && c.segmentSize < 256 && CieData(f, c, StartOf(rs, i)).Some?
      && var body := TakeRecord(Flat(rs), StartOf(rs, i));
      && body.Some?
      && (FactorsKept(c)
          <==> ReadCie(body.value) == Some(CieRead([c.version], Augmentation(c), Sizes(c), c.codeAlign, c.dataAlign,
                                                   c.returnReg, CieData(f, c, StartOf(rs, i)).value, WithoutNops(c.program))))
  {
    hide CieData, Records, TakeRecord, Flat, ReadCie, Cfa.RoundTrips, Value, DataAlign, Augmentation, Sizes, HighBitFree;
    CieFound(f, i);
    DataAlignIff(f.cies[i]);
    if f.cies[i].codeAlign < HALF_WORD { SmallMod(f.cies[i].codeAlign, HALF_WORD); }
  }
}
