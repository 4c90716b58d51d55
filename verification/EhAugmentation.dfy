/** Katana's own reading of the augmentation of a CIE (callFrameInfo.c). */
module EhAugmentation {
  import opened Bytes
  import opened EhPointers
  import opened EhFrame

  /** The fields that the letters of the string set. */
  datatype Parsed = Parsed(augmented: bool, fde: Option<byte>, lsda: Option<byte>, personality: Option<(byte, word)>)

  const LETTER_Z := 0x7a
  const LETTER_P := 0x50
  const LETTER_L := 0x4c
  const LETTER_R := 0x52

  /** One letter: the data are asserted to go on, whatever the letter is. */
  function Letter(letter: byte, data: seq<byte>, address: word, ptrSize: nat, offset: nat, p: Parsed): Option<(Parsed, nat)>
    requires ptrSize <= 8
  {
    if offset >= |data| then None
    else if letter == LETTER_Z then Some((p.(augmented := true), offset))
    else if letter == LETTER_R then Some((p.(fde := Some(data[offset])), offset + 1))
    else if letter == LETTER_L then Some((p.(lsda := Some(data[offset])), offset + 1))
    else if letter == LETTER_P then
      var r :- DecodePointer(data[offset + 1..], (address + offset + 1) % WORD, data[offset], ptrSize);
      Some((p.(personality := Some((data[offset], r.0))), offset + 1 + r.1))
    else Some((p, offset))
  }

  function Letters(s: seq<byte>, data: seq<byte>, address: word, ptrSize: nat, offset: nat, p: Parsed): Option<Parsed>
    requires ptrSize <= 8
  {
    if s == [] then Some(p)
    else
      var (q, next) :- Letter(s[0], data, address, ptrSize, offset, p);
      Letters(s[1..], data, address, ptrSize, next, q)
  }

  const Nothing := Parsed(false, None, None, None)

  /** parseAugmentationStringAndData. */
  method ParseAugmentationStringAndData(s: seq<byte>, data: seq<byte>, address: word, ptrSize: nat) returns (r: Option<Parsed>)
    requires ptrSize <= 8
    ensures r == Letters(s, data, address, ptrSize, 0, Nothing)
  {
    var p, offset := Nothing, 0;
    assert s[0..] == s;
    for i := 0 to |s|
      invariant Letters(s, data, address, ptrSize, 0, Nothing) == Letters(s[i..], data, address, ptrSize, offset, p)
    {
      hide Letter;
      assert s[i..][1..] == s[i + 1..];
      var next := Letter(s[i], data, address, ptrSize, offset, p);
      if next.None? { return None; }
      p, offset := next.value.0, next.value.1;
    }
    return Some(p);
  }

  function Opt(present: bool, letter: byte): seq<byte> { if present then [letter] else [] }

  /** The letters L and R, from an offset on. */
  lemma EncodingLetters(l: bool, r: bool, data: seq<byte>, address: word, ptrSize: nat, offset: nat, p: Parsed)
    requires ptrSize <= 8
    requires offset + (if l then 1 else 0) + (if r then 1 else 0) <= |data|
    ensures Letters(Opt(l, LETTER_L) + Opt(r, LETTER_R), data, address, ptrSize, offset, p)
         == Some(p.(lsda := if l then Some(data[offset]) else p.lsda,
                    fde := if r then Some(data[offset + if l then 1 else 0]) else p.fde))
  {
    var s := Opt(l, LETTER_L) + Opt(r, LETTER_R);
    if l {
      assert s[1..] == Opt(r, LETTER_R);
      LastLetter(r, data, address, ptrSize, offset + 1, p.(lsda := Some(data[offset])));
    } else {
      assert s == Opt(r, LETTER_R);
      LastLetter(r, data, address, ptrSize, offset, p);
    }
  }

  lemma LastLetter(r: bool, data: seq<byte>, address: word, ptrSize: nat, offset: nat, p: Parsed)
    requires ptrSize <= 8 && offset + (if r then 1 else 0) <= |data|
    ensures Letters(Opt(r, LETTER_R), data, address, ptrSize, offset, p) == Some(if r then p.(fde := Some(data[offset])) else p)
  {
    if r { assert Opt(r, LETTER_R)[1..] == []; }
  }

  /** The string in three parts. */
  lemma StringParts(c: Cie)
    requires c.augmented
    ensures Augmentation(c) == [LETTER_Z] + (Opt(c.hasPersonality, LETTER_P) + (Opt(c.hasLsda, LETTER_L) + Opt(c.hasFdeEncoding, LETTER_R)))
  {
  }

  lemma FirstLetter(s: seq<byte>, data: seq<byte>, address: word, ptrSize: nat)
    requires ptrSize <= 8
    ensures Letters([LETTER_Z] + s, data, address, ptrSize, 0, Nothing)
         == if data == [] then None else Letters(s, data, address, ptrSize, 0, Nothing.(augmented := true))
  {
    assert ([LETTER_Z] + s)[1..] == s;
  }

  lemma SecondLetter(s: seq<byte>, data: seq<byte>, address: word, ptrSize: nat, p: Parsed)
    requires ptrSize <= 8 && |data| > 0
    ensures var r := DecodePointer(data[1..], (address + 1) % WORD, data[0], ptrSize);
      Letters([LETTER_P] + s, data, address, ptrSize, 0, p)
      == if r.None? then None
         else Letters(s, data, address, ptrSize, 1 + r.value.1, p.(personality := Some((data[0], r.value.0))))
  {
    hide DecodePointer;
    assert ([LETTER_P] + s)[1..] == s;
  }

  /** How far the reader gets behind the encoding of a personality. */
  function Skipped(enc: byte, size: nat): nat { if Format(enc) == 0x04 || Format(enc) == 0x0c then 4 else size }

  lemma SkippedIs(data: seq<byte>, location: word, enc: byte, ptrSize: nat)
    requires ptrSize in {4, 8} && EntrySize(enc, ptrSize).Some? && enc != DW_EH_PE_OMIT
    requires |data| >= EntrySize(enc, ptrSize).value && Application(enc) in {ABSOLUTE, PC_RELATIVE}
    ensures var r := DecodePointer(data, location, enc, ptrSize);
            r.Some? && r.value.1 == Skipped(enc, EntrySize(enc, ptrSize).value)
  {
    hide Unsigned;
  }

  predicate Shaped(c: Cie, data: seq<byte>, ptrSize: nat, head: nat)
  {
    && head + (if c.hasLsda then 1 else 0) + (if c.hasFdeEncoding then 1 else 0) == |data|
    && (c.hasLsda ==> data[head] == c.lsdaEncoding)
    && (c.hasFdeEncoding ==> data[head + if c.hasLsda then 1 else 0] == c.fdeEncoding)
    && if c.hasPersonality then
         && |data| > 0 && data[0] != DW_EH_PE_OMIT && Application(data[0]) in {ABSOLUTE, PC_RELATIVE}
         && EntrySize(data[0], ptrSize) == Some(head - 1)
       else head == 0
  }

  /** The data of a CIE: an encoding and a pointer of its size, if there is a personality, and the
      bytes of the other letters. */
  lemma DataParts(f: Frame, c: Cie, at: nat) returns (head: nat)
    requires c.augmented && CieData(f, c, at).Some? && |f.spare| == 4 && f.ptrSize in {4, 8}
    ensures Shaped(c, CieData(f, c, at).value, f.ptrSize, head)
  {
    var p := Personality(f, c, at);
    hide *;
    head := |p|;
    ShapedFrom(c, CieData(f, c, at).value, f.ptrSize, p);
  }

  lemma Personality(f: Frame, c: Cie, at: nat) returns (p: seq<byte>)
    requires c.augmented && CieData(f, c, at).Some? && |f.spare| == 4 && f.ptrSize in {4, 8}
    ensures CieData(f, c, at).value
         == p + (if c.hasLsda then [c.lsdaEncoding] else []) + (if c.hasFdeEncoding then [c.fdeEncoding] else [])
    ensures if c.hasPersonality then
              && |p| > 0 && p[0] != DW_EH_PE_OMIT && Application(p[0]) in {ABSOLUTE, PC_RELATIVE}
              && EntrySize(p[0], f.ptrSize) == Some(|p| - 1)
            else p == []
  {
    hide AssumedDataOffset, Address, ToBytes;
    var data := PersonalityData(c, Address(f.ehAddress, at + AssumedDataOffset(c) + 1), f.ptrSize, f.spare);
    p := if c.hasPersonality then data.value else [];
  }

  lemma ShapedFrom(c: Cie, data: seq<byte>, ptrSize: nat, p: seq<byte>)
    requires data == p + (if c.hasLsda then [c.lsdaEncoding] else []) + (if c.hasFdeEncoding then [c.fdeEncoding] else [])
    requires if c.hasPersonality then
               && |p| > 0 && p[0] != DW_EH_PE_OMIT && Application(p[0]) in {ABSOLUTE, PC_RELATIVE}
               && EntrySize(p[0], ptrSize) == Some(|p| - 1)
             else p == []
    ensures Shaped(c, data, ptrSize, |p|)
  {
    hide EntrySize, Application;
  }

  /** Where the reader looks for the bytes of the letters L and R. */
  function Looks(data: seq<byte>, c: Cie, ptrSize: nat): nat
    requires c.hasPersonality ==> |data| > 0 && EntrySize(data[0], ptrSize).Some?
  {
    if c.hasPersonality then 1 + Skipped(data[0], EntrySize(data[0], ptrSize).value) else 0
  }

  /** Main result: what katana reads of the augmentation it writes.  Without any data its assertion
      fails; otherwise it finds both encodings in their places, except that behind a personality
      of eight bytes in an eight-byte format it looks four bytes too early. */
  lemma AugmentationRead(f: Frame, c: Cie, at: nat, address: word)
    requires c.augmented && CieData(f, c, at).Some? && |f.spare| == 4 && f.ptrSize in {4, 8}
    ensures c.hasPersonality ==>
      |CieData(f, c, at).value| > 0 && EntrySize(CieData(f, c, at).value[0], f.ptrSize).Some?
    ensures var data := CieData(f, c, at).value;
      var r := Letters(Augmentation(c), data, address, f.ptrSize, 0, Nothing);
      var k := Looks(data, c, f.ptrSize);
      && k + (if c.hasLsda then 1 else 0) + (if c.hasFdeEncoding then 1 else 0) <= |data|
      && (r.None? <==> !c.hasPersonality && !c.hasLsda && !c.hasFdeEncoding)
      && (r.Some? ==>
            && r.value.augmented && (r.value.personality.Some? <==> c.hasPersonality)
            && r.value.lsda == (if c.hasLsda then Some(data[k]) else None)
            && r.value.fde == (if c.hasFdeEncoding then Some(data[k + if c.hasLsda then 1 else 0]) else None))
      && (!c.hasPersonality || !(Format(data[0]) in {0x04, 0x0c}) ==>
            && (c.hasLsda ==> data[k] == c.lsdaEncoding)
            && (c.hasFdeEncoding ==> data[k + if c.hasLsda then 1 else 0] == c.fdeEncoding))
  {
    var head := DataParts(f, c, at);
    hide CieData, Letters, DecodePointer, EntrySize, Skipped, Format, Application, Augmentation;
    LettersRead(c, CieData(f, c, at).value, address, f.ptrSize, head);
    if c.hasPersonality { EightBytes(CieData(f, c, at).value[0], f.ptrSize); }
  }

  /** The whole string over data of that shape. */
  lemma LettersRead(c: Cie, data: seq<byte>, address: word, ptrSize: nat, head: nat)
    requires c.augmented && ptrSize in {4, 8} && Shaped(c, data, ptrSize, head)
    ensures var r := Letters(Augmentation(c), data, address, ptrSize, 0, Nothing);
      var k := Looks(data, c, ptrSize);
      && k + (if c.hasLsda then 1 else 0) + (if c.hasFdeEncoding then 1 else 0) <= |data|
      && (r.None? <==> data == [])
      && (r.Some? ==>
            && r.value.augmented && (r.value.personality.Some? <==> c.hasPersonality)
            && r.value.lsda == (if c.hasLsda then Some(data[k]) else None)
            && r.value.fde == (if c.hasFdeEncoding then Some(data[k + if c.hasLsda then 1 else 0]) else None))
  {
    var (l, r) := (Opt(c.hasLsda, LETTER_L), Opt(c.hasFdeEncoding, LETTER_R));
    var p := Nothing.(augmented := true);
    StringParts(c);
    FirstLetter(Opt(c.hasPersonality, LETTER_P) + (l + r), data, address, ptrSize);
    hide Augmentation, Letters, DecodePointer, EntrySize, Format, Application;
    if c.hasPersonality {
      SecondLetter(l + r, data, address, ptrSize, p);
      SkippedIs(data[1..], (address + 1) % WORD, data[0], ptrSize);
      EightBytes(data[0], ptrSize);
      var v := DecodePointer(data[1..], (address + 1) % WORD, data[0], ptrSize).value;
      EncodingLetters(c.hasLsda, c.hasFdeEncoding, data, address, ptrSize, 1 + v.1, p.(personality := Some((data[0], v.0))));
    } else {
      assert Opt(c.hasPersonality, LETTER_P) + (l + r) == l + r;
      if data != [] { EncodingLetters(c.hasLsda, c.hasFdeEncoding, data, address, ptrSize, 0, p); }
    }
  }

  lemma EightBytes(enc: byte, ptrSize: nat)
    requires EntrySize(enc, ptrSize).Some? && enc != DW_EH_PE_OMIT
    ensures Format(enc) in {0x04, 0x0c} ==> EntrySize(enc, ptrSize) == Some(8)
    ensures !(Format(enc) in {0x04, 0x0c}) ==> Skipped(enc, EntrySize(enc, ptrSize).value) == EntrySize(enc, ptrSize).value
  {
  }
}
