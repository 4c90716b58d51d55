/** Pointer encodings of the exception handling sections (eh_pe.c). */
module EhPointers {
  import opened Bytes
  import opened Leb
  import opened LebWords

  const DW_EH_PE_OMIT: byte := 0xff
  const DW_EH_PE_ULEB128: byte := 0x01

  /** The low nibble says how the value is stored, bits four to six what it is relative
      to; the top bit, for indirect pointers, is ignored. */
  function Format(enc: byte): nat { enc % 16 }

  function Application(enc: byte): nat { enc / 16 % 8 }

  const ABSOLUTE := 0
  const PC_RELATIVE := 1

  /** getPointerSizeFromEHPointerEncoding; ptrSize is the pointer size of the ELF file. */
  function EntrySize(enc: byte, ptrSize: nat): Option<nat>
  {
    if enc == DW_EH_PE_OMIT then Some(0)
    else match Format(enc)
      case 0x00 => Some(ptrSize)
      case 0x02 => Some(2)
      case 0x0a => Some(2)
      case 0x03 => Some(4)
      case 0x0b => Some(4)
      case 0x04 => Some(8)
      case 0x0c => Some(8)
      case _ => None
  }

  /** encodeEHPointerFromEncoding: the value to be stored. */
  function EncodePointer(v: word, enc: byte, location: word): Option<word>
  {
    if Application(enc) == ABSOLUTE then Some(v)
    else if Application(enc) == PC_RELATIVE then Some((v - location) % WORD)
    else None
  }

  /** Pointers are stored as they are or relative to where they are. */
  predicate Storable(enc: byte) { Application(enc) == ABSOLUTE || Application(enc) == PC_RELATIVE }

  /** decodeEHPointer: the value and the number of bytes read.  Signed formats are
      zero-extended like the others, both LEB formats are read unsigned, and the
      eight-byte formats report four bytes. */
  function DecodePointer(bytes: seq<byte>, location: word, enc: byte, ptrSize: nat): (r: Option<(word, nat)>)
    requires ptrSize <= 8
  {
    var raw :- RawPointer(bytes, Format(enc), ptrSize);
    if Application(enc) == ABSOLUTE then Some(raw)
    else if Application(enc) == PC_RELATIVE then Some(((raw.0 + location) % WORD, raw.1))
    else None
  }

  function RawPointer(bytes: seq<byte>, format: nat, ptrSize: nat): (r: Option<(word, nat)>)
    requires ptrSize <= 8
  {
    match format
    case 0x00 => Fixed(bytes, if |bytes| < ptrSize then |bytes| else ptrSize, if |bytes| < ptrSize then |bytes| else ptrSize)
    case 0x02 => Fixed(bytes, 2, 2)
    case 0x0a => Fixed(bytes, 2, 2)
    case 0x03 => Fixed(bytes, 4, 4)
    case 0x0b => Fixed(bytes, 4, 4)
    case 0x04 => Fixed(bytes, 8, 4)
    case 0x0c => Fixed(bytes, 8, 4)
    case 0x01 => FromLeb(bytes)
    case 0x09 => FromLeb(bytes)
    case _ => None
  }

  function Fixed(bytes: seq<byte>, n: nat, count: nat): Option<(word, nat)>
    requires n <= 8
  {
    if |bytes| < n then None
    else
      UnsignedWord(bytes[..n]);
      Some((Unsigned(bytes[..n]), count))
  }

  lemma UnsignedWord(bs: seq<byte>)
    requires |bs| <= 8
    ensures 0 <= Unsigned(bs) < WORD
  {
    UnsignedBelow(bs);
    Base256Monotone(|bs|, 8);
    assert Base256(8) == WORD;
  }

  function FromLeb(bytes: seq<byte>): Option<(word, nat)>
  {
    assert Base256(8) == WORD;
    ReadUnsigned(bytes, 8)
  }

  /** An entry of a type table, and the two addresses that matter for it: the one the
      writer computes, which adds the index times the entry size, and the one it is at. */
  function StoredEntry(v: word, enc: byte, size: nat, location: word, j: nat): Option<seq<byte>>
  {
    var stored :- EncodePointer(v, enc, (location + j * size) % WORD);
    Some(ToBytes(stored, size))
  }

  /** How many values an entry can tell apart. */
  function Room(size: nat): (m: nat)
    ensures m > 0
  {
    if size == 2 then 0x1_0000 else if size == 4 then HALF_WORD else WORD
  }

  /** Entries that come back as they were.  Absolute ones have to fit; with pc-relative encodings the
      distance has to fit, and only entry zero is right, or one so far up that the displacement of
      the writer's address wraps around. */
  predicate EntrySurvives(v: word, enc: byte, size: nat, location: word, j: nat)
  {
    if Application(enc) == ABSOLUTE then v < Room(size)
    else Application(enc) == PC_RELATIVE && (j * size) % Room(size) == 0 && (v - location) % WORD < Room(size)
  }

  predicate TypeSize(size: Option<nat>) { size in {Some(2), Some(4), Some(8)} }

  lemma StoredWord(v: word, size: nat)
    requires TypeSize(Some(size))
    ensures Unsigned(ToBytes(v, size)) == v % Room(size)
  {
    ToBytesValue(v, size);
    assert Base256(2) == 0x1_0000 && Base256(4) == HALF_WORD && Base256(8) == WORD;
  }

  /** An entry is read back at its own address exactly when EntrySurvives says so. */
  lemma EntryIff(v: word, enc: byte, ptrSize: nat, location: word, j: nat)
    requires ptrSize <= 8 && TypeSize(EntrySize(enc, ptrSize))
    ensures var size := EntrySize(enc, ptrSize).value;
            EntrySurvives(v, enc, size, location, j)
            <==> StoredEntry(v, enc, size, location, j).Some?
                 && var r := DecodePointer(StoredEntry(v, enc, size, location, j).value, location, enc, ptrSize);
                    r.Some? && r.value.0 == v
  {
    var size := EntrySize(enc, ptrSize).value;
    var near := (location + j * size) % WORD;
    hide ToBytes; hide Unsigned; hide RawPointer; hide EntrySize; hide Application; hide Format; hide Room;
    if EncodePointer(v, enc, near).Some? {
      DecodedEntry(enc, ptrSize, EncodePointer(v, enc, near).value, location);
    }
    if Application(enc) == ABSOLUTE {
      if v < Room(size) { SmallMod(v, Room(size)); }
    } else {
      ShiftedIff(v, size, location, j * size);
    }
    hide DecodePointer;
  }

  /** What is read of a stored value. */
  lemma DecodedEntry(enc: byte, ptrSize: nat, d: word, location: word)
    requires ptrSize <= 8 && TypeSize(EntrySize(enc, ptrSize))
    requires Application(enc) == ABSOLUTE || Application(enc) == PC_RELATIVE
    ensures var size := EntrySize(enc, ptrSize).value;
            var raw := d % Room(size);
            var r := DecodePointer(ToBytes(d, size), location, enc, ptrSize);
            r.Some? && r.value.0 == if Application(enc) == ABSOLUTE then raw else (raw + location) % WORD
  {
    var size := EntrySize(enc, ptrSize).value;
    StoredWord(d, size);
    RawEntry(ToBytes(d, size), enc, ptrSize);
    hide ToBytes; hide Unsigned; hide RawPointer; hide EntrySize; hide Application; hide Format; hide Room;
  }

  lemma RawEntry(bs: seq<byte>, enc: byte, ptrSize: nat)
    requires ptrSize <= 8 && TypeSize(EntrySize(enc, ptrSize)) && Some(|bs|) == EntrySize(enc, ptrSize)
    ensures RawPointer(bs, Format(enc), ptrSize).Some? && RawPointer(bs, Format(enc), ptrSize).value.0 == Unsigned(bs)
  {
    assert bs[..|bs|] == bs;
  }

  /** The distance that is stored is short by s. */
  lemma ShiftedIff(v: word, size: nat, location: word, s: nat)
    ensures var raw := (v - (location + s) % WORD) % WORD % Room(size);
            (raw + location) % WORD == v <==> s % Room(size) == 0 && (v - location) % WORD < Room(size)
  {
    var e := (v - location) % WORD;
    StoredDistance(v, location, s);
    RoomDivides(e - s, size);
    var raw := (e - s) % Room(size);
    assert raw < WORD by { SmallRoom(size); }
    Distance(raw, location, v);
    SameRemainder(e, s, Room(size));
  }

  lemma SmallRoom(size: nat)
    ensures Room(size) <= WORD
  {
  }

  lemma SameRemainder(e: nat, s: nat, m: nat)
    requires m > 0
    ensures (e - s) % m == e <==> s % m == 0 && e < m
  {
    if s % m == 0 && e < m {
      var q: int := s / m;
      assert s == m * q;
      assert e + m * -q == e - s;
      AddMultiple(e, m, -q);
      SmallMod(e, m);
    }
    if (e - s) % m == e {
      var q := (e - s) / m;
      assert e - s == m * q + e;
      assert m * -q == s;
      DivModUnique(s, m, -q, 0);
    }
  }

  /** A word's remainder is that of the number it comes from. */
  lemma RoomDivides(x: int, size: nat)
    ensures x % WORD % Room(size) == x % Room(size)
  {
    var m, n := Room(size), WORD / Room(size);
    assert m * n == WORD;
    var q, r := x / WORD, x % WORD;
    assert x == WORD * q + r;
    assert WORD * q == m * (n * q) by { MulAssoc(m, n, q); }
    AddMultiple(r, m, n * q);
  }

  lemma StoredDistance(v: word, location: word, s: nat)
    ensures (v - (location + s) % WORD) % WORD == ((v - location) % WORD - s) % WORD
  {
    var q, p := (location + s) / WORD, (location + s) % WORD;
    assert location + s == WORD * q + p;
    var k, e := (v - location) / WORD, (v - location) % WORD;
    assert v - location == WORD * k + e;
    assert v - p == (e - s) + WORD * (k + q);
    AddMultiple(e - s, WORD, k + q);
  }

  /** x behind location is v exactly when x is the distance between the two. */
  lemma Distance(x: word, location: word, v: word)
    ensures (x + location) % WORD == v <==> x == (v - location) % WORD
  {
    if x + location < WORD { SmallMod(x + location, WORD); } else { DivModUnique(x + location, WORD, 1, x + location - WORD); }
    if v >= location { SmallMod(v - location, WORD); } else { DivModUnique(v - location, WORD, -1, v - location + WORD); }
  }
}
