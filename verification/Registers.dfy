/** The registers of register.c: what a LEB-encoded register operand denotes. */
module Registers {
  import opened Bytes
  import opened Leb
  import opened LebWords

  type u32 = x: int | 0 <= x < 0x1_0000_0000

  /** PoReg.  Sizes, offsets and indices are the 32-bit patterns of C ints. */
  datatype Reg =
    | NoReg
    | Basic(index: u32)
    | CurrTargNew(size: u32, offset: u32)
    | CurrTargOld(size: u32, offset: u32)
    | Expr(exprOffset: u32)
    | OldSymVal(symbol: u32)
    | NewSymVal(symbol: u32)
    | CfaReg

  const PO_START := 0xF0
  const CURR_TARG_NEW := 0xF1
  const CURR_TARG_OLD := 0xF2
  const EXPR := 0xF3
  const OLD_SYM_VAL := 0xF4
  const NEW_SYM_VAL := 0xF5
  const PO_END := 0xF7

  predicate IsPoRegType(b: byte) { PO_START < b < PO_END }

  /** The first four bytes of bs at position i, missing ones read as zero. */
  function U32At(bs: seq<byte>, i: nat): u32
    requires i <= |bs|
  {
    var part := if |bs| - i < 4 then bs[i..] else bs[i..i + 4];
    UnsignedBelow(part);
    Base256Monotone(|part|, 4);
    assert Base256(4) == HALF_WORD;
    Unsigned(part)
  }

  /** What the decoded bytes of a register operand denote.  Basic register numbers
      of five to seven bytes would be copied past the end of the structure, so
      they are failures as well. */
  function RegOfBytes(bs: seq<byte>): Option<Reg>
    requires |bs| > 0
  {
    if bs[0] < PO_START then
      if |bs| <= 4 then Some(Basic(U32At(bs, 0))) else None
    else if bs[0] == CURR_TARG_NEW then
      if 5 <= |bs| <= 9 then Some(CurrTargNew(U32At(bs, 1), U32At(bs, 5))) else None
    else if bs[0] == CURR_TARG_OLD then
      if 5 <= |bs| <= 9 then Some(CurrTargOld(U32At(bs, 1), U32At(bs, 5))) else None
    else if |bs| != 5 then None
    else if bs[0] == EXPR then Some(Expr(U32At(bs, 1)))
    else if bs[0] == OLD_SYM_VAL then Some(OldSymVal(U32At(bs, 1)))
    else if bs[0] == NEW_SYM_VAL then Some(NewSymVal(U32At(bs, 1)))
    else None
  }

  /** readRegFromLEB128. */
  function ReadReg(stream: seq<byte>): (r: Option<(Reg, nat)>)
    ensures r.Some? ==> 0 < r.value.1 <= |stream|
  {
    if !Terminated(stream) then None
    else
      var n := Length(stream);
      var reg := RegOfBytes(Decoded(stream[..n], false));
      if reg.None? then None else Some((reg.value, n))
  }

  lemma ReadRegAt(leb: seq<byte>, rest: seq<byte>)
    requires WellFormed(leb)
    ensures var reg := RegOfBytes(Decoded(leb, false));
            ReadReg(leb + rest) == if reg.None? then None else Some((reg.value, |leb|))
  {
    LengthOfEncoding(leb, rest);
    assert (leb + rest)[..|leb|] == leb;
  }

  /** encodeRegAsLEB128 only supports ordinary registers. */
  function EncodeReg(reg: Reg): Option<seq<byte>>
  {
    if reg.Basic? then Some(Uleb(reg.index)) else None
  }

  /** An ordinary register survives exactly when its lowest byte cannot be taken
      for the tag of a patch register. */
  lemma BasicRegIff(index: u32, rest: seq<byte>)
    ensures var leb := Uleb(index);
            ReadReg(leb + rest) == if index % 256 < PO_START then Some((Basic(index), |leb|)) else None
  {
    ReadRegAt(Uleb(index), rest);
    UlebValue(index);
    DecodedValue(Uleb(index), false);
    assert Base256(4) == HALF_WORD;
    DecodedUlebFits(index, 4);
    ShortBytes(Decoded(Uleb(index), false));
  }

  lemma ShortBytes(bs: seq<byte>)
    requires 0 < |bs| <= 4
    ensures Unsigned(bs) % 256 == bs[0] && U32At(bs, 0) == Unsigned(bs)
  {
    AddMultiple(bs[0], 256, FoldBytes(bs[1..], 0));
    SmallMod(bs[0], 256);
    assert bs[0..] == bs && (|bs| == 4 ==> bs[0..4] == bs);
  }

  /** The bytes of a patch register as write_to_dwarf.c lays them out: five for a
      register without an offset, nine for one with. */
  function PatchRegBytes(tag: byte, size: u32, offset: Option<u32>): seq<byte>
  {
    [tag] + ToBytes(size, 4) + if offset.Some? then ToBytes(offset.value, 4) else []
  }

  /** What encodeAsLEB128NoOptimization makes of n bytes. */
  function Unoptimized(bytes: seq<byte>): (leb: seq<byte>)
    requires |bytes| > 0
    ensures WellFormed(leb)
  {
    UnsignedNonNegative(bytes);
    FixedUleb(Unsigned(bytes), (8 * |bytes| + 6) / 7)
  }

  lemma UnoptimizedDecodes(bs: seq<byte>)
    requires |bs| > 0
    ensures Decoded(Unoptimized(bs), false) == bs
  {
    FixedEncodes(bs);
    NoOptimizationLossless(bs, Unoptimized(bs));
  }

  lemma FirstSeptet(bs: seq<byte>)
    requires |bs| > 1
    ensures Unoptimized(bs)[0] == bs[0] % 128 + 128
  {
    AddMultiple(bs[0], 128, 2 * FoldBytes(bs[1..], 0));
    UnsignedNonNegative(bs);
    assert Unsigned(bs) % 128 == bs[0] % 128;
  }

  lemma U32Field(pre: seq<byte>, v: u32, post: seq<byte>)
    ensures U32At(pre + ToBytes(v, 4) + post, |pre|) == v
  {
    assert Base256(4) == HALF_WORD;
    ToBytesRaw(v, 4, false);
    var bs := pre + ToBytes(v, 4) + post;
    assert bs[|pre|..|pre| + 4] == ToBytes(v, 4);
    assert post == [] ==> bs[|pre|..] == ToBytes(v, 4);
  }

  function PatchReg(tag: byte, size: u32, offset: Option<u32>): Reg
  {
    var off := if offset.Some? then offset.value else 0;
    if tag == CURR_TARG_NEW then CurrTargNew(size, off) else CurrTargOld(size, off)
  }

  lemma PatchRegOfBytes(tag: byte, size: u32, offset: Option<u32>)
    requires tag == CURR_TARG_NEW || tag == CURR_TARG_OLD
    ensures RegOfBytes(PatchRegBytes(tag, size, offset)) == Some(PatchReg(tag, size, offset))
  {
    var bs := PatchRegBytes(tag, size, offset);
    if offset.Some? {
      var off := ToBytes(offset.value, 4);
      U32Field([tag], size, off);
      U32Field([tag] + ToBytes(size, 4), offset.value, []);
      assert bs == [tag] + ToBytes(size, 4) + off + [];
    } else {
      U32Field([tag], size, []);
      assert bs[5..] == [] && Unsigned([]) == 0;
    }
  }

  lemma UnoptimizedRegister(bs: seq<byte>, reg: Reg, rest: seq<byte>)
    requires |bs| > 0 && RegOfBytes(bs) == Some(reg)
    ensures ReadReg(Unoptimized(bs) + rest) == Some((reg, |Unoptimized(bs)|))
  {
    var leb := Unoptimized(bs);
    assert RegOfBytes(Decoded(leb, false)) == Some(reg) by { UnoptimizedDecodes(bs); }
    ReadRegAt(leb, rest);
  }

  /** The tag shows through the encoding: its top bit is the continuation bit. */
  lemma UnoptimizedTag(bs: seq<byte>, rest: seq<byte>)
    requires |bs| > 1 && bs[0] >= 128
    ensures (Unoptimized(bs) + rest)[0] == bs[0]
  {
    FirstSeptet(bs);
  }

  /** Patch registers survive for every size and offset, zero bytes included; the
      first byte of the encoding is still recognisable as a patch register tag. */
  lemma PatchRegRoundTrip(tag: byte, size: u32, offset: Option<u32>, rest: seq<byte>)
    requires tag == CURR_TARG_NEW || tag == CURR_TARG_OLD
    ensures var leb := Unoptimized(PatchRegBytes(tag, size, offset));
            && ReadReg(leb + rest) == Some((PatchReg(tag, size, offset), |leb|))
            && IsPoRegType((leb + rest)[0])
  {
    PatchRegOfBytes(tag, size, offset);
    UnoptimizedRegister(PatchRegBytes(tag, size, offset), PatchReg(tag, size, offset), rest);
    UnoptimizedTag(PatchRegBytes(tag, size, offset), rest);
  }
}
