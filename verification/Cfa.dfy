/** Call frame instructions (sections 6.4.2 and 7.23 of DWARF version 4): the
    printer of dwarf_instr.c and the parser of fderead.c. */
module Cfa {
  import opened Bytes
  import opened Leb
  import opened LebWords
  import opened Registers
  import opened Expressions

  datatype Instr =
    | Nop
    | SetLoc(loc: word)
    | AdvanceLoc(delta: word)
    | AdvanceLoc1(delta: word)
    | AdvanceLoc2(delta: word)
    | AdvanceLoc4(delta: word)
    | Offset(reg: Reg, off: word)
    | OffsetExtended(reg: Reg, off: word)
    | OffsetExtendedSf(reg: Reg, off: word)
    | Restore(num: word)
    | Undefined(reg: Reg)
    | SameValue(reg: Reg)
    | Register(reg: Reg, reg2: Reg)
    | RememberState
    | RestoreState
    | DefCfa(reg: Reg, off: word)
    | DefCfaRegister(reg: Reg)
    | DefCfaOffset(off: word)
    | DefCfaOffsetSf(off: word)
    | DefCfaExpression(expr: seq<ExprInstr>)
    | Expression(reg: Reg, expr: seq<ExprInstr>)
    | ValExpression(reg: Reg, expr: seq<ExprInstr>)
    | GnuArgsSize(size: word)
    | Fixups(reg: Reg, reg2: Reg, fde: word)
    | FixupsPointer(reg: Reg, reg2: Reg, fde: word)

  const OP_SET_LOC := 0x01
  const OP_ADVANCE_LOC1 := 0x02
  const OP_ADVANCE_LOC2 := 0x03
  const OP_ADVANCE_LOC4 := 0x04
  const OP_OFFSET_EXTENDED := 0x05
  const OP_UNDEFINED := 0x07
  const OP_SAME_VALUE := 0x08
  const OP_REGISTER := 0x09
  const OP_REMEMBER_STATE := 0x0a
  const OP_RESTORE_STATE := 0x0b
  const OP_DEF_CFA := 0x0c
  const OP_DEF_CFA_REGISTER := 0x0d
  const OP_DEF_CFA_OFFSET := 0x0e
  const OP_DEF_CFA_EXPRESSION := 0x0f
  const OP_EXPRESSION := 0x10
  const OP_OFFSET_EXTENDED_SF := 0x11
  const OP_DEF_CFA_OFFSET_SF := 0x13
  const OP_VAL_EXPRESSION := 0x16
  const OP_FIXUPS := 0x21
  const OP_FIXUPS_POINTER := 0x22
  const OP_GNU_ARGS_SIZE := 0x2e
  const OP_ADVANCE_LOC := 0x40
  const OP_OFFSET := 0x80
  const OP_RESTORE := 0xc0

  // ----- printing -----

  function Join(a: Option<seq<byte>>, b: Option<seq<byte>>): Option<seq<byte>>
  {
    if a.None? then None else Prefixed(a.value, b)
  }

  /** op | v for an opcode with the two top bits of a byte and an operand of up to
      eight bits; operands above 63 spill into the opcode. */
  function OrOpcode(op: byte, v: nat): (b: byte)
    requires op in {OP_ADVANCE_LOC, OP_OFFSET, OP_RESTORE} && v < 256
    ensures v < 64 ==> b == op + v
    ensures v >= 64 ==> b != op + v % 64 || b % 64 != v
  {
    var low, high := v % 64, v / 64;
    if op == OP_RESTORE then OP_RESTORE + low
    else if op == OP_OFFSET then (if high >= 2 then high else high + 2) * 64 + low
    else (if high % 2 == 1 then high else high + 1) * 64 + low
  }

  /** The value of the int that a word is converted to. */
  function AsInt(w: word): int
  {
    var low := w % HALF_WORD;
    if low >= HALF_WORD / 2 then low - HALF_WORD else low
  }

  /** intToLEB128 on a word. */
  function IntLeb(w: word): seq<byte>
  {
    if AsInt(w) >= 0 then Uleb(AsInt(w)) else Sleb(AsInt(w))
  }

  /** regInstructionToRawDwarfInstruction and addInstruction: the bytes of one
      instruction, None where the program aborts.  same_value loses its register,
      and set_loc has no operand bytes to write.  The patch instructions are only
      made by the patch compiler, not by this path. */
  function Print(i: Instr): Option<seq<byte>>
  {
    match i
    case Nop => Some([0])
    case SetLoc(_) => None
    case AdvanceLoc(d) => if d > 0xc0 then None else Some([OrOpcode(OP_ADVANCE_LOC, d)])
    case AdvanceLoc1(d) => if d > 0xff then None else Some([OP_ADVANCE_LOC1] + ToBytes(d, 1))
    case AdvanceLoc2(d) => if d > 0xffff then None else Some([OP_ADVANCE_LOC2] + ToBytes(d, 2))
    case AdvanceLoc4(d) => if d > 0xffff_ffff then None else Some([OP_ADVANCE_LOC4] + ToBytes(d, 4))
    case Offset(reg, off) =>
      if !reg.Basic? || reg.index >= 128 then None
      else Some([OrOpcode(OP_OFFSET, reg.index)] + IntLeb(off))
    case OffsetExtended(reg, off) => Join(Some([OP_OFFSET_EXTENDED]), Join(EncodeReg(reg), Some(Uleb(off))))
    case OffsetExtendedSf(reg, off) =>
      Join(Some([OP_OFFSET_EXTENDED_SF]), Join(EncodeReg(reg), Some(Sleb(AsSigned(off)))))
    case Restore(num) => Some([OP_RESTORE + num % 64])
    case Undefined(reg) => Join(Some([OP_UNDEFINED]), EncodeReg(reg))
    case SameValue(reg) => if reg.Basic? then Some([OP_SAME_VALUE]) else None
    case Register(reg, reg2) => Join(Some([OP_REGISTER]), Join(EncodeReg(reg), EncodeReg(reg2)))
    case RememberState => Some([OP_REMEMBER_STATE])
    case RestoreState => Some([OP_RESTORE_STATE])
    case DefCfa(reg, off) => Join(Some([OP_DEF_CFA]), Join(EncodeReg(reg), Some(Uleb(off))))
    case DefCfaRegister(reg) => Join(Some([OP_DEF_CFA_REGISTER]), EncodeReg(reg))
    case DefCfaOffset(off) => Some([OP_DEF_CFA_OFFSET] + Uleb(off))
    case DefCfaOffsetSf(off) => Some([OP_DEF_CFA_OFFSET_SF] + Sleb(AsSigned(off)))
    case DefCfaExpression(e) => Join(Some([OP_DEF_CFA_EXPRESSION]), PrintBlock(e))
    case Expression(reg, e) => Join(Some([OP_EXPRESSION]), Join(EncodeReg(reg), PrintBlock(e)))
    case ValExpression(reg, e) => Join(Some([OP_VAL_EXPRESSION]), Join(EncodeReg(reg), PrintBlock(e)))
    case GnuArgsSize(size) => Some([OP_GNU_ARGS_SIZE] + Uleb(size))
    case Fixups(_, _, _) => None
    case FixupsPointer(_, _, _) => None
  }

  // ----- parsing -----

  /** An operand or instruction that was read, and the bytes behind it. */
  datatype Read<+T> = Read(value: T, rest: seq<byte>)

  function TakeReg(bs: seq<byte>): (r: Option<Read<Reg>>)
    ensures r.Some? ==> |r.value.rest| < |bs|
  {
    var (reg, n) :- ReadReg(bs);
    Some(Read(reg, bs[n..]))
  }

  /** Where a patch instruction is expected to name a patch register. */
  function TakePoReg(bs: seq<byte>): (r: Option<Read<Reg>>)
    ensures r.Some? ==> |r.value.rest| <= |bs|
  {
    if bs == [] || !IsPoRegType(bs[0]) then None else TakeReg(bs)
  }

  function TakeUnsigned(bs: seq<byte>, limit: nat): (r: Option<Read<word>>)
    requires limit in {4, 8}
    ensures r.Some? ==> |r.value.rest| <= |bs|
  {
    Base256Monotone(limit, 8);
    assert Base256(8) == WORD;
    var (v, n) :- ReadUnsigned(bs, limit);
    Some(Read(v, bs[n..]))
  }

  function TakeSigned(bs: seq<byte>, limit: nat): (r: Option<Read<word>>)
    requires limit in {4, 8}
    ensures r.Some? ==> |r.value.rest| <= |bs|
  {
    var (v, n) :- ReadSigned(bs, limit);
    Some(Read(v, bs[n..]))
  }

  function TakeFixed(bs: seq<byte>, n: nat): (r: Option<Read<word>>)
    requires n in {1, 4}
    ensures r.Some? ==> |r.value.rest| <= |bs|
  {
    if |bs| < n then None
    else
      UnsignedBelow(bs[..n]);
      Base256Monotone(n, 8);
      assert Base256(8) == WORD;
      Some(Read(Unsigned(bs[..n]), bs[n..]))
  }

  function TakeBlock(bs: seq<byte>): (r: Option<Read<seq<ExprInstr>>>)
    ensures r.Some? ==> |r.value.rest| <= |bs|
  {
    var n :- TakeUnsigned(bs, 4);
    if n.value > |n.rest| then None
    else
      var e :- ParseExpr(n.rest[..n.value]);
      Some(Read(e, n.rest[n.value..]))
  }

  /** parseFDEInstructions, one instruction: what it is and what is left of the
      bytes.  advance_loc2 looks at one of its two bytes; the second operand of
      offset_extended and offset_extended_sf is read but not skipped. */
  function Parse(bs: seq<byte>): (r: Option<Read<Instr>>)
    requires bs != []
    ensures r.Some? ==> |r.value.rest| < |bs|
  {
    var op, low, rest := bs[0], bs[0] % 64, bs[1..];
    if op >= OP_RESTORE then Some(Read(Restore(low), rest))
    else if op >= OP_OFFSET then
      var off :- TakeUnsigned(rest, 8);
      Some(Read(Offset(Basic(low), off.value), off.rest))
    else if op >= OP_ADVANCE_LOC then Some(Read(AdvanceLoc(low), rest))
    else match op
      case 0x00 => Some(Read(Nop, rest))
      case OP_SET_LOC =>
        var v :- TakeFixed(rest, 4);
        Some(Read(SetLoc(v.value), v.rest))
      case OP_ADVANCE_LOC1 =>
        var v :- TakeFixed(rest, 1);
        Some(Read(AdvanceLoc1(v.value), v.rest))
      case OP_ADVANCE_LOC2 =>
        if |rest| < 2 then None else Some(Read(AdvanceLoc2(rest[0]), rest[2..]))
      case OP_ADVANCE_LOC4 =>
        var v :- TakeFixed(rest, 4);
        Some(Read(AdvanceLoc4(v.value), v.rest))
      case OP_OFFSET_EXTENDED =>
        var r :- TakeReg(rest);
        var off :- TakeUnsigned(r.rest, 8);
        Some(Read(OffsetExtended(r.value, off.value), r.rest))
      case OP_OFFSET_EXTENDED_SF =>
        var r :- TakeReg(rest);
        var off :- TakeSigned(r.rest, 8);
        Some(Read(OffsetExtendedSf(r.value, off.value), r.rest))
      case OP_UNDEFINED =>
        var r :- TakeReg(rest);
        Some(Read(Undefined(r.value), r.rest))
      case OP_SAME_VALUE =>
        var r :- TakeReg(rest);
        Some(Read(SameValue(r.value), r.rest))
      case OP_REGISTER =>
        var r :- TakeReg(rest);
        var r2 :- TakeReg(r.rest);
        Some(Read(Register(r.value, r2.value), r2.rest))
      case OP_FIXUPS => ParseFixups(rest, false)
      case OP_FIXUPS_POINTER => ParseFixups(rest, true)
      case OP_DEF_CFA =>
        var r :- TakeReg(rest);
        var off :- TakeUnsigned(r.rest, 4);
        Some(Read(DefCfa(r.value, off.value), off.rest))
      case OP_DEF_CFA_REGISTER =>
        var r :- TakeReg(rest);
        Some(Read(DefCfaRegister(r.value), r.rest))
      case OP_DEF_CFA_OFFSET =>
        var off :- TakeUnsigned(rest, 4);
        Some(Read(DefCfaOffset(off.value), off.rest))
      case OP_GNU_ARGS_SIZE =>
        var off :- TakeUnsigned(rest, 4);
        Some(Read(GnuArgsSize(off.value), off.rest))
      case OP_DEF_CFA_OFFSET_SF =>
        var off :- TakeSigned(rest, 4);
        Some(Read(DefCfaOffsetSf(off.value), off.rest))
      case OP_REMEMBER_STATE => Some(Read(RememberState, rest))
      case OP_RESTORE_STATE => Some(Read(RestoreState, rest))
      case OP_EXPRESSION =>
        var r :- TakeReg(rest);
        var e :- TakeBlock(r.rest);
        Some(Read(Expression(r.value, e.value), e.rest))
      case OP_VAL_EXPRESSION =>
        var r :- TakeReg(rest);
        var e :- TakeBlock(r.rest);
        Some(Read(ValExpression(r.value, e.value), e.rest))
      case OP_DEF_CFA_EXPRESSION =>
        var e :- TakeBlock(rest);
        Some(Read(DefCfaExpression(e.value), e.rest))
      case _ => None
  }

  /** The operands of the two patch instructions. */
  function ParseFixups(rest: seq<byte>, pointer: bool): (r: Option<Read<Instr>>)
    ensures r.Some? ==> |r.value.rest| <= |rest|
  {
    var r :- TakePoReg(rest);
    var r2 :- TakePoReg(r.rest);
    var fde :- TakeUnsigned(r2.rest, 4);
    Some(Read(if pointer then FixupsPointer(r.value, r2.value, fde.value)
              else Fixups(r.value, r2.value, fde.value), fde.rest))
  }

  // ----- one instruction there and back -----

  predicate PlainReg(reg: Reg) { reg.Basic? && reg.index % 256 < PO_START }

  predicate GoodBlock(e: seq<ExprInstr>)
  {
    AllRoundTrip(e) && PrintExpr(e).Some? && |PrintExpr(e).value| < HALF_WORD
  }

  /** The instructions that come back as they were. */
  predicate RoundTrips(i: Instr)
  {
    match i
    case Nop => true
    case SetLoc(_) => false
    case AdvanceLoc(d) => d < 64
    case AdvanceLoc1(d) => d < 0x100
    case AdvanceLoc2(d) => d < 0x100
    case AdvanceLoc4(d) => d < HALF_WORD
    case Offset(reg, off) => reg.Basic? && reg.index < 64 && OffsetOperand(off)
    case OffsetExtended(_, _) => false
    case OffsetExtendedSf(_, _) => false
    case Restore(num) => num < 64
    case Undefined(reg) => PlainReg(reg)
    case SameValue(_) => false
    case Register(reg, reg2) => PlainReg(reg) && PlainReg(reg2)
    case RememberState => true
    case RestoreState => true
    case DefCfa(reg, off) => PlainReg(reg) && off < HALF_WORD
    case DefCfaRegister(reg) => PlainReg(reg)
    case DefCfaOffset(off) => off < HALF_WORD
    case DefCfaOffsetSf(off) => -0x800_0000 <= AsSigned(off) < 0x800_0000
    case DefCfaExpression(e) => GoodBlock(e)
    case Expression(reg, e) => PlainReg(reg) && GoodBlock(e)
    case ValExpression(reg, e) => PlainReg(reg) && GoodBlock(e)
    case GnuArgsSize(size) => size < HALF_WORD
    case Fixups(_, _, _) => false
    case FixupsPointer(_, _, _) => false
  }

  /** The factored offset of DW_CFA_offset goes through an int and, when that is
      negative, through the signed encoding, but is read unsigned.  Besides the
      non-negative ints this also happens to preserve the numbers whose five
      septets have the pattern of a negative int. */
  predicate OffsetOperand(off: word)
  {
    off < 0x8000_0000 || 0x7_8000_0000 <= off < 0x7_f800_0000
  }

  lemma TakeRegAt(reg: Reg, rest: seq<byte>)
    requires reg.Basic?
    ensures TakeReg(Uleb(reg.index) + rest) == if PlainReg(reg) then Some(Read(reg, rest)) else None
  {
    BasicRegIff(reg.index, rest);
    assert (Uleb(reg.index) + rest)[|Uleb(reg.index)|..] == rest;
  }

  lemma TakeUnsignedAt(v: word, limit: nat, rest: seq<byte>)
    requires limit in {4, 8}
    ensures TakeUnsigned(Uleb(v) + rest, limit) == if limit == 8 || v < HALF_WORD then Some(Read(v, rest)) else None
  {
    ReadUlebWord(v, rest);
    ReadUlebUInt(v, rest);
    assert (Uleb(v) + rest)[|Uleb(v)|..] == rest;
  }

  lemma TakeSignedAt(v: word, rest: seq<byte>)
    ensures TakeSigned(Sleb(AsSigned(v)) + rest, 4)
         == if -0x800_0000 <= AsSigned(v) < 0x800_0000 then Some(Read(v, rest)) else None
  {
    var s := AsSigned(v);
    ReadSlebIff(s, 4, rest);
    FourSeptets(s);
    PatternOfAsSigned(v);
    assert (Sleb(s) + rest)[|Sleb(s)|..] == rest;
  }

  lemma PatternOfAsSigned(v: word)
    ensures Pattern(AsSigned(v)) == v
  {
    DivModUnique(AsSigned(v), WORD, if v >= WORD / 2 then -1 else 0, v);
  }

  lemma TakeFixedAt(v: word, n: nat, rest: seq<byte>)
    requires n in {1, 4}
    ensures TakeFixed(ToBytes(v, n) + rest, n) == Some(Read(v % Base256(n), rest))
  {
    var bs := ToBytes(v, n);
    ToBytesValue(v, n);
    assert (bs + rest)[..n] == bs && (bs + rest)[n..] == rest;
  }

  lemma TakeBlockOf(data: seq<byte>, rest: seq<byte>)
    requires |data| < HALF_WORD
    ensures var r := TakeBlock(Uleb(|data|) + (data + rest));
            r == if ParseExpr(data).None? then None else Some(Read(ParseExpr(data).value, rest))
  {
    hide TakeUnsigned;
    TakeUnsignedAt(|data|, 4, data + rest);
    assert (data + rest)[..|data|] == data && (data + rest)[|data|..] == rest;
  }

  lemma TakeBlockAt(e: seq<ExprInstr>, rest: seq<byte>)
    ensures GoodBlock(e) ==> PrintBlock(e).Some?
    ensures PrintBlock(e).Some? ==>
              var r := TakeBlock(PrintBlock(e).value + rest);
              && (GoodBlock(e) <==> r.Some? && r.value.value == e)
              && (r.Some? ==> r.value.rest == rest)
  {
    hide ParseExpr; hide PrintExpr; hide AllRoundTrip; hide Uleb;
    hide TakeBlock; hide RoundTrips;
    ExprIff(e);
    if PrintBlock(e).Some? {
      var data := PrintExpr(e).value;
      TakeBlockOf(data, rest);
      assert PrintBlock(e).value + rest == Uleb(|data|) + (data + rest);
    }
  }

  /** off as an int is negative and its encoding, read unsigned, is off again. */
  lemma OffsetOperandAt(off: word, rest: seq<byte>)
    ensures OffsetOperand(off) <==> TakeUnsigned(IntLeb(off) + rest, 8) == Some(Read(off, rest))
  {
    var v := AsInt(off);
    if v >= 0 {
      TakeUnsignedAt(v, 8, rest);
      if off < HALF_WORD { SmallMod(off, HALF_WORD); }
      if 0x7_8000_0000 <= off < 0x7_f800_0000 { DivModUnique(off, HALF_WORD, 7, off - 0x7_0000_0000); }
    } else {
      NegativeIntLeb(v, rest);
      NegativeIntRange(off);
    }
  }

  /** A negative int in the signed encoding, read as an unsigned number. */
  lemma NegativeIntLeb(v: int, rest: seq<byte>)
    requires -(HALF_WORD / 2) <= v < 0
    ensures var u := Value(Sleb(v), false);
            && 0 <= u < WORD && TakeUnsigned(Sleb(v) + rest, 8) == Some(Read(u, rest))
            && (if v < -0x800_0000 then u == v + 0x8_0000_0000 else u < 0x1000_0000)
  {
    NegativeIntValue(v);
    UnsignedReading(Sleb(v), rest);
  }

  lemma NegativeIntValue(v: int)
    requires -(HALF_WORD / 2) <= v < 0
    ensures var u := Value(Sleb(v), false);
            u >= 0 && (if v < -0x800_0000 then u == v + 0x8_0000_0000 else u < 0x1000_0000)
    ensures |Sleb(v)| <= 5
  {
    var leb := Sleb(v);
    SlebValue(v);
    ValueSign(leb, true);
    SignedOfUnsignedForm(leb);
    PowersOfTwo();
    SlebLength(v, 5);
    FourSeptets(v);
    Pow2Strict(7 * |leb|, 28);
  }

  lemma UnsignedReading(leb: seq<byte>, rest: seq<byte>)
    requires WellFormed(leb) && |leb| <= 9
    ensures 0 <= Value(leb, false) < WORD
    ensures TakeUnsigned(leb + rest, 8) == Some(Read(Value(leb, false), rest))
  {
    LengthOfEncoding(leb, rest);
    assert (leb + rest)[..|leb|] == leb && (leb + rest)[|leb|..] == rest;
    DecodedValue(leb, false);
    var bs := Decoded(leb, false);
    assert |bs| <= 8;
    UnsignedBelow(bs);
    Base256Monotone(|bs|, 8);
    assert Base256(8) == WORD;
  }

  lemma PowersOfTwo()
    ensures Pow2(28) == 0x1000_0000 && Pow2(34) == 0x4_0000_0000 && Pow2(35) == 0x8_0000_0000
  {
    assert Pow2(10) == 1024 && Pow2(8) == 256;
    Pow2Add(10, 10);
    Pow2Add(20, 8);
    Pow2Add(28, 6);
    assert Pow2(6) == 64;
  }

  lemma NegativeIntRange(off: word)
    requires AsInt(off) < 0
    ensures OffsetOperand(off) <==> AsInt(off) < -0x800_0000 && off == AsInt(off) + 0x8_0000_0000
    ensures off >= 0x8000_0000
  {
    var q := off / HALF_WORD;
    assert off == HALF_WORD * q + off % HALF_WORD;
  }

  /** The bytes behind the opcode. */
  lemma Operands(op: byte, a: seq<byte>, b: seq<byte>, rest: seq<byte>)
    ensures ([op] + rest)[1..] == rest
    ensures ([op] + a + rest)[1..] == a + rest
    ensures ([op] + (a + b) + rest)[1..] == a + (b + rest)
  {
  }

  lemma FixedInstr(op: byte, d: word, n: nat, rest: seq<byte>)
    requires (op == OP_ADVANCE_LOC1 && n == 1) || (op == OP_ADVANCE_LOC4 && n == 4)
    ensures Parse([op] + ToBytes(d, n) + rest)
         == Some(Read(if n == 1 then AdvanceLoc1(d % 0x100) else AdvanceLoc4(d % HALF_WORD), rest))
  {
    hide TakeReg; hide TakePoReg; hide TakeUnsigned; hide TakeSigned; hide TakeFixed; hide TakeBlock;
    Operands(op, ToBytes(d, n), [], rest);
    TakeFixedAt(d, n, rest);
    assert Base256(1) == 0x100 && Base256(4) == HALF_WORD;
  }

  lemma AdvanceLoc2At(d: word, rest: seq<byte>)
    ensures Parse([OP_ADVANCE_LOC2] + ToBytes(d, 2) + rest) == Some(Read(AdvanceLoc2(d % 0x100), rest))
  {
    hide TakeReg; hide TakePoReg; hide TakeUnsigned; hide TakeSigned; hide TakeFixed; hide TakeBlock;
    var bs := ToBytes(d, 2);
    Operands(OP_ADVANCE_LOC2, bs, [], rest);
    assert bs[0] == d % 256 && (bs + rest)[2..] == rest;
  }

  lemma OffsetIff(index: u32, off: word, rest: seq<byte>)
    requires index < 128
    ensures Parse([OrOpcode(OP_OFFSET, index)] + IntLeb(off) + rest) == Some(Read(Offset(Basic(index), off), rest))
       <==> index < 64 && OffsetOperand(off)
  {
    hide OffsetOperand; hide IntLeb;
    hide TakeReg; hide TakePoReg; hide TakeUnsigned; hide TakeSigned; hide TakeFixed; hide TakeBlock;
    Operands(OrOpcode(OP_OFFSET, index), IntLeb(off), [], rest);
    OffsetOperandAt(off, rest);
  }

  lemma RegInstr(op: byte, reg: Reg, rest: seq<byte>)
    requires op in {OP_UNDEFINED, OP_DEF_CFA_REGISTER} && reg.Basic?
    ensures Parse([op] + Uleb(reg.index) + rest)
         == if !PlainReg(reg) then None
            else Some(Read(if op == OP_UNDEFINED then Undefined(reg) else DefCfaRegister(reg), rest))
  {
    hide TakeReg; hide TakePoReg; hide TakeUnsigned; hide TakeSigned; hide TakeFixed; hide TakeBlock;
    Operands(op, Uleb(reg.index), [], rest);
    TakeRegAt(reg, rest);
  }

  lemma TwoRegInstr(reg: Reg, reg2: Reg, rest: seq<byte>)
    requires reg.Basic? && reg2.Basic?
    ensures Parse([OP_REGISTER] + (Uleb(reg.index) + Uleb(reg2.index)) + rest)
         == if PlainReg(reg) && PlainReg(reg2) then Some(Read(Register(reg, reg2), rest)) else None
  {
    hide TakeReg; hide TakePoReg; hide TakeUnsigned; hide TakeSigned; hide TakeFixed; hide TakeBlock;
    Operands(OP_REGISTER, Uleb(reg.index), Uleb(reg2.index), rest);
    TakeRegAt(reg, Uleb(reg2.index) + rest);
    TakeRegAt(reg2, rest);
  }

  lemma DefCfaAt(reg: Reg, off: word, rest: seq<byte>)
    requires reg.Basic?
    ensures Parse([OP_DEF_CFA] + (Uleb(reg.index) + Uleb(off)) + rest)
         == if PlainReg(reg) && off < HALF_WORD then Some(Read(DefCfa(reg, off), rest)) else None
  {
    hide TakeReg; hide TakePoReg; hide TakeUnsigned; hide TakeSigned; hide TakeFixed; hide TakeBlock;
    Operands(OP_DEF_CFA, Uleb(reg.index), Uleb(off), rest);
    TakeRegAt(reg, Uleb(off) + rest);
    TakeUnsignedAt(off, 4, rest);
  }

  lemma UnsignedInstr(op: byte, v: word, rest: seq<byte>)
    requires op in {OP_DEF_CFA_OFFSET, OP_GNU_ARGS_SIZE}
    ensures Parse([op] + Uleb(v) + rest)
         == if v >= HALF_WORD then None
            else Some(Read(if op == OP_DEF_CFA_OFFSET then DefCfaOffset(v) else GnuArgsSize(v), rest))
  {
    hide TakeReg; hide TakePoReg; hide TakeUnsigned; hide TakeSigned; hide TakeFixed; hide TakeBlock;
    Operands(op, Uleb(v), [], rest);
    TakeUnsignedAt(v, 4, rest);
  }

  lemma SignedInstr(off: word, rest: seq<byte>)
    ensures Parse([OP_DEF_CFA_OFFSET_SF] + Sleb(AsSigned(off)) + rest)
         == if -0x800_0000 <= AsSigned(off) < 0x800_0000 then Some(Read(DefCfaOffsetSf(off), rest)) else None
  {
    hide TakeReg; hide TakePoReg; hide TakeUnsigned; hide TakeSigned; hide TakeFixed; hide TakeBlock;
    Operands(OP_DEF_CFA_OFFSET_SF, Sleb(AsSigned(off)), [], rest);
    TakeSignedAt(off, rest);
  }

  /** The parser stands in front of the offset again, not behind it. */
  lemma OffsetExtendedFails(op: byte, reg: Reg, leb: seq<byte>, i: Instr, rest: seq<byte>)
    requires op in {OP_OFFSET_EXTENDED, OP_OFFSET_EXTENDED_SF} && reg.Basic? && |leb| > 0
    ensures Parse([op] + (Uleb(reg.index) + leb) + rest) != Some(Read(i, rest))
  {
    hide TakeReg; hide TakePoReg; hide TakeUnsigned; hide TakeSigned; hide TakeFixed; hide TakeBlock;
    Operands(op, Uleb(reg.index), leb, rest);
    TakeRegAt(reg, leb + rest);
    assert |leb + rest| != |rest|;
  }

  /** The parser takes a register out of what follows. */
  lemma SameValueFails(reg: Reg, rest: seq<byte>)
    ensures Parse([OP_SAME_VALUE] + rest) != Some(Read(SameValue(reg), rest))
  {
    hide TakeReg; hide TakePoReg; hide TakeUnsigned; hide TakeSigned; hide TakeFixed; hide TakeBlock;
    Operands(OP_SAME_VALUE, [], [], rest);
  }

  lemma BlockInstr(e: seq<ExprInstr>, rest: seq<byte>)
    ensures GoodBlock(e) ==> PrintBlock(e).Some?
    ensures PrintBlock(e).Some? ==>
              (GoodBlock(e) <==>
               Parse([OP_DEF_CFA_EXPRESSION] + PrintBlock(e).value + rest) == Some(Read(DefCfaExpression(e), rest)))
  {
    hide TakeReg; hide TakePoReg; hide TakeUnsigned; hide TakeSigned; hide TakeFixed; hide TakeBlock;
    TakeBlockAt(e, rest);
    if PrintBlock(e).Some? { Operands(OP_DEF_CFA_EXPRESSION, PrintBlock(e).value, [], rest); }
  }

  lemma RegBlockInstr(val: bool, reg: Reg, e: seq<ExprInstr>, rest: seq<byte>)
    requires reg.Basic?
    ensures GoodBlock(e) ==> PrintBlock(e).Some?
    ensures PrintBlock(e).Some? ==>
              var op := if val then OP_VAL_EXPRESSION else OP_EXPRESSION;
              var i := if val then ValExpression(reg, e) else Expression(reg, e);
              (PlainReg(reg) && GoodBlock(e) <==>
               Parse([op] + (Uleb(reg.index) + PrintBlock(e).value) + rest) == Some(Read(i, rest)))
  {
    hide TakeReg; hide TakePoReg; hide TakeUnsigned; hide TakeSigned; hide TakeFixed; hide TakeBlock;
    TakeBlockAt(e, rest);
    if PrintBlock(e).Some? {
      var block := PrintBlock(e).value;
      Operands(if val then OP_VAL_EXPRESSION else OP_EXPRESSION, Uleb(reg.index), block, rest);
      TakeRegAt(reg, block + rest);
    }
  }

  predicate NamesRegister(i: Instr)
  {
    match i
    case Offset(_, _) => true
    case OffsetExtended(_, _) => true
    case OffsetExtendedSf(_, _) => true
    case SameValue(_) => true
    case Undefined(_) => true
    case DefCfaRegister(_) => true
    case Register(_, _) => true
    case DefCfa(_, _) => true
    case Expression(_, _) => true
    case ValExpression(_, _) => true
    case _ => false
  }

  lemma RegisterIff(i: Instr, rest: seq<byte>)
    requires NamesRegister(i)
    ensures RoundTrips(i) <==>
            Print(i).Some? && |Print(i).value| > 0 && Parse(Print(i).value + rest) == Some(Read(i, rest))
  {
    hide PrintBlock; hide GoodBlock; hide OffsetOperand; hide IntLeb; hide Uleb; hide Sleb; hide ToBytes; hide AsSigned;
    hide Parse;
    match i {
      case Offset(reg, off) => if reg.Basic? && reg.index < 128 { OffsetIff(reg.index, off, rest); }
      case OffsetExtended(reg, off) =>
        if reg.Basic? { OffsetExtendedFails(OP_OFFSET_EXTENDED, reg, Uleb(off), i, rest); }
      case OffsetExtendedSf(reg, off) =>
        if reg.Basic? { OffsetExtendedFails(OP_OFFSET_EXTENDED_SF, reg, Sleb(AsSigned(off)), i, rest); }
      case SameValue(reg) => SameValueFails(reg, rest);
      case Undefined(reg) => if reg.Basic? { RegInstr(OP_UNDEFINED, reg, rest); }
      case DefCfaRegister(reg) => if reg.Basic? { RegInstr(OP_DEF_CFA_REGISTER, reg, rest); }
      case Register(reg, reg2) => if reg.Basic? && reg2.Basic? { TwoRegInstr(reg, reg2, rest); }
      case DefCfa(reg, off) => if reg.Basic? { DefCfaAt(reg, off, rest); }
      case Expression(reg, e) => if reg.Basic? { RegBlockInstr(false, reg, e, rest); }
      case ValExpression(reg, e) => if reg.Basic? { RegBlockInstr(true, reg, e, rest); }
    }
  }

  /** The main result for a single instruction: printing it and parsing the front
      of the stream gives it back, and consumes exactly what was printed, exactly
      when RoundTrips says so -- whatever follows in the stream. */
  lemma InstrIff(i: Instr, rest: seq<byte>)
    ensures RoundTrips(i) <==>
            Print(i).Some? && |Print(i).value| > 0 && Parse(Print(i).value + rest) == Some(Read(i, rest))
  {
    hide PrintBlock; hide GoodBlock; hide OffsetOperand; hide IntLeb; hide Uleb; hide Sleb; hide ToBytes; hide AsSigned;
    hide Parse;
    if NamesRegister(i) {
      hide Print; hide RoundTrips;
      RegisterIff(i, rest);
    } else {
      match i {
        case AdvanceLoc1(d) => FixedInstr(OP_ADVANCE_LOC1, d, 1, rest);
        case AdvanceLoc2(d) => AdvanceLoc2At(d, rest);
        case AdvanceLoc4(d) => FixedInstr(OP_ADVANCE_LOC4, d, 4, rest);
        case DefCfaOffset(off) => UnsignedInstr(OP_DEF_CFA_OFFSET, off, rest);
        case GnuArgsSize(size) => UnsignedInstr(OP_GNU_ARGS_SIZE, size, rest);
        case DefCfaOffsetSf(off) => SignedInstr(off, rest);
        case DefCfaExpression(e) => BlockInstr(e, rest);
        case AdvanceLoc(d) => AdvanceLocAt(d, rest);
        case Restore(num) => NoOperandInstrs(num, rest);
        case RememberState => NoOperandInstrs(0, rest);
        case RestoreState => NoOperandInstrs(0, rest);
        case Nop => NoOperandInstrs(0, rest);
        case SetLoc(_) =>
        case Fixups(_, _, _) =>
        case FixupsPointer(_, _, _) =>
      }
    }
  }

  lemma NoOperandInstrs(num: nat, rest: seq<byte>)
    ensures Parse([OP_RESTORE + num % 64] + rest) == Some(Read(Restore(num % 64), rest))
    ensures Parse([OP_REMEMBER_STATE] + rest) == Some(Read(RememberState, rest))
    ensures Parse([OP_RESTORE_STATE] + rest) == Some(Read(RestoreState, rest))
    ensures Parse([0] + rest) == Some(Read(Nop, rest))
  {
    hide TakeReg; hide TakePoReg; hide TakeUnsigned; hide TakeSigned; hide TakeFixed; hide TakeBlock;
    Operands(OP_RESTORE + num % 64, [], [], rest);
    Operands(OP_REMEMBER_STATE, [], [], rest);
    Operands(OP_RESTORE_STATE, [], [], rest);
    Operands(0, [], [], rest);
  }

  lemma AdvanceLocAt(d: word, rest: seq<byte>)
    ensures d <= 0xc0 ==>
              (d < 64 <==> Parse([OrOpcode(OP_ADVANCE_LOC, d)] + rest) == Some(Read(AdvanceLoc(d), rest)))
  {
    hide TakeReg; hide TakePoReg; hide TakeUnsigned; hide TakeSigned; hide TakeFixed; hide TakeBlock;
    if d <= 0xc0 { assert ([OrOpcode(OP_ADVANCE_LOC, d)] + rest)[1..] == rest; }
  }

  // ----- programs -----

  /** serializeDwarfRegInstructions. */
  function PrintProgram(p: seq<Instr>): Option<seq<byte>>
  {
    if p == [] then Some([])
    else
      var first :- Print(p[0]);
      Prefixed(first, PrintProgram(p[1..]))
  }

  /** parseFDEInstructions: nops leave no trace. */
  function ParseProgram(bs: seq<byte>): Option<seq<Instr>>
    decreases |bs|
  {
    if bs == [] then Some([])
    else
      var i :- Parse(bs);
      Prefixed(if i.value.Nop? then [] else [i.value], ParseProgram(i.rest))
  }

  function WithoutNops(p: seq<Instr>): seq<Instr>
  {
    if p == [] then [] else (if p[0].Nop? then [] else [p[0]]) + WithoutNops(p[1..])
  }

  function Nops(n: nat): (bs: seq<byte>) { seq(n, _ => 0) }

  lemma {:induction false} ParseNops(n: nat)
    ensures ParseProgram(Nops(n)) == Some([])
  {
    if n > 0 {
      ParseNops(n - 1);
      NoOperandInstrs(0, Nops(n - 1));
      assert Nops(n) == [0] + Nops(n - 1);
      PrefixedAppend([], [], ParseProgram(Nops(n - 1)));
    }
  }

  /** The main result for programs: parsing what was printed, padded with any
      number of nop bytes, gives the program without its nops. */
  lemma {:induction false} ProgramRoundTrip(p: seq<Instr>, padding: nat)
    requires forall i :: i in p ==> RoundTrips(i)
    ensures PrintProgram(p).Some?
    ensures ParseProgram(PrintProgram(p).value + Nops(padding)) == Some(WithoutNops(p))
  {
    hide Parse; hide Print; hide RoundTrips;
    if p == [] {
      ParseNops(padding);
      assert [] + Nops(padding) == Nops(padding);
    } else {
      ProgramRoundTrip(p[1..], padding);
      var others := PrintProgram(p[1..]).value + Nops(padding);
      InstrIff(p[0], others);
      assert PrintProgram(p).value + Nops(padding) == Print(p[0]).value + others;
    }
  }

  method SerializeDwarfRegInstructions(p: seq<Instr>) returns (result: Option<seq<byte>>)
    ensures result == PrintProgram(p)
  {
    var instrs, i := [], 0;
    assert p[0..] == p;
    PrefixedAppend([], [], PrintProgram(p));
    while i < |p|
      invariant 0 <= i <= |p|
      invariant PrintProgram(p) == Prefixed(instrs, PrintProgram(p[i..]))
    {
      hide Print;
      var bytes := Print(p[i]);
      assert p[i..][1..] == p[i + 1..];
      if bytes.None? { return None; }
      PrefixedAppend(instrs, bytes.value, PrintProgram(p[i + 1..]));
      instrs := instrs + bytes.value;
      i := i + 1;
    }
    assert instrs + [] == instrs;
    return Some(instrs);
  }

  method ParseFDEInstructions(bytes: seq<byte>) returns (result: Option<seq<Instr>>)
    ensures result == ParseProgram(bytes)
  {
    var instrs, rest := [], bytes;
    PrefixedAppend([], [], ParseProgram(bytes));
    while rest != []
      invariant ParseProgram(bytes) == Prefixed(instrs, ParseProgram(rest))
      decreases |rest|
    {
      hide Parse;
      var i := Parse(rest);
      if i.None? { return None; }
      var kept := if i.value.value.Nop? then [] else [i.value.value];
      PrefixedAppend(instrs, kept, ParseProgram(i.value.rest));
      instrs := instrs + kept;
      rest := i.value.rest;
    }
    assert instrs + [] == instrs;
    return Some(instrs);
  }
}
