/** The byte formats of call frame instructions (section 7.23 of DWARF version 4) and of expressions (section
    7.7.1), with the numbers of the standard, against the printer (dwarf_instr.c) and the parsers (fderead.c). */
module Opcodes {
  import opened Bytes
  import opened Leb
  import opened LebWords
  import opened Registers
  import opened Expressions
  import opened Cfa

  // ----- call frame instructions: what the parser makes of bytes -----

  /** The three opcodes with an operand in their low six bits. */
  lemma HighOpcodes(low: byte, off: word, rest: seq<byte>)
    requires low < 64
    ensures Parse([0x40 + low] + rest) == Some(Read(AdvanceLoc(low), rest))
    ensures Parse([0x80 + low] + Uleb(off) + rest) == Some(Read(Offset(Basic(low), off), rest))
    ensures Parse([0xc0 + low] + rest) == Some(Read(Restore(low), rest))
  {
    hide TakeReg, TakePoReg, TakeUnsigned, TakeSigned, TakeFixed, TakeBlock, Uleb;
    TakeUnsignedAt(off, 8, rest);
    Operands(0x40 + low, [], [], rest);
    Operands(0x80 + low, Uleb(off), [], rest);
    Operands(0xc0 + low, [], [], rest);
  }

  /** nop, remember_state and restore_state. */
  lemma NoOperands(rest: seq<byte>)
    ensures Parse([0x00] + rest) == Some(Read(Nop, rest))
    ensures Parse([0x0a] + rest) == Some(Read(RememberState, rest))
    ensures Parse([0x0b] + rest) == Some(Read(RestoreState, rest))
  {
    NoOperandInstrs(0, rest);
  }

  /** set_loc with four bytes, and advance_loc1, 2 and 4.  Of the two bytes of advance_loc2 only the low one
      is looked at. */
  lemma Locations(v: word, a: byte, b: byte, rest: seq<byte>)
    ensures Parse([0x01] + ToBytes(v, 4) + rest) == Some(Read(SetLoc(v % HALF_WORD), rest))
    ensures Parse([0x02] + [a] + rest) == Some(Read(AdvanceLoc1(a), rest))
    ensures Parse([0x03] + [a, b] + rest) == Some(Read(AdvanceLoc2(a), rest))
    ensures Parse([0x04] + ToBytes(v, 4) + rest) == Some(Read(AdvanceLoc4(v % HALF_WORD), rest))
  {
    hide TakeReg, TakePoReg, TakeUnsigned, TakeSigned, TakeFixed, TakeBlock;
    TakeFixedAt(v, 4, rest);
    TakeByte(a, rest);
    assert Base256(4) == HALF_WORD;
    Operands(0x01, ToBytes(v, 4), [], rest);
    Operands(0x02, [a], [], rest);
    Operands(0x03, [a, b], [], rest);
    Operands(0x04, ToBytes(v, 4), [], rest);
    assert ([a, b] + rest)[2..] == rest && ([a, b] + rest)[0] == a;
  }

  lemma TakeByte(a: byte, rest: seq<byte>)
    ensures TakeFixed([a] + rest, 1) == Some(Read(a, rest))
  {
    assert ([a] + rest)[..1] == [a] && ([a] + rest)[1..] == rest;
    assert [a][1..] == [];
    assert FoldBytes([], 0) == 0 && Unsigned([a]) == a;
  }

  /** undefined, same_value, def_cfa_register, and the two registers of register. */
  lemma RegisterOperands(r: Reg, r2: Reg, rest: seq<byte>)
    requires PlainReg(r) && PlainReg(r2)
    ensures Parse([0x07] + Uleb(r.index) + rest) == Some(Read(Undefined(r), rest))
    ensures Parse([0x08] + Uleb(r.index) + rest) == Some(Read(SameValue(r), rest))
    ensures Parse([0x0d] + Uleb(r.index) + rest) == Some(Read(DefCfaRegister(r), rest))
    ensures Parse([0x09] + (Uleb(r.index) + Uleb(r2.index)) + rest) == Some(Read(Register(r, r2), rest))
  {
    hide TakeReg, TakePoReg, TakeUnsigned, TakeSigned, TakeFixed, TakeBlock, Uleb;
    TakeRegAt(r, rest);
    TakeRegAt(r, Uleb(r2.index) + rest);
    TakeRegAt(r2, rest);
    Operands(0x07, Uleb(r.index), [], rest);
    Operands(0x08, Uleb(r.index), [], rest);
    Operands(0x0d, Uleb(r.index), [], rest);
    Operands(0x09, Uleb(r.index), Uleb(r2.index), rest);
  }

  /** def_cfa; and offset_extended, whose second operand is read but not skipped. */
  lemma RegisterAndOffset(r: Reg, off: word, rest: seq<byte>)
    requires PlainReg(r)
    ensures off < HALF_WORD ==> Parse([0x0c] + (Uleb(r.index) + Uleb(off)) + rest) == Some(Read(DefCfa(r, off), rest))
    ensures Parse([0x05] + (Uleb(r.index) + Uleb(off)) + rest) == Some(Read(OffsetExtended(r, off), Uleb(off) + rest))
  {
    hide TakeReg, TakePoReg, TakeUnsigned, TakeSigned, TakeFixed, TakeBlock, Uleb;
    TakeRegAt(r, Uleb(off) + rest);
    TakeUnsignedAt(off, 4, rest);
    TakeUnsignedAt(off, 8, rest);
    Operands(0x0c, Uleb(r.index), Uleb(off), rest);
    Operands(0x05, Uleb(r.index), Uleb(off), rest);
  }

  /** offset_extended_sf: its signed operand is read if it has at most four septets or nine, and not skipped. */
  lemma RegisterAndSignedOffset(r: Reg, off: word, rest: seq<byte>)
    requires PlainReg(r)
    ensures var leb := Sleb(AsSigned(off));
      |leb| <= 4 || |leb| == 9 ==>
        Parse([0x11] + (Uleb(r.index) + leb) + rest) == Some(Read(OffsetExtendedSf(r, off), leb + rest))
  {
    var leb := Sleb(AsSigned(off));
    hide TakeReg, TakePoReg, TakeUnsigned, TakeFixed, TakeBlock, Uleb, Sleb, ReadSigned;
    TakeRegAt(r, leb + rest);
    ReadSlebIff(AsSigned(off), 8, rest);
    PatternOfAsSigned(off);
    Operands(0x11, Uleb(r.index), leb, rest);
  }

  /** def_cfa_offset, GNU_args_size and def_cfa_offset_sf. */
  lemma OffsetOperands(off: word, rest: seq<byte>)
    ensures off < HALF_WORD ==> Parse([0x0e] + Uleb(off) + rest) == Some(Read(DefCfaOffset(off), rest))
    ensures off < HALF_WORD ==> Parse([0x2e] + Uleb(off) + rest) == Some(Read(GnuArgsSize(off), rest))
    ensures -0x800_0000 <= AsSigned(off) < 0x800_0000 ==>
              Parse([0x13] + Sleb(AsSigned(off)) + rest) == Some(Read(DefCfaOffsetSf(off), rest))
  {
    hide TakeReg, TakePoReg, TakeUnsigned, TakeSigned, TakeFixed, TakeBlock, Uleb, Sleb;
    TakeUnsignedAt(off, 4, rest);
    TakeSignedAt(off, rest);
    Operands(0x0e, Uleb(off), [], rest);
    Operands(0x2e, Uleb(off), [], rest);
    Operands(0x13, Sleb(AsSigned(off)), [], rest);
  }

  /** def_cfa_expression, expression and val_expression: the expression is what its bytes are read as. */
  lemma BlockOperands(r: Reg, data: seq<byte>, e: seq<ExprInstr>, rest: seq<byte>)
    requires PlainReg(r) && |data| < HALF_WORD && ParseExpr(data) == Some(e)
    ensures Parse([0x0f] + (Uleb(|data|) + data) + rest) == Some(Read(DefCfaExpression(e), rest))
    ensures Parse([0x10] + (Uleb(r.index) + (Uleb(|data|) + data)) + rest) == Some(Read(Expression(r, e), rest))
    ensures Parse([0x16] + (Uleb(r.index) + (Uleb(|data|) + data)) + rest) == Some(Read(ValExpression(r, e), rest))
  {
    hide Parse, TakeReg, TakeBlock, Uleb, ParseExpr;
    var block := Uleb(|data|) + data;
    assert block + rest == Uleb(|data|) + (data + rest);
    TakeBlockOf(data, rest);
    TakeRegAt(r, block + rest);
    Operands(0x0f, block, [], rest);
    Operands(0x10, Uleb(r.index), block, rest);
    Operands(0x16, Uleb(r.index), block, rest);
    BlockDispatch([0x0f] + block + rest);
    BlockDispatch([0x10] + (Uleb(r.index) + block) + rest);
    BlockDispatch([0x16] + (Uleb(r.index) + block) + rest);
  }

  /** The three opcodes with an expression. */
  lemma BlockDispatch(bs: seq<byte>)
    requires bs != []
    ensures bs[0] == 0x0f && TakeBlock(bs[1..]).Some? ==>
              var e := TakeBlock(bs[1..]).value; Parse(bs) == Some(Read(DefCfaExpression(e.value), e.rest))
    ensures bs[0] in {0x10, 0x16} && TakeReg(bs[1..]).Some? && TakeBlock(TakeReg(bs[1..]).value.rest).Some? ==>
              var r := TakeReg(bs[1..]).value;
              var e := TakeBlock(r.rest).value;
              Parse(bs) == Some(Read(if bs[0] == 0x10 then Expression(r.value, e.value) else ValExpression(r.value, e.value), e.rest))
  {
    hide TakeReg, TakePoReg, TakeUnsigned, TakeSigned, TakeFixed, TakeBlock;
  }

  /** The two instructions of patches, in the range left to users, with registers of the patch target: the tag
      0xf1 for the new object and 0xf2 for the old one, a size, and an offset where there is one. */
  lemma PatchInstructions(size: u32, offset: Option<u32>, size2: u32, offset2: Option<u32>, fde: word, rest: seq<byte>)
    requires fde < HALF_WORD
    ensures var (a, b) := (Unoptimized([0xf1] + ToBytes(size, 4) + Tail(offset)), Unoptimized([0xf2] + ToBytes(size2, 4) + Tail(offset2)));
      var (r, r2) := (CurrTargNew(size, Else0(offset)), CurrTargOld(size2, Else0(offset2)));
      && Parse([0x21] + (a + (b + (Uleb(fde) + rest)))) == Some(Read(Fixups(r, r2, fde), rest))
      && Parse([0x22] + (a + (b + (Uleb(fde) + rest)))) == Some(Read(FixupsPointer(r, r2, fde), rest))
  {
    var (x, y) := (PatchRegBytes(0xf1, size, offset), PatchRegBytes(0xf2, size2, offset2));
    assert x == [0xf1] + ToBytes(size, 4) + Tail(offset) && y == [0xf2] + ToBytes(size2, 4) + Tail(offset2);
    var (a, b) := (Unoptimized(x), Unoptimized(y));
    var all := a + (b + (Uleb(fde) + rest));
    hide *;
    TakePatchRegister(0xf1, size, offset, b + (Uleb(fde) + rest));
    TakePatchRegister(0xf2, size2, offset2, Uleb(fde) + rest);
    TakeUnsignedAt(fde, 4, rest);
    PatchDispatch(all);
    PatchOperands(all, Read(CurrTargNew(size, Else0(offset)), b + (Uleb(fde) + rest)),
                  Read(CurrTargOld(size2, Else0(offset2)), Uleb(fde) + rest), Read(fde, rest));
  }

  lemma PatchDispatch(rest: seq<byte>)
    ensures Parse([0x21] + rest) == ParseFixups(rest, false) && Parse([0x22] + rest) == ParseFixups(rest, true)
  {
    hide TakeReg, TakePoReg, TakeUnsigned, TakeSigned, TakeFixed, TakeBlock, ParseFixups;
    assert ([0x21] + rest)[1..] == rest && ([0x22] + rest)[1..] == rest;
  }

  lemma PatchOperands(bs: seq<byte>, r: Read<Reg>, r2: Read<Reg>, fde: Read<word>)
    requires TakePoReg(bs) == Some(r) && TakePoReg(r.rest) == Some(r2) && TakeUnsigned(r2.rest, 4) == Some(fde)
    ensures ParseFixups(bs, false) == Some(Read(Fixups(r.value, r2.value, fde.value), fde.rest))
    ensures ParseFixups(bs, true) == Some(Read(FixupsPointer(r.value, r2.value, fde.value), fde.rest))
  {
    hide TakePoReg, TakeUnsigned;
  }

  /** The other registers of patches: expressions, and symbol values of the old and the new binary.  0xf0 and
      0xf6 and up are no registers. */
  lemma PatchRegisterTags(tag: byte, v: u32, rest: seq<byte>)
    requires tag >= 0xf0
    ensures var leb := Unoptimized([tag] + ToBytes(v, 4));
      && (tag == 0xf3 ==> ReadReg(leb + rest) == Some((Expr(v), |leb|)))
      && (tag == 0xf4 ==> ReadReg(leb + rest) == Some((OldSymVal(v), |leb|)))
      && (tag == 0xf5 ==> ReadReg(leb + rest) == Some((NewSymVal(v), |leb|)))
      && (tag == 0xf0 || tag >= 0xf6 ==> ReadReg(leb + rest) == None)
    ensures IsPoRegType(tag) <==> 0xf1 <= tag <= 0xf6
  {
    var bs := [tag] + ToBytes(v, 4);
    U32Field([tag], v, []);
    assert bs + [] == bs;
    hide U32At, ToBytes;
    UnoptimizedDecodes(bs);
    ReadRegAt(Unoptimized(bs), rest);
  }

  function Tail(offset: Option<u32>): seq<byte> { if offset.Some? then ToBytes(offset.value, 4) else [] }

  function Else0(offset: Option<u32>): u32 { if offset.Some? then offset.value else 0 }

  lemma TakePatchRegister(tag: byte, size: u32, offset: Option<u32>, rest: seq<byte>)
    requires tag == 0xf1 || tag == 0xf2
    ensures TakePoReg(Unoptimized(PatchRegBytes(tag, size, offset)) + rest)
         == Some(Read(if tag == 0xf1 then CurrTargNew(size, Else0(offset)) else CurrTargOld(size, Else0(offset)), rest))
  {
    var leb := Unoptimized(PatchRegBytes(tag, size, offset));
    hide Unoptimized, ReadReg, PatchRegBytes;
    PatchRegRoundTrip(tag, size, offset, rest);
    assert (leb + rest)[|leb|..] == rest;
  }

  /** restore_extended, def_cfa_sf, val_offset and val_offset_sf are not supported, nor is any other opcode. */
  lemma UnknownOpcodes(op: byte, rest: seq<byte>)
    requires op < 0x40
    requires op in {0x06, 0x12, 0x14, 0x15} || 0x17 <= op <= 0x20 || 0x23 <= op <= 0x2d || op >= 0x2f
    ensures Parse([op] + rest) == None
  {
    hide TakeReg, TakePoReg, TakeUnsigned, TakeSigned, TakeFixed, TakeBlock, ParseFixups;
  }

  // ----- call frame instructions: what the printer writes -----

  /** The opcode that an instruction is printed with. */
  lemma PrintedOpcode(i: Instr)
    requires Print(i).Some?
    ensures Print(i).value != []
    ensures var b := Print(i).value[0];
      match i
      case Nop => b == 0x00
      case SetLoc(_) => false
      case AdvanceLoc(d) => d < 64 ==> b == 0x40 + d
      case AdvanceLoc1(_) => b == 0x02
      case AdvanceLoc2(_) => b == 0x03
      case AdvanceLoc4(_) => b == 0x04
      case Offset(r, _) => r.Basic? && (r.index < 64 ==> b == 0x80 + r.index)
      case OffsetExtended(_, _) => b == 0x05
      case OffsetExtendedSf(_, _) => b == 0x11
      case Restore(num) => b == 0xc0 + num % 64
      case Undefined(_) => b == 0x07
      case SameValue(_) => b == 0x08
      case Register(_, _) => b == 0x09
      case RememberState => b == 0x0a
      case RestoreState => b == 0x0b
      case DefCfa(_, _) => b == 0x0c
      case DefCfaRegister(_) => b == 0x0d
      case DefCfaOffset(_) => b == 0x0e
      case DefCfaOffsetSf(_) => b == 0x13
      case DefCfaExpression(_) => b == 0x0f
      case Expression(_, _) => b == 0x10
      case ValExpression(_, _) => b == 0x16
      case GnuArgsSize(_) => b == 0x2e
      case Fixups(_, _, _) => false
      case FixupsPointer(_, _, _) => false
  {
    hide Uleb, Sleb, ToBytes, PrintBlock, IntLeb;
  }

  /** The operands of the instructions that are printed but never come back: advance_loc2 loses the high byte,
      same_value its register, and the other two are printed whole. */
  lemma PrintedOperands(r: u32, off: word, d: word)
    ensures d < 0x1_0000 ==> Print(AdvanceLoc2(d)) == Some([0x03, d % 256, d / 256])
    ensures Print(SameValue(Basic(r))) == Some([0x08])
    ensures Print(OffsetExtended(Basic(r), off)) == Some([0x05] + (Uleb(r) + Uleb(off)))
    ensures Print(OffsetExtendedSf(Basic(r), off)) == Some([0x11] + (Uleb(r) + Sleb(AsSigned(off))))
  {
    hide Uleb, Sleb;
    if d < 0x1_0000 {
      TwoBytes(d);
      assert [0x03] + [d % 256, d / 256] == [0x03, d % 256, d / 256];
    }
  }

  lemma TwoBytes(d: nat)
    requires d < 0x1_0000
    ensures ToBytes(d, 2) == [d % 256, d / 256]
  {
    assert ToBytes(d, 2) == [d % 256] + ToBytes(d / 256, 1);
    assert ToBytes(d / 256, 1) == [d / 256 % 256] + ToBytes(d / 256 / 256, 0);
  }

  /** Which instructions can be printed: their operands fit the fields that have a limit, registers are
      ordinary ones, and expressions can be printed. */
  predicate Printable(i: Instr)
  {
    match i
    case SetLoc(_) => false
    case AdvanceLoc(d) => d <= 0xc0
    case AdvanceLoc1(d) => d <= 0xff
    case AdvanceLoc2(d) => d <= 0xffff
    case AdvanceLoc4(d) => d <= 0xffff_ffff
    case Offset(r, _) => r.Basic? && r.index < 128
    case OffsetExtended(r, _) => r.Basic?
    case OffsetExtendedSf(r, _) => r.Basic?
    case Undefined(r) => r.Basic?
    case SameValue(r) => r.Basic?
    case Register(r, r2) => r.Basic? && r2.Basic?
    case DefCfa(r, _) => r.Basic?
    case DefCfaRegister(r) => r.Basic?
    case DefCfaExpression(e) => PrintableBlock(e)
    case Expression(r, e) => r.Basic? && PrintableBlock(e)
    case ValExpression(r, e) => r.Basic? && PrintableBlock(e)
    case Fixups(_, _, _) => false
    case FixupsPointer(_, _, _) => false
    case _ => true
  }

  lemma PrintsIff(i: Instr)
    ensures Print(i).Some? <==> Printable(i)
  {
    hide Uleb, Sleb, ToBytes, PrintBlock, PrintableBlock;
    match i {
      case DefCfaExpression(e) => BlockIff(e);
      case Expression(_, e) => BlockIff(e);
      case ValExpression(_, e) => BlockIff(e);
      case _ =>
    }
  }

  lemma {:induction false} ProgramPrintsIff(p: seq<Instr>)
    ensures PrintProgram(p).Some? <==> forall i :: i in p ==> Printable(i)
  {
    hide Print, Printable;
    if p != [] {
      PrintsIff(p[0]);
      ProgramPrintsIff(p[1..]);
      assert forall i :: i in p <==> i == p[0] || i in p[1..];
    }
  }

  // ----- expressions -----

  /** Opcodes without operands: deref, dup, drop and over, swap to plus, shl to xor, eq to ne, the literals and
      registers, nop, push_object_address, form_tls_address and call_frame_cfa. */
  predicate Bare(op: byte)
  {
    || op == 0x06 || 0x12 <= op <= 0x14 || 0x16 <= op <= 0x22 || 0x24 <= op <= 0x27 || 0x29 <= op <= 0x2e
    || 0x30 <= op <= 0x4f || 0x50 <= op <= 0x6f || op == 0x96 || op == 0x97 || op == 0x9b || op == 0x9c
  }

  /** How many bytes the operand of an opcode has where that is fixed, and whether it is signed: addr, const1u,
      const1s, const2u, const2s, const4u, const4s, const8u, const8s, pick, bra, skip, deref_size, xderef_size. */
  predicate FixedSize(op: byte, n: nat, signed: bool)
  {
    || (n == 1 && !signed && op in {0x08, 0x15, 0x94, 0x95})
    || (n == 1 && signed && op == 0x09)
    || (n == 2 && !signed && op == 0x0a)
    || (n == 2 && signed && op in {0x0b, 0x28, 0x2f})
    || (n == 4 && !signed && op == 0x0c)
    || (n == 4 && signed && op == 0x0d)
    || (n == 8 && !signed && op in {0x03, 0x0e})
    || (n == 8 && signed && op == 0x0f)
  }

  /** consts, fbreg and breg0 to breg31. */
  predicate SignedLeb(op: byte) { op == 0x11 || op == 0x91 || 0x70 <= op <= 0x8f }

  /** What is read behind each opcode, for all operands and whatever follows. */
  lemma ExpressionOperands(op: byte, bs: seq<byte>, v: word, rest: seq<byte>)
    ensures Bare(op) ==> ParseInstr([op] + rest) == Some((ExprInstr(op, 0, 0), 1))
    ensures FixedSize(op, |bs|, false) ==>
              0 <= Unsigned(bs) < WORD && ParseInstr([op] + bs + rest) == Some((ExprInstr(op, Unsigned(bs), 0), 1 + |bs|))
    ensures FixedSize(op, |bs|, true) ==>
              ParseInstr([op] + bs + rest).Some?
              && var (i, n) := ParseInstr([op] + bs + rest).value;
                 i == ExprInstr(op, i.arg1, 0) && AsSigned(i.arg1) == Signed(bs) && n == 1 + |bs|
    ensures op in {0x10, 0x23} ==> ParseInstr([op] + Uleb(v) + rest) == Some((ExprInstr(op, v, 0), 1 + |Uleb(v)|))
    ensures SignedLeb(op) && v < WORD / 2 && |Sleb(v)| <= 9 ==>
              ParseInstr([op] + Sleb(v) + rest) == Some((ExprInstr(op, v, 0), 1 + |Sleb(v)|))
  {
    hide *;
    if Bare(op) { BareRead(op, rest); }
    if FixedSize(op, |bs|, false) { FixedRead(op, bs, false, rest); }
    if FixedSize(op, |bs|, true) { FixedRead(op, bs, true, rest); }
    if op in {0x10, 0x23} { UlebRead(op, v, rest); }
    if SignedLeb(op) { SlebRead(op, v, rest); }
  }

  lemma BareRead(op: byte, rest: seq<byte>)
    requires Bare(op)
    ensures ParseInstr([op] + rest) == Some((ExprInstr(op, 0, 0), 1))
  {
    assert OperandOf(op) == NoOperand;
    hide OperandOf, FixedValue, ReadUnsigned, ParseSleb;
  }

  lemma FixedRead(op: byte, bs: seq<byte>, signed: bool, rest: seq<byte>)
    requires FixedSize(op, |bs|, signed)
    ensures ParseInstr([op] + bs + rest).Some? && 0 <= Unsigned(bs) < WORD
    ensures var (i, n) := ParseInstr([op] + bs + rest).value;
      i == ExprInstr(op, i.arg1, 0) && n == 1 + |bs| && (signed ==> AsSigned(i.arg1) == Signed(bs))
    ensures !signed ==> ParseInstr([op] + bs + rest) == Some((ExprInstr(op, Unsigned(bs), 0), 1 + |bs|))
  {
    assert OperandOf(op) == Fixed(|bs|, signed);
    assert ([op] + bs + rest)[1..1 + |bs|] == bs;
    FixedOperandValue(bs);
    hide OperandOf, FixedSize, FixedValue, ReadUnsigned, ParseSleb, Unsigned, Signed;
  }

  lemma UlebRead(op: byte, v: word, rest: seq<byte>)
    requires op in {0x10, 0x23}
    ensures ParseInstr([op] + Uleb(v) + rest) == Some((ExprInstr(op, v, 0), 1 + |Uleb(v)|))
  {
    assert OperandOf(op) == UlebOperand;
    hide OperandOf, FixedValue, ReadUnsigned, ParseSleb, Uleb;
    UlebOperandAt(op, v, rest);
  }

  lemma SlebRead(op: byte, v: word, rest: seq<byte>)
    requires SignedLeb(op)
    ensures v < WORD / 2 && |Sleb(v)| <= 9 ==>
              ParseInstr([op] + Sleb(v) + rest) == Some((ExprInstr(op, v, 0), 1 + |Sleb(v)|))
  {
    assert OperandOf(op) == SlebOperand;
    hide OperandOf, FixedValue, ReadUnsigned, ParseSleb, Sleb;
    SlebOperandIff(op, v, rest);
  }

  lemma FixedOperandValue(bs: seq<byte>)
    requires |bs| in {1, 2, 4, 8}
    ensures 0 <= Unsigned(bs) < WORD && FixedValue(bs, false) == Unsigned(bs) && AsSigned(FixedValue(bs, true)) == Signed(bs)
  {
    UnsignedBelow(bs);
    Base256Monotone(|bs|, 8);
    assert Base256(8) == WORD;
    SExtendPattern(bs);
    SignedRange(bs);
    PatternAsSigned(Signed(bs));
  }

  lemma SignedRange(bs: seq<byte>)
    requires |bs| in {1, 2, 4, 8}
    ensures -(WORD / 2) <= Signed(bs) < WORD / 2
  {
    SignedFromUnsigned(bs);
    UnsignedBelow(bs);
    UnsignedHalf(bs);
    Base256Monotone(|bs|, 8);
    assert Base256(8) == WORD;
  }

  /** regx, piece, bregx and everything from call2 on but the three opcodes above are not supported when reading. */
  lemma UnknownOperations(op: byte, rest: seq<byte>)
    requires op in {0x00, 0x01, 0x02, 0x04, 0x05, 0x07, 0x90, 0x92, 0x93, 0x98, 0x99, 0x9a} || op >= 0x9d
    ensures ParseInstr([op] + rest) == None
  {
    hide FixedValue, ReadUnsigned, ParseSleb;
    assert OperandOf(op) == if op == 0x92 then UlebThenSleb else Unsupported;
    hide OperandOf;
  }

  /** What is printed behind each opcode: fixed sizes are truncated, bregx has an unsigned and a signed operand. */
  lemma PrintedExpression(i: ExprInstr)
    ensures Bare(i.op) ==> PrintInstr(i) == Some([i.op])
    ensures forall n: nat, signed: bool :: FixedSize(i.op, n, signed) ==> PrintInstr(i) == Some([i.op] + ToBytes(i.arg1, n))
    ensures i.op in {0x10, 0x23} ==> PrintInstr(i) == Some([i.op] + Uleb(i.arg1))
    ensures SignedLeb(i.op) ==> PrintInstr(i) == Some([i.op] + Sleb(AsSigned(i.arg1)))
    ensures i.op == 0x92 ==> PrintInstr(i) == Some([i.op] + Uleb(i.arg1) + Sleb(AsSigned(i.arg2)))
    ensures i.op in {0x00, 0x01, 0x02, 0x04, 0x05, 0x07, 0x90, 0x93, 0x98, 0x99, 0x9a} || i.op >= 0x9d ==> PrintInstr(i) == None
  {
    hide Uleb, Sleb, ToBytes;
  }

  /** The opcodes that can be printed. */
  predicate Supported(op: byte)
  {
    Bare(op) || op in {0x03, 0x10, 0x23, 0x92, 0x94, 0x95, 0x15, 0x28, 0x2f} || 0x08 <= op <= 0x0f || SignedLeb(op)
  }

  predicate PrintableBlock(e: seq<ExprInstr>)
  {
    (forall i :: i in e ==> Supported(i.op)) && BlockLength(e) < HALF_WORD
  }

  /** How long an expression is when it is printed. */
  function BlockLength(e: seq<ExprInstr>): nat
  {
    if PrintExpr(e).Some? then |PrintExpr(e).value| else 0
  }

  lemma {:induction false} ExprPrintsIff(e: seq<ExprInstr>)
    ensures PrintExpr(e).Some? <==> forall i :: i in e ==> Supported(i.op)
  {
    if e != [] {
      assert PrintInstr(e[0]).Some? <==> Supported(e[0].op) by { hide Uleb, Sleb, ToBytes; }
      hide PrintInstr, Supported;
      ExprPrintsIff(e[1..]);
      assert forall i :: i in e <==> i == e[0] || i in e[1..];
    }
  }

  lemma BlockIff(e: seq<ExprInstr>)
    ensures PrintBlock(e).Some? <==> PrintableBlock(e)
  {
    ExprPrintsIff(e);
    hide PrintExpr, Supported, Uleb;
  }
}
