/** DWARF expressions: encodeDwarfExprInstr (dwarf_instr.c) prints them and
    parseDwarfExpression (fderead.c) reads them back. */
module Expressions {
  import opened Bytes
  import opened Leb
  import opened LebWords

  datatype ExprInstr = ExprInstr(op: byte, arg1: word, arg2: word)

  /** How the operands of an opcode are laid out. */
  datatype Operand =
    | NoOperand
    | Fixed(size: nat, signed: bool)
    | UlebOperand
    | SlebOperand
    | UlebThenSleb
    | Unsupported

  /** The opcodes of section 7.7.1 of DWARF version 4, as both switches group them. */
  function OperandOf(op: byte): (o: Operand)
    ensures o.Fixed? ==> o.size in {1, 2, 4, 8}
  {
    if op == 0x03 then Fixed(8, false)                                   // addr
    else if op in {0x08, 0x15, 0x94, 0x95} then Fixed(1, false)          // const1u, pick, deref_size, xderef_size
    else if op == 0x09 then Fixed(1, true)                               // const1s
    else if op == 0x0a then Fixed(2, false)                              // const2u
    else if op in {0x0b, 0x28, 0x2f} then Fixed(2, true)                 // const2s, bra, skip
    else if op == 0x0c then Fixed(4, false)                              // const4u
    else if op == 0x0d then Fixed(4, true)                               // const4s
    else if op == 0x0e then Fixed(8, false)                              // const8u
    else if op == 0x0f then Fixed(8, true)                               // const8s
    else if op in {0x10, 0x23} then UlebOperand                          // constu, plus_uconst
    else if op in {0x11, 0x91} || 0x70 <= op < 0x90 then SlebOperand     // consts, fbreg, breg0 to breg31
    else if op == 0x92 then UlebThenSleb                                 // bregx
    else if op == 0x06 || 0x12 <= op < 0x70                              // deref, stack and arithmetic, lit, reg
      || op in {0x96, 0x97, 0x9b, 0x9c} then NoOperand                   // nop, push_object_address, form_tls_address, call_frame_cfa
    else Unsupported
  }

  function AsSigned(w: word): int { if w >= WORD / 2 then w - WORD else w }

  /** encodeDwarfExprInstr; fixed-size operands are truncated to their size. */
  function PrintInstr(i: ExprInstr): Option<seq<byte>>
  {
    match OperandOf(i.op)
    case NoOperand => Some([i.op])
    case Fixed(n, _) => Some([i.op] + ToBytes(i.arg1, n))
    case UlebOperand => Some([i.op] + Uleb(i.arg1))
    case SlebOperand => Some([i.op] + Sleb(AsSigned(i.arg1)))
    case UlebThenSleb => Some([i.op] + Uleb(i.arg1) + Sleb(AsSigned(i.arg2)))
    case Unsupported => None
  }

  /** A fixed-size operand as the reader stores it in a 64-bit variable. */
  function FixedValue(bs: seq<byte>, signed: bool): word
    requires |bs| in {1, 2, 4, 8}
  {
    UnsignedBelow(bs);
    Base256Monotone(|bs|, 8);
    assert Base256(8) == WORD;
    var u := Unsigned(bs);
    if signed then SExtend(u, |bs|).value else u
  }

  /** One round of parseDwarfExpression, and how many bytes it takes.  A signed LEB
      operand is stored without sign extension. */
  function ParseInstr(data: seq<byte>): Option<(ExprInstr, nat)>
    requires |data| > 0
  {
    match OperandOf(data[0])
    case NoOperand => Some((ExprInstr(data[0], 0, 0), 1))
    case Fixed(n, signed) =>
      if |data| < 1 + n then None
      else
        Some((ExprInstr(data[0], FixedValue(data[1..1 + n], signed), 0), 1 + n))
    case UlebOperand =>
      assert Base256(8) == WORD;
      var (v, n) :- ReadUnsigned(data[1..], 8);
      Some((ExprInstr(data[0], v, 0), 1 + n))
    case SlebOperand => ParseSleb(data)
    case UlebThenSleb => None
    case Unsupported => None
  }

  function ParseSleb(data: seq<byte>): Option<(ExprInstr, nat)>
    requires |data| > 0
  {
    if !Terminated(data[1..]) then None
    else
      var n := Length(data[1..]);
      var bs := Decoded(data[1..][..n], true);
      if |bs| > 8 then None
      else
        UnsignedBelow(bs);
        Base256Monotone(|bs|, 8);
        assert Base256(8) == WORD;
        Some((ExprInstr(data[0], Unsigned(bs), 0), 1 + n))
  }

  /** The instructions that come back as they were: every operand fits its field,
      and a signed LEB operand is not negative (or long enough that its eight bytes
      need no sign extension).  The reader does not know bregx. */
  predicate RoundTrips(i: ExprInstr)
  {
    i.arg2 == 0 &&
    match OperandOf(i.op)
    case NoOperand => i.arg1 == 0
    case Fixed(n, signed) =>
      if signed then 0 <= 2 * AsSigned(i.arg1) + Base256(n) < 2 * Base256(n) else i.arg1 < Base256(n)
    case UlebOperand => true
    case SlebOperand =>
      var m := |Sleb(AsSigned(i.arg1))|;
      m <= 9 && (AsSigned(i.arg1) >= 0 || m == 9)
    case UlebThenSleb => false
    case Unsupported => false
  }

  /** Truncating to n bytes and extending the sign keeps exactly the numbers in range. */
  lemma SignedTruncation(v: word, n: nat)
    requires n in {1, 2, 4, 8}
    ensures var p := Signed(ToBytes(v, n));
            && 0 <= 2 * p + Base256(n) < 2 * Base256(n)
            && (p == AsSigned(v) <==> 0 <= 2 * AsSigned(v) + Base256(n) < 2 * Base256(n))
  {
    var bs := ToBytes(v, n);
    ToBytesValue(v, n);
    UnsignedBelow(bs);
    SignedFromUnsigned(bs);
    UnsignedHalf(bs);
    if 0 <= 2 * AsSigned(v) + Base256(n) < 2 * Base256(n) {
      if v < WORD / 2 { SmallMod(v, Base256(n)); } else { NegativeMod(v, n); }
    }
  }

  /** The n-byte pattern of a negative number. */
  lemma NegativeMod(v: word, n: nat)
    requires n in {1, 2, 4, 8} && v >= WORD / 2 && 0 <= 2 * (v - WORD) + Base256(n)
    ensures v % Base256(n) == v - WORD + Base256(n)
  {
    assert Base256(1) == 0x100 && Base256(2) == 0x1_0000 && Base256(4) == HALF_WORD && Base256(8) == WORD;
    var q := if n == 1 then WORD / 0x100 else if n == 2 then WORD / 0x1_0000 else if n == 4 then HALF_WORD else 1;
    DivModUnique(v, Base256(n), q - 1, v - WORD + Base256(n));
  }

  lemma PatternAsSigned(p: int)
    requires -(WORD / 2) <= p < WORD / 2
    ensures 0 <= Pattern(p) < WORD && AsSigned(Pattern(p)) == p
  {
    DivModUnique(p, WORD, if p < 0 then -1 else 0, if p < 0 then p + WORD else p);
  }

  lemma FixedIff(v: word, bs: seq<byte>, n: nat, signed: bool)
    requires n in {1, 2, 4, 8} && bs == ToBytes(v, n)
    ensures FixedValue(bs, signed) == v
       <==> if signed then 0 <= 2 * AsSigned(v) + Base256(n) < 2 * Base256(n) else v < Base256(n)
  {
    hide ToBytes; hide SExtend;
    Base256Monotone(n, 8);
    assert Base256(8) == WORD;
    if signed {
      SExtendPattern(bs);
      SignedTruncation(v, n);
      PatternAsSigned(Signed(bs));
      PatternAsSigned(AsSigned(v));
    } else {
      ToBytesValue(v, n);
      UnsignedBelow(bs);
      if v < Base256(n) { SmallMod(v, Base256(n)); }
    }
  }

  /** A signed LEB operand, read without sign extension. */
  lemma SlebOperandIff(op: byte, v: word, rest: seq<byte>)
    ensures var m := |Sleb(AsSigned(v))|;
            var r := ParseSleb([op] + Sleb(AsSigned(v)) + rest);
            && (r.Some? && r.value.0 == ExprInstr(op, v, 0) <==> m <= 9 && (AsSigned(v) >= 0 || m == 9))
            && (r.Some? ==> r.value.1 == 1 + m)
  {
    var leb := Sleb(AsSigned(v));
    var data := [op] + leb + rest;
    assert data[1..] == leb + rest;
    LengthOfEncoding(leb, rest);
    assert (leb + rest)[..|leb|] == leb;
    SlebValue(AsSigned(v));
    DecodedValue(leb, true);
    var bs := Decoded(leb, true);
    SignedFromUnsigned(bs);
    UnsignedBelow(bs);
    assert |bs| == (7 * |leb| + 7) / 8;
    if |bs| <= 8 {
      SignedPatternWidth(bs, AsSigned(v));
    }
  }

  lemma SignedPatternWidth(bs: seq<byte>, s: int)
    requires 0 < |bs| <= 8 && Signed(bs) == s
    ensures s >= 0 ==> Unsigned(bs) == s
    ensures s < 0 ==> (Unsigned(bs) == s + WORD <==> |bs| == 8)
  {
    SignedFromUnsigned(bs);
    UnsignedBelow(bs);
    RawSign(bs, true);
    assert Base256(8) == WORD;
    Base256Monotone(|bs|, 8);
    if |bs| < 8 { Base256Monotone(|bs|, 7); }
  }

  lemma FixedOperandAt(op: byte, v: word, n: nat, signed: bool, rest: seq<byte>)
    requires n in {1, 2, 4, 8}
    ensures var data := [op] + ToBytes(v, n) + rest;
            && |data| >= 1 + n && |data[1..1 + n]| == n
            && (FixedValue(data[1..1 + n], signed) == v
                <==> if signed then 0 <= 2 * AsSigned(v) + Base256(n) < 2 * Base256(n) else v < Base256(n))
  {
    var bs := ToBytes(v, n);
    var data := [op] + bs + rest;
    assert data[1..1 + n] == bs;
    FixedIff(v, bs, n, signed);
  }

  lemma UlebOperandAt(op: byte, v: word, rest: seq<byte>)
    ensures ReadUnsigned(([op] + Uleb(v) + rest)[1..], 8) == Some((v, |Uleb(v)|))
  {
    hide ReadUnsigned; hide Uleb;
    assert ([op] + Uleb(v) + rest)[1..] == Uleb(v) + rest;
    ReadUlebWord(v, rest);
  }

  /** The reader finds this instruction at the front of the data. */
  predicate Reads(i: ExprInstr, data: seq<byte>)
  {
    |data| > 0 && ParseInstr(data).Some? && ParseInstr(data).value.0 == i
  }

  /** Printing an expression instruction and reading it, with anything behind it,
      gives it back exactly when RoundTrips says so, and then takes exactly the
      printed bytes. */
  lemma InstrIff(i: ExprInstr, rest: seq<byte>)
    ensures RoundTrips(i) <==> PrintInstr(i).Some? && Reads(i, PrintInstr(i).value + rest)
    ensures RoundTrips(i) ==>
              |PrintInstr(i).value| > 0
              && ParseInstr(PrintInstr(i).value + rest) == Some((i, |PrintInstr(i).value|))
  {
    match OperandOf(i.op)
    case NoOperand =>
    case Fixed(n, signed) => FixedInstrIff(i, n, signed, rest);
    case UlebOperand => UlebOperandAt(i.op, i.arg1, rest);
    case SlebOperand => SlebInstrIff(i, rest);
    case UlebThenSleb =>
    case Unsupported =>
  }

  lemma FixedInstrIff(i: ExprInstr, n: nat, signed: bool, rest: seq<byte>)
    requires OperandOf(i.op) == Fixed(n, signed)
    ensures RoundTrips(i) <==> Reads(i, [i.op] + ToBytes(i.arg1, n) + rest)
    ensures RoundTrips(i) ==> ParseInstr([i.op] + ToBytes(i.arg1, n) + rest) == Some((i, 1 + n))
  {
    FixedOperandAt(i.op, i.arg1, n, signed, rest);
  }

  lemma SlebInstrIff(i: ExprInstr, rest: seq<byte>)
    requires OperandOf(i.op) == SlebOperand
    ensures var p := [i.op] + Sleb(AsSigned(i.arg1));
            && (RoundTrips(i) <==> Reads(i, p + rest))
            && (RoundTrips(i) ==> ParseInstr(p + rest) == Some((i, |p|)))
  {
    SlebOperandIff(i.op, i.arg1, rest);
  }

  // ----- whole expressions -----

  /** The bytes of an expression, without its length. */
  function PrintExpr(e: seq<ExprInstr>): Option<seq<byte>>
  {
    if e == [] then Some([])
    else
      var first :- PrintInstr(e[0]);
      Prefixed(first, PrintExpr(e[1..]))
  }

  function ParseExpr(data: seq<byte>): Option<seq<ExprInstr>>
    decreases |data|
  {
    if data == [] then Some([])
    else
      var i := ParseInstr(data);
      if i.None? || !(0 < i.value.1 <= |data|) then None
      else Prefixed([i.value.0], ParseExpr(data[i.value.1..]))
  }

  predicate AllRoundTrip(e: seq<ExprInstr>) { forall i :: i in e ==> RoundTrips(i) }

  lemma PrintInstrNonEmpty(i: ExprInstr)
    ensures PrintInstr(i).Some? ==> |PrintInstr(i).value| > 0
  {
  }

  /** Reading a printed expression returns the expression exactly when each of its
      instructions comes back. */
  lemma {:induction false} ExprIff(e: seq<ExprInstr>)
    ensures AllRoundTrip(e) <==> PrintExpr(e).Some? && ParseExpr(PrintExpr(e).value) == Some(e)
  {
    if e != [] {
      ExprIff(e[1..]);
      PrintInstrNonEmpty(e[0]);
      assert e == [e[0]] + e[1..];
      assert AllRoundTrip(e) <==> RoundTrips(e[0]) && AllRoundTrip(e[1..]);
      if PrintExpr(e).Some? {
        var p, others := PrintInstr(e[0]).value, PrintExpr(e[1..]).value;
        InstrIff(e[0], others);
        assert (p + others)[|p|..] == others;
      } else if PrintInstr(e[0]).None? {
        InstrIff(e[0], []);
      }
    }
  }

  /** encodeDwarfExprAsFormBlock: the length, then the instructions.  The length is
      a 32-bit variable. */
  function PrintBlock(e: seq<ExprInstr>): Option<seq<byte>>
  {
    var data := PrintExpr(e);
    if data.None? || |data.value| >= HALF_WORD then None
    else Some(Uleb(|data.value|) + data.value)
  }

  method EncodeDwarfExprAsFormBlock(e: seq<ExprInstr>) returns (block: Option<seq<byte>>)
    ensures block == PrintBlock(e)
  {
    var blockData := [];
    var i := 0;
    assert e[0..] == e;
    PrefixedAppend([], [], PrintExpr(e));
    while i < |e|
      invariant 0 <= i <= |e|
      invariant PrintExpr(e) == Prefixed(blockData, PrintExpr(e[i..]))
    {
      var bytes := PrintInstr(e[i]);
      assert e[i..][1..] == e[i + 1..];
      if bytes.None? { return None; }
      PrefixedAppend(blockData, bytes.value, PrintExpr(e[i + 1..]));
      blockData := blockData + bytes.value;
      i := i + 1;
    }
    assert blockData + [] == blockData;
    if |blockData| >= HALF_WORD { return None; }
    var lengthData := UIntToLEB128(|blockData|);
    return Some(lengthData + blockData);
  }

  /** parseDwarfExpression: a cursor over the bytes. */
  method ParseDwarfExpression(data: seq<byte>) returns (instructions: Option<seq<ExprInstr>>)
    ensures instructions == ParseExpr(data)
  {
    var result, cursor := [], 0;
    assert data[0..] == data;
    PrefixedAppend([], [], ParseExpr(data));
    while cursor < |data|
      invariant 0 <= cursor <= |data|
      invariant ParseExpr(data) == Prefixed(result, ParseExpr(data[cursor..]))
    {
      var i := ParseInstr(data[cursor..]);
      if i.None? || !(0 < i.value.1 <= |data| - cursor) { return None; }
      assert data[cursor..][i.value.1..] == data[cursor + i.value.1..];
      PrefixedAppend(result, [i.value.0], ParseExpr(data[cursor + i.value.1..]));
      result := result + [i.value.0];
      cursor := cursor + i.value.1;
    }
    assert result + [] == result;
    return Some(result);
  }
}
