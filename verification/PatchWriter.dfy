/** The bytes of the FDEs that the patch compiler makes, and the compiler as it runs
    (patchwrite/write_to_dwarf.c). */
module PatchWriter {
  import opened Bytes
  import opened Leb
  import opened LebWords
  import opened Registers
  import opened Cfa
  import opened Compiler

  const ADDR_SIZE: u32 := 8

  function RegBytes(tag: byte, size: u32, offset: Option<u32>): seq<byte>
  {
    Unoptimized(PatchRegBytes(tag, size, offset))
  }

  /** The two registers of an instruction: where it writes and where it reads. */
  function TwoRegs(newSize: u32, newOffset: Option<u32>, oldSize: u32, oldOffset: Option<u32>): seq<byte>
  {
    RegBytes(CURR_TARG_NEW, newSize, newOffset) + RegBytes(CURR_TARG_OLD, oldSize, oldOffset)
  }

  /** The low four bytes of an FDE index, unoptimised. */
  function FixedIndex(fde: nat): seq<byte> { Unoptimized(ToBytes(fde, 4)) }

  /** What addInstruction appends for an instruction. */
  function OpBytes(op: Op): (bs: seq<byte>)
    ensures |bs| > 0
  {
    hide TwoRegs, FixedIndex, Uleb;
    match op
    case CopyAll(to, from) => [OP_REGISTER] + TwoRegs(to, None, from, None)
    case CopyField(size, n, o) => [OP_REGISTER] + TwoRegs(size, Some(n), size, Some(o))
    case FixPointer(_, fde) => [OP_FIXUPS_POINTER] + TwoRegs(ADDR_SIZE, None, ADDR_SIZE, None) + FixedIndex(fde)
    case FixField(pointer, size, n, o, _, fde) =>
      [if pointer then OP_FIXUPS_POINTER else OP_FIXUPS] + TwoRegs(size, Some(n), size, Some(o)) + Uleb(fde % HALF_WORD)
  }

  function OpsBytes(ops: seq<Op>): seq<byte>
  {
    if ops == [] then [] else OpBytes(ops[0]) + OpsBytes(ops[1..])
  }

  /** The instruction that is meant. */
  function OpInstr(op: Op): Instr
  {
    match op
    case CopyAll(to, from) => Register(CurrTargNew(to, 0), CurrTargOld(from, 0))
    case CopyField(size, n, o) => Register(CurrTargNew(size, n), CurrTargOld(size, o))
    case FixPointer(_, fde) =>
      FixupsPointer(CurrTargNew(ADDR_SIZE, 0), CurrTargOld(ADDR_SIZE, 0), fde % HALF_WORD)
    case FixField(pointer, size, n, o, _, fde) =>
      if pointer then FixupsPointer(CurrTargNew(size, n), CurrTargOld(size, o), fde % HALF_WORD)
      else Fixups(CurrTargNew(size, n), CurrTargOld(size, o), fde % HALF_WORD)
  }

  function OpInstrs(ops: seq<Op>): seq<Instr>
  {
    if ops == [] then [] else [OpInstr(ops[0])] + OpInstrs(ops[1..])
  }

  // ----- parsing gives the instructions back -----

  lemma TakePatchReg(tag: byte, size: u32, offset: Option<u32>, rest: seq<byte>)
    requires tag == CURR_TARG_NEW || tag == CURR_TARG_OLD
    ensures TakePoReg(RegBytes(tag, size, offset) + rest) == Some(Read(PatchReg(tag, size, offset), rest))
    ensures TakeReg(RegBytes(tag, size, offset) + rest) == Some(Read(PatchReg(tag, size, offset), rest))
  {
    hide ReadReg; hide Unoptimized;
    PatchRegRoundTrip(tag, size, offset, rest);
    var leb := RegBytes(tag, size, offset);
    assert (leb + rest)[|leb|..] == rest;
  }

  lemma TakeFixedIndex(fde: nat, rest: seq<byte>)
    ensures TakeUnsigned(FixedIndex(fde) + rest, 4) == Some(Read(fde % HALF_WORD, rest))
  {
    var bs := ToBytes(fde, 4);
    IndexBytes(fde);
    UnoptimizedUnsigned(bs, rest);
    var leb := Unoptimized(bs);
    assert (leb + rest)[|leb|..] == rest;
  }

  lemma IndexBytes(fde: nat)
    ensures Unsigned(ToBytes(fde, 4)) == fde % HALF_WORD
  {
    ToBytesValue(fde, 4);
    assert Base256(4) == HALF_WORD;
  }

  lemma UnoptimizedUnsigned(bs: seq<byte>, rest: seq<byte>)
    requires 0 < |bs| <= 4
    ensures ReadUnsigned(Unoptimized(bs) + rest, 4) == Some((Unsigned(bs), |Unoptimized(bs)|))
  {
    var leb := Unoptimized(bs);
    LengthOfEncoding(leb, rest);
    assert (leb + rest)[..|leb|] == leb;
    UnoptimizedDecodes(bs);
  }

  lemma TwoRegsThen(op: byte, a: seq<byte>, b: seq<byte>, c: seq<byte>, rest: seq<byte>)
    ensures ([op] + (a + b) + rest)[1..] == a + (b + rest)
    ensures ([op] + (a + b) + c + rest)[1..] == a + (b + (c + rest))
  {
  }

  lemma RegisterParses(n: u32, i: Option<u32>, o: u32, j: Option<u32>, rest: seq<byte>)
    ensures Parse([OP_REGISTER] + TwoRegs(n, i, o, j) + rest)
         == Some(Read(Register(PatchReg(CURR_TARG_NEW, n, i), PatchReg(CURR_TARG_OLD, o, j)), rest))
  {
    hide TakeReg; hide TakePoReg; hide TakeUnsigned; hide TakeSigned; hide TakeFixed; hide TakeBlock; hide RegBytes;
    var a, b := RegBytes(CURR_TARG_NEW, n, i), RegBytes(CURR_TARG_OLD, o, j);
    TwoRegsThen(OP_REGISTER, a, b, [], rest);
    TakePatchReg(CURR_TARG_NEW, n, i, b + rest);
    TakePatchReg(CURR_TARG_OLD, o, j, rest);
  }

  lemma ParseFixupsAt(pointer: bool, n: u32, i: Option<u32>, o: u32, j: Option<u32>, index: seq<byte>, fde: word, rest: seq<byte>)
    requires TakeUnsigned(index + rest, 4) == Some(Read(fde, rest))
    ensures var r, r2 := PatchReg(CURR_TARG_NEW, n, i), PatchReg(CURR_TARG_OLD, o, j);
            ParseFixups(RegBytes(CURR_TARG_NEW, n, i) + (RegBytes(CURR_TARG_OLD, o, j) + (index + rest)), pointer)
            == Some(Read(if pointer then FixupsPointer(r, r2, fde) else Fixups(r, r2, fde), rest))
  {
    hide TakePoReg; hide TakeUnsigned; hide RegBytes;
    TakePatchReg(CURR_TARG_NEW, n, i, RegBytes(CURR_TARG_OLD, o, j) + (index + rest));
    TakePatchReg(CURR_TARG_OLD, o, j, index + rest);
  }

  lemma FixupsDispatch(pointer: bool, rest: seq<byte>)
    ensures Parse([if pointer then OP_FIXUPS_POINTER else OP_FIXUPS] + rest) == ParseFixups(rest, pointer)
  {
    hide ParseFixups; hide TakeReg; hide TakePoReg; hide TakeUnsigned; hide TakeSigned; hide TakeFixed; hide TakeBlock;
    assert ([if pointer then OP_FIXUPS_POINTER else OP_FIXUPS] + rest)[1..] == rest;
  }

  lemma FixupsParse(pointer: bool, op: byte, a: seq<byte>, b: seq<byte>, index: seq<byte>, rest: seq<byte>)
    requires op == if pointer then OP_FIXUPS_POINTER else OP_FIXUPS
    ensures Parse([op] + (a + b) + index + rest) == ParseFixups(a + (b + (index + rest)), pointer)
  {
    hide Parse; hide ParseFixups;
    var others := a + (b + (index + rest));
    FixupsDispatch(pointer, others);
    assert [op] + (a + b) + index + rest == [op] + others;
  }

  /** An instruction of the compiler is read back as what it is meant to be. */
  lemma OpParses(op: Op, rest: seq<byte>)
    ensures Parse(OpBytes(op) + rest) == Some(Read(OpInstr(op), rest))
  {
    hide Parse; hide TwoRegs; hide FixedIndex; hide Uleb;
    match op
    case CopyAll(to, from) => RegisterParses(to, None, from, None, rest);
    case CopyField(size, n, o) => RegisterParses(size, Some(n), size, Some(o), rest);
    case FixPointer(_, fde) => FixPointerParses(op, rest);
    case FixField(_, _, _, _, _, _) => FixFieldParses(op, rest);
  }

  lemma FixPointerParses(op: Op, rest: seq<byte>)
    requires op.FixPointer?
    ensures Parse(OpBytes(op) + rest) == Some(Read(OpInstr(op), rest))
  {
    hide Parse; hide FixedIndex; hide RegBytes; hide ParseFixups; hide TakeUnsigned;
    var index := FixedIndex(op.fde);
    TakeFixedIndex(op.fde, rest);
    ParseFixupsAt(true, ADDR_SIZE, None, ADDR_SIZE, None, index, op.fde % HALF_WORD, rest);
    FixupsParse(true, OP_FIXUPS_POINTER, RegBytes(CURR_TARG_NEW, ADDR_SIZE, None), RegBytes(CURR_TARG_OLD, ADDR_SIZE, None), index, rest);
  }

  lemma FixFieldParses(op: Op, rest: seq<byte>)
    requires op.FixField?
    ensures Parse(OpBytes(op) + rest) == Some(Read(OpInstr(op), rest))
  {
    hide Parse; hide Uleb; hide RegBytes; hide ParseFixups; hide TakeUnsigned;
    var index := Uleb(op.fde % HALF_WORD);
    var n, o := Some(op.newOffset), Some(op.oldOffset);
    TakeUnsignedAt(op.fde % HALF_WORD, 4, rest);
    ParseFixupsAt(op.pointer, op.size, n, op.size, o, index, op.fde % HALF_WORD, rest);
    FixupsParse(op.pointer, if op.pointer then OP_FIXUPS_POINTER else OP_FIXUPS,
      RegBytes(CURR_TARG_NEW, op.size, n), RegBytes(CURR_TARG_OLD, op.size, o), index, rest);
  }

  /** The bytes of an FDE, padded by libdwarf with any number of nops, parse to its
      instructions. */
  lemma {:induction false} FrameParses(ops: seq<Op>, padding: nat)
    ensures ParseProgram(OpsBytes(ops) + Nops(padding)) == Some(OpInstrs(ops))
  {
    hide Parse; hide OpBytes;
    if ops == [] {
      ParseNops(padding);
      assert [] + Nops(padding) == Nops(padding);
    } else {
      var others := OpsBytes(ops[1..]) + Nops(padding);
      FrameParses(ops[1..], padding);
      OpParses(ops[0], others);
      assert OpsBytes(ops) + Nops(padding) == OpBytes(ops[0]) + others;
      assert !OpInstr(ops[0]).Nop?;
    }
  }

  // ----- the compiler as it runs -----

  /** encodeAsLEB128NoOptimization on the bytes of a register. */
  method EncodePatchReg(tag: byte, size: u32, offset: Option<u32>) returns (leb: seq<byte>)
    ensures leb == RegBytes(tag, size, offset)
  {
    leb := EncodeFixed(PatchRegBytes(tag, size, offset));
  }

  method EncodeFixed(bytes: seq<byte>) returns (leb: seq<byte>)
    requires |bytes| > 0
    ensures leb == Unoptimized(bytes)
  {
    leb := EncodeNoOptimization(bytes, false);
    NoOptimizationUnique(leb, bytes);
  }

  method EncodeIndex(fde: nat) returns (leb: seq<byte>)
    ensures leb == Uleb(fde % HALF_WORD)
  {
    var bytes := ToBytes(fde, 4);
    IndexBytes(fde);
    leb := Encode(bytes, false);
    EncodesUnique(leb, bytes, false);
  }

  /** An FDE as libdwarf holds it. */
  datatype RawFrame = RawFrame(die: nat, length: length, bytes: seq<byte>)

  function Raw(f: Frame): RawFrame { RawFrame(f.die, f.length, OpsBytes(f.ops)) }

  function RawFrames(fs: seq<Frame>): seq<RawFrame> { seq(|fs|, i requires 0 <= i < |fs| => Raw(fs[i])) }

  lemma {:induction false} OpsBytesAppend(a: seq<Op>, b: seq<Op>)
    ensures OpsBytes(a + b) == OpsBytes(a) + OpsBytes(b)
  {
    hide OpBytes;
    if a == [] {
      assert a + b == b;
    } else {
      OpsBytesAppend(a[1..], b);
      assert (a + b)[1..] == a[1..] + b;
    }
  }

  lemma OneOp(op: Op)
    ensures OpsBytes([op]) == OpBytes(op)
  {
    assert [op][1..] == [];
  }

  lemma RawLength(fs: seq<Frame>)
    ensures |RawFrames(fs)| == |fs|
  {
  }

  lemma RawAppend(fs: seq<Frame>, t: nat, n: length)
    ensures RawFrames(fs + [Frame(t, n, [])]) == RawFrames(fs) + [RawFrame(t, n, [])]
  {
    assert OpsBytes([]) == [];
  }

  lemma RawUpdate(fs: seq<Frame>, k: nat, ops: seq<Op>)
    requires k < |fs|
    ensures |RawFrames(fs)| == |fs|
    ensures RawFrames(fs[k := fs[k].(ops := ops)]) == RawFrames(fs)[k := RawFrames(fs)[k].(bytes := OpsBytes(ops))]
  {
  }

  class Writer {
    const arena: Arena
    /** The flags and indices that the source keeps in the transforms. */
    var onDisk: set<nat>
    var fdeIdx: map<nat, nat>
    var frames: seq<RawFrame>
    ghost var disk: Disk

    ghost predicate Valid()
      reads this
    {
      && disk.onDisk == onDisk && disk.fde == fdeIdx && onDisk <= All(arena)
      && frames == RawFrames(disk.frames)
    }

    constructor (arena: Arena)
      ensures Valid() && this.arena == arena && disk == FRESH
    {
      this.arena, onDisk, fdeIdx, frames, disk := arena, {}, map[], [], FRESH;
    }

    function Index(t: nat): nat reads this { if t in fdeIdx then fdeIdx[t] else 0 }

    /** writeTransformationToDwarf. */
    method WriteTransformation(t: nat) returns (ok: bool)
      requires Valid()
      modifies this
      ensures ok <==> Write(arena, t, old(disk)).Some?
      ensures ok ==> Valid() && disk == Write(arena, t, old(disk)).value
      decreases All(arena) - onDisk, 0, 0
    {
      hide RawFrames; hide OpsBytes; hide WriteInstructions;
      if t >= |arena| { return false; }
      if t in onDisk { return true; }
      var trans := arena[t];
      assert All(arena) - (onDisk + {t}) < All(arena) - onDisk by { assert t in All(arena) - onDisk; }
      onDisk := onDisk + {t};
      if Wrapper(trans) {
        disk := disk.(onDisk := disk.onDisk + {t});
        ok := WriteTransformation(trans.target);
        if ok {
          fdeIdx := fdeIdx[t := Index(trans.target)];
          disk := disk.(fde := disk.fde[t := FdeIdx(disk, trans.target)]);
        }
        return;
      }
      RawAppend(disk.frames, t, trans.toLength);
      RawLength(disk.frames);
      frames := frames + [RawFrame(t, trans.toLength, [])];
      fdeIdx := fdeIdx[t := |frames|];
      disk := Begin(arena, t, disk);
      var bytes;
      ghost var ops;
      ok, bytes, ops := WriteBytes(t);
      if ok {
        var k := Index(t);
        RawLength(disk.frames);
        if 0 < k <= |frames| {
          RawUpdate(disk.frames, k - 1, ops);
          frames := frames[k - 1 := frames[k - 1].(bytes := bytes)];
        }
        disk := Finish(disk, t, ops);
      }
    }

    /** The instruction bytes of a transform with an FDE. */
    method WriteBytes(t: nat) returns (ok: bool, bytes: seq<byte>, ghost ops: seq<Op>)
      requires Valid() && t < |arena|
      modifies this
      ensures ok <==> WriteInstructions(arena, t, old(disk)).Some?
      ensures ok ==> Valid() && (disk, ops) == WriteInstructions(arena, t, old(disk)).value && bytes == OpsBytes(ops)
      decreases All(arena) - onDisk, 2, 0
    {
      hide RegBytes; hide Unoptimized; hide Write; hide WriteFields; hide RawFrames; hide ToBytes;
      var trans := arena[t];
      bytes, ops := [], [];
      if trans.straight {
        if trans.fromLength > trans.toLength { return false, [], []; }
        var arg1 := EncodePatchReg(CURR_TARG_NEW, trans.toLength, None);
        var arg2 := EncodePatchReg(CURR_TARG_OLD, trans.fromLength, None);
        ops := [CopyAll(trans.toLength, trans.fromLength)];
        OneOp(ops[0]);
        return true, [OP_REGISTER] + (arg1 + arg2), ops;
      } else if trans.category.Pointer? {
        ok := WriteTransformation(trans.target);
        if !ok { return; }
        var fde := Index(trans.target);
        var arg1 := EncodePatchReg(CURR_TARG_NEW, ADDR_SIZE, None);
        var arg2 := EncodePatchReg(CURR_TARG_OLD, ADDR_SIZE, None);
        var arg3 := EncodeFixed(ToBytes(fde, 4));
        ops := [FixPointer(trans.target, fde)];
        OneOp(ops[0]);
        return true, [OP_FIXUPS_POINTER] + (arg1 + arg2) + arg3, ops;
      } else if trans.category.Struct? {
        ok, bytes, ops := WriteFieldBytes(trans.fields);
      } else {
        return false, [], [];
      }
    }

    /** The instruction for a field that is kept. */
    method WriteField(f: Field) returns (ok: bool, bytes: seq<byte>, ghost op: Op)
      requires Valid() && !f.kind.DeleteKind?
      modifies this
      ensures ok <==> OneField(arena, f, old(disk)).Some?
      ensures ok ==> Valid() && (disk, op) == OneField(arena, f, old(disk)).value && bytes == OpBytes(op)
      decreases All(arena) - onDisk, 0, 1
    {
      hide RegBytes; hide Uleb; hide Write; hide RawFrames; hide ToBytes; hide All;
      var arg1 := EncodePatchReg(CURR_TARG_NEW, f.size, Some(f.newOffset));
      var arg2 := EncodePatchReg(CURR_TARG_OLD, f.size, Some(f.oldOffset));
      op := CopyField(f.size, f.newOffset, f.oldOffset);
      if f.kind.RecurseKind? {
        ok := WriteTransformation(f.target);
        if !ok { return false, [], op; }
        var fde := Index(f.target);
        var arg3 := EncodeIndex(fde);
        op := FixField(f.pointer, f.size, f.newOffset, f.oldOffset, f.target, fde);
        return true, [if f.pointer then OP_FIXUPS_POINTER else OP_FIXUPS] + (arg1 + arg2) + arg3, op;
      }
      return true, [OP_REGISTER] + (arg1 + arg2), op;
    }

    /** The loop over the fields. */
    method WriteFieldBytes(fields: seq<Field>) returns (ok: bool, bytes: seq<byte>, ghost ops: seq<Op>)
      requires Valid()
      modifies this
      ensures ok <==> WriteFields(arena, fields, old(disk)).Some?
      ensures ok ==> Valid() && (disk, ops) == WriteFields(arena, fields, old(disk)).value && bytes == OpsBytes(ops)
      decreases All(arena) - onDisk, 1, |fields|
    {
      hide OpBytes; hide OneField; hide WriteFields;
      bytes, ops := [], [];
      var i := 0;
      assert fields[0..] == fields;
      NoneBefore(WriteFields(arena, fields, disk));
      while i < |fields|
        invariant 0 <= i <= |fields|
        invariant Valid() && old(onDisk) <= onDisk && bytes == OpsBytes(ops)
        invariant WriteFields(arena, fields, old(disk)) == Behind(ops, WriteFields(arena, fields[i..], disk))
      {
        ghost var d := disk;
        FieldsUnfold(arena, fields[i..], d);
        assert fields[i..][1..] == fields[i + 1..];
        if !fields[i].kind.DeleteKind? {
          var added;
          ghost var op;
          ok, added, op := WriteField(fields[i]);
          if !ok { return; }
          OneOp(op);
          OpsBytesAppend(ops, [op]);
          BehindOne(ops, op, WriteFields(arena, fields[i + 1..], disk));
          bytes, ops := bytes + added, ops + [op];
        }
        i := i + 1;
      }
      assert fields[i..] == [];
      FieldsUnfold(arena, [], disk);
      assert ops + [] == ops;
      ok := true;
    }
  }

  /** What the loop does for a field that is kept. */
  ghost function OneField(arena: Arena, f: Field, d: Disk): (r: Option<(Disk, Op)>)
    requires d.onDisk <= All(arena) && !f.kind.DeleteKind?
    ensures r.Some? ==> d.onDisk <= r.value.0.onDisk <= All(arena)
  {
    if f.kind.CopyKind? then Some((d, CopyField(f.size, f.newOffset, f.oldOffset)))
    else
      var d1 :- Write(arena, f.target, d);
      Some((d1, FixField(f.pointer, f.size, f.newOffset, f.oldOffset, f.target, FdeIdx(d1, f.target))))
  }

  lemma FieldsUnfold(arena: Arena, fields: seq<Field>, d: Disk)
    requires d.onDisk <= All(arena)
    ensures fields == [] ==> WriteFields(arena, fields, d) == Some((d, []))
    ensures fields != [] && fields[0].kind.DeleteKind? ==> WriteFields(arena, fields, d) == WriteFields(arena, fields[1..], d)
    ensures fields != [] && !fields[0].kind.DeleteKind? ==>
              var one := OneField(arena, fields[0], d);
              WriteFields(arena, fields, d)
              == if one.None? then None else Behind([one.value.1], WriteFields(arena, fields[1..], one.value.0))
  {
  }

  /** Instructions in front of those that are still to come. */
  ghost function Behind(ops: seq<Op>, r: Option<(Disk, seq<Op>)>): Option<(Disk, seq<Op>)>
  {
    if r.None? then None else Some((r.value.0, ops + r.value.1))
  }

  lemma NoneBefore(r: Option<(Disk, seq<Op>)>)
    ensures Behind([], r) == r
  {
    if r.Some? { assert [] + r.value.1 == r.value.1; }
  }

  lemma BehindOne(ops: seq<Op>, op: Op, r: Option<(Disk, seq<Op>)>)
    ensures Behind(ops + [op], r) == Behind(ops, Behind([op], r))
  {
    if r.Some? { assert (ops + [op]) + r.value.1 == ops + ([op] + r.value.1); }
  }
}
