/** From type transforms to the patched heap: what the compiler writes, parsed and
    run by the patch machine, transforms every object field by field. */
module EndToEnd {
  import opened Bytes
  import opened Registers
  import opened Cfa
  import opened TableSpec
  import opened RuleVm
  import opened Target
  import opened PatchVm
  import opened Migration
  import opened HeapImage
  import opened OwnTargets
  import opened Compiler
  import opened PatchWriter

  // ----- the rules of an FDE -----

  function OpReg(op: Op): Reg { RuleVm.Target(OpInstr(op)) }

  /** The rule that an instruction leaves for its register. */
  function OpRule(op: Op): Rule
  {
    match OpInstr(op)
    case Register(r, r2) => Rule(r, RegisterRule, r2, 0, 0)
    case Fixups(r, r2, k) => Rule(r, RecurseFixup, r2, 0, k)
    case FixupsPointer(r, r2, k) => Rule(r, RecurseFixupPointer, r2, 0, k)
    case _ => FreshRule(NoReg)
  }

  predicate DistinctTargets(ops: seq<Op>)
  {
    forall i, j :: 0 <= i < j < |ops| ==> OpReg(ops[i]) != OpReg(ops[j])
  }

  function RuleMap(ops: seq<Op>): map<Reg, Rule>
  {
    if ops == [] then map[] else map[OpReg(ops[0]) := OpRule(ops[0])] + RuleMap(ops[1..])
  }

  lemma {:induction false} RuleMapOf(ops: seq<Op>)
    requires DistinctTargets(ops)
    ensures forall r :: r in RuleMap(ops) ==> exists op :: op in ops && OpReg(op) == r && OpRule(op) == RuleMap(ops)[r]
    ensures forall op :: op in ops ==> OpReg(op) in RuleMap(ops) && RuleMap(ops)[OpReg(op)] == OpRule(op)
  {
    hide OpReg; hide OpRule;
    if ops != [] {
      RuleMapOf(ops[1..]);
      forall op | op in ops ensures OpReg(op) in RuleMap(ops) && RuleMap(ops)[OpReg(op)] == OpRule(op) {
        if op in ops[1..] {
          var i :| 0 <= i < |ops[1..]| && ops[1..][i] == op;
          assert OpReg(ops[0]) != OpReg(ops[i + 1]);
        }
      }
      forall r | r in RuleMap(ops) ensures exists op :: op in ops && OpReg(op) == r && OpRule(op) == RuleMap(ops)[r] {
        if r in RuleMap(ops[1..]) {
          var op :| op in ops[1..] && OpReg(op) == r && OpRule(op) == RuleMap(ops[1..])[r];
          assert op in ops;
        } else {
          assert ops[0] in ops;
        }
      }
    }
  }

  lemma RunOp(cie: Cie, op: Op, s: State, stop: int)
    requires DistinctKeys(s.rules) && OpReg(op) !in View(s.rules)
    ensures Exec(cie, OpInstr(op), s, stop).Next?
    ensures var t := Exec(cie, OpInstr(op), s, stop).state;
            DistinctKeys(t.rules) && View(t.rules) == View(s.rules)[OpReg(op) := OpRule(op)]
  {
    hide Set; hide View; hide DistinctKeys;
    ViewGet(s.rules, OpReg(op));
    SetView(s.rules, OpReg(op), OpRule(op), cie.bucket(OpReg(op)));
  }

  /** Running the instructions of an FDE gives one rule for each. */
  lemma {:induction false} RunOps(cie: Cie, ops: seq<Op>, s: State, stop: int)
    requires DistinctKeys(s.rules) && DistinctTargets(ops) && forall op :: op in ops ==> OpReg(op) !in View(s.rules)
    ensures Run(cie, OpInstrs(ops), s, stop).Some?
    ensures var t := Run(cie, OpInstrs(ops), s, stop).value;
            DistinctKeys(t.rules) && View(t.rules) == View(s.rules) + RuleMap(ops)
    decreases |ops|
  {
    hide OpReg; hide OpRule; hide Exec; hide DistinctKeys; hide View; hide OpInstr;
    if ops != [] {
      RunOp(cie, ops[0], s, stop);
      var t := Exec(cie, OpInstr(ops[0]), s, stop).state;
      forall op | op in ops[1..] ensures OpReg(op) !in View(t.rules) {
        var i :| 0 <= i < |ops[1..]| && ops[1..][i] == op;
        assert OpReg(ops[0]) != OpReg(ops[i + 1]);
      }
      assert OpInstrs(ops)[0] == OpInstr(ops[0]) && OpInstrs(ops)[1..] == OpInstrs(ops[1..]);
      RunOps(cie, ops[1..], t, stop);
      assert View(s.rules)[OpReg(ops[0]) := OpRule(ops[0])] + RuleMap(ops[1..]) == View(s.rules) + RuleMap(ops);
    } else {
      assert View(s.rules) + RuleMap(ops) == View(s.rules);
    }
  }

  /** Entries of a table with distinct keys are those of its map. */
  lemma {:induction false} EntryInView<K, V>(t: Table<K, V>, i: nat)
    requires DistinctKeys(t) && i < |t|
    ensures t[i].key in View(t) && View(t)[t[i].key] == t[i].value
  {
    if i > 0 {
      assert t[0].key != t[i].key;
      EntryInView(t[1..], i - 1);
    }
  }

  lemma {:induction false} EntryOfKey<K, V>(t: Table<K, V>, k: K) returns (i: nat)
    requires k in View(t)
    ensures i < |t| && t[i].key == k && t[i].value == View(t)[k]
  {
    if t[0].key == k {
      i := 0;
    } else {
      i := EntryOfKey(t[1..], k);
      i := i + 1;
    }
  }

  // ----- the compiled patch as the machine sees it -----

  /** Where an instruction writes in the new object, and how much. */
  function OpStart(op: Op): nat
  {
    match op
    case CopyAll(_, _) => 0
    case FixPointer(_, _) => 0
    case CopyField(_, n, _) => n
    case FixField(_, _, n, _, _, _) => n
  }

  function LengthOf(d: Disk, k: nat): nat { if 0 < k <= |d.frames| then d.frames[k - 1].length else 0 }

  function OpSpan(d: Disk, op: Op): nat
  {
    match op
    case CopyAll(_, from) => from
    case FixPointer(_, _) => ADDR_SIZE
    case CopyField(size, _, _) => size
    case FixField(pointer, _, _, _, _, fde) => if pointer then ADDR_SIZE else LengthOf(d, fde)
  }

  predicate NoOverlapOps(d: Disk, a: Op, b: Op)
  {
    && OpReg(a) != OpReg(b)
    && (OpStart(a) + OpSpan(d, a) <= OpStart(b) || OpStart(b) + OpSpan(d, b) <= OpStart(a))
  }

  /** The new fields lie in the new struct and do not overlap. */
  predicate OpsFit(d: Disk, ops: seq<Op>, length: nat)
  {
    && (forall op :: op in ops ==> OpStart(op) < HALF_WORD / 2 && OpStart(op) + OpSpan(d, op) <= length)
    && forall i, j :: 0 <= i < j < |ops| ==> NoOverlapOps(d, ops[i], ops[j])
  }

  /** By-value fields are of types with a smaller depth. */
  predicate Shallower(env: Env, k: nat, op: Op)
  {
    op.FixField? && !op.pointer ==> DepthOf(env, op.fde) < DepthOf(env, k)
  }

  /** A valid patch: every struct transform fits, structs contain each other by value
      only to a finite depth, and the FDE indices fit in an int. */
  predicate ValidPatch(env: Env, d: Disk)
  {
    && |d.frames| < HALF_WORD
    && forall k :: 0 <= k < |d.frames| ==>
         && OpsFit(d, d.frames[k].ops, d.frames[k].length)
         && (forall op :: op in d.frames[k].ops ==> Shallower(env, k + 1, op) && SmallIndex(d, op))
  }

  /** Index zero, or the index of an FDE. */
  predicate SmallIndex(d: Disk, op: Op)
  {
    (op.FixField? || op.FixPointer?) ==> op.fde <= |d.frames|
  }

  /** The FDEs of the environment are what is parsed out of the FDEs on disk, padded
      with nops; PO objects start at location zero and have no stop location. */
  predicate Loaded(env: Env, d: Disk, padding: nat -> nat)
  {
    && |env.fdes| == |d.frames|
    && forall k :: 0 <= k < |d.frames| ==>
         && env.fdes[k].lowpc == 0 && env.fdes[k].highpc == 0 && env.fdes[k].memSize == d.frames[k].length
         && ParseProgram(OpsBytes(d.frames[k].ops) + Nops(padding(k))) == Some(env.fdes[k].instrs)
  }

  /** The rules of FDE k + 1 are those of the instructions on disk. */
  ghost predicate RulesOf(rules: Rules, ops: seq<Op>)
  {
    && DistinctKeys(rules)
    && (forall e :: e in rules ==> exists op :: op in ops && OpReg(op) == e.key && OpRule(op) == e.value)
    && forall op :: op in ops ==> exists e :: e in rules && e.value == OpRule(op)
  }

  lemma RulesOfMap(rules: Rules, ops: seq<Op>)
    requires DistinctKeys(rules) && DistinctTargets(ops) && View(rules) == RuleMap(ops)
    ensures RulesOf(rules, ops)
  {
    hide OpReg; hide OpRule; hide View; hide DistinctKeys; hide DistinctTargets; hide RuleMap;
    RuleMapOf(ops);
    forall e | e in rules ensures exists op :: op in ops && OpReg(op) == e.key && OpRule(op) == e.value {
      var i :| 0 <= i < |rules| && rules[i] == e;
      EntryInView(rules, i);
    }
    forall op | op in ops ensures exists e :: e in rules && e.value == OpRule(op) {
      var i := EntryOfKey(rules, OpReg(op));
      assert rules[i] in rules;
    }
  }

  lemma FrameRules(env: Env, d: Disk, padding: nat -> nat, k: nat)
    requires Loaded(env, d, padding) && k < |d.frames| && DistinctTargets(d.frames[k].ops)
    ensures FdeRules(env, k + 1).Some? && RulesOf(FdeRules(env, k + 1).value, d.frames[k].ops)
  {
    hide ParseProgram; hide OpsBytes; hide Run; hide DistinctTargets; hide RulesOf; hide View; hide DistinctKeys; hide OpInstrs;
    var ops, f := d.frames[k].ops, env.fdes[k];
    FrameParses(ops, padding(k));
    var s := State(0, [], []);
    EmptyTable();
    RunOps(f.cie, ops, s, 0);
    var rules := Run(f.cie, OpInstrs(ops), s, 0).value.rules;
    assert map[] + RuleMap(ops) == RuleMap(ops);
    RulesOfMap(rules, ops);
  }

  lemma EmptyTable()
    ensures var t: Rules := []; DistinctKeys(t) && View(t) == map[]
  {
  }

  lemma FitDistinct(d: Disk, ops: seq<Op>, length: nat)
    requires OpsFit(d, ops, length)
    ensures DistinctTargets(ops)
  {
    forall i, j | 0 <= i < j < |ops| ensures OpReg(ops[i]) != OpReg(ops[j]) { assert NoOverlapOps(d, ops[i], ops[j]); }
  }

  /** What the layout of an instruction is as a rule. */
  lemma RuleOfOp(env: Env, d: Disk, padding: nat -> nat, op: Op)
    requires Loaded(env, d, padding) && |d.frames| < HALF_WORD && SmallIndex(d, op)
    ensures var rule := OpRule(op);
            && rule.lh.CurrTargNew? && rule.lh.offset == OpStart(op) && RuleLength(env, rule) == OpSpan(d, op)
            && (rule.kind.RecurseFixup? <==> op.FixField? && !op.pointer)
            && (rule.kind.RecurseFixup? || rule.kind.RecurseFixupPointer? ==> rule.index == op.fde)
  {
    if op.FixField? || op.FixPointer? {
      SmallMod(op.fde, HALF_WORD);
      SameSize(env, d, padding, op.fde);
    }
    hide Loaded; hide MemSize; hide LengthOf; hide ParseProgram; hide OpsBytes;
    RuleShape(op);
    hide OpInstr; hide OpRule;
  }

  /** The rule of an instruction, spelled out. */
  lemma RuleShape(op: Op)
    ensures var r := OpRule(op);
            match op
            case CopyAll(to, from) => r == Rule(CurrTargNew(to, 0), RegisterRule, CurrTargOld(from, 0), 0, 0)
            case CopyField(size, n, o) => r == Rule(CurrTargNew(size, n), RegisterRule, CurrTargOld(size, o), 0, 0)
            case FixPointer(_, k) =>
              r == Rule(CurrTargNew(ADDR_SIZE, 0), RecurseFixupPointer, CurrTargOld(ADDR_SIZE, 0), 0, k % HALF_WORD)
            case FixField(p, size, n, o, _, k) =>
              r == Rule(CurrTargNew(size, n), if p then RecurseFixupPointer else RecurseFixup, CurrTargOld(size, o), 0, k % HALF_WORD)
  {
  }

  lemma SameSize(env: Env, d: Disk, padding: nat -> nat, k: nat)
    requires Loaded(env, d, padding)
    ensures MemSize(env, k) == LengthOf(d, k)
  {
    hide ParseProgram; hide OpsBytes;
  }

  /** The compiled patch meets what the patch machine asks for. */
  lemma PatchIsSound(env: Env, d: Disk, padding: nat -> nat)
    requires Loaded(env, d, padding) && ValidPatch(env, d)
    ensures Nested(env) && WellLaid(env)
  {
    hide OpRule; hide OpReg; hide Loaded; hide OpsFit;
    forall k: nat | FdeRules(env, k).Some?
      ensures LaidOut(env, FdeRules(env, k).value, MemSize(env, k))
      ensures forall e :: e in FdeRules(env, k).value ==> Descends(env, k, e.value)
    {
      FrameSound(env, d, padding, k);
    }
  }

  lemma FrameSound(env: Env, d: Disk, padding: nat -> nat, k: nat)
    requires Loaded(env, d, padding) && ValidPatch(env, d) && FdeRules(env, k).Some?
    ensures LaidOut(env, FdeRules(env, k).value, MemSize(env, k))
    ensures forall e :: e in FdeRules(env, k).value ==> Descends(env, k, e.value)
  {
    var ops, rules := FrameOf(env, d, padding, k);
    var size := MemSize(env, k);
    hide *;
    forall e | e in rules ensures Descends(env, k, e.value) && Inside(env, e.value, size) {
      var op := EntrySound(env, d, padding, k, ops, rules, e, size);
    }
    forall i, j | 0 <= i < j < |rules| ensures Apart(env, rules[i].value, rules[j].value) {
      EntriesApart(env, d, padding, k, ops, rules, size, i, j);
    }
    LaidOutFrom(env, rules, size);
  }

  lemma LaidOutFrom(env: Env, rules: Rules, size: nat)
    requires forall e :: e in rules ==> Inside(env, e.value, size)
    requires forall i, j :: 0 <= i < j < |rules| ==> Apart(env, rules[i].value, rules[j].value)
    ensures LaidOut(env, rules, size)
  {
    hide Inside; hide Apart;
  }

  lemma InRange(env: Env, d: Disk, padding: nat -> nat, k: nat)
    requires Loaded(env, d, padding) && ValidPatch(env, d) && FdeRules(env, k).Some?
    ensures 0 < k <= |d.frames| && |d.frames| == |env.fdes|
  {
    hide ParseProgram; hide OpsBytes; hide Run;
  }

  lemma FrameOf(env: Env, d: Disk, padding: nat -> nat, k: nat) returns (ops: seq<Op>, rules: Rules)
    requires Loaded(env, d, padding) && ValidPatch(env, d) && FdeRules(env, k).Some?
    ensures 0 < k <= |d.frames| < HALF_WORD && ops == d.frames[k - 1].ops && rules == FdeRules(env, k).value
    ensures FrameOk(env, d, k, ops, MemSize(env, k)) && RulesOf(rules, ops)
  {
    hide *;
    InRange(env, d, padding, k);
    FrameValid(env, d, padding, k);
    ops, rules := d.frames[k - 1].ops, FdeRules(env, k).value;
    var j: nat := k - 1;
    FrameRules(env, d, padding, j);
    assert j + 1 == k;
  }

  /** What is known about the instructions of one FDE. */
  ghost predicate FrameOk(env: Env, d: Disk, k: nat, ops: seq<Op>, size: nat)
  {
    OpsFit(d, ops, size) && forall op :: op in ops ==> Shallower(env, k, op) && SmallIndex(d, op)
  }

  lemma FrameValid(env: Env, d: Disk, padding: nat -> nat, k: nat)
    requires Loaded(env, d, padding) && ValidPatch(env, d) && 0 < k <= |env.fdes|
    ensures k <= |d.frames| && FrameOk(env, d, k, d.frames[k - 1].ops, MemSize(env, k))
    ensures DistinctTargets(d.frames[k - 1].ops) && |d.frames| < HALF_WORD
  {
    hide ParseProgram; hide OpsBytes; hide OpsFit; hide DistinctTargets;
    var f := d.frames[k - 1];
    assert OpsFit(d, f.ops, f.length);
    forall op | op in f.ops ensures Shallower(env, k, op) && SmallIndex(d, op) {
      assert Shallower(env, k - 1 + 1, op);
    }
    FitDistinct(d, f.ops, f.length);
  }

  lemma EntrySound(env: Env, d: Disk, padding: nat -> nat, k: nat, ops: seq<Op>, rules: Rules, e: Entry<Reg, Rule>, size: nat)
    returns (op: Op)
    requires Loaded(env, d, padding) && FrameOk(env, d, k, ops, size) && RulesOf(rules, ops) && e in rules && |d.frames| < HALF_WORD
    ensures op in ops && OpReg(op) == e.key && OpRule(op) == e.value && SmallIndex(d, op)
    ensures Descends(env, k, e.value) && Inside(env, e.value, size)
  {
    hide *;
    op := OpOfEntry(rules, ops, e);
    OpFits(env, d, k, ops, size, op);
    RuleOfOp(env, d, padding, op);
    RuleFits(env, d, k, op, size);
  }

  lemma RuleFits(env: Env, d: Disk, k: nat, op: Op, size: nat)
    requires OpStart(op) < HALF_WORD / 2 && OpStart(op) + OpSpan(d, op) <= size && Shallower(env, k, op)
    requires var rule := OpRule(op);
             && rule.lh.CurrTargNew? && rule.lh.offset == OpStart(op) && RuleLength(env, rule) == OpSpan(d, op)
             && (rule.kind.RecurseFixup? ==> op.FixField? && !op.pointer && rule.index == op.fde)
    ensures Descends(env, k, OpRule(op)) && Inside(env, OpRule(op), size)
  {
    hide OpStart; hide OpSpan; hide OpRule; hide RuleLength; hide DepthOf;
  }

  lemma OpOfEntry(rules: Rules, ops: seq<Op>, e: Entry<Reg, Rule>) returns (op: Op)
    requires RulesOf(rules, ops) && e in rules
    ensures op in ops && OpReg(op) == e.key && OpRule(op) == e.value
  {
    hide OpReg; hide OpRule; hide DistinctKeys;
    op :| op in ops && OpReg(op) == e.key && OpRule(op) == e.value;
  }

  lemma OpFits(env: Env, d: Disk, k: nat, ops: seq<Op>, size: nat, op: Op)
    requires FrameOk(env, d, k, ops, size) && op in ops
    ensures OpStart(op) < HALF_WORD / 2 && OpStart(op) + OpSpan(d, op) <= size && Shallower(env, k, op) && SmallIndex(d, op)
  {
    hide OpStart; hide OpSpan; hide OpReg;
  }

  lemma EntryKeysDiffer(rules: Rules, ops: seq<Op>, i: nat, j: nat)
    requires RulesOf(rules, ops) && i < j < |rules|
    ensures rules[i].key != rules[j].key
  {
    hide OpReg; hide OpRule;
  }

  lemma EntriesApart(env: Env, d: Disk, padding: nat -> nat, k: nat, ops: seq<Op>, rules: Rules, size: nat, i: nat, j: nat)
    requires Loaded(env, d, padding) && FrameOk(env, d, k, ops, size) && RulesOf(rules, ops) && |d.frames| < HALF_WORD
    requires i < j < |rules|
    ensures Apart(env, rules[i].value, rules[j].value)
  {
    hide *;
    EntryKeysDiffer(rules, ops, i, j);
    var a := EntrySound(env, d, padding, k, ops, rules, rules[i], size);
    var b := EntrySound(env, d, padding, k, ops, rules, rules[j], size);
    RuleOfOp(env, d, padding, a);
    RuleOfOp(env, d, padding, b);
    FrameOps(env, d, k, ops, size);
    TwoOps(d, ops, size, a, b);
    ApartFrom(env, rules[i].value, rules[j].value);
  }

  lemma FrameOps(env: Env, d: Disk, k: nat, ops: seq<Op>, size: nat)
    requires FrameOk(env, d, k, ops, size)
    ensures OpsFit(d, ops, size)
  {
  }

  lemma ApartFrom(env: Env, r: Rule, s: Rule)
    requires r.lh.CurrTargNew? && s.lh.CurrTargNew?
    requires r.lh.offset + RuleLength(env, r) <= s.lh.offset || s.lh.offset + RuleLength(env, s) <= r.lh.offset
    ensures Apart(env, r, s)
  {
    hide RuleLength;
  }

  lemma TwoOps(d: Disk, ops: seq<Op>, length: nat, a: Op, b: Op)
    requires OpsFit(d, ops, length) && a in ops && b in ops && OpReg(a) != OpReg(b)
    ensures OpStart(a) + OpSpan(d, a) <= OpStart(b) || OpStart(b) + OpSpan(d, b) <= OpStart(a)
  {
    var i :| 0 <= i < |ops| && ops[i] == a;
    var j :| 0 <= j < |ops| && ops[j] == b;
    if i < j { assert NoOverlapOps(d, ops[i], ops[j]); } else { assert NoOverlapOps(d, ops[j], ops[i]); }
  }

  // ----- field by field -----

  /** The bytes at src before are those at dst after. */
  predicate Copied(env: Env, src: word, n: nat, dst: word, after: Memory)
  {
    ReadMemory(env.mem, src, n).Some? && Holds(after, dst, ReadMemory(env.mem, src, n).value)
  }

  /** The pointer at dst leads to the recorded new place of what the one at src led to, and
      if that was not null it is one of own.  If its record is its own and the patch puts the symbol
      it lies in somewhere, it leads there. */
  ghost predicate Redirected(env: Env, src: word, dst: word, moves: Moves, after: Memory, own: set<word>)
  {
    && ReadMemory(env.mem, src, 8).Some?
    && var bs := ReadMemory(env.mem, src, 8).value;
       && 0 <= Unsigned(bs) < WORD
       && NewPointer(env, Unsigned(bs), moves).Some? && (Unsigned(bs) == 0 || Unsigned(bs) in own)
       && Holds(after, dst, ToBytes(NewPointer(env, Unsigned(bs), moves).value, 8))
       && (Unsigned(bs) != 0 && Unsigned(bs) in Own(env, moves) && env.locate(Unsigned(bs)).Moved? ==>
             Holds(after, dst, ToBytes(env.locate(Unsigned(bs)).to, 8)))
  }

  /** What an instruction should achieve for an object moved from old_ to new_. */
  ghost predicate FieldDone(env: Env, d: Disk, k: nat, op: Op, old_: word, new_: word, moves: Moves, after: Memory, own: set<word>)
    requires ValidPatch(env, d) && Shallower(env, k, op)
    decreases DepthOf(env, k), 0
  {
    match op
    case CopyAll(_, from) => Copied(env, old_, from, new_, after)
    case CopyField(size, n, o) => Copied(env, Displaced(old_, o), size, Displaced(new_, n), after)
    case FixPointer(_, _) => Redirected(env, old_, new_, moves, after, own)
    case FixField(pointer, _, n, o, _, fde) =>
      if pointer then Redirected(env, Displaced(old_, o), Displaced(new_, n), moves, after, own)
      else Transformed(env, d, fde, Displaced(old_, o), Displaced(new_, n), moves, after, own)
  }

  /** The object at new_ is the transform, by the transform of FDE k, of the one at
      old_: its fields are copied to their new offsets, its pointers redirected, and
      the structs inside it transformed. */
  ghost predicate Transformed(env: Env, d: Disk, k: nat, old_: word, new_: word, moves: Moves, after: Memory, own: set<word>)
    requires ValidPatch(env, d)
    decreases DepthOf(env, k), 1
  {
    0 < k <= |d.frames| &&
    forall op :: op in d.frames[k - 1].ops ==>
      assert Shallower(env, k, op) by { assert Shallower(env, k - 1 + 1, op); }
      FieldDone(env, d, k, op, old_, new_, moves, after, own)
  }

  lemma OpFieldDone(env: Env, d: Disk, padding: nat -> nat, k: nat, op: Op, regs: Regs, moves: Moves, after: Memory, own: set<word>)
    requires Loaded(env, d, padding) && ValidPatch(env, d) && Nested(env) && Shallower(env, k, op) && SmallIndex(d, op) && AllLed(env, moves)
    requires Descends(env, k, OpRule(op)) && RuleClosed(env, k, OpRule(op), regs, moves)
    requires RuleFollows(env, k, OpRule(op), regs, own)
    requires FieldRight(env, k, OpRule(op), regs, moves, after)
    ensures FieldDone(env, d, k, op, regs.addrOld, regs.addrNew, moves, after, own)
    decreases DepthOf(env, k), 0
  {
    RuleOfOp(env, d, padding, op);
    if op.FixField? && !op.pointer {
      var o, n := Displaced(regs.addrOld, op.oldOffset), Displaced(regs.addrNew, op.newOffset);
      ObjectDone(env, d, padding, op.fde, Regs(o, n), moves, after, own);
    } else {
      PlainFieldDone(env, d, k, op, regs, moves, after, own);
    }
  }

  lemma PlainFieldDone(env: Env, d: Disk, k: nat, op: Op, regs: Regs, moves: Moves, after: Memory, own: set<word>)
    requires ValidPatch(env, d) && Nested(env) && Shallower(env, k, op) && !(op.FixField? && !op.pointer) && AllLed(env, moves)
    requires Descends(env, k, OpRule(op)) && RuleClosed(env, k, OpRule(op), regs, moves)
    requires RuleFollows(env, k, OpRule(op), regs, own)
    requires FieldRight(env, k, OpRule(op), regs, moves, after)
    ensures FieldDone(env, d, k, op, regs.addrOld, regs.addrNew, moves, after, own)
  {
    hide ValidPatch, Nested, ReadMemory, Holds, NewPointer, ToBytes, Unsigned, Own, AllLed;
    SmallMod(regs.addrOld, WORD);
    SmallMod(regs.addrNew, WORD);
    assert AsInt(0) == 0;
    if op.FixPointer? {
      PointerDone(env, regs.addrOld, regs.addrNew, moves, after, own);
    } else if op.FixField? {
      PointerDone(env, Displaced(regs.addrOld, op.oldOffset), Displaced(regs.addrNew, op.newOffset), moves, after, own);
    }
  }

  /** A pointer that holds its recorded new value. */
  lemma PointerDone(env: Env, src: word, dst: word, moves: Moves, after: Memory, own: set<word>)
    requires AllLed(env, moves)
    ensures ReadMemory(env.mem, src, 8).Some? ==>
      var bs := ReadMemory(env.mem, src, 8).value;
      && 0 <= Unsigned(bs) < WORD
      && (NewPointer(env, Unsigned(bs), moves).Some? && (Unsigned(bs) == 0 || Unsigned(bs) in own)
          && Holds(after, dst, ToBytes(NewPointer(env, Unsigned(bs), moves).value, 8))
          ==> Redirected(env, src, dst, moves, after, own))
  {
    hide AllLed, Holds, NewPointer, ToBytes, Unsigned, Own;
    if ReadMemory(env.mem, src, 8).Some? {
      var bs := ReadMemory(env.mem, src, 8).value;
      hide ReadMemory;
      UnsignedBelow8(bs);
      OwnLed(env, moves, Unsigned(bs));
    }
  }


  /** An address with a record of its own goes where its symbol goes. */
  lemma OwnLed(env: Env, moves: Moves, p: word)
    requires AllLed(env, moves)
    ensures p != 0 && p in Own(env, moves) && env.locate(p).Moved? ==> NewPointer(env, p, moves) == Some(env.locate(p).to)
  {
    if p in Own(env, moves) { assert Led(env, moves[KeyOf(env, p)]); }
  }

  lemma ObjectDone(env: Env, d: Disk, padding: nat -> nat, k: nat, regs: Regs, moves: Moves, after: Memory, own: set<word>)
    requires Loaded(env, d, padding) && ValidPatch(env, d) && Nested(env) && AllLed(env, moves)
    requires ObjectClosed(env, k, regs, moves) && Migrated(env, k, regs, moves, after) && ObjectFollows(env, k, regs, own)
    ensures Transformed(env, d, k, regs.addrOld, regs.addrNew, moves, after, own)
    decreases DepthOf(env, k), 1
  {
    var rs := ClosedRules(env, k, regs, moves);
    hide *;
    var ops, rules := FrameOf(env, d, padding, k);
    forall op | op in ops
      ensures Shallower(env, k, op) && FieldDone(env, d, k, op, regs.addrOld, regs.addrNew, moves, after, own)
    {
      var e := RuleFor(env, d, k, ops, rules, op);
      EntryRight(env, k, regs, moves, after, own, rules, e);
      OpFieldDone(env, d, padding, k, op, regs, moves, after, own);
    }
    TransformedFrom(env, d, k, regs.addrOld, regs.addrNew, moves, after, own);
  }

  lemma ClosedRules(env: Env, k: nat, regs: Regs, moves: Moves) returns (rs: Rules)
    requires Nested(env) && ObjectClosed(env, k, regs, moves)
    ensures FdeRules(env, k) == Some(rs)
  {
    rs := FdeRules(env, k).value;
  }

  lemma TransformedFrom(env: Env, d: Disk, k: nat, old_: word, new_: word, moves: Moves, after: Memory, own: set<word>)
    requires ValidPatch(env, d) && 0 < k <= |d.frames|
    requires forall op :: op in d.frames[k - 1].ops ==> Shallower(env, k, op) && FieldDone(env, d, k, op, old_, new_, moves, after, own)
    ensures Transformed(env, d, k, old_, new_, moves, after, own)
  {
    hide FieldDone; hide Shallower;
  }

  lemma RuleFor(env: Env, d: Disk, k: nat, ops: seq<Op>, rules: Rules, op: Op) returns (e: Entry<Reg, Rule>)
    requires RulesOf(rules, ops) && op in ops && FrameOk(env, d, k, ops, MemSize(env, k))
    ensures e in rules && e.value == OpRule(op) && Shallower(env, k, op) && SmallIndex(d, op)
  {
    hide OpRule; hide OpsFit; hide OpReg;
    e :| e in rules && e.value == OpRule(op);
  }

  lemma EntryRight(env: Env, k: nat, regs: Regs, moves: Moves, after: Memory, own: set<word>, rules: Rules, e: Entry<Reg, Rule>)
    requires Nested(env) && ObjectClosed(env, k, regs, moves) && Migrated(env, k, regs, moves, after)
    requires ObjectFollows(env, k, regs, own) && FdeRules(env, k) == Some(rules) && e in rules
    ensures Descends(env, k, e.value) && RuleClosed(env, k, e.value, regs, moves) && RuleFollows(env, k, e.value, regs, own)
    ensures FieldRight(env, k, e.value, regs, moves, after)
  {
    hide FdeRules; hide RuleClosed; hide FieldRight; hide RuleFollows;
  }

  /** Every object of a call is the transform of its old self, its pointers among own. */
  ghost predicate ObjectsTransformed(env: Env, d: Disk, objects: set<Object>, moves: Moves, after: Memory, own: set<word>)
    requires ValidPatch(env, d)
  {
    forall x :: x in objects ==> Transformed(env, d, x.fde, x.regs.addrOld, x.regs.addrNew, moves, after, own)
  }

  /** The whole way: transforms compiled to bytes, parsed, evaluated to rules and
      executed leave the variable and every object that was moved on its behalf as the
      field-by-field transform of its old self.  Under the condition on the old heap every
      pointer leads to the new place of its own target, and sharing is kept. */
  lemma CompiledMigration(env: Env, d: Disk, padding: nat -> nat, image: Block, root: Object, h: Heap)
    requires Loaded(env, d, padding) && ValidPatch(env, d) && FreshMalloc(env, image)
    requires h.moved.Keys <= AllKeys() && HeapOk(env, image, h)
    ensures Nested(env)
    ensures var r := GenFde(env, root.fde, root.regs, h);
            r.Some? && SymbolsPlaced(env, image, SymbolObjects(root, r.value.0)) ==>
              var (h', ps) := r.value;
              && HeapOk(env, image, h') && InSpace(ps)
              && ObjectsTransformed(env, d, Objects(root, h, h'), h'.moved, ApplyAll(env.mem, ps), AllWords())
              && (OwnCondition(env, root, h) ==>
                    && ObjectsTransformed(env, d, Objects(root, h, h'), h'.moved, ApplyAll(env.mem, ps), Own(env, h'.moved))
                    && SharingKept(env, h'.moved))
              && forall a: word :: ImageAt(env, Objects(root, h, h'), h'.moved, env.mem, ApplyAll(env.mem, ps), a)
  {
    hide *;
    PatchIsSound(env, d, padding);
    var r := GenFde(env, root.fde, root.regs, h);
    if r.Some? && SymbolsPlaced(env, image, SymbolObjects(root, r.value.0)) {
      MigrationCorrect(env, image, root, h);
      var (h', ps) := r.value;
      FollowEverything(env, root, h, h');
      AllTransformed(env, d, padding, root, h, h', ApplyAll(env.mem, ps), AllWords());
      OwnTargetsIff(env, image, root, h);
      if OwnCondition(env, root, h) {
        FollowOwn(env, root, h, h');
        AllTransformed(env, d, padding, root, h, h', ApplyAll(env.mem, ps), Own(env, h'.moved));
        Shared(env, image, root, h');
      }
    }
  }

  ghost predicate ObjectsFollow(env: Env, objects: set<Object>, own: set<word>)
    requires Nested(env)
  {
    forall x :: x in objects ==> ObjectFollows(env, x.fde, x.regs, own)
  }

  lemma FollowOwn(env: Env, root: Object, h: Heap, h': Heap)
    requires Nested(env) && OwnAll(env, root, h, h')
    ensures ObjectsFollow(env, Objects(root, h, h'), Own(env, h'.moved))
  {
    hide ObjectFollows, Own;
    forall x | x in Objects(root, h, h') ensures ObjectFollows(env, x.fde, x.regs, Own(env, h'.moved)) {
      if x != root {
        var key :| key in h'.moved && key !in h.moved && ObjectOf(h'.moved[key]) == x;
        assert IsNew(h, h', key);
        assert MoveFollows(env, h'.moved[key], Own(env, h'.moved));
      }
    }
  }

  lemma FollowEverything(env: Env, root: Object, h: Heap, h': Heap)
    requires Nested(env)
    ensures ObjectsFollow(env, Objects(root, h, h'), AllWords())
  {
    hide ObjectFollows;
    forall x | x in Objects(root, h, h') ensures ObjectFollows(env, x.fde, x.regs, AllWords()) {
      AllFollow(env, x.fde, x.regs);
    }
  }

  lemma AllFollow(env: Env, k: nat, regs: Regs)
    requires Nested(env)
    ensures ObjectFollows(env, k, regs, AllWords())
    decreases DepthOf(env, k)
  {
    if FdeRules(env, k).Some? {
      forall e | e in FdeRules(env, k).value ensures RuleFollows(env, k, e.value, regs, AllWords()) {
        var rule := e.value;
        if rule.kind.RecurseFixup? && ResolveAddress(env, rule.rh, regs).Some? && ResolveTarget(rule.lh, regs).Some? {
          AllFollow(env, rule.index, Regs(ResolveAddress(env, rule.rh, regs).value, ResolveTarget(rule.lh, regs).value));
        }
      }
    }
  }

  lemma AllTransformed(env: Env, d: Disk, padding: nat -> nat, root: Object, h: Heap, h': Heap, after: Memory, own: set<word>)
    requires Loaded(env, d, padding) && ValidPatch(env, d) && Nested(env) && VariableMigrated(env, root, h, h', env.mem, after)
    requires ObjectsFollow(env, Objects(root, h, h'), own)
    ensures ObjectsTransformed(env, d, Objects(root, h, h'), h'.moved, after, own)
    ensures forall a: word :: ImageAt(env, Objects(root, h, h'), h'.moved, env.mem, after, a)
  {
    hide Objects; hide ImageAt; hide Migrated; hide ObjectClosed; hide Transformed; hide Loaded; hide ValidPatch; hide Nested;
    hide ObjectFollows;
    forall x | x in Objects(root, h, h')
      ensures Transformed(env, d, x.fde, x.regs.addrOld, x.regs.addrNew, h'.moved, after, own)
    {
      ObjectDone(env, d, padding, x.fde, x.regs, h'.moved, after, own);
    }
  }

  // ----- in terms of the type transforms -----

  /** What a kept field of a struct transform should become. */
  ghost predicate FieldOfTypeDone(env: Env, arena: Arena, d: Disk, f: Field, old_: word, new_: word, moves: Moves, after: Memory, own: set<word>)
    requires ValidPatch(env, d)
  {
    var src, dst := Displaced(old_, f.oldOffset), Displaced(new_, f.newOffset);
    match f.kind
    case DeleteKind => true
    case CopyKind => Copied(env, src, f.size, dst, after)
    case RecurseKind =>
      && Named(arena, d, f.target)
      && if f.pointer then Redirected(env, src, dst, moves, after, own)
         else Transformed(env, d, d.fde[f.target], src, dst, moves, after, own)
  }

  /** When the compiler was right, an object of a type is transformed as the type's
      transform says: a straight copy, a redirected pointer, or field by field, where
      a nested struct is transformed by the FDE of its own type. */
  lemma TypeTransformed(env: Env, arena: Arena, d: Disk, t: nat, old_: word, new_: word, moves: Moves, after: Memory, own: set<word>)
    requires ValidPatch(env, d) && Correct(arena, d) && Named(arena, d, t)
    requires Transformed(env, d, d.fde[t], old_, new_, moves, after, own)
    ensures var u := d.frames[d.fde[t] - 1].die;
            && Leads(arena, t, u) && u < |arena|
            && var tr := arena[u];
               && (tr.straight ==> Copied(env, old_, tr.fromLength, new_, after))
               && (!tr.straight && tr.category.Pointer? ==> Redirected(env, old_, new_, moves, after, own))
               && (!tr.straight && tr.category.Struct? ==>
                    forall f :: f in tr.fields ==> FieldOfTypeDone(env, arena, d, f, old_, new_, moves, after, own))
  {
    hide ValidPatch; hide Copied; hide Redirected; hide Leads; hide Shallower;
    var k := d.fde[t];
    assert FrameRight(arena, d, k - 1);
    var tr := arena[d.frames[k - 1].die];
    var ops := d.frames[k - 1].ops;
    if tr.straight || tr.category.Pointer? {
      OpDone(env, d, k, ops[0], old_, new_, moves, after, own);
    } else if tr.category.Struct? {
      forall f | f in tr.fields ensures FieldOfTypeDone(env, arena, d, f, old_, new_, moves, after, own) {
        if !f.kind.DeleteKind? {
          var op := OpOfField(tr.fields, d, f);
          OpDone(env, d, k, op, old_, new_, moves, after, own);
        }
      }
    }
  }

  lemma OpDone(env: Env, d: Disk, k: nat, op: Op, old_: word, new_: word, moves: Moves, after: Memory, own: set<word>)
    requires ValidPatch(env, d) && Transformed(env, d, k, old_, new_, moves, after, own) && op in d.frames[k - 1].ops
    ensures Shallower(env, k, op) && FieldDone(env, d, k, op, old_, new_, moves, after, own)
  {
    hide FieldDone; hide OpsFit;
    assert Shallower(env, k - 1 + 1, op);
  }

  lemma {:induction false} OpOfField(fields: seq<Field>, d: Disk, f: Field) returns (op: Op)
    requires f in fields && !f.kind.DeleteKind?
    ensures op in FieldOps(fields, d)
    ensures f.kind.CopyKind? ==> op == CopyField(f.size, f.newOffset, f.oldOffset)
    ensures f.kind.RecurseKind? ==> op == FixField(f.pointer, f.size, f.newOffset, f.oldOffset, f.target, FdeIdx(d, f.target))
    ensures f.kind.RecurseKind? ==> f.target in FieldEdges(fields)
  {
    if fields[0] == f {
      op := FieldOps(fields, d)[0];
    } else {
      op := OpOfField(fields[1..], d, f);
    }
  }
}
