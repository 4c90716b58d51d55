/** evaluateInstructionsToRules (dwarfvm.c): the machine that runs call frame
    instructions and leaves a table of register rules. */
module RuleVm {
  import opened Bytes
  import opened Registers
  import opened Expressions
  import opened Cfa
  import opened TableSpec

  datatype Kind = Undef | OffsetRule | RegisterRule | CfaRule | RecurseFixup | RecurseFixupPointer

  /** PoRegRule.  An instruction sets the kind and only the fields it needs, so the
      others keep what an earlier instruction for the same register left there. */
  datatype Rule = Rule(lh: Reg, kind: Kind, rh: Reg, offset: int, index: word)

  type Rules = Table<Reg, Rule>

  /** What the machine knows about the CIE.  bucket is the hash of a register. */
  datatype Cie = Cie(codeAlign: nat, dataAlign: int, initialRules: Rules, bucket: Reg -> nat)

  datatype State = State(loc: int, rules: Rules, stack: seq<Rules>)

  datatype Outcome = Next(state: State) | Stop(state: State) | Death

  /** The register an instruction is about: the CFA for the def_cfa family. */
  function Target(i: Instr): Reg
  {
    match i
    case DefCfa(_, _) => CfaReg
    case DefCfaRegister(_) => CfaReg
    case DefCfaOffset(_) => CfaReg
    case Offset(r, _) => r
    case OffsetExtended(r, _) => r
    case OffsetExtendedSf(r, _) => r
    case Restore(num) => Basic(num % HALF_WORD)
    case Undefined(r) => r
    case SameValue(r) => r
    case Register(r, _) => r
    case Expression(r, _) => r
    case ValExpression(r, _) => r
    case Fixups(r, _, _) => r
    case FixupsPointer(r, _, _) => r
    case _ => NoReg
  }

  /** The offset in an int: the product is computed in 64 bits and truncated. */
  function Scaled(off: word, dataAlign: int): int { AsInt(off * dataAlign % WORD) }

  /** What the instruction makes of the rule for its register. */
  function NewRule(cie: Cie, i: Instr, rule: Rule): Option<Rule>
  {
    match i
    case Undefined(_) => Some(rule.(kind := Undef))
    case Offset(_, off) => Some(rule.(kind := OffsetRule, offset := Scaled(off, cie.dataAlign)))
    case Register(_, reg2) => Some(rule.(kind := RegisterRule, rh := reg2))
    case DefCfa(reg, off) => Some(rule.(kind := CfaRule, rh := reg, offset := AsInt(off)))
    case DefCfaRegister(reg) => Some(rule.(kind := CfaRule, rh := reg))
    case DefCfaOffset(off) => Some(rule.(kind := CfaRule, offset := AsInt(off)))
    case Restore(_) => Get(cie.initialRules, Target(i))
    case Fixups(_, reg2, fde) => Some(rule.(kind := RecurseFixup, rh := reg2, index := fde))
    case FixupsPointer(_, reg2, fde) => Some(rule.(kind := RecurseFixupPointer, rh := reg2, index := fde))
    case Expression(_, _) => Some(rule)
    case ValExpression(_, _) => Some(rule)
    case _ => None
  }

  function FreshRule(reg: Reg): Rule { Rule(reg, Undef, NoReg, 0, 0) }

  /** The part of the machine that changes one rule. */
  function Assign(cie: Cie, i: Instr, s: State): Outcome
  {
    var reg := Target(i);
    if reg.NoReg? then Death
    else
      var present := Get(s.rules, reg);
      var rule := NewRule(cie, i, if present.Some? then present.value else FreshRule(reg));
      if rule.None? then Death
      else Next(s.(rules := Set(s.rules, reg, rule.value, cie.bucket(reg))))
  }

  /** restore_state: every saved rule is copied over; rules for registers that had
      none when the state was saved stay. */
  function Merge(rules: Rules, saved: Rules, bucket: Reg -> nat): Rules
    decreases |saved|
  {
    if saved == [] then rules
    else Merge(Set(rules, saved[0].key, saved[0].value, bucket(saved[0].key)), saved[1..], bucket)
  }

  /** One instruction.  A stop location that is negative is ignored; otherwise the
      location must not be advanced past it.  The test uses the factored delta. */
  function Exec(cie: Cie, i: Instr, s: State, stop: int): Outcome
  {
    match i
    case SetLoc(a) => if stop >= 0 && a > stop then Stop(s) else Next(s.(loc := a))
    case AdvanceLoc(d) => Advance(cie, d, s, stop)
    case AdvanceLoc1(d) => Advance(cie, d, s, stop)
    case AdvanceLoc2(d) => Advance(cie, d, s, stop)
    case RememberState => Next(s.(stack := s.stack + [s.rules]))
    case RestoreState =>
      if s.stack == [] then Death
      else
        var saved := s.stack[|s.stack| - 1];
        Next(s.(rules := Merge(s.rules, saved, cie.bucket), stack := s.stack[..|s.stack| - 1]))
    case _ => Assign(cie, i, s)
  }

  function Advance(cie: Cie, d: word, s: State, stop: int): Outcome
  {
    if stop >= 0 && s.loc + d > stop then Stop(s) else Next(s.(loc := s.loc + d * cie.codeAlign))
  }

  /** The whole run. */
  function Run(cie: Cie, p: seq<Instr>, s: State, stop: int): Option<State>
  {
    if p == [] then Some(s)
    else match Exec(cie, p[0], s, stop)
      case Next(t) => Run(cie, p[1..], t, stop)
      case Stop(t) => Some(t)
      case Death => None
  }

  /** The interpreter loop. */
  method EvaluateInstructionsToRules(cie: Cie, instrs: seq<Instr>, start: State, stopLocation: int)
    returns (end: Option<State>)
    ensures end == Run(cie, instrs, start, stopLocation)
  {
    var state := start;
    assert instrs[0..] == instrs;
    for i := 0 to |instrs|
      invariant Run(cie, instrs, start, stopLocation) == Run(cie, instrs[i..], state, stopLocation)
    {
      hide Exec;
      assert instrs[i..][1..] == instrs[i + 1..];
      match Exec(cie, instrs[i], state, stopLocation)
      case Next(t) => state := t;
      case Stop(t) => return Some(t);
      case Death => return None;
    }
    return Some(state);
  }

  // ----- rows (section 6.4.3 of DWARF version 4) -----

  /** A row of the fully expanded table: where it starts and its rules. */
  datatype Row = Row(loc: int, rules: Rules)

  predicate IsAdvance(i: Instr) { i.SetLoc? || i.AdvanceLoc? || i.AdvanceLoc1? || i.AdvanceLoc2? }

  /** The fully expanded table: every advance completes a row. */
  function Rows(cie: Cie, p: seq<Instr>, s: State): Option<seq<Row>>
  {
    if p == [] then Some([Row(s.loc, s.rules)])
    else match Exec(cie, p[0], s, -1)
      case Next(t) => Prefixed(if IsAdvance(p[0]) then [Row(s.loc, s.rules)] else [], Rows(cie, p[1..], t))
      case Stop(_) => None
      case Death => None
  }

  /** set_loc never goes back. */
  predicate Forward(cie: Cie, p: seq<Instr>, s: State)
  {
    p == [] ||
    match Exec(cie, p[0], s, -1)
    case Next(t) => s.loc <= t.loc && Forward(cie, p[1..], t)
    case Stop(_) => true
    case Death => true
  }

  /** The last row that starts at or below a location. */
  function RowFor(rows: seq<Row>, stop: int): Row
    requires rows != []
  {
    if |rows| > 1 && rows[|rows| - 1].loc > stop then RowFor(rows[..|rows| - 1], stop)
    else rows[|rows| - 1]
  }

  lemma {:induction false} RowForAppend(a: seq<Row>, b: seq<Row>, stop: int)
    requires b != []
    ensures b[0].loc <= stop ==> RowFor(a + b, stop) == RowFor(b, stop)
    ensures a != [] && (forall i :: 0 <= i < |b| ==> b[i].loc > stop) ==> RowFor(a + b, stop) == RowFor(a, stop)
  {
    var all := a + b;
    if |b| == 1 {
      assert all[..|all| - 1] == a;
    } else {
      RowForAppend(a, b[..|b| - 1], stop);
      assert all[..|all| - 1] == a + b[..|b| - 1];
    }
  }

  lemma {:induction false} RowsStart(cie: Cie, p: seq<Instr>, s: State)
    requires Rows(cie, p, s).Some? && Forward(cie, p, s)
    ensures Rows(cie, p, s).value != []
    ensures Rows(cie, p, s).value[0].loc == s.loc
    ensures forall i :: 0 <= i < |Rows(cie, p, s).value| ==> Rows(cie, p, s).value[i].loc >= s.loc
  {
    if p != [] { RowsStart(cie, p[1..], Exec(cie, p[0], s, -1).state); }
  }

  /** Row lookup: when running a program with a stop location is right, it gives the
      location and the rules of the last row that starts at or below it. */
  predicate LookupRight(cie: Cie, p: seq<Instr>, s: State, stop: int)
  {
    0 <= stop && s.loc <= stop && Rows(cie, p, s).Some? && Forward(cie, p, s) ==>
      && Rows(cie, p, s).value != []
      && Run(cie, p, s, stop).Some?
      && var row := RowFor(Rows(cie, p, s).value, stop);
         Run(cie, p, s, stop).value.loc == row.loc && Run(cie, p, s, stop).value.rules == row.rules
  }

  lemma {:induction false} RowLookup(cie: Cie, p: seq<Instr>, s: State, stop: int)
    requires cie.codeAlign == 1
    ensures LookupRight(cie, p, s, stop)
  {
    if 0 <= stop && s.loc <= stop && Rows(cie, p, s).Some? && Forward(cie, p, s) && p != [] {
      RowsFirst(cie, p, s);
      var t := Exec(cie, p[0], s, -1).state;
      ExecStop(cie, p[0], s, t, stop);
      RowsStart(cie, p, s);
      RowsStart(cie, p[1..], t);
      hide Exec, Rows, Forward, RowFor;
      var others := Rows(cie, p[1..], t).value;
      RowForAppend([Row(s.loc, s.rules)], others, stop);
      OneRow(Row(s.loc, s.rules), stop);
      if t.loc <= stop {
        RowLookup(cie, p[1..], t, stop);
        assert [] + others == others;
      }
    } else {
      hide Exec;
    }
  }

  lemma OneRow(row: Row, stop: int)
    ensures RowFor([row], stop) == row
  {
  }

  lemma RowsFirst(cie: Cie, p: seq<Instr>, s: State)
    requires p != [] && Rows(cie, p, s).Some? && Forward(cie, p, s)
    ensures var r := Exec(cie, p[0], s, -1);
      && r.Next? && s.loc <= r.state.loc && Rows(cie, p[1..], r.state).Some? && Forward(cie, p[1..], r.state)
      && Rows(cie, p, s).value == (if IsAdvance(p[0]) then [Row(s.loc, s.rules)] else []) + Rows(cie, p[1..], r.state).value
  {
    hide Exec;
  }

  lemma AssignStays(cie: Cie, i: Instr, s: State)
    ensures Assign(cie, i, s).Next? ==> Assign(cie, i, s).state.loc == s.loc
  {
    hide Set, Get, NewRule;
  }

  /** What the stop location changes in one step. */
  lemma ExecStop(cie: Cie, i: Instr, s: State, t: State, stop: int)
    requires cie.codeAlign == 1 && 0 <= stop && s.loc <= stop && Exec(cie, i, s, -1) == Next(t)
    ensures t.loc <= stop ==> Exec(cie, i, s, stop) == Next(t)
    ensures t.loc > stop ==> IsAdvance(i) && Exec(cie, i, s, stop) == Stop(s)
  {
    hide Merge, Assign;
    if !IsAdvance(i) && !i.RememberState? && !i.RestoreState? { AssignStays(cie, i, s); }
  }

  /** An advance by one unit and a rule behind it show what the factored stop test
      does: with a larger factor the run goes past the stop location, with factor
      zero it stops too early. */
  lemma ScaledStopFails(cie: Cie)
    requires cie.codeAlign != 1
    ensures !LookupRight(cie, [AdvanceLoc(1), Undefined(Basic(0))], State(0, [], []), if cie.codeAlign > 1 then 1 else 0)
  {
    var p, s := [AdvanceLoc(1), Undefined(Basic(0))], State(0, [], []);
    var t := s.(loc := cie.codeAlign);
    assert p[1..] == [Undefined(Basic(0))] && p[1..][1..] == [];
    var u := FirstRule(cie, t);
    AdvanceOne(cie, s);
    hide Exec;
    assert Rows(cie, p[1..], t) == Some([Row(t.loc, u.rules)]) by {
      assert Rows(cie, [], u) == Some([Row(u.loc, u.rules)]);
      assert [] + [Row(u.loc, u.rules)] == [Row(u.loc, u.rules)];
    }
    var rows := [Row(0, []), Row(cie.codeAlign, u.rules)];
    assert Rows(cie, p, s) == Some(rows) by {
      assert [Row(0, [])] + [Row(cie.codeAlign, u.rules)] == rows;
    }
    assert rows[..1] == [Row(0, [])];
    assert Forward(cie, p[1..], t) by { assert Forward(cie, [], u); }
    assert Forward(cie, p, s);
    if cie.codeAlign > 1 {
      assert Run(cie, p[1..], t, 1) == Some(u);
      assert RowFor(rows, 1) == rows[0];
    } else {
      assert RowFor(rows, 0) == rows[1];
    }
  }

  lemma FirstRule(cie: Cie, t: State) returns (u: State)
    requires t.rules == []
    ensures u.rules != [] && u.loc == t.loc && forall stop :: Exec(cie, Undefined(Basic(0)), t, stop) == Next(u)
  {
    u := Exec(cie, Undefined(Basic(0)), t, -1).state;
  }

  lemma AdvanceOne(cie: Cie, s: State)
    requires s.loc == 0
    ensures Exec(cie, AdvanceLoc(1), s, -1) == Next(s.(loc := cie.codeAlign))
    ensures Exec(cie, AdvanceLoc(1), s, 0) == Stop(s)
    ensures Exec(cie, AdvanceLoc(1), s, 1) == Next(s.(loc := cie.codeAlign))
  {
  }

  /** Row lookup is right on every program exactly for the code alignment factor
      one, which is what readDebugFrame sets (fderead.c:655). */
  lemma RowLookupIff(cie: Cie)
    ensures cie.codeAlign == 1 <==> forall p: seq<Instr>, s: State, stop: int :: LookupRight(cie, p, s, stop)
  {
    if cie.codeAlign == 1 {
      forall p: seq<Instr>, s: State, stop: int ensures LookupRight(cie, p, s, stop) {
        RowLookup(cie, p, s, stop);
      }
    } else {
      ScaledStopFails(cie);
    }
  }

  // ----- remember_state and restore_state -----

  /** The nesting depth after a block that starts at depth d and never closes more
      than it opened. */
  function Depth(b: seq<Instr>, d: nat): Option<nat>
  {
    if b == [] then Some(d)
    else if b[0].RememberState? then Depth(b[1..], d + 1)
    else if b[0].RestoreState? then if d == 0 then None else Depth(b[1..], d - 1)
    else Depth(b[1..], d)
  }

  predicate Balanced(b: seq<Instr>) { Depth(b, 0) == Some(0) }

  /** The registers a block has instructions for. */
  function Defines(b: seq<Instr>): set<Reg>
  {
    if b == [] then {} else (if Target(b[0]).NoReg? then {} else {Target(b[0])}) + Defines(b[1..])
  }

  /** Rules and saved rules have distinct keys. */
  predicate Proper(s: State)
  {
    DistinctKeys(s.rules) && forall i :: 0 <= i < |s.stack| ==> DistinctKeys(s.stack[i])
  }

  lemma {:induction false} MergeView(rules: Rules, saved: Rules, bucket: Reg -> nat)
    requires DistinctKeys(rules) && DistinctKeys(saved)
    ensures View(Merge(rules, saved, bucket)) == View(rules) + View(saved)
    ensures DistinctKeys(Merge(rules, saved, bucket))
    decreases |saved|
  {
    hide Set;
    if saved != [] {
      var e := saved[0];
      SetView(rules, e.key, e.value, bucket(e.key));
      MergeView(Set(rules, e.key, e.value, bucket(e.key)), saved[1..], bucket);
      ViewAbsent(saved[1..], e.key);
    }
  }

  /** The entries pushed since the base know only registers that have a rule now. */
  predicate Above(base: seq<Rules>, s: State)
  {
    && base <= s.stack && Proper(s)
    && forall i :: |base| <= i < |s.stack| ==> View(s.stack[i]).Keys <= View(s.rules).Keys
  }

  /** What one instruction inside a block keeps. */
  lemma ExecAbove(cie: Cie, i: Instr, s: State, base: seq<Rules>)
    requires Above(base, s) && Exec(cie, i, s, -1).Next?
    requires i.RestoreState? ==> |s.stack| > |base|
    ensures var t := Exec(cie, i, s, -1).state;
            && Above(base, t)
            && View(t.rules).Keys == View(s.rules).Keys + Defines([i])
            && |t.stack| == |s.stack| + (if i.RememberState? then 1 else if i.RestoreState? then -1 else 0)
  {
    hide Assign; hide Merge; hide DistinctKeys;
    assert [i][1..] == [];
    if i.RestoreState? {
      MergeView(s.rules, s.stack[|s.stack| - 1], cie.bucket);
    } else if !i.RememberState? && !IsAdvance(i) {
      AssignSets(cie, i, s);
    }
  }

  lemma AssignSets(cie: Cie, i: Instr, s: State)
    requires DistinctKeys(s.rules) && Assign(cie, i, s).Next?
    ensures var t := Assign(cie, i, s).state;
            && t == s.(rules := t.rules) && DistinctKeys(t.rules)
            && View(t.rules).Keys == View(s.rules).Keys + {Target(i)}
            && !Target(i).NoReg?
  {
    hide Set;
    var present := Get(s.rules, Target(i));
    var rule := NewRule(cie, i, if present.Some? then present.value else FreshRule(Target(i))).value;
    SetView(s.rules, Target(i), rule, cie.bucket(Target(i)));
  }

  /** A block that closes what it opens leaves the stack below it alone and only
      adds the registers it has instructions for. */
  lemma {:induction false} BlockRun(cie: Cie, b: seq<Instr>, s: State, base: seq<Rules>, d: nat)
    requires Above(base, s) && |s.stack| == |base| + d && Depth(b, d).Some?
    requires Run(cie, b, s, -1).Some?
    ensures var t := Run(cie, b, s, -1).value;
            && Above(base, t) && |t.stack| == |base| + Depth(b, d).value
            && View(t.rules).Keys == View(s.rules).Keys + Defines(b)
  {
    if b != [] {
      ExecAbove(cie, b[0], s, base);
      var t := Exec(cie, b[0], s, -1).state;
      assert [b[0]][1..] == [];
      BlockRun(cie, b[1..], t, base, if b[0].RememberState? then d + 1 else if b[0].RestoreState? then d - 1 else d);
    }
  }

  lemma {:induction false} RunAppend(cie: Cie, a: seq<Instr>, b: seq<Instr>, s: State)
    ensures Run(cie, a + b, s, -1)
         == match Run(cie, a, s, -1) { case None => None case Some(t) => Run(cie, b, t, -1) }
  {
    if a == [] {
      assert a + b == b;
    } else {
      assert (a + b)[1..] == a[1..] + b;
      match Exec(cie, a[0], s, -1)
      case Next(t) => RunAppend(cie, a[1..], b, t);
      case Stop(_) => assert false;
      case Death =>
    }
  }

  /** remember_state, a balanced block, restore_state: the stack is as before, every
      register that had a rule has that rule again, and a register that got its
      first rule inside keeps it.  So the table is as before exactly when the block
      only has instructions for registers that already had a rule. */
  lemma RememberRestore(cie: Cie, b: seq<Instr>, s: State)
    requires Proper(s) && Balanced(b)
    requires Run(cie, [RememberState] + b + [RestoreState], s, -1).Some?
    ensures var t := Run(cie, [RememberState] + b + [RestoreState], s, -1).value;
            && t.stack == s.stack
            && View(t.rules).Keys == View(s.rules).Keys + Defines(b)
            && (forall r :: r in View(s.rules) ==> View(t.rules)[r] == View(s.rules)[r])
            && (View(t.rules) == View(s.rules) <==> Defines(b) <= View(s.rules).Keys)
  {
    var remembered := s.(stack := s.stack + [s.rules]);
    Bracketed(cie, b, s);
    var mid := BlockKeeps(cie, b, s, remembered);
    hide Run, Merge, View, DistinctKeys, Defines, Balanced;
    assert (s.stack + [s.rules])[..|s.stack|] == s.stack;
    MergeView(mid.rules, s.rules, cie.bucket);
    SameView(View(Merge(mid.rules, s.rules, cie.bucket)), View(s.rules), Defines(b));
  }

  /** Two maps of which one has more keys. */
  lemma SameView(m: map<Reg, Rule>, n: map<Reg, Rule>, keys: set<Reg>)
    requires m.Keys == n.Keys + keys && forall r :: r in n ==> m[r] == n[r]
    ensures m == n <==> keys <= n.Keys
  {
    if keys <= n.Keys { assert m.Keys == n.Keys; }
  }

  /** The run over a block between the two instructions. */
  lemma Bracketed(cie: Cie, b: seq<Instr>, s: State)
    ensures Run(cie, [RememberState] + b + [RestoreState], s, -1)
         == match Run(cie, b, s.(stack := s.stack + [s.rules]), -1)
            case None => None
            case Some(t) =>
              if t.stack == [] then None
              else Some(t.(rules := Merge(t.rules, t.stack[|t.stack| - 1], cie.bucket), stack := t.stack[..|t.stack| - 1]))
  {
    hide Merge;
    var p := [RememberState] + b + [RestoreState];
    assert p == [RememberState] + (b + [RestoreState]) && p[1..] == b + [RestoreState];
    RunAppend(cie, b, [RestoreState], s.(stack := s.stack + [s.rules]));
    assert [RestoreState][1..] == [];
  }

  lemma BlockKeeps(cie: Cie, b: seq<Instr>, s: State, remembered: State) returns (mid: State)
    requires Proper(s) && Balanced(b) && remembered == s.(stack := s.stack + [s.rules])
    requires Run(cie, b, remembered, -1).Some?
    ensures Run(cie, b, remembered, -1) == Some(mid) && mid.stack == s.stack + [s.rules]
    ensures DistinctKeys(s.rules) && DistinctKeys(mid.rules) && View(mid.rules).Keys == View(s.rules).Keys + Defines(b)
  {
    hide Run, View, DistinctKeys, Defines;
    BlockRun(cie, b, remembered, remembered.stack, 0);
    mid := Run(cie, b, remembered, -1).value;
  }
}
