/** What the call frame instructions (section 6.4.2 of DWARF version 4) do to the rules that a run leaves,
    told by the abstract map of registers to rules (dwarfvm.c). */
module RuleMeaning {
  import opened Bytes
  import opened Registers
  import opened Cfa
  import opened TableSpec
  import opened RuleVm

  /** The rule of a register, or the zeroed one that it gets with its first instruction. */
  function RuleOf(s: State, r: Reg): Rule
  {
    if r in View(s.rules) then View(s.rules)[r] else Rule(r, Undef, NoReg, 0, 0)
  }

  /** Register r has a rule, and nothing else has changed. */
  ghost predicate OnlyRule(s: State, t: State, r: Reg)
  {
    && t.loc == s.loc && t.stack == s.stack
    && View(t.rules).Keys == View(s.rules).Keys + {r}
    && forall x :: x in View(s.rules) && x != r ==> View(t.rules)[x] == View(s.rules)[x]
  }

  /** The state after a program and one more instruction. */
  function After(cie: Cie, p: seq<Instr>, i: Instr, s: State): Option<State> { Run(cie, p + [i], s, -1) }

  predicate FitsInt(x: int) { -0x8000_0000 <= x < 0x8000_0000 }

  // ----- runs -----

  lemma OneMore(cie: Cie, p: seq<Instr>, i: Instr, s: State)
    requires Run(cie, p, s, -1).Some?
    ensures var t := Run(cie, p, s, -1).value;
      After(cie, p, i, s) == if Exec(cie, i, t, -1).Death? then None else Some(Exec(cie, i, t, -1).state)
  {
    hide Exec;
    RunAppend(cie, p, [i], s);
    var t := Run(cie, p, s, -1).value;
    assert [i][1..] == [];
    match Exec(cie, i, t, -1) {
      case Next(u) => assert Run(cie, [], u, -1) == Some(u);
      case _ =>
    }
  }

  lemma ExecProper(cie: Cie, i: Instr, s: State)
    requires Proper(s) && Exec(cie, i, s, -1).Next?
    ensures Proper(Exec(cie, i, s, -1).state)
  {
    hide Assign, Merge, DistinctKeys;
    if i.RestoreState? {
      MergeView(s.rules, s.stack[|s.stack| - 1], cie.bucket);
    } else if !i.RememberState? && !IsAdvance(i) {
      AssignSets(cie, i, s);
    }
  }

  lemma {:induction false} RunProper(cie: Cie, p: seq<Instr>, s: State)
    requires Proper(s) && Run(cie, p, s, -1).Some?
    ensures Proper(Run(cie, p, s, -1).value)
  {
    if p != [] {
      NeverStops(cie, p[0], s);
      hide Exec, Proper;
      ExecProper(cie, p[0], s);
      RunProper(cie, p[1..], Exec(cie, p[0], s, -1).state);
    }
  }

  lemma NeverStops(cie: Cie, i: Instr, s: State)
    ensures !Exec(cie, i, s, -1).Stop?
  {
    hide Assign, Merge;
    if !IsAdvance(i) && !i.RememberState? && !i.RestoreState? { hide Exec; AssignNext(cie, i, s); }
  }

  lemma AssignNext(cie: Cie, i: Instr, s: State)
    requires !IsAdvance(i) && !i.RememberState? && !i.RestoreState?
    ensures Exec(cie, i, s, -1) == Assign(cie, i, s) && !Assign(cie, i, s).Stop?
  {
    hide NewRule, Set, Get;
  }

  /** An instruction about a register makes one new rule out of its old one. */
  lemma OneRule(cie: Cie, p: seq<Instr>, i: Instr, s: State)
    requires Proper(s) && Run(cie, p, s, -1).Some?
    requires !IsAdvance(i) && !i.RememberState? && !i.RestoreState?
    ensures var (t, r) := (Run(cie, p, s, -1).value, RuleVm.Target(i));
      if r.NoReg? || NewRule(cie, i, RuleOf(t, r)).None? then After(cie, p, i, s) == None
      else
        && After(cie, p, i, s).Some? && OnlyRule(t, After(cie, p, i, s).value, r)
        && r in View(After(cie, p, i, s).value.rules)
        && RuleOf(After(cie, p, i, s).value, r) == NewRule(cie, i, RuleOf(t, r)).value
  {
    var (t, r) := (Run(cie, p, s, -1).value, RuleVm.Target(i));
    OneMore(cie, p, i, s);
    RunProper(cie, p, s);
    AssignNext(cie, i, t);
    hide Run, Exec, NewRule, Set, Get, View, DistinctKeys;
    ViewGet(t.rules, r);
    if !r.NoReg? && NewRule(cie, i, RuleOf(t, r)).Some? {
      SetView(t.rules, r, NewRule(cie, i, RuleOf(t, r)).value, cie.bucket(r));
    }
  }

  lemma IntOf(x: int)
    ensures AsInt(x % WORD) == x <==> FitsInt(x)
  {
    var w := x % WORD;
    if 0 <= x < 0x8000_0000 {
      SmallMod(x, WORD);
      SmallMod(x, HALF_WORD);
    } else if -0x8000_0000 <= x < 0 {
      DivModUnique(x, WORD, -1, x + WORD);
      DivModUnique(w, HALF_WORD, HALF_WORD - 1, x + HALF_WORD);
    }
  }

  // ----- registers -----

  /** offset scales its operand by the data alignment factor; register and undefined replace the rule.  The
      product is right exactly when it fits an int. */
  lemma RegisterRules(cie: Cie, p: seq<Instr>, s: State, r: Reg, n: word, r2: Reg)
    requires Proper(s) && Run(cie, p, s, -1).Some? && !r.NoReg?
    ensures var (t, u) := (Run(cie, p, s, -1).value, After(cie, p, Offset(r, n), s));
      && u.Some? && OnlyRule(t, u.value, r) && RuleOf(u.value, r).kind == OffsetRule
      && (RuleOf(u.value, r).offset == n * cie.dataAlign <==> FitsInt(n * cie.dataAlign))
    ensures var (t, u) := (Run(cie, p, s, -1).value, After(cie, p, Register(r, r2), s));
      && u.Some? && OnlyRule(t, u.value, r) && RuleOf(u.value, r).kind == RegisterRule && RuleOf(u.value, r).rh == r2
    ensures var (t, u) := (Run(cie, p, s, -1).value, After(cie, p, Undefined(r), s));
      && u.Some? && OnlyRule(t, u.value, r) && RuleOf(u.value, r).kind == Undef
  {
    hide Run, View, OnlyRule, RuleOf, Proper, After;
    OneRule(cie, p, Offset(r, n), s);
    OneRule(cie, p, Register(r, r2), s);
    OneRule(cie, p, Undefined(r), s);
    IntOf(n * cie.dataAlign);
  }

  /** The three instructions about the CFA each set what they name and keep the rest. */
  lemma CfaRules(cie: Cie, p: seq<Instr>, s: State, reg: Reg, n: word)
    requires Proper(s) && Run(cie, p, s, -1).Some?
    ensures var (t, u) := (Run(cie, p, s, -1).value, After(cie, p, DefCfa(reg, n), s));
      && u.Some? && OnlyRule(t, u.value, CfaReg) && RuleOf(u.value, CfaReg).kind == CfaRule
      && RuleOf(u.value, CfaReg).rh == reg && (RuleOf(u.value, CfaReg).offset == n <==> FitsInt(n))
    ensures var (t, u) := (Run(cie, p, s, -1).value, After(cie, p, DefCfaRegister(reg), s));
      && u.Some? && OnlyRule(t, u.value, CfaReg) && RuleOf(u.value, CfaReg).kind == CfaRule
      && RuleOf(u.value, CfaReg).rh == reg && RuleOf(u.value, CfaReg).offset == RuleOf(t, CfaReg).offset
    ensures var (t, u) := (Run(cie, p, s, -1).value, After(cie, p, DefCfaOffset(n), s));
      && u.Some? && OnlyRule(t, u.value, CfaReg) && RuleOf(u.value, CfaReg).kind == CfaRule
      && RuleOf(u.value, CfaReg).rh == RuleOf(t, CfaReg).rh && (RuleOf(u.value, CfaReg).offset == n <==> FitsInt(n))
  {
    hide Run, View, OnlyRule, RuleOf, Proper, After;
    OneRule(cie, p, DefCfa(reg, n), s);
    OneRule(cie, p, DefCfaRegister(reg), s);
    OneRule(cie, p, DefCfaOffset(n), s);
    IntOf(n);
    SmallMod(n, WORD);
  }

  /** restore gives its register the rule that the CIE gave it, and fails where it gave none. */
  lemma RestoreRule(cie: Cie, p: seq<Instr>, s: State, num: u32)
    requires Proper(s) && Run(cie, p, s, -1).Some?
    ensures var (t, u) := (Run(cie, p, s, -1).value, After(cie, p, Restore(num), s));
      && (u.Some? <==> Basic(num) in View(cie.initialRules))
      && (u.Some? ==> OnlyRule(t, u.value, Basic(num)) && RuleOf(u.value, Basic(num)) == View(cie.initialRules)[Basic(num)])
  {
    hide Run, View, OnlyRule, RuleOf, Proper, After, Get;
    SmallMod(num, HALF_WORD);
    OneRule(cie, p, Restore(num), s);
    ViewGet(cie.initialRules, Basic(num));
  }

  /** The two patch instructions; expressions are ignored, but their register gets a rule. */
  lemma OtherRules(cie: Cie, p: seq<Instr>, s: State, r: Reg, r2: Reg, fde: word, i: Instr)
    requires Proper(s) && Run(cie, p, s, -1).Some? && !r.NoReg?
    requires (i.Expression? || i.ValExpression?) && i.reg == r
    ensures var (t, u) := (Run(cie, p, s, -1).value, After(cie, p, Fixups(r, r2, fde), s));
      && u.Some? && OnlyRule(t, u.value, r)
      && RuleOf(u.value, r) == RuleOf(t, r).(kind := RecurseFixup, rh := r2, index := fde)
    ensures var (t, u) := (Run(cie, p, s, -1).value, After(cie, p, FixupsPointer(r, r2, fde), s));
      && u.Some? && OnlyRule(t, u.value, r)
      && RuleOf(u.value, r) == RuleOf(t, r).(kind := RecurseFixupPointer, rh := r2, index := fde)
    ensures var (t, u) := (Run(cie, p, s, -1).value, After(cie, p, i, s));
      u.Some? && OnlyRule(t, u.value, r) && RuleOf(u.value, r) == RuleOf(t, r)
  {
    hide Run, View, OnlyRule, RuleOf, Proper, After;
    OneRule(cie, p, Fixups(r, r2, fde), s);
    OneRule(cie, p, FixupsPointer(r, r2, fde), s);
    OneRule(cie, p, i, s);
  }

  // ----- locations, states, and what is not supported -----

  /** The location moves by the factored delta, or to the operand of set_loc; rules stay. */
  lemma Locations(cie: Cie, p: seq<Instr>, s: State, d: word)
    requires Run(cie, p, s, -1).Some?
    ensures var t := Run(cie, p, s, -1).value;
      && After(cie, p, AdvanceLoc(d), s) == Some(t.(loc := t.loc + d * cie.codeAlign))
      && After(cie, p, AdvanceLoc1(d), s) == Some(t.(loc := t.loc + d * cie.codeAlign))
      && After(cie, p, AdvanceLoc2(d), s) == Some(t.(loc := t.loc + d * cie.codeAlign))
      && After(cie, p, SetLoc(d), s) == Some(t.(loc := d))
  {
    OneMore(cie, p, AdvanceLoc(d), s);
    OneMore(cie, p, AdvanceLoc1(d), s);
    OneMore(cie, p, AdvanceLoc2(d), s);
    OneMore(cie, p, SetLoc(d), s);
    hide Run;
  }

  /** remember_state puts the rules on the stack; restore_state takes them off it, and keeps the rules of
      registers that had none when they were put there. */
  lemma States(cie: Cie, p: seq<Instr>, s: State)
    requires Proper(s) && Run(cie, p, s, -1).Some?
    ensures var t := Run(cie, p, s, -1).value;
      && After(cie, p, RememberState, s) == Some(t.(stack := t.stack + [t.rules]))
      && var u := After(cie, p, RestoreState, s);
         && (u.Some? <==> t.stack != [])
         && (u.Some? ==>
               && u.value.loc == t.loc && u.value.stack == t.stack[..|t.stack| - 1]
               && View(u.value.rules) == View(t.rules) + View(t.stack[|t.stack| - 1]))
  {
    hide Run, Merge, View, DistinctKeys, After;
    OneMore(cie, p, RememberState, s);
    OneMore(cie, p, RestoreState, s);
    RunProper(cie, p, s);
    var t := Run(cie, p, s, -1).value;
    if t.stack != [] { MergeView(t.rules, t.stack[|t.stack| - 1], cie.bucket); }
  }

  predicate NotSupported(i: Instr)
  {
    i.Nop? || i.AdvanceLoc4? || i.OffsetExtended? || i.OffsetExtendedSf? || i.SameValue? || i.DefCfaOffsetSf?
    || i.DefCfaExpression? || i.GnuArgsSize?
  }

  /** A run succeeds exactly when none of its instructions is one that is not supported, a restore without an
      initial rule, a restore_state without a saved state, or about no register. */
  lemma FailsIff(cie: Cie, p: seq<Instr>, i: Instr, s: State)
    requires Proper(s) && Run(cie, p, s, -1).Some?
    ensures After(cie, p, i, s).None?
       <==> || NotSupported(i)
            || (i.Restore? && Basic(i.num % HALF_WORD) !in View(cie.initialRules))
            || (i.RestoreState? && Run(cie, p, s, -1).value.stack == [])
            || ((i.Offset? || i.Undefined? || i.Register? || i.Expression? || i.ValExpression? || i.Fixups? || i.FixupsPointer?)
                && i.reg.NoReg?)
  {
    if IsAdvance(i) {
      Locations(cie, p, s, if i.SetLoc? then i.loc else i.delta);
    } else if i.RememberState? || i.RestoreState? {
      States(cie, p, s);
    } else {
      OneRule(cie, p, i, s);
      if i.Restore? { ViewGet(cie.initialRules, Basic(i.num % HALF_WORD)); }
    }
    hide Run, View, OnlyRule, RuleOf, Get, Scaled;
  }

  // ----- the last instruction about a register -----

  predicate Silent(q: seq<Instr>, r: Reg)
  {
    forall i :: i in q ==> RuleVm.Target(i) != r && !i.RestoreState?
  }

  /** A rule stays as long as no instruction is about its register and no state is restored. */
  lemma {:induction false} RuleStays(cie: Cie, p: seq<Instr>, q: seq<Instr>, s: State, r: Reg)
    requires Proper(s) && Run(cie, p + q, s, -1).Some? && Silent(q, r)
    ensures Run(cie, p, s, -1).Some?
    ensures RuleOf(Run(cie, p + q, s, -1).value, r) == RuleOf(Run(cie, p, s, -1).value, r)
    decreases |q|
  {
    hide Run, View, RuleOf, Proper;
    if q == [] {
      assert p + q == p;
    } else {
      var i, front := q[|q| - 1], q[..|q| - 1];
      assert p + q == (p + front) + [i];
      RunAppend(cie, p + front, [i], s);
      RuleStays(cie, p, front, s, r);
      OneStays(cie, p + front, i, s, r);
    }
  }

  lemma OneStays(cie: Cie, p: seq<Instr>, i: Instr, s: State, r: Reg)
    requires Proper(s) && Run(cie, p, s, -1).Some? && After(cie, p, i, s).Some? && RuleVm.Target(i) != r && !i.RestoreState?
    ensures RuleOf(After(cie, p, i, s).value, r) == RuleOf(Run(cie, p, s, -1).value, r)
  {
    if IsAdvance(i) {
      Locations(cie, p, s, if i.SetLoc? then i.loc else i.delta);
    } else if i.RememberState? {
      States(cie, p, s);
    } else {
      OneRule(cie, p, i, s);
    }
    hide Run, View, NewRule;
  }

  /** Main result: behind the last offset for a register, whatever else a run does without restoring a state,
      the register has an offset rule with the scaled operand. */
  lemma LastOffset(cie: Cie, p: seq<Instr>, r: Reg, n: word, q: seq<Instr>, s: State)
    requires Proper(s) && !r.NoReg? && Silent(q, r) && Run(cie, p + [Offset(r, n)] + q, s, -1).Some?
    ensures var rule := RuleOf(Run(cie, p + [Offset(r, n)] + q, s, -1).value, r);
      rule.kind == OffsetRule && (rule.offset == n * cie.dataAlign <==> FitsInt(n * cie.dataAlign))
  {
    RunAppend(cie, p + [Offset(r, n)], q, s);
    RunAppend(cie, p, [Offset(r, n)], s);
    hide Run, RuleOf;
    RuleStays(cie, p + [Offset(r, n)], q, s, r);
    RegisterRules(cie, p, s, r, n, r);
  }
}
