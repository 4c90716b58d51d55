/** What a register rule that does not recurse writes, in terms of the old memory (dwarfvm.c, register.c). */
module RuleWrites {
  import opened Bytes
  import opened Registers
  import opened Cfa
  import opened TableSpec
  import opened RuleVm
  import opened Target
  import opened PatchVm

  /** The bytes of the old memory can be read, at an address that is not null and with a size that is an int. */
  predicate CanRead(env: Env, a: word, n: nat) { a != 0 && n < 0x8000_0000 && Readable(env.mem, a, n) }

  /** Where a register of the old or the new object is: its displacement is a signed int, and addresses wrap. */
  function Spot(base: word, offset: u32): word
  {
    if offset < 0x8000_0000 then (base + offset) % WORD else (base + offset - HALF_WORD) % WORD
  }

  lemma SpotIs(base: word, offset: u32)
    ensures Displaced(base, offset) == Spot(base, offset)
  {
    SmallMod(offset, HALF_WORD);
  }

  /** A rule that is not about a register of the new object, or about one at address zero, makes patch
      generation abort. */
  lemma NoTarget(env: Env, k: nat, rule: Rule, regs: Regs, h: Heap)
    requires Nested(env) && Descends(env, k, rule) && h.moved.Keys <= AllKeys()
    requires !rule.lh.CurrTargNew? || Spot(regs.addrNew, rule.lh.offset) == 0
    ensures GenRule(env, k, rule, regs, h) == None
  {
    if rule.lh.CurrTargNew? { SpotIs(regs.addrNew, rule.lh.offset); }
    hide Displaced;
  }

  /** A register rule copies: from the old object, from the new one, or the value of a symbol of the old binary.
      Other registers on the right, and memory that cannot be read, abort. */
  lemma RegisterRuleWrites(env: Env, k: nat, rule: Rule, regs: Regs, h: Heap)
    requires Nested(env) && Descends(env, k, rule) && h.moved.Keys <= AllKeys() && rule.kind.RegisterRule?
    requires rule.lh.CurrTargNew? && Spot(regs.addrNew, rule.lh.offset) != 0
    ensures var (r, at) := (GenRule(env, k, rule, regs, h), Spot(regs.addrNew, rule.lh.offset));
      match rule.rh
      case CurrTargOld(size, offset) =>
        var src := Spot(regs.addrOld, offset);
        && (r.Some? <==> CanRead(env, src, size))
        && (r.Some? ==> r == Some((h, [Patch(at, Slice(env.mem, src, size))])))
      case CurrTargNew(size, offset) =>
        var src := Spot(regs.addrNew, offset);
        && (r.Some? <==> CanRead(env, src, size))
        && (r.Some? ==> r == Some((h, [Patch(at, Slice(env.mem, src, size))])))
      case OldSymVal(i) =>
        r.Some? && r.value.0 == h && |r.value.1| == 1 && r.value.1[0].addr == at
        && |r.value.1[0].data| == 8 && Unsigned(r.value.1[0].data) == env.oldSymbol(i)
      case _ => r == None
  {
    SpotIs(regs.addrNew, rule.lh.offset);
    match rule.rh {
      case CurrTargOld(_, offset) => SpotIs(regs.addrOld, offset);
      case CurrTargNew(_, offset) => SpotIs(regs.addrNew, offset);
      case OldSymVal(i) =>
        ToBytesValue(env.oldSymbol(i), 8);
        assert Base256(8) == WORD;
        SmallMod(env.oldSymbol(i), WORD);
      case _ =>
    }
    hide Displaced, Slice, Readable, ToBytes, Unsigned, Nested, Spot;
  }

  /** An offset rule copies what is at the address that is its offset, with the size of the register on the left or,
      if that is zero, of an address; undefined rules write nothing; a rule for the CFA aborts. */
  lemma OtherRuleWrites(env: Env, k: nat, rule: Rule, regs: Regs, h: Heap)
    requires Nested(env) && Descends(env, k, rule) && h.moved.Keys <= AllKeys()
    requires rule.lh.CurrTargNew? && Spot(regs.addrNew, rule.lh.offset) != 0
    ensures rule.kind.OffsetRule? ==>
      var (r, at) := (GenRule(env, k, rule, regs, h), Spot(regs.addrNew, rule.lh.offset));
      var (src, size) := (rule.offset % WORD, if rule.lh.size == 0 then 8 else rule.lh.size);
      && (r.Some? <==> size < 0x8000_0000 && Readable(env.mem, src, size))
      && (r.Some? ==> r == Some((h, [Patch(at, Slice(env.mem, src, size))])))
    ensures rule.kind.Undef? ==> GenRule(env, k, rule, regs, h) == Some((h, []))
    ensures rule.kind.CfaRule? ==> GenRule(env, k, rule, regs, h) == None
  {
    SpotIs(regs.addrNew, rule.lh.offset);
    hide Displaced, Slice, Readable, Nested, Spot;
  }

  /** The rules that patches are generated from are those of the row at the end of the FDE's range. */
  lemma RulesAtEnd(env: Env, k: nat)
    requires 0 < k <= |env.fdes| && env.fdes[k - 1].cie.codeAlign == 1
    requires var f := env.fdes[k - 1];
      && 0 <= f.lowpc <= f.highpc && Rows(f.cie, f.instrs, State(f.lowpc, [], [])).Some?
      && Forward(f.cie, f.instrs, State(f.lowpc, [], []))
    ensures var f := env.fdes[k - 1];
      var rows := Rows(f.cie, f.instrs, State(f.lowpc, [], [])).value;
      rows != [] && FdeRules(env, k) == Some(RowFor(rows, f.highpc).rules)
  {
    var f := env.fdes[k - 1];
    hide Run, Rows, Forward, RowFor;
    RowLookup(f.cie, f.instrs, State(f.lowpc, [], []), f.highpc);
  }
}
