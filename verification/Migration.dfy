/** What a patched heap looks like: for every address the byte that some migrated
    object prescribes there, and the proof that the patch batch writes exactly
    those bytes.

    The statement is about an arbitrary old heap.  Pointers may be shared or form
    cycles; the only order in it is the nesting of objects by value. */
module Migration {
  import opened Bytes
  import opened Registers
  import opened TableSpec
  import opened RuleVm
  import opened Target
  import opened PatchVm

  type Moves = map<Key, Move>

  function MemSize(env: Env, k: nat): nat
  {
    if 0 < k <= |env.fdes| then env.fdes[k - 1].memSize else 0
  }

  /** How many bytes a rule writes at its target. */
  function RuleLength(env: Env, rule: Rule): nat
  {
    match rule.kind
    case Undef => 0
    case CfaRule => 0
    case OffsetRule => if rule.lh.CurrTargNew? && rule.lh.size != 0 then rule.lh.size else 8
    case RegisterRule => if rule.rh.CurrTargNew? || rule.rh.CurrTargOld? then rule.rh.size else 8
    case RecurseFixupPointer => 8
    case RecurseFixup => MemSize(env, rule.index)
  }

  /** The new value of a pointer field. */
  function NewPointer(env: Env, p: word, moves: Moves): Option<word>
  {
    if p == 0 then Some(0)
    else if KeyOf(env, p) in moves then Some(moves[KeyOf(env, p)].new_)
    else None
  }

  function ByteAt(bs: Option<seq<byte>>, i: nat): Option<byte>
  {
    if bs.Some? && i < |bs.value| then Some(bs.value[i]) else None
  }

  /** The byte that a rule prescribes at an address. */
  ghost function RuleByte(env: Env, k: nat, rule: Rule, regs: Regs, moves: Moves, a: word): Option<byte>
    requires Nested(env) && Descends(env, k, rule)
    decreases DepthOf(env, k), 0, 0
  {
    var base :- ResolveTarget(rule.lh, regs);
    if !(base <= a < base + RuleLength(env, rule)) then None
    else match rule.kind
      case Undef => None
      case CfaRule => None
      case OffsetRule => ByteAt(DereferenceAt(env, Some(rule.offset % WORD), if rule.lh.size != 0 then rule.lh.size else 8), a - base)
      case RegisterRule => ByteAt(ResolveBytes(env, rule.rh, regs), a - base)
      case RecurseFixupPointer =>
        var p :- ReadPointer(env, rule.rh, regs);
        var v :- NewPointer(env, p, moves);
        Some(ToBytes(v, 8)[a - base])
      case RecurseFixup =>
        var o :- ResolveAddress(env, rule.rh, regs);
        Expect(env, rule.index, Regs(o, base), moves, a)
  }

  ghost function RulesByte(env: Env, k: nat, rs: Rules, regs: Regs, moves: Moves, a: word): Option<byte>
    requires Nested(env) && forall e :: e in rs ==> Descends(env, k, e.value)
    decreases DepthOf(env, k), 1, |rs|
  {
    if rs == [] then None
    else
      var b := RuleByte(env, k, rs[0].value, regs, moves, a);
      if b.Some? then b else RulesByte(env, k, rs[1..], regs, moves, a)
  }

  /** The byte that an object, moved with FDE k from regs.addrOld to regs.addrNew,
      prescribes at an address. */
  ghost function Expect(env: Env, k: nat, regs: Regs, moves: Moves, a: word): Option<byte>
    requires Nested(env)
    decreases DepthOf(env, k), 2, 0
  {
    var rules :- FdeRules(env, k);
    RulesByte(env, k, rules, regs, moves, a)
  }

  // ----- the layout of new objects -----

  /** A rule writes inside the new object. */
  predicate Inside(env: Env, rule: Rule, size: nat)
  {
    rule.lh.CurrTargNew? ==> rule.lh.offset < HALF_WORD / 2 && rule.lh.offset + RuleLength(env, rule) <= size
  }

  /** Two rules write different bytes. */
  predicate Apart(env: Env, r: Rule, s: Rule)
  {
    r.lh.CurrTargNew? && s.lh.CurrTargNew? ==>
      || r.lh.offset + RuleLength(env, r) <= s.lh.offset
      || s.lh.offset + RuleLength(env, s) <= r.lh.offset
  }

  predicate LaidOut(env: Env, rs: Rules, size: nat)
  {
    && (forall i :: 0 <= i < |rs| ==> Inside(env, rs[i].value, size))
    && forall i, j :: 0 <= i < j < |rs| ==> Apart(env, rs[i].value, rs[j].value)
  }

  /** Every FDE writes each byte of its object at most once. */
  ghost predicate WellLaid(env: Env)
  {
    forall k: nat :: FdeRules(env, k).Some? ==> LaidOut(env, FdeRules(env, k).value, MemSize(env, k))
  }

  /** The new object does not wrap around the address space. */
  predicate Fits(env: Env, k: nat, to: word) { 0 < to && to + MemSize(env, k) <= WORD }

  lemma TargetOf(env: Env, rule: Rule, regs: Regs, k: nat)
    requires Fits(env, k, regs.addrNew) && Inside(env, rule, MemSize(env, k)) && rule.lh.CurrTargNew?
    requires RuleLength(env, rule) > 0 || ResolveTarget(rule.lh, regs).Some?
    ensures ResolveTarget(rule.lh, regs) == Some(regs.addrNew + rule.lh.offset)
    ensures regs.addrNew + rule.lh.offset + RuleLength(env, rule) <= WORD
  {
    SmallMod(rule.lh.offset, HALF_WORD);
    if regs.addrNew + rule.lh.offset < WORD {
      SmallMod(regs.addrNew + rule.lh.offset, WORD);
    }
  }

  /** Where a rule prescribes a byte, the address is in its range. */
  lemma RuleByteRange(env: Env, k: nat, rule: Rule, regs: Regs, moves: Moves, a: word)
    requires Nested(env) && Descends(env, k, rule)
    requires Fits(env, k, regs.addrNew) && Inside(env, rule, MemSize(env, k))
    requires RuleByte(env, k, rule, regs, moves, a).Some?
    ensures rule.lh.CurrTargNew?
    ensures regs.addrNew + rule.lh.offset <= a < regs.addrNew + rule.lh.offset + RuleLength(env, rule)
  {
    TargetOf(env, rule, regs, k);
  }

  /** The rule whose range an address is in decides the byte, whatever the order of
      the rules. */
  lemma {:induction false} RulesByteAt(env: Env, k: nat, rs: Rules, regs: Regs, moves: Moves, a: word, i: nat)
    requires Nested(env) && forall e :: e in rs ==> Descends(env, k, e.value)
    requires Fits(env, k, regs.addrNew) && LaidOut(env, rs, MemSize(env, k))
    requires i < |rs| && rs[i].value.lh.CurrTargNew?
    requires var base := regs.addrNew + rs[i].value.lh.offset; base <= a < base + RuleLength(env, rs[i].value)
    ensures RulesByte(env, k, rs, regs, moves, a) == RuleByte(env, k, rs[i].value, regs, moves, a)
    decreases |rs|
  {
    if i > 0 {
      assert Apart(env, rs[0].value, rs[i].value);
      if RuleByte(env, k, rs[0].value, regs, moves, a).Some? {
        RuleByteRange(env, k, rs[0].value, regs, moves, a);
        assert false;
      }
      RulesByteAt(env, k, rs[1..], regs, moves, a, i - 1);
    } else {
      assert forall j :: 0 <= j < |rs[1..]| ==> Apart(env, rs[0].value, rs[1..][j].value);
      if RulesByte(env, k, rs[1..], regs, moves, a).Some? {
        var j := RulesByteFrom(env, k, rs[1..], regs, moves, a);
        assert false;
      }
    }
  }

  /** A prescribed byte comes from the range of some rule. */
  lemma {:induction false} RulesByteFrom(env: Env, k: nat, rs: Rules, regs: Regs, moves: Moves, a: word) returns (j: nat)
    requires Nested(env) && forall e :: e in rs ==> Descends(env, k, e.value)
    requires Fits(env, k, regs.addrNew) && LaidOut(env, rs, MemSize(env, k))
    requires RulesByte(env, k, rs, regs, moves, a).Some?
    ensures j < |rs| && rs[j].value.lh.CurrTargNew?
    ensures var base := regs.addrNew + rs[j].value.lh.offset; base <= a < base + RuleLength(env, rs[j].value)
    decreases |rs|
  {
    if RuleByte(env, k, rs[0].value, regs, moves, a).Some? {
      RuleByteRange(env, k, rs[0].value, regs, moves, a);
      j := 0;
    } else {
      j := RulesByteFrom(env, k, rs[1..], regs, moves, a);
      j := j + 1;
    }
  }

  /** An object only prescribes bytes inside itself. */
  lemma ExpectInside(env: Env, k: nat, regs: Regs, moves: Moves, a: word)
    requires Nested(env) && WellLaid(env) && Fits(env, k, regs.addrNew)
    requires Expect(env, k, regs, moves, a).Some?
    ensures regs.addrNew <= a < regs.addrNew + MemSize(env, k)
  {
    var rules := FdeRules(env, k).value;
    var j := RulesByteFrom(env, k, rules, regs, moves, a);
    assert Inside(env, rules[j].value, MemSize(env, k));
  }

  // ----- the batch writes exactly the prescribed bytes -----

  predicate Extends(h: Heap, moves: Moves)
  {
    forall key :: key in h.moved ==> key in moves && moves[key] == h.moved[key]
  }

  predicate AllFit(env: Env, moves: Moves)
  {
    forall key :: key in moves ==> Fits(env, moves[key].fde, moves[key].new_)
  }

  function RegsOf(m: Move): Regs { Regs(m.old_, m.new_) }

  predicate Covers(ps: seq<Patch>, a: word)
  {
    exists p :: p in ps && p.addr <= a < p.addr + |p.data|
  }

  predicate InSpace(ps: seq<Patch>) { forall p :: p in ps ==> p.addr + |p.data| <= WORD }

  predicate IsNew(h: Heap, h': Heap, key: Key) { key in h'.moved && key !in h.moved }

  /** An object that was moved between h and h' prescribes the byte. */
  ghost predicate FromNew(env: Env, h: Heap, h': Heap, moves: Moves, a: word, b: byte)
    requires Nested(env)
  {
    exists key :: IsNew(h, h', key)
      && Expect(env, h'.moved[key].fde, RegsOf(h'.moved[key]), moves, a) == Some(b)
  }

  /** Every byte of the patches is prescribed, by want or by a newly moved object. */
  ghost predicate Sound(env: Env, want: word -> Option<byte>, h: Heap, h': Heap, ps: seq<Patch>, moves: Moves)
    requires Nested(env)
  {
    && InSpace(ps)
    && forall p, i :: p in ps && 0 <= i < |p.data| ==>
         want(p.addr + i) == Some(p.data[i]) || FromNew(env, h, h', moves, p.addr + i, p.data[i])
  }

  /** Every prescribed byte is in some patch. */
  ghost predicate Complete(env: Env, want: word -> Option<byte>, h: Heap, h': Heap, ps: seq<Patch>, moves: Moves)
    requires Nested(env)
  {
    && (forall a: word :: want(a).Some? ==> Covers(ps, a))
    && forall key, a: word ::
         (IsNew(h, h', key) && Expect(env, h'.moved[key].fde, RegsOf(h'.moved[key]), moves, a).Some?) ==> Covers(ps, a)
  }

  ghost function RuleExpect(env: Env, k: nat, rule: Rule, regs: Regs, moves: Moves): word -> Option<byte>
    requires Nested(env) && Descends(env, k, rule)
  {
    a => RuleByte(env, k, rule, regs, moves, a)
  }

  ghost function RulesExpect(env: Env, k: nat, rs: Rules, regs: Regs, moves: Moves): word -> Option<byte>
    requires Nested(env) && forall e :: e in rs ==> Descends(env, k, e.value)
  {
    a => RulesByte(env, k, rs, regs, moves, a)
  }

  ghost function ObjectExpect(env: Env, k: nat, regs: Regs, moves: Moves): word -> Option<byte>
    requires Nested(env)
  {
    a => Expect(env, k, regs, moves, a)
  }

  lemma OnePatch(env: Env, want: word -> Option<byte>, h: Heap, p: Patch, moves: Moves)
    requires Nested(env) && p.addr + |p.data| <= WORD
    requires forall a: word :: want(a) == if p.addr <= a < p.addr + |p.data| then Some(p.data[a - p.addr]) else None
    ensures Sound(env, want, h, h, [p], moves) && Complete(env, want, h, h, [p], moves)
  {
    hide *;
    OneSound(env, want, h, p, moves);
    OneComplete(env, want, h, p, moves);
  }

  lemma OneSound(env: Env, want: word -> Option<byte>, h: Heap, p: Patch, moves: Moves)
    requires Nested(env) && p.addr + |p.data| <= WORD
    requires forall a: word :: want(a) == if p.addr <= a < p.addr + |p.data| then Some(p.data[a - p.addr]) else None
    ensures Sound(env, want, h, h, [p], moves)
  {
    hide Nested; hide Expect; hide FromNew;
    assert InSpace([p]);
    forall q, i | q in [p] && 0 <= i < |q.data| ensures want(q.addr + i) == Some(q.data[i]) {
      assert q == p;
      var a: word := p.addr + i;
      assert want(a) == Some(p.data[a - p.addr]);
    }
  }

  lemma OneComplete(env: Env, want: word -> Option<byte>, h: Heap, p: Patch, moves: Moves)
    requires Nested(env)
    requires forall a: word :: want(a) == if p.addr <= a < p.addr + |p.data| then Some(p.data[a - p.addr]) else None
    ensures Complete(env, want, h, h, [p], moves)
  {
    hide Nested; hide Expect;
    OneCovers(p);
  }

  lemma OneCovers(p: Patch)
    ensures forall a: word :: Covers([p], a) <==> p.addr <= a < p.addr + |p.data|
  {
    assert forall q :: q in [p] <==> q == p;
    forall a: word | p.addr <= a < p.addr + |p.data| ensures Covers([p], a) { assert p in [p]; }
  }

  lemma CoversAppend(ps: seq<Patch>, qs: seq<Patch>)
    ensures forall a: word :: Covers(ps + qs, a) <==> Covers(ps, a) || Covers(qs, a)
  {
    forall a: word ensures Covers(ps + qs, a) <==> Covers(ps, a) || Covers(qs, a) {
      if Covers(ps, a) {
        var p :| p in ps && p.addr <= a < p.addr + |p.data|;
        assert p in ps + qs;
      }
      if Covers(qs, a) {
        var p :| p in qs && p.addr <= a < p.addr + |p.data|;
        assert p in ps + qs;
      }
    }
  }

  lemma Concat(env: Env, e1: word -> Option<byte>, e2: word -> Option<byte>, e: word -> Option<byte>,
               h: Heap, h1: Heap, h2: Heap, ps: seq<Patch>, qs: seq<Patch>, moves: Moves)
    requires Nested(env) && Grows(h, h1) && Grows(h1, h2)
    requires Sound(env, e1, h, h1, ps, moves) && Complete(env, e1, h, h1, ps, moves)
    requires Sound(env, e2, h1, h2, qs, moves) && Complete(env, e2, h1, h2, qs, moves)
    requires forall a: word :: e1(a).Some? ==> e(a) == e1(a)
    requires forall a: word :: e2(a).Some? ==> e(a) == e2(a)
    requires forall a: word :: e(a).Some? ==> e1(a).Some? || e2(a).Some?
    ensures Sound(env, e, h, h2, ps + qs, moves) && Complete(env, e, h, h2, ps + qs, moves)
  {
    assert InSpace(ps + qs);
    forall p, i | p in ps + qs && 0 <= i < |p.data|
      ensures e(p.addr + i) == Some(p.data[i]) || FromNew(env, h, h2, moves, p.addr + i, p.data[i])
    {
      assert InSpace(ps) && InSpace(qs);
      if p in ps {
        if FromNew(env, h, h1, moves, p.addr + i, p.data[i]) {
          var key :| IsNew(h, h1, key) && Expect(env, h1.moved[key].fde, RegsOf(h1.moved[key]), moves, p.addr + i) == Some(p.data[i]);
          assert IsNew(h, h2, key);
        }
      } else {
        if FromNew(env, h1, h2, moves, p.addr + i, p.data[i]) {
          var key :| IsNew(h1, h2, key) && Expect(env, h2.moved[key].fde, RegsOf(h2.moved[key]), moves, p.addr + i) == Some(p.data[i]);
          assert IsNew(h, h2, key);
        }
      }
    }
    CoversAppend(ps, qs);
    forall key, a: word | IsNew(h, h2, key) && Expect(env, h2.moved[key].fde, RegsOf(h2.moved[key]), moves, a).Some?
      ensures Covers(ps + qs, a)
    {
      assert IsNew(h, h1, key) || IsNew(h1, h2, key);
    }
  }

  // ----- the three mutually recursive steps -----

  /** What the lemmas below assume about the result of a step. */
  predicate Final(env: Env, r: Option<(Heap, seq<Patch>)>, moves: Moves)
  {
    r.Some? && Extends(r.value.0, moves) && AllFit(env, moves)
  }

  ghost predicate RuleStep(env: Env, k: nat, rule: Rule, regs: Regs, h: Heap)
  {
    && Descends(env, k, rule) && h.moved.Keys <= AllKeys()
    && Fits(env, k, regs.addrNew) && Inside(env, rule, MemSize(env, k))
  }

  /** A rule that only reads. */
  lemma ReadExact(env: Env, k: nat, rule: Rule, regs: Regs, h: Heap, moves: Moves)
    requires Nested(env) && RuleStep(env, k, rule, regs, h)
    requires rule.kind.Undef? || rule.kind.OffsetRule? || rule.kind.RegisterRule?
    requires GenRule(env, k, rule, regs, h).Some?
    ensures var (h', ps) := GenRule(env, k, rule, regs, h).value;
            && Sound(env, RuleExpect(env, k, rule, regs, moves), h, h', ps, moves)
            && Complete(env, RuleExpect(env, k, rule, regs, moves), h, h', ps, moves)
  {
    hide Sound; hide Complete; hide DereferenceAt; hide Expect; hide ResolveAddress; hide ToBytes;
    TargetOf(env, rule, regs, k);
    if rule.kind.Undef? {
      NoPatch(env, RuleExpect(env, k, rule, regs, moves), h, moves);
    } else {
      OnePatch(env, RuleExpect(env, k, rule, regs, moves), h, GenRule(env, k, rule, regs, h).value.1[0], moves);
    }
  }

  lemma NoPatch(env: Env, want: word -> Option<byte>, h: Heap, moves: Moves)
    requires Nested(env) && forall a: word :: want(a) == None
    ensures Sound(env, want, h, h, [], moves) && Complete(env, want, h, h, [], moves)
  {
  }

  lemma FixupResult(env: Env, k: nat, rule: Rule, regs: Regs, h: Heap) returns (o: word, base: word)
    requires Nested(env) && Descends(env, k, rule) && h.moved.Keys <= AllKeys()
    requires rule.kind.RecurseFixup? && GenRule(env, k, rule, regs, h).Some?
    ensures ResolveTarget(rule.lh, regs) == Some(base) && ResolveAddress(env, rule.rh, regs) == Some(o)
    ensures GenRule(env, k, rule, regs, h) == GenFde(env, rule.index, Regs(o, base), h)
  {
    o, base := ResolveAddress(env, rule.rh, regs).value, ResolveTarget(rule.lh, regs).value;
  }

  /** What a pointer fixup does: it writes the new pointer and, when the target was
      not known, migrates the target behind it. */
  lemma PointerResult(env: Env, k: nat, rule: Rule, regs: Regs, h: Heap) returns (p: word, base: word)
    requires Nested(env) && Descends(env, k, rule) && h.moved.Keys <= AllKeys()
    requires rule.kind.RecurseFixupPointer? && GenRule(env, k, rule, regs, h).Some?
    ensures ResolveTarget(rule.lh, regs) == Some(base) && ReadPointer(env, rule.rh, regs) == Some(p)
    ensures var (h', ps) := GenRule(env, k, rule, regs, h).value;
            && NewPointer(env, p, h'.moved).Some? && |ps| > 0
            && ps[0] == Patch(base, ToBytes(NewPointer(env, p, h'.moved).value, 8))
            && (p == 0 || KeyOf(env, p) in h.moved ==> ps == [ps[0]] && h' == h)
            && (p != 0 && KeyOf(env, p) !in h.moved ==>
                  && Place(env, p, rule.index, h).Some?
                  && var (to, h1) := Place(env, p, rule.index, h).value;
                     && h1.moved.Keys <= AllKeys() && AllKeys() - h1.moved.Keys < AllKeys() - h.moved.Keys
                     && GenFde(env, rule.index, Regs(p, to), h1) == Some((h', ps[1..])))
  {
    p, base := ReadPointer(env, rule.rh, regs).value, ResolveTarget(rule.lh, regs).value;
    if p != 0 && KeyOf(env, p) !in h.moved {
      assert KeyOf(env, p) in AllKeys() - h.moved.Keys;
    }
  }

  lemma PlaceMoves(env: Env, p: word, k: nat, h: Heap)
    requires Place(env, p, k, h).Some? && KeyOf(env, p) !in h.moved
    ensures var (to, h1) := Place(env, p, k, h).value;
            && h1.moved.Keys == h.moved.Keys + {KeyOf(env, p)}
            && RegsOf(h1.moved[KeyOf(env, p)]) == Regs(p, to) && h1.moved[KeyOf(env, p)].fde == k
            && Grows(h, h1)
  {
  }

  /** The patch with the new pointer in it. */
  lemma PointerPatch(env: Env, k: nat, rule: Rule, regs: Regs, h: Heap, moves: Moves, p: word, base: word, v: word)
    requires Nested(env) && RuleStep(env, k, rule, regs, h) && rule.kind.RecurseFixupPointer?
    requires ResolveTarget(rule.lh, regs) == Some(base) && ReadPointer(env, rule.rh, regs) == Some(p)
    requires NewPointer(env, p, moves) == Some(v)
    ensures rule.lh.CurrTargNew?
    ensures var want, patch := RuleExpect(env, k, rule, regs, moves), Patch(base, ToBytes(v, 8));
            Sound(env, want, h, h, [patch], moves) && Complete(env, want, h, h, [patch], moves)
  {
    hide Sound; hide Complete; hide ReadPointer; hide NewPointer;
    TargetOf(env, rule, regs, k);
    OnePatch(env, RuleExpect(env, k, rule, regs, moves), h, Patch(base, ToBytes(v, 8)), moves);
  }

  lemma GenRuleExact(env: Env, k: nat, rule: Rule, regs: Regs, h: Heap, moves: Moves)
    requires Nested(env) && WellLaid(env) && RuleStep(env, k, rule, regs, h)
    requires Final(env, GenRule(env, k, rule, regs, h), moves)
    ensures var (h', ps) := GenRule(env, k, rule, regs, h).value;
            && Sound(env, RuleExpect(env, k, rule, regs, moves), h, h', ps, moves)
            && Complete(env, RuleExpect(env, k, rule, regs, moves), h, h', ps, moves)
    decreases AllKeys() - h.moved.Keys, DepthOf(env, k), 0, 0
  {
    hide Sound; hide Complete;
    var (h', ps) := GenRule(env, k, rule, regs, h).value;
    var want := RuleExpect(env, k, rule, regs, moves);
    if rule.kind.RecurseFixup? {
      var o, base := FixupResult(env, k, rule, regs, h);
      hide GenRule;
      SubObject(env, k, rule, regs, moves, o, base);
      GenFdeExact(env, rule.index, Regs(o, base), h, moves);
      Same(env, ObjectExpect(env, rule.index, Regs(o, base), moves), want, h, h', ps, moves);
    } else if rule.kind.RecurseFixupPointer? {
      var p, base := PointerResult(env, k, rule, regs, h);
      hide GenRule;
      PointerPatch(env, k, rule, regs, h, moves, p, base, NewPointer(env, p, h'.moved).value);
      if p != 0 && KeyOf(env, p) !in h.moved {
        var (to, h1) := Place(env, p, rule.index, h).value;
        PlaceMoves(env, p, rule.index, h);
        GenFdeExact(env, rule.index, Regs(p, to), h1, moves);
        AddObject(env, want, h, h1, h', KeyOf(env, p), ps[0], ps[1..], moves);
        assert ps == [ps[0]] + ps[1..];
      }
    } else {
      ReadExact(env, k, rule, regs, h, moves);
    }
  }

  lemma GenRulesExact(env: Env, k: nat, rs: Rules, regs: Regs, h: Heap, moves: Moves)
    requires Nested(env) && WellLaid(env) && h.moved.Keys <= AllKeys()
    requires forall e :: e in rs ==> Descends(env, k, e.value)
    requires Fits(env, k, regs.addrNew) && LaidOut(env, rs, MemSize(env, k))
    requires Final(env, GenRules(env, k, rs, regs, h), moves)
    ensures var (h', ps) := GenRules(env, k, rs, regs, h).value;
            && Sound(env, RulesExpect(env, k, rs, regs, moves), h, h', ps, moves)
            && Complete(env, RulesExpect(env, k, rs, regs, moves), h, h', ps, moves)
    decreases AllKeys() - h.moved.Keys, DepthOf(env, k), 1, |rs|
  {
    hide Sound; hide Complete; hide RuleByte; hide GenRule;
    if rs == [] {
      NoPatch(env, RulesExpect(env, k, rs, regs, moves), h, moves);
    } else {
      var (h1, ps) := GenRule(env, k, rs[0].value, regs, h).value;
      var (h2, qs) := GenRules(env, k, rs[1..], regs, h1).value;
      GenRuleExact(env, k, rs[0].value, regs, h, moves);
      GenRulesExact(env, k, rs[1..], regs, h1, moves);
      var first, others := RuleExpect(env, k, rs[0].value, regs, moves), RulesExpect(env, k, rs[1..], regs, moves);
      var all := RulesExpect(env, k, rs, regs, moves);
      forall a: word | others(a).Some? ensures all(a) == others(a) {
        FirstOrRest(env, k, rs, regs, moves, a);
      }
      Concat(env, first, others, all, h, h1, h2, ps, qs, moves);
    }
  }

  lemma GenFdeExact(env: Env, k: nat, regs: Regs, h: Heap, moves: Moves)
    requires Nested(env) && WellLaid(env) && h.moved.Keys <= AllKeys()
    requires Fits(env, k, regs.addrNew)
    requires Final(env, GenFde(env, k, regs, h), moves)
    ensures var (h', ps) := GenFde(env, k, regs, h).value;
            && Sound(env, ObjectExpect(env, k, regs, moves), h, h', ps, moves)
            && Complete(env, ObjectExpect(env, k, regs, moves), h, h', ps, moves)
    decreases AllKeys() - h.moved.Keys, DepthOf(env, k), 2, 0
  {
    var rules := FdeRules(env, k).value;
    var (h', ps) := GenFde(env, k, regs, h).value;
    GenRulesExact(env, k, rules, regs, h, moves);
    Same(env, RulesExpect(env, k, rules, regs, moves), ObjectExpect(env, k, regs, moves), h, h', ps, moves);
  }

  /** Two descriptions that agree everywhere are exchangeable. */
  lemma Same(env: Env, e: word -> Option<byte>, e': word -> Option<byte>, h: Heap, h': Heap, ps: seq<Patch>, moves: Moves)
    requires Nested(env) && Sound(env, e, h, h', ps, moves) && Complete(env, e, h, h', ps, moves)
    requires forall a: word :: e(a) == e'(a)
    ensures Sound(env, e', h, h', ps, moves) && Complete(env, e', h, h', ps, moves)
  {
  }

  /** A nested object prescribes what its rule does. */
  lemma SubObject(env: Env, k: nat, rule: Rule, regs: Regs, moves: Moves, o: word, base: word)
    requires Nested(env) && WellLaid(env) && Descends(env, k, rule) && rule.kind.RecurseFixup?
    requires Fits(env, k, regs.addrNew) && Inside(env, rule, MemSize(env, k))
    requires ResolveTarget(rule.lh, regs) == Some(base) && ResolveAddress(env, rule.rh, regs) == Some(o)
    ensures Fits(env, rule.index, base)
    ensures forall a: word :: Expect(env, rule.index, Regs(o, base), moves, a) == RuleByte(env, k, rule, regs, moves, a)
  {
    TargetOf(env, rule, regs, k);
    forall a: word
      ensures Expect(env, rule.index, Regs(o, base), moves, a) == RuleByte(env, k, rule, regs, moves, a)
    {
      if Expect(env, rule.index, Regs(o, base), moves, a).Some? {
        ExpectInside(env, rule.index, Regs(o, base), moves, a);
      }
    }
  }

  /** The patches of an object that was just recorded in dataMoved. */
  lemma AddObject(env: Env, want: word -> Option<byte>, h: Heap, h1: Heap, h2: Heap, key: Key,
                  p: Patch, qs: seq<Patch>, moves: Moves)
    requires Nested(env) && Grows(h1, h2) && key !in h.moved && h1.moved.Keys == h.moved.Keys + {key}
    requires Sound(env, want, h, h, [p], moves) && Complete(env, want, h, h, [p], moves)
    requires key in h1.moved
    requires var e := ObjectExpect(env, h1.moved[key].fde, RegsOf(h1.moved[key]), moves);
             Sound(env, e, h1, h2, qs, moves) && Complete(env, e, h1, h2, qs, moves)
    ensures Sound(env, want, h, h2, [p] + qs, moves) && Complete(env, want, h, h2, [p] + qs, moves)
  {
    assert InSpace([p] + qs) by { assert InSpace([p]) && InSpace(qs); }
    assert IsNew(h, h2, key);
    forall q, i | q in [p] + qs && 0 <= i < |q.data|
      ensures want(q.addr + i) == Some(q.data[i]) || FromNew(env, h, h2, moves, q.addr + i, q.data[i])
    {
      if q in qs {
        if FromNew(env, h1, h2, moves, q.addr + i, q.data[i]) {
          var key' :| IsNew(h1, h2, key') && Expect(env, h2.moved[key'].fde, RegsOf(h2.moved[key']), moves, q.addr + i) == Some(q.data[i]);
          assert IsNew(h, h2, key');
        }
      } else {
        assert q in [p];
      }
    }
    CoversAppend([p], qs);
    forall key', a: word | IsNew(h, h2, key') && Expect(env, h2.moved[key'].fde, RegsOf(h2.moved[key']), moves, a).Some?
      ensures Covers([p] + qs, a)
    {
      assert key' == key || IsNew(h1, h2, key');
    }
  }

  /** Where the rules behind the first prescribe a byte, the first does not. */
  lemma FirstOrRest(env: Env, k: nat, rs: Rules, regs: Regs, moves: Moves, a: word)
    requires Nested(env) && rs != [] && forall e :: e in rs ==> Descends(env, k, e.value)
    requires Fits(env, k, regs.addrNew) && LaidOut(env, rs, MemSize(env, k))
    requires RulesByte(env, k, rs[1..], regs, moves, a).Some?
    ensures RulesByte(env, k, rs, regs, moves, a) == RulesByte(env, k, rs[1..], regs, moves, a)
  {
    var j := RulesByteFrom(env, k, rs[1..], regs, moves, a);
    assert Apart(env, rs[0].value, rs[j + 1].value);
    if RuleByte(env, k, rs[0].value, regs, moves, a).Some? {
      RuleByteRange(env, k, rs[0].value, regs, moves, a);
      assert false;
    }
  }

  // ----- applying the batch -----

  /** patchDataWithFDE: the batch is applied in list order. */
  function ApplyAll(mem: Memory, ps: seq<Patch>): Memory
    requires InSpace(ps)
    decreases |ps|
  {
    if ps == [] then mem
    else
      assert ps[0] in ps;
      ApplyAll(WriteBytes(mem, ps[0].addr, ps[0].data), ps[1..])
  }

  /** Some patch of the batch writes b at a. */
  predicate LeftBy(ps: seq<Patch>, a: word, b: byte)
  {
    exists p :: p in ps && p.addr <= a < p.addr + |p.data| && b == p.data[a - p.addr]
  }

  /** A byte that no patch covers is untouched; a byte that is covered holds what
      some patch writes there. */
  lemma {:induction false} ApplyByte(mem: Memory, ps: seq<Patch>, a: word)
    requires InSpace(ps)
    ensures !Covers(ps, a) ==> (a in ApplyAll(mem, ps) <==> a in mem) && (a in mem ==> ApplyAll(mem, ps)[a] == mem[a])
    ensures Covers(ps, a) ==> a in ApplyAll(mem, ps) && LeftBy(ps, a, ApplyAll(mem, ps)[a])
    decreases |ps|
  {
    hide WriteBytes;
    if ps != [] {
      var mem1 := WriteBytes(mem, ps[0].addr, ps[0].data);
      assert ps[0] in ps;
      WrittenByte(mem, ps[0].addr, ps[0].data, a);
      ApplyByte(mem1, ps[1..], a);
      CoversAppend([ps[0]], ps[1..]);
      assert ps == [ps[0]] + ps[1..];
      if Covers(ps[1..], a) {
        var p :| p in ps[1..] && p.addr <= a < p.addr + |p.data| && ApplyAll(mem1, ps[1..])[a] == p.data[a - p.addr];
        assert p in ps;
      } else if Covers(ps, a) {
        assert ps[0] in ps && ps[0].addr <= a < ps[0].addr + |ps[0].data|;
      } else {
        assert ps[0] in ps;
      }
    }
  }

  /** An object: the FDE it is moved with, and from where to where. */
  datatype Object = Object(fde: nat, regs: Regs)

  function ObjectOf(m: Move): Object { Object(m.fde, RegsOf(m)) }

  /** The objects of one call: the variable and everything moved on its behalf. */
  ghost function Objects(root: Object, h: Heap, h': Heap): set<Object>
  {
    {root} + set key | key in h'.moved && key !in h.moved :: ObjectOf(h'.moved[key])
  }

  /** Different objects of the call lie in different places. */
  ghost predicate ObjectsApart(env: Env, objects: set<Object>)
  {
    forall x, y :: x in objects && y in objects && x != y ==> Separate(env, x, y)
  }

  predicate BlocksApart(a: int, n: nat, b: int, m: nat) { a + n <= b || b + m <= a }

  predicate Separate(env: Env, x: Object, y: Object)
  {
    BlocksApart(x.regs.addrNew, MemSize(env, x.fde), y.regs.addrNew, MemSize(env, y.fde))
  }

  ghost function ObjectByte(env: Env, x: Object, moves: Moves, a: word): Option<byte>
    requires Nested(env)
  {
    Expect(env, x.fde, x.regs, moves, a)
  }

  /** The address holds the byte that an object prescribes for it, or what it held before. */
  ghost predicate ImageAt(env: Env, objects: set<Object>, moves: Moves, before: Memory, after: Memory, a: word)
    requires Nested(env)
  {
    && (forall x :: x in objects && ObjectByte(env, x, moves, a).Some? ==> a in after && after[a] == ObjectByte(env, x, moves, a).value)
    && ((forall x :: x in objects ==> ObjectByte(env, x, moves, a).None?) ==>
          (a in after <==> a in before) && (a in before ==> after[a] == before[a]))
  }

  /** The main result: after the batch of a variable has been applied, every address
      holds the byte that the one object it belongs to prescribes, and addresses
      that no object prescribes a byte for are untouched. */
  lemma BatchIsImage(env: Env, root: Object, h: Heap, mem: Memory, a: word)
    requires Nested(env) && WellLaid(env) && h.moved.Keys <= AllKeys()
    requires GenFde(env, root.fde, root.regs, h).Some?
    requires var (h', ps) := GenFde(env, root.fde, root.regs, h).value;
             && Fits(env, root.fde, root.regs.addrNew) && AllFit(env, h'.moved)
             && ObjectsApart(env, Objects(root, h, h'))
    ensures var (h', ps) := GenFde(env, root.fde, root.regs, h).value;
            InSpace(ps) && ImageAt(env, Objects(root, h, h'), h'.moved, mem, ApplyAll(mem, ps), a)
  {
    hide GenFde; hide Expect; hide ApplyAll; hide LaidOut;
    var (h', ps) := GenFde(env, root.fde, root.regs, h).value;
    var want := ObjectExpect(env, root.fde, root.regs, h'.moved);
    GenFdeExact(env, root.fde, root.regs, h, h'.moved);
    ApplyByte(mem, ps, a);
    var objects := Objects(root, h, h');
    if Covers(ps, a) {
      var b := ApplyAll(mem, ps)[a];
      var y := Author(env, root, h, h', ps, a, b);
      forall x | x in objects && ObjectByte(env, x, h'.moved, a).Some?
        ensures b == ObjectByte(env, x, h'.moved, a).value
      {
        OneOwner(env, objects, h'.moved, x, y, a);
      }
    } else {
      forall x | x in objects ensures ObjectByte(env, x, h'.moved, a).None? {
        Uncovered(env, root, h, h', ps, x, a);
      }
    }
  }

  /** An address that no patch covers is not prescribed a byte. */
  lemma Uncovered(env: Env, root: Object, h: Heap, h': Heap, ps: seq<Patch>, x: Object, a: word)
    requires Nested(env) && !Covers(ps, a) && x in Objects(root, h, h')
    requires Complete(env, ObjectExpect(env, root.fde, root.regs, h'.moved), h, h', ps, h'.moved)
    ensures ObjectByte(env, x, h'.moved, a).None?
  {
    hide Expect;
    if x == root {
      assert ObjectExpect(env, root.fde, root.regs, h'.moved)(a).None?;
    } else {
      var key :| key in h'.moved && key !in h.moved && ObjectOf(h'.moved[key]) == x;
      assert IsNew(h, h', key);
    }
  }

  /** The object that prescribes the byte a patch left at an address. */
  lemma Author(env: Env, root: Object, h: Heap, h': Heap, ps: seq<Patch>, a: word, b: byte) returns (y: Object)
    requires Nested(env) && LeftBy(ps, a, b)
    requires Sound(env, ObjectExpect(env, root.fde, root.regs, h'.moved), h, h', ps, h'.moved)
    ensures y in Objects(root, h, h') && ObjectByte(env, y, h'.moved, a) == Some(b)
  {
    hide Expect;
    var p :| p in ps && p.addr <= a < p.addr + |p.data| && b == p.data[a - p.addr];
    var i := a - p.addr;
    assert p.addr + i == a;
    if ObjectExpect(env, root.fde, root.regs, h'.moved)(a) == Some(p.data[i]) {
      y := root;
    } else {
      var key :| IsNew(h, h', key)
        && Expect(env, h'.moved[key].fde, RegsOf(h'.moved[key]), h'.moved, a) == Some(p.data[i]);
      y := ObjectOf(h'.moved[key]);
    }
  }

  /** At most one object prescribes a byte for an address. */
  lemma OneOwner(env: Env, objects: set<Object>, moves: Moves, x: Object, y: Object, a: word)
    requires Nested(env) && WellLaid(env) && ObjectsApart(env, objects) && x in objects && y in objects
    requires Fits(env, x.fde, x.regs.addrNew) && Fits(env, y.fde, y.regs.addrNew)
    requires ObjectByte(env, x, moves, a).Some? && ObjectByte(env, y, moves, a).Some?
    ensures x == y
  {
    hide Nested; hide WellLaid; hide Expect; hide Fits; hide MemSize;
    ExpectInside(env, x.fde, x.regs, moves, a);
    ExpectInside(env, y.fde, y.regs, moves, a);
  }
}
