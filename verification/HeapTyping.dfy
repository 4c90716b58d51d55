/** When patch generation succeeds, and what it takes the objects it meets for (dwarfvm.c).  A typing of the old
    heap says at which addresses there are objects of which FDEs.  If it is closed under the pointers that are
    followed, generation succeeds, and moves nothing that the typing does not have. */
module HeapTyping {
  import opened Bytes
  import opened Registers
  import opened TableSpec
  import opened RuleVm
  import opened Target
  import opened PatchVm
  import opened Migration
  import opened HeapImage
  import opened OwnTargets
  import opened PatchRun

  /** An object of the old heap: the FDE that describes it, and where it is. */
  datatype Typed = Typed(fde: nat, addr: word)

  /** All that the rule reads is there, and what its pointer leads to is in w. */
  ghost predicate RuleTyped(env: Env, k: nat, rule: Rule, regs: Regs, w: set<Typed>)
    requires Nested(env) && Descends(env, k, rule)
    decreases DepthOf(env, k), 0
  {
    && ResolveTarget(rule.lh, regs).Some?
    && match rule.kind
       case Undef => true
       case OffsetRule => DereferenceAt(env, Some(rule.offset % WORD), if rule.lh.CurrTargNew? && rule.lh.size != 0 then rule.lh.size else 8).Some?
       case RegisterRule => ResolveBytes(env, rule.rh, regs).Some?
       case CfaRule => false
       case RecurseFixup =>
         && ResolveAddress(env, rule.rh, regs).Some?
         && ObjectTyped(env, rule.index, Regs(ResolveAddress(env, rule.rh, regs).value, ResolveTarget(rule.lh, regs).value), w)
       case RecurseFixupPointer =>
         var p := ReadPointer(env, rule.rh, regs);
         p.Some? && (p.value == 0 || Typed(rule.index, p.value) in w)
  }

  ghost predicate ObjectTyped(env: Env, k: nat, regs: Regs, w: set<Typed>)
    requires Nested(env)
    decreases DepthOf(env, k), 1
  {
    FdeRules(env, k).Some? && forall e :: e in FdeRules(env, k).value ==> RuleTyped(env, k, e.value, regs, w)
  }

  /** The object does not reach the end of the address space. */
  predicate Roomy(env: Env, k: nat, n: word) { 0 < n && n + MemSize(env, k) < WORD }

  /** The patch knows where the object goes, and wherever there is room for it all of it is typed. */
  ghost predicate Member(env: Env, x: Typed, w: set<Typed>)
    requires Nested(env)
  {
    && 0 < x.fde <= |env.fdes| && !env.locate(x.addr).Unknown?
    && (env.locate(x.addr).Moved? ==> Roomy(env, x.fde, env.locate(x.addr).to))
    && forall n: word :: Roomy(env, x.fde, n) ==> ObjectTyped(env, x.fde, Regs(x.addr, n), w)
  }

  ghost predicate ClosedWorld(env: Env, w: set<Typed>)
    requires Nested(env)
  {
    forall x :: x in w ==> Member(env, x, w)
  }

  /** malloc in the target finds room for every object. */
  ghost predicate MallocWorks(env: Env)
  {
    forall blocks: seq<Block>, f :: f in env.fdes ==>
      var a := env.malloc(blocks, f.memSize);
      a.Some? && 0 < a.value && a.value + f.memSize < WORD
  }

  /** Everything that was moved on the way is in w. */
  ghost predicate NewTyped(h: Heap, h': Heap, w: set<Typed>)
  {
    forall key :: IsNew(h, h', key) ==> Typed(h'.moved[key].fde, h'.moved[key].old_) in w
  }

  lemma NewTypedJoin(h: Heap, h1: Heap, h2: Heap, w: set<Typed>)
    requires Grows(h1, h2) && NewTyped(h, h1, w) && NewTyped(h1, h2, w)
    ensures NewTyped(h, h2, w)
  {
    forall key | IsNew(h, h2, key) ensures Typed(h2.moved[key].fde, h2.moved[key].old_) in w {
      assert IsNew(h, h1, key) || IsNew(h1, h2, key);
    }
  }

  lemma NoneTyped(h: Heap, w: set<Typed>)
    ensures NewTyped(h, h, w)
  {
  }

  /** A member of w can be placed, and is typed where it is put. */
  lemma PlaceTyped(env: Env, p: word, k: nat, h: Heap, w: set<Typed>)
    requires Nested(env) && MallocWorks(env) && ClosedWorld(env, w) && Typed(k, p) in w && KeyOf(env, p) !in h.moved
    ensures Place(env, p, k, h).Some?
    ensures var (to, h1) := Place(env, p, k, h).value;
      && ObjectTyped(env, k, Regs(p, to), w) && NewTyped(h, h1, w) && Grows(h, h1)
  {
    hide Nested, ObjectTyped;
    assert Member(env, Typed(k, p), w);
    assert env.fdes[k - 1] in env.fdes;
  }

  lemma RuleSucceeds(env: Env, k: nat, rule: Rule, regs: Regs, h: Heap, w: set<Typed>)
    requires Nested(env) && MallocWorks(env) && ClosedWorld(env, w) && Descends(env, k, rule) && h.moved.Keys <= AllKeys()
    requires RuleTyped(env, k, rule, regs, w)
    ensures GenRule(env, k, rule, regs, h).Some? && NewTyped(h, GenRule(env, k, rule, regs, h).value.0, w)
    decreases AllKeys() - h.moved.Keys, DepthOf(env, k), 0, 0
  {
    NoneTyped(h, w);
    hide ObjectTyped, NewTyped, Nested, MallocWorks, ClosedWorld, ReadPointer, ResolveBytes, DereferenceAt, ResolveAddress, ToBytes;
    if rule.kind.RecurseFixup? {
      FdeSucceeds(env, rule.index, Regs(ResolveAddress(env, rule.rh, regs).value, ResolveTarget(rule.lh, regs).value), h, w);
    } else if rule.kind.RecurseFixupPointer? {
      var p, a := ReadPointer(env, rule.rh, regs).value, ResolveTarget(rule.lh, regs).value;
      if p != 0 {
        hide ResolveTarget, GenRule, Place;
        PointerRule(env, k, rule, regs, h, p, a);
        if KeyOf(env, p) !in h.moved {
          PlaceTyped(env, p, rule.index, h, w);
          var (to, h1) := Place(env, p, rule.index, h).value;
          FdeSucceeds(env, rule.index, Regs(p, to), h1, w);
          NewTypedJoin(h, h1, GenFde(env, rule.index, Regs(p, to), h1).value.0, w);
        }
      }
    }
  }

  lemma RulesSucceed(env: Env, k: nat, rs: Rules, regs: Regs, h: Heap, w: set<Typed>)
    requires Nested(env) && MallocWorks(env) && ClosedWorld(env, w) && h.moved.Keys <= AllKeys()
    requires forall e :: e in rs ==> Descends(env, k, e.value) && RuleTyped(env, k, e.value, regs, w)
    ensures GenRules(env, k, rs, regs, h).Some? && NewTyped(h, GenRules(env, k, rs, regs, h).value.0, w)
    decreases AllKeys() - h.moved.Keys, DepthOf(env, k), 1, |rs|
  {
    hide RuleTyped, NewTyped, GenRule, Nested, MallocWorks, ClosedWorld;
    if rs == [] {
      NoneTyped(h, w);
    } else {
      RuleSucceeds(env, k, rs[0].value, regs, h, w);
      var h1 := GenRule(env, k, rs[0].value, regs, h).value.0;
      RulesSucceed(env, k, rs[1..], regs, h1, w);
      NewTypedJoin(h, h1, GenRules(env, k, rs[1..], regs, h1).value.0, w);
    }
  }

  /** Main result: generation succeeds for an object of a closed typing, with sharing, cycles, and whatever has
      been moved before; and everything it moves is moved as what the typing says it is. */
  lemma FdeSucceeds(env: Env, k: nat, regs: Regs, h: Heap, w: set<Typed>)
    requires Nested(env) && MallocWorks(env) && ClosedWorld(env, w) && h.moved.Keys <= AllKeys()
    requires ObjectTyped(env, k, regs, w)
    ensures GenFde(env, k, regs, h).Some? && NewTyped(h, GenFde(env, k, regs, h).value.0, w)
    decreases AllKeys() - h.moved.Keys, DepthOf(env, k), 2, 0
  {
    var rules := FdeRules(env, k).value;
    hide RuleTyped, NewTyped, MallocWorks, ClosedWorld, FdeRules;
    RulesSucceed(env, k, rules, regs, h, w);
  }

  /** Variables of a closed typing, one after the other. */
  ghost predicate RootsTyped(env: Env, roots: seq<Object>, w: set<Typed>)
    requires Nested(env)
  {
    forall x :: x in roots ==> ObjectTyped(env, x.fde, x.regs, w)
  }

  lemma {:induction false} AllSucceed(env: Env, roots: seq<Object>, h: Heap, w: set<Typed>)
    requires Nested(env) && MallocWorks(env) && ClosedWorld(env, w) && h.moved.Keys <= AllKeys() && RootsTyped(env, roots, w)
    ensures GenAll(env, roots, h).Some? && NewTyped(h, GenAll(env, roots, h).value.0, w)
    decreases |roots|
  {
    hide ObjectTyped, NewTyped, GenFde, Nested, MallocWorks, ClosedWorld;
    if roots == [] {
      NoneTyped(h, w);
    } else {
      FdeSucceeds(env, roots[0].fde, roots[0].regs, h, w);
      var h1 := GenFde(env, roots[0].fde, roots[0].regs, h).value.0;
      AllSucceed(env, roots[1..], h1, w);
      NewTypedJoin(h, h1, GenAll(env, roots[1..], h1).value.0, w);
    }
  }
}
