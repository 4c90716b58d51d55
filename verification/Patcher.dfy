/** The patch machine as it runs (dwarfvm.c): dataMoved is a variable, patches are
    gathered first and poked into the process afterwards. */
module Patcher {
  import opened Bytes
  import opened TableSpec
  import opened RuleVm
  import opened Target
  import opened PatchVm
  import opened Migration
  import opened HeapImage
  import opened PatchRun

  /** Patches gathered before the rest of the work. */
  function After(ps: seq<Patch>, r: Option<(Heap, seq<Patch>)>): Option<(Heap, seq<Patch>)>
  {
    if r.None? then None else Some((r.value.0, ps + r.value.1))
  }

  class Engine {
    const process: Process
    var dataMoved: map<Key, Move>
    var blocks: seq<Block>

    constructor (process: Process)
      ensures this.process == process && dataMoved == map[] && blocks == []
    {
      this.process, dataMoved, blocks := process, map[], [];
    }

    ghost function H(): Heap reads this { Heap(dataMoved, blocks) }

    /** What a step that should do what gen describes has done. */
    ghost predicate Did(gen: Option<(Heap, seq<Patch>)>, ps: Option<seq<Patch>>)
      reads this
    {
      (ps.Some? <==> gen.Some?) && (ps.Some? ==> gen.value == (H(), ps.value))
    }

    /** makePatchData. */
    method MakePatchData(env: Env, k: nat, rule: Rule, regs: Regs) returns (ps: Option<seq<Patch>>)
      requires Nested(env) && Descends(env, k, rule) && dataMoved.Keys <= AllKeys()
      modifies this`dataMoved, this`blocks
      ensures Did(GenRule(env, k, rule, regs, old(H())), ps)
      decreases AllKeys() - dataMoved.Keys, DepthOf(env, k), 1
    {
      var resultAddr := ResolveTarget(rule.lh, regs);
      if resultAddr.None? { return None; }
      match rule.kind
      case Undef => return Some([]);
      case OffsetRule =>
        var bytes := DereferenceAt(env, Some(rule.offset % WORD), if rule.lh.size != 0 then rule.lh.size else 8);
        if bytes.None? { return None; }
        return Some([Patch(resultAddr.value, bytes.value)]);
      case RegisterRule =>
        var bytes := ResolveBytes(env, rule.rh, regs);
        if bytes.None? { return None; }
        return Some([Patch(resultAddr.value, bytes.value)]);
      case CfaRule => return None;
      case RecurseFixup =>
        var addrOld := ResolveAddress(env, rule.rh, regs);
        if addrOld.None? { return None; }
        ps := GeneratePatches(env, rule.index, Regs(addrOld.value, resultAddr.value));
      case RecurseFixupPointer =>
        ps := FixupPointer(env, k, rule, regs, resultAddr.value);
    }

    method FixupPointer(env: Env, k: nat, rule: Rule, regs: Regs, resultAddr: word) returns (ps: Option<seq<Patch>>)
      requires Nested(env) && Descends(env, k, rule) && dataMoved.Keys <= AllKeys()
      requires rule.kind.RecurseFixupPointer? && ResolveTarget(rule.lh, regs) == Some(resultAddr)
      modifies this`dataMoved, this`blocks
      ensures Did(GenRule(env, k, rule, regs, old(H())), ps)
      decreases AllKeys() - dataMoved.Keys, DepthOf(env, k), 0
    {
      ghost var h := H();
      var pointer := ReadPointer(env, rule.rh, regs);
      NoPointer(env, k, rule, regs, h, resultAddr);
      if pointer.None? { return None; }
      var addrOld := pointer.value;
      if addrOld != 0 { PointerRule(env, k, rule, regs, h, addrOld, resultAddr); }
      hide GenRule, GenFde, Nested, ReadPointer, ResolveTarget, ToBytes;
      if addrOld == 0 { return Some([Patch(resultAddr, ToBytes(0, 8))]); }
      var key := KeyOf(env, addrOld);
      if key in dataMoved { return Some([Patch(resultAddr, ToBytes(dataMoved[key].new_, 8))]); }
      var newLocation: word;
      match env.locate(addrOld) {
        case Unknown => return None;
        case Moved(to) =>
          newLocation := to;
          dataMoved := dataMoved[key := Move(addrOld, to, rule.index, None)];
        case NoSymbol =>
          if rule.index == 0 || rule.index > |env.fdes| { return None; }
          var size := env.fdes[rule.index - 1].memSize;
          var block := env.malloc(blocks, size);
          if block.None? { return None; }
          newLocation := block.value;
          dataMoved := dataMoved[key := Move(addrOld, newLocation, rule.index, Some(|blocks|))];
          blocks := blocks + [Block(newLocation, size)];
      }
      assert Place(env, addrOld, rule.index, h) == Some((newLocation, H()));
      assert key in AllKeys() - h.moved.Keys;
      assert AllKeys() - dataMoved.Keys < AllKeys() - h.moved.Keys;
      var others := GeneratePatches(env, rule.index, Regs(addrOld, newLocation));
      if others.None? { return None; }
      return Some([Patch(resultAddr, ToBytes(newLocation, 8))] + others.value);
    }

    /** generatePatchesFromFDEAndState. */
    method GeneratePatches(env: Env, k: nat, regs: Regs) returns (ps: Option<seq<Patch>>)
      requires Nested(env) && dataMoved.Keys <= AllKeys()
      modifies this`dataMoved, this`blocks
      ensures Did(GenFde(env, k, regs, old(H())), ps)
      decreases AllKeys() - dataMoved.Keys, DepthOf(env, k), 2
    {
      if k == 0 || k > |env.fdes| { return None; }
      var fde := env.fdes[k - 1];
      var end := EvaluateInstructionsToRules(fde.cie, fde.instrs, State(fde.lowpc, [], []), fde.highpc);
      if end.None? { return None; }
      var rules := end.value.rules;
      ghost var h := H();
      var gathered := [];
      var i := 0;
      assert FdeRules(env, k) == Some(rules);
      RulesStart(env, k, rules, regs, h);
      hide Nested, FdeRules, GenFde, GenRules, GenRule, Descends, AllKeys, Grows, After, DepthOf;
      assert rules[0..] == rules;
      while i < |rules|
        invariant 0 <= i <= |rules| && dataMoved.Keys <= AllKeys()
        invariant AllKeys() - dataMoved.Keys <= AllKeys() - h.moved.Keys
        invariant GenRules(env, k, rules, regs, h) == After(gathered, GenRules(env, k, rules[i..], regs, H()))
      {
        ghost var was := H();
        var patchList := MakePatchData(env, k, rules[i].value, regs);
        RulesNext(env, k, rules[i..], regs, was, gathered);
        assert rules[i..][1..] == rules[i + 1..];
        if patchList.None? { return None; }
        FewerKeys(was, H());
        gathered := gathered + patchList.value;
        i := i + 1;
      }
      assert rules[i..] == [];
      RulesEnd(env, k, regs, H(), gathered);
      return Some(gathered);
    }

    /** patchDataWithFDE: all reads have been done before the first write. */
    method PatchDataWithFDE(env: Env, root: Object, stray: (nat, nat) -> byte, ghost image: Block) returns (ok: bool)
      requires Nested(env) && env.mem == process.mem && dataMoved.Keys <= AllKeys()
      modifies this`dataMoved, this`blocks, process`mem
      ensures ok <==>
                var r := GenFde(env, root.fde, root.regs, old(H()));
                r.Some? && InSpace(r.value.1) && CanPoke(old(process.mem), r.value.1)
      ensures ok ==> var (h', ps) := GenFde(env, root.fde, root.regs, old(H())).value;
                     H() == h' && InSpace(ps) && process.mem == ApplyAll(old(process.mem), ps)
      ensures ok && WellLaid(env) && FreshMalloc(env, image) && HeapOk(env, image, old(H()))
                && SymbolsPlaced(env, image, SymbolObjects(root, H())) ==>
                HeapOk(env, image, H()) && VariableMigrated(env, root, old(H()), H(), old(process.mem), process.mem)
    {
      hide Nested; hide WellLaid; hide FreshMalloc; hide HeapOk; hide GenFde; hide SymbolsPlaced; hide VariableMigrated;
      hide Writable; hide InSpace; hide CanPoke; hide WriteBytes; hide Grows; hide ApplyAll;
      NoWrites(process.mem);
      var patches := GeneratePatches(env, root.fde, root.regs);
      if patches.None? { return false; }
      var ps := patches.value;
      var i := 0;
      while i < |ps|
        invariant 0 <= i <= |ps|
        invariant H() == GenFde(env, root.fde, root.regs, old(H())).value.0
        invariant InSpace(ps[..i]) && process.mem == ApplyAll(old(process.mem), ps[..i])
        invariant CanPoke(old(process.mem), ps[..i]) && process.mem.Keys == old(process.mem.Keys)
      {
        if ps[i].addr + |ps[i].data| > WORD {
          OnePatchFails(old(process.mem), ps, i);
          return false;
        }
        SameKeys(process.mem, old(process.mem), ps[i].addr, |ps[i].data|);
        ghost var was := process.mem;
        ok := process.MemcpyTo(ps[i].addr, ps[i].data, stray);
        if !ok {
          OnePatchFails(old(process.mem), ps, i);
          return;
        }
        WritableMapped(was, ps[i].addr, ps[i].data);
        OneMoreWritable(old(process.mem), ps, i);
        ApplySnoc(old(process.mem), ps[..i], ps[i]);
        assert ps[..i] + [ps[i]] == ps[..i + 1];
        i := i + 1;
      }
      assert ps[..|ps|] == ps;
      if WellLaid(env) && FreshMalloc(env, image) && HeapOk(env, image, old(H()))
        && SymbolsPlaced(env, image, SymbolObjects(root, H())) {
        MigrationCorrect(env, image, root, old(H()));
      }
      return true;
    }

    /** The variables of a patch, one after the other.  Each is read from what the ones before have
        left; afterwards all objects are the transforms of what env.mem, the old memory, held. */
    method PatchVariables(env: Env, roots: seq<Object>, stray: (nat, nat) -> byte, ghost image: Block) returns (ok: bool)
      requires Nested(env) && dataMoved.Keys <= AllKeys()
      modifies this`dataMoved, this`blocks, process`mem
      ensures ok <==> RunWritable(env, roots, old(H()), old(process.mem))
      ensures ok ==> RunAll(env, roots, old(H()), old(process.mem)) == Some((H(), process.mem))
      ensures ok && RunReady(env, image, roots, old(H()), old(process.mem)) ==>
                RunMigrated(env, AllObjects(roots, old(H()), H()), H().moved, old(process.mem), process.mem)
    {
      ghost var h, mem := H(), process.mem;
      var i := 0;
      hide Nested, GenFde, InSpace, CanPoke, RunWritable, RunAll, RunReady, RunMigrated, Given, WellLaid, FreshMalloc, HeapOk, SymbolsPlaced, VariableMigrated, ApplyAll;
      assert roots[0..] == roots;
      while i < |roots|
        invariant 0 <= i <= |roots| && dataMoved.Keys <= AllKeys()
        invariant RunAll(env, roots, h, mem) == RunAll(env, roots[i..], H(), process.mem)
        invariant RunWritable(env, roots, h, mem) <==> RunWritable(env, roots[i..], H(), process.mem)
      {
        NestedAt(env, process.mem);
        AtMem(env, process.mem);
        ghost var before, was := H(), process.mem;
        ok := PatchDataWithFDE(Given(env, process.mem), roots[i], stray, image);
        WritableNext(env, roots[i..], before, was);
        if !ok { return; }
        RunNext(env, roots[i..], before, was);
        assert roots[i..][1..] == roots[i + 1..];
        i := i + 1;
      }
      RunDone(env, H(), process.mem);
      NothingToWrite(env, H(), process.mem);
      if RunReady(env, image, roots, h, mem) {
        RunReadyMigrates(env, image, roots, h, mem);
      }
      return true;
    }
  }

  /** Every patch goes to memory that can be written. */
  predicate CanPoke(mem: Memory, ps: seq<Patch>)
  {
    forall p :: p in ps ==> Writable(mem, p.addr, |p.data|)
  }

  /** Each batch can be generated from what the ones before have left, and written. */
  predicate RunWritable(env: Env, roots: seq<Object>, h: Heap, mem: Memory)
    requires Nested(env) && h.moved.Keys <= AllKeys()
    decreases |roots|
  {
    roots == [] ||
    (NestedAt(env, mem);
     var r := GenFde(Given(env, mem), roots[0].fde, roots[0].regs, h);
     && r.Some? && InSpace(r.value.1) && CanPoke(mem, r.value.1)
     && RunWritable(env, roots[1..], r.value.0, ApplyAll(mem, r.value.1)))
  }

  lemma WritableNext(env: Env, roots: seq<Object>, h: Heap, mem: Memory)
    requires Nested(env) && Nested(Given(env, mem)) && h.moved.Keys <= AllKeys() && roots != []
    ensures var r := GenFde(Given(env, mem), roots[0].fde, roots[0].regs, h);
      RunWritable(env, roots, h, mem)
      <==> && r.Some? && InSpace(r.value.1) && CanPoke(mem, r.value.1)
           && RunWritable(env, roots[1..], r.value.0, ApplyAll(mem, r.value.1))
  {
    hide Nested, GenFde, InSpace, CanPoke, ApplyAll, Given;
  }

  lemma NothingToWrite(env: Env, h: Heap, mem: Memory)
    requires Nested(env) && h.moved.Keys <= AllKeys()
    ensures RunWritable(env, [], h, mem)
  {
  }

  lemma OneMoreWritable(mem: Memory, ps: seq<Patch>, i: nat)
    requires i < |ps| && InSpace(ps[..i]) && CanPoke(mem, ps[..i])
    requires ps[i].addr + |ps[i].data| <= WORD && Writable(mem, ps[i].addr, |ps[i].data|)
    ensures InSpace(ps[..i + 1]) && CanPoke(mem, ps[..i + 1])
  {
    hide Writable;
  }

  lemma OnePatchFails(mem: Memory, ps: seq<Patch>, i: nat)
    requires i < |ps| && (ps[i].addr + |ps[i].data| > WORD || !Writable(mem, ps[i].addr, |ps[i].data|))
    ensures !InSpace(ps) || !CanPoke(mem, ps)
  {
    hide Writable;
    assert ps[i] in ps;
  }

  lemma NoWrites(mem: Memory)
    ensures InSpace([]) && ApplyAll(mem, []) == mem && CanPoke(mem, [])
  {
  }

  /** A pointer that cannot be read, or is null. */
  lemma NoPointer(env: Env, k: nat, rule: Rule, regs: Regs, h: Heap, a: word)
    requires Nested(env) && Descends(env, k, rule) && h.moved.Keys <= AllKeys() && rule.kind.RecurseFixupPointer?
    requires ResolveTarget(rule.lh, regs) == Some(a)
    ensures ReadPointer(env, rule.rh, regs) == None ==> GenRule(env, k, rule, regs, h) == None
    ensures ReadPointer(env, rule.rh, regs) == Some(0) ==> GenRule(env, k, rule, regs, h) == Some((h, [Patch(a, ToBytes(0, 8))]))
  {
    hide Nested, ReadPointer, ResolveTarget, ToBytes;
  }

  lemma RulesStart(env: Env, k: nat, rules: Rules, regs: Regs, h: Heap)
    requires Nested(env) && h.moved.Keys <= AllKeys() && FdeRules(env, k) == Some(rules)
    ensures forall e :: e in rules ==> Descends(env, k, e.value)
    ensures GenFde(env, k, regs, h) == GenRules(env, k, rules, regs, h) == After([], GenRules(env, k, rules, regs, h))
  {
    hide FdeRules, GenRules, After;
    FromScratch(GenRules(env, k, rules, regs, h));
  }

  lemma RulesNext(env: Env, k: nat, rs: Rules, regs: Regs, h: Heap, gathered: seq<Patch>)
    requires Nested(env) && h.moved.Keys <= AllKeys() && rs != [] && forall e :: e in rs ==> Descends(env, k, e.value)
    ensures var r := GenRule(env, k, rs[0].value, regs, h);
      && (r.None? ==> After(gathered, GenRules(env, k, rs, regs, h)) == None)
      && (r.Some? ==> After(gathered, GenRules(env, k, rs, regs, h))
                      == After(gathered + r.value.1, GenRules(env, k, rs[1..], regs, r.value.0)))
  {
    hide GenRule, Nested, Descends;
    assert forall ps: seq<Patch>, qs: seq<Patch> :: gathered + (ps + qs) == (gathered + ps) + qs;
  }

  lemma RulesEnd(env: Env, k: nat, regs: Regs, h: Heap, gathered: seq<Patch>)
    requires Nested(env) && h.moved.Keys <= AllKeys()
    ensures After(gathered, GenRules(env, k, [], regs, h)) == Some((h, gathered))
  {
    assert gathered + [] == gathered;
  }

  lemma FewerKeys(h: Heap, h': Heap)
    requires Grows(h, h')
    ensures AllKeys() - h'.moved.Keys <= AllKeys() - h.moved.Keys
  {
  }

  lemma FromScratch(r: Option<(Heap, seq<Patch>)>)
    ensures After([], r) == r
  {
    if r.Some? { assert [] + r.value.1 == r.value.1; }
  }

  lemma {:induction false} ApplySnoc(mem: Memory, ps: seq<Patch>, p: Patch)
    requires InSpace(ps) && p.addr + |p.data| <= WORD
    ensures InSpace(ps + [p]) && ApplyAll(mem, ps + [p]) == WriteBytes(ApplyAll(mem, ps), p.addr, p.data)
    decreases |ps|
  {
    var all := ps + [p];
    if ps == [] {
      assert all == [p] && [p][1..] == [];
    } else {
      assert ps[0] in ps && all[1..] == ps[1..] + [p];
      ApplySnoc(WriteBytes(mem, ps[0].addr, ps[0].data), ps[1..], p);
    }
  }
}
