/** When a whole patch succeeds, in terms of the types: if the old heap holds at every place that pointers lead
    to an object of the type that they say, patches are generated, and every object is moved as what it is. */
module WholeTyped {
  import opened Bytes
  import opened Registers
  import opened TableSpec
  import RuleVm
  import Cfa
  import opened Target
  import opened PatchVm
  import opened Migration
  import opened HeapImage
  import opened OwnTargets
  import opened PatchRun
  import opened Compiler
  import opened PatchWriter
  import opened EndToEnd
  import opened Whole
  import opened HeapTyping

  // ----- a sound old heap -----

  /** An object of the old heap: the transform of its type, and where it is. */
  datatype Site = Site(transform: nat, addr: word)

  predicate ReadAt(env: Env, a: word, n: nat) { a != 0 && n < HALF_WORD / 2 && ReadMemory(env.mem, a, n).Some? }

  /** The pointer at a is null or leads to an object of the target type, without const wrappers. */
  ghost predicate PointerSound(env: Env, arena: Arena, target: nat, a: word, sites: set<Site>)
  {
    && ReadAt(env, a, 8)
    && forall y: nat, p: word :: Leads(arena, target, y) && p != 0 && p == Unsigned(ReadMemory(env.mem, a, 8).value) ==>
         Site(y, p) in sites
  }

  /** All of the object can be read, and its pointers are sound. */
  ghost predicate Sound(env: Env, arena: Arena, rank: nat -> nat, u: nat, a: word, sites: set<Site>)
    decreases rank(u), 1
  {
    && u < |arena| && a != 0
    && var tr := arena[u];
       if tr.straight then ReadAt(env, a, tr.fromLength)
       else match tr.category
         case Pointer => PointerSound(env, arena, tr.target, a, sites)
         case Struct => forall f :: f in tr.fields ==> FieldSound(env, arena, rank, u, f, a, sites)
         case _ => true
  }

  ghost predicate FieldSound(env: Env, arena: Arena, rank: nat -> nat, u: nat, f: Field, a: word, sites: set<Site>)
    decreases rank(u), 0
  {
    var src := Displaced(a, f.oldOffset);
    match f.kind
    case DeleteKind => true
    case CopyKind => ReadAt(env, src, f.size)
    case RecurseKind =>
      if f.pointer then f.size == 8 && PointerSound(env, arena, f.target, src, sites)
      else forall y: nat :: Leads(arena, f.target, y) && rank(y) < rank(u) ==> Sound(env, arena, rank, y, src, sites)
  }

  /** Every object is sound, and if it lies in a symbol the patch has room for that. */
  ghost predicate HeapSound(env: Env, arena: Arena, rank: nat -> nat, sites: set<Site>)
  {
    forall x :: x in sites ==> SiteSound(env, arena, rank, x, sites)
  }

  ghost predicate SiteSound(env: Env, arena: Arena, rank: nat -> nat, x: Site, sites: set<Site>)
  {
    && x.transform < |arena| && !Wraps(arena, x.transform) && !env.locate(x.addr).Unknown?
    && (env.locate(x.addr).Moved? ==>
          0 < env.locate(x.addr).to && env.locate(x.addr).to + arena[x.transform].toLength < WORD)
    && Sound(env, arena, rank, x.transform, x.addr, sites)
  }

  /** The objects of types that have an FDE. */
  ghost function World(d: Disk, sites: set<Site>): set<Typed>
  {
    set x | x in sites && x.transform in d.fde :: Typed(d.fde[x.transform], x.addr)
  }

  // ----- one instruction -----

  lemma ReadResolved(env: Env, size: u32, offset: u32, regs: Regs)
    requires ReadAt(env, Displaced(regs.addrOld, offset), size)
    ensures ResolveBytes(env, CurrTargOld(size, offset), regs) == ReadMemory(env.mem, Displaced(regs.addrOld, offset), size)
    ensures ResolveBytes(env, CurrTargOld(size, offset), regs).Some?
  {
    hide ReadMemory, Displaced;
  }

  lemma NoOffset(a: word)
    ensures Displaced(a, 0) == a
  {
    SmallMod(a, WORD);
  }

  /** The pointer that is read leads to an object of the FDE that is named. */
  lemma PointerTyped(env: Env, arena: Arena, d: Disk, target: nat, offset: u32, regs: Regs, sites: set<Site>)
    requires Proper(arena, d) && Named(arena, d, target) && PointerSound(env, arena, target, Displaced(regs.addrOld, offset), sites)
    ensures var p := ReadPointer(env, CurrTargOld(8, offset), regs);
      p.Some? && (p.value == 0 || Typed(FdeIdx(d, target), p.value) in World(d, sites))
  {
    var a := Displaced(regs.addrOld, offset);
    ReadResolved(env, 8, offset, regs);
    NamedFrame(arena, d, target);
    var k := FdeIdx(d, target);
    FrameDie(arena, d, k);
    var bs := ReadMemory(env.mem, a, 8).value;
    UnsignedBelow8(bs);
    hide Displaced, ReadMemory, Leads, Proper, Named, Unsigned;
    var p: word := Unsigned(bs);
    if p != 0 {
      assert Site(Die(d, k), p) in sites;
      assert Typed(d.fde[Die(d, k)], p) in World(d, sites);
    }
  }

  lemma FrameDie(arena: Arena, d: Disk, k: nat)
    requires Proper(arena, d) && 0 < k <= |d.frames|
    ensures Die(d, k) in d.fde && d.fde[Die(d, k)] == k && Die(d, k) < |arena| && arena[Die(d, k)].toLength == d.frames[k - 1].length
  {
    assert OwnFrame(arena, d, k - 1);
  }

  /** Where there is room for the new object there is a place for every field. */
  lemma TargetRoom(env: Env, k: nat, rule: RuleVm.Rule, regs: Regs)
    requires Roomy(env, k, regs.addrNew) && rule.lh.CurrTargNew? && rule.lh.offset < HALF_WORD / 2
    requires rule.lh.offset + RuleLength(env, rule) <= MemSize(env, k)
    ensures ResolveTarget(rule.lh, regs) == Some(regs.addrNew + rule.lh.offset)
  {
    SmallMod(rule.lh.offset, HALF_WORD);
    SmallMod(regs.addrNew + rule.lh.offset, WORD);
  }

  // ----- the instructions of an FDE -----

  /** What is known of an object's memory for one instruction. */
  ghost predicate OpSound(env: Env, arena: Arena, rank: nat -> nat, d: Disk, op: Op, a: word, sites: set<Site>)
  {
    match op
    case CopyAll(_, from) => ReadAt(env, a, from)
    case CopyField(size, _, o) => ReadAt(env, Displaced(a, o), size)
    case FixPointer(target, fde) => Named(arena, d, target) && fde == FdeIdx(d, target) && PointerSound(env, arena, target, a, sites)
    case FixField(pointer, size, _, o, target, fde) =>
      && Named(arena, d, target) && fde == FdeIdx(d, target)
      && if pointer then size == 8 && PointerSound(env, arena, target, Displaced(a, o), sites)
         else 0 < fde <= |d.frames| && Sound(env, arena, rank, Die(d, fde), Displaced(a, o), sites)
  }

  lemma FieldOpSound(env: Env, arena: Arena, rank: nat -> nat, d: Disk, u: nat, f: Field, a: word, sites: set<Site>)
    requires Proper(arena, d) && !f.kind.DeleteKind? && FieldSound(env, arena, rank, u, f, a, sites)
    requires f.kind.RecurseKind? ==> Named(arena, d, f.target)
    requires Ranked(arena, rank, u, f)
    ensures OpSound(env, arena, rank, d, Whole.OpFor(f, d), a, sites)
  {
    if f.kind.RecurseKind? { NamedFrame(arena, d, f.target); }
    hide Proper, Leads, Named, Displaced, PointerSound, ReadAt;
  }

  lemma OpsSound(env: Env, arena: Arena, rank: nat -> nat, d: Disk, k: nat, a: word, sites: set<Site>)
    requires ValidArena(arena, rank) && Proper(arena, d) && Correct(arena, d) && 0 < k <= |d.frames|
    requires Sound(env, arena, rank, Die(d, k), a, sites)
    ensures forall op :: op in d.frames[k - 1].ops ==> OpSound(env, arena, rank, d, op, a, sites)
  {
    assert FrameRight(arena, d, k - 1);
    var u := Die(d, k);
    assert ValidTransform(arena, rank, u);
    var tr := arena[u];
    hide ValidArena, Proper, Correct, Named, PointerSound, ReadAt, FieldSound, Ranked, Whole.OpFor;
    if !tr.straight && tr.category.Struct? {
      KeptOps(tr.fields, d);
      forall op | op in FieldOps(tr.fields, d) ensures OpSound(env, arena, rank, d, op, a, sites) {
        var i :| 0 <= i < |FieldOps(tr.fields, d)| && FieldOps(tr.fields, d)[i] == op;
        var f := Kept(tr.fields)[i];
        assert f in Kept(tr.fields) && f in tr.fields;
        FieldOpSound(env, arena, rank, d, u, f, a, sites);
      }
    }
  }

  /** The rule of an instruction that does not go into a struct. */
  lemma PlainRuleTyped(env: Env, arena: Arena, rank: nat -> nat, d: Disk, k: nat, op: Op, regs: Regs, sites: set<Site>)
    requires Nested(env) && Proper(arena, d) && |d.frames| < HALF_WORD && SmallIndex(d, op) && Descends(env, k, OpRule(op))
    requires OpSound(env, arena, rank, d, op, regs.addrOld, sites) && !(op.FixField? && !op.pointer)
    requires ResolveTarget(OpRule(op).lh, regs).Some?
    ensures RuleTyped(env, k, OpRule(op), regs, World(d, sites))
  {
    RuleShape(op);
    NoOffset(regs.addrOld);
    hide OpRule, Nested, Proper, Named, World, ResolveTarget;
    match op {
      case CopyAll(_, from) => ReadResolved(env, from, 0, regs);
      case CopyField(size, _, o) => ReadResolved(env, size, o, regs);
      case FixPointer(target, fde) =>
        SmallMod(fde, HALF_WORD);
        PointerTyped(env, arena, d, target, 0, regs, sites);
      case FixField(_, _, _, o, target, fde) =>
        SmallMod(fde, HALF_WORD);
        PointerTyped(env, arena, d, target, o, regs, sites);
    }
  }

  lemma ResolvedOld(env: Env, size: u32, offset: u32, regs: Regs)
    requires Displaced(regs.addrOld, offset) != 0
    ensures ResolveAddress(env, CurrTargOld(size, offset), regs) == Some(Displaced(regs.addrOld, offset))
  {
  }

  /** A sound object is typed wherever there is room for the new one. */
  lemma SoundTyped(env: Env, arena: Arena, rank: nat -> nat, d: Disk, padding: nat -> nat, k: nat, regs: Regs, sites: set<Site>)
    requires ValidArena(arena, rank) && Proper(arena, d) && Correct(arena, d) && Depths(env, d, rank)
    requires Loaded(env, d, padding) && ValidPatch(env, d) && Nested(env)
    requires 0 < k <= |d.frames| && Sound(env, arena, rank, Die(d, k), regs.addrOld, sites) && Roomy(env, k, regs.addrNew)
    ensures ObjectTyped(env, k, regs, World(d, sites))
    decreases DepthOf(env, k), 1
  {
    hide *;
    OpsSound(env, arena, rank, d, k, regs.addrOld, sites);
    LoadedCount(env, d, padding);
    var ops := d.frames[k - 1].ops;
    FrameValid(env, d, padding, k);
    var j: nat := k - 1;
    FrameRules(env, d, padding, j);
    assert j + 1 == k;
    var rules := FdeRules(env, k).value;
    forall e | e in rules
      ensures Descends(env, k, e.value) && RuleTyped(env, k, e.value, regs, World(d, sites))
    {
      var op := EntrySound(env, d, padding, k, ops, rules, e, MemSize(env, k));
      OpTyped(env, arena, rank, d, padding, k, op, regs, sites);
    }
    ObjectTypedFrom(env, k, regs, World(d, sites), rules);
  }

  lemma LoadedCount(env: Env, d: Disk, padding: nat -> nat)
    requires Loaded(env, d, padding)
    ensures |env.fdes| == |d.frames|
  {
    hide Cfa.ParseProgram, OpsBytes;
  }

  lemma ObjectTypedFrom(env: Env, k: nat, regs: Regs, w: set<Typed>, rules: RuleVm.Rules)
    requires Nested(env) && FdeRules(env, k) == Some(rules)
    requires forall e :: e in rules ==> Descends(env, k, e.value) && RuleTyped(env, k, e.value, regs, w)
    ensures ObjectTyped(env, k, regs, w)
  {
    hide RuleTyped, FdeRules;
  }

  lemma OpTyped(env: Env, arena: Arena, rank: nat -> nat, d: Disk, padding: nat -> nat, k: nat, op: Op, regs: Regs, sites: set<Site>)
    requires ValidArena(arena, rank) && Proper(arena, d) && Correct(arena, d) && Depths(env, d, rank)
    requires Loaded(env, d, padding) && ValidPatch(env, d) && Nested(env)
    requires 0 < k <= |d.frames| && op in d.frames[k - 1].ops && Descends(env, k, OpRule(op))
    requires OpSound(env, arena, rank, d, op, regs.addrOld, sites) && Roomy(env, k, regs.addrNew)
    ensures RuleTyped(env, k, OpRule(op), regs, World(d, sites))
    decreases DepthOf(env, k), 0
  {
    hide *;
    LoadedCount(env, d, padding);
    FrameValid(env, d, padding, k);
    EndToEnd.OpFits(env, d, k, d.frames[k - 1].ops, MemSize(env, k), op);
    RuleOfOp(env, d, padding, op);
    TargetRoom(env, k, OpRule(op), regs);
    if op.FixField? && !op.pointer {
      InnerSound(env, arena, rank, d, op, regs.addrOld, sites);
      InnerRoom(env, d, padding, k, op, regs.addrNew);
      ShallowerInside(env, k, op);
      var o, n := Displaced(regs.addrOld, op.oldOffset), regs.addrNew + op.newOffset;
      SoundTyped(env, arena, rank, d, padding, op.fde, Regs(o, n), sites);
      InnerTyped(env, k, op, regs, World(d, sites), o, n);
    } else {
      PlainRuleTyped(env, arena, rank, d, k, op, regs, sites);
    }
  }

  lemma InnerSound(env: Env, arena: Arena, rank: nat -> nat, d: Disk, op: Op, a: word, sites: set<Site>)
    requires op.FixField? && !op.pointer && OpSound(env, arena, rank, d, op, a, sites)
    ensures 0 < op.fde <= |d.frames| && Displaced(a, op.oldOffset) != 0
    ensures Sound(env, arena, rank, Die(d, op.fde), Displaced(a, op.oldOffset), sites)
  {
    hide Named, Displaced, FieldSound, PointerSound, ReadAt;
  }

  /** There is room for the struct inside where there is for the struct. */
  lemma InnerRoom(env: Env, d: Disk, padding: nat -> nat, k: nat, op: Op, n: word)
    requires Loaded(env, d, padding) && op.FixField? && !op.pointer && Roomy(env, k, n)
    requires OpStart(op) + OpSpan(d, op) <= MemSize(env, k)
    ensures n + op.newOffset < WORD && Roomy(env, op.fde, n + op.newOffset) && OpStart(op) == op.newOffset
  {
    SameSize(env, d, padding, op.fde);
    hide Loaded, MemSize, LengthOf;
  }

  lemma ShallowerInside(env: Env, k: nat, op: Op)
    requires Shallower(env, k, op) && op.FixField? && !op.pointer
    ensures DepthOf(env, op.fde) < DepthOf(env, k)
  {
  }

  lemma InnerTyped(env: Env, k: nat, op: Op, regs: Regs, w: set<Typed>, o: word, n: word)
    requires Nested(env) && op.FixField? && !op.pointer && op.fde < HALF_WORD && Descends(env, k, OpRule(op))
    requires o == Displaced(regs.addrOld, op.oldOffset) && o != 0 && ResolveTarget(OpRule(op).lh, regs) == Some(n)
    requires ObjectTyped(env, op.fde, Regs(o, n), w)
    ensures RuleTyped(env, k, OpRule(op), regs, w)
  {
    RuleShape(op);
    SmallMod(op.fde, HALF_WORD);
    ResolvedOld(env, op.size, op.oldOffset, regs);
    hide OpRule, Nested, ObjectTyped, ResolveTarget, Displaced;
  }

  // ----- the old heap as a typing -----

  lemma FrameOfSite(arena: Arena, d: Disk, t: nat)
    requires Proper(arena, d) && t in d.fde && !Wraps(arena, t)
    ensures 0 < d.fde[t] <= |d.frames| && Die(d, d.fde[t]) == t && t < |arena| && d.frames[d.fde[t] - 1].length == arena[t].toLength
  {
    assert t in d.onDisk;
    assert OwnFrame(arena, d, d.fde[t] - 1);
  }

  lemma WorldClosed(env: Env, arena: Arena, rank: nat -> nat, d: Disk, padding: nat -> nat, sites: set<Site>)
    requires ValidArena(arena, rank) && Proper(arena, d) && Correct(arena, d) && Depths(env, d, rank)
    requires Loaded(env, d, padding) && ValidPatch(env, d) && Nested(env) && HeapSound(env, arena, rank, sites)
    ensures ClosedWorld(env, World(d, sites))
  {
    var w := World(d, sites);
    hide ValidArena, Proper, Correct, Depths, Loaded, ValidPatch, Nested, Sound, ObjectTyped;
    forall x | x in w ensures Member(env, x, w) {
      var y :| y in sites && y.transform in d.fde && x == Typed(d.fde[y.transform], y.addr);
      assert SiteSound(env, arena, rank, y, sites);
      FrameOfSite(arena, d, y.transform);
      LoadedCount(env, d, padding);
      SameSize(env, d, padding, x.fde);
      forall n: word | Roomy(env, x.fde, n) ensures ObjectTyped(env, x.fde, Regs(x.addr, n), w) {
        SoundTyped(env, arena, rank, d, padding, x.fde, Regs(x.addr, n), sites);
      }
    }
  }

  /** A variable is a sound object of its type, and there is room for the new one. */
  ghost predicate VariableSound(env: Env, arena: Arena, v: Variable, sites: set<Site>)
  {
    forall y: nat :: Leads(arena, v.transform, y) && y < |arena| ==>
      && Site(y, v.regs.addrOld) in sites && 0 < v.regs.addrNew && v.regs.addrNew + arena[y].toLength < WORD
  }

  /** What has been moved was moved as what it is. */
  ghost predicate MovesTyped(d: Disk, moves: Moves, sites: set<Site>)
  {
    forall key :: key in moves ==>
      0 < moves[key].fde <= |d.frames| && Site(Die(d, moves[key].fde), moves[key].old_) in sites
  }

  lemma RootTyped(env: Env, arena: Arena, rank: nat -> nat, d: Disk, padding: nat -> nat, v: Variable, sites: set<Site>)
    requires ValidArena(arena, rank) && Proper(arena, d) && Correct(arena, d) && Depths(env, d, rank)
    requires Loaded(env, d, padding) && ValidPatch(env, d) && Nested(env) && HeapSound(env, arena, rank, sites)
    requires v.transform in d.fde && VariableSound(env, arena, v, sites)
    ensures ObjectTyped(env, Root(d, v).fde, v.regs, World(d, sites))
  {
    hide ValidArena, Correct, Depths, Loaded, ValidPatch, Nested, Sound, ObjectTyped, Proper, Leads;
    TypeNamed(arena, d, v.transform);
    var k := FdeIdx(d, v.transform);
    FrameDie(arena, d, k);
    assert SiteSound(env, arena, rank, Site(Die(d, k), v.regs.addrOld), sites);
    SameSize(env, d, padding, k);
    SoundTyped(env, arena, rank, d, padding, k, v.regs, sites);
  }

  lemma NewMovesTyped(arena: Arena, d: Disk, h: Heap, h': Heap, sites: set<Site>)
    requires Proper(arena, d) && Grows(h, h') && NewTyped(h, h', World(d, sites)) && MovesTyped(d, h.moved, sites)
    requires forall x :: x in sites ==> !Wraps(arena, x.transform)
    ensures MovesTyped(d, h'.moved, sites)
  {
    hide Proper;
    forall key | key in h'.moved
      ensures 0 < h'.moved[key].fde <= |d.frames| && Site(Die(d, h'.moved[key].fde), h'.moved[key].old_) in sites
    {
      if key !in h.moved {
        assert IsNew(h, h', key);
        var m := h'.moved[key];
        var x :| x in sites && x.transform in d.fde && Typed(m.fde, m.old_) == Typed(d.fde[x.transform], x.addr);
        FrameOfSite(arena, d, x.transform);
      }
    }
  }

  lemma SitesUnwrapped(env: Env, arena: Arena, rank: nat -> nat, sites: set<Site>)
    requires HeapSound(env, arena, rank, sites)
    ensures forall x :: x in sites ==> !Wraps(arena, x.transform)
  {
    hide Sound;
    assert forall x :: x in sites ==> SiteSound(env, arena, rank, x, sites);
  }

  /** Main result on success: if the variables and all that can be reached from them are sound, patches are
      generated for all of them, and everything is moved as an object of its own type. */
  lemma PatchSucceeds(env: Env, arena: Arena, rank: nat -> nat, ts: seq<nat>, d: Disk, padding: nat -> nat,
                      vars: seq<Variable>, h: Heap, sites: set<Site>)
    requires ValidArena(arena, rank) && NoWrapperCycle(arena) && WriteAll(arena, ts, FRESH) == Some(d)
    requires Loaded(env, d, padding) && Depths(env, d, rank) && h.moved.Keys <= AllKeys()
    requires MallocWorks(env) && HeapSound(env, arena, rank, sites) && MovesTyped(d, h.moved, sites)
    requires forall v :: v in vars ==> v.transform in ts && VariableSound(env, arena, v, sites)
    ensures Nested(env)
    ensures var r := GenAll(env, Roots(d, vars), h);
      r.Some? && MovesTyped(d, r.value.0.moved, sites)
  {
    hide *;
    ValidFromTypes(env, arena, rank, ts, d);
    PatchIsSound(env, d, padding);
    WorldClosed(env, arena, rank, d, padding, sites);
    var roots, w := Roots(d, vars), World(d, sites);
    RootsAllTyped(env, arena, rank, d, padding, vars, sites);
    AllSucceed(env, roots, h, w);
    SitesUnwrapped(env, arena, rank, sites);
    NewMovesTyped(arena, d, h, GenAll(env, roots, h).value.0, sites);
  }

  lemma RootsAllTyped(env: Env, arena: Arena, rank: nat -> nat, d: Disk, padding: nat -> nat, vars: seq<Variable>, sites: set<Site>)
    requires ValidArena(arena, rank) && Proper(arena, d) && Correct(arena, d) && Depths(env, d, rank)
    requires Loaded(env, d, padding) && ValidPatch(env, d) && Nested(env) && HeapSound(env, arena, rank, sites)
    requires forall v :: v in vars ==> v.transform in d.fde && VariableSound(env, arena, v, sites)
    ensures RootsTyped(env, Roots(d, vars), World(d, sites))
  {
    hide ValidArena, Proper, Correct, Depths, Loaded, ValidPatch, Nested, HeapSound, VariableSound, ObjectTyped, World;
    forall x | x in Roots(d, vars) ensures ObjectTyped(env, x.fde, x.regs, World(d, sites)) {
      var i :| 0 <= i < |vars| && x == Root(d, vars[i]);
      assert vars[i] in vars;
      RootTyped(env, arena, rank, d, padding, vars[i], sites);
    }
  }

  // ----- the whole patch -----

  /** Where symbols go: the variables, and the objects of the old heap that lie in symbols. */
  ghost function Symbols(env: Env, d: Disk, vars: seq<Variable>, sites: set<Site>): set<Object>
  {
    (set v | v in vars :: Root(d, v))
    + set x | x in sites && x.transform in d.fde && env.locate(x.addr).Moved? ::
        Object(d.fde[x.transform], Regs(x.addr, env.locate(x.addr).to))
  }

  /** Every symbol of a run is one of these. */
  lemma SymbolsOfRun(env: Env, arena: Arena, d: Disk, image: Block, vars: seq<Variable>, h: Heap, sites: set<Site>)
    requires Proper(arena, d) && HeapOk(env, image, h) && MovesTyped(d, h.moved, sites)
    ensures AllSymbols(Roots(d, vars), h) <= Symbols(env, d, vars, sites)
  {
    OkLed(env, image, h);
    hide HeapOk, Proper;
    forall x | x in AllSymbols(Roots(d, vars), h) ensures x in Symbols(env, d, vars, sites) {
      if x in Roots(d, vars) {
        var i :| 0 <= i < |vars| && x == Root(d, vars[i]);
        assert vars[i] in vars;
      } else {
        var key :| key in h.moved && h.moved[key].block.None? && x == ObjectOf(h.moved[key]);
        var m := h.moved[key];
        assert Led(env, m);
        FrameDie(arena, d, m.fde);
        assert Site(Die(d, m.fde), m.old_) in sites;
      }
    }
  }

  /** No address has objects of two types. */
  predicate OneType(sites: set<Site>) { forall x, y :: x in sites && y in sites && x.addr == y.addr ==> x == y }

  /** Main result on a whole patch, with nothing assumed of the run: if the old heap is sound, its symbols have
      their places in the image, and malloc works, then compiling, loading and migrating all variables one after
      the other succeeds; every object becomes the transform of its old self; and under the condition on the old
      heap every pointer leads to the new place of its own target, which was moved as an object of its own type. */
  lemma PatchWorks(env: Env, arena: Arena, rank: nat -> nat, ts: seq<nat>, d: Disk, padding: nat -> nat,
                   image: Block, vars: seq<Variable>, h: Heap, mem: Memory, sites: set<Site>)
    requires ValidArena(arena, rank) && NoWrapperCycle(arena) && WriteAll(arena, ts, FRESH) == Some(d)
    requires Loaded(env, d, padding) && Depths(env, d, rank) && RunSetting(env, image, h) && h.moved.Keys <= AllKeys()
    requires MallocWorks(env) && HeapSound(env, arena, rank, sites) && MovesTyped(d, h.moved, sites)
    requires vars != [] && Has(mem, env.mem) && SymbolsPlaced(env, image, Symbols(env, d, vars, sites))
    requires forall v :: v in vars ==> v.transform in ts && VariableSound(env, arena, v, sites)
    ensures Nested(env)
    ensures var roots := Roots(d, vars);
      var run := RunAll(env, roots, h, mem);
      && run.Some? && Has(run.value.1, env.mem)
      && var (moves, objects) := (run.value.0.moved, AllObjects(roots, h, run.value.0));
      && (forall v :: v in vars ==> VariableNamed(arena, d, v) && Root(d, v) in objects)
      && MovesTyped(d, moves, sites)
      && AllBecome(env, arena, rank, d, objects, moves, run.value.1, AllWords())
      && (RunCondition(env, roots, h) ==>
            && AllBecome(env, arena, rank, d, objects, moves, run.value.1, Own(env, moves)) && SharingKept(env, moves)
            && (OneType(sites) ==> OwnTypes(env, d, moves, sites)))
      && forall a: word :: ImageAt(env, objects, moves, mem, run.value.1, a)
  {
    hide *;
    PatchSucceeds(env, arena, rank, ts, d, padding, vars, h, sites);
    ValidFromTypes(env, arena, rank, ts, d);
    PatchIsSound(env, d, padding);
    SettingParts(env, image, h);
    var roots := Roots(d, vars);
    var h' := GenAll(env, roots, h).value.0;
    RunKeepsOk(env, image, roots, h);
    SymbolsOfRun(env, arena, d, image, vars, h', sites);
    FewerPlaced(env, image, AllSymbols(roots, h'), Symbols(env, d, vars, sites));
    PatchMigrated(env, arena, rank, ts, d, padding, image, vars, h, mem);
    TypesOwn(env, d, h'.moved, sites);
  }

  /** An address with a record of its own was moved as an object of its own type. */
  ghost predicate OwnTypes(env: Env, d: Disk, moves: Moves, sites: set<Site>)
  {
    forall x :: x in sites && x.addr in Own(env, moves) ==>
      0 < moves[KeyOf(env, x.addr)].fde <= |d.frames| && Die(d, moves[KeyOf(env, x.addr)].fde) == x.transform
  }

  lemma TypesOwn(env: Env, d: Disk, moves: Moves, sites: set<Site>)
    requires MovesTyped(d, moves, sites)
    ensures OneType(sites) ==> OwnTypes(env, d, moves, sites)
  {
    hide KeyOf;
  }
}
