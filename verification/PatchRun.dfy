/** A whole patch: patchDataWithFDE (dwarfvm.c) for one variable after the other, while dataMoved is
    kept and memory changes from batch to batch.

    The memory of an environment stands for the old program's: env.mem holds the bytes that patch
    generation reads.  The memory that the batches are applied to has these bytes and others. */
module PatchRun {
  import opened Bytes
  import opened Registers
  import opened TableSpec
  import opened RuleVm
  import opened Target
  import opened PatchVm
  import opened Migration
  import opened HeapImage
  import opened OwnTargets

  // ----- the run -----

  /** The environment when memory has changed. */
  function Given(env: Env, mem: Memory): Env { env.(mem := mem) }

  lemma NestedAt(env: Env, mem: Memory)
    ensures Nested(Given(env, mem)) <==> Nested(env)
    ensures forall k: nat :: FdeRules(Given(env, mem), k) == FdeRules(env, k) && DepthOf(Given(env, mem), k) == DepthOf(env, k)
  {
    forall k: nat ensures FdeRules(Given(env, mem), k) == FdeRules(env, k) && DepthOf(Given(env, mem), k) == DepthOf(env, k) {
      SameRulesAt(env, mem, k);
    }
    hide FdeRules;
    assert forall k: nat, rule: Rule :: Descends(Given(env, mem), k, rule) <==> Descends(env, k, rule);
  }

  lemma SameRulesAt(env: Env, mem: Memory, k: nat)
    ensures FdeRules(Given(env, mem), k) == FdeRules(env, k) && DepthOf(Given(env, mem), k) == DepthOf(env, k)
  {
    hide Run;
  }

  /** The run as it happens: each batch is generated from the memory that the ones before have left. */
  function RunAll(env: Env, roots: seq<Object>, h: Heap, mem: Memory): Option<(Heap, Memory)>
    requires Nested(env) && h.moved.Keys <= AllKeys()
    decreases |roots|
  {
    if roots == [] then Some((h, mem))
    else
      NestedAt(env, mem);
      var (h1, ps) :- GenFde(Given(env, mem), roots[0].fde, roots[0].regs, h);
      if !InSpace(ps) then None else RunAll(env, roots[1..], h1, ApplyAll(mem, ps))
  }

  /** The patches of all variables, generated from the old memory. */
  function GenAll(env: Env, roots: seq<Object>, h: Heap): (r: Option<(Heap, seq<Patch>)>)
    requires Nested(env) && h.moved.Keys <= AllKeys()
    ensures r.Some? ==> Grows(h, r.value.0) && r.value.0.moved.Keys <= AllKeys()
    decreases |roots|
  {
    if roots == [] then Some((h, []))
    else
      var (h1, ps) :- GenFde(env, roots[0].fde, roots[0].regs, h);
      var (h2, qs) :- GenAll(env, roots[1..], h1);
      Some((h2, ps + qs))
  }

  // ----- more memory changes nothing -----

  ghost predicate Has(mem: Memory, old_: Memory) { forall a :: a in old_ ==> a in mem && mem[a] == old_[a] }

  lemma MappedMore(old_: Memory, mem: Memory, a: int, n: nat)
    requires Has(mem, old_) && Mapped(old_, a, n)
    ensures Mapped(mem, a, n) && Slice(mem, a, n) == Slice(old_, a, n)
  {
  }

  lemma ReadMore(old_: Memory, mem: Memory, a: word, n: nat)
    requires Has(mem, old_) && ReadMemory(old_, a, n).Some?
    ensures ReadMemory(mem, a, n) == ReadMemory(old_, a, n)
  {
    if n > 0 {
      MappedMore(old_, mem, a, (n + 3) / 4 * 4 + 4);
      MappedLess(old_, a, n);
      MappedMore(old_, mem, a, n);
    }
  }

  lemma MappedLess(old_: Memory, a: word, n: nat)
    requires Mapped(old_, a, (n + 3) / 4 * 4 + 4)
    ensures Mapped(old_, a, n)
  {
  }

  lemma DereferenceMore(env: Env, mem: Memory, a: Option<word>, size: u32)
    requires Has(mem, env.mem) && DereferenceAt(env, a, size).Some?
    ensures DereferenceAt(Given(env, mem), a, size) == DereferenceAt(env, a, size)
  {
    hide ReadMemory;
    ReadMore(env.mem, mem, a.value, size);
  }

  lemma BytesMore(env: Env, mem: Memory, reg: Reg, regs: Regs)
    requires Has(mem, env.mem)
    ensures ResolveAddress(Given(env, mem), reg, regs) == ResolveAddress(env, reg, regs)
    ensures ResolveBytes(env, reg, regs).Some? ==> ResolveBytes(Given(env, mem), reg, regs) == ResolveBytes(env, reg, regs)
    ensures ReadPointer(env, reg, regs).Some? ==> ReadPointer(Given(env, mem), reg, regs) == ReadPointer(env, reg, regs)
  {
    hide DereferenceAt, Displaced, Unsigned, ToBytes;
    match reg {
      case CurrTargNew(size, _) =>
        if DereferenceAt(env, ResolveAddress(env, reg, regs), size).Some? { DereferenceMore(env, mem, ResolveAddress(env, reg, regs), size); }
      case CurrTargOld(size, _) =>
        if DereferenceAt(env, ResolveAddress(env, reg, regs), size).Some? { DereferenceMore(env, mem, ResolveAddress(env, reg, regs), size); }
      case _ =>
    }
  }

  lemma RuleMore(env: Env, mem: Memory, k: nat, rule: Rule, regs: Regs, h: Heap)
    requires Nested(env) && Nested(Given(env, mem)) && Has(mem, env.mem) && Descends(env, k, rule) && Descends(Given(env, mem), k, rule)
    requires h.moved.Keys <= AllKeys() && GenRule(env, k, rule, regs, h).Some?
    ensures GenRule(Given(env, mem), k, rule, regs, h) == GenRule(env, k, rule, regs, h)
    decreases AllKeys() - h.moved.Keys, DepthOf(env, k), 0, 0
  {
    BytesMore(env, mem, rule.rh, regs);
    hide DereferenceAt, ResolveAddress, ResolveBytes, ReadPointer, ResolveTarget, ToBytes;
    match rule.kind {
      case OffsetRule => DereferenceMore(env, mem, Some(rule.offset % WORD), if rule.lh.size != 0 then rule.lh.size else 8);
      case RecurseFixup =>
        FdeMore(env, mem, rule.index, Regs(ResolveAddress(env, rule.rh, regs).value, ResolveTarget(rule.lh, regs).value), h);
      case RecurseFixupPointer =>
        var p := ReadPointer(env, rule.rh, regs).value;
        if p != 0 && KeyOf(env, p) !in h.moved {
          assert KeyOf(env, p) in AllKeys() - h.moved.Keys;
          var (to, h1) := Place(env, p, rule.index, h).value;
          assert Place(Given(env, mem), p, rule.index, h) == Place(env, p, rule.index, h);
          FdeMore(env, mem, rule.index, Regs(p, to), h1);
        }
      case _ =>
    }
  }

  lemma RulesMore(env: Env, mem: Memory, k: nat, rs: Rules, regs: Regs, h: Heap)
    requires Nested(env) && Nested(Given(env, mem)) && Has(mem, env.mem)
    requires forall e :: e in rs ==> Descends(env, k, e.value) && Descends(Given(env, mem), k, e.value)
    requires h.moved.Keys <= AllKeys() && GenRules(env, k, rs, regs, h).Some?
    ensures GenRules(Given(env, mem), k, rs, regs, h) == GenRules(env, k, rs, regs, h)
    decreases AllKeys() - h.moved.Keys, DepthOf(env, k), 1, |rs|
  {
    hide GenRule, Given, Has;
    if rs != [] {
      RuleMore(env, mem, k, rs[0].value, regs, h);
      RulesMore(env, mem, k, rs[1..], regs, GenRule(env, k, rs[0].value, regs, h).value.0);
    }
  }

  lemma FdeMore(env: Env, mem: Memory, k: nat, regs: Regs, h: Heap)
    requires Nested(env) && Nested(Given(env, mem)) && Has(mem, env.mem) && h.moved.Keys <= AllKeys() && GenFde(env, k, regs, h).Some?
    ensures GenFde(Given(env, mem), k, regs, h) == GenFde(env, k, regs, h)
    decreases AllKeys() - h.moved.Keys, DepthOf(env, k), 2, 0
  {
    hide GenRules, Given, Has;
    NestedAt(env, mem);
    var rules := FdeRules(env, k).value;
    hide FdeRules;
    RulesMore(env, mem, k, rules, regs, h);
  }

  // ----- the patches of all variables -----

  ghost function NewObjects(h: Heap, h': Heap): set<Object>
  {
    set key | key in h'.moved && key !in h.moved :: ObjectOf(h'.moved[key])
  }

  /** The variables and everything moved on their behalf. */
  ghost function AllObjects(roots: seq<Object>, h: Heap, h': Heap): set<Object>
  {
    (set x | x in roots) + NewObjects(h, h')
  }

  ghost predicate Prescribed(env: Env, objects: set<Object>, moves: Moves, a: word, b: byte)
    requires Nested(env)
  {
    exists x :: x in objects && ObjectByte(env, x, moves, a) == Some(b)
  }

  /** Every byte of the patches is prescribed by one of the objects. */
  ghost predicate AllSound(env: Env, objects: set<Object>, ps: seq<Patch>, moves: Moves)
    requires Nested(env)
  {
    InSpace(ps) && forall p, i: nat :: p in ps && i < |p.data| ==> Prescribed(env, objects, moves, p.addr + i, p.data[i])
  }

  ghost predicate ObjectCovered(env: Env, x: Object, ps: seq<Patch>, moves: Moves)
    requires Nested(env)
  {
    forall a: word :: ObjectByte(env, x, moves, a).Some? ==> Covers(ps, a)
  }

  /** Every byte that one of the objects prescribes is in some patch. */
  ghost predicate AllComplete(env: Env, objects: set<Object>, ps: seq<Patch>, moves: Moves)
    requires Nested(env)
  {
    forall x :: x in objects ==> ObjectCovered(env, x, ps, moves)
  }

  /** One variable. */
  lemma OneVariable(env: Env, root: Object, h: Heap, moves: Moves)
    requires Nested(env) && WellLaid(env) && h.moved.Keys <= AllKeys() && Fits(env, root.fde, root.regs.addrNew)
    requires Final(env, GenFde(env, root.fde, root.regs, h), moves)
    ensures var (h', ps) := GenFde(env, root.fde, root.regs, h).value;
      AllSound(env, Objects(root, h, h'), ps, moves) && AllComplete(env, Objects(root, h, h'), ps, moves)
  {
    hide GenFde, Expect, Fits, Nested, WellLaid;
    var (h', ps) := GenFde(env, root.fde, root.regs, h).value;
    GenFdeExact(env, root.fde, root.regs, h, moves);
    SoundObjects(env, root, h, h', ps, moves);
    CompleteObjects(env, root, h, h', ps, moves);
  }

  lemma SoundObjects(env: Env, root: Object, h: Heap, h': Heap, ps: seq<Patch>, moves: Moves)
    requires Nested(env) && Sound(env, ObjectExpect(env, root.fde, root.regs, moves), h, h', ps, moves)
    ensures AllSound(env, Objects(root, h, h'), ps, moves)
  {
    hide Expect, Nested;
    forall p, i: nat | p in ps && i < |p.data| ensures Prescribed(env, Objects(root, h, h'), moves, p.addr + i, p.data[i]) {
      var a: word := p.addr + i;
      if ObjectExpect(env, root.fde, root.regs, moves)(a) == Some(p.data[i]) {
        assert ObjectByte(env, root, moves, a) == Some(p.data[i]);
      } else {
        assert FromNew(env, h, h', moves, a, p.data[i]);
        var key :| IsNew(h, h', key) && Expect(env, h'.moved[key].fde, RegsOf(h'.moved[key]), moves, a) == Some(p.data[i]);
        assert ObjectByte(env, ObjectOf(h'.moved[key]), moves, a) == Some(p.data[i]);
      }
    }
  }

  lemma CompleteObjects(env: Env, root: Object, h: Heap, h': Heap, ps: seq<Patch>, moves: Moves)
    requires Nested(env) && Complete(env, ObjectExpect(env, root.fde, root.regs, moves), h, h', ps, moves)
    ensures AllComplete(env, Objects(root, h, h'), ps, moves)
  {
    hide Expect, Nested, Covers;
    forall x | x in Objects(root, h, h') ensures ObjectCovered(env, x, ps, moves) {
      if x == root {
        forall a: word | ObjectByte(env, x, moves, a).Some? ensures Covers(ps, a) {
          assert ObjectExpect(env, root.fde, root.regs, moves)(a).Some?;
        }
      } else {
        var key :| key in h'.moved && key !in h.moved && ObjectOf(h'.moved[key]) == x;
        assert IsNew(h, h', key);
      }
    }
  }

  lemma SoundMore(env: Env, objects: set<Object>, more: set<Object>, ps: seq<Patch>, moves: Moves)
    requires Nested(env) && AllSound(env, objects, ps, moves) && objects <= more
    ensures AllSound(env, more, ps, moves)
  {
    hide ObjectByte, Nested;
    forall p, i: nat | p in ps && i < |p.data| ensures Prescribed(env, more, moves, p.addr + i, p.data[i]) {
      assert Prescribed(env, objects, moves, p.addr + i, p.data[i]);
    }
  }

  lemma JoinVariables(env: Env, xs: set<Object>, ys: set<Object>, all: set<Object>, ps: seq<Patch>, qs: seq<Patch>, moves: Moves)
    requires Nested(env) && AllSound(env, xs, ps, moves) && AllComplete(env, xs, ps, moves)
    requires AllSound(env, ys, qs, moves) && AllComplete(env, ys, qs, moves) && all == xs + ys
    ensures AllSound(env, all, ps + qs, moves) && AllComplete(env, all, ps + qs, moves)
  {
    hide ObjectByte, Nested, Prescribed, Covers;
    SoundMore(env, xs, all, ps, moves);
    SoundMore(env, ys, all, qs, moves);
    CoversAppend(ps, qs);
    assert forall p :: p in ps + qs <==> p in ps || p in qs;
  }

  lemma NoVariables(env: Env, h: Heap, moves: Moves)
    requires Nested(env)
    ensures AllObjects([], h, h) == {}
    ensures AllSound(env, {}, [], moves) && AllComplete(env, {}, [], moves)
  {
  }

  lemma ObjectsJoin(root: Object, others: seq<Object>, h: Heap, h1: Heap, h2: Heap)
    requires Grows(h, h1) && Grows(h1, h2)
    ensures AllObjects([root] + others, h, h2) == Objects(root, h, h1) + AllObjects(others, h1, h2)
  {
    var (all, xs, ys) := (AllObjects([root] + others, h, h2), Objects(root, h, h1), AllObjects(others, h1, h2));
    hide ObjectOf;
    forall x | x in all ensures x in xs + ys {
      if x in NewObjects(h, h2) {
        var key :| key in h2.moved && key !in h.moved && ObjectOf(h2.moved[key]) == x;
        if key in h1.moved { assert h1.moved[key] == h2.moved[key]; }
      }
    }
    forall x | x in xs + ys ensures x in all {
      if x in xs && x != root {
        var key :| key in h1.moved && key !in h.moved && ObjectOf(h1.moved[key]) == x;
        assert key in h2.moved && h2.moved[key] == h1.moved[key];
        assert x in NewObjects(h, h2);
      } else if x in NewObjects(h1, h2) {
        var key :| key in h2.moved && key !in h1.moved && ObjectOf(h2.moved[key]) == x;
        assert key !in h.moved;
        assert x in NewObjects(h, h2);
      }
    }
  }

  ghost predicate RootsFit(env: Env, roots: seq<Object>) { forall x :: x in roots ==> Fits(env, x.fde, x.regs.addrNew) }

  /** The patches of a whole run are exactly what its objects prescribe. */
  lemma {:induction false} AllExact(env: Env, roots: seq<Object>, h: Heap, moves: Moves)
    requires Nested(env) && WellLaid(env) && h.moved.Keys <= AllKeys() && RootsFit(env, roots) && AllFit(env, moves)
    requires GenAll(env, roots, h).Some? && Extends(GenAll(env, roots, h).value.0, moves)
    ensures var (h', ps) := GenAll(env, roots, h).value;
      AllSound(env, AllObjects(roots, h, h'), ps, moves) && AllComplete(env, AllObjects(roots, h, h'), ps, moves)
    decreases |roots|
  {
    if roots == [] {
      NoVariables(env, h, moves);
    } else {
      var (h1, ps) := GenFde(env, roots[0].fde, roots[0].regs, h).value;
      var (h2, qs) := GenAll(env, roots[1..], h1).value;
      FirstFits(env, roots);
      ExtendsLess(h1, h2, moves);
      assert roots == [roots[0]] + roots[1..];
      assert Final(env, GenFde(env, roots[0].fde, roots[0].regs, h), moves);
      hide GenFde, Fits, RootsFit, AllFit, Nested, WellLaid, AllSound, AllComplete, Objects, AllObjects, Extends, Final;
      OneVariable(env, roots[0], h, moves);
      AllExact(env, roots[1..], h1, moves);
      ObjectsJoin(roots[0], roots[1..], h, h1, h2);
      JoinVariables(env, Objects(roots[0], h, h1), AllObjects(roots[1..], h1, h2), AllObjects(roots, h, h2), ps, qs, moves);
    }
  }

  lemma FirstFits(env: Env, roots: seq<Object>)
    requires RootsFit(env, roots) && roots != []
    ensures Fits(env, roots[0].fde, roots[0].regs.addrNew) && RootsFit(env, roots[1..])
  {
    hide Fits;
  }

  // ----- memory after the run -----

  /** A byte that the patches write is prescribed. */
  lemma Writer(env: Env, objects: set<Object>, ps: seq<Patch>, moves: Moves, a: word, b: byte) returns (y: Object)
    requires Nested(env) && AllSound(env, objects, ps, moves) && LeftBy(ps, a, b)
    ensures y in objects && ObjectByte(env, y, moves, a) == Some(b)
  {
    hide ObjectByte, Nested;
    var p :| p in ps && p.addr <= a < p.addr + |p.data| && b == p.data[a - p.addr];
    var i: nat := a - p.addr;
    assert Prescribed(env, objects, moves, p.addr + i, p.data[i]);
    y :| y in objects && ObjectByte(env, y, moves, a) == Some(b);
  }

  ghost predicate AllIn(env: Env, objects: set<Object>) { forall x :: x in objects ==> Fits(env, x.fde, x.regs.addrNew) }

  /** Every address holds what the one object it belongs to prescribes, or what it held before. */
  lemma RunImage(env: Env, objects: set<Object>, ps: seq<Patch>, moves: Moves, mem: Memory, a: word)
    requires Nested(env) && WellLaid(env) && AllIn(env, objects) && ObjectsApart(env, objects)
    requires AllSound(env, objects, ps, moves) && AllComplete(env, objects, ps, moves)
    ensures InSpace(ps) && ImageAt(env, objects, moves, mem, ApplyAll(mem, ps), a)
  {
    hide ObjectByte, Nested, WellLaid, Fits, ObjectsApart, ApplyAll, Covers, LeftBy;
    ApplyByte(mem, ps, a);
    if Covers(ps, a) {
      var b := ApplyAll(mem, ps)[a];
      var y := Writer(env, objects, ps, moves, a, b);
      forall x | x in objects && ObjectByte(env, x, moves, a).Some? ensures b == ObjectByte(env, x, moves, a).value {
        OneOwner(env, objects, moves, x, y, a);
      }
    } else {
      forall x | x in objects ensures ObjectByte(env, x, moves, a).None? {
        assert ObjectCovered(env, x, ps, moves);
      }
    }
  }

  /** Everything that the run is about can be read, and what its pointers lead to has been moved. */
  ghost predicate AllClosed(env: Env, objects: set<Object>, moves: Moves)
    requires Nested(env)
  {
    forall x :: x in objects ==> ObjectClosed(env, x.fde, x.regs, moves)
  }

  lemma {:induction false} RunClosed(env: Env, roots: seq<Object>, h: Heap, moves: Moves)
    requires Nested(env) && h.moved.Keys <= AllKeys()
    requires GenAll(env, roots, h).Some? && Extends(GenAll(env, roots, h).value.0, moves)
    ensures AllClosed(env, AllObjects(roots, h, GenAll(env, roots, h).value.0), moves)
    decreases |roots|
  {
    if roots == [] {
      NoVariables(env, h, moves);
    } else {
      var h1 := GenFde(env, roots[0].fde, roots[0].regs, h).value.0;
      var h2 := GenAll(env, roots[1..], h1).value.0;
      ExtendsLess(h1, h2, moves);
      assert roots == [roots[0]] + roots[1..];
      hide GenFde, Nested, ObjectClosed, NewClosed, AllObjects, Extends;
      GenFdeClosed(env, roots[0].fde, roots[0].regs, h, moves);
      RunClosed(env, roots[1..], h1, moves);
      ObjectsJoin(roots[0], roots[1..], h, h1, h2);
      forall x | x in Objects(roots[0], h, h1) ensures ObjectClosed(env, x.fde, x.regs, moves) {
        ClosedMember(env, roots[0], h, h1, moves, x);
      }
    }
  }

  lemma ClosedMember(env: Env, root: Object, h: Heap, h': Heap, moves: Moves, x: Object)
    requires Nested(env) && x in Objects(root, h, h') && NewClosed(env, h, h', moves)
    requires ObjectClosed(env, root.fde, root.regs, moves)
    ensures ObjectClosed(env, x.fde, x.regs, moves)
  {
    hide ObjectClosed;
    if x != root {
      var key :| key in h'.moved && key !in h.moved && ObjectOf(h'.moved[key]) == x;
      assert IsNew(h, h', key);
    }
  }

  lemma {:induction false} RunKeepsOk(env: Env, image: Block, roots: seq<Object>, h: Heap)
    requires Nested(env) && FreshMalloc(env, image) && HeapOk(env, image, h) && h.moved.Keys <= AllKeys() && GenAll(env, roots, h).Some?
    ensures HeapOk(env, image, GenAll(env, roots, h).value.0)
    decreases |roots|
  {
    hide HeapOk, FreshMalloc, GenFde, Nested;
    if roots != [] {
      GenFdeKeepsOk(env, image, roots[0].fde, roots[0].regs, h);
      RunKeepsOk(env, image, roots[1..], GenFde(env, roots[0].fde, roots[0].regs, h).value.0);
    }
  }

  // ----- where the objects are -----

  /** The variables and the objects that live in symbols. */
  ghost function AllSymbols(roots: seq<Object>, h: Heap): set<Object>
  {
    (set x | x in roots) + set key | key in h.moved && h.moved[key].block.None? :: ObjectOf(h.moved[key])
  }

  lemma FewerPlaced(env: Env, image: Block, xs: set<Object>, ys: set<Object>)
    requires SymbolsPlaced(env, image, ys) && xs <= ys
    ensures SymbolsPlaced(env, image, xs)
  {
    hide Separate, MemSize;
  }

  lemma RootPlaced(env: Env, image: Block, roots: seq<Object>, h: Heap, root: Object)
    requires SymbolsPlaced(env, image, AllSymbols(roots, h)) && root in roots
    ensures SymbolsPlaced(env, image, SymbolObjects(root, h))
  {
    assert SymbolObjects(root, h) <= AllSymbols(roots, h);
    hide SymbolsPlaced;
    FewerPlaced(env, image, SymbolObjects(root, h), AllSymbols(roots, h));
  }

  lemma RunPlaced(env: Env, image: Block, roots: seq<Object>, h: Heap, h': Heap)
    requires HeapOk(env, image, h') && SymbolsPlaced(env, image, AllSymbols(roots, h')) && roots != []
    ensures ObjectsApart(env, AllObjects(roots, h, h')) && AllFit(env, h'.moved)
    ensures AllIn(env, AllObjects(roots, h, h')) && RootsFit(env, roots)
  {
    forall root | root in roots ensures SymbolsPlaced(env, image, SymbolObjects(root, h')) {
      RootPlaced(env, image, roots, h', root);
    }
    hide HeapOk, MemSize, SymbolObjects, Separate, Fits;
    assert roots[0] in roots;
    forall key | key in h'.moved ensures Fits(env, h'.moved[key].fde, h'.moved[key].new_) {
      Placed(env, image, roots[0], h', key);
    }
    forall root | root in roots ensures Fits(env, root.fde, root.regs.addrNew) { RootFits(env, image, root, h'); }
    forall x, y | x in AllObjects(roots, h, h') && y in AllObjects(roots, h, h') && x != y ensures Separate(env, x, y) {
      TwoObjects(env, image, roots, h, h', x, y);
    }
  }

  lemma TwoObjects(env: Env, image: Block, roots: seq<Object>, h: Heap, h': Heap, x: Object, y: Object)
    requires HeapOk(env, image, h') && SymbolsPlaced(env, image, AllSymbols(roots, h')) && roots != []
    requires x in AllObjects(roots, h, h') && y in AllObjects(roots, h, h') && x != y
    ensures Separate(env, x, y)
  {
    if x in roots && y in roots {
      assert x in AllSymbols(roots, h') && y in AllSymbols(roots, h');
    } else {
      var root := if x in roots then x else if y in roots then y else roots[0];
      RootPlaced(env, image, roots, h', root);
      hide HeapOk, SymbolsPlaced, SymbolObjects, Separate;
      if x in roots {
        var ky :| ky in h'.moved && ObjectOf(h'.moved[ky]) == y;
        Placed(env, image, root, h', ky);
      } else {
        var kx :| kx in h'.moved && ObjectOf(h'.moved[kx]) == x;
        Placed(env, image, root, h', kx);
        if y !in roots {
          var ky :| ky in h'.moved && ObjectOf(h'.moved[ky]) == y;
          TwoMoves(env, image, root, h', kx, ky);
        }
      }
    }
  }

  // ----- old memory stays as it was -----

  predicate OffOld(old_: Memory, start: int, size: nat) { forall a :: a in old_ ==> !(start <= a < start + size) }

  /** New memory lies off the old: the section of the new variables and what malloc hands out. */
  ghost predicate NewOff(env: Env, image: Block)
  {
    && OffOld(env.mem, image.start, image.size)
    && forall blocks: seq<Block>, size: nat :: env.malloc(blocks, size).Some? ==> OffOld(env.mem, env.malloc(blocks, size).value, size)
  }

  predicate BlocksOff(env: Env, h: Heap) { forall b :: b in h.blocks ==> OffOld(env.mem, b.start, b.size) }

  lemma FdeKeepsOff(env: Env, image: Block, k: nat, regs: Regs, h: Heap)
    requires Nested(env) && NewOff(env, image) && BlocksOff(env, h) && h.moved.Keys <= AllKeys() && GenFde(env, k, regs, h).Some?
    ensures BlocksOff(env, GenFde(env, k, regs, h).value.0)
  {
    var inv := (g: Heap) => BlocksOff(env, g);
    forall p: word, j: nat, g: Heap | inv(g) && p != 0 && KeyOf(env, p) !in g.moved && Place(env, p, j, g).Some?
      ensures inv(Place(env, p, j, g).value.1)
    {
      hide OffOld;
    }
    hide BlocksOff, GenFde, NewOff;
    GenFdeKeeps(env, k, regs, h, inv);
  }

  lemma {:induction false} RunKeepsOff(env: Env, image: Block, roots: seq<Object>, h: Heap)
    requires Nested(env) && NewOff(env, image) && BlocksOff(env, h) && h.moved.Keys <= AllKeys() && GenAll(env, roots, h).Some?
    ensures BlocksOff(env, GenAll(env, roots, h).value.0)
    decreases |roots|
  {
    hide BlocksOff, NewOff, GenFde, Nested;
    if roots != [] {
      FdeKeepsOff(env, image, roots[0].fde, roots[0].regs, h);
      RunKeepsOff(env, image, roots[1..], GenFde(env, roots[0].fde, roots[0].regs, h).value.0);
    }
  }

  lemma InsideOff(old_: Memory, start: int, size: nat, a: int, n: nat)
    requires OffOld(old_, start, size) && start <= a && a + n <= start + size
    ensures OffOld(old_, a, n)
  {
  }

  lemma ObjectOff(env: Env, image: Block, roots: seq<Object>, h: Heap, h': Heap, x: Object)
    requires HeapOk(env, image, h') && SymbolsPlaced(env, image, AllSymbols(roots, h')) && NewOff(env, image) && BlocksOff(env, h')
    requires x in AllObjects(roots, h, h')
    ensures OffOld(env.mem, x.regs.addrNew, MemSize(env, x.fde))
  {
    hide OffOld, MemSize;
    if x in AllSymbols(roots, h') {
      InsideOff(env.mem, image.start, image.size, x.regs.addrNew, MemSize(env, x.fde));
    } else {
      var key :| key in h'.moved && key !in h.moved && ObjectOf(h'.moved[key]) == x;
      assert MoveOk(env, h', key);
      assert h'.moved[key].block.Some?;
    }
  }

  /** No patch touches the old memory. */
  lemma PatchesOff(env: Env, objects: set<Object>, ps: seq<Patch>, moves: Moves, a: word)
    requires Nested(env) && WellLaid(env) && AllIn(env, objects) && AllSound(env, objects, ps, moves)
    requires forall x :: x in objects ==> OffOld(env.mem, x.regs.addrNew, MemSize(env, x.fde))
    requires a in env.mem
    ensures !Covers(ps, a)
  {
    hide Nested, WellLaid, Fits, MemSize, Expect, OffOld;
    if Covers(ps, a) {
      var p :| p in ps && p.addr <= a < p.addr + |p.data|;
      assert LeftBy(ps, a, p.data[a - p.addr]);
      var y := Writer(env, objects, ps, moves, a, p.data[a - p.addr]);
      ExpectInside(env, y.fde, y.regs, moves, a);
      OffAt(env.mem, y.regs.addrNew, MemSize(env, y.fde), a);
      assert false;
    }
  }

  lemma OffAt(old_: Memory, start: int, size: nat, a: word)
    requires OffOld(old_, start, size) && a in old_
    ensures !(start <= a < start + size)
  {
  }

  // ----- the run is what the old memory says -----

  lemma {:induction false} ApplyAppend(mem: Memory, ps: seq<Patch>, qs: seq<Patch>)
    requires InSpace(ps + qs)
    ensures InSpace(ps) && InSpace(qs) && ApplyAll(mem, ps + qs) == ApplyAll(ApplyAll(mem, ps), qs)
    decreases |ps|
  {
    SpaceParts(ps, qs);
    hide InSpace;
    if ps == [] {
      assert ps + qs == qs;
    } else {
      FirstInSpace(ps, qs);
      assert (ps + qs)[1..] == ps[1..] + qs;
      ApplyAppend(WriteBytes(mem, ps[0].addr, ps[0].data), ps[1..], qs);
    }
  }

  lemma SpaceParts(ps: seq<Patch>, qs: seq<Patch>)
    requires InSpace(ps + qs)
    ensures InSpace(ps) && InSpace(qs)
  {
    assert forall p :: p in ps || p in qs ==> p in ps + qs;
  }

  lemma FirstInSpace(ps: seq<Patch>, qs: seq<Patch>)
    requires InSpace(ps + qs) && ps != []
    ensures ps[0].addr + |ps[0].data| <= WORD && InSpace(ps[1..] + qs)
  {
    assert ps[0] in ps + qs && forall p :: p in ps[1..] + qs ==> p in ps + qs;
  }

  /** No patch covers a byte of the old memory. */
  ghost predicate Off(old_: Memory, ps: seq<Patch>) { forall a: word :: a in old_ ==> !Covers(ps, a) }

  lemma StillHas(old_: Memory, mem: Memory, ps: seq<Patch>)
    requires Has(mem, old_) && InSpace(ps) && Off(old_, ps)
    ensures Has(ApplyAll(mem, ps), old_)
  {
    hide ApplyAll, Covers, InSpace;
    forall a | a in old_ ensures a in ApplyAll(mem, ps) && ApplyAll(mem, ps)[a] == old_[a] { ApplyByte(mem, ps, a); }
  }

  lemma OffParts(old_: Memory, ps: seq<Patch>, qs: seq<Patch>)
    requires Off(old_, ps + qs)
    ensures Off(old_, ps) && Off(old_, qs)
  {
    hide Covers;
    CoversAppend(ps, qs);
  }

  /** Generating each batch from what the ones before have left makes no difference. */
  lemma {:induction false} RunIsGen(env: Env, roots: seq<Object>, h: Heap, mem: Memory)
    requires Nested(env) && h.moved.Keys <= AllKeys() && GenAll(env, roots, h).Some? && Has(mem, env.mem)
    requires InSpace(GenAll(env, roots, h).value.1) && Off(env.mem, GenAll(env, roots, h).value.1)
    ensures var (h', ps) := GenAll(env, roots, h).value;
      RunAll(env, roots, h, mem) == Some((h', ApplyAll(mem, ps)))
    decreases |roots|
  {
    if roots != [] {
      var (h1, ps) := GenFde(env, roots[0].fde, roots[0].regs, h).value;
      var (h2, qs) := GenAll(env, roots[1..], h1).value;
      hide GenFde, Nested, Has, Off, InSpace, ApplyAll;
      NestedAt(env, mem);
      FdeMore(env, mem, roots[0].fde, roots[0].regs, h);
      ApplyAppend(mem, ps, qs);
      OffParts(env.mem, ps, qs);
      StillHas(env.mem, mem, ps);
      RunIsGen(env, roots[1..], h1, ApplyAll(mem, ps));
    }
  }

  // ----- own targets -----

  /** The run with a memo of whole addresses. */
  ghost function FullAll(env: Env, roots: seq<Object>, g: Heap): (r: Option<(Heap, seq<Patch>)>)
    requires Nested(env) && g.moved.Keys <= AllKeys()
    ensures r.Some? ==> Grows(g, r.value.0) && r.value.0.moved.Keys <= AllKeys()
  {
    NestedExactly(env);
    GenAll(Exactly(env), roots, g)
  }

  lemma {:induction false} SameAll(env: Env, roots: seq<Object>, g: Heap, h: Heap)
    requires Nested(env) && Image(env, g, h) && h.moved.Keys <= AllKeys()
    requires FullAll(env, roots, g).Some? && KeysDiffer(env, Known(FullAll(env, roots, g).value.0))
    ensures var (g', ps) := FullAll(env, roots, g).value;
      GenAll(env, roots, h).Some? && GenAll(env, roots, h).value.1 == ps && Image(env, g', GenAll(env, roots, h).value.0)
    decreases |roots|
  {
    if roots != [] {
      var (g1, ps) := FullFde(env, roots[0].fde, roots[0].regs, g).value;
      var (g2, qs) := FullAll(env, roots[1..], g1).value;
      assert Known(g1) <= Known(g2);
      hide FullFde, GenFde, Nested, Image, KeysDiffer, Grows;
      FewerDiffer(env, Known(g1), Known(g2));
      SameFde(env, roots[0].fde, roots[0].regs, g, h);
      var h1 := GenFde(env, roots[0].fde, roots[0].regs, h).value.0;
      SameAll(env, roots[1..], g1, h1);
    }
  }

  ghost predicate RootsFollow(env: Env, roots: seq<Object>, ps: set<word>)
    requires Nested(env)
  {
    forall x :: x in roots ==> ObjectFollows(env, x.fde, x.regs, ps)
  }

  lemma RootsFollowFirst(env: Env, roots: seq<Object>, ps: set<word>)
    requires Nested(env) && roots != []
    ensures RootsFollow(env, roots, ps) <==> ObjectFollows(env, roots[0].fde, roots[0].regs, ps) && RootsFollow(env, roots[1..], ps)
  {
    hide ObjectFollows, Nested;
    assert forall x :: x in roots <==> x == roots[0] || x in roots[1..];
  }

  lemma {:induction false} FollowAll(env: Env, roots: seq<Object>, g: Heap, ps: set<word>)
    requires Nested(env) && g.moved.Keys <= AllKeys() && FullAll(env, roots, g).Some? && Known(FullAll(env, roots, g).value.0) <= ps
    ensures RootsFollow(env, roots, ps) && NewFollow(env, g, FullAll(env, roots, g).value.0, ps)
    decreases |roots|
  {
    if roots == [] {
      NoneFollow(env, g, ps);
    } else {
      var g1 := FullFde(env, roots[0].fde, roots[0].regs, g).value.0;
      var g2 := FullAll(env, roots[1..], g1).value.0;
      assert Known(g1) <= Known(g2);
      hide FullFde, Nested, NewFollow, RootsFollow, ObjectFollows;
      FollowFde(env, roots[0].fde, roots[0].regs, g, ps);
      FollowAll(env, roots[1..], g1, ps);
      NewFollowJoin(env, g, g1, g2, ps);
      RootsFollowFirst(env, roots, ps);
    }
  }

  lemma {:induction false} BackAll(env: Env, roots: seq<Object>, g: Heap, h: Heap, moves: Moves)
    requires Nested(env) && Image(env, g, h) && h.moved.Keys <= AllKeys()
    requires GenAll(env, roots, h).Some? && Extends(GenAll(env, roots, h).value.0, moves)
    requires RootsFollow(env, roots, Own(env, moves)) && NewOwn(env, h, GenAll(env, roots, h).value.0, moves)
    ensures var r := FullAll(env, roots, g);
      r.Some? && r.value.1 == GenAll(env, roots, h).value.1 && Image(env, r.value.0, GenAll(env, roots, h).value.0)
    decreases |roots|
  {
    if roots != [] {
      var h1 := GenFde(env, roots[0].fde, roots[0].regs, h).value.0;
      var h2 := GenAll(env, roots[1..], h1).value.0;
      hide FullFde, GenFde, Nested, Image, RootsFollow, ObjectFollows, NewOwn, Own, Extends;
      RootsFollowFirst(env, roots, Own(env, moves));
      NewOwnParts(env, h, h1, h2, moves);
      ExtendsLess(h1, h2, moves);
      BackFde(env, roots[0].fde, roots[0].regs, g, h, moves);
      BackAll(env, roots[1..], FullFde(env, roots[0].fde, roots[0].regs, g).value.0, h1, moves);
    }
  }

  /** Every pointer that the run follows has a record of its own. */
  ghost predicate RunOwn(env: Env, roots: seq<Object>, h: Heap, h': Heap)
    requires Nested(env)
  {
    RootsFollow(env, roots, Own(env, h'.moved)) && NewOwn(env, h, h', h'.moved)
  }

  /** No two of the addresses known before and of the pointers followed by all variables are taken
      for each other. */
  ghost predicate RunCondition(env: Env, roots: seq<Object>, h: Heap)
    requires Nested(env)
  {
    var r := FullAll(env, roots, FullOf(env, h));
    r.Some? && KeysDiffer(env, Known(r.value.0))
  }

  lemma RootsFollowMore(env: Env, roots: seq<Object>, ps: set<word>, qs: set<word>)
    requires Nested(env) && RootsFollow(env, roots, ps) && ps <= qs
    ensures RootsFollow(env, roots, qs)
  {
    hide ObjectFollows, Nested;
    forall x | x in roots ensures ObjectFollows(env, x.fde, x.regs, qs) { MoreFollows(env, x.fde, x.regs, ps, qs); }
  }

  /** Over a whole run every pointer is given the new address of its own target exactly under the
      condition on the old heap. */
  lemma RunOwnIff(env: Env, image: Block, roots: seq<Object>, h: Heap)
    requires Nested(env) && HeapOk(env, image, h) && h.moved.Keys <= AllKeys() && GenAll(env, roots, h).Some?
    ensures RunOwn(env, roots, h, GenAll(env, roots, h).value.0) <==> RunCondition(env, roots, h)
  {
    var g := FullOf(env, h);
    var r := FullAll(env, roots, g);
    var h' := GenAll(env, roots, h).value.0;
    hide GenAll, FullAll, Nested, HeapOk, Image, KeysDiffer, RootsFollow, NewOwn, Own, FullOf, NewFollow;
    FullOfImage(env, image, h);
    ExtendsSelf(h');
    if RunOwn(env, roots, h, h') {
      BackAll(env, roots, g, h, h'.moved);
      ImageKeysDiffer(env, r.value.0, h');
    }
    if r.Some? && KeysDiffer(env, Known(r.value.0)) {
      var g' := r.value.0;
      SameAll(env, roots, g, h);
      FollowAll(env, roots, g, Known(g'));
      NewOwnFrom(env, g, g', h, h');
      ImageOwn(env, g', h');
      RootsFollowMore(env, roots, Known(g'), Own(env, h'.moved));
    }
  }

  // ----- the theorem -----

  /** Every object is the transform of what it was in the old memory; all else is as it was. */
  ghost predicate RunMigrated(env: Env, objects: set<Object>, moves: Moves, before: Memory, after: Memory)
    requires Nested(env)
  {
    && AllClosed(env, objects, moves)
    && (forall x :: x in objects ==> Migrated(env, x.fde, x.regs, moves, after))
    && AllLed(env, moves)
    && forall a: word :: ImageAt(env, objects, moves, before, after, a)
  }

  lemma RunMigratedFrom(env: Env, objects: set<Object>, moves: Moves, before: Memory, after: Memory)
    requires Nested(env) && WellLaid(env) && AllIn(env, objects) && AllClosed(env, objects, moves) && AllLed(env, moves)
    requires forall a: word :: ImageAt(env, objects, moves, before, after, a)
    ensures RunMigrated(env, objects, moves, before, after)
  {
    hide ImageAt, ObjectClosed, Migrated, Fits, WellLaid, Nested, AllLed;
    forall x | x in objects ensures Migrated(env, x.fde, x.regs, moves, after) {
      MemberShows(env, objects, moves, before, after, x);
      ObjectIsMigrated(env, x.fde, x.regs, moves, after);
    }
  }

  /** Where a run takes place: the old heap is consistent, and new memory lies off the old. */
  ghost predicate RunSetting(env: Env, image: Block, h: Heap)
  {
    && FreshMalloc(env, image) && NewOff(env, image)
    && HeapOk(env, image, h) && h.moved.Keys <= AllKeys() && BlocksOff(env, h)
  }

  /** What is known of the patches of a run. */
  lemma RunParts(env: Env, image: Block, roots: seq<Object>, h: Heap)
    requires Nested(env) && WellLaid(env) && RunSetting(env, image, h) && h.moved.Keys <= AllKeys() && roots != []
    requires GenAll(env, roots, h).Some? && SymbolsPlaced(env, image, AllSymbols(roots, GenAll(env, roots, h).value.0))
    ensures var (h', ps) := GenAll(env, roots, h).value;
      var objects := AllObjects(roots, h, h');
      && HeapOk(env, image, h') && AllIn(env, objects) && ObjectsApart(env, objects)
      && AllSound(env, objects, ps, h'.moved) && AllComplete(env, objects, ps, h'.moved) && AllClosed(env, objects, h'.moved)
      && InSpace(ps) && Off(env.mem, ps)
  {
    var (h', ps) := GenAll(env, roots, h).value;
    var objects := AllObjects(roots, h, h');
    SettingParts(env, image, h);
    hide *;
    RunKeepsOk(env, image, roots, h);
    RunKeepsOff(env, image, roots, h);
    RunPlaced(env, image, roots, h, h');
    ExtendsSelf(h');
    AllExact(env, roots, h, h'.moved);
    RunClosed(env, roots, h, h'.moved);
    forall x | x in objects ensures OffOld(env.mem, x.regs.addrNew, MemSize(env, x.fde)) {
      ObjectOff(env, image, roots, h, h', x);
    }
    SoundInSpace(env, objects, ps, h'.moved);
    OffFrom(env, objects, ps, h'.moved);
  }

  lemma SettingParts(env: Env, image: Block, h: Heap)
    requires RunSetting(env, image, h)
    ensures FreshMalloc(env, image) && NewOff(env, image) && HeapOk(env, image, h) && h.moved.Keys <= AllKeys() && BlocksOff(env, h)
  {
  }

  lemma SoundInSpace(env: Env, objects: set<Object>, ps: seq<Patch>, moves: Moves)
    requires Nested(env) && AllSound(env, objects, ps, moves)
    ensures InSpace(ps)
  {
  }

  lemma OffFrom(env: Env, objects: set<Object>, ps: seq<Patch>, moves: Moves)
    requires Nested(env) && WellLaid(env) && AllIn(env, objects) && AllSound(env, objects, ps, moves)
    requires forall x :: x in objects ==> OffOld(env.mem, x.regs.addrNew, MemSize(env, x.fde))
    ensures Off(env.mem, ps)
  {
    hide Nested, WellLaid, AllIn, AllSound, OffOld, Covers;
    forall a: word | a in env.mem ensures !Covers(ps, a) { PatchesOff(env, objects, ps, moves, a); }
  }

  /** The theorem for a whole patch.  Variables are migrated one after the other, each from the memory
      that the batches before have left.  If generating all patches from the old memory succeeds,
      the run does, and afterwards every variable and every object moved on their behalf is the
      transform of what it was before the first batch, no other byte has changed, and the old memory
      is as it was.  Under the condition on the old heap every pointer, of whichever variable, leads
      to the new place of its own target, and pointers are equal exactly when they were. */
  lemma PatchRunCorrect(env: Env, image: Block, roots: seq<Object>, h: Heap, mem: Memory)
    requires Nested(env) && WellLaid(env) && RunSetting(env, image, h) && h.moved.Keys <= AllKeys() && roots != []
    requires Has(mem, env.mem) && GenAll(env, roots, h).Some?
    requires SymbolsPlaced(env, image, AllSymbols(roots, GenAll(env, roots, h).value.0))
    ensures var h' := GenAll(env, roots, h).value.0;
      var objects := AllObjects(roots, h, h');
      var run := RunAll(env, roots, h, mem);
      && run.Some? && run.value.0 == h' && HeapOk(env, image, h')
      && RunMigrated(env, objects, h'.moved, mem, run.value.1) && Has(run.value.1, env.mem)
      && (RunCondition(env, roots, h) <==> RunOwn(env, roots, h, h'))
      && (RunCondition(env, roots, h) ==> SharingKept(env, h'.moved))
  {
    var (h', ps) := GenAll(env, roots, h).value;
    var objects := AllObjects(roots, h, h');
    RunParts(env, image, roots, h);
    SettingParts(env, image, h);
    hide *;
    RunIsGen(env, roots, h, mem);
    StillHas(env.mem, mem, ps);
    forall a: word ensures ImageAt(env, objects, h'.moved, mem, ApplyAll(mem, ps), a) {
      RunImage(env, objects, ps, h'.moved, mem, a);
    }
    OkLed(env, image, h');
    RunMigratedFrom(env, objects, h'.moved, mem, ApplyAll(mem, ps));
    RunOwnIff(env, image, roots, h);
    RootPlaced(env, image, roots, h', roots[0]);
    Shared(env, image, roots[0], h');
  }

  // ----- for the loop over the variables -----

  lemma AtMem(env: Env, mem: Memory)
    ensures Given(env, mem).mem == mem
  {
  }

  lemma RunNext(env: Env, roots: seq<Object>, h: Heap, mem: Memory)
    requires Nested(env) && Nested(Given(env, mem)) && h.moved.Keys <= AllKeys() && roots != []
    requires GenFde(Given(env, mem), roots[0].fde, roots[0].regs, h).Some?
    requires InSpace(GenFde(Given(env, mem), roots[0].fde, roots[0].regs, h).value.1)
    ensures var (h1, ps) := GenFde(Given(env, mem), roots[0].fde, roots[0].regs, h).value;
      RunAll(env, roots, h, mem) == RunAll(env, roots[1..], h1, ApplyAll(mem, ps))
  {
    hide Nested, GenFde, ApplyAll, InSpace, Given;
  }

  lemma RunDone(env: Env, h: Heap, mem: Memory)
    requires Nested(env) && h.moved.Keys <= AllKeys()
    ensures RunAll(env, [], h, mem) == Some((h, mem))
  {
  }

  /** What PatchRunCorrect asks of a run. */
  ghost predicate RunReady(env: Env, image: Block, roots: seq<Object>, h: Heap, mem: Memory)
    requires Nested(env) && h.moved.Keys <= AllKeys()
  {
    && WellLaid(env) && RunSetting(env, image, h) && roots != [] && Has(mem, env.mem)
    && GenAll(env, roots, h).Some?
    && SymbolsPlaced(env, image, AllSymbols(roots, GenAll(env, roots, h).value.0))
  }

  lemma RunReadyMigrates(env: Env, image: Block, roots: seq<Object>, h: Heap, mem: Memory)
    requires Nested(env) && h.moved.Keys <= AllKeys() && RunReady(env, image, roots, h, mem)
    ensures var r := RunAll(env, roots, h, mem);
      r.Some? && RunMigrated(env, AllObjects(roots, h, r.value.0), r.value.0.moved, mem, r.value.1)
  {
    hide Nested, WellLaid, RunSetting, Has, GenAll, SymbolsPlaced, RunAll, RunMigrated, RunCondition, RunOwn, SharingKept;
    PatchRunCorrect(env, image, roots, h, mem);
  }
}
