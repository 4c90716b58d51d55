/** Consequences of the image theorem for whole runs of patch generation: nothing is
    left dangling, fields and pointers have the values they should have, and fresh
    allocations keep objects apart. */
module HeapImage {
  import opened Bytes
  import opened Registers
  import opened TableSpec
  import opened RuleVm
  import opened Target
  import opened PatchVm
  import opened Migration
  import Leb

  // ----- nothing dangles -----

  /** What a rule that does not recurse puts into its field. */
  function FieldBytes(env: Env, rule: Rule, regs: Regs, moves: Moves): Option<seq<byte>>
  {
    match rule.kind
    case OffsetRule => DereferenceAt(env, Some(rule.offset % WORD), if rule.lh.CurrTargNew? && rule.lh.size != 0 then rule.lh.size else 8)
    case RegisterRule => ResolveBytes(env, rule.rh, regs)
    case RecurseFixupPointer =>
      var p :- ReadPointer(env, rule.rh, regs);
      var v :- NewPointer(env, p, moves);
      Some(ToBytes(v, 8))
    case _ => None
  }

  /** Everything the rule reads is there, and what a pointer leads to has been moved. */
  ghost predicate RuleClosed(env: Env, k: nat, rule: Rule, regs: Regs, moves: Moves)
    requires Nested(env) && Descends(env, k, rule)
    decreases DepthOf(env, k), 0
  {
    && ResolveTarget(rule.lh, regs).Some?
    && match rule.kind
       case Undef => true
       case RecurseFixup =>
         && ResolveAddress(env, rule.rh, regs).Some?
         && var o, base := ResolveAddress(env, rule.rh, regs).value, ResolveTarget(rule.lh, regs).value;
            ObjectClosed(env, rule.index, Regs(o, base), moves)
       case _ => FieldBytes(env, rule, regs, moves).Some?
  }

  ghost predicate ObjectClosed(env: Env, k: nat, regs: Regs, moves: Moves)
    requires Nested(env)
    decreases DepthOf(env, k), 1
  {
    FdeRules(env, k).Some? && forall e :: e in FdeRules(env, k).value ==> RuleClosed(env, k, e.value, regs, moves)
  }

  ghost predicate NewClosed(env: Env, h: Heap, h': Heap, moves: Moves)
    requires Nested(env)
  {
    forall key :: IsNew(h, h', key) ==> ObjectClosed(env, h'.moved[key].fde, RegsOf(h'.moved[key]), moves)
  }

  lemma NewClosedJoin(env: Env, h: Heap, h1: Heap, h2: Heap, moves: Moves)
    requires Nested(env) && Grows(h, h1) && Grows(h1, h2) && NewClosed(env, h, h1, moves) && NewClosed(env, h1, h2, moves)
    ensures NewClosed(env, h, h2, moves)
  {
    forall key | IsNew(h, h2, key) ensures ObjectClosed(env, h2.moved[key].fde, RegsOf(h2.moved[key]), moves) {
      assert IsNew(h, h1, key) || IsNew(h1, h2, key);
    }
  }

  lemma GenRuleClosed(env: Env, k: nat, rule: Rule, regs: Regs, h: Heap, moves: Moves)
    requires Nested(env) && Descends(env, k, rule) && h.moved.Keys <= AllKeys()
    requires GenRule(env, k, rule, regs, h).Some? && Extends(GenRule(env, k, rule, regs, h).value.0, moves)
    ensures RuleClosed(env, k, rule, regs, moves) && NewClosed(env, h, GenRule(env, k, rule, regs, h).value.0, moves)
    decreases AllKeys() - h.moved.Keys, DepthOf(env, k), 0, 0
  {
    hide ObjectClosed; hide NewClosed;
    NothingNew(env, h, moves);
    if rule.kind.RecurseFixup? {
      var o, base := FixupResult(env, k, rule, regs, h);
      GenFdeClosed(env, rule.index, Regs(o, base), h, moves);
    } else if rule.kind.RecurseFixupPointer? {
      var p, base := PointerResult(env, k, rule, regs, h);
      hide GenRule;
      if p != 0 && KeyOf(env, p) !in h.moved {
        var (to, h1) := Place(env, p, rule.index, h).value;
        PlaceMoves(env, p, rule.index, h);
        GenFdeClosed(env, rule.index, Regs(p, to), h1, moves);
        OneNew(env, h, h1, KeyOf(env, p), moves);
        NewClosedJoin(env, h, h1, GenRule(env, k, rule, regs, h).value.0, moves);
      }
    }
  }

  lemma NothingNew(env: Env, h: Heap, moves: Moves)
    requires Nested(env)
    ensures NewClosed(env, h, h, moves)
  {
  }

  lemma OneNew(env: Env, h: Heap, h1: Heap, key: Key, moves: Moves)
    requires Nested(env) && h1.moved.Keys == h.moved.Keys + {key} && key in h1.moved
    requires ObjectClosed(env, h1.moved[key].fde, RegsOf(h1.moved[key]), moves)
    ensures NewClosed(env, h, h1, moves)
  {
  }

  lemma GenRulesClosed(env: Env, k: nat, rs: Rules, regs: Regs, h: Heap, moves: Moves)
    requires Nested(env) && h.moved.Keys <= AllKeys()
    requires forall e :: e in rs ==> Descends(env, k, e.value)
    requires GenRules(env, k, rs, regs, h).Some? && Extends(GenRules(env, k, rs, regs, h).value.0, moves)
    ensures forall e :: e in rs ==> RuleClosed(env, k, e.value, regs, moves)
    ensures NewClosed(env, h, GenRules(env, k, rs, regs, h).value.0, moves)
    decreases AllKeys() - h.moved.Keys, DepthOf(env, k), 1, |rs|
  {
    hide RuleClosed; hide NewClosed; hide GenRule;
    if rs == [] {
      NothingNew(env, h, moves);
    } else {
      var h1 := GenRule(env, k, rs[0].value, regs, h).value.0;
      var h2 := GenRules(env, k, rs[1..], regs, h1).value.0;
      GenRuleClosed(env, k, rs[0].value, regs, h, moves);
      GenRulesClosed(env, k, rs[1..], regs, h1, moves);
      NewClosedJoin(env, h, h1, h2, moves);
    }
  }

  /** When generating patches succeeds, every object it is about can be read
      completely and every pointer in them that is not null leads to an object with
      a recorded new address. */
  lemma GenFdeClosed(env: Env, k: nat, regs: Regs, h: Heap, moves: Moves)
    requires Nested(env) && h.moved.Keys <= AllKeys()
    requires GenFde(env, k, regs, h).Some? && Extends(GenFde(env, k, regs, h).value.0, moves)
    ensures ObjectClosed(env, k, regs, moves) && NewClosed(env, h, GenFde(env, k, regs, h).value.0, moves)
    decreases AllKeys() - h.moved.Keys, DepthOf(env, k), 2, 0
  {
    hide NewClosed; hide RuleClosed;
    GenRulesClosed(env, k, FdeRules(env, k).value, regs, h, moves);
  }

  // ----- what a migrated object looks like -----

  /** The field of a rule holds what the rule says; nested objects recursively. */
  ghost predicate FieldRight(env: Env, k: nat, rule: Rule, regs: Regs, moves: Moves, after: Memory)
    requires Nested(env) && Descends(env, k, rule) && RuleClosed(env, k, rule, regs, moves)
    decreases DepthOf(env, k), 0
  {
    var base := ResolveTarget(rule.lh, regs).value;
    match rule.kind
    case Undef => true
    case RecurseFixup => Migrated(env, rule.index, Regs(ResolveAddress(env, rule.rh, regs).value, base), moves, after)
    case _ => Holds(after, base, FieldBytes(env, rule, regs, moves).value)
  }

  predicate Holds(m: Memory, a: int, bs: seq<byte>) { Mapped(m, a, |bs|) && Slice(m, a, |bs|) == bs }

  /** The object at regs.addrNew is the transform of the one at regs.addrOld. */
  ghost predicate Migrated(env: Env, k: nat, regs: Regs, moves: Moves, after: Memory)
    requires Nested(env) && ObjectClosed(env, k, regs, moves)
    decreases DepthOf(env, k), 1
  {
    forall e :: e in FdeRules(env, k).value ==> FieldRight(env, k, e.value, regs, moves, after)
  }

  /** The memory has the bytes that the object prescribes. */
  ghost predicate Shows(env: Env, k: nat, regs: Regs, moves: Moves, after: Memory)
    requires Nested(env)
  {
    forall a: word :: Expect(env, k, regs, moves, a).Some? ==> a in after && after[a] == Expect(env, k, regs, moves, a).value
  }

  ghost predicate RuleShows(env: Env, k: nat, rule: Rule, regs: Regs, moves: Moves, after: Memory)
    requires Nested(env) && Descends(env, k, rule)
  {
    forall a: word :: RuleByte(env, k, rule, regs, moves, a).Some? ==> a in after && after[a] == RuleByte(env, k, rule, regs, moves, a).value
  }

  lemma ShowsRule(env: Env, k: nat, regs: Regs, moves: Moves, after: Memory, i: nat)
    requires Nested(env) && WellLaid(env) && Fits(env, k, regs.addrNew) && FdeRules(env, k).Some?
    requires Shows(env, k, regs, moves, after) && i < |FdeRules(env, k).value|
    ensures RuleShows(env, k, FdeRules(env, k).value[i].value, regs, moves, after)
  {
    var rules := FdeRules(env, k).value;
    var rule := rules[i].value;
    forall a: word | RuleByte(env, k, rule, regs, moves, a).Some?
      ensures a in after && after[a] == RuleByte(env, k, rule, regs, moves, a).value
    {
      RuleByteRange(env, k, rule, regs, moves, a);
      RulesByteAt(env, k, rules, regs, moves, a, i);
    }
  }

  lemma FieldByteIs(env: Env, k: nat, rule: Rule, regs: Regs, moves: Moves, a: word)
    requires Nested(env) && Descends(env, k, rule) && ResolveTarget(rule.lh, regs).Some?
    requires FieldBytes(env, rule, regs, moves).Some?
    ensures var base, bs := ResolveTarget(rule.lh, regs).value, FieldBytes(env, rule, regs, moves).value;
            && |bs| == RuleLength(env, rule)
            && (base <= a < base + |bs| ==> RuleByte(env, k, rule, regs, moves, a) == Some(bs[a - base]))
  {
    hide ReadPointer; hide NewPointer; hide FdeRules; hide DereferenceAt; hide Expect; hide ToBytes; hide ResolveAddress;
  }

  /** A rule that prescribes a string of bytes for its field. */
  lemma FieldHolds(env: Env, k: nat, rule: Rule, regs: Regs, moves: Moves, after: Memory)
    requires Nested(env) && Descends(env, k, rule) && RuleShows(env, k, rule, regs, moves, after)
    requires Fits(env, k, regs.addrNew) && Inside(env, rule, MemSize(env, k)) && ResolveTarget(rule.lh, regs).Some?
    requires FieldBytes(env, rule, regs, moves).Some?
    ensures Holds(after, ResolveTarget(rule.lh, regs).value, FieldBytes(env, rule, regs, moves).value)
  {
    hide *;
    NewTarget(rule.lh, regs);
    TargetOf(env, rule, regs, k);
    var base, bs := ResolveTarget(rule.lh, regs).value, FieldBytes(env, rule, regs, moves).value;
    FieldByteIs(env, k, rule, regs, moves, base);
    forall a: word | base <= a < base + |bs| ensures a in after && after[a] == bs[a - base] {
      FieldByteIs(env, k, rule, regs, moves, a);
      RuleShown(env, k, rule, regs, moves, after, a);
    }
    HoldsAt(after, base, bs);
  }

  lemma NewTarget(reg: Reg, regs: Regs)
    requires ResolveTarget(reg, regs).Some?
    ensures reg.CurrTargNew?
  {
  }

  lemma RuleShown(env: Env, k: nat, rule: Rule, regs: Regs, moves: Moves, after: Memory, a: word)
    requires Nested(env) && Descends(env, k, rule) && RuleShows(env, k, rule, regs, moves, after)
    requires RuleByte(env, k, rule, regs, moves, a).Some?
    ensures a in after && after[a] == RuleByte(env, k, rule, regs, moves, a).value
  {
    hide RuleByte;
  }

  lemma HoldsAt(m: Memory, base: word, bs: seq<byte>)
    requires base + |bs| <= WORD
    requires forall a: word :: base <= a < base + |bs| ==> a in m && m[a] == bs[a - base]
    ensures Holds(m, base, bs)
  {
  }

  lemma FieldIsRight(env: Env, k: nat, rule: Rule, regs: Regs, moves: Moves, after: Memory)
    requires Nested(env) && WellLaid(env) && Descends(env, k, rule) && RuleClosed(env, k, rule, regs, moves)
    requires Fits(env, k, regs.addrNew) && Inside(env, rule, MemSize(env, k))
    requires RuleShows(env, k, rule, regs, moves, after)
    ensures FieldRight(env, k, rule, regs, moves, after)
    decreases DepthOf(env, k), 0
  {
    hide Inside; hide RuleByte; hide FieldBytes; hide Expect; hide ObjectClosed; hide Migrated;
    match rule.kind
    case Undef =>
    case RecurseFixup =>
      var o, base := ResolveAddress(env, rule.rh, regs).value, ResolveTarget(rule.lh, regs).value;
      SubObject(env, k, rule, regs, moves, o, base);
      ObjectIsMigrated(env, rule.index, Regs(o, base), moves, after);
    case _ =>
      FieldHolds(env, k, rule, regs, moves, after);
  }

  lemma ObjectIsMigrated(env: Env, k: nat, regs: Regs, moves: Moves, after: Memory)
    requires Nested(env) && WellLaid(env) && Fits(env, k, regs.addrNew)
    requires ObjectClosed(env, k, regs, moves) && Shows(env, k, regs, moves, after)
    ensures Migrated(env, k, regs, moves, after)
    decreases DepthOf(env, k), 1
  {
    hide FieldRight;
    var rules := FdeRules(env, k).value;
    forall e | e in rules ensures FieldRight(env, k, e.value, regs, moves, after) {
      var i :| 0 <= i < |rules| && rules[i] == e;
      ShowsRule(env, k, regs, moves, after, i);
      FieldIsRight(env, k, e.value, regs, moves, after);
    }
  }

  // ----- what every placement keeps, a whole run keeps -----

  ghost predicate Keeps(env: Env, inv: Heap -> bool)
  {
    forall p: word, k: nat, h: Heap :: inv(h) && p != 0 && KeyOf(env, p) !in h.moved && Place(env, p, k, h).Some? ==>
      inv(Place(env, p, k, h).value.1)
  }

  lemma GenRuleKeeps(env: Env, k: nat, rule: Rule, regs: Regs, h: Heap, inv: Heap -> bool)
    requires Nested(env) && Keeps(env, inv) && Descends(env, k, rule) && h.moved.Keys <= AllKeys() && inv(h)
    requires GenRule(env, k, rule, regs, h).Some?
    ensures inv(GenRule(env, k, rule, regs, h).value.0)
    decreases AllKeys() - h.moved.Keys, DepthOf(env, k), 0, 0
  {
    if rule.kind.RecurseFixup? {
      var o, base := FixupResult(env, k, rule, regs, h);
      GenFdeKeeps(env, rule.index, Regs(o, base), h, inv);
    } else if rule.kind.RecurseFixupPointer? {
      var p, base := PointerResult(env, k, rule, regs, h);
      hide GenRule;
      if p != 0 && KeyOf(env, p) !in h.moved {
        var (to, h1) := Place(env, p, rule.index, h).value;
        GenFdeKeeps(env, rule.index, Regs(p, to), h1, inv);
      }
    }
  }

  lemma GenRulesKeeps(env: Env, k: nat, rs: Rules, regs: Regs, h: Heap, inv: Heap -> bool)
    requires Nested(env) && Keeps(env, inv) && h.moved.Keys <= AllKeys() && inv(h)
    requires forall e :: e in rs ==> Descends(env, k, e.value)
    requires GenRules(env, k, rs, regs, h).Some?
    ensures inv(GenRules(env, k, rs, regs, h).value.0)
    decreases AllKeys() - h.moved.Keys, DepthOf(env, k), 1, |rs|
  {
    hide GenRule;
    if rs != [] {
      GenRuleKeeps(env, k, rs[0].value, regs, h, inv);
      GenRulesKeeps(env, k, rs[1..], regs, GenRule(env, k, rs[0].value, regs, h).value.0, inv);
    }
  }

  /** Whatever holds of the heap and is kept by every single placement of an object
      holds after patches have been generated. */
  lemma GenFdeKeeps(env: Env, k: nat, regs: Regs, h: Heap, inv: Heap -> bool)
    requires Nested(env) && Keeps(env, inv) && h.moved.Keys <= AllKeys() && inv(h)
    requires GenFde(env, k, regs, h).Some?
    ensures inv(GenFde(env, k, regs, h).value.0)
    decreases AllKeys() - h.moved.Keys, DepthOf(env, k), 2, 0
  {
    GenRulesKeeps(env, k, FdeRules(env, k).value, regs, h, inv);
  }

  // ----- allocation keeps objects apart -----

  /** malloc in the target: not null, inside the address space, and away from what
      it handed out before and from the section the new variables are in. */
  ghost predicate FreshMalloc(env: Env, image: Block)
  {
    forall blocks: seq<Block>, size: nat :: env.malloc(blocks, size).Some? ==>
      && var a := env.malloc(blocks, size).value;
         && 0 < a && a + size <= WORD && BlocksApart(a, size, image.start, image.size)
         && forall b :: b in blocks ==> BlocksApart(b.start, b.size, a, size)
  }

  /** What lies in a symbol goes where the patch puts the symbol, and only what lies in none gets
      memory from malloc. */
  predicate Led(env: Env, m: Move)
  {
    match env.locate(m.old_)
    case Moved(to) => m.new_ == to && m.block.None?
    case NoSymbol => m.block.Some?
    case Unknown => false
  }

  ghost predicate AllLed(env: Env, moves: Moves) { forall key :: key in moves ==> Led(env, moves[key]) }

  /** An entry of dataMoved is about an object, and the key it is stored under. */
  predicate MoveOk(env: Env, h: Heap, key: Key)
    requires key in h.moved
  {
    var m := h.moved[key];
    && m.old_ != 0 && KeyOf(env, m.old_) == key && Led(env, m)
    && (m.block.Some? ==> m.block.value < |h.blocks| && h.blocks[m.block.value] == Block(m.new_, MemSize(env, m.fde)))
  }

  predicate OwnBlock(h: Heap, x: Key, y: Key)
    requires x in h.moved && y in h.moved
  {
    x != y && h.moved[x].block.Some? ==> h.moved[x].block != h.moved[y].block
  }

  predicate BlockOk(image: Block, b: Block)
  {
    0 < b.start && b.start + b.size <= WORD && BlocksApart(b.start, b.size, image.start, image.size)
  }

  ghost predicate HeapOk(env: Env, image: Block, h: Heap)
  {
    && h.moved.Keys <= AllKeys()
    && (forall key :: key in h.moved ==> MoveOk(env, h, key))
    && (forall x, y :: x in h.moved && y in h.moved ==> OwnBlock(h, x, y))
    && (forall b :: b in h.blocks ==> BlockOk(image, b))
    && forall i, j :: 0 <= i < j < |h.blocks| ==>
         BlocksApart(h.blocks[i].start, h.blocks[i].size, h.blocks[j].start, h.blocks[j].size)
  }

  lemma PlaceKeepsOk(env: Env, image: Block, p: word, k: nat, h: Heap)
    requires FreshMalloc(env, image) && HeapOk(env, image, h) && KeyOf(env, p) !in h.moved && Place(env, p, k, h).Some? && p != 0
    ensures HeapOk(env, image, Place(env, p, k, h).value.1)
  {
    var (to, h1) := Place(env, p, k, h).value;
    var key := KeyOf(env, p);
    assert key in AllKeys();
    forall x | x in h1.moved ensures MoveOk(env, h1, x) {
      if x != key { assert MoveOk(env, h, x); }
    }
    forall x, y | x in h1.moved && y in h1.moved ensures OwnBlock(h1, x, y) {
      if x != key { assert MoveOk(env, h, x); }
      if y != key { assert MoveOk(env, h, y); }
      if x != key && y != key { assert OwnBlock(h, x, y); }
    }
  }

  lemma OkLed(env: Env, image: Block, h: Heap)
    requires HeapOk(env, image, h)
    ensures AllLed(env, h.moved)
  {
    forall key | key in h.moved ensures Led(env, h.moved[key]) { assert MoveOk(env, h, key); }
  }

  /** The heap stays consistent over every run. */
  lemma GenFdeKeepsOk(env: Env, image: Block, k: nat, regs: Regs, h: Heap)
    requires Nested(env) && FreshMalloc(env, image) && HeapOk(env, image, h) && GenFde(env, k, regs, h).Some?
    ensures HeapOk(env, image, GenFde(env, k, regs, h).value.0)
  {
    var inv := (g: Heap) => HeapOk(env, image, g);
    forall p: word, j: nat, g: Heap | inv(g) && p != 0 && KeyOf(env, p) !in g.moved && Place(env, p, j, g).Some?
      ensures inv(Place(env, p, j, g).value.1)
    {
      PlaceKeepsOk(env, image, p, j, g);
    }
    hide HeapOk; hide GenFde; hide FreshMalloc;
    GenFdeKeeps(env, k, regs, h, inv);
  }

  // ----- the migration of one variable -----

  /** Objects that live in symbols: the variable itself and what pointers into the
      data section lead to. */
  ghost function SymbolObjects(root: Object, h: Heap): set<Object>
  {
    {root} + set key | key in h.moved && h.moved[key].block.None? :: ObjectOf(h.moved[key])
  }

  /** The patch's symbols lie in the new data section and do not overlap; a pointer into
      a symbol points to its start, and is moved as what the symbol is. */
  ghost predicate SymbolsPlaced(env: Env, image: Block, objects: set<Object>)
  {
    && 0 < image.start && image.start + image.size <= WORD
    && (forall x :: x in objects ==>
         image.start <= x.regs.addrNew && x.regs.addrNew + MemSize(env, x.fde) <= image.start + image.size)
    && ObjectsApart(env, objects)
  }

  lemma PlacedApart(env: Env, image: Block, root: Object, h: Heap, h': Heap)
    requires HeapOk(env, image, h') && SymbolsPlaced(env, image, SymbolObjects(root, h'))
    ensures ObjectsApart(env, Objects(root, h, h')) && AllFit(env, h'.moved)
    ensures Fits(env, root.fde, root.regs.addrNew)
  {
    hide HeapOk; hide SymbolsPlaced; hide MemSize; hide SymbolObjects; hide Separate; hide Fits;
    forall key | key in h'.moved ensures Fits(env, h'.moved[key].fde, h'.moved[key].new_) {
      Placed(env, image, root, h', key);
    }
    RootFits(env, image, root, h');
    forall x, y | x in Objects(root, h, h') && y in Objects(root, h, h') && x != y ensures Separate(env, x, y) {
      if x == root {
        var ky :| ky in h'.moved && ObjectOf(h'.moved[ky]) == y;
        Placed(env, image, root, h', ky);
      } else {
        var kx :| kx in h'.moved && ObjectOf(h'.moved[kx]) == x;
        Placed(env, image, root, h', kx);
        if y != root {
          var ky :| ky in h'.moved && ObjectOf(h'.moved[ky]) == y;
          TwoMoves(env, image, root, h', kx, ky);
        }
      }
    }
  }

  lemma RootFits(env: Env, image: Block, root: Object, h: Heap)
    requires SymbolsPlaced(env, image, SymbolObjects(root, h))
    ensures Fits(env, root.fde, root.regs.addrNew)
  {
    assert root in SymbolObjects(root, h);
  }

  /** Where a moved object is. */
  lemma Placed(env: Env, image: Block, root: Object, h: Heap, key: Key)
    requires HeapOk(env, image, h) && SymbolsPlaced(env, image, SymbolObjects(root, h)) && key in h.moved
    ensures Fits(env, h.moved[key].fde, h.moved[key].new_)
    ensures h.moved[key].block.None? ==> ObjectOf(h.moved[key]) in SymbolObjects(root, h)
    ensures h.moved[key].block.Some? ==>
              BlocksApart(h.moved[key].new_, MemSize(env, h.moved[key].fde), image.start, image.size)
    ensures ObjectOf(h.moved[key]) != root ==> Separate(env, root, ObjectOf(h.moved[key])) && Separate(env, ObjectOf(h.moved[key]), root)
  {
    assert root in SymbolObjects(root, h);
    var m := h.moved[key];
    assert MoveOk(env, h, key);
    if m.block.None? {
      assert ObjectOf(m) in SymbolObjects(root, h);
    } else {
      assert BlockOk(image, h.blocks[m.block.value]);
    }
  }

  lemma TwoMoves(env: Env, image: Block, root: Object, h: Heap, x: Key, y: Key)
    requires HeapOk(env, image, h) && SymbolsPlaced(env, image, SymbolObjects(root, h)) && x in h.moved && y in h.moved
    requires ObjectOf(h.moved[x]) != ObjectOf(h.moved[y])
    ensures Separate(env, ObjectOf(h.moved[x]), ObjectOf(h.moved[y]))
  {
    Placed(env, image, root, h, x);
    Placed(env, image, root, h, y);
    var a, b := h.moved[x], h.moved[y];
    assert MoveOk(env, h, x) && MoveOk(env, h, y) && OwnBlock(h, x, y);
    if a.block.Some? && b.block.Some? {
      var i, j := a.block.value, b.block.value;
      assert i < j || j < i;
    }
  }

  /** The variable and every object moved on its behalf is the transform of its old
      self, and every address holds what one of them prescribes or what it held before. */
  ghost predicate VariableMigrated(env: Env, root: Object, h: Heap, h': Heap, before: Memory, after: Memory)
    requires Nested(env)
  {
    && (forall x :: x in Objects(root, h, h') ==>
         ObjectClosed(env, x.fde, x.regs, h'.moved) && Migrated(env, x.fde, x.regs, h'.moved, after))
    && AllLed(env, h'.moved)
    && forall a: word :: ImageAt(env, Objects(root, h, h'), h'.moved, before, after, a)
  }

  /** The migration theorem.  Whatever the old heap looks like - shared structure,
      cycles, null pointers - a successful migration of a variable leaves the
      variable and every object moved on its behalf as the transform of its old
      self, with every pointer leading to the recorded new place of its target;
      addresses outside of the fields of these objects are untouched. */
  lemma MigrationCorrect(env: Env, image: Block, root: Object, h: Heap)
    requires Nested(env) && WellLaid(env) && FreshMalloc(env, image)
    requires h.moved.Keys <= AllKeys() && HeapOk(env, image, h)
    requires GenFde(env, root.fde, root.regs, h).Some?
    requires SymbolsPlaced(env, image, SymbolObjects(root, GenFde(env, root.fde, root.regs, h).value.0))
    ensures var (h', ps) := GenFde(env, root.fde, root.regs, h).value;
            && HeapOk(env, image, h') && Grows(h, h') && InSpace(ps)
            && VariableMigrated(env, root, h, h', env.mem, ApplyAll(env.mem, ps))
  {
    hide *;
    var (h', ps) := GenFde(env, root.fde, root.regs, h).value;
    GenFdeKeepsOk(env, image, root.fde, root.regs, h);
    OkLed(env, image, h');
    PlacedApart(env, image, root, h, h');
    ExtendsSelf(h');
    GenFdeClosed(env, root.fde, root.regs, h, h'.moved);
    forall a: word
      ensures InSpace(ps) && ImageAt(env, Objects(root, h, h'), h'.moved, env.mem, ApplyAll(env.mem, ps), a)
    {
      BatchIsImage(env, root, h, env.mem, a);
    }
    var zero: word := 0;
    assert InSpace(ps) by { BatchIsImage(env, root, h, env.mem, zero); }
    AllMigrated(env, root, h, h', env.mem, ApplyAll(env.mem, ps));
  }

  lemma ExtendsSelf(h: Heap)
    ensures Extends(h, h.moved)
  {
  }

  lemma AllMigrated(env: Env, root: Object, h: Heap, h': Heap, before: Memory, after: Memory)
    requires Nested(env) && WellLaid(env) && AllFit(env, h'.moved) && Fits(env, root.fde, root.regs.addrNew)
    requires ObjectClosed(env, root.fde, root.regs, h'.moved) && NewClosed(env, h, h', h'.moved)
    requires AllLed(env, h'.moved) && forall a: word :: ImageAt(env, Objects(root, h, h'), h'.moved, before, after, a)
    ensures VariableMigrated(env, root, h, h', before, after)
  {
    hide ImageAt; hide ObjectClosed; hide Migrated; hide NewClosed; hide AllFit; hide Fits; hide WellLaid; hide Nested; hide AllLed;
    forall x | x in Objects(root, h, h')
      ensures ObjectClosed(env, x.fde, x.regs, h'.moved) && Migrated(env, x.fde, x.regs, h'.moved, after)
    {
      MemberClosed(env, root, h, h', x);
      MemberShows(env, Objects(root, h, h'), h'.moved, before, after, x);
      ObjectIsMigrated(env, x.fde, x.regs, h'.moved, after);
    }
  }

  lemma MemberClosed(env: Env, root: Object, h: Heap, h': Heap, x: Object)
    requires Nested(env) && x in Objects(root, h, h') && NewClosed(env, h, h', h'.moved)
    requires ObjectClosed(env, root.fde, root.regs, h'.moved) && AllFit(env, h'.moved) && Fits(env, root.fde, root.regs.addrNew)
    ensures ObjectClosed(env, x.fde, x.regs, h'.moved) && Fits(env, x.fde, x.regs.addrNew)
  {
    hide ObjectClosed;
    if x != root {
      var key :| key in h'.moved && key !in h.moved && ObjectOf(h'.moved[key]) == x;
      assert IsNew(h, h', key);
    }
  }

  lemma MemberShows(env: Env, objects: set<Object>, moves: Moves, before: Memory, after: Memory, x: Object)
    requires Nested(env) && x in objects
    requires forall a: word :: ImageAt(env, objects, moves, before, after, a)
    ensures Shows(env, x.fde, x.regs, moves, after)
  {
    hide Expect;
    forall a: word | Expect(env, x.fde, x.regs, moves, a).Some?
      ensures a in after && after[a] == Expect(env, x.fde, x.regs, moves, a).value
    {
      assert ImageAt(env, objects, moves, before, after, a);
      assert ObjectByte(env, x, moves, a).Some?;
    }
  }
}
