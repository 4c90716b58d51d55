/** Two objects that dataMoved takes for one.  Whatever the hash of addresses is there are
    such addresses, and pointers to the second one are led to the first. */
module Collision {
  import opened Bytes
  import opened Leb
  import opened Registers
  import opened Cfa
  import opened TableSpec
  import opened RuleVm
  import opened Target
  import opened PatchVm
  import opened Migration
  import opened HeapImage
  import opened OwnTargets

  // ----- the input -----

  const OLD_VARIABLE: word := 0x1000
  const NEW_VARIABLE: word := 0x2000
  const HEAP_START: word := 0x9000

  /** A variable of two pointers, each of which points to an object of eight bytes. */
  function Pointers(p: word, q: word): seq<byte> { ToBytes(p, 8) + ToBytes(q, 8) + Nops(16) }

  predicate InVariable(a: int) { OLD_VARIABLE <= a < OLD_VARIABLE + 32 }

  function VariableMemory(p: word, q: word): Memory
  {
    map a: word | OLD_VARIABLE <= a < OLD_VARIABLE + 32 && InVariable(a) :: Pointers(p, q)[a - OLD_VARIABLE]
  }

  function FixAt(offset: u32): Instr { FixupsPointer(CurrTargNew(8, offset), CurrTargOld(8, offset), 2) }

  const PlainCie := RuleVm.Cie(1, 1, [], (r: Reg) => 0)

  /** malloc hands out one block behind the other. */
  function NextBlock(blocks: seq<Block>): word { (HEAP_START + 8 * |blocks|) % WORD }

  function TwoPointers(hash: word -> nat, p: word, q: word): Env
  {
    Env([PatchVm.Fde(PlainCie, [FixAt(0), FixAt(8)], 0, 0, 16), PatchVm.Fde(PlainCie, [], 0, 0, 8)], [],
        VariableMemory(p, q), (i: u32) => 0, (a: word) => NoSymbol,
        (blocks: seq<Block>, size: nat) => Some(NextBlock(blocks)), ByBucket(hash))
  }

  const Variable := Migration.Object(1, Regs(OLD_VARIABLE, NEW_VARIABLE))

  const NOTHING_MOVED := PatchVm.Heap(map[], [])

  // ----- what happens -----

  function FixRule(offset: u32): Rule { Rule(CurrTargNew(8, offset), RecurseFixupPointer, CurrTargOld(8, offset), 0, 2) }

  function EntryAt(offset: u32): Entry<Reg, Rule> { Entry(CurrTargNew(8, offset), FixRule(offset), 0) }

  lemma FixExec(offset: u32, rules: Rules)
    requires Find(rules, CurrTargNew(8, offset)) == |rules| && forall e :: e in rules ==> e.bucket == 0
    ensures Exec(PlainCie, FixAt(offset), State(0, rules, []), 0) == Next(State(0, rules + [EntryAt(offset)], []))
  {
    assert EntryAt(offset).key == CurrTargNew(8, offset) && EntryAt(offset).value == FixRule(offset) && EntryAt(offset).bucket == 0;
    hide *;
    SetBehind(rules, EntryAt(offset));
    FixNew(offset);
    AssignFresh(PlainCie, FixAt(offset), State(0, rules, []), CurrTargNew(8, offset), FixRule(offset));
  }

  lemma AssignFresh(cie: Cie, i: Instr, s: State, reg: Reg, rule: Rule)
    requires i.FixupsPointer? && RuleVm.Target(i) == reg && !reg.NoReg? && TableSpec.Get(s.rules, reg) == None
    requires NewRule(cie, i, FreshRule(reg)) == Some(rule)
    ensures Exec(cie, i, s, 0) == Next(s.(rules := TableSpec.Set(s.rules, reg, rule, cie.bucket(reg))))
  {
    hide TableSpec.Get, TableSpec.Set, NewRule, FreshRule;
  }

  lemma FixNew(offset: u32)
    ensures RuleVm.Target(FixAt(offset)) == CurrTargNew(8, offset) && PlainCie.bucket(CurrTargNew(8, offset)) == 0
    ensures NewRule(PlainCie, FixAt(offset), FreshRule(CurrTargNew(8, offset))) == Some(FixRule(offset))
    ensures FixAt(offset).FixupsPointer?
  {
  }

  lemma SetBehind(rules: Rules, e: Entry<Reg, Rule>)
    requires Find(rules, e.key) == |rules| && e.bucket == 0 && forall x :: x in rules ==> x.bucket == 0
    ensures TableSpec.Set(rules, e.key, e.value, 0) == rules + [e]
    ensures TableSpec.Get(rules, e.key) == None
  {
    AllInRun(rules);
    hide Find;
    assert TableSpec.Insert(rules, e) == rules + [e];
  }

  lemma {:induction false} AllInRun(rules: Rules)
    requires forall e :: e in rules ==> e.bucket == 0
    ensures RunLength(rules, 0) == Slot(rules, 0) == |rules|
  {
    if rules != [] { AllInRun(rules[1..]); }
  }

  lemma VariableRun()
    ensures Run(PlainCie, [FixAt(0), FixAt(8)], State(0, [], []), 0) == Some(State(0, [EntryAt(0), EntryAt(8)], []))
  {
    hide Exec;
    var (a, b) := (FixAt(0), FixAt(8));
    FixExec(0, []);
    assert [] + [EntryAt(0)] == [EntryAt(0)];
    OneEntry();
    FixExec(8, [EntryAt(0)]);
    assert [EntryAt(0)] + [EntryAt(8)] == [EntryAt(0), EntryAt(8)];
    assert [a, b][1..] == [b] && [b][1..] == [];
    var end := State(0, [EntryAt(0), EntryAt(8)], []);
    assert Run(PlainCie, [], end, 0) == Some(end);
    assert Run(PlainCie, [b], State(0, [EntryAt(0)], []), 0) == Some(end);
  }

  lemma OneEntry()
    ensures Find([EntryAt(0)], CurrTargNew(8, 8)) == 1
  {
    assert [EntryAt(0)][1..] == [];
  }

  lemma VariableRules(hash: word -> nat, p: word, q: word)
    ensures FdeRules(TwoPointers(hash, p, q), 1) == Some([EntryAt(0), EntryAt(8)])
    ensures FdeRules(TwoPointers(hash, p, q), 2) == Some([])
    ensures forall k: nat :: k != 1 && k != 2 ==> FdeRules(TwoPointers(hash, p, q), k) == None
  {
    VariableRun();
    hide FixAt, VariableMemory, EntryAt, Exec;
    assert Run(PlainCie, [], State(0, [], []), 0) == Some(State(0, [], []));
    assert TwoPointers(hash, p, q).fdes[0].instrs == [FixAt(0), FixAt(8)];
    assert TwoPointers(hash, p, q).fdes[1].instrs == [];
  }

  // ----- the run -----

  lemma VariableNested(hash: word -> nat, p: word, q: word)
    ensures Nested(TwoPointers(hash, p, q))
  {
    var env := TwoPointers(hash, p, q);
    VariableRules(hash, p, q);
    hide FdeRules;
    forall k: nat, e | FdeRules(env, k).Some? && e in FdeRules(env, k).value ensures Descends(env, k, e.value) {
      assert k == 1 || k == 2;
    }
  }

  lemma PointerAt(hash: word -> nat, p: word, q: word, offset: u32)
    requires offset == 0 || offset == 8
    ensures ReadPointer(TwoPointers(hash, p, q), CurrTargOld(8, offset), Variable.regs) == Some(if offset == 0 then p else q)
    ensures ResolveTarget(CurrTargNew(8, offset), Variable.regs) == Some(NEW_VARIABLE + offset)
  {
    var env, v, a := TwoPointers(hash, p, q), if offset == 0 then p else q, OLD_VARIABLE + offset;
    assert env.mem == VariableMemory(p, q);
    VariableSlice(p, q, offset);
    WordBytes(v);
    SmallOffset(offset);
    hide TwoPointers, VariableMemory, ToBytes;
    ReadOld(env, offset, Variable.regs, a);
  }

  lemma SmallOffset(offset: u32)
    requires offset == 0 || offset == 8
    ensures Displaced(OLD_VARIABLE, offset) == OLD_VARIABLE + offset && Displaced(NEW_VARIABLE, offset) == NEW_VARIABLE + offset
  {
  }

  lemma ReadOld(env: Env, offset: u32, regs: Regs, a: word)
    requires Displaced(regs.addrOld, offset) == a && a != 0 && Readable(env.mem, a, 8) && Mapped(env.mem, a, 8)
    ensures Unsigned(Slice(env.mem, a, 8)) >= 0
    ensures ReadPointer(env, CurrTargOld(8, offset), regs) == Some(Unsigned(Slice(env.mem, a, 8)))
  {
    UnsignedBelow8(Slice(env.mem, a, 8));
    hide Slice, Readable, Mapped, Displaced, Unsigned;
  }

  lemma WordBytes(v: word)
    ensures Unsigned(ToBytes(v, 8)) == v
  {
    ToBytesValue(v, 8);
    assert Base256(8) == WORD;
    SmallMod(v, WORD);
  }

  lemma VariableSlice(p: word, q: word, offset: u32)
    requires offset == 0 || offset == 8
    ensures Mapped(VariableMemory(p, q), OLD_VARIABLE + offset, 8) && Readable(VariableMemory(p, q), OLD_VARIABLE + offset, 8)
    ensures Slice(VariableMemory(p, q), OLD_VARIABLE + offset, 8) == ToBytes(if offset == 0 then p else q, 8)
  {
    hide ToBytes;
    var all, bytes := Pointers(p, q), ToBytes(if offset == 0 then p else q, 8);
    assert all[offset..offset + 8] == bytes;
    forall i: nat | i < 8 ensures Slice(VariableMemory(p, q), OLD_VARIABLE + offset, 8)[i] == bytes[i] {
      assert all[offset..offset + 8][i] == all[offset + i] && InVariable(OLD_VARIABLE + offset + i);
    }
  }

  /** A pointer to an object without fields that is not known yet. */
  lemma NewTargetRule(env: Env, k: nat, rule: Rule, regs: Regs, h: Heap, p: word, a: word, to: word, h1: Heap)
    requires Nested(env) && Descends(env, k, rule) && h.moved.Keys <= AllKeys() && rule.kind.RecurseFixupPointer?
    requires ReadPointer(env, rule.rh, regs) == Some(p) && p != 0 && ResolveTarget(rule.lh, regs) == Some(a)
    requires KeyOf(env, p) !in h.moved && Place(env, p, rule.index, h) == Some((to, h1)) && FdeRules(env, rule.index) == Some([])
    ensures GenRule(env, k, rule, regs, h) == Some((h1, [Patch(a, ToBytes(to, 8))]))
  {
    hide GenRule, GenFde, Place, FdeRules, ReadPointer, ResolveTarget, ToBytes;
    PointerRule(env, k, rule, regs, h, p, a);
    EmptyFde(env, rule.index, Regs(p, to), h1);
    assert [Patch(a, ToBytes(to, 8))] + [] == [Patch(a, ToBytes(to, 8))];
  }

  lemma EmptyFde(env: Env, k: nat, regs: Regs, h: Heap)
    requires Nested(env) && FdeRules(env, k) == Some([]) && h.moved.Keys <= AllKeys()
    ensures GenFde(env, k, regs, h) == Some((h, []))
  {
    hide FdeRules;
  }

  function After(hash: word -> nat, p: word, q: word): Heap
  {
    PatchVm.Heap(map[KeyOf(TwoPointers(hash, p, q), p) := Move(p, HEAP_START, 2, Some(0))], [Block(HEAP_START, 8)])
  }

  lemma FirstPlace(hash: word -> nat, p: word, q: word)
    ensures Place(TwoPointers(hash, p, q), p, 2, NOTHING_MOVED) == Some((HEAP_START, After(hash, p, q)))
    ensures After(hash, p, q).moved.Keys <= AllKeys()
  {
    assert NextBlock([]) == HEAP_START;
    assert [] + [Block(HEAP_START, 8)] == [Block(HEAP_START, 8)];
    assert KeyOf(TwoPointers(hash, p, q), p) in AllKeys();
  }

  /** Both pointers are led to the object of the first. */
  lemma Misled(hash: word -> nat, p: word, q: word)
    requires p != 0 && q != 0 && AddressKey(hash, p) == AddressKey(hash, q)
    ensures Nested(TwoPointers(hash, p, q))
    ensures GenFde(TwoPointers(hash, p, q), 1, Variable.regs, NOTHING_MOVED)
         == Some((After(hash, p, q), [Patch(NEW_VARIABLE, ToBytes(HEAP_START, 8)), Patch(NEW_VARIABLE + 8, ToBytes(HEAP_START, 8))]))
  {
    hide *;
    var env := TwoPointers(hash, p, q);
    var h := After(hash, p, q);
    VariableNested(hash, p, q);
    VariableRules(hash, p, q);
    FirstPlace(hash, p, q);
    PointerAt(hash, p, q, 0);
    PointerAt(hash, p, q, 8);
    SecondKnown(hash, p, q);
    FixRuleIs(env, 0);
    FixRuleIs(env, 8);
    NewTargetRule(env, 1, FixRule(0), Variable.regs, NOTHING_MOVED, p, NEW_VARIABLE, HEAP_START, h);
    PointerRule(env, 1, FixRule(8), Variable.regs, h, q, NEW_VARIABLE + 8);
    var (first, second) := (Patch(NEW_VARIABLE, ToBytes(HEAP_START, 8)), Patch(NEW_VARIABLE + 8, ToBytes(HEAP_START, 8)));
    TwoRules(env, EntryAt(0), EntryAt(8), Variable.regs, NOTHING_MOVED, h, h, [first], [second]);
    assert [first] + [second] == [first, second];
  }

  lemma FixRuleIs(env: Env, offset: u32)
    ensures var r := FixRule(offset);
      r.kind.RecurseFixupPointer? && r.lh == CurrTargNew(8, offset) && r.rh == CurrTargOld(8, offset) && r.index == 2
    ensures EntryAt(offset).value == FixRule(offset) && Descends(env, 1, FixRule(offset))
  {
  }

  lemma SecondKnown(hash: word -> nat, p: word, q: word)
    requires AddressKey(hash, p) == AddressKey(hash, q)
    ensures var (env, h) := (TwoPointers(hash, p, q), After(hash, p, q));
      && KeyOf(env, q) in h.moved && h.moved[KeyOf(env, q)].new_ == HEAP_START
      && NOTHING_MOVED.moved == map[]
  {
  }

  lemma TwoRules(env: Env, e: Entry<Reg, Rule>, f: Entry<Reg, Rule>, regs: Regs, h: Heap, h1: Heap, h2: Heap,
                 ps: seq<Patch>, qs: seq<Patch>)
    requires Nested(env) && Descends(env, 1, e.value) && Descends(env, 1, f.value) && h.moved.Keys <= AllKeys()
    requires FdeRules(env, 1) == Some([e, f])
    requires GenRule(env, 1, e.value, regs, h) == Some((h1, ps)) && h1.moved.Keys <= AllKeys()
    requires GenRule(env, 1, f.value, regs, h1) == Some((h2, qs))
    ensures GenFde(env, 1, regs, h) == Some((h2, ps + qs))
  {
    hide FdeRules, GenRule;
    assert [e, f][1..] == [f] && [f][1..] == [];
    assert GenRules(env, 1, [], regs, h2) == Some((h2, []));
    assert qs + [] == qs;
    assert GenRules(env, 1, [f], regs, h1) == Some((h2, qs));
  }

  // ----- there is always such an input -----

  function SameLow(i: nat): word
    requires i < 1000
  {
    HALF_WORD * i + 8
  }

  function BucketOf(hash: word -> nat, i: nat): nat
    requires i < 1000
  {
    hash(SameLow(i)) % 100
  }

  lemma {:induction false} BelowCount(n: nat, s: set<nat>)
    requires forall x :: x in s ==> x < n
    ensures |s| <= n
  {
    if n > 0 {
      BelowCount(n - 1, s - {n - 1});
      assert s <= s - {n - 1} + {n - 1};
    } else {
      assert s == {};
    }
  }

  /** Numbers that are all different make a set of their count. */
  lemma {:induction false} DifferentCount(hash: word -> nat, n: nat)
    requires n <= 101 && forall i: nat, j: nat :: i < j < n ==> BucketOf(hash, i) != BucketOf(hash, j)
    ensures |set i: nat | i < n :: BucketOf(hash, i)| == n
  {
    if n > 0 {
      DifferentCount(hash, n - 1);
      var s := set i: nat | i < n - 1 :: BucketOf(hash, i);
      var t := set i: nat | i < n :: BucketOf(hash, i);
      assert t == s + {BucketOf(hash, n - 1)};
      assert BucketOf(hash, n - 1) !in s;
    }
  }

  /** What makes two addresses one: the same bucket of 100 and the same low 32 bits. */
  lemma SameKeyIff(hash: word -> nat, p: word, q: word)
    ensures AddressKey(hash, p) == AddressKey(hash, q)
       <==> hash(p) % 100 == hash(q) % 100 && (p - q) % 0x1_0000_0000 == 0
  {
    var d := p - q;
    assert p == HALF_WORD * (p / HALF_WORD) + p % HALF_WORD && q == HALF_WORD * (q / HALF_WORD) + q % HALF_WORD;
    if p % HALF_WORD == q % HALF_WORD { DivModUnique(d, HALF_WORD, p / HALF_WORD - q / HALF_WORD, 0); }
    if d % HALF_WORD == 0 { AddMultiple(q, HALF_WORD, d / HALF_WORD); }
  }

  /** There are 100 buckets, so of 101 addresses with the same low 32 bits two have one key. */
  lemma KeysCollide(hash: word -> nat) returns (p: word, q: word)
    ensures p != q && p != 0 && q != 0 && AddressKey(hash, p) == AddressKey(hash, q)
  {
    if forall i: nat, j: nat :: i < j < 101 ==> BucketOf(hash, i) != BucketOf(hash, j) {
      DifferentCount(hash, 101);
      BelowCount(100, set i: nat | i < 101 :: BucketOf(hash, i));
      assert false;
    }
    var i: nat, j: nat :| i < j < 101 && BucketOf(hash, i) == BucketOf(hash, j);
    p, q := SameLow(i), SameLow(j);
    DivModUnique(p, HALF_WORD, i, 8);
    DivModUnique(q, HALF_WORD, j, 8);
  }

  /** Main result: whatever the hash, there is a heap in which patch generation succeeds, two
      different pointers get the same new address, and the second one is not that of its target. */
  lemma CollisionExists(hash: word -> nat) returns (p: word, q: word)
    ensures p != q && Nested(TwoPointers(hash, p, q))
    ensures ReadPointer(TwoPointers(hash, p, q), CurrTargOld(8, 0), Variable.regs) == Some(p)
    ensures ReadPointer(TwoPointers(hash, p, q), CurrTargOld(8, 8), Variable.regs) == Some(q)
    ensures var r := GenFde(TwoPointers(hash, p, q), 1, Variable.regs, NOTHING_MOVED);
      && r.Some? && |r.value.1| == 2 && r.value.1[0].data == r.value.1[1].data
      && !OwnAll(TwoPointers(hash, p, q), Variable, NOTHING_MOVED, r.value.0)
  {
    p, q := KeysCollide(hash);
    var env := TwoPointers(hash, p, q);
    Misled(hash, p, q);
    PointerAt(hash, p, q, 0);
    PointerAt(hash, p, q, 8);
    VariableRules(hash, p, q);
    var h := After(hash, p, q);
    assert q !in Own(env, h.moved);
    hide FdeRules, ReadPointer, TwoPointers, After, Own, NewOwn;
    assert EntryAt(8) in FdeRules(env, 1).value;
    assert !RuleFollows(env, 1, EntryAt(8).value, Variable.regs, Own(env, h.moved));
  }
}
