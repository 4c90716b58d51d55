/** Whether every pointer is given the new address of its own target.  dataMoved compares only
    the hash bucket and the low 32 bits of an address (util/map.c), so two objects can be taken
    for one.  The generator below remembers whole addresses instead; the two agree exactly when
    no two of the pointers that it follows are taken for each other. */
module OwnTargets {
  import opened Bytes
  import opened Registers
  import opened Cfa
  import opened TableSpec
  import opened RuleVm
  import opened Target
  import opened PatchVm
  import opened Migration
  import opened HeapImage

  // ----- the same generator with a memo of whole addresses -----

  predicate IsWord(p: int) { 0 <= p < WORD }

  ghost function AllWords(): set<word> { set p: word | 0 <= p < WORD && IsWord(p) }

  /** The environment in which dataMoved compares whole addresses. */
  function Exactly(env: Env): Env { env.(memo := ByAddress) }

  lemma NestedExactly(env: Env)
    ensures Nested(Exactly(env)) <==> Nested(env)
    ensures forall k: nat :: FdeRules(Exactly(env), k) == FdeRules(env, k) && DepthOf(Exactly(env), k) == DepthOf(env, k)
    ensures forall k: nat, rule: Rule :: Descends(Exactly(env), k, rule) <==> Descends(env, k, rule)
  {
    forall k: nat ensures FdeRules(Exactly(env), k) == FdeRules(env, k) && DepthOf(Exactly(env), k) == DepthOf(env, k) {
      SameRulesExactly(env, k);
    }
    hide FdeRules;
  }

  lemma SameRulesExactly(env: Env, k: nat)
    ensures FdeRules(Exactly(env), k) == FdeRules(env, k) && DepthOf(Exactly(env), k) == DepthOf(env, k)
  {
    hide Run;
  }

  ghost function FullRule(env: Env, k: nat, rule: Rule, regs: Regs, g: Heap): (r: Option<(Heap, seq<Patch>)>)
    requires Nested(env) && Descends(env, k, rule) && g.moved.Keys <= AllKeys()
    ensures r.Some? ==> Grows(g, r.value.0) && r.value.0.moved.Keys <= AllKeys()
  {
    NestedExactly(env);
    GenRule(Exactly(env), k, rule, regs, g)
  }

  ghost function FullRules(env: Env, k: nat, rs: Rules, regs: Regs, g: Heap): (r: Option<(Heap, seq<Patch>)>)
    requires Nested(env) && (forall e :: e in rs ==> Descends(env, k, e.value)) && g.moved.Keys <= AllKeys()
    ensures r.Some? ==> Grows(g, r.value.0) && r.value.0.moved.Keys <= AllKeys()
  {
    NestedExactly(env);
    GenRules(Exactly(env), k, rs, regs, g)
  }

  ghost function FullFde(env: Env, k: nat, regs: Regs, g: Heap): (r: Option<(Heap, seq<Patch>)>)
    requires Nested(env) && g.moved.Keys <= AllKeys()
    ensures r.Some? ==> Grows(g, r.value.0) && r.value.0.moved.Keys <= AllKeys()
  {
    NestedExactly(env);
    GenFde(Exactly(env), k, regs, g)
  }

  /** The addresses that a memo of whole addresses has a record for. */
  ghost function Known(g: Heap): set<word> { set p: word | 0 <= p < WORD && WholeKey(p) in g.moved }

  // ----- how the two memos correspond -----

  predicate Under(env: Env, g: Heap, h: Heap, p: word)
    requires WholeKey(p) in g.moved
  {
    g.moved[WholeKey(p)].old_ == p && KeyOf(env, p) in h.moved && h.moved[KeyOf(env, p)] == g.moved[WholeKey(p)]
  }

  predicate Whole(env: Env, g: Heap, h: Heap, key: Key)
    requires key in h.moved
  {
    WholeKey(h.moved[key].old_) in g.moved && KeyOf(env, h.moved[key].old_) == key
  }

  /** h is what g looks like through the keys, and nothing is lost. */
  ghost predicate Image(env: Env, g: Heap, h: Heap)
  {
    && h.blocks == g.blocks && h.moved.Keys <= AllKeys() && g.moved.Keys <= AllKeys()
    && (forall p :: WholeKey(p) in g.moved ==> Under(env, g, h, p))
    && forall key :: key in h.moved ==> Whole(env, g, h, key)
  }

  /** No two addresses are taken for each other. */
  ghost predicate KeysDiffer(env: Env, ps: set<word>)
  {
    forall p, q :: p in ps && q in ps && KeyOf(env, p) == KeyOf(env, q) ==> p == q
  }

  lemma WholeKeys()
    ensures forall p: word, q: word :: WholeKey(p) == WholeKey(q) ==> p == q
    ensures forall p: word :: WholeKey(p) in AllKeys()
  {
    forall p: word, q: word | WholeKey(p) == WholeKey(q) ensures p == q { HalvesTell(p, q); }
    forall p: word ensures WholeKey(p) in AllKeys() { InKeys(p); }
  }

  lemma HalvesTell(p: word, q: word)
    requires WholeKey(p) == WholeKey(q)
    ensures p == q
  {
    assert p == p / HALF_WORD * HALF_WORD + p % HALF_WORD;
    assert q == q / HALF_WORD * HALF_WORD + q % HALF_WORD;
  }

  lemma InKeys(p: word)
    ensures WholeKey(p) in AllKeys()
  {
  }

  /** What dataMoved holds so far, by whole addresses. */
  ghost function FullOf(env: Env, h: Heap): (g: Heap)
    ensures g.moved.Keys <= AllKeys()
  {
    WholeKeys();
    Heap(map p: word | 0 <= p < WORD && KeyOf(env, p) in h.moved && h.moved[KeyOf(env, p)].old_ == p ::
           WholeKey(p) := h.moved[KeyOf(env, p)], h.blocks)
  }

  lemma FullOfImage(env: Env, image: Block, h: Heap)
    requires HeapOk(env, image, h)
    ensures Image(env, FullOf(env, h), h)
  {
    forall key | key in h.moved ensures Whole(env, FullOf(env, h), h, key) { assert MoveOk(env, h, key); }
  }

  lemma ImageKeysDiffer(env: Env, g: Heap, h: Heap)
    requires Image(env, g, h)
    ensures KeysDiffer(env, Known(g))
  {
    forall p, q | WholeKey(p) in g.moved && WholeKey(q) in g.moved && KeyOf(env, p) == KeyOf(env, q) ensures p == q {
      assert Under(env, g, h, p) && Under(env, g, h, q);
    }
  }

  lemma ImageUnder(env: Env, g: Heap, h: Heap, p: word)
    requires Image(env, g, h) && WholeKey(p) in g.moved
    ensures Under(env, g, h, p)
  {
  }

  lemma NotYet(env: Env, g: Heap, h: Heap, p: word)
    requires Image(env, g, h)
    ensures WholeKey(p) in g.moved ==> KeyOf(env, p) in h.moved
  {
    assert WholeKey(p) in g.moved ==> Under(env, g, h, p);
  }

  /** A key that is known belongs to an address that is known. */
  lemma NewKey(env: Env, g: Heap, h: Heap, p: word, qs: set<word>)
    requires Image(env, g, h) && KeysDiffer(env, qs) && Known(g) <= qs && p in qs
    ensures KeyOf(env, p) in h.moved ==> WholeKey(p) in g.moved
  {
    var key := KeyOf(env, p);
    assert key in h.moved ==> Whole(env, g, h, key) && h.moved[key].old_ in qs;
  }

  /** Placing an object keeps the correspondence when its key is new. */
  lemma PlaceImage(env: Env, p: word, k: nat, g: Heap, h: Heap)
    requires Image(env, g, h) && KeyOf(env, p) !in h.moved
    ensures WholeKey(p) !in g.moved
    ensures Place(env, p, k, h).Some? <==> Place(Exactly(env), p, k, g).Some?
    ensures Place(env, p, k, h).Some? ==>
      var ((to, h1), (to', g1)) := (Place(env, p, k, h).value, Place(Exactly(env), p, k, g).value);
      to == to' && Image(env, g1, h1) && Known(g1) == Known(g) + {p} && g1.moved[WholeKey(p)].fde == k && RegsOf(g1.moved[WholeKey(p)]) == Regs(p, to)
  {
    NotYet(env, g, h, p);
    ImageBlocks(env, g, h);
    hide Image, Known, WholeKey;
    if Place(env, p, k, h).Some? {
      var ((to, h1), (to', g1)) := (Place(env, p, k, h).value, Place(Exactly(env), p, k, g).value);
      PlaceExactly(env, p, k, g);
      ImageWith(env, p, g, h, h1.moved[KeyOf(env, p)], h1.blocks);
    }
  }

  lemma ImageBlocks(env: Env, g: Heap, h: Heap)
    requires Image(env, g, h)
    ensures h.blocks == g.blocks
  {
  }

  /** A record for an address whose key is new. */
  lemma ImageWith(env: Env, p: word, g: Heap, h: Heap, m: Move, blocks: seq<Block>)
    requires Image(env, g, h) && KeyOf(env, p) !in h.moved && m.old_ == p
    ensures Image(env, Heap(g.moved[WholeKey(p) := m], blocks), Heap(h.moved[KeyOf(env, p) := m], blocks))
  {
    var (g1, h1) := (Heap(g.moved[WholeKey(p) := m], blocks), Heap(h.moved[KeyOf(env, p) := m], blocks));
    WholeKeys();
    assert KeyOf(env, p) in AllKeys();
    hide AllKeys, KeyOf, WholeKey;
    forall q: word | WholeKey(q) in g1.moved ensures Under(env, g1, h1, q) {
      if q != p { assert Under(env, g, h, q); }
    }
    forall key | key in h1.moved ensures Whole(env, g1, h1, key) {
      if key != KeyOf(env, p) { assert Whole(env, g, h, key); }
    }
  }

  /** What a pointer leads to when whole addresses are compared. */
  lemma FullPointerRule(env: Env, k: nat, rule: Rule, regs: Regs, g: Heap, p: word, a: word)
    requires Nested(env) && Descends(env, k, rule) && g.moved.Keys <= AllKeys() && rule.kind.RecurseFixupPointer?
    requires ReadPointer(env, rule.rh, regs) == Some(p) && p != 0 && ResolveTarget(rule.lh, regs) == Some(a)
    ensures WholeKey(p) in g.moved ==>
              FullRule(env, k, rule, regs, g) == Some((g, [Patch(a, ToBytes(g.moved[WholeKey(p)].new_, 8))]))
    ensures WholeKey(p) !in g.moved && Place(Exactly(env), p, rule.index, g).None? ==> FullRule(env, k, rule, regs, g) == None
    ensures WholeKey(p) !in g.moved && Place(Exactly(env), p, rule.index, g).Some? ==>
              var (to, g1) := Place(Exactly(env), p, rule.index, g).value;
              && g1.moved.Keys <= AllKeys() && AllKeys() - g1.moved.Keys < AllKeys() - g.moved.Keys
              && Known(g1) == Known(g) + {p}
              && FullRule(env, k, rule, regs, g) == PatchFirst(Patch(a, ToBytes(to, 8)), FullFde(env, rule.index, Regs(p, to), g1))
  {
    NestedExactly(env);
    SameReads(env, rule, regs);
    hide GenRule, GenFde, Nested, ReadPointer, ResolveTarget, ToBytes;
    PointerRule(Exactly(env), k, rule, regs, g, p, a);
    if WholeKey(p) !in g.moved && Place(Exactly(env), p, rule.index, g).Some? { PlaceExactly(env, p, rule.index, g); }
  }

  lemma SameReads(env: Env, rule: Rule, regs: Regs)
    ensures ReadPointer(Exactly(env), rule.rh, regs) == ReadPointer(env, rule.rh, regs)
    ensures ResolveBytes(Exactly(env), rule.rh, regs) == ResolveBytes(env, rule.rh, regs)
    ensures ResolveAddress(Exactly(env), rule.rh, regs) == ResolveAddress(env, rule.rh, regs)
    ensures ResolveTarget(rule.lh, regs).Some? ==>
              && rule.lh.CurrTargNew?
              && var size := if rule.lh.size != 0 then rule.lh.size else 8;
                 DereferenceAt(Exactly(env), Some(rule.offset % WORD), size) == DereferenceAt(env, Some(rule.offset % WORD), size)
  {
    hide ReadMemory, Displaced, ToBytes, Unsigned;
  }

  lemma PlaceExactly(env: Env, p: word, k: nat, g: Heap)
    requires Place(Exactly(env), p, k, g).Some? && WholeKey(p) !in g.moved
    ensures var (to, g1) := Place(Exactly(env), p, k, g).value;
      && WholeKey(p) in g1.moved && g1.moved[WholeKey(p)].fde == k && RegsOf(g1.moved[WholeKey(p)]) == Regs(p, to)
      && Grows(g, g1) && Known(g1) == Known(g) + {p}
  {
    PlaceMoves(Exactly(env), p, k, g);
    var (to, g1) := Place(Exactly(env), p, k, g).value;
    hide Place;
    WholeKeys();
    assert forall q: word :: WholeKey(q) in g1.moved <==> WholeKey(q) in g.moved || q == p;
  }

  // ----- no two taken for each other: the generators agree -----

  lemma SameRule(env: Env, k: nat, rule: Rule, regs: Regs, g: Heap, h: Heap)
    requires Nested(env) && Descends(env, k, rule) && Image(env, g, h)
    requires FullRule(env, k, rule, regs, g).Some? && KeysDiffer(env, Known(FullRule(env, k, rule, regs, g).value.0))
    ensures var r := GenRule(env, k, rule, regs, h);
      && r.Some? && r.value.1 == FullRule(env, k, rule, regs, g).value.1
      && Image(env, FullRule(env, k, rule, regs, g).value.0, r.value.0)
    decreases AllKeys() - g.moved.Keys, DepthOf(env, k), 0, 1
  {
    NestedExactly(env);
    SameReads(env, rule, regs);
    hide Image, KeysDiffer, Known, Nested, ReadPointer, ResolveAddress, ResolveBytes, DereferenceAt, ResolveTarget, ToBytes;
    if rule.kind.RecurseFixup? {
      var o, a := ResolveAddress(env, rule.rh, regs).value, ResolveTarget(rule.lh, regs).value;
      SameFde(env, rule.index, Regs(o, a), g, h);
    } else if rule.kind.RecurseFixupPointer? {
      var p := ReadPointer(env, rule.rh, regs).value;
      if p != 0 {
        SamePointer(env, k, rule, regs, g, h, p, ResolveTarget(rule.lh, regs).value);
      }
    }
  }

  lemma SamePointer(env: Env, k: nat, rule: Rule, regs: Regs, g: Heap, h: Heap, p: word, a: word)
    requires Nested(env) && Descends(env, k, rule) && Image(env, g, h) && rule.kind.RecurseFixupPointer?
    requires ReadPointer(env, rule.rh, regs) == Some(p) && p != 0 && ResolveTarget(rule.lh, regs) == Some(a)
    requires FullRule(env, k, rule, regs, g).Some? && KeysDiffer(env, Known(FullRule(env, k, rule, regs, g).value.0))
    ensures var r := GenRule(env, k, rule, regs, h);
      && r.Some? && r.value.1 == FullRule(env, k, rule, regs, g).value.1
      && Image(env, FullRule(env, k, rule, regs, g).value.0, r.value.0)
    decreases AllKeys() - g.moved.Keys, DepthOf(env, k), 0, 0
  {
    ImageKeys(env, g, h);
    hide GenRule, FullRule, GenFde, FullFde, Place, Image, KeysDiffer, Nested, ReadPointer, ResolveTarget, ToBytes;
    FullPointerRule(env, k, rule, regs, g, p, a);
    PointerRule(env, k, rule, regs, h, p, a);
    if WholeKey(p) in g.moved {
      ImageUnder(env, g, h, p);
    } else {
      var (to, g1) := Place(Exactly(env), p, rule.index, g).value;
      var g2 := FullFde(env, rule.index, Regs(p, to), g1).value.0;
      KnownGrows(g1, g2);
      NewKey(env, g, h, p, Known(g2));
      PlaceImage(env, p, rule.index, g, h);
      SameFde(env, rule.index, Regs(p, to), g1, Place(env, p, rule.index, h).value.1);
    }
  }

  lemma KnownGrows(g: Heap, g': Heap)
    requires Grows(g, g')
    ensures Known(g) <= Known(g')
  {
  }

  lemma SameRules(env: Env, k: nat, rs: Rules, regs: Regs, g: Heap, h: Heap)
    requires Nested(env) && (forall e :: e in rs ==> Descends(env, k, e.value)) && Image(env, g, h)
    requires FullRules(env, k, rs, regs, g).Some? && KeysDiffer(env, Known(FullRules(env, k, rs, regs, g).value.0))
    ensures var r := GenRules(env, k, rs, regs, h);
      && r.Some? && r.value.1 == FullRules(env, k, rs, regs, g).value.1
      && Image(env, FullRules(env, k, rs, regs, g).value.0, r.value.0)
    decreases AllKeys() - g.moved.Keys, DepthOf(env, k), 1, |rs|
  {
    if rs != [] {
      hide GenRule, Image;
      var g1 := FullRule(env, k, rs[0].value, regs, g).value.0;
      var g2 := FullRules(env, k, rs[1..], regs, g1).value.0;
      FewerDiffer(env, Known(g1), Known(g2));
      SameRule(env, k, rs[0].value, regs, g, h);
      SameRules(env, k, rs[1..], regs, g1, GenRule(env, k, rs[0].value, regs, h).value.0);
    }
  }

  lemma FewerDiffer(env: Env, ps: set<word>, qs: set<word>)
    requires KeysDiffer(env, qs) && ps <= qs
    ensures KeysDiffer(env, ps)
  {
  }

  lemma SameFde(env: Env, k: nat, regs: Regs, g: Heap, h: Heap)
    requires Nested(env) && Image(env, g, h)
    requires FullFde(env, k, regs, g).Some? && KeysDiffer(env, Known(FullFde(env, k, regs, g).value.0))
    ensures var r := GenFde(env, k, regs, h);
      && r.Some? && r.value.1 == FullFde(env, k, regs, g).value.1
      && Image(env, FullFde(env, k, regs, g).value.0, r.value.0)
    decreases AllKeys() - g.moved.Keys, DepthOf(env, k), 2, 0
  {
    SameRules(env, k, FdeRules(env, k).value, regs, g, h);
  }

  // ----- the pointers that are followed -----

  /** Every pointer that the rule follows, if it is not null, is one of ps. */
  ghost predicate RuleFollows(env: Env, k: nat, rule: Rule, regs: Regs, ps: set<word>)
    requires Nested(env) && Descends(env, k, rule)
    decreases DepthOf(env, k), 0
  {
    match rule.kind
    case RecurseFixup =>
      ResolveAddress(env, rule.rh, regs).Some? && ResolveTarget(rule.lh, regs).Some? ==>
        ObjectFollows(env, rule.index, Regs(ResolveAddress(env, rule.rh, regs).value, ResolveTarget(rule.lh, regs).value), ps)
    case RecurseFixupPointer =>
      var p := ReadPointer(env, rule.rh, regs);
      p.Some? && p.value != 0 ==> p.value in ps
    case _ => true
  }

  /** ... of an object, the objects nested in it included. */
  ghost predicate ObjectFollows(env: Env, k: nat, regs: Regs, ps: set<word>)
    requires Nested(env)
    decreases DepthOf(env, k), 1
  {
    FdeRules(env, k).Some? ==> forall e :: e in FdeRules(env, k).value ==> RuleFollows(env, k, e.value, regs, ps)
  }

  ghost predicate MoveFollows(env: Env, m: Move, ps: set<word>)
    requires Nested(env)
  {
    ObjectFollows(env, m.fde, RegsOf(m), ps)
  }

  ghost predicate NewFollow(env: Env, g: Heap, g': Heap, ps: set<word>)
    requires Nested(env)
  {
    forall p :: WholeKey(p) in g'.moved && WholeKey(p) !in g.moved ==> MoveFollows(env, g'.moved[WholeKey(p)], ps)
  }

  lemma NewFollowJoin(env: Env, g: Heap, g1: Heap, g2: Heap, ps: set<word>)
    requires Nested(env) && Grows(g1, g2) && NewFollow(env, g, g1, ps) && NewFollow(env, g1, g2, ps)
    ensures NewFollow(env, g, g2, ps)
  {
    hide MoveFollows;
  }

  /** Everything that is followed is remembered. */
  lemma FollowRule(env: Env, k: nat, rule: Rule, regs: Regs, g: Heap, ps: set<word>)
    requires Nested(env) && g.moved.Keys <= AllKeys() && Descends(env, k, rule)
    requires FullRule(env, k, rule, regs, g).Some? && Known(FullRule(env, k, rule, regs, g).value.0) <= ps
    ensures RuleFollows(env, k, rule, regs, ps) && NewFollow(env, g, FullRule(env, k, rule, regs, g).value.0, ps)
    decreases AllKeys() - g.moved.Keys, DepthOf(env, k), 0, 1
  {
    NoneFollow(env, g, ps);
    NestedExactly(env);
    SameReads(env, rule, regs);
    hide NewFollow, ObjectFollows, Known, Nested, ReadPointer, ResolveAddress, ResolveBytes, DereferenceAt, ResolveTarget, ToBytes;
    if rule.kind.RecurseFixup? {
      var o, a := ResolveAddress(env, rule.rh, regs).value, ResolveTarget(rule.lh, regs).value;
      FollowFde(env, rule.index, Regs(o, a), g, ps);
    } else if rule.kind.RecurseFixupPointer? {
      var p := ReadPointer(env, rule.rh, regs).value;
      if p != 0 { FollowPointer(env, k, rule, regs, g, p, ResolveTarget(rule.lh, regs).value, ps); }
    }
  }

  lemma FollowPointer(env: Env, k: nat, rule: Rule, regs: Regs, g: Heap, p: word, a: word, ps: set<word>)
    requires Nested(env) && g.moved.Keys <= AllKeys() && Descends(env, k, rule) && rule.kind.RecurseFixupPointer?
    requires ReadPointer(env, rule.rh, regs) == Some(p) && p != 0 && ResolveTarget(rule.lh, regs) == Some(a)
    requires FullRule(env, k, rule, regs, g).Some? && Known(FullRule(env, k, rule, regs, g).value.0) <= ps
    ensures p in ps && NewFollow(env, g, FullRule(env, k, rule, regs, g).value.0, ps)
    decreases AllKeys() - g.moved.Keys, DepthOf(env, k), 0, 0
  {
    NoneFollow(env, g, ps);
    KnownIs(g, p);
    hide FullRule, FullFde, Place, NewFollow, ObjectFollows, Known, Nested, ReadPointer, ResolveTarget, ToBytes;
    FullPointerRule(env, k, rule, regs, g, p, a);
    if WholeKey(p) !in g.moved {
      var (to, g1) := Place(Exactly(env), p, rule.index, g).value;
      PlaceExactly(env, p, rule.index, g);
      var g2 := FullFde(env, rule.index, Regs(p, to), g1).value.0;
      FollowFde(env, rule.index, Regs(p, to), g1, ps);
      OneFollows(env, g, g1, p, ps);
      NewFollowJoin(env, g, g1, g2, ps);
      KnownGrows(g1, g2);
    }
  }

  lemma KnownIs(g: Heap, p: word)
    ensures p in Known(g) <==> WholeKey(p) in g.moved
  {
  }

  lemma NoneFollow(env: Env, g: Heap, ps: set<word>)
    requires Nested(env)
    ensures NewFollow(env, g, g, ps)
  {
  }

  lemma OneFollows(env: Env, g: Heap, g1: Heap, p: word, ps: set<word>)
    requires Nested(env) && Known(g1) == Known(g) + {p} && WholeKey(p) in g1.moved && MoveFollows(env, g1.moved[WholeKey(p)], ps)
    ensures NewFollow(env, g, g1, ps)
  {
    hide MoveFollows;
    forall q | WholeKey(q) in g1.moved && WholeKey(q) !in g.moved ensures MoveFollows(env, g1.moved[WholeKey(q)], ps) {
      assert q in Known(g1) && q !in Known(g);
    }
  }

  lemma FollowRules(env: Env, k: nat, rs: Rules, regs: Regs, g: Heap, ps: set<word>)
    requires Nested(env) && g.moved.Keys <= AllKeys() && (forall e :: e in rs ==> Descends(env, k, e.value))
    requires FullRules(env, k, rs, regs, g).Some? && Known(FullRules(env, k, rs, regs, g).value.0) <= ps
    ensures forall e :: e in rs ==> RuleFollows(env, k, e.value, regs, ps)
    ensures NewFollow(env, g, FullRules(env, k, rs, regs, g).value.0, ps)
    decreases AllKeys() - g.moved.Keys, DepthOf(env, k), 1, |rs|
  {
    hide NewFollow, RuleFollows, GenRule;
    if rs == [] {
      NoneFollow(env, g, ps);
    } else {
      var g1 := FullRule(env, k, rs[0].value, regs, g).value.0;
      var g2 := FullRules(env, k, rs[1..], regs, g1).value.0;
      assert Known(g1) <= Known(g2);
      FollowRule(env, k, rs[0].value, regs, g, ps);
      FollowRules(env, k, rs[1..], regs, g1, ps);
      NewFollowJoin(env, g, g1, g2, ps);
    }
  }

  lemma FollowFde(env: Env, k: nat, regs: Regs, g: Heap, ps: set<word>)
    requires Nested(env) && g.moved.Keys <= AllKeys() && FullFde(env, k, regs, g).Some? && Known(FullFde(env, k, regs, g).value.0) <= ps
    ensures ObjectFollows(env, k, regs, ps) && NewFollow(env, g, FullFde(env, k, regs, g).value.0, ps)
    decreases AllKeys() - g.moved.Keys, DepthOf(env, k), 2, 0
  {
    hide NewFollow, RuleFollows;
    FollowRules(env, k, FdeRules(env, k).value, regs, g, ps);
  }

  // ----- every pointer its own target: the generators agree -----

  /** The addresses that dataMoved has a record of their own for. */
  ghost function Own(env: Env, moves: Moves): set<word>
  {
    set p: word | 0 <= p < WORD && KeyOf(env, p) in moves && moves[KeyOf(env, p)].old_ == p
  }

  ghost predicate NewOwn(env: Env, h: Heap, h': Heap, moves: Moves)
    requires Nested(env)
  {
    forall key :: IsNew(h, h', key) ==> MoveFollows(env, h'.moved[key], Own(env, moves))
  }

  lemma NewOwnParts(env: Env, h: Heap, h1: Heap, h2: Heap, moves: Moves)
    requires Nested(env) && Grows(h, h1) && Grows(h1, h2) && NewOwn(env, h, h2, moves)
    ensures NewOwn(env, h, h1, moves) && NewOwn(env, h1, h2, moves)
  {
    hide MoveFollows, Own;
    forall key | IsNew(h, h1, key) ensures MoveFollows(env, h1.moved[key], Own(env, moves)) { assert IsNew(h, h2, key); }
    forall key | IsNew(h1, h2, key) ensures MoveFollows(env, h2.moved[key], Own(env, moves)) { assert IsNew(h, h2, key); }
  }

  lemma BackRule(env: Env, k: nat, rule: Rule, regs: Regs, g: Heap, h: Heap, moves: Moves)
    requires Nested(env) && Descends(env, k, rule) && Image(env, g, h)
    requires GenRule(env, k, rule, regs, h).Some? && Extends(GenRule(env, k, rule, regs, h).value.0, moves)
    requires RuleFollows(env, k, rule, regs, Own(env, moves)) && NewOwn(env, h, GenRule(env, k, rule, regs, h).value.0, moves)
    ensures var r := FullRule(env, k, rule, regs, g);
      && r.Some? && r.value.1 == GenRule(env, k, rule, regs, h).value.1
      && Image(env, r.value.0, GenRule(env, k, rule, regs, h).value.0)
    decreases AllKeys() - h.moved.Keys, DepthOf(env, k), 0, 1
  {
    ImageKeys(env, g, h);
    NestedExactly(env);
    SameReads(env, rule, regs);
    hide Image, NewOwn, Own, Extends, Nested, ReadPointer, ResolveAddress, ResolveBytes, DereferenceAt, ResolveTarget, ToBytes;
    if rule.kind.RecurseFixup? {
      var o, a := FixupResult(env, k, rule, regs, h);
      BackFde(env, rule.index, Regs(o, a), g, h, moves);
    } else if rule.kind.RecurseFixupPointer? {
      var p := ReadPointer(env, rule.rh, regs).value;
      if p != 0 {
        BackPointer(env, k, rule, regs, g, h, moves, p, ResolveTarget(rule.lh, regs).value);
      }
    }
  }

  lemma BackPointer(env: Env, k: nat, rule: Rule, regs: Regs, g: Heap, h: Heap, moves: Moves, p: word, a: word)
    requires Nested(env) && Descends(env, k, rule) && Image(env, g, h) && rule.kind.RecurseFixupPointer?
    requires ReadPointer(env, rule.rh, regs) == Some(p) && p != 0 && ResolveTarget(rule.lh, regs) == Some(a)
    requires GenRule(env, k, rule, regs, h).Some? && Extends(GenRule(env, k, rule, regs, h).value.0, moves)
    requires p in Own(env, moves) && NewOwn(env, h, GenRule(env, k, rule, regs, h).value.0, moves)
    ensures var r := FullRule(env, k, rule, regs, g);
      && r.Some? && r.value.1 == GenRule(env, k, rule, regs, h).value.1
      && Image(env, r.value.0, GenRule(env, k, rule, regs, h).value.0)
    decreases AllKeys() - h.moved.Keys, DepthOf(env, k), 0, 0
  {
    ImageKeys(env, g, h);
    hide GenRule, FullRule, GenFde, FullFde, Place, Image, Own, NewOwn, Extends, Nested, ReadPointer, ResolveTarget, ToBytes;
    FullPointerRule(env, k, rule, regs, g, p, a);
    PointerRule(env, k, rule, regs, h, p, a);
    if KeyOf(env, p) in h.moved {
      OwnIsKnown(env, g, h, p, moves);
      ImageUnder(env, g, h, p);
    } else {
      PlaceImage(env, p, rule.index, g, h);
      PlaceMoves(env, p, rule.index, h);
      var (to, h1) := Place(env, p, rule.index, h).value;
      NewOwnParts(env, h, h1, GenRule(env, k, rule, regs, h).value.0, moves);
      OwnMove(env, h, h1, KeyOf(env, p), moves);
      BackFde(env, rule.index, Regs(p, to), Place(Exactly(env), p, rule.index, g).value.1, h1, moves);
    }
  }

  lemma OwnIsKnown(env: Env, g: Heap, h: Heap, p: word, moves: Moves)
    requires Image(env, g, h) && Extends(h, moves) && p in Own(env, moves) && KeyOf(env, p) in h.moved
    ensures WholeKey(p) in g.moved
  {
    assert Whole(env, g, h, KeyOf(env, p));
  }

  lemma OwnMove(env: Env, h: Heap, h1: Heap, key: Key, moves: Moves)
    requires Nested(env) && NewOwn(env, h, h1, moves) && key in h1.moved && key !in h.moved
    ensures ObjectFollows(env, h1.moved[key].fde, RegsOf(h1.moved[key]), Own(env, moves))
  {
    hide ObjectFollows, Own;
    assert IsNew(h, h1, key);
    assert MoveFollows(env, h1.moved[key], Own(env, moves));
  }

  lemma BackRules(env: Env, k: nat, rs: Rules, regs: Regs, g: Heap, h: Heap, moves: Moves)
    requires Nested(env) && (forall e :: e in rs ==> Descends(env, k, e.value)) && Image(env, g, h)
    requires GenRules(env, k, rs, regs, h).Some? && Extends(GenRules(env, k, rs, regs, h).value.0, moves)
    requires forall e :: e in rs ==> RuleFollows(env, k, e.value, regs, Own(env, moves))
    requires NewOwn(env, h, GenRules(env, k, rs, regs, h).value.0, moves)
    ensures var r := FullRules(env, k, rs, regs, g);
      && r.Some? && r.value.1 == GenRules(env, k, rs, regs, h).value.1
      && Image(env, r.value.0, GenRules(env, k, rs, regs, h).value.0)
    decreases AllKeys() - h.moved.Keys, DepthOf(env, k), 1, |rs|
  {
    if rs != [] {
      hide FullRule, GenRule, Image, Own, NewOwn, RuleFollows;
      var h1 := GenRule(env, k, rs[0].value, regs, h).value.0;
      var h2 := GenRules(env, k, rs[1..], regs, h1).value.0;
      NewOwnParts(env, h, h1, h2, moves);
      ExtendsLess(h1, h2, moves);
      ImageKeys(env, g, h);
      BackRule(env, k, rs[0].value, regs, g, h, moves);
      BackRules(env, k, rs[1..], regs, FullRule(env, k, rs[0].value, regs, g).value.0, h1, moves);
    }
  }

  lemma ImageKeys(env: Env, g: Heap, h: Heap)
    requires Image(env, g, h)
    ensures h.moved.Keys <= AllKeys() && g.moved.Keys <= AllKeys()
  {
  }

  lemma ExtendsLess(h1: Heap, h2: Heap, moves: Moves)
    requires Grows(h1, h2) && Extends(h2, moves)
    ensures Extends(h1, moves)
  {
  }

  lemma BackFde(env: Env, k: nat, regs: Regs, g: Heap, h: Heap, moves: Moves)
    requires Nested(env) && Image(env, g, h)
    requires GenFde(env, k, regs, h).Some? && Extends(GenFde(env, k, regs, h).value.0, moves)
    requires ObjectFollows(env, k, regs, Own(env, moves)) && NewOwn(env, h, GenFde(env, k, regs, h).value.0, moves)
    ensures var r := FullFde(env, k, regs, g);
      && r.Some? && r.value.1 == GenFde(env, k, regs, h).value.1
      && Image(env, r.value.0, GenFde(env, k, regs, h).value.0)
    decreases AllKeys() - h.moved.Keys, DepthOf(env, k), 2, 0
  {
    hide Image, Own, NewOwn, RuleFollows;
    BackRules(env, k, FdeRules(env, k).value, regs, g, h, moves);
  }

  // ----- one call -----

  /** Every pointer followed by the variable and by the objects moved on its behalf has a record
      of its own: it is given the new address of what it points to. */
  ghost predicate OwnAll(env: Env, root: Object, h: Heap, h': Heap)
    requires Nested(env)
  {
    ObjectFollows(env, root.fde, root.regs, Own(env, h'.moved)) && NewOwn(env, h, h', h'.moved)
  }

  lemma MoreFollows(env: Env, k: nat, regs: Regs, ps: set<word>, qs: set<word>)
    requires Nested(env) && ObjectFollows(env, k, regs, ps) && ps <= qs
    ensures ObjectFollows(env, k, regs, qs)
    decreases DepthOf(env, k)
  {
    if FdeRules(env, k).Some? {
      forall e | e in FdeRules(env, k).value ensures RuleFollows(env, k, e.value, regs, qs) {
        var rule := e.value;
        assert RuleFollows(env, k, rule, regs, ps);
        if rule.kind.RecurseFixup? && ResolveAddress(env, rule.rh, regs).Some? && ResolveTarget(rule.lh, regs).Some? {
          MoreFollows(env, rule.index, Regs(ResolveAddress(env, rule.rh, regs).value, ResolveTarget(rule.lh, regs).value), ps, qs);
        }
      }
    }
  }

  lemma ImageOwn(env: Env, g: Heap, h: Heap)
    requires Image(env, g, h)
    ensures Known(g) <= Own(env, h.moved)
  {
    forall p | WholeKey(p) in g.moved ensures p in Own(env, h.moved) { assert Under(env, g, h, p); }
  }

  lemma NewOwnFrom(env: Env, g: Heap, g': Heap, h: Heap, h': Heap)
    requires Nested(env) && Image(env, g, h) && Image(env, g', h') && NewFollow(env, g, g', Known(g'))
    ensures NewOwn(env, h, h', h'.moved)
  {
    hide ObjectFollows;
    ImageOwn(env, g', h');
    forall key | IsNew(h, h', key) ensures MoveFollows(env, h'.moved[key], Own(env, h'.moved)) {
      assert Whole(env, g', h', key);
      var p := h'.moved[key].old_;
      assert Under(env, g', h', p);
      NotYet(env, g, h, p);
      MoreFollows(env, h'.moved[key].fde, RegsOf(h'.moved[key]), Known(g'), Own(env, h'.moved));
    }
  }

  /** If no two of the addresses are taken for each other, patches are generated as they would be
      with whole addresses, and every pointer is given the new address of its own target. */
  lemma SameRun(env: Env, image: Block, root: Object, h: Heap)
    requires Nested(env) && HeapOk(env, image, h) && FullFde(env, root.fde, root.regs, FullOf(env, h)).Some?
    requires KeysDiffer(env, Known(FullFde(env, root.fde, root.regs, FullOf(env, h)).value.0))
    ensures var (g', ps) := FullFde(env, root.fde, root.regs, FullOf(env, h)).value;
      && h.moved.Keys <= AllKeys() && GenFde(env, root.fde, root.regs, h).Some?
      && var r := GenFde(env, root.fde, root.regs, h).value;
         r.1 == ps && Image(env, g', r.0) && OwnAll(env, root, h, r.0)
  {
    hide *;
    var g := FullOf(env, h);
    var g' := FullFde(env, root.fde, root.regs, g).value.0;
    FullOfImage(env, image, h);
    ImageKeys(env, g, h);
    SameFde(env, root.fde, root.regs, g, h);
    var h' := GenFde(env, root.fde, root.regs, h).value.0;
    FollowFde(env, root.fde, root.regs, g, Known(g'));
    NewOwnFrom(env, g, g', h, h');
    ImageOwn(env, g', h');
    MoreFollows(env, root.fde, root.regs, Known(g'), Own(env, h'.moved));
    OwnAllIs(env, root, h, h');
  }

  lemma OwnAllIs(env: Env, root: Object, h: Heap, h': Heap)
    requires Nested(env)
    ensures OwnAll(env, root, h, h')
       <==> ObjectFollows(env, root.fde, root.regs, Own(env, h'.moved)) && NewOwn(env, h, h', h'.moved)
  {
  }

  /** Main result: every pointer is given the new address of its own target exactly when no two of
      the addresses known before and of the pointers followed are taken for each other.  The
      pointers followed are those that a memo of whole addresses follows, so the condition is one
      about the old heap and can be checked before anything is patched. */
  lemma OwnTargetsIff(env: Env, image: Block, root: Object, h: Heap)
    requires Nested(env) && HeapOk(env, image, h) && h.moved.Keys <= AllKeys() && GenFde(env, root.fde, root.regs, h).Some?
    ensures OwnAll(env, root, h, GenFde(env, root.fde, root.regs, h).value.0) <==> OwnCondition(env, root, h)
  {
    hide *;
    OwnConditionIs(env, root, h);
    var g := FullOf(env, h);
    var r := FullFde(env, root.fde, root.regs, g);
    var h' := GenFde(env, root.fde, root.regs, h).value.0;
    FullOfImage(env, image, h);
    OwnAllIs(env, root, h, h');
    ExtendsSelf(h');
    if OwnAll(env, root, h, h') {
      BackFde(env, root.fde, root.regs, g, h, h'.moved);
      ImageKeysDiffer(env, r.value.0, h');
    }
    if r.Some? && KeysDiffer(env, Known(r.value.0)) {
      SameRun(env, image, root, h);
    }
  }

  // ----- sharing -----

  /** The new object that p leads to has at least one byte. */
  predicate NotEmpty(env: Env, moves: Moves, p: word)
  {
    KeyOf(env, p) in moves && MemSize(env, moves[KeyOf(env, p)].fde) > 0
  }

  /** Pointers to objects with at least one byte are equal afterwards exactly when they were
      equal before, and not null. */
  ghost predicate SharingKept(env: Env, moves: Moves)
  {
    forall p, q :: p in Own(env, moves) && q in Own(env, moves) && NotEmpty(env, moves, p) && NotEmpty(env, moves, q) ==>
      && NewPointer(env, p, moves) != Some(0)
      && (NewPointer(env, p, moves) == NewPointer(env, q, moves) <==> p == q)
  }

  lemma Shared(env: Env, image: Block, root: Object, h: Heap)
    requires HeapOk(env, image, h) && SymbolsPlaced(env, image, SymbolObjects(root, h))
    ensures SharingKept(env, h.moved)
  {
    NoNullOwn(env, image, h);
    forall p, q | p in Own(env, h.moved) && q in Own(env, h.moved) && NotEmpty(env, h.moved, p) && NotEmpty(env, h.moved, q)
      ensures NewPointer(env, p, h.moved) != Some(0) && (NewPointer(env, p, h.moved) == NewPointer(env, q, h.moved) <==> p == q)
    {
      TwoOwn(env, image, root, h, p, q);
    }
  }

  lemma TwoOwn(env: Env, image: Block, root: Object, h: Heap, p: word, q: word)
    requires HeapOk(env, image, h) && SymbolsPlaced(env, image, SymbolObjects(root, h))
    requires p in Own(env, h.moved) && q in Own(env, h.moved) && NotEmpty(env, h.moved, p) && NotEmpty(env, h.moved, q)
    requires p != 0 && q != 0
    ensures NewPointer(env, p, h.moved) != Some(0) && (NewPointer(env, p, h.moved) == NewPointer(env, q, h.moved) <==> p == q)
  {
    var (x, y) := (KeyOf(env, p), KeyOf(env, q));
    Placed(env, image, root, h, x);
    hide HeapOk, SymbolsPlaced, SymbolObjects, KeyOf, MemSize;
    if p != q {
      assert h.moved[x].old_ != h.moved[y].old_;
      TwoMoves(env, image, root, h, x, y);
    }
  }

  lemma NoNullOwn(env: Env, image: Block, h: Heap)
    requires HeapOk(env, image, h)
    ensures 0 !in Own(env, h.moved)
  {
    if KeyOf(env, 0) in h.moved { assert MoveOk(env, h, KeyOf(env, 0)); }
  }

  /** The condition on the old heap under which no two addresses are taken for each other. */
  ghost predicate OwnCondition(env: Env, root: Object, h: Heap)
    requires Nested(env)
  {
    var r := FullFde(env, root.fde, root.regs, FullOf(env, h));
    r.Some? && KeysDiffer(env, Known(r.value.0))
  }

  /** The migration theorem with the condition: every object is the transform of its old self, every
      pointer that is not null leads to the new place of its own target, and sharing is kept. */
  lemma OwnMigration(env: Env, image: Block, root: Object, h: Heap)
    requires Nested(env) && WellLaid(env) && FreshMalloc(env, image)
    requires h.moved.Keys <= AllKeys() && HeapOk(env, image, h) && OwnCondition(env, root, h)
    ensures FullFde(env, root.fde, root.regs, FullOf(env, h)).Some? && GenFde(env, root.fde, root.regs, h).Some?
    ensures var (h', ps) := GenFde(env, root.fde, root.regs, h).value;
      && ps == FullFde(env, root.fde, root.regs, FullOf(env, h)).value.1
      && (SymbolsPlaced(env, image, SymbolObjects(root, h')) ==>
            && InSpace(ps) && VariableMigrated(env, root, h, h', env.mem, ApplyAll(env.mem, ps))
            && OwnAll(env, root, h, h') && SharingKept(env, h'.moved))
  {
    OwnConditionIs(env, root, h);
    hide *;
    SameRun(env, image, root, h);
    var (h', ps) := GenFde(env, root.fde, root.regs, h).value;
    if SymbolsPlaced(env, image, SymbolObjects(root, h')) {
      MigrationCorrect(env, image, root, h);
      Shared(env, image, root, h');
    }
  }

  lemma OwnConditionIs(env: Env, root: Object, h: Heap)
    requires Nested(env)
    ensures var r := FullFde(env, root.fde, root.regs, FullOf(env, h));
            OwnCondition(env, root, h) <==> r.Some? && KeysDiffer(env, Known(r.value.0))
  {
    hide FullFde, KeysDiffer;
  }
}
