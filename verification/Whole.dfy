/** The whole way from type transforms to the patched heap, in terms of the transforms: what the
    compiler makes of a sensible set of transforms is a valid patch, and running it makes every
    object the field-by-field transform of its old self. */
module Whole {
  import opened Bytes
  import opened Registers
  import opened TableSpec
  import opened Target
  import opened PatchVm
  import opened Migration
  import opened HeapImage
  import opened OwnTargets
  import opened PatchRun
  import opened Compiler
  import opened PatchWriter
  import opened EndToEnd

  // ----- sensible transforms -----

  function Kept(fields: seq<Field>): seq<Field>
  {
    if fields == [] then [] else (if fields[0].kind.DeleteKind? then [] else [fields[0]]) + Kept(fields[1..])
  }

  predicate ByValue(f: Field) { f.kind.RecurseKind? && !f.pointer }

  /** The field takes n bytes of the new struct. */
  ghost predicate Takes(arena: Arena, f: Field, n: nat)
  {
    if f.kind.CopyKind? then n == f.size
    else if f.pointer then n == ADDR_SIZE
    else exists y: nat :: Leads(arena, f.target, y) && y < |arena| && n == arena[y].toLength
  }

  ghost predicate FieldInside(arena: Arena, f: Field, length: nat)
  {
    f.newOffset < HALF_WORD / 2 && forall n: nat :: Takes(arena, f, n) ==> f.newOffset + n <= length
  }

  ghost predicate FieldsApart(arena: Arena, f: Field, g: Field)
  {
    && (f.size, f.newOffset) != (g.size, g.newOffset)
    && forall n: nat, m: nat :: Takes(arena, f, n) && Takes(arena, g, m) ==>
         f.newOffset + n <= g.newOffset || g.newOffset + m <= f.newOffset
  }

  /** A struct inside another is of a smaller rank. */
  ghost predicate Ranked(arena: Arena, rank: nat -> nat, u: nat, f: Field)
  {
    ByValue(f) ==> forall y: nat :: Leads(arena, f.target, y) ==> rank(y) < rank(u)
  }

  ghost predicate ValidStruct(arena: Arena, rank: nat -> nat, u: nat)
    requires u < |arena|
  {
    var fields := Kept(arena[u].fields);
    && (forall f :: f in fields ==> FieldInside(arena, f, arena[u].toLength) && Ranked(arena, rank, u, f))
    && forall i, j :: 0 <= i < j < |fields| ==> FieldsApart(arena, fields[i], fields[j])
  }

  ghost predicate ValidTransform(arena: Arena, rank: nat -> nat, u: nat)
    requires u < |arena|
  {
    var tr := arena[u];
    if tr.straight then tr.fromLength <= tr.toLength
    else match tr.category
      case Pointer => ADDR_SIZE <= tr.toLength
      case Struct => ValidStruct(arena, rank, u)
      case _ => true
  }

  /** Kept fields lie inside the new type and do not overlap, types contain each other by value
      only to a finite depth, and there are not too many of them. */
  ghost predicate ValidArena(arena: Arena, rank: nat -> nat)
  {
    |arena| < HALF_WORD && forall u: nat :: u < |arena| ==> ValidTransform(arena, rank, u)
  }

  // ----- compiling them -----

  /** The compiler is called for one transform after the other. */
  function WriteAll(arena: Arena, ts: seq<nat>, d: Disk): (r: Option<Disk>)
    requires d.onDisk <= All(arena)
    ensures r.Some? ==> r.value.onDisk <= All(arena)
    decreases |ts|
  {
    if ts == [] then Some(d)
    else
      var d1 :- Write(arena, ts[0], d);
      WriteAll(arena, ts[1..], d1)
  }

  lemma {:induction false} WriteAllCorrect(arena: Arena, ts: seq<nat>, d: Disk)
    requires NoWrapperCycle(arena) && Proper(arena, d) && Correct(arena, d) && WriteAll(arena, ts, d).Some?
    ensures var d' := WriteAll(arena, ts, d).value;
      Proper(arena, d') && Correct(arena, d') && d.fde.Keys <= d'.fde.Keys && forall t :: t in ts ==> t in d'.fde
    decreases |ts|
  {
    hide Write, Correct, NoWrapperCycle;
    if ts != [] {
      var d1 := Write(arena, ts[0], d).value;
      WriteCorrect(arena, ts[0], d);
      WriteStructure(arena, ts[0], d);
      WriteAllCorrect(arena, ts[1..], d1);
    }
  }

  /** A sequence of calls succeeds exactly when all that any of them needs is there and supported. */
  lemma {:induction false} WriteAllIff(arena: Arena, ts: seq<nat>, d: Disk)
    requires d.onDisk <= All(arena) && SupportedDisk(arena, d.onDisk, d.onDisk)
    ensures WriteAll(arena, ts, d).Some? <==> forall t :: t in ts ==> NeedsSupported(arena, t)
    decreases |ts|
  {
    hide Write, NeedsSupported, SupportedDisk;
    if ts != [] {
      WriteIff(arena, ts[0], d);
      assert forall t :: t in ts <==> t == ts[0] || t in ts[1..];
      if Write(arena, ts[0], d).Some? { WriteAllIff(arena, ts[1..], Write(arena, ts[0], d).value); }
    }
  }

  /** Compiling from scratch. */
  lemma CompilesIff(arena: Arena, ts: seq<nat>)
    ensures WriteAll(arena, ts, FRESH).Some? <==> forall t :: t in ts ==> NeedsSupported(arena, t)
  {
    hide NeedsSupported;
    WriteAllIff(arena, ts, FRESH);
  }

  // ----- the patch is valid -----

  function Die(d: Disk, k: nat): nat
    requires 0 < k <= |d.frames|
  {
    d.frames[k - 1].die
  }

  /** The depths that the environment knows are the ranks of the types. */
  predicate Depths(env: Env, d: Disk, rank: nat -> nat)
  {
    forall k: nat :: 0 < k <= |d.frames| ==> DepthOf(env, k) == rank(Die(d, k))
  }

  lemma FewFrames(arena: Arena, d: Disk)
    requires Proper(arena, d)
    ensures |d.frames| <= |arena|
  {
    DiesCount(arena, d, |d.frames|);
    var dies := set k: nat | k < |d.frames| :: d.frames[k].die;
    forall x | x in dies ensures x < |arena| {
      var k: nat :| k < |d.frames| && d.frames[k].die == x;
      assert OwnFrame(arena, d, k);
    }
    BelowBound(|arena|, dies);
  }

  lemma {:induction false} BelowBound(n: nat, s: set<nat>)
    requires forall x :: x in s ==> x < n
    ensures |s| <= n
  {
    if n > 0 {
      BelowBound(n - 1, s - {n - 1});
      assert s <= s - {n - 1} + {n - 1};
    } else {
      assert s == {};
    }
  }

  lemma DifferentDies(arena: Arena, d: Disk, j: nat, k: nat)
    requires Proper(arena, d) && j < k < |d.frames|
    ensures d.frames[j].die != d.frames[k].die
  {
    assert OwnFrame(arena, d, j) && OwnFrame(arena, d, k);
  }

  lemma {:induction false} DiesCount(arena: Arena, d: Disk, n: nat)
    requires Proper(arena, d) && n <= |d.frames|
    ensures |set k: nat | k < n :: d.frames[k].die| == n
  {
    if n > 0 {
      DiesCount(arena, d, n - 1);
      var s := set k: nat | k < n - 1 :: d.frames[k].die;
      assert (set k: nat | k < n :: d.frames[k].die) == s + {d.frames[n - 1].die};
      forall k: nat | k < n - 1 ensures d.frames[k].die != d.frames[n - 1].die { DifferentDies(arena, d, k, n - 1); }
    }
  }

  /** The instruction for a kept field. */
  function OpFor(f: Field, d: Disk): Op
  {
    if f.kind.RecurseKind? then FixField(f.pointer, f.size, f.newOffset, f.oldOffset, f.target, FdeIdx(d, f.target))
    else CopyField(f.size, f.newOffset, f.oldOffset)
  }

  lemma {:induction false} KeptOps(fields: seq<Field>, d: Disk)
    ensures |FieldOps(fields, d)| == |Kept(fields)|
    ensures forall i :: 0 <= i < |Kept(fields)| ==> FieldOps(fields, d)[i] == OpFor(Kept(fields)[i], d)
    ensures forall f :: f in Kept(fields) <==> f in fields && !f.kind.DeleteKind?
    ensures forall f :: f in Kept(fields) && f.kind.RecurseKind? ==> f.target in FieldEdges(fields)
  {
    if fields != [] { KeptOps(fields[1..], d); }
  }

  /** The FDE that a fixup names is that of its target without wrappers. */
  lemma NamedFrame(arena: Arena, d: Disk, x: nat)
    requires Proper(arena, d) && Named(arena, d, x)
    ensures var k := FdeIdx(d, x);
      0 < k <= |d.frames| && Leads(arena, x, Die(d, k)) && Die(d, k) < |arena| && LengthOf(d, k) == arena[Die(d, k)].toLength
  {
    assert OwnFrame(arena, d, FdeIdx(d, x) - 1);
  }

  lemma OpTakes(arena: Arena, d: Disk, f: Field)
    requires !f.kind.DeleteKind? && Proper(arena, d) && (f.kind.RecurseKind? ==> Named(arena, d, f.target))
    ensures OpStart(OpFor(f, d)) == f.newOffset && Takes(arena, f, OpSpan(d, OpFor(f, d)))
    ensures OpReg(OpFor(f, d)) == CurrTargNew(f.size, f.newOffset)
    ensures SmallIndex(d, OpFor(f, d))
  {
    if f.kind.RecurseKind? { NamedFrame(arena, d, f.target); }
    hide Proper, Named, Leads;
  }

  lemma OpShallower(env: Env, arena: Arena, rank: nat -> nat, d: Disk, k: nat, f: Field)
    requires Depths(env, d, rank) && Proper(arena, d) && (f.kind.RecurseKind? ==> Named(arena, d, f.target))
    requires 0 < k <= |d.frames| && Ranked(arena, rank, Die(d, k), f)
    ensures Shallower(env, k, OpFor(f, d))
  {
    if ByValue(f) {
      NamedFrame(arena, d, f.target);
      hide Proper, Named, Leads;
      assert DepthOf(env, k) == rank(Die(d, k)) && DepthOf(env, FdeIdx(d, f.target)) == rank(Die(d, FdeIdx(d, f.target)));
    }
  }

  lemma StructFits(env: Env, arena: Arena, rank: nat -> nat, d: Disk, k: nat)
    requires Depths(env, d, rank) && Proper(arena, d) && 0 < k <= |d.frames| && Die(d, k) < |arena|
    requires ValidStruct(arena, rank, Die(d, k))
    requires forall x :: x in FieldEdges(arena[Die(d, k)].fields) ==> Named(arena, d, x)
    ensures var ops := FieldOps(arena[Die(d, k)].fields, d);
      OpsFit(d, ops, arena[Die(d, k)].toLength) && forall op :: op in ops ==> Shallower(env, k, op) && SmallIndex(d, op)
  {
    var tr := arena[Die(d, k)];
    var fields, ops := Kept(tr.fields), FieldOps(tr.fields, d);
    KeptOps(tr.fields, d);
    hide OpReg, OpStart, OpSpan, Takes, Named, Proper, Shallower, SmallIndex, Depths, OpFor, FieldOps, Kept;
    hide NoOverlapOps, FieldsApart, FieldInside, Ranked;
    forall op | op in ops
      ensures OpStart(op) < HALF_WORD / 2 && OpStart(op) + OpSpan(d, op) <= tr.toLength
      ensures Shallower(env, k, op) && SmallIndex(d, op)
    {
      var i :| 0 <= i < |ops| && ops[i] == op;
      assert fields[i] in fields;
      OpFits(arena, d, fields[i], tr.toLength);
      OpShallower(env, arena, rank, d, k, fields[i]);
    }
    forall i, j | 0 <= i < j < |ops| ensures NoOverlapOps(d, ops[i], ops[j]) {
      assert fields[i] in fields && fields[j] in fields;
      OpsApart(arena, d, fields[i], fields[j]);
    }
  }

  lemma OpFits(arena: Arena, d: Disk, f: Field, length: nat)
    requires !f.kind.DeleteKind? && Proper(arena, d) && (f.kind.RecurseKind? ==> Named(arena, d, f.target))
    requires FieldInside(arena, f, length)
    ensures var op := OpFor(f, d);
      OpStart(op) < HALF_WORD / 2 && OpStart(op) + OpSpan(d, op) <= length && SmallIndex(d, op)
  {
    hide OpFor, OpStart, OpSpan, Takes, Named, Proper, SmallIndex;
    OpTakes(arena, d, f);
  }

  lemma OpsApart(arena: Arena, d: Disk, f: Field, g: Field)
    requires Proper(arena, d) && FieldsApart(arena, f, g)
    requires !f.kind.DeleteKind? && (f.kind.RecurseKind? ==> Named(arena, d, f.target))
    requires !g.kind.DeleteKind? && (g.kind.RecurseKind? ==> Named(arena, d, g.target))
    ensures NoOverlapOps(d, OpFor(f, d), OpFor(g, d))
  {
    hide OpFor, OpStart, OpSpan, OpReg, Takes, Named, Proper;
    OpTakes(arena, d, f);
    OpTakes(arena, d, g);
  }

  lemma FrameFits(env: Env, arena: Arena, rank: nat -> nat, d: Disk, k: nat)
    requires ValidArena(arena, rank) && Depths(env, d, rank) && Proper(arena, d) && Correct(arena, d) && 0 < k <= |d.frames|
    ensures OpsFit(d, d.frames[k - 1].ops, d.frames[k - 1].length)
    ensures forall op :: op in d.frames[k - 1].ops ==> Shallower(env, k, op) && SmallIndex(d, op)
  {
    assert OwnFrame(arena, d, k - 1) && FrameRight(arena, d, k - 1);
    var tr := arena[Die(d, k)];
    assert ValidTransform(arena, rank, Die(d, k));
    hide ValidArena, Proper, Depths, Correct, ValidStruct, Named;
    if tr.straight {
    } else if tr.category.Pointer? {
      NamedFrame(arena, d, tr.target);
    } else if tr.category.Struct? {
      StructFits(env, arena, rank, d, k);
    }
  }

  lemma ArenaSmall(arena: Arena, rank: nat -> nat)
    requires ValidArena(arena, rank)
    ensures |arena| < HALF_WORD
  {
    hide ValidTransform;
  }

  lemma FramesFit(env: Env, arena: Arena, rank: nat -> nat, d: Disk)
    requires ValidArena(arena, rank) && Depths(env, d, rank) && Proper(arena, d) && Correct(arena, d)
    ensures ValidPatch(env, d)
  {
    ArenaSmall(arena, rank);
    FewFrames(arena, d);
    hide OpsFit, Shallower, SmallIndex, Proper, Correct, Depths, ValidArena;
    forall k | 0 <= k < |d.frames|
      ensures OpsFit(d, d.frames[k].ops, d.frames[k].length)
      ensures forall op :: op in d.frames[k].ops ==> Shallower(env, k + 1, op) && SmallIndex(d, op)
    {
      FrameFits(env, arena, rank, d, k + 1);
    }
  }

  /** Main result on the compiler's output: sensible transforms, none of them a const wrapper that
      can be reached from itself, are compiled to a valid patch, whatever is compiled first. */
  lemma ValidFromTypes(env: Env, arena: Arena, rank: nat -> nat, ts: seq<nat>, d: Disk)
    requires ValidArena(arena, rank) && NoWrapperCycle(arena) && WriteAll(arena, ts, FRESH) == Some(d) && Depths(env, d, rank)
    ensures ValidPatch(env, d) && Proper(arena, d) && Correct(arena, d) && forall t :: t in ts ==> t in d.fde
  {
    hide *;
    FreshCorrect(arena);
    WriteAllCorrect(arena, ts, FRESH);
    FramesFit(env, arena, rank, d);
  }

  // ----- what the objects become -----

  /** The object at new_ is the transform of the one at old_ that u describes. */
  ghost predicate Becomes(env: Env, arena: Arena, rank: nat -> nat, u: nat, old_: word, new_: word,
                          moves: Moves, after: Memory, own: set<word>)
    decreases rank(u), 1
  {
    && u < |arena| && !Wraps(arena, u)
    && var tr := arena[u];
       if tr.straight then Copied(env, old_, tr.fromLength, new_, after)
       else match tr.category
         case Pointer => Redirected(env, old_, new_, moves, after, own)
         case Struct => forall f :: f in tr.fields ==> FieldBecomes(env, arena, rank, u, f, old_, new_, moves, after, own)
         case _ => true
  }

  /** A deleted field leaves nothing; another one's bytes are at its new offset, a pointer is
      redirected, and a struct inside, without const wrappers, is transformed itself. */
  ghost predicate FieldBecomes(env: Env, arena: Arena, rank: nat -> nat, u: nat, f: Field, old_: word, new_: word,
                               moves: Moves, after: Memory, own: set<word>)
    decreases rank(u), 0
  {
    var src, dst := Displaced(old_, f.oldOffset), Displaced(new_, f.newOffset);
    match f.kind
    case DeleteKind => true
    case CopyKind => Copied(env, src, f.size, dst, after)
    case RecurseKind =>
      if f.pointer then Redirected(env, src, dst, moves, after, own)
      else exists y: nat :: Leads(arena, f.target, y) && rank(y) < rank(u)
                            && Becomes(env, arena, rank, y, src, dst, moves, after, own)
  }

  lemma OwnDie(arena: Arena, d: Disk, k: nat)
    requires Proper(arena, d) && Correct(arena, d) && 0 < k <= |d.frames|
    ensures var u := Die(d, k); u < |arena| && !Wraps(arena, u) && u in d.fde && d.fde[u] == k && Named(arena, d, u)
  {
    assert OwnFrame(arena, d, k - 1);
  }

  lemma BecomesFrom(env: Env, arena: Arena, rank: nat -> nat, d: Disk, k: nat, old_: word, new_: word,
                    moves: Moves, after: Memory, own: set<word>)
    requires ValidArena(arena, rank) && Depths(env, d, rank) && Proper(arena, d) && Correct(arena, d) && ValidPatch(env, d)
    requires 0 < k <= |d.frames| && Transformed(env, d, k, old_, new_, moves, after, own)
    ensures Becomes(env, arena, rank, Die(d, k), old_, new_, moves, after, own)
    decreases rank(Die(d, k))
  {
    var u := Die(d, k);
    OwnDie(arena, d, k);
    TypeTransformed(env, arena, d, u, old_, new_, moves, after, own);
    var tr := arena[u];
    assert ValidTransform(arena, rank, u);
    hide ValidArena, Depths, Proper, Correct, ValidPatch, Transformed, Redirected, Copied, Leads, Named;
    if !tr.straight && tr.category.Struct? {
      forall f | f in tr.fields ensures FieldBecomes(env, arena, rank, u, f, old_, new_, moves, after, own) {
        assert FieldOfTypeDone(env, arena, d, f, old_, new_, moves, after, own);
        if ByValue(f) {
          NamedFrame(arena, d, f.target);
          KeptOps(tr.fields, d);
          assert f in Kept(tr.fields) && Ranked(arena, rank, u, f);
          var j := FdeIdx(d, f.target);
          InFde(arena, d, f.target);
          BecomesFrom(env, arena, rank, d, j, Displaced(old_, f.oldOffset), Displaced(new_, f.newOffset), moves, after, own);
        }
      }
    }
  }

  lemma InFde(arena: Arena, d: Disk, x: nat)
    requires Named(arena, d, x)
    ensures x in d.fde && d.fde[x] == FdeIdx(d, x)
  {
  }

  /** Every object of a call has become the transform of its old self, by the type it was moved as. */
  ghost predicate AllBecome(env: Env, arena: Arena, rank: nat -> nat, d: Disk, objects: set<Object>,
                            moves: Moves, after: Memory, own: set<word>)
  {
    forall x :: x in objects ==>
      && 0 < x.fde <= |d.frames|
      && Becomes(env, arena, rank, Die(d, x.fde), x.regs.addrOld, x.regs.addrNew, moves, after, own)
  }

  lemma AllBecomeFrom(env: Env, arena: Arena, rank: nat -> nat, d: Disk, objects: set<Object>,
                      moves: Moves, after: Memory, own: set<word>)
    requires ValidArena(arena, rank) && Depths(env, d, rank) && Proper(arena, d) && Correct(arena, d) && ValidPatch(env, d)
    requires ObjectsTransformed(env, d, objects, moves, after, own)
    ensures AllBecome(env, arena, rank, d, objects, moves, after, own)
  {
    hide ValidArena, Depths, Proper, Correct, ValidPatch, Becomes;
    forall x | x in objects
      ensures 0 < x.fde <= |d.frames|
      ensures Becomes(env, arena, rank, Die(d, x.fde), x.regs.addrOld, x.regs.addrNew, moves, after, own)
    {
      InFrames(env, d, x.fde, x.regs.addrOld, x.regs.addrNew, moves, after, own);
      BecomesFrom(env, arena, rank, d, x.fde, x.regs.addrOld, x.regs.addrNew, moves, after, own);
    }
  }

  lemma InFrames(env: Env, d: Disk, k: nat, old_: word, new_: word, moves: Moves, after: Memory, own: set<word>)
    requires ValidPatch(env, d) && Transformed(env, d, k, old_, new_, moves, after, own)
    ensures 0 < k <= |d.frames|
  {
    hide ValidPatch, FieldDone;
  }

  /** The main theorem of the patching core.  Compile sensible transforms, in any order; load the
      bytes of the FDEs; migrate a variable whose type is one of them.  If patch generation succeeds
      then, over any old heap, the variable becomes what its type's transform says, and so does
      every object that is moved on its behalf; no other byte changes; and if no two addresses are
      taken for each other every pointer leads to the new place of its own target, and sharing is
      kept. */
  lemma TypesMigrated(env: Env, arena: Arena, rank: nat -> nat, ts: seq<nat>, d: Disk, padding: nat -> nat,
                      image: Block, t: nat, regs: Regs, h: Heap)
    requires ValidArena(arena, rank) && NoWrapperCycle(arena) && WriteAll(arena, ts, FRESH) == Some(d)
    requires Loaded(env, d, padding) && Depths(env, d, rank) && FreshMalloc(env, image)
    requires t in ts && h.moved.Keys <= AllKeys() && HeapOk(env, image, h)
    ensures Nested(env) && t in d.fde
    ensures var root := Object(d.fde[t], regs);
      var r := GenFde(env, root.fde, regs, h);
      r.Some? && SymbolsPlaced(env, image, SymbolObjects(root, r.value.0)) ==>
        var (h', ps) := r.value;
        && InSpace(ps) && 0 < root.fde <= |d.frames| && Leads(arena, t, Die(d, root.fde)) && root in Objects(root, h, h')
        && AllBecome(env, arena, rank, d, Objects(root, h, h'), h'.moved, ApplyAll(env.mem, ps), AllWords())
        && (OwnCondition(env, root, h) ==>
              && AllBecome(env, arena, rank, d, Objects(root, h, h'), h'.moved, ApplyAll(env.mem, ps), Own(env, h'.moved))
              && SharingKept(env, h'.moved))
        && forall a: word :: ImageAt(env, Objects(root, h, h'), h'.moved, env.mem, ApplyAll(env.mem, ps), a)
  {
    hide *;
    ValidFromTypes(env, arena, rank, ts, d);
    var root := Object(d.fde[t], regs);
    CompiledMigration(env, d, padding, image, root, h);
    var r := GenFde(env, root.fde, regs, h);
    if r.Some? && SymbolsPlaced(env, image, SymbolObjects(root, r.value.0)) {
      var (h', ps) := r.value;
      TypeNamed(arena, d, t);
      RootIn(root, h, h');
      AllBecomeFrom(env, arena, rank, d, Objects(root, h, h'), h'.moved, ApplyAll(env.mem, ps), AllWords());
      if OwnCondition(env, root, h) {
        AllBecomeFrom(env, arena, rank, d, Objects(root, h, h'), h'.moved, ApplyAll(env.mem, ps), Own(env, h'.moved));
      }
    }
  }

  lemma TypeNamed(arena: Arena, d: Disk, t: nat)
    requires Proper(arena, d) && Correct(arena, d) && t in d.fde
    ensures 0 < d.fde[t] <= |d.frames| && Leads(arena, t, Die(d, d.fde[t]))
  {
    assert t in d.onDisk;
    assert Named(arena, d, t);
  }

  lemma RootIn(root: Object, h: Heap, h': Heap)
    ensures root in Objects(root, h, h')
  {
  }

  // ----- a whole patch -----

  /** A variable: the transform of its type, and where it is and goes. */
  datatype Variable = Variable(transform: nat, regs: Regs)

  function Root(d: Disk, v: Variable): Object { Object(FdeIdx(d, v.transform), v.regs) }

  function Roots(d: Disk, vars: seq<Variable>): (r: seq<Object>)
    ensures |r| == |vars| && forall i :: 0 <= i < |vars| ==> r[i] == Root(d, vars[i])
  {
    seq(|vars|, i requires 0 <= i < |vars| => Root(d, vars[i]))
  }

  lemma RunTransformed(env: Env, d: Disk, padding: nat -> nat, objects: set<Object>, moves: Moves,
                       before: Memory, after: Memory, own: set<word>)
    requires Loaded(env, d, padding) && ValidPatch(env, d) && Nested(env)
    requires RunMigrated(env, objects, moves, before, after) && ObjectsFollow(env, objects, own)
    ensures ObjectsTransformed(env, d, objects, moves, after, own)
  {
    hide ImageAt, Migrated, ObjectClosed, Transformed, Loaded, ValidPatch, Nested, ObjectFollows;
    forall x | x in objects ensures Transformed(env, d, x.fde, x.regs.addrOld, x.regs.addrNew, moves, after, own) {
      ObjectDone(env, d, padding, x.fde, x.regs, moves, after, own);
    }
  }

  lemma RunFollows(env: Env, roots: seq<Object>, h: Heap, h': Heap)
    requires Nested(env) && RunOwn(env, roots, h, h')
    ensures ObjectsFollow(env, AllObjects(roots, h, h'), Own(env, h'.moved))
  {
    hide ObjectFollows, Own, Nested;
    forall x | x in AllObjects(roots, h, h') ensures ObjectFollows(env, x.fde, x.regs, Own(env, h'.moved)) {
      if x !in roots {
        var key :| key in h'.moved && key !in h.moved && ObjectOf(h'.moved[key]) == x;
        assert IsNew(h, h', key);
        assert MoveFollows(env, h'.moved[key], Own(env, h'.moved));
      }
    }
  }

  lemma EverythingFollows(env: Env, objects: set<Object>)
    requires Nested(env)
    ensures ObjectsFollow(env, objects, AllWords())
  {
    hide ObjectFollows, Nested;
    forall x | x in objects ensures ObjectFollows(env, x.fde, x.regs, AllWords()) { AllFollow(env, x.fde, x.regs); }
  }

  /** The main theorem of the patching core.  Compile sensible transforms, load the bytes of the FDEs, and
      migrate any number of variables, one after the other, while memory changes.  If patches can be
      generated from the old memory the run succeeds, and then every variable and every object moved
      on their behalf has become what the transform of its type says of its self before the first
      batch; the old memory and every byte that no object prescribes are as they were; and, under
      the condition on the old heap, every pointer leads to the new place of its own target, and
      pointers of whichever variables are equal exactly when they were. */
  lemma PatchMigrated(env: Env, arena: Arena, rank: nat -> nat, ts: seq<nat>, d: Disk, padding: nat -> nat,
                      image: Block, vars: seq<Variable>, h: Heap, mem: Memory)
    requires ValidArena(arena, rank) && NoWrapperCycle(arena) && WriteAll(arena, ts, FRESH) == Some(d)
    requires Loaded(env, d, padding) && Depths(env, d, rank) && RunSetting(env, image, h) && h.moved.Keys <= AllKeys()
    requires vars != [] && Has(mem, env.mem) && forall v :: v in vars ==> v.transform in ts
    ensures Nested(env)
    ensures var roots := Roots(d, vars);
      var r := GenAll(env, roots, h);
      r.Some? && SymbolsPlaced(env, image, AllSymbols(roots, r.value.0)) ==>
        var (h', objects) := (r.value.0, AllObjects(roots, h, r.value.0));
        var run := RunAll(env, roots, h, mem);
        && run.Some? && run.value.0 == h' && Has(run.value.1, env.mem)
        && (forall v :: v in vars ==> VariableNamed(arena, d, v) && Root(d, v) in objects)
        && AllBecome(env, arena, rank, d, objects, h'.moved, run.value.1, AllWords())
        && (RunCondition(env, roots, h) ==>
              AllBecome(env, arena, rank, d, objects, h'.moved, run.value.1, Own(env, h'.moved)) && SharingKept(env, h'.moved))
        && forall a: word :: ImageAt(env, objects, h'.moved, mem, run.value.1, a)
  {
    hide *;
    ValidFromTypes(env, arena, rank, ts, d);
    PatchIsSound(env, d, padding);
    var roots := Roots(d, vars);
    RootsCount(d, vars);
    var r := GenAll(env, roots, h);
    if r.Some? && SymbolsPlaced(env, image, AllSymbols(roots, r.value.0)) {
      PatchRunCorrect(env, image, roots, h, mem);
      var (h', after) := RunAll(env, roots, h, mem).value;
      var objects := AllObjects(roots, h, h');
      RunMigratedParts(env, objects, h'.moved, mem, after);
      EverythingFollows(env, objects);
      RunTransformed(env, d, padding, objects, h'.moved, mem, after, AllWords());
      AllBecomeFrom(env, arena, rank, d, objects, h'.moved, after, AllWords());
      if RunCondition(env, roots, h) {
        RunFollows(env, roots, h, h');
        RunTransformed(env, d, padding, objects, h'.moved, mem, after, Own(env, h'.moved));
        AllBecomeFrom(env, arena, rank, d, objects, h'.moved, after, Own(env, h'.moved));
      }
      forall v | v in vars ensures VariableNamed(arena, d, v) && Root(d, v) in objects {
        VariableIn(arena, d, vars, v, h, h');
      }
    }
  }

  /** The FDE of a variable is that of its type without const wrappers. */
  ghost predicate VariableNamed(arena: Arena, d: Disk, v: Variable)
  {
    var k := FdeIdx(d, v.transform);
    0 < k <= |d.frames| && Leads(arena, v.transform, Die(d, k))
  }

  lemma RootsCount(d: Disk, vars: seq<Variable>)
    requires vars != []
    ensures Roots(d, vars) != []
  {
  }

  lemma RunMigratedParts(env: Env, objects: set<Object>, moves: Moves, before: Memory, after: Memory)
    requires Nested(env) && RunMigrated(env, objects, moves, before, after)
    ensures forall a: word :: ImageAt(env, objects, moves, before, after, a)
  {
    hide ImageAt;
  }

  lemma VariableIn(arena: Arena, d: Disk, vars: seq<Variable>, v: Variable, h: Heap, h': Heap)
    requires Proper(arena, d) && Correct(arena, d) && v in vars && v.transform in d.fde
    ensures VariableNamed(arena, d, v) && Root(d, v) in AllObjects(Roots(d, vars), h, h')
  {
    TypeNamed(arena, d, v.transform);
    var i :| 0 <= i < |vars| && vars[i] == v;
    assert Roots(d, vars)[i] == Root(d, v);
    assert Roots(d, vars)[i] in Roots(d, vars);
  }
}
