/** The patch compiler (patchwrite/write_to_dwarf.c): type transforms refer to each
    other, possibly in cycles, and every one that is not a const wrapper becomes a
    frame description entry.  Transforms are named by their position in an arena. */
module Compiler {
  import opened Bytes
  import opened Registers

  datatype Category = Const | Pointer | Struct | Other

  datatype FieldKind = CopyKind | DeleteKind | RecurseKind

  type length = x: int | 0 <= x < 0x8000_0000

  /** A field of a struct transform; target is the transform of the field's type, or
      of what the field points to.  A target outside of the arena stands for a type
      without a transform. */
  datatype Field = Field(kind: FieldKind, size: u32, newOffset: u32, oldOffset: u32, pointer: bool, target: nat)

  datatype Transform = Transform(straight: bool, category: Category, fromLength: length, toLength: length,
                                 target: nat, fields: seq<Field>)

  type Arena = seq<Transform>

  /** An instruction of an FDE, with the transform that a fixup is meant for. */
  datatype Op =
    | CopyAll(to: u32, from: u32)
    | CopyField(size: u32, newOffset: u32, oldOffset: u32)
    | FixPointer(target: nat, fde: nat)
    | FixField(pointer: bool, size: u32, newOffset: u32, oldOffset: u32, target: nat, fde: nat)

  /** An FDE: the type it belongs to, the length of the new type, the instructions. */
  datatype Frame = Frame(die: nat, length: length, ops: seq<Op>)

  /** The onDisk flags and fdeIdx fields of all transforms, and the FDEs made so far.
      A transform without an entry in fde still has fdeIdx zero. */
  datatype Disk = Disk(onDisk: set<nat>, fde: map<nat, nat>, frames: seq<Frame>)

  const FRESH := Disk({}, map[], [])

  function FdeIdx(d: Disk, t: nat): nat { if t in d.fde then d.fde[t] else 0 }

  predicate InArena(arena: Arena, t: nat) { t < |arena| }

  function All(arena: Arena): set<nat> { set t: nat | t < |arena| && InArena(arena, t) }

  /** A const transform is only a wrapper. */
  predicate Wrapper(tr: Transform) { tr.category.Const? && !tr.straight }

  predicate Wraps(arena: Arena, t: nat) { t < |arena| && Wrapper(arena[t]) }

  /** writeTransformationToDwarf. */
  function Write(arena: Arena, t: nat, d: Disk): (r: Option<Disk>)
    requires d.onDisk <= All(arena)
    ensures r.Some? ==> d.onDisk + {t} <= r.value.onDisk <= All(arena)
    decreases All(arena) - d.onDisk, 0, 0
  {
    if t >= |arena| then None
    else if t in d.onDisk then Some(d)
    else
      var tr := arena[t];
      assert All(arena) - (d.onDisk + {t}) < All(arena) - d.onDisk by { assert t in All(arena) - d.onDisk; }
      if Wrapper(tr) then
        var d2 :- Write(arena, tr.target, d.(onDisk := d.onDisk + {t}));
        Some(d2.(fde := d2.fde[t := FdeIdx(d2, tr.target)]))
      else
        var (d2, ops) :- WriteInstructions(arena, t, Begin(arena, t, d));
        Some(Finish(d2, t, ops))
  }

  /** The instructions of a transform that has an FDE. */
  function WriteInstructions(arena: Arena, t: nat, d: Disk): (r: Option<(Disk, seq<Op>)>)
    requires d.onDisk <= All(arena) && t < |arena|
    ensures r.Some? ==> d.onDisk <= r.value.0.onDisk <= All(arena)
    decreases All(arena) - d.onDisk, 2, 0
  {
    var tr := arena[t];
    if tr.straight then
      if tr.fromLength <= tr.toLength then Some((d, [CopyAll(tr.toLength, tr.fromLength)])) else None
    else if tr.category.Pointer? then
      var d2 :- Write(arena, tr.target, d);
      Some((d2, [FixPointer(tr.target, FdeIdx(d2, tr.target))]))
    else if tr.category.Struct? then WriteFields(arena, tr.fields, d)
    else None
  }

  /** The FDE is made, and its index known, before anything else is written. */
  function Begin(arena: Arena, t: nat, d: Disk): Disk
    requires t < |arena|
  {
    Disk(d.onDisk + {t}, d.fde[t := |d.frames| + 1], d.frames + [Frame(t, arena[t].toLength, [])])
  }

  /** The instructions are handed over at the end. */
  function Finish(d: Disk, t: nat, ops: seq<Op>): Disk
  {
    var k := FdeIdx(d, t);
    if 0 < k <= |d.frames| then d.(frames := d.frames[k - 1 := d.frames[k - 1].(ops := ops)]) else d
  }

  /** The loop over the fields of a struct. */
  function WriteFields(arena: Arena, fields: seq<Field>, d: Disk): (r: Option<(Disk, seq<Op>)>)
    requires d.onDisk <= All(arena)
    ensures r.Some? ==> d.onDisk <= r.value.0.onDisk <= All(arena)
    decreases All(arena) - d.onDisk, 1, |fields|
  {
    if fields == [] then Some((d, []))
    else
      var f := fields[0];
      match f.kind
      case DeleteKind => WriteFields(arena, fields[1..], d)
      case CopyKind =>
        var (d2, ops) :- WriteFields(arena, fields[1..], d);
        Some((d2, [CopyField(f.size, f.newOffset, f.oldOffset)] + ops))
      case RecurseKind =>
        var d1 :- Write(arena, f.target, d);
        var (d2, ops) :- WriteFields(arena, fields[1..], d1);
        Some((d2, [FixField(f.pointer, f.size, f.newOffset, f.oldOffset, f.target, FdeIdx(d1, f.target))] + ops))
  }

  // ----- what is meant to be written -----

  /** The transforms that a transform refers to, in the order of its instructions. */
  function Edges(tr: Transform): seq<nat>
  {
    if tr.straight then []
    else match tr.category
      case Const => [tr.target]
      case Pointer => [tr.target]
      case Struct => FieldEdges(tr.fields)
      case Other => []
  }

  function FieldEdges(fields: seq<Field>): seq<nat>
  {
    if fields == [] then []
    else (if fields[0].kind.RecurseKind? then [fields[0].target] else []) + FieldEdges(fields[1..])
  }

  function OpTargets(ops: seq<Op>): seq<nat>
  {
    if ops == [] then []
    else (if ops[0].FixPointer? || ops[0].FixField? then [ops[0].target] else []) + OpTargets(ops[1..])
  }

  /** The instructions of a transform when every fixup has the index that its
      transform has in d. */
  function OpsOf(tr: Transform, d: Disk): seq<Op>
  {
    if tr.straight then [CopyAll(tr.toLength, tr.fromLength)]
    else match tr.category
      case Pointer => [FixPointer(tr.target, FdeIdx(d, tr.target))]
      case Struct => FieldOps(tr.fields, d)
      case _ => []
  }

  function FieldOps(fields: seq<Field>, d: Disk): seq<Op>
  {
    if fields == [] then []
    else
      var f := fields[0];
      (match f.kind
       case DeleteKind => []
       case CopyKind => [CopyField(f.size, f.newOffset, f.oldOffset)]
       case RecurseKind => [FixField(f.pointer, f.size, f.newOffset, f.oldOffset, f.target, FdeIdx(d, f.target))])
      + FieldOps(fields[1..], d)
  }

  /** One FDE for each transform on disk that is not a wrapper, and its index in fde. */
  ghost predicate Proper(arena: Arena, d: Disk)
  {
    && d.onDisk <= All(arena) && d.fde.Keys <= d.onDisk
    && (forall t :: t in d.onDisk && !Wraps(arena, t) ==>
         t in d.fde && 0 < d.fde[t] <= |d.frames| && d.frames[d.fde[t] - 1].die == t)
    && forall k :: 0 <= k < |d.frames| ==> OwnFrame(arena, d, k)
  }

  predicate OwnFrame(arena: Arena, d: Disk, k: nat)
    requires k < |d.frames|
  {
    var t := d.frames[k].die;
    t < |arena| && !Wraps(arena, t) && t in d.fde && d.fde[t] == k + 1 && d.frames[k].length == arena[t].toLength
  }

  /** What any call keeps. */
  predicate Later(d: Disk, d': Disk)
  {
    && d.onDisk <= d'.onDisk
    && |d.frames| <= |d'.frames| && d'.frames[..|d.frames|] == d.frames
    && forall t :: t in d.fde ==> t in d'.fde && d'.fde[t] == d.fde[t]
  }

  predicate FrameTargets(arena: Arena, d: Disk, k: nat)
    requires k < |d.frames|
  {
    d.frames[k].die < |arena| && OpTargets(d.frames[k].ops) == Edges(arena[d.frames[k].die])
  }

  /** Everything a new transform refers to is on disk as well, and its FDE refers to
      exactly these transforms. */
  ghost predicate ClosedSince(arena: Arena, d: Disk, d': Disk)
  {
    && (forall t, x :: t in d'.onDisk && t !in d.onDisk && t < |arena| && x in Edges(arena[t]) ==> x in d'.onDisk)
    && forall k :: |d.frames| <= k < |d'.frames| ==> FrameTargets(arena, d', k)
  }

  lemma LaterJoin(arena: Arena, d: Disk, d1: Disk, d2: Disk)
    requires Later(d, d1) && Later(d1, d2)
    ensures Later(d, d2)
    ensures ClosedSince(arena, d, d1) && ClosedSince(arena, d1, d2) ==> ClosedSince(arena, d, d2)
  {
    assert d2.frames[..|d.frames|] == d2.frames[..|d1.frames|][..|d.frames|];
    if ClosedSince(arena, d, d1) && ClosedSince(arena, d1, d2) {
      forall k | |d.frames| <= k < |d2.frames| ensures FrameTargets(arena, d2, k) {
        if k < |d1.frames| {
          assert d2.frames[k] == d2.frames[..|d1.frames|][k] == d1.frames[k];
          assert FrameTargets(arena, d1, k);
        }
      }
    }
  }

  /** Whatever the graph, exactly one FDE is made for every transform that is not a
      wrapper, nothing written before is changed, everything a new transform refers
      to is on disk, and its FDE refers to exactly these transforms. */
  lemma WriteStructure(arena: Arena, t: nat, d: Disk)
    requires Proper(arena, d) && Write(arena, t, d).Some?
    ensures var d' := Write(arena, t, d).value; Proper(arena, d') && Later(d, d') && ClosedSince(arena, d, d')
    decreases All(arena) - d.onDisk, 0, 0
  {
    var d' := Write(arena, t, d).value;
    if t !in d.onDisk {
      var tr := arena[t];
      assert All(arena) - (d.onDisk + {t}) < All(arena) - d.onDisk by { assert t in All(arena) - d.onDisk; }
      if Wrapper(tr) {
        var d1 := d.(onDisk := d.onDisk + {t});
        forall k | 0 <= k < |d1.frames| ensures OwnFrame(arena, d1, k) { assert OwnFrame(arena, d, k); }
        WriteStructure(arena, tr.target, d1);
        SealWrapper(arena, t, d, Write(arena, tr.target, d1).value);
      } else {
        BeginProper(arena, t, d);
        var d1 := Begin(arena, t, d);
        WriteInstructionsStructure(arena, t, d1);
        var (d2, ops) := WriteInstructions(arena, t, d1).value;
        FinishStructure(arena, t, d, d2, ops);
      }
    } else {
      assert d.frames[..|d.frames|] == d.frames;
    }
  }

  lemma WriteInstructionsStructure(arena: Arena, t: nat, d: Disk)
    requires Proper(arena, d) && t < |arena| && !Wraps(arena, t) && WriteInstructions(arena, t, d).Some?
    ensures var (d', ops) := WriteInstructions(arena, t, d).value;
            && Proper(arena, d') && Later(d, d') && ClosedSince(arena, d, d')
            && OpTargets(ops) == Edges(arena[t]) && forall x :: x in Edges(arena[t]) ==> x in d'.onDisk
    decreases All(arena) - d.onDisk, 2, 0
  {
    var tr := arena[t];
    if tr.straight {
      assert d.frames[..|d.frames|] == d.frames;
    } else if tr.category.Pointer? {
      WriteStructure(arena, tr.target, d);
    } else {
      WriteFieldsStructure(arena, tr.fields, d);
    }
  }

  lemma BeginProper(arena: Arena, t: nat, d: Disk)
    requires Proper(arena, d) && t < |arena| && t !in d.onDisk && !Wraps(arena, t)
    ensures Proper(arena, Begin(arena, t, d))
  {
    var d1 := Begin(arena, t, d);
    forall k | 0 <= k < |d1.frames| ensures OwnFrame(arena, d1, k) {
      if k < |d.frames| { assert OwnFrame(arena, d, k); }
    }
  }

  lemma SealWrapper(arena: Arena, t: nat, d: Disk, d2: Disk)
    requires Proper(arena, d2) && t < |arena| && Wrapper(arena[t]) && t !in d.onDisk && d.fde.Keys <= d.onDisk
    requires var d1 := d.(onDisk := d.onDisk + {t}); Later(d1, d2) && ClosedSince(arena, d1, d2)
    requires arena[t].target in d2.onDisk
    ensures var d' := d2.(fde := d2.fde[t := FdeIdx(d2, arena[t].target)]);
            Proper(arena, d') && Later(d, d') && ClosedSince(arena, d, d')
  {
    var d' := d2.(fde := d2.fde[t := FdeIdx(d2, arena[t].target)]);
    forall k | 0 <= k < |d'.frames| ensures OwnFrame(arena, d', k) { assert OwnFrame(arena, d2, k); }
    forall k | |d.frames| <= k < |d'.frames| ensures FrameTargets(arena, d', k) { assert FrameTargets(arena, d2, k); }
  }

  lemma FinishStructure(arena: Arena, t: nat, d: Disk, d2: Disk, ops: seq<Op>)
    requires Proper(arena, d) && Proper(arena, d2) && t < |arena| && t !in d.onDisk && !Wraps(arena, t)
    requires var d1 := Begin(arena, t, d); Later(d1, d2) && ClosedSince(arena, d1, d2)
    requires OpTargets(ops) == Edges(arena[t]) && forall x :: x in Edges(arena[t]) ==> x in d2.onDisk
    ensures var d' := Finish(d2, t, ops); Proper(arena, d') && Later(d, d') && ClosedSince(arena, d, d')
  {
    var d1, d' := Begin(arena, t, d), Finish(d2, t, ops);
    var n := |d.frames|;
    assert t in d1.fde && FdeIdx(d2, t) == n + 1;
    assert d'.frames[..n] == d2.frames[..n + 1][..n] == d1.frames[..n] == d.frames;
    hide OpTargets, Edges, All;
    forall k | 0 <= k < |d'.frames| ensures OwnFrame(arena, d', k) { assert OwnFrame(arena, d2, k); }
    forall k | n <= k < |d'.frames| ensures FrameTargets(arena, d', k) {
      if k > n { assert FrameTargets(arena, d2, k); } else { assert d'.frames[n].ops == ops; }
    }
  }

  lemma WriteFieldsStructure(arena: Arena, fields: seq<Field>, d: Disk)
    requires Proper(arena, d) && WriteFields(arena, fields, d).Some?
    ensures var (d', ops) := WriteFields(arena, fields, d).value;
            && Proper(arena, d') && Later(d, d') && ClosedSince(arena, d, d')
            && OpTargets(ops) == FieldEdges(fields) && forall x :: x in FieldEdges(fields) ==> x in d'.onDisk
    decreases All(arena) - d.onDisk, 1, |fields|
  {
    assert d.frames[..|d.frames|] == d.frames;
    if fields != [] {
      var f := fields[0];
      var (d', ops) := WriteFields(arena, fields, d).value;
      if f.kind.RecurseKind? {
        WriteStructure(arena, f.target, d);
        var d1 := Write(arena, f.target, d).value;
        WriteFieldsStructure(arena, fields[1..], d1);
        LaterJoin(arena, d, d1, d');
        assert ops[1..] == WriteFields(arena, fields[1..], d1).value.1;
      } else {
        WriteFieldsStructure(arena, fields[1..], d);
        if f.kind.CopyKind? { assert ops[1..] == WriteFields(arena, fields[1..], d).value.1; }
      }
    }
  }

  // ----- which FDE a reference is meant for -----

  predicate Step(arena: Arena, x: nat, y: nat) { x < |arena| && y < |arena| && y in Edges(arena[x]) }

  predicate Path(arena: Arena, p: seq<nat>)
  {
    |p| > 0 && forall i :: 0 <= i < |p| - 1 ==> Step(arena, p[i], p[i + 1])
  }

  predicate Links(p: seq<nat>, x: nat, y: nat) { |p| > 0 && p[0] == x && p[|p| - 1] == y }

  predicate Wrappers(arena: Arena, p: seq<nat>) { forall i :: 0 <= i < |p| - 1 ==> Wraps(arena, p[i]) }

  /** y is x without its const wrappers. */
  ghost predicate Leads(arena: Arena, x: nat, y: nat)
  {
    !Wraps(arena, y) && exists p :: Path(arena, p) && Links(p, x, y) && Wrappers(arena, p)
  }

  /** There is a path of one or more references. */
  ghost predicate Reaches(arena: Arena, x: nat, y: nat)
  {
    exists p :: Path(arena, p) && Links(p, x, y) && |p| > 1
  }

  ghost predicate NoWrapperCycle(arena: Arena)
  {
    forall c :: Wraps(arena, c) ==> !Reaches(arena, c, c)
  }

  lemma PathTail(arena: Arena, p: seq<nat>)
    requires Path(arena, p) && |p| > 1
    ensures Path(arena, p[1..]) && Step(arena, p[0], p[1])
    ensures Wrappers(arena, p) ==> Wrappers(arena, p[1..]) && p[1] == arena[p[0]].target
  {
    assert Step(arena, p[0], p[1]);
    forall i | 0 <= i < |p[1..]| - 1 ensures Step(arena, p[1..][i], p[1..][i + 1]) { assert Step(arena, p[i + 1], p[i + 1 + 1]); }
  }

  lemma LeadsStep(arena: Arena, t: nat, y: nat)
    requires Wraps(arena, t) && arena[t].target < |arena| && Leads(arena, arena[t].target, y)
    ensures Leads(arena, t, y)
  {
    var p :| Path(arena, p) && Links(p, arena[t].target, y) && Wrappers(arena, p);
    var q := [t] + p;
    assert Path(arena, q) && Links(q, t, y) && Wrappers(arena, q);
  }

  lemma LeadsSelf(arena: Arena, t: nat)
    requires t < |arena| && !Wraps(arena, t)
    ensures Leads(arena, t, t)
  {
    var p := [t];
    assert Path(arena, p) && Links(p, t, t) && Wrappers(arena, p);
  }

  lemma ReachesStep(arena: Arena, x: nat, t: nat, y: nat)
    requires (x == t || Reaches(arena, x, t)) && Step(arena, t, y)
    ensures Reaches(arena, x, y)
  {
    if x == t {
      var p := [x, y];
      assert Path(arena, p) && Links(p, x, y);
    } else {
      var p :| Path(arena, p) && Links(p, x, t) && |p| > 1;
      PathSnoc(arena, p, t, y);
      assert Links(p + [y], x, y);
    }
  }

  lemma PathSnoc(arena: Arena, p: seq<nat>, t: nat, y: nat)
    requires Path(arena, p) && p != [] && p[|p| - 1] == t && Step(arena, t, y)
    ensures Path(arena, p + [y])
  {
    hide Step;
    var q := p + [y];
    assert q[|p| - 1] == t && q[|p|] == y;
    forall i | 0 <= i < |q| - 1 ensures Step(arena, q[i], q[i + 1]) {
      if i < |p| - 1 { assert q[i] == p[i] && q[i + 1] == p[i + 1]; }
    }
  }

  /** The index that x has on disk is that of an FDE for x without its wrappers. */
  ghost predicate Named(arena: Arena, d: Disk, x: nat)
  {
    x in d.fde && 0 < d.fde[x] <= |d.frames| && Leads(arena, x, d.frames[d.fde[x] - 1].die)
  }

  /** The FDE has the instructions of its transform and all its fixups name the FDE
      that they are meant for. */
  ghost predicate FrameRight(arena: Arena, d: Disk, k: nat)
    requires k < |d.frames|
  {
    var t := d.frames[k].die;
    t < |arena| && d.frames[k].ops == OpsOf(arena[t], d) && forall x :: x in Edges(arena[t]) ==> Named(arena, d, x)
  }

  ghost predicate Correct(arena: Arena, d: Disk)
  {
    && (forall t :: t in d.onDisk ==> Named(arena, d, t))
    && forall k :: 0 <= k < |d.frames| ==> FrameRight(arena, d, k)
  }

  /** Transforms whose index is known are named rightly. */
  ghost predicate AllNamed(arena: Arena, d: Disk)
  {
    forall t :: t in d.fde ==> Named(arena, d, t)
  }

  /** Wrappers that are waiting for the index of what they wrap are on the way to t. */
  ghost predicate Waiting(arena: Arena, d: Disk, t: nat)
  {
    forall c :: c in d.onDisk && c !in d.fde ==> Reaches(arena, c, t)
  }

  predicate SameWaiting(d: Disk, d': Disk)
  {
    d'.onDisk - d'.fde.Keys == d.onDisk - d.fde.Keys
  }

  ghost predicate RightSince(arena: Arena, d: Disk, d': Disk)
  {
    AllNamed(arena, d') && SameWaiting(d, d') && forall k :: |d.frames| <= k < |d'.frames| ==> FrameRight(arena, d', k)
  }

  lemma {:induction false} FieldOpsStable(fields: seq<Field>, d: Disk, d': Disk)
    requires forall x :: x in FieldEdges(fields) ==> FdeIdx(d, x) == FdeIdx(d', x)
    ensures FieldOps(fields, d) == FieldOps(fields, d')
  {
    if fields != [] { FieldOpsStable(fields[1..], d, d'); }
  }

  /** What is right stays right. */
  lemma RightLater(arena: Arena, d: Disk, d': Disk, k: nat)
    requires Proper(arena, d) && Later(d, d') && k < |d.frames| && FrameRight(arena, d, k)
    ensures FrameRight(arena, d', k)
  {
    assert d'.frames[k] == d'.frames[..|d.frames|][k];
    var tr := arena[d.frames[k].die];
    forall x | x in Edges(tr) ensures Named(arena, d', x) && FdeIdx(d', x) == FdeIdx(d, x) { NamedLater(arena, d, d', x); }
    if !tr.straight && tr.category.Struct? { FieldOpsStable(tr.fields, d, d'); }
  }

  lemma NamedLater(arena: Arena, d: Disk, d': Disk, x: nat)
    requires Later(d, d') && Named(arena, d, x)
    ensures Named(arena, d', x)
  {
    assert d'.frames[d.fde[x] - 1] == d'.frames[..|d.frames|][d.fde[x] - 1];
  }

  lemma RightJoin(arena: Arena, d: Disk, d1: Disk, d2: Disk)
    requires Proper(arena, d1) && Later(d1, d2) && |d.frames| <= |d1.frames|
    requires RightSince(arena, d, d1) && RightSince(arena, d1, d2)
    ensures RightSince(arena, d, d2)
  {
    forall k | |d.frames| <= k < |d2.frames| ensures FrameRight(arena, d2, k) {
      if k < |d1.frames| { RightLater(arena, d1, d2, k); }
    }
  }

  /** Where no wrapper can be reached from itself, everything that is written is right. */
  lemma WriteRight(arena: Arena, t: nat, d: Disk)
    requires NoWrapperCycle(arena) && Proper(arena, d) && AllNamed(arena, d) && Waiting(arena, d, t)
    requires Write(arena, t, d).Some?
    ensures var d' := Write(arena, t, d).value; RightSince(arena, d, d') && t in d'.fde
    decreases All(arena) - d.onDisk, 0, 0
  {
    if t in d.onDisk {
      NotWaiting(arena, t, d);
    } else {
      var tr := arena[t];
      assert All(arena) - (d.onDisk + {t}) < All(arena) - d.onDisk by { assert t in All(arena) - d.onDisk; }
      if Wrapper(tr) {
        WrapperRight(arena, t, d);
      } else {
        BeginProper(arena, t, d);
        BeginNamed(arena, t, d);
        var d1 := Begin(arena, t, d);
        hide Proper; hide Named; hide FrameRight; hide ClosedSince; hide NoWrapperCycle; hide Reaches; hide OpsOf; hide Finish; hide Edges;
        WaitingLater(arena, t, d, d1);
        WriteInstructionsRight(arena, t, d1);
        WriteInstructionsStructure(arena, t, d1);
        FinishRight(arena, t, d, WriteInstructions(arena, t, d1).value.0);
      }
    }
  }

  lemma WriteInstructionsRight(arena: Arena, t: nat, d: Disk)
    requires NoWrapperCycle(arena) && Proper(arena, d) && AllNamed(arena, d) && Waiting(arena, d, t)
    requires t < |arena| && !Wraps(arena, t) && WriteInstructions(arena, t, d).Some?
    ensures var (d', ops) := WriteInstructions(arena, t, d).value;
            && RightSince(arena, d, d') && ops == OpsOf(arena[t], d')
            && forall x :: x in Edges(arena[t]) ==> Named(arena, d', x)
    decreases All(arena) - d.onDisk, 2, 0
  {
    hide Proper; hide Named; hide FrameRight; hide ClosedSince; hide NoWrapperCycle; hide Reaches;
    var tr := arena[t];
    if tr.straight {
    } else if tr.category.Pointer? {
      if tr.target < |arena| { WaitingStep(arena, t, d, tr.target); }
      WriteRight(arena, tr.target, d);
    } else {
      WriteFieldsRight(arena, t, tr.fields, d);
    }
  }

  lemma WaitingStep(arena: Arena, t: nat, d: Disk, x: nat)
    requires Step(arena, t, x) && forall c :: c in d.onDisk && c !in d.fde ==> c == t || Reaches(arena, c, t)
    ensures Waiting(arena, d, x)
  {
    forall c | c in d.onDisk && c !in d.fde ensures Reaches(arena, c, x) { ReachesStep(arena, c, t, x); }
  }

  lemma WaitingEdge(arena: Arena, t: nat, d: Disk, x: nat)
    requires Step(arena, t, x) && Waiting(arena, d, t)
    ensures Waiting(arena, d, x)
  {
    WaitingStep(arena, t, d, x);
  }

  lemma NotWaiting(arena: Arena, t: nat, d: Disk)
    requires NoWrapperCycle(arena) && Proper(arena, d) && Waiting(arena, d, t) && t in d.onDisk
    ensures t in d.fde
  {
  }

  lemma WrapperRight(arena: Arena, t: nat, d: Disk)
    requires NoWrapperCycle(arena) && Proper(arena, d) && AllNamed(arena, d) && Waiting(arena, d, t)
    requires Wraps(arena, t) && t !in d.onDisk && Write(arena, t, d).Some?
    ensures var d' := Write(arena, t, d).value; RightSince(arena, d, d') && t in d'.fde
    decreases All(arena) - (d.onDisk + {t}), 1, 0
  {
    hide Named; hide NoWrapperCycle; hide Reaches; hide FrameRight; hide ClosedSince;
    var x := arena[t].target;
    var d1 := d.(onDisk := d.onDisk + {t});
    WrapperBegin(arena, t, d);
    if x < |arena| { WaitingStep(arena, t, d1, x); }
    WriteRight(arena, x, d1);
    WriteStructure(arena, x, d1);
    WrapperEnd(arena, t, d, Write(arena, x, d1).value);
  }

  lemma WrapperBegin(arena: Arena, t: nat, d: Disk)
    requires Proper(arena, d) && AllNamed(arena, d) && Wraps(arena, t) && t !in d.onDisk
    ensures var d1 := d.(onDisk := d.onDisk + {t}); Proper(arena, d1) && AllNamed(arena, d1)
    ensures arena[t].target in Edges(arena[t])
  {
    var d1 := d.(onDisk := d.onDisk + {t});
    forall k | 0 <= k < |d1.frames| ensures OwnFrame(arena, d1, k) { assert OwnFrame(arena, d, k); }
    forall y | y in d1.fde ensures Named(arena, d1, y) { assert Named(arena, d, y); }
  }

  lemma WrapperEnd(arena: Arena, t: nat, d: Disk, d2: Disk)
    requires Proper(arena, d) && Proper(arena, d2) && Wraps(arena, t) && t !in d.onDisk && arena[t].target < |arena|
    requires var d1 := d.(onDisk := d.onDisk + {t}); Later(d1, d2) && RightSince(arena, d1, d2)
    requires arena[t].target in d2.fde
    ensures var d' := d2.(fde := d2.fde[t := FdeIdx(d2, arena[t].target)]); RightSince(arena, d, d') && t in d'.fde
  {
    hide Proper; hide Leads; hide FrameRight;
    var x, d1 := arena[t].target, d.(onDisk := d.onDisk + {t});
    var d' := d2.(fde := d2.fde[t := FdeIdx(d2, x)]);
    assert t !in d2.fde by { SetsSame(arena, t, d); assert t in d1.onDisk - d1.fde.Keys; }
    LaterSeal(arena, t, d2);
    forall y | y in d'.fde ensures Named(arena, d', y) {
      if y == t {
        assert Named(arena, d2, x);
        LeadsStep(arena, t, d2.frames[d2.fde[x] - 1].die);
      } else {
        assert Named(arena, d2, y);
      }
    }
    forall k | |d.frames| <= k < |d'.frames| ensures FrameRight(arena, d', k) {
      RightLater(arena, d2, d', k);
    }
    SetsSame(arena, t, d);
    assert d'.onDisk - d'.fde.Keys == (d2.onDisk - d2.fde.Keys) - {t};
    assert (d1.onDisk - d1.fde.Keys) - {t} == d.onDisk - d.fde.Keys;
  }

  lemma SetsSame(arena: Arena, t: nat, d: Disk)
    requires Proper(arena, d) && t !in d.onDisk
    ensures t !in d.fde
  {
  }

  lemma LaterSeal(arena: Arena, t: nat, d2: Disk)
    requires t < |arena| && t !in d2.fde
    ensures Later(d2, d2.(fde := d2.fde[t := FdeIdx(d2, arena[t].target)]))
  {
    assert d2.frames[..|d2.frames|] == d2.frames;
  }

  lemma BeginNamed(arena: Arena, t: nat, d: Disk)
    requires Proper(arena, d) && AllNamed(arena, d) && t < |arena| && t !in d.onDisk && !Wraps(arena, t)
    ensures var d1 := Begin(arena, t, d); AllNamed(arena, d1) && Later(d, d1) && SameWaiting(d, d1)
  {
    var d1 := Begin(arena, t, d);
    assert d1.frames[..|d.frames|] == d.frames;
    LeadsSelf(arena, t);
    forall x | x in d1.fde ensures Named(arena, d1, x) {
      if x != t { NamedLater(arena, d, d1, x); }
    }
  }

  /** The new FDE gets its instructions. */
  lemma FinishRight(arena: Arena, t: nat, d: Disk, d2: Disk)
    requires Proper(arena, d) && Proper(arena, d2) && t < |arena| && t !in d.onDisk && !Wraps(arena, t)
    requires var d1 := Begin(arena, t, d); Later(d1, d2) && RightSince(arena, d1, d2) && SameWaiting(d, d1)
    requires forall x :: x in Edges(arena[t]) ==> Named(arena, d2, x)
    ensures var d' := Finish(d2, t, OpsOf(arena[t], d2)); RightSince(arena, d, d') && t in d'.fde
  {
    hide Leads; hide OpsOf; hide Edges; hide Proper;
    var d1, ops := Begin(arena, t, d), OpsOf(arena[t], d2);
    var d', n := Finish(d2, t, ops), |d.frames|;
    assert t in d1.fde && FdeIdx(d2, t) == n + 1;
    assert d2.frames[n] == d2.frames[..n + 1][n];
    forall x | x in d'.fde ensures Named(arena, d', x) { assert Named(arena, d2, x); }
    forall x | Named(arena, d2, x) ensures Named(arena, d', x) {}
    SameOps(arena[t], d2, d');
    forall k | n <= k < |d'.frames| ensures FrameRight(arena, d', k) {
      if k > n {
        assert FrameRight(arena, d2, k);
        SameOps(arena[d2.frames[k].die], d2, d');
      }
    }
  }

  lemma SameOps(tr: Transform, d: Disk, d': Disk)
    requires d.fde == d'.fde
    ensures OpsOf(tr, d) == OpsOf(tr, d')
  {
    if !tr.straight && tr.category.Struct? { FieldOpsStable(tr.fields, d, d'); }
  }

  lemma WaitingLater(arena: Arena, t: nat, d: Disk, d1: Disk)
    requires Waiting(arena, d, t) && SameWaiting(d, d1)
    ensures Waiting(arena, d1, t)
  {
    forall c | c in d1.onDisk && c !in d1.fde ensures Reaches(arena, c, t) { assert c in d1.onDisk - d1.fde.Keys; }
  }

  lemma FieldJoin(arena: Arena, f: Field, rest: seq<Field>, d: Disk, d1: Disk, d2: Disk)
    requires f.kind.RecurseKind? && f.target in d1.fde && Proper(arena, d1) && Later(d, d1) && Later(d1, d2)
    requires RightSince(arena, d, d1) && RightSince(arena, d1, d2)
    ensures RightSince(arena, d, d2) && Named(arena, d2, f.target)
    ensures FieldOps([f] + rest, d2)
         == [FixField(f.pointer, f.size, f.newOffset, f.oldOffset, f.target, FdeIdx(d1, f.target))] + FieldOps(rest, d2)
    ensures FieldEdges([f] + rest) == [f.target] + FieldEdges(rest)
  {
    hide Proper; hide Leads; hide FrameRight;
    RightJoin(arena, d, d1, d2);
    assert Named(arena, d1, f.target);
    NamedLater(arena, d1, d2, f.target);
    assert ([f] + rest)[1..] == rest;
  }

  lemma RightSelf(arena: Arena, d: Disk)
    requires AllNamed(arena, d)
    ensures RightSince(arena, d, d)
  {
  }

  lemma StillWaiting(arena: Arena, t: nat, d: Disk, d1: Disk)
    requires Waiting(arena, d, t) && RightSince(arena, d, d1)
    ensures Waiting(arena, d1, t) && AllNamed(arena, d1)
  {
    WaitingLater(arena, t, d, d1);
  }

  lemma WriteFieldsRight(arena: Arena, t: nat, fields: seq<Field>, d: Disk)
    requires NoWrapperCycle(arena) && Proper(arena, d) && AllNamed(arena, d) && Waiting(arena, d, t)
    requires t < |arena| && forall x :: x in FieldEdges(fields) ==> x in Edges(arena[t])
    requires WriteFields(arena, fields, d).Some?
    ensures var (d', ops) := WriteFields(arena, fields, d).value;
            && RightSince(arena, d, d') && ops == FieldOps(fields, d')
            && forall x :: x in FieldEdges(fields) ==> Named(arena, d', x)
    decreases All(arena) - d.onDisk, 1, |fields|
  {
    hide Proper; hide NoWrapperCycle; hide ClosedSince; hide Waiting; hide Named; hide RightSince; hide Edges; hide Later; hide AllNamed;
    if fields == [] {
      RightSelf(arena, d);
    } else {
      var f := fields[0];
      var (d', ops) := WriteFields(arena, fields, d).value;
      if f.kind.RecurseKind? {
        assert f.target in FieldEdges(fields);
        if f.target < |arena| { WaitingEdge(arena, t, d, f.target); }
        WriteRight(arena, f.target, d);
        WriteStructure(arena, f.target, d);
        var d1 := Write(arena, f.target, d).value;
        StillWaiting(arena, t, d, d1);
        WriteFieldsRight(arena, t, fields[1..], d1);
        WriteFieldsStructure(arena, fields[1..], d1);
        FieldJoin(arena, f, fields[1..], d, d1, d');
        assert [f] + fields[1..] == fields;
      } else {
        WriteFieldsRight(arena, t, fields[1..], d);
      }
    }
  }

  /** Over any sequence of calls everything on disk stays right, as long as no wrapper
      can be reached from itself. */
  lemma WriteCorrect(arena: Arena, t: nat, d: Disk)
    requires NoWrapperCycle(arena) && Proper(arena, d) && Correct(arena, d) && Write(arena, t, d).Some?
    ensures var d' := Write(arena, t, d).value; Proper(arena, d') && Correct(arena, d') && t in d'.fde
  {
    var d' := Write(arena, t, d).value;
    assert d.onDisk - d.fde.Keys == {} by { assert forall c :: c in d.onDisk ==> Named(arena, d, c); }
    assert forall c :: c in d.onDisk - d.fde.Keys <==> c in d.onDisk && c !in d.fde;
    WriteRight(arena, t, d);
    WriteStructure(arena, t, d);
    hide Proper; hide FrameRight;
    forall x | x in d'.onDisk ensures Named(arena, d', x) {
      assert x !in d'.onDisk - d'.fde.Keys;
    }
    forall k | 0 <= k < |d'.frames| ensures FrameRight(arena, d', k) {
      if k < |d.frames| { RightLater(arena, d, d', k); }
    }
  }

  // ----- a wrapper on a cycle -----

  /** A chain of wrappers from x to the wrapper c. */
  ghost predicate Linked(arena: Arena, x: nat, c: nat)
  {
    Wraps(arena, c) && exists p :: Path(arena, p) && Links(p, x, c) && Wrappers(arena, p)
  }

  /** While c waits for its index, whatever is written for it is zero. */
  ghost predicate Blind(arena: Arena, d: Disk, c: nat)
  {
    && c in d.onDisk && c !in d.fde
    && (forall x :: x in d.fde && Linked(arena, x, c) ==> d.fde[x] == 0)
    && forall k :: 0 <= k < |d.frames| ==> BlindOps(arena, d.frames[k].ops, c)
  }

  ghost predicate BlindOps(arena: Arena, ops: seq<Op>, c: nat)
  {
    forall op :: op in ops && (op.FixPointer? || op.FixField?) && Linked(arena, op.target, c) ==> op.fde == 0
  }

  lemma LinkedTail(arena: Arena, x: nat, c: nat)
    requires Linked(arena, x, c) && x != c
    ensures Wraps(arena, x) && Linked(arena, arena[x].target, c)
  {
    var p :| Path(arena, p) && Links(p, x, c) && Wrappers(arena, p);
    PathTail(arena, p);
    assert Links(p[1..], arena[x].target, c);
    assert Wraps(arena, p[0]);
  }

  lemma BlindIdx(arena: Arena, d: Disk, c: nat, x: nat)
    requires Blind(arena, d, c) && Linked(arena, x, c)
    ensures FdeIdx(d, x) == 0
  {
  }

  lemma NotLinked(arena: Arena, x: nat, c: nat)
    requires !Wraps(arena, x)
    ensures !Linked(arena, x, c)
  {
    if Linked(arena, x, c) && x != c { LinkedTail(arena, x, c); }
  }

  lemma WriteBlind(arena: Arena, t: nat, d: Disk, c: nat)
    requires Proper(arena, d) && Blind(arena, d, c) && Write(arena, t, d).Some?
    ensures Blind(arena, Write(arena, t, d).value, c)
    decreases All(arena) - d.onDisk, 0, 0
  {
    if t !in d.onDisk {
      var tr := arena[t];
      assert All(arena) - (d.onDisk + {t}) < All(arena) - d.onDisk by { assert t in All(arena) - d.onDisk; }
      if Wrapper(tr) {
        hide Linked; hide BlindOps;
        var d1 := d.(onDisk := d.onDisk + {t});
        forall k | 0 <= k < |d1.frames| ensures OwnFrame(arena, d1, k) { assert OwnFrame(arena, d, k); }
        WriteBlind(arena, tr.target, d1, c);
        var d2 := Write(arena, tr.target, d1).value;
        if Linked(arena, t, c) {
          LinkedTail(arena, t, c);
          BlindIdx(arena, d2, c, tr.target);
        }
      } else {
        NotLinked(arena, t, c);
        BeginProper(arena, t, d);
        var d1 := Begin(arena, t, d);
        hide Linked; hide Proper;
        assert BlindOps(arena, [], c);
        forall k | 0 <= k < |d1.frames| ensures BlindOps(arena, d1.frames[k].ops, c) {
          if k < |d.frames| { assert BlindOps(arena, d.frames[k].ops, c); }
        }
        WriteInstructionsBlind(arena, t, d1, c);
        hide BlindOps;
        var (d2, ops) := WriteInstructions(arena, t, d1).value;
        var d' := Finish(d2, t, ops);
        forall k | 0 <= k < |d'.frames| ensures BlindOps(arena, d'.frames[k].ops, c) {
          assert BlindOps(arena, d2.frames[k].ops, c);
        }
      }
    }
  }

  lemma WriteInstructionsBlind(arena: Arena, t: nat, d: Disk, c: nat)
    requires Proper(arena, d) && Blind(arena, d, c) && t < |arena| && !Wraps(arena, t)
    requires WriteInstructions(arena, t, d).Some?
    ensures var (d', ops) := WriteInstructions(arena, t, d).value; Blind(arena, d', c) && BlindOps(arena, ops, c)
    decreases All(arena) - d.onDisk, 2, 0
  {
    hide Linked; hide Proper;
    var tr := arena[t];
    if tr.straight {
    } else if tr.category.Pointer? {
      WriteBlind(arena, tr.target, d, c);
      var d2 := Write(arena, tr.target, d).value;
      if Linked(arena, tr.target, c) { BlindIdx(arena, d2, c, tr.target); }
    } else {
      WriteFieldsBlind(arena, tr.fields, d, c);
    }
  }

  lemma WriteFieldsBlind(arena: Arena, fields: seq<Field>, d: Disk, c: nat)
    requires Proper(arena, d) && Blind(arena, d, c) && WriteFields(arena, fields, d).Some?
    ensures var (d', ops) := WriteFields(arena, fields, d).value; Blind(arena, d', c) && BlindOps(arena, ops, c)
    decreases All(arena) - d.onDisk, 1, |fields|
  {
    hide Linked; hide Proper; hide Blind;
    if fields != [] {
      var f := fields[0];
      if f.kind.RecurseKind? {
        WriteBlind(arena, f.target, d, c);
        WriteStructure(arena, f.target, d);
        var d1 := Write(arena, f.target, d).value;
        WriteFieldsBlind(arena, fields[1..], d1, c);
        if Linked(arena, f.target, c) { BlindIdx(arena, d1, c, f.target); }
      } else {
        WriteFieldsBlind(arena, fields[1..], d, c);
      }
    }
  }

  lemma LinkedStep(arena: Arena, x: nat, y: nat, c: nat)
    requires Wraps(arena, x) && Step(arena, x, y) && Linked(arena, y, c)
    ensures Linked(arena, x, c)
  {
    var p :| Path(arena, p) && Links(p, y, c) && Wrappers(arena, p);
    var q := [x] + p;
    assert Path(arena, q) && Links(q, x, c) && Wrappers(arena, q);
  }

  lemma LinkedSelf(arena: Arena, c: nat)
    requires Wraps(arena, c)
    ensures Linked(arena, c, c)
  {
    var p := [c];
    assert Path(arena, p) && Links(p, c, c) && Wrappers(arena, p);
  }

  lemma {:induction false} PathOnDisk(arena: Arena, p: seq<nat>, d: Disk, i: nat)
    requires Path(arena, p) && p[0] in d.onDisk && ClosedSince(arena, FRESH, d) && i < |p|
    ensures p[i] in d.onDisk
  {
    if i > 0 {
      PathOnDisk(arena, p, d, i - 1);
      assert Step(arena, p[i - 1], p[i - 1 + 1]);
    }
  }

  lemma {:induction false} OpFor(ops: seq<Op>, x: nat) returns (op: Op)
    requires x in OpTargets(ops)
    ensures op in ops && (op.FixPointer? || op.FixField?) && op.target == x
  {
    if (ops[0].FixPointer? || ops[0].FixField?) && ops[0].target == x {
      op := ops[0];
    } else {
      op := OpFor(ops[1..], x);
    }
  }

  lemma {:induction false} FieldOpsIdx(fields: seq<Field>, d: Disk, op: Op)
    requires op in FieldOps(fields, d) && (op.FixPointer? || op.FixField?)
    ensures op.fde == FdeIdx(d, op.target)
  {
    var f := fields[0];
    if op in FieldOps(fields[1..], d) {
      FieldOpsIdx(fields[1..], d, op);
    }
  }

  /** A fixup that got index zero is not right. */
  lemma ZeroOpWrong(arena: Arena, d: Disk, k: nat, op: Op)
    requires k < |d.frames| && op in d.frames[k].ops && (op.FixPointer? || op.FixField?) && op.fde == 0
    requires d.frames[k].die < |arena| && op.target in Edges(arena[d.frames[k].die])
    ensures !FrameRight(arena, d, k)
  {
    var tr := arena[d.frames[k].die];
    if FrameRight(arena, d, k) {
      assert Named(arena, d, op.target);
      if !tr.straight && tr.category.Struct? { FieldOpsIdx(tr.fields, d, op); }
    }
  }

  /** The last transform on the cycle that is not a wrapper has such a fixup. */
  lemma CycleOp(arena: Arena, u: nat, y: nat, c: nat, d: Disk)
    requires Proper(arena, d) && ClosedSince(arena, FRESH, d) && Step(arena, u, y) && Linked(arena, y, c)
    requires !Wraps(arena, u) && u in d.onDisk && forall k :: 0 <= k < |d.frames| ==> BlindOps(arena, d.frames[k].ops, c)
    ensures !Correct(arena, d)
  {
    var k := d.fde[u] - 1;
    assert FrameTargets(arena, d, k);
    var op := OpFor(d.frames[k].ops, y);
    assert BlindOps(arena, d.frames[k].ops, c);
    ZeroOpWrong(arena, d, k, op);
  }

  lemma {:induction false} CycleWrong(arena: Arena, p: seq<nat>, j: nat, c: nat, d: Disk)
    requires Path(arena, p) && 0 < j < |p| && Linked(arena, p[j], c) && p[0] in d.onDisk
    requires Proper(arena, d) && ClosedSince(arena, FRESH, d)
    requires forall k :: 0 <= k < |d.frames| ==> BlindOps(arena, d.frames[k].ops, c)
    ensures !Correct(arena, d) || (Wraps(arena, p[0]) && Linked(arena, arena[p[0]].target, c))
    decreases j
  {
    hide Proper; hide Linked; hide BlindOps; hide ClosedSince; hide Correct;
    assert Step(arena, p[j - 1], p[j - 1 + 1]);
    if !Wraps(arena, p[j - 1]) {
      PathOnDisk(arena, p, d, j - 1);
      CycleOp(arena, p[j - 1], p[j], c, d);
    } else if j > 1 {
      LinkedStep(arena, p[j - 1], p[j], c);
      CycleWrong(arena, p, j - 1, c, d);
    }
  }

  /** A wrapper that can be reached from itself spoils the FDEs when writing starts
      with it: a fixup for it, or it itself, is left with index zero. */
  lemma WrapperCycleFails(arena: Arena, c: nat)
    requires Wraps(arena, c) && Reaches(arena, c, c) && Write(arena, c, FRESH).Some?
    ensures !Correct(arena, Write(arena, c, FRESH).value)
  {
    var x, d1 := arena[c].target, FRESH.(onDisk := {c});
    assert FRESH.onDisk + {c} == {c};
    WriteBlind(arena, x, d1, c);
    WriteStructure(arena, c, FRESH);
    var d2, d' := Write(arena, x, d1).value, Write(arena, c, FRESH).value;
    var p :| Path(arena, p) && Links(p, c, c) && |p| > 1;
    LinkedSelf(arena, c);
    CycleWrong(arena, p, |p| - 1, c, d');
    if Linked(arena, x, c) {
      BlindIdx(arena, d2, c, x);
      assert d'.fde[c] == 0;
      assert !Named(arena, d', c);
    }
  }

  // ----- what is supported -----

  predicate Supported(arena: Arena, t: nat)
  {
    t < |arena| &&
    var tr := arena[t];
    && (tr.straight ==> tr.fromLength <= tr.toLength)
    && (!tr.straight ==> !tr.category.Other?)
    && forall x :: x in Edges(tr) ==> x < |arena|
  }

  predicate AllSupported(arena: Arena) { forall t: nat :: t < |arena| ==> Supported(arena, t) }

  // ----- exactly when it stops -----

  /** x is t or is referred to, over any number of references. */
  ghost predicate Needed(arena: Arena, t: nat, x: nat) { x == t || Reaches(arena, t, x) }

  /** All that t needs is supported. */
  ghost predicate NeedsSupported(arena: Arena, t: nat) { forall x: nat :: Needed(arena, t, x) ==> Supported(arena, x) }

  /** What is on disk is supported, and so is all it refers to. */
  predicate SupportedDisk(arena: Arena, some: set<nat>, onDisk: set<nat>)
  {
    forall x :: x in some ==> x < |arena| && Supported(arena, x) && forall y :: y in Edges(arena[x]) ==> y in onDisk
  }

  lemma MoreSupported(arena: Arena, a: set<nat>, b: set<nat>, c: set<nat>, onDisk: set<nat>, later: set<nat>)
    requires SupportedDisk(arena, a, onDisk) && SupportedDisk(arena, b, later) && onDisk <= later && c <= a + b
    ensures SupportedDisk(arena, c, later)
  {
    hide Supported, Edges;
  }

  /** What a call has written is supported. */
  lemma WriteNeeds(arena: Arena, t: nat, d: Disk)
    requires d.onDisk <= All(arena) && Write(arena, t, d).Some?
    ensures t < |arena| && SupportedDisk(arena, Write(arena, t, d).value.onDisk - d.onDisk, Write(arena, t, d).value.onDisk)
    decreases All(arena) - d.onDisk, 0, 0
  {
    if t !in d.onDisk {
      var tr, r := arena[t], Write(arena, t, d).value;
      assert All(arena) - (d.onDisk + {t}) < All(arena) - d.onDisk by { assert t in All(arena) - d.onDisk; }
      if Wrapper(tr) {
        var d1 := d.(onDisk := d.onDisk + {t});
        WriteNeeds(arena, tr.target, d1);
        assert SupportedDisk(arena, {t}, r.onDisk);
        MoreSupported(arena, r.onDisk - d1.onDisk, {t}, r.onDisk - d.onDisk, r.onDisk, r.onDisk);
      } else {
        var d1 := Begin(arena, t, d);
        InstructionsNeed(arena, t, d1);
        var d2 := WriteInstructions(arena, t, d1).value.0;
        assert r.onDisk == d2.onDisk;
        MoreSupported(arena, d2.onDisk - d1.onDisk, {t}, r.onDisk - d.onDisk, r.onDisk, r.onDisk);
      }
    }
  }

  lemma InstructionsNeed(arena: Arena, t: nat, d: Disk)
    requires d.onDisk <= All(arena) && t < |arena| && !Wrapper(arena[t]) && WriteInstructions(arena, t, d).Some?
    ensures var r := WriteInstructions(arena, t, d).value.0.onDisk;
      SupportedDisk(arena, {t}, r) && SupportedDisk(arena, r - d.onDisk, r)
    decreases All(arena) - d.onDisk, 2, 0
  {
    var tr := arena[t];
    if tr.straight {
    } else if tr.category.Pointer? {
      WriteNeeds(arena, tr.target, d);
    } else {
      FieldsNeed(arena, tr.fields, d);
      assert Edges(tr) == FieldEdges(tr.fields);
    }
  }

  lemma FieldsNeed(arena: Arena, fields: seq<Field>, d: Disk)
    requires d.onDisk <= All(arena) && WriteFields(arena, fields, d).Some?
    ensures var r := WriteFields(arena, fields, d).value.0.onDisk;
      SupportedDisk(arena, r - d.onDisk, r) && forall x :: x in FieldEdges(fields) ==> x < |arena| && x in r
    decreases All(arena) - d.onDisk, 1, |fields|
  {
    hide SupportedDisk, All, Write;
    NothingNeeded(arena, d.onDisk);
    if fields != [] {
      if fields[0].kind.RecurseKind? {
        WriteNeeds(arena, fields[0].target, d);
        var d1 := Write(arena, fields[0].target, d).value;
        FieldsNeed(arena, fields[1..], d1);
        var r := WriteFields(arena, fields[1..], d1).value.0.onDisk;
        MoreSupported(arena, d1.onDisk - d.onDisk, r - d1.onDisk, r - d.onDisk, d1.onDisk, r);
      } else {
        FieldsNeed(arena, fields[1..], d);
      }
    }
  }

  lemma NothingNeeded(arena: Arena, onDisk: set<nat>)
    ensures SupportedDisk(arena, onDisk - onDisk, onDisk)
  {
  }

  /** What is reached from a closed disk is on it. */
  lemma ReachedOnDisk(arena: Arena, onDisk: set<nat>, t: nat, x: nat)
    requires SupportedDisk(arena, onDisk, onDisk) && t in onDisk && Needed(arena, t, x)
    ensures x in onDisk && Supported(arena, x)
  {
    hide Supported;
    if x != t {
      var p :| Path(arena, p) && Links(p, t, x) && |p| > 1;
      PathInside(arena, onDisk, p, |p| - 1);
    }
  }

  lemma {:induction false} PathInside(arena: Arena, onDisk: set<nat>, p: seq<nat>, i: nat)
    requires SupportedDisk(arena, onDisk, onDisk) && Path(arena, p) && p[0] in onDisk && i < |p|
    ensures p[i] in onDisk
  {
    hide Supported, Edges;
    if i > 0 {
      PathInside(arena, onDisk, p, i - 1);
      assert Step(arena, p[i - 1], p[i]);
    }
  }

  /** Writing succeeds where all that is needed is supported. */
  lemma WriteReached(arena: Arena, t: nat, d: Disk)
    requires d.onDisk <= All(arena) && NeedsSupported(arena, t)
    ensures Write(arena, t, d).Some?
    decreases All(arena) - d.onDisk, 0, 0
  {
    assert Needed(arena, t, t) && Supported(arena, t);
    if t !in d.onDisk {
      var tr := arena[t];
      assert All(arena) - (d.onDisk + {t}) < All(arena) - d.onDisk by { assert t in All(arena) - d.onDisk; }
      hide Supported, NeedsSupported, Reaches;
      if Wrapper(tr) {
        NeededStep(arena, t, tr.target);
        WriteReached(arena, tr.target, d.(onDisk := d.onDisk + {t}));
      } else if !tr.straight {
        if tr.category.Pointer? {
          NeededStep(arena, t, tr.target);
          WriteReached(arena, tr.target, Begin(arena, t, d));
        } else {
          forall x | x in FieldEdges(tr.fields) ensures NeedsSupported(arena, x) {
            assert tr.category.Struct? by { StructCase(arena, t); }
            assert x in Edges(tr);
            NeededStep(arena, t, x);
          }
          FieldsReached(arena, tr.fields, Begin(arena, t, d));
          StructCase(arena, t);
        }
      } else {
        StructCase(arena, t);
      }
    }
  }

  lemma StructCase(arena: Arena, t: nat)
    requires Supported(arena, t)
    ensures t < |arena|
    ensures var tr := arena[t];
      (tr.straight ==> tr.fromLength <= tr.toLength) && (!tr.straight ==> tr.category.Const? || tr.category.Pointer? || tr.category.Struct?)
  {
  }

  lemma NeededStep(arena: Arena, t: nat, x: nat)
    requires NeedsSupported(arena, t) && t < |arena| && x in Edges(arena[t])
    ensures NeedsSupported(arena, x)
  {
    hide Edges;
    assert Needed(arena, t, t) && Supported(arena, t);
    hide Supported;
    assert x < |arena| by { EdgeInside(arena, t, x); }
    forall y: nat | Needed(arena, x, y) ensures Supported(arena, y) {
      StepReaches(arena, t, x, y);
      assert Needed(arena, t, y);
    }
  }

  lemma EdgeInside(arena: Arena, t: nat, x: nat)
    requires Supported(arena, t) && x in Edges(arena[t])
    ensures x < |arena|
  {
  }

  lemma StepReaches(arena: Arena, t: nat, x: nat, y: nat)
    requires t < |arena| && x < |arena| && x in Edges(arena[t]) && Needed(arena, x, y)
    ensures Reaches(arena, t, y)
  {
    hide Edges;
    if y == x {
      var p := [t, x];
      assert Path(arena, p) && Links(p, t, x) && |p| > 1;
    } else {
      var p :| Path(arena, p) && Links(p, x, y) && |p| > 1;
      var q := [t] + p;
      forall i | 0 <= i < |q| - 1 ensures Step(arena, q[i], q[i + 1]) {
        if i > 0 { assert q[i] == p[i - 1] && q[i + 1] == p[i]; }
      }
      assert Path(arena, q) && Links(q, t, y) && |q| > 1;
    }
  }

  lemma FieldsReached(arena: Arena, fields: seq<Field>, d: Disk)
    requires d.onDisk <= All(arena) && forall x :: x in FieldEdges(fields) ==> NeedsSupported(arena, x)
    ensures WriteFields(arena, fields, d).Some?
    decreases All(arena) - d.onDisk, 1, |fields|
  {
    hide NeedsSupported, All, Write;
    if fields != [] {
      assert forall x :: x in FieldEdges(fields[1..]) ==> x in FieldEdges(fields);
      if fields[0].kind.RecurseKind? {
        assert fields[0].target in FieldEdges(fields);
        WriteReached(arena, fields[0].target, d);
        FieldsReached(arena, fields[1..], Write(arena, fields[0].target, d).value);
      } else {
        FieldsReached(arena, fields[1..], d);
      }
    }
  }

  /** Writing succeeds exactly when the transform and all that it refers to, over any number of references, are
      there and supported. */
  lemma WriteIff(arena: Arena, t: nat, d: Disk)
    requires d.onDisk <= All(arena) && SupportedDisk(arena, d.onDisk, d.onDisk)
    ensures Write(arena, t, d).Some? <==> NeedsSupported(arena, t)
    ensures Write(arena, t, d).Some? ==>
      SupportedDisk(arena, Write(arena, t, d).value.onDisk, Write(arena, t, d).value.onDisk)
  {
    hide Write, Supported, NeedsSupported, Reaches;
    if Write(arena, t, d).Some? {
      var r := Write(arena, t, d).value.onDisk;
      WriteNeeds(arena, t, d);
      MoreSupported(arena, d.onDisk, r - d.onDisk, r, d.onDisk, r);
      OnDiskNeeds(arena, r, t);
    }
    if NeedsSupported(arena, t) { WriteReached(arena, t, d); }
  }

  lemma OnDiskNeeds(arena: Arena, onDisk: set<nat>, t: nat)
    requires SupportedDisk(arena, onDisk, onDisk) && t in onDisk
    ensures NeedsSupported(arena, t)
  {
    hide Supported;
    forall x: nat | Needed(arena, t, x) ensures Supported(arena, x) { ReachedOnDisk(arena, onDisk, t, x); }
  }

  /** Where every transform is supported nothing stops the compiler. */
  lemma WriteSucceeds(arena: Arena, t: nat, d: Disk)
    requires d.onDisk <= All(arena) && t < |arena| && AllSupported(arena)
    ensures Write(arena, t, d).Some?
  {
    hide Supported, Write;
    forall x: nat | Needed(arena, t, x) ensures Supported(arena, x) {
      if x != t {
        var p :| Path(arena, p) && Links(p, t, x) && |p| > 1;
        assert Step(arena, p[|p| - 2], p[|p| - 2 + 1]);
      }
    }
    WriteReached(arena, t, d);
  }

  /** The compiler is right wherever writing starts exactly when no const wrapper can
      be reached from itself. */
  lemma CompilerRightIff(arena: Arena)
    requires AllSupported(arena)
    ensures (forall t: nat :: t < |arena| ==> Write(arena, t, FRESH).Some? && Correct(arena, Write(arena, t, FRESH).value))
       <==> NoWrapperCycle(arena)
  {
    hide Correct; hide Supported; hide Write; hide Reaches;
    FreshCorrect(arena);
    forall t: nat | t < |arena|
      ensures Write(arena, t, FRESH).Some?
      ensures NoWrapperCycle(arena) ==> Correct(arena, Write(arena, t, FRESH).value)
    {
      WriteSucceeds(arena, t, FRESH);
      if NoWrapperCycle(arena) { WriteCorrect(arena, t, FRESH); }
    }
    if !NoWrapperCycle(arena) {
      var c: nat :| Wraps(arena, c) && Reaches(arena, c, c);
      WrapperCycleFails(arena, c);
    }
  }

  lemma FreshCorrect(arena: Arena)
    ensures Proper(arena, FRESH) && Correct(arena, FRESH)
  {
  }
}
