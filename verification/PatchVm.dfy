/** makePatchData and generatePatchesFromFDEAndState (dwarfvm.c): the rules of an
    FDE become a batch of memory writes.  Pointers are followed through the old
    heap; dataMoved remembers what has been moved where. */
module PatchVm {
  import opened Bytes
  import opened Registers
  import opened Cfa
  import opened TableSpec
  import opened RuleVm
  import opened Target
  import Leb

  /** A frame description entry of a patch object: memSize is the size of the new object. */
  datatype Fde = Fde(cie: Cie, instrs: seq<Instr>, lowpc: int, highpc: int, memSize: nat)

  /** Where the patch puts an old address: outside of every symbol, in a symbol that
      moves, or in one the patch does not know. */
  datatype Location = NoSymbol | Moved(to: word) | Unknown

  datatype Block = Block(start: word, size: nat)

  /** What dataMoved looks at of an address: its bucket and its low 32 bits, as the source has it, or
      all of it. */
  datatype Memo = ByBucket(hash: word -> nat) | ByAddress

  /** What surrounds the machine: the FDEs, the target's memory, the symbol tables,
      and malloc in the target (which may fail). */
  datatype Env = Env(
    fdes: seq<Fde>,
    depth: seq<nat>,
    mem: Memory,
    oldSymbol: u32 -> word,
    locate: word -> Location,
    malloc: (seq<Block>, nat) -> Option<word>,
    memo: Memo)

  function KeyOf(env: Env, p: word): (key: Key)
    ensures key.0 < HALF_WORD && key.1 < HALF_WORD
  {
    match env.memo
    case ByBucket(hash) => AddressKey(hash, p)
    case ByAddress => WholeKey(p)
  }

  /** Both halves of an address. */
  function WholeKey(p: word): Key { (p / HALF_WORD, p % HALF_WORD) }

  ghost function AllKeys(): set<Key>
  {
    set b, l | 0 <= b < HALF_WORD && 0 <= l < HALF_WORD :: (b, l)
  }

  /** An entry of dataMoved, with the FDE the object was moved with and the block
      it got from malloc. */
  datatype Move = Move(old_: word, new_: word, fde: nat, block: Option<nat>)

  /** dataMoved and the blocks handed out so far. */
  datatype Heap = Heap(moved: map<Key, Move>, blocks: seq<Block>)

  datatype Regs = Regs(addrOld: word, addrNew: word)

  datatype Patch = Patch(addr: word, data: seq<byte>)

  // ----- registers -----

  /** memcpyFromTarget. */
  function ReadMemory(mem: Memory, a: word, n: nat): (r: Option<seq<byte>>)
    ensures r.Some? ==> |r.value| == n
  {
    if Readable(mem, a, n) then Some(Slice(mem, a, n)) else None
  }

  function Displaced(a: word, offset: u32): word { (a + AsInt(offset)) % WORD }

  /** resolveRegisterValue without dereferencing. */
  function ResolveAddress(env: Env, reg: Reg, regs: Regs): Option<word>
  {
    match reg
    case CurrTargNew(_, off) => NonZero(Displaced(regs.addrNew, off))
    case CurrTargOld(_, off) => NonZero(Displaced(regs.addrOld, off))
    case OldSymVal(i) => Some(env.oldSymbol(i))
    case _ => None
  }

  /** An address of zero makes resolveRegisterValue fall through to its abort. */
  function NonZero(a: word): Option<word> { if a == 0 then None else Some(a) }

  /** resolveRegisterValue for the register that is assigned. */
  function ResolveTarget(reg: Reg, regs: Regs): Option<word>
  {
    if reg.CurrTargNew? then NonZero(Displaced(regs.addrNew, reg.offset)) else None
  }

  /** resolveRegisterValue with dereferencing; sizes are ints. */
  function ResolveBytes(env: Env, reg: Reg, regs: Regs): Option<seq<byte>>
  {
    match reg
    case OldSymVal(i) => Some(ToBytes(env.oldSymbol(i), 8))
    case CurrTargNew(size, _) => DereferenceAt(env, ResolveAddress(env, reg, regs), size)
    case CurrTargOld(size, _) => DereferenceAt(env, ResolveAddress(env, reg, regs), size)
    case _ => None
  }

  function DereferenceAt(env: Env, a: Option<word>, size: u32): (r: Option<seq<byte>>)
    ensures r.Some? ==> |r.value| == size
  {
    if a.None? || size >= HALF_WORD / 2 then None else ReadMemory(env.mem, a.value, size)
  }

  /** The pointer that a fixup reads. */
  function ReadPointer(env: Env, reg: Reg, regs: Regs): (p: Option<word>)
  {
    var bs :- ResolveBytes(env, reg, regs);
    if |bs| != 8 then None
    else
      UnsignedBelow8(bs);
      Some(Unsigned(bs))
  }

  lemma UnsignedBelow8(bs: seq<byte>)
    requires |bs| == 8
    ensures 0 <= Unsigned(bs) < WORD
  {
    Leb.UnsignedBelow(bs);
    assert Base256(8) == WORD;
  }

  // ----- generating patches -----

  function FdeRules(env: Env, k: nat): Option<Rules>
  {
    if k == 0 || k > |env.fdes| then None
    else
      var f := env.fdes[k - 1];
      var end :- Run(f.cie, f.instrs, State(f.lowpc, [], []), f.highpc);
      Some(end.rules)
  }

  function DepthOf(env: Env, k: nat): nat
  {
    if 0 < k <= |env.depth| then env.depth[k - 1] else 0
  }

  predicate Descends(env: Env, k: nat, rule: Rule)
  {
    rule.kind.RecurseFixup? ==> DepthOf(env, rule.index) < DepthOf(env, k)
  }

  /** Objects contain others by value only to a finite depth. */
  ghost predicate Nested(env: Env)
  {
    forall k: nat, e :: FdeRules(env, k).Some? && e in FdeRules(env, k).value ==> Descends(env, k, e.value)
  }

  /** dataMoved only grows, and so does the list of blocks. */
  predicate Grows(h: Heap, h': Heap)
  {
    && h.blocks <= h'.blocks
    && forall key :: key in h.moved ==> key in h'.moved && h'.moved[key] == h.moved[key]
  }

  /** Where the object behind a pointer goes, and the block for it if it needs one. */
  function Place(env: Env, p: word, k: nat, h: Heap): Option<(word, Heap)>
  {
    match env.locate(p)
    case Unknown => None
    case Moved(to) => Some((to, h.(moved := h.moved[KeyOf(env, p) := Move(p, to, k, None)])))
    case NoSymbol =>
      if k == 0 || k > |env.fdes| then None
      else
        var size := env.fdes[k - 1].memSize;
        var a :- env.malloc(h.blocks, size);
        Some((a, Heap(h.moved[KeyOf(env, p) := Move(p, a, k, Some(|h.blocks|))], h.blocks + [Block(a, size)])))
  }

  /** makePatchData. */
  function GenRule(env: Env, k: nat, rule: Rule, regs: Regs, h: Heap): (r: Option<(Heap, seq<Patch>)>)
    requires Nested(env)
    requires Descends(env, k, rule)
    requires h.moved.Keys <= AllKeys()
    ensures r.Some? ==> Grows(h, r.value.0) && r.value.0.moved.Keys <= AllKeys()
    decreases AllKeys() - h.moved.Keys, DepthOf(env, k), 0, 0
  {
    var a :- ResolveTarget(rule.lh, regs);
    match rule.kind
    case Undef => Some((h, []))
    case OffsetRule =>
      var bs :- DereferenceAt(env, Some(rule.offset % WORD), if rule.lh.size != 0 then rule.lh.size else 8);
      Some((h, [Patch(a, bs)]))
    case RegisterRule =>
      var bs :- ResolveBytes(env, rule.rh, regs);
      Some((h, [Patch(a, bs)]))
    case CfaRule => None
    case RecurseFixup =>
      var o :- ResolveAddress(env, rule.rh, regs);
      GenFde(env, rule.index, Regs(o, a), h)
    case RecurseFixupPointer =>
      var p :- ReadPointer(env, rule.rh, regs);
      if p == 0 then Some((h, [Patch(a, ToBytes(0, 8))]))
      else if KeyOf(env, p) in h.moved then Some((h, [Patch(a, ToBytes(h.moved[KeyOf(env, p)].new_, 8))]))
      else
        var (to, h1) :- Place(env, p, rule.index, h);
        assert KeyOf(env, p) in AllKeys();
        assert AllKeys() - h1.moved.Keys < AllKeys() - h.moved.Keys by {
          assert KeyOf(env, p) in AllKeys() - h.moved.Keys;
        }
        var (h2, ps) :- GenFde(env, rule.index, Regs(p, to), h1);
        Some((h2, [Patch(a, ToBytes(to, 8))] + ps))
  }

  /** The loop over the rules, in the order of dictValues. */
  function GenRules(env: Env, k: nat, rs: Rules, regs: Regs, h: Heap): (r: Option<(Heap, seq<Patch>)>)
    requires Nested(env)
    requires forall e :: e in rs ==> Descends(env, k, e.value)
    requires h.moved.Keys <= AllKeys()
    ensures r.Some? ==> Grows(h, r.value.0) && r.value.0.moved.Keys <= AllKeys()
    decreases AllKeys() - h.moved.Keys, DepthOf(env, k), 1, |rs|
  {
    if rs == [] then Some((h, []))
    else
      var (h1, ps) :- GenRule(env, k, rs[0].value, regs, h);
      var (h2, qs) :- GenRules(env, k, rs[1..], regs, h1);
      Some((h2, ps + qs))
  }

  /** generatePatchesFromFDEAndState.  A CFA rule in the table makes makePatchData
      abort, so the CFA is never used for anything. */
  function GenFde(env: Env, k: nat, regs: Regs, h: Heap): (r: Option<(Heap, seq<Patch>)>)
    requires Nested(env)
    requires h.moved.Keys <= AllKeys()
    ensures r.Some? ==> Grows(h, r.value.0) && r.value.0.moved.Keys <= AllKeys()
    decreases AllKeys() - h.moved.Keys, DepthOf(env, k), 2, 0
  {
    var rules :- FdeRules(env, k);
    GenRules(env, k, rules, regs, h)
  }

  /** A patch in front of the ones that follow from it. */
  function PatchFirst(p: Patch, r: Option<(Heap, seq<Patch>)>): Option<(Heap, seq<Patch>)>
  {
    if r.None? then None else Some((r.value.0, [p] + r.value.1))
  }

  /** What a pointer that is not null leads to. */
  lemma PointerRule(env: Env, k: nat, rule: Rule, regs: Regs, h: Heap, p: word, a: word)
    requires Nested(env) && Descends(env, k, rule) && h.moved.Keys <= AllKeys() && rule.kind.RecurseFixupPointer?
    requires ReadPointer(env, rule.rh, regs) == Some(p) && p != 0 && ResolveTarget(rule.lh, regs) == Some(a)
    ensures KeyOf(env, p) in h.moved ==>
              GenRule(env, k, rule, regs, h) == Some((h, [Patch(a, ToBytes(h.moved[KeyOf(env, p)].new_, 8))]))
    ensures KeyOf(env, p) !in h.moved && Place(env, p, rule.index, h).None? ==> GenRule(env, k, rule, regs, h) == None
    ensures KeyOf(env, p) !in h.moved && Place(env, p, rule.index, h).Some? ==>
              var (to, h1) := Place(env, p, rule.index, h).value;
              && h1.moved.Keys <= AllKeys() && AllKeys() - h1.moved.Keys < AllKeys() - h.moved.Keys
              && GenRule(env, k, rule, regs, h) == PatchFirst(Patch(a, ToBytes(to, 8)), GenFde(env, rule.index, Regs(p, to), h1))
  {
    hide FdeRules, Nested, ReadPointer, ResolveTarget, ToBytes;
    if KeyOf(env, p) !in h.moved {
      assert KeyOf(env, p) in AllKeys() - h.moved.Keys;
    }
  }
}
