/** The memory of the traced process (patcher/target.c).  The only primitives are
    peeking and poking one 8-byte word; a word can be accessed when all of its
    bytes are mapped, and a poke has to be aligned. */
module Target {
  import opened Bytes
  import opened TableSpec

  type Memory = map<word, byte>

  const PTRACE_WORD_SIZE := 8

  predicate Mapped(mem: Memory, a: int, n: nat)
  {
    0 <= a && a + n <= WORD && forall x: word :: a <= x < a + n ==> x in mem
  }

  /** The n bytes at an address. */
  function Slice(mem: Memory, a: int, n: nat): (bs: seq<byte>)
    requires Mapped(mem, a, n)
    ensures |bs| == n
  {
    seq(n, i requires 0 <= i < n => mem[a + i])
  }

  /** The memory with data written to an address. */
  function WriteBytes(mem: Memory, a: int, data: seq<byte>): (m: Memory)
    requires 0 <= a && a + |data| <= WORD
    ensures m.Keys >= mem.Keys
  {
    mem + map x: word | a <= x < a + |data| :: At(data, a, x)
  }

  function At(data: seq<byte>, a: int, x: word): byte
    requires a <= x < a + |data|
  {
    data[x - a]
  }

  /** Reading n bytes takes a word every four bytes, so four bytes more than the
      rounded length have to be mapped. */
  predicate Readable(mem: Memory, a: int, n: nat)
  {
    n == 0 || Mapped(mem, a, (n + 3) / 4 * 4 + 4)
  }

  function Least(a: int, b: int): int { if a < b then a else b }

  /** How many bytes go into a partial first word. */
  function Leading(a: int, n: nat): nat { if a % 8 == 0 then 0 else Least(8 - a % 8, n) }

  /** Words that are written partly are read first. */
  predicate Writable(mem: Memory, a: int, n: nat)
  {
    && (a % 8 != 0 ==> Readable(mem, a - a % 8, 8))
    && WholeWordsWritable(mem, a + Leading(a, n), n - Leading(a, n))
  }

  predicate WholeWordsWritable(mem: Memory, a: int, n: nat)
  {
    n == 0 || (Mapped(mem, a, n / 8 * 8) && (n % 8 != 0 ==> Readable(mem, a + n / 8 * 8, 8)))
  }

  // ----- writes compose -----

  lemma WriteTwice(mem: Memory, a: int, d: seq<byte>, e: seq<byte>)
    requires 0 <= a && a + |d| + |e| <= WORD
    ensures WriteBytes(WriteBytes(mem, a, d), a + |d|, e) == WriteBytes(mem, a, d + e)
  {
  }

  /** Writing a word of which only some bytes are new is writing those bytes. */
  lemma WritePart(mem: Memory, w: int, i: nat, part: seq<byte>)
    requires Mapped(mem, w, 8) && i + |part| <= 8
    ensures WriteBytes(mem, w, Slice(mem, w, 8)[..i] + part + Slice(mem, w, 8)[i + |part|..])
         == WriteBytes(mem, w + i, part)
  {
    hide WriteBytes;
    var slice := Slice(mem, w, 8);
    var bytes := slice[..i] + part + slice[i + |part|..];
    var l, r := WriteBytes(mem, w, bytes), WriteBytes(mem, w + i, part);
    forall x: word ensures (x in l <==> x in r) && (x in l ==> l[x] == r[x]) {
      WrittenByte(mem, w, bytes, x);
      WrittenByte(mem, w + i, part, x);
      if w <= x < w + 8 && !(i <= x - w < i + |part|) {
        assert bytes[x - w] == slice[x - w];
      }
    }
  }

  /** A write seen from one address. */
  lemma WrittenByte(mem: Memory, a: int, d: seq<byte>, x: word)
    requires 0 <= a && a + |d| <= WORD
    ensures x in WriteBytes(mem, a, d) <==> x in mem || a <= x < a + |d|
    ensures a <= x < a + |d| ==> WriteBytes(mem, a, d)[x] == d[x - a]
    ensures !(a <= x < a + |d|) && x in mem ==> WriteBytes(mem, a, d)[x] == mem[x]
  {
  }

  lemma WriteMapped(mem: Memory, a: int, d: seq<byte>, b: int, n: nat)
    requires 0 <= a && a + |d| <= WORD && Mapped(mem, a, |d|)
    ensures Mapped(WriteBytes(mem, a, d), b, n) <==> Mapped(mem, b, n)
  {
    assert WriteBytes(mem, a, d).Keys == mem.Keys;
  }

  lemma WriteNothing(mem: Memory, a: int)
    requires 0 <= a <= WORD
    ensures WriteBytes(mem, a, []) == mem
  {
  }

  /** Writing what was read before undoes a write. */
  lemma WriteBack(mem: Memory, a: int, d: seq<byte>)
    requires Mapped(mem, a, |d|)
    ensures WriteBytes(WriteBytes(mem, a, d), a, Slice(mem, a, |d|)) == mem
  {
    hide WriteBytes;
    var before, now := Slice(mem, a, |d|), WriteBytes(mem, a, d);
    var m := WriteBytes(now, a, before);
    forall x: word ensures (x in m <==> x in mem) && (x in m ==> m[x] == mem[x]) {
      WrittenByte(mem, a, d, x);
      WrittenByte(now, a, before, x);
    }
  }

  /** memcpy into a buffer. */
  method Copy(buffer: array<byte>, at: nat, bytes: seq<byte>)
    requires at + |bytes| <= buffer.Length
    modifies buffer
    ensures buffer[..] == old(buffer[..at]) + bytes + old(buffer[at + |bytes|..])
  {
    for k := 0 to |bytes|
      invariant forall j :: 0 <= j < buffer.Length ==>
                  buffer[j] == if at <= j < at + k then bytes[j - at] else old(buffer[j])
    {
      buffer[at + k] := bytes[k];
    }
  }

  // ----- one step of the loops -----

  lemma MappedNothing(mem: Memory, a: word)
    ensures Mapped(mem, a, 0)
  {
  }

  lemma ReadNothing(mem: Memory, a: word)
    ensures Mapped(mem, a, 0) && Slice(mem, a, 0) == []
  {
  }

  lemma NotReadable(mem: Memory, a: word, n: nat, i: nat)
    requires i < n && i % 4 == 0 && !Mapped(mem, a + i, 8)
    ensures !Readable(mem, a, n)
  {
    assert i + 8 <= (n + 3) / 4 * 4 + 4;
  }

  /** A step of the read loop gets four bytes right; what it copies behind them is
      overwritten by the next step or lies where no byte is wanted. */
  lemma ReadStep(mem: Memory, a: word, buffer: seq<byte>, i: nat, n: nat, value: seq<byte>)
    requires i < n <= |buffer| && i % 4 == 0 && |value| == 8
    requires Mapped(mem, a, i) && buffer[..i] == Slice(mem, a, i)
    requires Mapped(mem, a + i, 8) && value[..4] == Slice(mem, a + i, 8)[..4]
    ensures Mapped(mem, a, i + 8)
    ensures var count := if i + 8 <= n then 8 else n - i;
            var after := buffer[..i] + value[..count] + buffer[i + count..];
            && Mapped(mem, a, Least(i + 4, n)) && Mapped(mem, a, i + 4 + 4)
            && after[..Least(i + 4, n)] == Slice(mem, a, Least(i + 4, n))
            && after[n..] == buffer[n..]
  {
    var count := if i + 8 <= n then 8 else n - i;
    var after := buffer[..i] + value[..count] + buffer[i + count..];
    forall j | 0 <= j < Least(i + 4, n) ensures after[j] == mem[a + j] {
      if j < i {
        assert after[j] == buffer[..i][j];
      } else {
        assert after[j] == value[..4][j - i];
      }
    }
  }

  function Rest(n: nat, i: nat): nat { if i < n then n - i else 0 }

  lemma MappedWithin(mem: Memory, w: int, i: nat, n: nat)
    requires i + n <= 8 && Mapped(mem, w, 8)
    ensures Mapped(mem, w + i, n)
  {
  }

  lemma AllWritten(mem: Memory, a: int)
    ensures WholeWordsWritable(mem, a, 0)
  {
  }

  /** What i bytes of the loop have written, and what the next step writes. */
  function Head(data: seq<byte>, i: nat): (h: seq<byte>)
    ensures |h| == Least(i, |data|)
  {
    data[..Least(i, |data|)]
  }

  function Chunk(data: seq<byte>, i: nat): (c: seq<byte>)
    requires i < |data|
    ensures |c| == Least(8, |data| - i)
  {
    data[i..Least(i + 8, |data|)]
  }

  /** A step of the write loop: what it needs to be mapped. */
  lemma WordStep(mem: Memory, a: word, data: seq<byte>, i: nat)
    requires i < |data| && i % 8 == 0 && a + |data| <= WORD && Mapped(mem, a, Least(i, |data|))
    ensures var now := WriteBytes(mem, a, Head(data, i));
            WholeWordsWritable(mem, a + i, |data| - i) <==>
              (if i + 8 <= |data| then Mapped(now, a + i, 8) else Readable(now, a + i, 8))
              && WholeWordsWritable(mem, a + i + 8, Rest(|data|, i + 8))
  {
    hide Mapped; hide WriteBytes;
    var n := |data| - i;
    WriteMapped(mem, a, data[..i], a + i, 8);
    WriteMapped(mem, a, data[..i], a + i, 12);
    if n >= 8 {
      WordsUnroll(mem, a + i, n);
    } else {
      assert n / 8 * 8 == 0;
      MappedNothing(mem, a + i);
    }
  }

  /** ... and what it leaves. */
  lemma WordWritten(mem: Memory, a: word, data: seq<byte>, i: nat)
    requires i < |data| && a + |data| <= WORD && Mapped(mem, a, Least(i, |data|))
    ensures var now := WriteBytes(mem, a, Head(data, i));
            && WriteBytes(now, a + i, Chunk(data, i)) == WriteBytes(mem, a, Head(data, i + 8))
            && (Mapped(now, a + i, 8) ==> Mapped(mem, a, Least(i + 8, |data|)))
  {
    hide WriteBytes;
    WriteTwice(mem, a, Head(data, i), Chunk(data, i));
    assert Head(data, i) + Chunk(data, i) == Head(data, i + 8);
    WriteMapped(mem, a, Head(data, i), a + i, 8);
  }

  lemma Start(mem: Memory, a: word, data: seq<byte>)
    ensures Mapped(mem, a, Least(0, |data|)) && WriteBytes(mem, a, Head(data, 0)) == mem
  {
    WriteNothing(mem, a);
  }

  lemma WholeHead(data: seq<byte>, i: nat)
    requires i >= |data|
    ensures Head(data, i) == data
  {
  }

  lemma EightMore(a: word, i: nat)
    requires i % 8 == 0 && (a + i) % 8 == 0
    ensures (i + 8) % 8 == 0 && (a + (i + 8)) % 8 == 0
  {
  }

  lemma WordsUnroll(mem: Memory, a: int, n: nat)
    requires n >= 8
    ensures WholeWordsWritable(mem, a, n) <==> Mapped(mem, a, 8) && WholeWordsWritable(mem, a + 8, n - 8)
  {
    assert n / 8 * 8 == 8 + (n - 8) / 8 * 8;
  }

  lemma WritableAfter(mem: Memory, a: int, d: seq<byte>, b: int, n: nat)
    requires 0 <= a && a + |d| <= WORD && Mapped(mem, a, |d|)
    ensures WholeWordsWritable(WriteBytes(mem, a, d), b, n) <==> WholeWordsWritable(mem, b, n)
  {
    WriteMapped(mem, a, d, b, n / 8 * 8);
    WriteMapped(mem, a, d, b + n / 8 * 8, 12);
  }

  lemma WrittenKeys(mem: Memory, a: word, d: seq<byte>)
    requires a + |d| <= WORD
    ensures mem.Keys <= WriteBytes(mem, a, d).Keys
  {
  }

  lemma ReadableMore(m: Memory, m': Memory, a: int, n: nat)
    requires m.Keys <= m'.Keys && Readable(m, a, n)
    ensures Readable(m', a, n)
  {
  }

  lemma MappedMore(m: Memory, m': Memory, a: int, n: nat)
    requires m.Keys <= m'.Keys && Mapped(m, a, n)
    ensures Mapped(m', a, n)
  {
  }

  /** What can be written can still be written when more is mapped. */
  lemma WritableMore(m: Memory, m': Memory, a: int, n: nat)
    requires m.Keys <= m'.Keys && Writable(m, a, n)
    ensures Writable(m', a, n)
  {
    hide Readable, Mapped;
    var b, k := a + Leading(a, n), n - Leading(a, n);
    if a % 8 != 0 { ReadableMore(m, m', a - a % 8, 8); }
    if k > 0 {
      MappedMore(m, m', b, k / 8 * 8);
      if k % 8 != 0 { ReadableMore(m, m', b + k / 8 * 8, 8); }
    }
  }

  /** What can be written is mapped, so writing maps nothing. */
  lemma WritableMapped(m: Memory, a: word, d: seq<byte>)
    requires Writable(m, a, |d|) && a + |d| <= WORD
    ensures Mapped(m, a, |d|) && WriteBytes(m, a, d).Keys == m.Keys
  {
    var n := |d|;
    var b, k := a + Leading(a, n), n - Leading(a, n);
    forall x | a <= x < a + n ensures 0 <= x < WORD && x in m {
      if x < b {
        assert Mapped(m, a - a % 8, 12);
      } else if x < b + k / 8 * 8 {
        assert Mapped(m, b, k / 8 * 8);
      } else {
        assert Mapped(m, b + k / 8 * 8, 12);
      }
    }
  }

  class Process {
    var mem: Memory
    /** breakpointRestoreInfo: the four bytes under each breakpoint. */
    var saved: map<Key, Quad>
    var pc: word
    const hash: word -> nat

    constructor (mem: Memory, pc: word, hash: word -> nat)
      ensures this.mem == mem && this.pc == pc && this.hash == hash && saved == map[]
    {
      this.mem, this.pc, this.hash, this.saved := mem, pc, hash, map[];
    }

    /** PTRACE_PEEKDATA, at any address. */
    method Peek(a: int) returns (value: Option<seq<byte>>)
      ensures value == if Mapped(mem, a, 8) then Some(Slice(mem, a, 8)) else None
    {
      if Mapped(mem, a, 8) {
        value := Some(Slice(mem, a, 8));
      } else {
        value := None;
      }
    }

    /** modifyTarget: PTRACE_POKEDATA, at an aligned address. */
    method Poke(a: int, value: seq<byte>) returns (ok: bool)
      requires a % PTRACE_WORD_SIZE == 0 && |value| == PTRACE_WORD_SIZE
      modifies this`mem
      ensures ok <==> Mapped(old(mem), a, PTRACE_WORD_SIZE)
      ensures mem == if ok then WriteBytes(old(mem), a, value) else old(mem)
    {
      ok := Mapped(mem, a, 8);
      if ok { mem := WriteBytes(mem, a, value); }
    }

    /** memcpyFromTargetNoDeath.  Each step takes a 32-bit value out of a peeked word
        but copies up to eight bytes from it; stray are the four bytes that happen
        to lie behind the value. */
    method MemcpyFrom(data: array<byte>, a: word, numBytes: nat, stray: (nat, nat) -> byte) returns (ok: bool)
      requires numBytes <= data.Length
      modifies data
      ensures ok <==> Readable(mem, a, numBytes)
      ensures ok ==> Mapped(mem, a, numBytes) && data[..numBytes] == Slice(mem, a, numBytes)
      ensures data[numBytes..] == old(data[numBytes..])
    {
      hide Mapped;
      var i := 0;
      ReadNothing(mem, a);
      while i < numBytes
        invariant 0 <= i < numBytes + 4 && i % 4 == 0
        invariant i == 0 || Mapped(mem, a, i + 4)
        invariant Mapped(mem, a, Least(i, numBytes))
        invariant data[..Least(i, numBytes)] == Slice(mem, a, Least(i, numBytes))
        invariant data[numBytes..] == old(data[numBytes..])
      {
        var word_ := Peek(a + i);
        if word_.None? {
          NotReadable(mem, a, numBytes, i);
          return false;
        }
        var value := word_.value[..4] + seq(4, (j: nat) => stray(i, j));
        var count := if i + PTRACE_WORD_SIZE <= numBytes then PTRACE_WORD_SIZE else numBytes - i;
        ReadStep(mem, a, data[..], i, numBytes, value);
        Copy(data, i, value[..count]);
        i := i + 4;
      }
      return true;
    }

    /** The read, merge and poke for a word that is to change only in part. */
    method MergeWord(w: word, at: nat, part: seq<byte>, stray: (nat, nat) -> byte) returns (ok: bool)
      requires w % 8 == 0 && at + |part| <= 8
      modifies this`mem
      ensures ok <==> Readable(old(mem), w, 8)
      ensures ok ==> Mapped(old(mem), w, 8) && mem == WriteBytes(old(mem), w + at, part)
    {
      var bytes := new byte[PTRACE_WORD_SIZE];
      ok := MemcpyFrom(bytes, w, PTRACE_WORD_SIZE, stray);
      if ok {
        assert bytes[..] == bytes[..8];
        Copy(bytes, at, part);
        WritePart(mem, w, at, part);
        ok := Poke(w, bytes[..]);
      }
    }

    /** memcpyToTarget: only aligned words are poked; bytes of a word that are not to
        change are read first and written back. */
    method MemcpyTo(addr: word, data: seq<byte>, stray: (nat, nat) -> byte) returns (ok: bool)
      requires addr + |data| <= WORD
      modifies this`mem
      ensures ok <==> Writable(old(mem), addr, |data|)
      ensures ok ==> mem == WriteBytes(old(mem), addr, data)
    {
      hide Mapped; hide WriteBytes; hide WholeWordsWritable; hide Slice; hide Readable;
      var misalignment, a, rest := addr % PTRACE_WORD_SIZE, addr, data;
      WriteNothing(mem, addr);
      if misalignment != 0 {
        var bytesInWd := Least(PTRACE_WORD_SIZE - misalignment, |data|);
        ok := MergeWord(addr - misalignment, misalignment, data[..bytesInWd], stray);
        rest, a := data[bytesInWd..], addr + bytesInWd;
        assert data[..bytesInWd] + rest == data;
        if !ok {
          return;
        }
        if rest == [] {
          AllWritten(old(mem), a);
          assert data[..bytesInWd] == data;
          return;
        }
        MappedWithin(old(mem), addr - misalignment, misalignment, bytesInWd);
        WritableAfter(old(mem), addr, data[..bytesInWd], a, |rest|);
        WriteTwice(old(mem), addr, data[..bytesInWd], rest);
      }
      ok := WholeWords(a, rest, stray);
    }

    method WholeWords(addr: word, data: seq<byte>, stray: (nat, nat) -> byte) returns (ok: bool)
      requires addr % 8 == 0 && addr + |data| <= WORD
      modifies this`mem
      ensures ok <==> WholeWordsWritable(old(mem), addr, |data|)
      ensures ok ==> mem == WriteBytes(old(mem), addr, data)
    {
      hide Mapped; hide Readable; hide WriteBytes; hide WholeWordsWritable; hide Slice; hide Head; hide Chunk;
      var i := 0;
      Start(mem, addr, data);
      while i < |data|
        invariant 0 <= i && i % 8 == 0 && (addr + i) % 8 == 0
        invariant WholeWordsWritable(old(mem), addr, |data|) <==> WholeWordsWritable(old(mem), addr + i, Rest(|data|, i))
        invariant Mapped(old(mem), addr, Least(i, |data|))
        invariant mem == WriteBytes(old(mem), addr, Head(data, i))
      {
        EightMore(addr, i);
        WordStep(old(mem), addr, data, i);
        WordWritten(old(mem), addr, data, i);
        if i + PTRACE_WORD_SIZE <= |data| {
          ok := Poke(addr + i, Chunk(data, i));
        } else {
          ok := MergeWord(addr + i, 0, Chunk(data, i), stray);
        }
        if !ok {
          return;
        }
        i := i + PTRACE_WORD_SIZE;
      }
      WholeHead(data, i);
      AllWritten(old(mem), addr + i);
      ok := true;
    }

    function State(): Text reads this { Text(mem, saved, pc) }

    /** setBreakpoint; the address must not be in the map yet. */
    method SetBreakpoint(loc: word, stray: (nat, nat) -> byte) returns (ok: bool)
      modifies this
      ensures ok <==> SetAt(hash, old(State()), loc).Some?
      ensures ok ==> State() == SetAt(hash, old(State()), loc).value
      ensures ok ==> && loc + 4 <= WORD && mem == WriteBytes(old(mem), loc, [0xcc, 0x90, 0x90, 0x90])
                     && saved == old(saved)[AddressKey(hash, loc) := Slice(old(mem), loc, 4)] && pc == old(pc)
    {
      var origCode := new byte[4];
      ok := MemcpyFrom(origCode, loc, 4, stray);
      if !ok || AddressKey(hash, loc) in saved {
        return false;
      }
      assert origCode[..] == origCode[..4];
      saved := saved[AddressKey(hash, loc) := origCode[..]];
      ok := MemcpyTo(loc, BREAKPOINT, stray);
    }

    /** removeBreakpoint: the entry stays in the map. */
    method RemoveBreakpoint(loc: word, stray: (nat, nat) -> byte) returns (ok: bool)
      requires loc + 4 <= WORD
      modifies this
      ensures ok <==> RemoveAt(hash, old(State()), loc).Some?
      ensures ok ==> State() == RemoveAt(hash, old(State()), loc).value
      ensures ok ==> && AddressKey(hash, loc) in saved && saved == old(saved)
                     && mem == WriteBytes(old(mem), loc, saved[AddressKey(hash, loc)])
                     && pc == if old(pc) == loc + 1 then loc else old(pc)
    {
      if AddressKey(hash, loc) !in saved {
        return false;
      }
      ok := MemcpyTo(loc, saved[AddressKey(hash, loc)], stray);
      if ok && pc == loc + 1 { pc := loc; }
    }

    /** mallocTarget: code is written over the start of the text, the process runs
        until it stops and hands back what malloc returned, and the text is put
        back.  run is what the process does to its own memory. */
    method MallocTarget(text: word, code: seq<byte>, run: Memory -> (Memory, word), stray: (nat, nat) -> byte)
      returns (block: Option<word>)
      requires text + |code| <= WORD && |code| > 0
      requires forall m: Memory :: m.Keys <= run(m).0.Keys  // pages stay mapped
      modifies this`mem
      ensures block.Some? <==> && Readable(old(mem), text, |code|) && Writable(old(mem), text, |code|)
                               && run(WriteBytes(old(mem), text, code)).1 != 0
      ensures block.Some? ==> Mapped(old(mem), text, |code|) && block.value != 0
      ensures block.Some? ==> block.value == run(WriteBytes(old(mem), text, code)).1
      ensures block.Some? ==> Restored(old(mem), run(WriteBytes(old(mem), text, code)).0, mem, text, |code|)
    {
      hide Mapped; hide WriteBytes; hide Slice; hide Writable; hide Readable; hide Restored;
      var oldText := new byte[|code|];
      var ok := MemcpyFrom(oldText, text, |code|, stray);
      if !ok { return None; }
      assert oldText[..] == oldText[..|code|];
      ok := MemcpyTo(text, code, stray);
      if !ok { return None; }
      var (after, ret) := run(mem);
      mem := after;
      if ret == 0 { return None; }
      WrittenKeys(old(mem), text, code);
      WritableMore(old(mem), after, text, |code|);
      ok := MemcpyTo(text, oldText[..], stray);
      assert ok;
      TextRestored(old(mem), after, text, |code|);
      return Some(ret);
    }
  }

  // ----- breakpoints -----

  type Quad = s: seq<byte> | |s| == 4 witness [0, 0, 0, 0]

  /** int3 and three nops. */
  const BREAKPOINT: Quad := [0xcc, 0x90, 0x90, 0x90]

  datatype Text = Text(mem: Memory, saved: map<Key, Quad>, pc: word)

  /** setBreakpoint as a step; it fails when the word cannot be accessed or the map
      has an entry for the address. */
  function SetAt(hash: word -> nat, s: Text, loc: word): Option<Text>
  {
    var key := AddressKey(hash, loc);
    if !Readable(s.mem, loc, 4) || key in s.saved || !Writable(s.mem, loc, 4) then None
    else Some(s.(mem := WriteBytes(s.mem, loc, BREAKPOINT), saved := s.saved[key := Slice(s.mem, loc, 4)]))
  }

  /** removeBreakpoint as a step; a process that has just hit the breakpoint goes
      back to the instruction under it. */
  function RemoveAt(hash: word -> nat, s: Text, loc: word): Option<Text>
  {
    var key := AddressKey(hash, loc);
    if key !in s.saved || !Writable(s.mem, loc, 4) || loc + 4 > WORD then None
    else Some(s.(mem := WriteBytes(s.mem, loc, s.saved[key]), pc := if s.pc == loc + 1 then loc else s.pc))
  }

  lemma SameKeys(m: Memory, m': Memory, a: int, n: nat)
    requires m.Keys == m'.Keys
    ensures Mapped(m, a, n) <==> Mapped(m', a, n)
    ensures Writable(m, a, n) <==> Writable(m', a, n)
  {
    assert forall b: int, k: nat :: Mapped(m, b, k) <==> Mapped(m', b, k) by {
      assert forall x: word :: x in m <==> x in m';
    }
    hide Mapped;
  }

  /** Whatever the process does between the two calls, as long as it keeps its pages:
      the four bytes are back, every other byte is as the process left it, and the
      pc of a process that hit the breakpoint is back on the instruction.  A second
      breakpoint at the address is refused, because the entry stays in the map. */
  lemma BreakpointRoundTrip(hash: word -> nat, s: Text, loc: word, m: Memory, pc: word)
    requires SetAt(hash, s, loc).Some? && m.Keys == s.mem.Keys
    ensures var t := SetAt(hash, s, loc).value.(mem := m, pc := pc);
            && Mapped(s.mem, loc, 4)
            && RemoveAt(hash, t, loc).Some?
            && var u := RemoveAt(hash, t, loc).value;
               && u.mem == WriteBytes(m, loc, Slice(s.mem, loc, 4))
               && u.pc == (if pc == loc + 1 then loc else pc)
               && SetAt(hash, u, loc) == None
  {
    SameKeys(s.mem, m, loc, 4);
  }

  /** The n bytes at text are as they were before, the others as they are after. */
  predicate Restored(before: Memory, after: Memory, m: Memory, text: word, n: nat)
  {
    && m.Keys == after.Keys
    && (forall x: word :: text <= x < text + n ==> x in before && x in m && m[x] == before[x])
    && forall x: word :: x in after && !(text <= x < text + n) ==> m[x] == after[x]
  }

  lemma TextRestored(before: Memory, after: Memory, text: word, n: nat)
    requires text + n <= WORD && Mapped(before, text, n) && before.Keys <= after.Keys
    ensures Restored(before, after, WriteBytes(after, text, Slice(before, text, n)), text, n)
  {
    hide WriteBytes;
    var m := WriteBytes(after, text, Slice(before, text, n));
    forall x: word
      ensures x in m <==> x in after
      ensures text <= x < text + n ==> x in before && m[x] == before[x]
      ensures x in after && !(text <= x < text + n) ==> m[x] == after[x]
    {
      WrittenByte(after, text, Slice(before, text, n), x);
    }
  }

  function SetAll(hash: word -> nat, s: Text, locs: seq<word>): Option<Text>
  {
    if locs == [] then Some(s)
    else
      var t :- SetAll(hash, s, locs[..|locs| - 1]);
      SetAt(hash, t, locs[|locs| - 1])
  }

  /** Removing in the opposite order. */
  function RemoveReverse(hash: word -> nat, s: Text, locs: seq<word>): Option<Text>
    decreases |locs|
  {
    if locs == [] then Some(s)
    else
      var t :- RemoveAt(hash, s, locs[|locs| - 1]);
      RemoveReverse(hash, t, locs[..|locs| - 1])
  }

  predicate Remembers(s: Text, saved: map<Key, Quad>)
  {
    forall k :: k in saved ==> k in s.saved && s.saved[k] == saved[k]
  }

  /** Any number of breakpoints, overlapping or not, are undone by removing them last
      to first. */
  lemma {:induction false} LastInFirstOut(hash: word -> nat, s: Text, locs: seq<word>, t: Text)
    requires SetAll(hash, s, locs).Some?
    requires t.mem == SetAll(hash, s, locs).value.mem && Remembers(t, SetAll(hash, s, locs).value.saved)
    ensures RemoveReverse(hash, t, locs).Some? && RemoveReverse(hash, t, locs).value.mem == s.mem
    decreases |locs|
  {
    if locs != [] {
      var loc, others := locs[|locs| - 1], locs[..|locs| - 1];
      var before := SetAll(hash, s, others).value;
      WriteBack(before.mem, loc, BREAKPOINT);
      SetKeeps(hash, before, loc);
      SameKeys(before.mem, t.mem, loc, 4);
      LastInFirstOut(hash, s, others, RemoveAt(hash, t, loc).value);
    }
  }

  lemma SetKeeps(hash: word -> nat, s: Text, loc: word)
    requires SetAt(hash, s, loc).Some?
    ensures var t := SetAt(hash, s, loc).value;
            t.mem.Keys == s.mem.Keys && Remembers(t, s.saved) && Mapped(s.mem, loc, 8)
  {
    assert Mapped(s.mem, loc, 8);
  }

  /** Removing in the order of a list. */
  function RemoveAll(hash: word -> nat, s: Text, locs: seq<word>): Option<Text>
    decreases |locs|
  {
    if locs == [] then Some(s)
    else
      var t :- RemoveAt(hash, s, locs[0]);
      RemoveAll(hash, t, locs[1..])
  }

  predicate NoOverlap(a: int, b: int) { a + 4 <= b || b + 4 <= a }

  /** The map remembers the text under a breakpoint. */
  predicate Saved(hash: word -> nat, text: Memory, s: Text, loc: word)
  {
    Mapped(text, loc, 4) && AddressKey(hash, loc) in s.saved && s.saved[AddressKey(hash, loc)] == Slice(text, loc, 4)
  }

  predicate Under(locs: seq<word>, x: word) { exists l :: l in locs && l <= x < l + 4 }

  /** Memory differs from the text only under breakpoints. */
  predicate OnlyUnder(text: Memory, m: Memory, locs: seq<word>)
  {
    m.Keys == text.Keys && forall x :: x in text && m[x] != text[x] ==> Under(locs, x)
  }

  lemma SetOne(hash: word -> nat, text: Memory, s: Text, locs: seq<word>, loc: word)
    requires SetAt(hash, s, loc).Some? && OnlyUnder(text, s.mem, locs)
    requires forall l :: l in locs ==> Saved(hash, text, s, l) && NoOverlap(l, loc)
    ensures var t := SetAt(hash, s, loc).value;
            && OnlyUnder(text, t.mem, locs + [loc]) && forall l :: l in locs + [loc] ==> Saved(hash, text, t, l)
  {
    hide WriteBytes;
    var t := SetAt(hash, s, loc).value;
    SetKeeps(hash, s, loc);
    forall x | loc <= x < loc + 4 ensures x in text && s.mem[x] == text[x] {
      assert !Under(locs, x);
    }
    assert Slice(s.mem, loc, 4) == Slice(text, loc, 4);
    forall x | x in text && t.mem[x] != text[x] ensures Under(locs + [loc], x) {
      WrittenByte(s.mem, loc, BREAKPOINT, x);
      if loc <= x < loc + 4 {
        assert loc in locs + [loc];
      } else {
        var l :| l in locs && l <= x < l + 4;
        assert l in locs + [loc];
      }
    }
  }

  /** Breakpoints that do not overlap remember the original text. */
  lemma {:induction false} ApartSaved(hash: word -> nat, s: Text, locs: seq<word>)
    requires SetAll(hash, s, locs).Some?
    requires forall i, j :: 0 <= i < j < |locs| ==> NoOverlap(locs[i], locs[j])
    ensures var t := SetAll(hash, s, locs).value;
            OnlyUnder(s.mem, t.mem, locs) && forall l :: l in locs ==> Saved(hash, s.mem, t, l)
    decreases |locs|
  {
    if locs != [] {
      var loc, others := locs[|locs| - 1], locs[..|locs| - 1];
      hide Saved; hide OnlyUnder; hide SetAt;
      ApartSaved(hash, s, others);
      SetOne(hash, s.mem, SetAll(hash, s, others).value, others, loc);
      assert others + [loc] == locs;
    } else {
      Untouched(s.mem);
    }
  }

  lemma Untouched(text: Memory)
    ensures OnlyUnder(text, text, [])
  {
  }

  /** When every breakpoint remembers the original text, any order of removal puts
      the text back. */
  lemma {:induction false} AnyOrder(hash: word -> nat, text: Memory, s: Text, locs: seq<word>)
    requires OnlyUnder(text, s.mem, locs)
    requires forall l :: l in locs ==> Saved(hash, text, s, l) && Writable(text, l, 4)
    ensures RemoveAll(hash, s, locs).Some? && RemoveAll(hash, s, locs).value.mem == text
    decreases |locs|
  {
    if locs == [] {
      assert forall x :: x in text ==> !Under(locs, x);
      assert s.mem == text;
    } else {
      var loc := locs[0];
      SameKeys(text, s.mem, loc, 4);
      RemoveOne(hash, text, s, locs);
      var t := RemoveAt(hash, s, loc).value;
      assert forall l :: l in locs[1..] ==> l in locs;
      AnyOrder(hash, text, t, locs[1..]);
    }
  }

  lemma RemoveOne(hash: word -> nat, text: Memory, s: Text, locs: seq<word>)
    requires locs != [] && OnlyUnder(text, s.mem, locs) && Saved(hash, text, s, locs[0])
    ensures OnlyUnder(text, WriteBytes(s.mem, locs[0], Slice(text, locs[0], 4)), locs[1..])
  {
    hide WriteBytes;
    var loc, before := locs[0], Slice(text, locs[0], 4);
    var m := WriteBytes(s.mem, loc, before);
    forall x: word ensures x in m <==> x in text ensures x in text && m[x] != text[x] ==> Under(locs[1..], x) {
      WrittenByte(s.mem, loc, before, x);
      if x in text && m[x] != text[x] {
        assert Under(locs, x);
        var l :| l in locs && l <= x < l + 4;
        assert l in locs[1..];
      }
    }
    assert m.Keys == text.Keys;
  }

  /** Breakpoints that do not overlap can be removed in any order. */
  lemma ApartAnyOrder(hash: word -> nat, s: Text, locs: seq<word>, order: seq<word>)
    requires SetAll(hash, s, locs).Some?
    requires forall i, j :: 0 <= i < j < |locs| ==> NoOverlap(locs[i], locs[j])
    requires forall l :: l in order <==> l in locs
    ensures var r := RemoveAll(hash, SetAll(hash, s, locs).value, order);
            r.Some? && r.value.mem == s.mem
  {
    ApartSaved(hash, s, locs);
    AllWritable(hash, s, locs);
    var t := SetAll(hash, s, locs).value;
    forall x | x in s.mem && t.mem[x] != s.mem[x] ensures Under(order, x) {
      assert Under(locs, x);
    }
    AnyOrder(hash, s.mem, t, order);
  }

  lemma {:induction false} AllWritable(hash: word -> nat, s: Text, locs: seq<word>)
    requires SetAll(hash, s, locs).Some?
    ensures SetAll(hash, s, locs).value.mem.Keys == s.mem.Keys
    ensures forall l :: l in locs ==> Writable(s.mem, l, 4)
    decreases |locs|
  {
    if locs != [] {
      var loc, others := locs[|locs| - 1], locs[..|locs| - 1];
      AllWritable(hash, s, others);
      var t := SetAll(hash, s, others).value;
      SetKeeps(hash, t, loc);
      SameKeys(t.mem, s.mem, loc, 4);
      hide Writable;
      assert forall l :: l in locs ==> l == loc || l in others;
    }
  }

  lemma SameWrite(mem: Memory, a: int, d: seq<byte>)
    requires Mapped(mem, a, |d|)
    ensures WriteBytes(mem, a, d).Keys == mem.Keys
  {
  }

  lemma Accessible(mem: Memory, a: word)
    requires a % 8 == 0 && Mapped(mem, a, 12)
    ensures Readable(mem, a, 4) && Writable(mem, a, 4) && Readable(mem, a + 1, 4) && Writable(mem, a + 1, 4)
    ensures Mapped(mem, a, 4) && Mapped(mem, a + 1, 4) && a + 5 <= WORD
  {
  }
}
