/** Exactly when .eh_frame can be built (callFrameInfo.c). */
module EhBuild {
  import opened Bytes
  import opened Cfa
  import opened Opcodes
  import opened EhPointers
  import opened EhFrame

  predicate Encodable(enc: byte, ptrSize: nat) { EntrySize(enc, ptrSize).Some? && Storable(enc) }

  predicate AllPrintable(p: seq<Instr>) { forall i :: i in p ==> Printable(i) }

  /** What the program asks of a CIE: sizes that fit a byte, a personality of up to 32 bits in an encoding that it
      can store, and instructions that it can print. */
  predicate CieBuildable(f: Frame, c: Cie)
  {
    && 0 < c.addressSize < 256 && c.segmentSize < 256
    && (c.augmented && c.hasPersonality && c.personality < HALF_WORD ==> Encodable(c.personalityEncoding, f.ptrSize))
    && AllPrintable(c.program)
  }

  /** ... of an FDE: encodings of its location and, if it gets one, of its LSDA pointer. */
  predicate FdeBuildable(f: Frame, d: Fde)
    requires ValidFde(f, d)
  {
    var c := f.cies[d.cie];
    && Encodable(c.fdeEncoding, f.ptrSize)
    && (c.augmented && c.hasLsda && d.lsda.Some? ==> Encodable(c.lsdaEncoding, f.ptrSize))
    && AllPrintable(d.program)
  }

  lemma CieBuiltIff(f: Frame, c: Cie, at: nat)
    ensures CieRecord(f, c, at).Some? <==> CieBuildable(f, c)
  {
    hide Record, CieFields, PrintProgram, ToBytes, Printable, AssumedDataOffset;
    ProgramIff(c.program);
    hide AllPrintable;
  }

  lemma ProgramIff(p: seq<Instr>)
    ensures PrintProgram(p).Some? <==> AllPrintable(p)
  {
    ProgramPrintsIff(p);
  }

  lemma FdeBuiltIff(f: Frame, d: Fde, at: nat, cieAt: nat)
    requires ValidFde(f, d) && f.cies[d.cie].addressSize > 0
    ensures FdeRecord(f, d, at, cieAt).Some? <==> FdeBuildable(f, d)
  {
    hide Record, FdeFields, PrintProgram, ToBytes, EntrySize;
    ProgramIff(d.program);
    hide AllPrintable;
  }

  predicate Buildable(f: Frame)
    requires ValidFrame(f)
  {
    && (forall i :: 0 <= i < |f.cies| ==> CieBuildable(f, f.cies[i]))
    && forall j :: 0 <= j < |f.fdes| ==> FdeBuildable(f, f.fdes[j])
  }

  /** The first n records can be built. */
  predicate FirstBuildable(f: Frame, n: nat)
    requires ValidFrame(f) && n <= Count(f)
  {
    && (forall i :: 0 <= i < |f.cies| && i < n ==> CieBuildable(f, f.cies[i]))
    && forall j :: 0 <= j < |f.fdes| && |f.cies| + j < n ==> FdeBuildable(f, f.fdes[j])
  }

  lemma {:induction false} FirstBuiltIff(f: Frame, n: nat)
    requires ValidFrame(f) && n <= Count(f)
    ensures Records(f, n).Some? <==> FirstBuildable(f, n)
    decreases n
  {
    hide RecordOf, CieRecord, FdeRecord, CieBuildable, FdeBuildable, Flat;
    if n > 0 {
      FirstBuiltIff(f, n - 1);
      if Records(f, n - 1).Some? { OneBuiltIff(f, n - 1, Records(f, n - 1).value); }
    }
  }

  lemma OneBuiltIff(f: Frame, i: nat, rs: seq<seq<byte>>)
    requires ValidFrame(f) && i < Count(f) && |rs| == i && FirstBuildable(f, i)
    ensures RecordOf(f, i, rs).Some? <==> FirstBuildable(f, i + 1)
  {
    hide CieRecord, FdeRecord, Flat, FdeBuildable, AllPrintable, Encodable;
    if i < |f.cies| {
      CieBuiltIff(f, f.cies[i], |Flat(rs)|);
    } else {
      var d := f.fdes[i - |f.cies|];
      assert CieBuildable(f, f.cies[d.cie]);
      FdeBuiltIff(f, d, |Flat(rs)|, StartOf(rs, d.cie));
    }
  }

  /** Main result: a section is built exactly when the demands on each of its CIEs and FDEs are met. */
  lemma BuiltIff(f: Frame)
    requires ValidFrame(f)
    ensures Records(f, Count(f)).Some? <==> Buildable(f)
  {
    hide Records, CieBuildable, FdeBuildable;
    FirstBuiltIff(f, Count(f));
  }
}
