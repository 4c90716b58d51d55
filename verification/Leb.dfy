/** The LEB128 codec of leb.c (section 7.6 of DWARF version 4).

    The value of an encoding is given by FoldSeptets, which carries the part of
    the number that lies above the septets as an argument.  Encoder and decoder
    are loops over byte and bit offsets; their contracts speak of values only.
  */
module Leb {
  import opened Bytes

  /** The number whose lowest base-128 digits are the septets of s and whose
      remaining part is top. */
  function FoldSeptets(s: seq<byte>, top: int): int
  {
    if s == [] then top else s[0] % 128 + 128 * FoldSeptets(s[1..], top)
  }

  function SignExtend7(b: int): int { if b % 128 >= 64 then b % 128 - 128 else b % 128 }

  /** What an encoding denotes, unsigned or signed. */
  function Value(s: seq<byte>, signed: bool): int
    requires |s| > 0
  {
    if signed then FoldSeptets(s[..|s| - 1], SignExtend7(s[|s| - 1])) else FoldSeptets(s, 0)
  }

  /** What the raw bytes handed to the encoder denote. */
  function RawValue(bs: seq<byte>, signed: bool): int
    requires |bs| > 0
  {
    if signed then Signed(bs) else Unsigned(bs)
  }

  /** Exactly the last byte has its continuation bit clear. */
  predicate WellFormed(s: seq<byte>)
  {
    |s| > 0 && s[|s| - 1] < 128 && forall i :: 0 <= i < |s| - 1 ==> s[i] >= 128
  }

  /** leb is a well-formed encoding of the number that the bytes bs denote. */
  predicate Encodes(leb: seq<byte>, bs: seq<byte>, signed: bool)
    requires |bs| > 0
  {
    WellFormed(leb) && Value(leb, signed) == RawValue(bs, signed)
  }

  /** No septet can be dropped without changing the number. */
  predicate Minimal(s: seq<byte>, signed: bool)
  {
    |s| > 0 &&
    (|s| > 1 ==>
      var last, prev := s[|s| - 1] % 128, s[|s| - 2] % 128;
      if signed then !(last == 0 && prev < 64) && !(last == 127 && prev >= 64)
      else last != 0)
  }

  // ----- folding -----

  lemma {:induction false} FoldSnoc(s: seq<byte>, b: byte, top: int)
    ensures FoldSeptets(s + [b], top) == FoldSeptets(s, b % 128 + 128 * top)
  {
    if s == [] {
      assert [b][1..] == [];
    } else {
      FoldSnoc(s[1..], b, top);
      assert (s + [b])[1..] == s[1..] + [b];
    }
  }

  /** The continuation bits are irrelevant to the value. */
  lemma {:induction false} FoldCongruent(a: seq<byte>, b: seq<byte>, top: int)
    requires |a| == |b| && forall i :: 0 <= i < |a| ==> a[i] % 128 == b[i] % 128
    ensures FoldSeptets(a, top) == FoldSeptets(b, top)
  {
    if a != [] { FoldCongruent(a[1..], b[1..], top); }
  }

  // ----- the encoder -----

  /** What is still to be encoded when the cursor stands at bit k of byte o. */
  function Rest(bs: seq<byte>, o: nat, k: nat, signed: bool): int
    requires o < |bs| && k < 8
  {
    Shr(RawValue(bs[o..], signed), k)
  }

  /** The value of a byte string splits off its lowest byte. */
  lemma RawStep(bs: seq<byte>, o: nat, signed: bool)
    requires o < |bs|
    ensures o + 1 < |bs| ==>
              RawValue(bs[o..], signed) == bs[o] + 256 * RawValue(bs[o + 1..], signed)
    ensures o + 1 == |bs| ==>
              RawValue(bs[o..], signed) == if signed then SignExtend8(bs[o]) else bs[o]
    ensures RawValue(bs[o..], signed) % 128 == bs[o] % 128
  {
    var t := bs[o..];
    if o + 1 < |bs| {
      assert t[1..] == bs[o + 1..];
      assert t[..|t| - 1][1..] == bs[o + 1..][..|t| - 2];
      AddMultiple(bs[o], 128, 2 * RawValue(bs[o + 1..], signed));
    } else {
      assert t == [bs[o]];
      assert t[..|t| - 1] == [] && t[1..] == [];
      assert FoldBytes(t[1..], 0) == 0;
    }
  }

  /** How many of the seven bits the encoder finds in the current byte. */
  function Retrieved(k: nat): nat requires k < 8 { if 8 - k < 7 then 8 - k else 7 }

  /** Those bits, and the ones it takes from the low end of the next byte c. */
  function PickLow(b: byte, k: nat): nat requires k < 8 { Low(Shr(b, k), Retrieved(k)) }

  function PickHigh(c: byte, k: nat): nat
    requires k < 8
  {
    if Retrieved(k) < 7 then Shl(Low(c, 7 - Retrieved(k)), Retrieved(k)) else 0
  }

  function Pick(bs: seq<byte>, o: nat, k: nat): nat
    requires o < |bs| && k < 8
  {
    PickLow(bs[o], k) + if o + 1 < |bs| then PickHigh(bs[o + 1], k) else 0
  }

  /** The arithmetic of one round: b is the current byte and r all that lies above it. */
  lemma PickArith(b: byte, c: byte, r: int, k: nat)
    requires k < 8 && (k > 0 ==> r % 128 == c % 128)
    ensures PickLow(b, k) + PickHigh(c, k) == Shr(b + 256 * r, k) % 128
    ensures k == 0 ==> Shr(b + 256 * r, 7) == Shr(b + 256 * r, k) / 128
    ensures k > 0 ==> Shr(r, k - 1) == Shr(b + 256 * r, k) / 128
  {
    Pow2Byte(k);
    if k == 0 {
      AddMultiple(b, 128, 2 * r);
    } else {
      ShrFold(b, r, k);
      var x, m, p := Shr(b, k), Pow2(8 - k), Pow2(k - 1);
      Pow2Add(8 - k, k - 1);
      Split(x, r, m, p);
      SmallMod(x, m);
      ModOfProduct(c, r, p, m);
      if k == 1 { SmallMod(x, 128); assert p == 1; }
    }
  }

  lemma ShrFold(b: byte, r: int, k: nat)
    requires k < 8
    ensures Shr(b + 256 * r, k) == Shr(b, k) + Pow2(8 - k) * r
    ensures 0 <= Shr(b, k) < Pow2(8 - k)
  {
    Pow2Byte(k);
    MulAssoc(Pow2(k), Pow2(8 - k), r);
    AddMultiple(b, Pow2(k), Pow2(8 - k) * r);
    DivBound(b, Pow2(k), Pow2(8 - k));
    DivBound(b, Pow2(k), 0);
  }

  /** One round of the encoder takes the lowest seven bits of the rest. */
  lemma PickStep(bs: seq<byte>, o: nat, k: nat, signed: bool)
    requires o + 1 < |bs| && k < 8
    ensures Pick(bs, o, k) == Rest(bs, o, k, signed) % 128
    ensures k == 0 ==> Rest(bs, o, 7, signed) == Rest(bs, o, k, signed) / 128
    ensures k > 0 ==> Rest(bs, o + 1, k - 1, signed) == Rest(bs, o, k, signed) / 128
  {
    RawStep(bs, o, signed);
    RawStep(bs, o + 1, signed);
    PickArith(bs[o], bs[o + 1], RawValue(bs[o + 1..], signed), k);
  }

  /** The first round over the last byte, when all eight of its bits are left. */
  lemma PickWhole(bs: seq<byte>, signed: bool)
    requires |bs| > 0
    ensures Pick(bs, |bs| - 1, 0) == Rest(bs, |bs| - 1, 0, signed) % 128
    ensures Rest(bs, |bs| - 1, 7, signed) == Rest(bs, |bs| - 1, 0, signed) / 128
  {
    RawStep(bs, |bs| - 1, signed);
    Pow2Byte(7);
    hide RawValue; hide Pow2;
  }

  /** The last septet: the top 8 - k bits of the last byte, filled up with the sign. */
  function LastSeptet(bs: seq<byte>, k: nat, signed: bool): int
    requires |bs| > 0 && 1 <= k < 8
  {
    Pick(bs, |bs| - 1, k) + if signed && bs[|bs| - 1] >= 128 then 128 - Pow2(8 - k) else 0
  }

  lemma PickLast(bs: seq<byte>, k: nat, signed: bool)
    requires |bs| > 0 && 1 <= k < 8
    ensures var v := LastSeptet(bs, k, signed);
            && 0 <= v < 128
            && Rest(bs, |bs| - 1, k, signed) == if signed then SignExtend7(v) else v
  {
    var b := bs[|bs| - 1];
    RawStep(bs, |bs| - 1, signed);
    LastArith(b, k);
    SmallSeptet(PickLow(b, k));
    if b >= 128 { SmallSeptet(PickLow(b, k) + 128 - Pow2(8 - k)); }
    ShrFold(b, 0, k);
    Pow2Byte(k);
    assert Pow2(8 - k) <= 128 by { MulAtLeast(Pow2(8 - k), Pow2(k - 1)); Pow2Add(8 - k, k - 1); }
  }

  lemma SmallSeptet(x: int)
    requires 0 <= x < 128
    ensures SignExtend7(x) == if x >= 64 then x - 128 else x
  {
  }

  lemma LastArith(b: byte, k: nat)
    requires 1 <= k < 8
    ensures PickLow(b, k) == Shr(b, k)
    ensures b < 128 ==> 0 <= Shr(b, k) < 64
    ensures b >= 128 ==> 64 <= Shr(b, k) + 128 - Pow2(8 - k) < 128
    ensures b >= 128 ==> Shr(b - 256, k) == Shr(b, k) - Pow2(8 - k)
  {
    Pow2Byte(k);
    ShrFold(b, -1, k);
    SmallMod(Shr(b, k), Pow2(8 - k));
    DivBound(b, Pow2(k), Pow2(7 - k));
    assert Pow2(7 - k) <= 64 by { Pow2Byte(7 - k); MulAtLeast(Pow2(7 - k), Pow2(k - 1)); Pow2Add(7 - k, k - 1); }
  }

  /** The number of sign bits that fill up the last septet of n bytes. */
  function SignExtendBits(n: nat): nat
  {
    var bits := 7 - 8 * n % 7;
    if bits == 7 then 0 else bits
  }

  lemma SignBitsCount(n: nat, septets: nat, k: nat)
    requires 8 * n == 7 * (septets - 1) + (8 - k) && 1 <= k < 8
    ensures SignExtendBits(n) == k - 1
  {
    if k == 1 {
      assert 8 * n == 7 * septets;
    } else {
      DivModUnique(8 * n, 7, septets - 1, 8 - k);
    }
  }

  /** What the encoder has written so far, and where it stands, determine the number. */
  predicate Encoding(bs: seq<byte>, signed: bool, out: seq<byte>, o: nat, k: nat)
    requires |bs| > 0
  {
    && k < 8 && 8 * o + k == 7 * |out| && 7 * |out| < 8 * |bs|
    && (forall j :: 0 <= j < |out| ==> out[j] >= 128)
    && FoldSeptets(out, Rest(bs, o, k, signed)) == RawValue(bs, signed)
  }

  lemma EncodingStart(bs: seq<byte>, signed: bool, out: seq<byte>)
    requires |bs| > 0 && out == []
    ensures Encoding(bs, signed, out, 0, 0)
  {
    assert bs[0..] == bs;
  }

  lemma EncodingStep(bs: seq<byte>, signed: bool, out: seq<byte>, o: nat, k: nat)
    requires |bs| > 0 && Encoding(bs, signed, out, o, k) && 7 * (|out| + 1) < 8 * |bs|
    ensures Pick(bs, o, k) < 128
    ensures var (o', k') := if k + 7 >= 8 then (o + 1, k - 1) else (o, k + 7);
            Encoding(bs, signed, out + [Pick(bs, o, k) + 128], o', k')
  {
    hide Rest;
    if o + 1 < |bs| {
      PickStep(bs, o, k, signed);
    } else {
      PickWhole(bs, signed);
    }
    var (o', k') := if k + 7 >= 8 then (o + 1, k - 1) else (o, k + 7);
    var v, r, r' := Pick(bs, o, k), Rest(bs, o, k, signed), Rest(bs, o', k', signed);
    assert v == r % 128 && r' == r / 128;
    assert (v + 128) % 128 == v && r == v + 128 * r';
    FoldSnoc(out, v + 128, r');
  }

  lemma EncodingDone(bs: seq<byte>, signed: bool, out: seq<byte>, o: nat, k: nat)
    requires |bs| > 0 && Encoding(bs, signed, out, o, k) && 7 * (|out| + 1) >= 8 * |bs|
    ensures o == |bs| - 1 && 1 <= k < 8 && 8 * |bs| == 7 * |out| + (8 - k)
    ensures var v := LastSeptet(bs, k, signed);
            0 <= v < 128 && Encodes(out + [v], bs, signed)
  {
    PickLast(bs, k, signed);
    var v := LastSeptet(bs, k, signed);
    SmallMod(v, 128);
    FoldSnoc(out, v, 0);
    assert (out + [v])[..|out|] == out;
  }

  lemma EncodingCursor(bs: seq<byte>, signed: bool, out: seq<byte>, o: nat, k: nat)
    requires |bs| > 0 && Encoding(bs, signed, out, o, k)
    ensures o < |bs| && k < 8
  {
    hide Rest; hide FoldSeptets; hide RawValue;
  }

  lemma LastSeptetIs(bs: seq<byte>, k: nat, signed: bool)
    requires |bs| > 0 && 1 <= k < 8
    ensures LastSeptet(bs, k, signed)
         == Pick(bs, |bs| - 1, k) + if signed && bs[|bs| - 1] >= 128 then 128 - Pow2(7 - (k - 1)) else 0
  {
  }

  lemma LastRound(bs: seq<byte>, signed: bool, out: seq<byte>, o: nat, k: nat)
    requires |bs| > 0 && Encoding(bs, signed, out, o, k) && 7 * (|out| + 1) >= 8 * |bs|
    ensures o < |bs| && k < 8 && SignExtendBits(|bs|) <= 7
    ensures var v := Pick(bs, o, k) + if signed && bs[|bs| - 1] >= 128 then 128 - Pow2(7 - SignExtendBits(|bs|)) else 0;
            0 <= v < 128 && Encodes(out + [v], bs, signed)
  {
    hide *;
    EncodingDone(bs, signed, out, o, k);
    SignBitsCount(|bs|, |out| + 1, k);
    LastSeptetIs(bs, k, signed);
  }

  /** One round of the encoder: the next septet and the new cursor. */
  method NextSeptet(bytes: seq<byte>, signed: bool, ghost out: seq<byte>, last: bool, byteOffset: nat, bitOffset: nat)
    returns (val: byte, byteOffset': nat, bitOffset': nat)
    requires |bytes| > 0 && Encoding(bytes, signed, out, byteOffset, bitOffset)
    requires last <==> 7 * (|out| + 1) >= 8 * |bytes|
    ensures !last ==> Encoding(bytes, signed, out + [val], byteOffset', bitOffset')
    ensures last ==> Encodes(out + [val], bytes, signed)
  {
    EncodingCursor(bytes, signed, out, byteOffset, bitOffset);
    hide *;
    var v := Pick(bytes, byteOffset, bitOffset);
    if last {
      LastRound(bytes, signed, out, byteOffset, bitOffset);
      if signed && bytes[|bytes| - 1] >= 128 {
        v := v + (128 - Pow2(7 - SignExtendBits(|bytes|)));
      }
    } else {
      EncodingStep(bytes, signed, out, byteOffset, bitOffset);
      v := v + 128;
    }
    val := v;
    byteOffset', bitOffset' := byteOffset, bitOffset + 7;
    if bitOffset' >= 8 {
      byteOffset', bitOffset' := byteOffset + 1, bitOffset' - 8;
    }
  }

  /** encodeAsLEB128NoOptimization: one septet for every seven bits, so leading
      zero (or sign) septets stay. */
  method EncodeNoOptimization(bytes: seq<byte>, signed: bool) returns (leb: seq<byte>)
    requires |bytes| > 0
    ensures Encodes(leb, bytes, signed) && |leb| == (8 * |bytes| + 6) / 7
  {
    var numSeptets := (8 * |bytes| + 6) / 7;
    var result: array<byte> := new byte[numSeptets](_ => 0);
    var byteOffset, bitOffset := 0, 0;
    EncodingStart(bytes, signed, result[..0]);
    for i := 0 to numSeptets
      invariant i < numSeptets ==> Encoding(bytes, signed, result[..i], byteOffset, bitOffset)
      invariant i == numSeptets ==> Encodes(result[..i], bytes, signed)
    {
      ghost var out := result[..i];
      result[i], byteOffset, bitOffset :=
        NextSeptet(bytes, signed, out, i + 1 == numSeptets, byteOffset, bitOffset);
      assert result[..i + 1] == out + [result[i]];
    }
    leb := result[..numSeptets];
  }

  // ----- dropping redundant septets -----

  lemma {:induction false} FoldSign(s: seq<byte>, top: int)
    ensures FoldSeptets(s, top) < 0 <==> top < 0
  {
    if s != [] { FoldSign(s[1..], top); }
  }

  lemma {:induction false} FoldBytesSign(bs: seq<byte>, top: int)
    ensures FoldBytes(bs, top) < 0 <==> top < 0
  {
    if bs != [] { FoldBytesSign(bs[1..], top); }
  }

  /** A redundant last septet: only copies of the sign bit that the septet
      before it already ends in. */
  predicate Redundant(s: seq<byte>, signed: bool, negative: bool)
    requires |s| > 1
  {
    if !signed then s[|s| - 1] % 128 == 0
    else s[|s| - 1] % 128 == (if negative then 127 else 0) && (s[|s| - 2] % 128 >= 64 <==> negative)
  }

  lemma DropRedundant(s: seq<byte>, signed: bool, negative: bool)
    requires |s| > 1 && Redundant(s, signed, negative)
    ensures Value(s[..|s| - 1], signed) == Value(s, signed)
  {
    var t := s[..|s| - 1];
    var u := t[..|t| - 1];
    assert s == t + [s[|s| - 1]] && t == u + [t[|t| - 1]];
    if signed {
      FoldSnoc(u, t[|t| - 1], SignExtend7(s[|s| - 1]));
    } else {
      FoldSnoc(t, s[|s| - 1], 0);
    }
  }

  /** encodeAsLEB128: as above, then chop the septets that carry nothing. */
  method Encode(bytes: seq<byte>, signed: bool) returns (leb: seq<byte>)
    requires |bytes| > 0
    ensures Encodes(leb, bytes, signed) && Minimal(leb, signed)
  {
    var result := EncodeNoOptimization(bytes, signed);
    var negative := signed && bytes[|bytes| - 1] >= 128;
    assert negative <==> RawValue(bytes, signed) < 0 by { RawSign(bytes, signed); }
    var n := Chop(result, signed, negative);
    leb := result[..n][n - 1 := result[n - 1] % 128];
    SameSeptets(leb, result[..n], signed);
  }

  lemma RawSign(bs: seq<byte>, signed: bool)
    requires |bs| > 0
    ensures RawValue(bs, signed) < 0 <==> signed && bs[|bs| - 1] >= 128
  {
    FoldBytesSign(bs, 0);
    FoldBytesSign(bs[..|bs| - 1], SignExtend8(bs[|bs| - 1]));
  }

  lemma ValueSign(s: seq<byte>, signed: bool)
    requires |s| > 0
    ensures Value(s, signed) < 0 <==> signed && s[|s| - 1] % 128 >= 64
  {
    FoldSign(s, 0);
    FoldSign(s[..|s| - 1], SignExtend7(s[|s| - 1]));
  }

  /** How many septets are left when the redundant ones at the top are chopped off. */
  method Chop(result: seq<byte>, signed: bool, negative: bool) returns (n: nat)
    requires |result| > 0 && (negative <==> Value(result, signed) < 0)
    ensures 0 < n <= |result|
    ensures Minimal(result[..n], signed) && Value(result[..n], signed) == Value(result, signed)
  {
    n := |result|;
    assert result[..n] == result;
    while n > 1 && Redundant(result[..n], signed, negative)
      invariant 0 < n <= |result|
      invariant Value(result[..n], signed) == Value(result, signed)
    {
      DropRedundant(result[..n], signed, negative);
      assert result[..n][..n - 1] == result[..n - 1];
      n := n - 1;
    }
    ValueSign(result[..n], signed);
  }

  lemma SameSeptets(a: seq<byte>, b: seq<byte>, signed: bool)
    requires |a| == |b| > 0 && forall i :: 0 <= i < |a| ==> a[i] % 128 == b[i] % 128
    ensures Value(a, signed) == Value(b, signed) && (Minimal(a, signed) <==> Minimal(b, signed))
  {
    FoldCongruent(a, b, 0);
    FoldCongruent(a[..|a| - 1], b[..|b| - 1], SignExtend7(a[|a| - 1]));
  }

  // ----- minimality and uniqueness -----

  /** Removing the lowest septet divides the number by 128. */
  lemma ValueTail(s: seq<byte>, signed: bool)
    requires |s| > 1
    ensures Value(s, signed) == s[0] % 128 + 128 * Value(s[1..], signed)
  {
    assert s[..|s| - 1][1..] == s[1..][..|s| - 2];
  }

  lemma ValueOne(s: seq<byte>, signed: bool)
    requires |s| == 1
    ensures Value(s, signed) == if signed then SignExtend7(s[0]) else s[0] % 128
  {
    assert s[1..] == [] && s[..|s| - 1] == [];
    assert FoldSeptets(s[1..], 0) == 0;
  }

  lemma {:induction false} MinimalLongMeansLarge(s: seq<byte>, signed: bool)
    requires |s| > 1 && Minimal(s, signed)
    ensures signed ==> Value(s, signed) < -64 || Value(s, signed) >= 64
    ensures !signed ==> Value(s, signed) >= 128
  {
    ValueTail(s, signed);
    if |s| > 2 {
      MinimalLongMeansLarge(s[1..], signed);
    } else {
      ValueOne(s[1..], signed);
    }
  }

  /** No encoding of the same number is shorter than a minimal one. */
  lemma {:induction false} MinimalIsShortest(s: seq<byte>, t: seq<byte>, signed: bool)
    requires Minimal(s, signed) && |t| > 0 && Value(t, signed) == Value(s, signed)
    ensures |s| <= |t|
  {
    if |s| > 1 {
      if |t| == 1 {
        MinimalLongMeansLarge(s, signed);
        ValueOne(t, signed);
        assert false;
      } else {
        ValueTail(s, signed);
        ValueTail(t, signed);
        MinimalIsShortest(s[1..], t[1..], signed);
      }
    }
  }

  /** Encodings of one length and one value have the same septets. */
  lemma {:induction false} SameLengthSameSeptets(s: seq<byte>, t: seq<byte>, signed: bool)
    requires |s| == |t| > 0 && Value(t, signed) == Value(s, signed)
    ensures forall i :: 0 <= i < |s| ==> s[i] % 128 == t[i] % 128
  {
    if |s| == 1 {
      ValueOne(s, signed);
      ValueOne(t, signed);
    } else {
      ValueTail(s, signed);
      ValueTail(t, signed);
      SameLengthSameSeptets(s[1..], t[1..], signed);
      forall i | 0 <= i < |s| ensures s[i] % 128 == t[i] % 128 {
        if i > 0 { assert s[i] == s[1..][i - 1] && t[i] == t[1..][i - 1]; }
      }
    }
  }

  /** So the minimal encoding of a number is unique: the optimised encoder has
      one possible answer. */
  lemma MinimalUnique(s: seq<byte>, t: seq<byte>, signed: bool)
    requires WellFormed(s) && WellFormed(t) && Value(s, signed) == Value(t, signed)
    requires |s| == |t| || (Minimal(s, signed) && Minimal(t, signed))
    ensures s == t
  {
    if |s| != |t| {
      MinimalIsShortest(s, t, signed);
      MinimalIsShortest(t, s, signed);
    }
    SameLengthSameSeptets(s, t, signed);
    WellFormedSeptets(s, t);
  }

  lemma WellFormedSeptets(s: seq<byte>, t: seq<byte>)
    requires WellFormed(s) && WellFormed(t) && |s| == |t|
    requires forall i :: 0 <= i < |s| ==> s[i] % 128 == t[i] % 128
    ensures s == t
  {
    forall i | 0 <= i < |s| ensures s[i] == t[i] {
      assert s[i] % 128 == t[i] % 128;
      if i < |s| - 1 { assert s[i] >= 128 && t[i] >= 128; }
    }
  }

  // ----- the decoder -----

  /** There is a last septet to find. */
  predicate Terminated(stream: seq<byte>)
  {
    exists i :: 0 <= i < |stream| && stream[i] < 128
  }

  /** The number of septets of the encoding at the start of the stream. */
  function Length(stream: seq<byte>): (n: nat)
    requires Terminated(stream)
    ensures 0 < n <= |stream| && stream[n - 1] < 128 && forall i :: 0 <= i < n - 1 ==> stream[i] >= 128
  {
    if stream[0] < 128 then 1
    else
      assert Terminated(stream[1..]) by {
        var i :| 0 <= i < |stream| && stream[i] < 128;
        assert stream[1..][i - 1] < 128;
      }
      var n := Length(stream[1..]);
      assert forall i {:trigger stream[i]} :: 0 < i < n ==> stream[i] == stream[1..][i - 1];
      1 + n
  }

  /** A well-formed encoding is found whole, whatever follows it. */
  lemma {:induction false} LengthOfEncoding(leb: seq<byte>, rest: seq<byte>)
    requires WellFormed(leb)
    ensures Terminated(leb + rest) && Length(leb + rest) == |leb|
  {
    assert (leb + rest)[|leb| - 1] < 128;
    if |leb| > 1 {
      LengthOfEncoding(leb[1..], rest);
      assert (leb + rest)[1..] == leb[1..] + rest;
    }
  }

  /** The bytes the decoder produces for one encoding: enough for all its
      septets, except that an unsigned number loses a zero byte on top when
      that byte is only partly covered by septets. */
  function Decoded(leb: seq<byte>, signed: bool): (bs: seq<byte>)
    requires |leb| > 0
    ensures |bs| > 0
  {
    var n := (7 * |leb| + 7) / 8;
    var v := Value(leb, signed);
    if !signed && n > 1 && 7 * |leb| % 8 != 0 && ToBytes(v, n)[n - 1] == 0 then ToBytes(v, n - 1)
    else ToBytes(v, n)
  }

  /** What is still to be read when i of the septets are consumed. */
  function Remaining(leb: seq<byte>, i: nat, signed: bool): int
    requires i <= |leb| && |leb| > 0
  {
    if i < |leb| then Value(leb[i..], signed)
    else if signed && leb[|leb| - 1] % 128 >= 64 then -1 else 0
  }

  lemma RemainingStep(leb: seq<byte>, i: nat, signed: bool)
    requires i < |leb|
    ensures Remaining(leb, i, signed) == leb[i] % 128 + 128 * Remaining(leb, i + 1, signed)
  {
    var t := leb[i..];
    if |t| == 1 {
      ValueOne(t, signed);
    } else {
      ValueTail(t, signed);
      assert t[1..] == leb[i + 1..];
    }
  }

  /** The decoder has filled the bytes out and the u low bits p of the next one. */
  predicate Decoding(leb: seq<byte>, i: nat, signed: bool, out: seq<byte>, p: nat, u: nat)
  {
    && |leb| > 0 && i <= |leb| && u < 8 && 7 * i == 8 * |out| + u && p < Pow2(u)
    && FoldBytes(out, p + Pow2(u) * Remaining(leb, i, signed)) == Value(leb, signed)
    && (i > 0 ==> (leb[i - 1] % 128 >= 64 <==> if u == 0 then out[|out| - 1] >= 128 else p >= Pow2(u - 1)))
  }

  /** Adding a septet s above u bits p fills a byte and leaves u - 1 bits. */
  lemma JoinArith(p: nat, s: nat, r: int, u: nat)
    requires 1 <= u < 8 && p < Pow2(u) && s < 128
    ensures 0 <= p + Low(Shl(s, u), 8) < 256 && 0 <= Shr(s, 8 - u) < Pow2(u - 1)
    ensures p + Pow2(u) * (s + 128 * r)
         == (p + Low(Shl(s, u), 8)) + 256 * (Shr(s, 8 - u) + Pow2(u - 1) * r)
    ensures u == 1 ==> (s >= 64 <==> p + Low(Shl(s, u), 8) >= 128)
    ensures u > 1 ==> (s >= 64 <==> Shr(s, 8 - u) >= Pow2(u - 2))
  {
    var m, h := Pow2(u), Pow2(8 - u);
    JoinPowers(u);
    Split(0, s, m, h);
    MulMonotone(m, s % h, h - 1);
    assert m * s == 256 * (s / h) + m * (s % h) by { MulAssoc(m, h, s / h); }
    assert m * (128 * r) == 256 * (Pow2(u - 1) * r) by { MulAssoc(m, 128, r); MulAssoc(256, Pow2(u - 1), r); }
    DivBound(s, h, Pow2(u - 1));
    DivBound(s, h, 0);
    hide Pow2;
    if u == 1 {
      SmallMod(2 * s, 256);
    } else {
      DivBound(s, h, Pow2(u - 2));
    }
  }

  lemma JoinPowers(u: nat)
    requires 1 <= u < 8
    ensures Pow2(u) * Pow2(8 - u) == 256 && Pow2(u) == 2 * Pow2(u - 1)
    ensures Pow2(8 - u) * Pow2(u - 1) == 128
    ensures u == 1 ==> Pow2(u) == 2 && Pow2(8 - u) == 128
    ensures u > 1 ==> Pow2(8 - u) * Pow2(u - 2) == 64
  {
    Pow2Byte(u);
    Pow2Add(8 - u, u - 1);
    if u > 1 { Pow2Add(8 - u, u - 2); }
    Pow2Byte(1);
  }

  lemma DecodingStep(leb: seq<byte>, i: nat, signed: bool, out: seq<byte>, p: nat, u: nat)
    requires Decoding(leb, i, signed, out, p, u) && i < |leb|
    ensures u == 0 ==> Decoding(leb, i + 1, signed, out, leb[i] % 128, 7)
    ensures u > 0 ==>
      var b := p + Low(Shl(leb[i] % 128, u), 8);
      b < 256 && Decoding(leb, i + 1, signed, out + [b], Shr(leb[i] % 128, 8 - u), u - 1)
  {
    hide Remaining, Value, FoldBytes, Low, Shl, Shr;
    RemainingStep(leb, i, signed);
    var s, r := leb[i] % 128, Remaining(leb, i + 1, signed);
    if u == 0 {
      assert Pow2(0) == 1 && Pow2(6) == 64 && Pow2(7) == 128;
    } else {
      hide Pow2;
      JoinArith(p, s, r, u);
      FoldBytesSnoc(out, p + Low(Shl(s, u), 8), Shr(s, 8 - u) + Pow2(u - 1) * r);
    }
  }

  /** The top byte after the sign extension at the end of the decoder. */
  function LastByte(signed: bool, p: nat, u: nat): int
  {
    if signed && u > 0 && p >= Pow2(u - 1) then p + (256 - Pow2(u)) else p
  }

  lemma LastByteValue(leb: seq<byte>, signed: bool, out: seq<byte>, p: nat, u: nat)
    requires Decoding(leb, |leb|, signed, out, p, u)
    ensures p < 128 && 0 <= LastByte(signed, p, u) < 256
    ensures var r, b := Remaining(leb, |leb|, signed), LastByte(signed, p, u);
            u > 0 ==> p + Pow2(u) * r == b + 256 * r && (signed ==> p + Pow2(u) * r == SignExtend8(b))
    ensures u == 0 ==> p == 0 && p + Pow2(u) * Remaining(leb, |leb|, signed) == Remaining(leb, |leb|, signed)
  {
    Pow2Byte(u);
    assert Pow2(u) <= 128 by { MulAtLeast(Pow2(u), Pow2(7 - u)); }
  }

  /** The end of the decoder: sign extension, or dropping an empty top byte. */
  lemma DecodingDone(leb: seq<byte>, signed: bool, out: seq<byte>, p: nat, u: nat)
    requires Decoding(leb, |leb|, signed, out, p, u)
    ensures 0 <= LastByte(signed, p, u) < 256
    ensures var all := if u == 0 then out else out + [LastByte(signed, p, u)];
            Decoded(leb, signed) == if !signed && u > 0 && p == 0 && |out| > 0 then out else all
  {
    hide Remaining, Pow2, FoldBytes, Value, ToBytes;
    var r := Remaining(leb, |leb|, signed);
    LastByteValue(leb, signed, out, p, u);
    DivModUnique(7 * |leb|, 8, |out|, u);
    DivModUnique(7 * |leb| + 7, 8, if u == 0 then |out| else |out| + 1, if u == 0 then 7 else u - 1);
    if u == 0 {
      ToBytesUnique(out, r);
    } else {
      var b := LastByte(signed, p, u);
      FoldBytesSnoc(out, b, r);
      ToBytesUnique(out + [b], r);
      ToBytesUnique(out, b + 256 * r);
    }
  }

  /** The decoder's buffer and cursor after i septets. */
  predicate Filled(leb: seq<byte>, i: nat, signed: bool, buf: seq<byte>, byteIdx: nat, bitsLeft: nat)
  {
    && |buf| == (7 * |leb| + 7) / 8 && 1 <= bitsLeft <= 8
    && byteIdx <= |buf| && (bitsLeft < 8 ==> byteIdx < |buf|)
    && (forall j :: byteIdx < j < |buf| ==> buf[j] == 0)
    && (bitsLeft == 8 && byteIdx < |buf| ==> buf[byteIdx] == 0)
    && Decoding(leb, i, signed, buf[..byteIdx], if bitsLeft < 8 then buf[byteIdx] else 0, 8 - bitsLeft)
  }

  /** What one septet does to the buffer. */
  function Fill(buf: seq<byte>, byteIdx: nat, bitsLeft: nat, septet: nat): (seq<byte>, nat, nat)
    requires byteIdx < |buf| && 1 <= bitsLeft <= 8 && septet < 128
    requires buf[byteIdx] + Low(Shl(septet, 8 - bitsLeft), 8) < 256
    requires bitsLeft < 7 ==> byteIdx + 1 < |buf|
  {
    var joined := buf[byteIdx := buf[byteIdx] + Low(Shl(septet, 8 - bitsLeft), 8)];
    if bitsLeft == 8 then (joined, byteIdx, 1)
    else if bitsLeft == 7 then (joined, byteIdx + 1, 8)
    else
      assert Shr(septet, bitsLeft) < 128 by { ShrSmaller(septet, bitsLeft); }
      (joined[byteIdx + 1 := Shr(septet, bitsLeft)], byteIdx + 1, bitsLeft + 1)
  }

  lemma ShrSmaller(x: nat, k: nat)
    requires k <= 8
    ensures 0 <= Shr(x, k) <= x
  {
    var p := Pow2(k);
    MulAtLeast(x + 1, p);
    DivBound(x, p, 0);
    DivBound(x, p, x + 1);
    hide Pow2;
  }

  /** There is room for the septet. */
  lemma FillRoom(leb: seq<byte>, i: nat, signed: bool, buf: seq<byte>, byteIdx: nat, bitsLeft: nat)
    requires Filled(leb, i, signed, buf, byteIdx, bitsLeft) && i < |leb|
    ensures byteIdx < |buf| && (bitsLeft < 7 ==> byteIdx + 1 < |buf|)
    ensures 0 <= 8 - bitsLeft < 8
  {
  }

  lemma FillStep(leb: seq<byte>, i: nat, signed: bool, buf: seq<byte>, byteIdx: nat, bitsLeft: nat)
    requires Filled(leb, i, signed, buf, byteIdx, bitsLeft) && i < |leb|
    ensures byteIdx < |buf| && (bitsLeft < 7 ==> byteIdx + 1 < |buf|)
    ensures buf[byteIdx] + Low(Shl(leb[i] % 128, 8 - bitsLeft), 8) < 256
    ensures var (buf', byteIdx', bitsLeft') := Fill(buf, byteIdx, bitsLeft, leb[i] % 128);
            Filled(leb, i + 1, signed, buf', byteIdx', bitsLeft')
  {
    FillRoom(leb, i, signed, buf, byteIdx, bitsLeft);
    var u, s := 8 - bitsLeft, leb[i] % 128;
    WholeSeptet(s);
    hide Decoding; hide Pow2; hide Low; hide Shl; hide Shr; hide Value; hide Remaining; hide FoldBytes;
    DecodingStep(leb, i, signed, buf[..byteIdx], if bitsLeft < 8 then buf[byteIdx] else 0, u);
    if u == 0 {
      assert buf[byteIdx := s][..byteIdx] == buf[..byteIdx];
    } else {
      FillShape(buf, byteIdx, bitsLeft, s);
      hide Fill;
    }
  }

  /** The buffer behind a septet that completes a byte. */
  lemma FillShape(buf: seq<byte>, byteIdx: nat, bitsLeft: nat, s: nat)
    requires byteIdx < |buf| && 1 <= bitsLeft < 8 && s < 128
    requires buf[byteIdx] + Low(Shl(s, 8 - bitsLeft), 8) < 256
    requires bitsLeft < 7 ==> byteIdx + 1 < |buf|
    ensures var (buf', byteIdx', bitsLeft') := Fill(buf, byteIdx, bitsLeft, s);
            && |buf'| == |buf| && byteIdx' == byteIdx + 1 && bitsLeft' == bitsLeft + 1
            && buf'[..byteIdx + 1] == buf[..byteIdx] + [buf[byteIdx] + Low(Shl(s, 8 - bitsLeft), 8)]
            && (bitsLeft < 7 ==> buf'[byteIdx + 1] == Shr(s, bitsLeft))
            && (forall j :: byteIdx + 1 < j < |buf| ==> buf'[j] == buf[j])
            && (bitsLeft == 7 && byteIdx + 1 < |buf| ==> buf'[byteIdx + 1] == buf[byteIdx + 1])
  {
    hide Low; hide Shl; hide Shr;
  }

  lemma WholeSeptet(s: nat)
    requires s < 128
    ensures Low(Shl(s, 0), 8) == s && Shr(s, 7) == 0
  {
    Pow2Byte(7);
    SmallMod(s, 256);
    SmallMod(s, 128);
  }

  /** decodeLEB128: the bytes of the number and how many septets were read. */
  method Decode(stream: seq<byte>, signed: bool) returns (bytes: seq<byte>, septetsRead: nat)
    requires Terminated(stream)
    ensures septetsRead == Length(stream)
    ensures bytes == Decoded(stream[..septetsRead], signed)
  {
    septetsRead := 1;
    ghost var n := Length(stream);
    while stream[septetsRead - 1] >= 128
      invariant 1 <= septetsRead <= n
      decreases n - septetsRead
    {
      septetsRead := septetsRead + 1;
    }
    bytes := DecodeSeptets(stream[..septetsRead], signed);
  }

  /** One round of the decoder: or the septet into the buffer at the cursor. */
  method AddSeptet(result: array<byte>, byteIdx: nat, bitsLeftInByte: nat, septetBits: nat)
    returns (byteIdx': nat, bitsLeft': nat)
    requires byteIdx < result.Length && 1 <= bitsLeftInByte <= 8 && septetBits < 128
    requires result[byteIdx] + Low(Shl(septetBits, 8 - bitsLeftInByte), 8) < 256
    requires bitsLeftInByte < 7 ==> byteIdx + 1 < result.Length
    modifies result
    ensures (result[..], byteIdx', bitsLeft') == Fill(old(result[..]), byteIdx, bitsLeftInByte, septetBits)
  {
    var shift := 8 - bitsLeftInByte;
    result[byteIdx] := result[byteIdx] + Low(Shl(septetBits, shift), 8);
    if bitsLeftInByte == 8 {
      return byteIdx, 1;
    } else if bitsLeftInByte == 7 {
      return byteIdx + 1, 8;
    } else {
      ShrSmaller(septetBits, 8 - shift);
      result[byteIdx + 1] := Shr(septetBits, 8 - shift);
      return byteIdx + 1, bitsLeftInByte + 1;
    }
  }

  method DecodeSeptets(leb: seq<byte>, signed: bool) returns (bytes: seq<byte>)
    requires |leb| > 0
    ensures bytes == Decoded(leb, signed)
  {
    var result: array<byte> := new byte[(7 * |leb| + 7) / 8](_ => 0);
    var byteIdx, bitsLeftInByte := 0, 8;
    assert leb[0..] == leb && FoldBytes(result[..][..0], Value(leb, signed)) == Value(leb, signed);
    for i := 0 to |leb|
      invariant Filled(leb, i, signed, result[..], byteIdx, bitsLeftInByte)
    {
      FillStep(leb, i, signed, result[..], byteIdx, bitsLeftInByte);
      byteIdx, bitsLeftInByte := AddSeptet(result, byteIdx, bitsLeftInByte, leb[i] % 128);
    }
    bytes := FinishDecoding(leb, signed, result, byteIdx, bitsLeftInByte);
  }

  /** Sign extension of the last byte, or dropping it when nothing is in it. */
  lemma FilledShape(leb: seq<byte>, i: nat, signed: bool, buf: seq<byte>, byteIdx: nat, bitsLeft: nat)
    requires Filled(leb, i, signed, buf, byteIdx, bitsLeft)
    ensures 1 <= bitsLeft <= 8 && byteIdx <= |buf| && (bitsLeft < 8 ==> byteIdx < |buf|)
  {
    hide Decoding;
  }

  method FinishDecoding(ghost leb: seq<byte>, signed: bool, result: array<byte>, byteIdx: nat, bitsLeftInByte: nat)
    returns (bytes: seq<byte>)
    requires Filled(leb, |leb|, signed, result[..], byteIdx, bitsLeftInByte)
    modifies result
    ensures bytes == Decoded(leb, signed)
  {
    ghost var p: nat := if bitsLeftInByte < 8 then result[byteIdx] else 0;
    DecodingDone(leb, signed, result[..][..byteIdx], p, 8 - bitsLeftInByte);
    FilledShape(leb, |leb|, signed, result[..], byteIdx, bitsLeftInByte);
    hide *;
    if bitsLeftInByte < 8 {
      var last := result[byteIdx];
      var filled := FillSign(signed, last, bitsLeftInByte);
      result[byteIdx] := filled;
      if !signed && last == 0 && byteIdx > 0 {
        bytes := result[..byteIdx];
      } else {
        bytes := result[..byteIdx + 1];
      }
      assert result[..byteIdx] == old(result[..])[..byteIdx];
      assert result[..byteIdx + 1] == result[..byteIdx] + [filled];
    } else {
      bytes := result[..byteIdx];
    }
  }

  /** The sign fills up the last byte of a signed number. */
  method FillSign(signed: bool, last: byte, bitsLeftInByte: nat) returns (filled: byte)
    requires 1 <= bitsLeftInByte < 8 && 0 <= LastByte(signed, last, 8 - bitsLeftInByte) < 256
    ensures filled == LastByte(signed, last, 8 - bitsLeftInByte)
  {
    filled := last;
    if signed && last >= Pow2(7 - bitsLeftInByte) {
      filled := last + (256 - Pow2(8 - bitsLeftInByte));
    }
  }

  // ----- what decoding returns -----

  lemma {:induction false} DecodingRun(leb: seq<byte>, i: nat, signed: bool)
    returns (out: seq<byte>, p: nat, u: nat)
    requires |leb| > 0 && i <= |leb|
    ensures Decoding(leb, i, signed, out, p, u)
  {
    if i == 0 {
      out, p, u := [], 0, 0;
      assert leb[0..] == leb;
    } else {
      hide Decoding;
      out, p, u := DecodingRun(leb, i - 1, signed);
      DecodingStep(leb, i - 1, signed, out, p, u);
      if u == 0 {
        p, u := leb[i - 1] % 128, 7;
      } else {
        var b := p + Low(Shl(leb[i - 1] % 128, u), 8);
        out, p, u := out + [b], Shr(leb[i - 1] % 128, 8 - u), u - 1;
      }
    }
  }

  /** Decoding preserves the number, for both signednesses. */
  lemma DecodedValue(leb: seq<byte>, signed: bool)
    requires |leb| > 0
    ensures RawValue(Decoded(leb, signed), signed) == Value(leb, signed)
  {
    hide Decoded; hide Pow2;
    var out, p, u := DecodingRun(leb, |leb|, signed);
    DecodingDone(leb, signed, out, p, u);
    LastByteValue(leb, signed, out, p, u);
    if signed {
      if u == 0 {
        assert out == out[..|out| - 1] + [out[|out| - 1]];
        FoldBytesSnoc(out[..|out| - 1], out[|out| - 1], Remaining(leb, |leb|, signed));
      } else {
        var all := out + [LastByte(signed, p, u)];
        assert Decoded(leb, signed) == all && all[..|all| - 1] == out;
      }
    } else if u > 0 {
      FoldBytesSnoc(out, p, 0);
    }
  }

  /** Encoding, optimised or not, followed by decoding, with anything after the
      encoding in the stream, gives back the number and stops where the encoding
      stops. */
  lemma RoundTrip(bytes: seq<byte>, signed: bool, leb: seq<byte>, rest: seq<byte>)
    requires |bytes| > 0 && Encodes(leb, bytes, signed)
    ensures Terminated(leb + rest) && Length(leb + rest) == |leb|
    ensures RawValue(Decoded((leb + rest)[..|leb|], signed), signed) == RawValue(bytes, signed)
  {
    LengthOfEncoding(leb, rest);
    assert (leb + rest)[..|leb|] == leb;
    DecodedValue(leb, signed);
  }

  lemma {:induction false} UnsignedBelow(bs: seq<byte>)
    ensures 0 <= Unsigned(bs) < Base256(|bs|)
  {
    if bs != [] { UnsignedBelow(bs[1..]); }
  }

  lemma {:induction false} UnsignedTop(bs: seq<byte>)
    requires |bs| > 0 && bs[|bs| - 1] > 0
    ensures Unsigned(bs) >= Base256(|bs| - 1)
  {
    if |bs| > 1 {
      UnsignedTop(bs[1..]);
    } else {
      assert bs[1..] == [] && FoldBytes(bs[1..], 0) == 0;
    }
  }

  lemma {:induction false} Base256Monotone(a: nat, b: nat)
    requires a <= b
    ensures Base256(a) <= Base256(b)
    decreases b
  {
    if a < b { Base256Monotone(a, b - 1); }
  }

  /** n bytes need so many septets that decoding them gives n bytes, or n + 1
      when the septets do not end at a byte boundary. */
  lemma SeptetCount(n: nat, septets: nat)
    requires n > 0 && septets == (8 * n + 6) / 7
    ensures (7 * septets + 7) / 8 == if 7 * septets == 8 * n then n else n + 1
    ensures 7 * septets % 8 == 0 <==> 7 * septets == 8 * n
  {
    var pad := 7 * septets - 8 * n;
    assert 0 <= pad < 7;
    DivModUnique(7 * septets, 8, n, pad);
    DivModUnique(7 * septets + 7, 8, if pad == 0 then n else n + 1, if pad == 0 then 7 else pad - 1);
  }

  /** The unoptimised unsigned encoding loses nothing: every byte comes back,
      zero bytes at the top included. */
  lemma NoOptimizationLossless(bytes: seq<byte>, leb: seq<byte>)
    requires |bytes| > 0 && Encodes(leb, bytes, false) && |leb| == (8 * |bytes| + 6) / 7
    ensures Decoded(leb, false) == bytes
  {
    var ds := Decoded(leb, false);
    DecodedValue(leb, false);
    UnsignedBelow(bytes);
    SeptetCount(|bytes|, |leb|);
    hide Value; hide FoldBytes; hide ToBytes; hide Base256; hide WellFormed;
    if |ds| > |bytes| {
      UnsignedTop(ds);
      assert false;
    }
    UnsignedInjective(ds, bytes);
  }
}
