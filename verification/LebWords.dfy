/** The integer wrappers of leb.c: machine integers in, LEB128 out, and back.

    Uleb and Sleb are the specification: the minimal encoding of a number, one
    septet at a time.  The encoders return exactly these.  The readers stop with
    None where the program aborts (or shifts by more than the width of an int).
  */
module LebWords {
  import opened Bytes
  import opened Leb

  function Uleb(v: nat): (leb: seq<byte>)
    ensures WellFormed(leb)
  {
    if v < 128 then [v] else [v % 128 + 128] + Uleb(v / 128)
  }

  lemma {:induction false} UlebValue(v: nat)
    ensures Value(Uleb(v), false) == v && Minimal(Uleb(v), false)
  {
    if v < 128 {
      ValueOne([v], false);
    } else {
      UlebValue(v / 128);
      ConsSeptet(v % 128, Uleb(v / 128), false);
    }
  }

  /** A septet below an encoding: the number times 128 plus the septet, and
      minimal when the number does not fit one septet less. */
  lemma ConsSeptet(d: nat, t: seq<byte>, signed: bool)
    requires d < 128 && |t| > 0 && Minimal(t, signed)
    ensures Value([d + 128] + t, signed) == d + 128 * Value(t, signed)
    ensures signed && !(-64 <= d + 128 * Value(t, true) < 64) ==> Minimal([d + 128] + t, true)
    ensures !signed && Value(t, false) > 0 ==> Minimal([d + 128] + t, false)
  {
    var s := [d + 128] + t;
    assert s[1..] == t && (d + 128) % 128 == d;
    ValueTail(s, signed);
    if |t| == 1 {
      ValueOne(t, signed);
    } else {
      assert s[|s| - 1] == t[|t| - 1] && s[|s| - 2] == t[|t| - 2];
    }
  }

  function Sleb(v: int): (leb: seq<byte>)
    ensures WellFormed(leb)
    decreases if v < 0 then -v else v
  {
    if -64 <= v < 64 then [v % 128] else [v % 128 + 128] + Sleb(v / 128)
  }

  lemma {:induction false} SlebValue(v: int)
    ensures Value(Sleb(v), true) == v && Minimal(Sleb(v), true)
    decreases if v < 0 then -v else v
  {
    if -64 <= v < 64 {
      ValueOne([v % 128], true);
    } else {
      SlebValue(v / 128);
      ConsSeptet(v % 128, Sleb(v / 128), true);
    }
  }

  /** The optimised encoder's answer is fixed by the number alone. */
  lemma EncodesUnique(leb: seq<byte>, bytes: seq<byte>, signed: bool)
    requires |bytes| > 0 && Encodes(leb, bytes, signed) && Minimal(leb, signed)
    ensures !signed ==> Unsigned(bytes) >= 0 && leb == Uleb(Unsigned(bytes))
    ensures signed ==> leb == Sleb(Signed(bytes))
  {
    if signed {
      SlebValue(Signed(bytes));
      MinimalUnique(leb, Sleb(Signed(bytes)), true);
    } else {
      UnsignedNonNegative(bytes);
      UlebValue(Unsigned(bytes));
      MinimalUnique(leb, Uleb(Unsigned(bytes)), false);
    }
  }

  // ----- encoders -----

  /** addUlebToGrowingBuffer and addSlebToGrowingBuffer: a 64-bit variable. */
  method EncodeWord(value: int, signed: bool) returns (leb: seq<byte>)
    requires if signed then -(WORD / 2) <= value < WORD / 2 else 0 <= value < WORD
    ensures leb == if signed then Sleb(value) else Uleb(value)
  {
    var bytes := ToBytes(value, 8);
    assert Base256(8) == WORD;
    ToBytesRaw(value, 8, signed);
    leb := Encode(bytes, signed);
    EncodesUnique(leb, bytes, signed);
  }

  /** A variable of n bytes denotes what was stored in it. */
  lemma ToBytesRaw(v: int, n: nat, signed: bool)
    requires n > 0
    requires if signed then 0 <= 2 * v + Base256(n) < 2 * Base256(n) else 0 <= v < Base256(n)
    ensures RawValue(ToBytes(v, n), signed) == v
  {
    var bs := ToBytes(v, n);
    ToBytesValue(v, n);
    var top := v / Base256(n);
    if signed {
      var low := bs[..n - 1];
      assert bs == low + [bs[n - 1]];
      FoldBytesSnoc(low, bs[n - 1], top);
      RawSign(bs, true);
      FoldBytesSign(low, SignExtend8(bs[n - 1]));
      SignedFromUnsigned(bs);
      if v >= 0 { SmallMod(v, Base256(n)); } else { DivModUnique(v, Base256(n), -1, v + Base256(n)); }
      UnsignedHalf(bs);
    } else {
      SmallMod(v, Base256(n));
    }
  }

  /** Two's complement. */
  lemma {:induction false} SignedFromUnsigned(bs: seq<byte>)
    requires |bs| > 0
    ensures Signed(bs) == if bs[|bs| - 1] >= 128 then Unsigned(bs) - Base256(|bs|) else Unsigned(bs)
  {
    if |bs| == 1 {
      assert bs[..|bs| - 1] == [] && bs[1..] == [];
      assert FoldBytes(bs[1..], 0) == 0;
    } else {
      SignedFromUnsigned(bs[1..]);
      assert bs[..|bs| - 1][1..] == bs[1..][..|bs| - 2];
    }
  }

  /** The top bit decides which half of the range an unsigned number is in. */
  lemma {:induction false} UnsignedHalf(bs: seq<byte>)
    requires |bs| > 0
    ensures bs[|bs| - 1] >= 128 <==> 2 * Unsigned(bs) >= Base256(|bs|)
  {
    if |bs| == 1 {
      assert bs[1..] == [] && FoldBytes(bs[1..], 0) == 0;
    } else {
      UnsignedHalf(bs[1..]);
      var half := 128 * Base256(|bs| - 2);
      assert Base256(|bs| - 1) == 2 * half && Base256(|bs|) == 512 * half;
      var u := Unsigned(bs[1..]);
      assert Unsigned(bs) == bs[0] + 256 * u;
    }
  }

  /** uintToLEB128: only as many bytes as the number needs are encoded. */
  method UIntToLEB128(value: nat) returns (leb: seq<byte>)
    requires value < HALF_WORD
    ensures leb == Uleb(value)
  {
    var bytesNeeded := 1;
    if value >= 0x100_0000 {
      bytesNeeded := 4;
    } else if value >= 0x1_0000 {
      bytesNeeded := 3;
    } else if value >= 0x100 {
      bytesNeeded := 2;
    }
    var bytes := ToBytes(value, bytesNeeded);
    assert Base256(1) == 0x100 && Base256(2) == 0x1_0000 && Base256(3) == 0x100_0000 && Base256(4) == HALF_WORD;
    ToBytesRaw(value, bytesNeeded, false);
    leb := Encode(bytes, false);
    EncodesUnique(leb, bytes, false);
  }

  /** intToLEB128: the unsigned form for every value that is not negative, so a
      reader that expects a signed number can take it for a negative one. */
  method IntToLEB128(value: int) returns (leb: seq<byte>)
    requires -(HALF_WORD / 2) <= value < HALF_WORD / 2
    ensures leb == if value >= 0 then Uleb(value) else Sleb(value)
  {
    if value >= 0 {
      leb := UIntToLEB128(value);
    } else {
      var bytes := ToBytes(value, 4);
      assert Base256(4) == HALF_WORD;
      ToBytesRaw(value, 4, true);
      leb := Encode(bytes, true);
      EncodesUnique(leb, bytes, true);
    }
  }

  // ----- readers -----

  /** sextend (util.c:104-116) on a 64-bit variable of which n bytes are filled.
      The mask is 1 << (8n - 1) on an int, which is undefined for 5 to 7 bytes. */
  function SExtend(val: nat, n: nat): (r: Option<nat>)
    requires 0 < n && val < Base256(n) && n <= 8
    ensures r.Some? ==> r.value < WORD
  {
    assert Base256(8) == WORD;
    if n == 8 then Some(val)
    else if n > 4 then None
    else
      assert Base256(1) == 0x100 && Base256(2) == 0x1_0000 && Base256(3) == 0x100_0000 && Base256(4) == HALF_WORD;
      Some(if val >= Base256(n) / 2 then val + (WORD - Base256(n)) else val)
  }

  /** leb128ToUInt (limit 4) and leb128ToUWord (limit 8): number and septets read. */
  function ReadUnsigned(stream: seq<byte>, limit: nat): (r: Option<(nat, nat)>)
    ensures r.Some? ==> r.value.0 < Base256(limit) && 0 < r.value.1 <= |stream|
  {
    if !Terminated(stream) then None
    else
      var n := Length(stream);
      var bs := Decoded(stream[..n], false);
      UnsignedBelow(bs);
      assert |bs| <= limit ==> Base256(|bs|) <= Base256(limit) by { if |bs| <= limit { Base256Monotone(|bs|, limit); } }
      if |bs| <= limit then Some((Unsigned(bs), n)) else None
  }

  /** leb128ToInt (limit 4) and leb128ToSWord (limit 8): the variable's 64 bits. */
  function ReadSigned(stream: seq<byte>, limit: nat): (r: Option<(nat, nat)>)
    requires limit <= 8
    ensures r.Some? ==> r.value.0 < WORD && 0 < r.value.1 <= |stream|
  {
    if !Terminated(stream) then None
    else
      var n := Length(stream);
      var bs := Decoded(stream[..n], true);
      UnsignedBelow(bs);
      if |bs| > limit then None
      else
        var w :- SExtend(Unsigned(bs), |bs|);
        Some((w, n))
  }

  lemma Pow2Base256(n: nat)
    ensures Pow2(8 * n) == Base256(n)
  {
    if n > 0 {
      Pow2Base256(n - 1);
      Pow2Add(8, 8 * (n - 1));
      assert Pow2(8) == 256;
    }
  }

  lemma {:induction false} Pow2Strict(a: nat, b: nat)
    ensures a <= b <==> Pow2(a) <= Pow2(b)
    decreases a + b
  {
    if a > 0 && b > 0 { Pow2Strict(a - 1, b - 1); }
  }

  /** m septets hold exactly the numbers below 2^(7m). */
  lemma {:induction false} UlebLength(v: nat, m: nat)
    requires m > 0
    ensures |Uleb(v)| <= m <==> v < Pow2(7 * m)
    decreases m
  {
    Pow2Add(7, 7 * (m - 1));
    assert Pow2(7) == 128;
    Pow2Strict(0, 7 * (m - 1));
    if v >= 128 && m > 1 {
      UlebLength(v / 128, m - 1);
      DivBound(v, 128, Pow2(7 * (m - 1)));
    } else if v < 128 {
      MulAtLeast(128, Pow2(7 * (m - 1)));
    }
  }

  /** m septets hold exactly the numbers in [-2^(7m-1), 2^(7m-1)). */
  lemma {:induction false} SlebLength(v: int, m: nat)
    requires m > 0
    ensures |Sleb(v)| <= m <==> -1 - v < Pow2(7 * m - 1) && v < Pow2(7 * m - 1)
    decreases m
  {
    assert Pow2(6) == 64 && Pow2(7) == 128;
    Pow2Strict(6, 7 * m - 1);
    if !(-64 <= v < 64) && m > 1 {
      SlebLength(v / 128, m - 1);
      var p := Pow2(7 * (m - 1) - 1);
      assert Pow2(7 * m - 1) == 128 * p by { Pow2Add(7, 7 * (m - 1) - 1); }
      SplitRange(v, p);
    }
  }

  lemma SplitRange(v: int, p: nat)
    ensures -1 - v < 128 * p && v < 128 * p <==> -1 - v / 128 < p && v / 128 < p
  {
    DivBound(v, 128, p);
    DivBound(v, 128, 0 - p);
  }

  /** The decoder's answer to a minimal encoding fits in k bytes exactly when the
      number does. */
  lemma DecodedUlebFits(v: nat, k: nat)
    requires k > 0
    ensures |Decoded(Uleb(v), false)| <= k <==> v < Base256(k)
  {
    var m, ds := |Uleb(v)|, Decoded(Uleb(v), false);
    UlebValue(v);
    if v < Base256(k) {
      Pow2Base256(k);
      if m > 1 {
        UlebLength(v, m - 1);
        Pow2Strict(8 * k, 7 * (m - 1));
      }
      if (7 * m + 7) / 8 > k {
        OneByteOver(m, k);
        ToBytesTop(v, k);
        TopByteDropped(Uleb(v), k);
      }
    } else {
      DecodedValue(Uleb(v), false);
      UnsignedBelow(ds);
      if |ds| <= k { Base256Monotone(|ds|, k); }
    }
  }

  lemma TopByteDropped(leb: seq<byte>, k: nat)
    requires |leb| > 0 && k > 0 && (7 * |leb| + 7) / 8 == k + 1 && 7 * |leb| % 8 != 0
    requires ToBytes(Value(leb, false), k + 1)[k] == 0
    ensures |Decoded(leb, false)| == k
  {
  }

  lemma OneByteOver(m: nat, k: nat)
    requires 0 < m && 7 * (m - 1) < 8 * k && (7 * m + 7) / 8 > k
    ensures (7 * m + 7) / 8 == k + 1 && 7 * m % 8 != 0
  {
    DivModUnique(7 * m, 8, k, 7 * m - 8 * k);
  }

  lemma {:induction false} ToBytesTop(v: nat, k: nat)
    requires v < Base256(k)
    ensures ToBytes(v, k + 1)[k] == 0
    decreases k
  {
    if k > 0 {
      DivBound(v, 256, Base256(k - 1));
      ToBytesTop(v / 256, k - 1);
      assert ToBytes(v, k + 1)[k] == ToBytes(v / 256, k)[k - 1];
    }
  }

  /** Unsigned numbers survive exactly when they fit the variable read into. */
  lemma ReadUlebIff(v: nat, limit: nat, rest: seq<byte>)
    requires limit > 0
    ensures ReadUnsigned(Uleb(v) + rest, limit) == if v < Base256(limit) then Some((v, |Uleb(v)|)) else None
  {
    var leb := Uleb(v);
    LengthOfEncoding(leb, rest);
    assert (leb + rest)[..|leb|] == leb;
    DecodedUlebFits(v, limit);
    DecodedValue(leb, false);
    UlebValue(v);
  }

  lemma ReadUlebWord(v: nat, rest: seq<byte>)
    ensures ReadUnsigned(Uleb(v) + rest, 8) == if v < WORD then Some((v, |Uleb(v)|)) else None
  {
    ReadUlebIff(v, 8, rest);
    assert Base256(8) == WORD;
  }

  lemma ReadUlebUInt(v: nat, rest: seq<byte>)
    ensures ReadUnsigned(Uleb(v) + rest, 4) == if v < HALF_WORD then Some((v, |Uleb(v)|)) else None
  {
    ReadUlebIff(v, 4, rest);
    assert Base256(4) == HALF_WORD;
  }

  /** The bit pattern of a signed number in a 64-bit variable. */
  function Pattern(v: int): nat { v % WORD }

  lemma SExtendPattern(bs: seq<byte>)
    requires 1 <= |bs| <= 4 || |bs| == 8
    ensures 0 <= Unsigned(bs) < Base256(|bs|)
    ensures SExtend(Unsigned(bs), |bs|) == Some(Pattern(Signed(bs)))
  {
    UnsignedBelow(bs);
    SignedFromUnsigned(bs);
    UnsignedHalf(bs);
    assert Base256(1) == 0x100 && Base256(2) == 0x1_0000 && Base256(3) == 0x100_0000 && Base256(4) == HALF_WORD;
    assert Base256(8) == WORD;
    if bs[|bs| - 1] >= 128 {
      DivModUnique(Signed(bs), WORD, -1, Unsigned(bs) - Base256(|bs|) + WORD);
    } else {
      SmallMod(Unsigned(bs), WORD);
    }
  }

  /** A signed number survives exactly when its encoding has at most four septets
      or, when eight bytes are allowed, exactly nine: five to eight septets decode
      to five to seven bytes, where the sign extension is undefined, and ten
      decode to nine bytes, which the reader refuses. */
  lemma ReadSlebIff(v: int, limit: nat, rest: seq<byte>)
    requires limit == 4 || limit == 8
    ensures var m := |Sleb(v)|;
            ReadSigned(Sleb(v) + rest, limit) == if m <= 4 || (limit == 8 && m == 9) then Some((Pattern(v), m)) else None
  {
    var leb := Sleb(v);
    LengthOfEncoding(leb, rest);
    assert (leb + rest)[..|leb|] == leb;
    SlebValue(v);
    DecodedValue(leb, true);
    var bs := Decoded(leb, true);
    assert |bs| == (7 * |leb| + 7) / 8;
    if |bs| <= 4 || |bs| == 8 {
      SExtendPattern(bs);
    }
  }

  /** In numbers: the four-septet bound is 2^27. */
  lemma FourSeptets(v: int)
    ensures |Sleb(v)| <= 4 <==> -0x800_0000 <= v < 0x800_0000
  {
    SlebLength(v, 4);
    assert Pow2(27) == 0x800_0000 by { Pow2Add(7, 20); Pow2Add(10, 10); assert Pow2(7) == 128 && Pow2(10) == 1024; }
  }

  /** The non-negative numbers that intToLEB128 writes in the unsigned form denote
      themselves as signed numbers exactly when the top septet leaves its sign
      bit free. */
  lemma UnsignedFormReadSigned(v: nat)
    ensures Value(Uleb(v), true) == v <==> Uleb(v)[|Uleb(v)| - 1] < 64
  {
    UlebValue(v);
    SignedOfUnsignedForm(Uleb(v));
  }

  /** Read with the other signedness, a number changes by the sign of its top septet. */
  lemma {:induction false} SignedOfUnsignedForm(leb: seq<byte>)
    requires |leb| > 0
    ensures leb[|leb| - 1] % 128 < 64 ==> Value(leb, true) == Value(leb, false)
    ensures leb[|leb| - 1] % 128 >= 64 ==> Value(leb, true) < 0 <= Value(leb, false)
    ensures leb[|leb| - 1] % 128 >= 64 ==> Value(leb, true) == Value(leb, false) - Pow2(7 * |leb|)
  {
    ValueSign(leb, true);
    ValueSign(leb, false);
    if |leb| == 1 {
      ValueOne(leb, true);
      ValueOne(leb, false);
    } else {
      ValueTail(leb, true);
      ValueTail(leb, false);
      SignedOfUnsignedForm(leb[1..]);
      Pow2Add(7, 7 * (|leb| - 1));
    }
    assert Pow2(7) == 128;
  }

  // ----- encodings of a fixed width -----

  /** v in exactly m septets. */
  function FixedUleb(v: nat, m: nat): (leb: seq<byte>)
    requires m > 0
    ensures |leb| == m && WellFormed(leb)
    decreases m
  {
    if m == 1 then [v % 128] else [v % 128 + 128] + FixedUleb(v / 128, m - 1)
  }

  lemma {:induction false} FixedUlebValue(v: nat, m: nat)
    requires m > 0 && v < Pow2(7 * m)
    ensures Value(FixedUleb(v, m), false) == v
    decreases m
  {
    Pow2Add(7, 7 * (m - 1));
    assert Pow2(7) == 128;
    if m == 1 {
      ValueOne([v % 128], false);
    } else {
      DivBound(v, 128, Pow2(7 * (m - 1)));
      FixedUlebValue(v / 128, m - 1);
      ValueTail(FixedUleb(v, m), false);
      assert FixedUleb(v, m)[1..] == FixedUleb(v / 128, m - 1);
    }
  }

  /** The unoptimised encoder's answer is fixed by the bytes alone. */
  lemma NoOptimizationUnique(leb: seq<byte>, bytes: seq<byte>)
    requires |bytes| > 0 && Encodes(leb, bytes, false) && |leb| == (8 * |bytes| + 6) / 7
    ensures Unsigned(bytes) >= 0 && leb == FixedUleb(Unsigned(bytes), |leb|)
  {
    UnsignedBelow(bytes);
    Pow2Base256(|bytes|);
    Pow2Strict(8 * |bytes|, 7 * |leb|);
    FixedUlebValue(Unsigned(bytes), |leb|);
    MinimalUnique(leb, FixedUleb(Unsigned(bytes), |leb|), false);
  }

  /** Conversely every fixed-width encoding of n bytes is one the encoder returns. */
  lemma FixedEncodes(bytes: seq<byte>)
    requires |bytes| > 0
    ensures Unsigned(bytes) >= 0
    ensures Encodes(FixedUleb(Unsigned(bytes), (8 * |bytes| + 6) / 7), bytes, false)
  {
    UnsignedBelow(bytes);
    Pow2Base256(|bytes|);
    Pow2Strict(8 * |bytes|, 7 * ((8 * |bytes| + 6) / 7));
    FixedUlebValue(Unsigned(bytes), (8 * |bytes| + 6) / 7);
  }
}
