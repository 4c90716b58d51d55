/** The offset to the end of the type table (exceptTable.c:197-263).  It is a LEB, and
    its length shifts the alignment that the offset itself has to account for. */
module TypeBase {
  import opened Bytes
  import opened Leb
  import opened LebWords

  /** The test for wiggle room: some septet but the first is not all ones, or the
      first has a zero among bits four to six. */
  predicate RoomAt(leb: seq<byte>, i: nat)
    requires i < |leb|
  {
    (leb[i] % 128 != 127 && i > 0) || leb[i] / 16 % 8 != 7
  }

  /** All septets are ones. */
  predicate AllOnes(leb: seq<byte>) { forall i :: 0 <= i < |leb| ==> leb[i] % 128 == 127 }

  lemma {:induction false} AllOnesIff(v: nat)
    ensures AllOnes(Uleb(v)) <==> v == Pow2(7 * |Uleb(v)|) - 1
  {
    if v < 128 {
      SmallMod(v, 128);
      assert Pow2(7) == 128;
    } else {
      FirstByte(v);
      AllOnesIff(v / 128);
      AllOnesTail(Uleb(v));
      Septets(|Uleb(v)|);
      hide Uleb; hide AllOnes; hide Pow2;
      Digits(v, Pow2(7 * |Uleb(v / 128)|));
    }
  }

  lemma AllOnesTail(leb: seq<byte>)
    requires leb != []
    ensures AllOnes(leb) <==> leb[0] % 128 == 127 && AllOnes(leb[1..])
  {
    assert forall i :: 0 <= i < |leb[1..]| ==> leb[1..][i] == leb[i + 1];
    if leb[0] % 128 == 127 && AllOnes(leb[1..]) {
      forall i | 0 <= i < |leb| ensures leb[i] % 128 == 127 {
        if i > 0 { assert leb[1..][i - 1] % 128 == 127; }
      }
    }
  }

  lemma Septets(n: nat)
    requires n > 0
    ensures Pow2(7 * n) == 128 * Pow2(7 * (n - 1))
  {
    Pow2Add(7, 7 * (n - 1));
    assert Pow2(7) == 128;
  }

  lemma Digits(v: nat, p: nat)
    ensures v % 128 == 127 && v / 128 == p - 1 <==> v == 128 * p - 1
    ensures v % 128 >= 112 && v / 128 == p - 1 ==> v + 16 >= 128 * p
    ensures v / 128 < p && v + 16 >= 128 * p ==> v % 128 >= 112 && v / 128 == p - 1
    ensures v / 16 % 8 == v % 128 / 16
  {
    var a, d := v / 128, v % 128;
    assert v == 128 * a + d;
    SeptetBits(d, a);
    DigitsOf(a, d, p);
  }

  lemma DigitsOf(a: nat, d: nat, p: nat)
    requires d < 128
    ensures d == 127 && a == p - 1 <==> 128 * a + d == 128 * p - 1
    ensures d >= 112 && a == p - 1 ==> 128 * a + d + 16 >= 128 * p
    ensures a < p && 128 * a + d + 16 >= 128 * p ==> d >= 112 && a == p - 1
  {
  }

  lemma FirstByte(v: nat)
    requires v >= 128
    ensures Uleb(v)[0] % 128 == v % 128 && Uleb(v)[1..] == Uleb(v / 128)
    ensures Uleb(v)[0] / 16 % 8 == v / 16 % 8
  {
    SeptetBits(v % 128, v / 128);
    SeptetBits(v % 128, 1);
  }

  lemma SeptetBits(d: nat, q: nat)
    requires d < 128
    ensures (128 * q + d) % 128 == d && (128 * q + d) / 16 % 8 == d / 16
  {
    AddMultiple(d, 128, q);
    SmallMod(d, 128);
    AddMultiple(d, 16, 8 * q);
    AddMultiple(d / 16, 8, q);
    SmallMod(d / 16, 8);
  }

  /** There is room exactly when sixteen can be added without a longer LEB. */
  lemma RoomIff(v: nat)
    ensures (exists i :: 0 <= i < |Uleb(v)| && RoomAt(Uleb(v), i)) <==> v + 16 < Pow2(7 * |Uleb(v)|)
  {
    if v < 128 {
      assert Pow2(7) == 128;
      assert RoomAt(Uleb(v), 0) <==> v / 16 % 8 != 7;
    } else {
      var leb, tail := Uleb(v), Uleb(v / 128);
      FirstByte(v);
      AllOnesIff(v / 128);
      SomeRoom(leb, tail, v);
      UlebLength(v / 128, |tail|);
      Septets(|leb|);
      hide Uleb; hide AllOnes; hide Pow2; hide RoomAt;
      Digits(v, Pow2(7 * |tail|));
    }
  }

  lemma SomeRoom(leb: seq<byte>, tail: seq<byte>, v: nat)
    requires |leb| == |tail| + 1 && leb[0] / 16 % 8 == v / 16 % 8
    requires leb[1..] == tail
    ensures (exists i :: 0 <= i < |leb| && RoomAt(leb, i)) <==> v / 16 % 8 != 7 || !AllOnes(tail)
  {
    assert forall i :: 0 <= i < |tail| ==> leb[i + 1] == tail[i];
    if !AllOnes(tail) {
      var i :| 0 <= i < |tail| && tail[i] % 128 != 127;
      assert RoomAt(leb, i + 1);
    }
    if v / 16 % 8 != 7 { assert RoomAt(leb, 0); }
    if i :| 0 <= i < |leb| && RoomAt(leb, i) {
      if i > 0 { assert tail[i - 1] == leb[i]; }
    }
  }

  // ----- the fixed point -----

  /** What is known before the offset is written: the bytes of the header before it,
      the bytes from behind it to the end of the action table, and the type table. */
  datatype Sizes = Sizes(before: nat, middle: nat, types: nat)

  /** The length reserved for the LEB, the padding before the type table, the offset. */
  function Reserved(s: Sizes): (n: nat)
    ensures n > 0
  {
    var guess := s.middle + s.types;
    var n := |Uleb(guess)|;
    if guess + 16 < Pow2(7 * n) then n else n + 1
  }

  function Padding(s: Sizes): (pad: nat)
    ensures pad < 4 && (s.before + Reserved(s) + s.middle + pad) % 4 == 0
  {
    ToAlignment(s.before + Reserved(s) + s.middle)
  }

  function ToAlignment(top: nat): (pad: nat)
    ensures pad < 4 && (top + pad) % 4 == 0
  {
    if top % 4 == 0 then 0 else 4 - top % 4
  }

  function Base(s: Sizes): nat { s.middle + Padding(s) + s.types }

  lemma {:induction false} UlebMonotone(v: nat, w: nat)
    requires v <= w
    ensures |Uleb(v)| <= |Uleb(w)|
    decreases v
  {
    if v >= 128 { UlebMonotone(v / 128, w / 128); }
  }

  lemma {:induction false} UlebIsFixed(v: nat)
    ensures |Uleb(v)| > 0 && FixedUleb(v, |Uleb(v)|) == Uleb(v)
    ensures var leb := Uleb(v);
            FixedUleb(v, |leb| + 1) == leb[|leb| - 1 := leb[|leb| - 1] % 128 + 128] + [0]
  {
    if v < 128 {
      SmallMod(v, 128);
      assert FixedUleb(v / 128, 1) == [0];
    } else {
      UlebIsFixed(v / 128);
    }
  }

  /** The fixed point.  The offset with its padding fits into the reserved length and
      leaves at most one byte of it over, so the source's assertion holds; the table
      is aligned; and the LEB with that byte decodes to the offset, whatever follows. */
  lemma BaseFits(s: Sizes, rest: seq<byte>)
    requires s.middle + s.types < 0x8000_0000
    ensures var n, base := Reserved(s), Base(s);
            && |Uleb(base)| <= n <= |Uleb(base)| + 1
            && n <= 6 && base < WORD
            && ReadUnsigned(FixedUleb(base, n) + rest, 8) == Some((base, n))
  {
    var guess, n, base := s.middle + s.types, Reserved(s), Base(s);
    var m := |Uleb(guess)|;
    UlebMonotone(guess, base);
    UlebLength(base, m);
    UlebLength(base, m + 1);
    UlebLength(guess, m);
    Septets(m + 1);
    UlebLength(guess, 5);
    FiveSeptets();
    UlebLength(base, n);
    ReadFixed(base, n, rest);
  }

  lemma FiveSeptets()
    ensures Pow2(35) == 0x8_0000_0000
  {
    assert Pow2(10) == 1024 && Pow2(5) == 32;
    Pow2Add(10, 10);
    Pow2Add(20, 10);
    Pow2Add(30, 5);
  }

  lemma ReadFixed(v: nat, n: nat, rest: seq<byte>)
    requires 0 < n <= 9 && v < Pow2(7 * n)
    ensures ReadUnsigned(FixedUleb(v, n) + rest, 8) == Some((v, n))
  {
    var leb := FixedUleb(v, n);
    FixedUlebValue(v, n);
    LengthOfEncoding(leb, rest);
    assert (leb + rest)[..n] == leb;
    DecodedValue(leb, false);
  }

  /** The computation as it runs: guess, look for wiggle room, align, encode again, and
      pad the LEB when the reserved byte was not needed. */
  method FindBase(s: Sizes) returns (leb: seq<byte>, misalignment: nat)
    requires s.middle + s.types < 0x8000_0000
    ensures leb == FixedUleb(Base(s), Reserved(s)) && misalignment == Padding(s)
  {
    hide Uleb; hide FixedUleb; hide Pow2; hide RoomAt; hide Value; hide WellFormed; hide ToAlignment;
    var guess := s.middle + s.types;
    var guessLeb := EncodeWord(guess, false);
    var numBytes := |guessLeb|;
    var foundRoom := FindRoom(guessLeb);
    RoomIff(guess);
    if !foundRoom {
      numBytes := numBytes + 1;
    }
    var top := s.before + numBytes + s.middle;
    misalignment := ToAlignment(top);
    var offset := top + misalignment + s.types - s.before - numBytes;
    BaseFits(s, []);
    leb := EncodeReserved(offset, numBytes);
  }

  /** The LEB in the reserved length: a spare byte is wasted. */
  method EncodeReserved(offset: word, numBytes: nat) returns (leb: seq<byte>)
    requires |Uleb(offset)| <= numBytes <= |Uleb(offset)| + 1
    ensures leb == FixedUleb(offset, numBytes)
  {
    hide Uleb; hide FixedUleb; hide Value; hide WellFormed;
    leb := EncodeWord(offset, false);
    UlebIsFixed(offset);
    if |leb| < numBytes {
      assert numBytes - |leb| == 1;
      leb := leb[|leb| - 1 := leb[|leb| - 1] % 128 + 128] + [0];
    }
  }

  method FindRoom(leb: seq<byte>) returns (found: bool)
    ensures found <==> exists i :: 0 <= i < |leb| && RoomAt(leb, i)
  {
    hide RoomAt;
    found := false;
    var idx := |leb| - 1;
    while idx >= 0 && !found
      invariant -1 <= idx < |leb|
      invariant found <==> exists i :: idx < i < |leb| && RoomAt(leb, i)
    {
      found := RoomAt(leb, idx);
      idx := idx - 1;
    }
  }
}
