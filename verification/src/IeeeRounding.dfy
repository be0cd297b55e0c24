/** The whole conversion of a flonum, and when the words are the nearest number. */
module IeeeRounding {
  import opened Arithmetic
  import opened Powers
  import opened BitStream
  import opened IeeeWords
  import opened IeeeDenormal

  /** The magnitude that the words hold of `n` times a power of two that makes `e` the exponent field. */
  function Stored(n: nat, e: int, p: nat, bits: nat): nat
    requires n > 0 && p > 0 && bits <= 15
  {
    if e < -62 || e >= Pow2(bits) then Infinity(p, bits)
    else if e < 1 then if TooSmall(e, p, bits) then Infinity(p, bits) else Denormal(n, e, p, bits)
    else if Magnitude(n, e, p, bits) < Pow2(16 * p - 1) then Magnitude(n, e, p, bits)
    else 0
  }

  /** Rounding has run into the sign bit, which is then dropped. */
  predicate SignLost(n: nat, e: int, p: nat, bits: nat)
    requires n > 0 && p > 0 && bits <= 15
  {
    1 <= e < Pow2(bits) && Magnitude(n, e, p, bits) >= Pow2(16 * p - 1)
  }

  /**
   gen_to_words for single and double precision: zero, denormals, numbers whose
   exponent field is in range, and the others, which become an infinity whether
   they are too large or too small.
   */
  method GenToWords(words: array<littlenum>, p: nat, nums: seq<littlenum>, exponent: int, negative: bool, bits: nat)
    requires Format(p, bits) && p < words.Length && (nums != [] ==> Value(nums) > 0)
    modifies words
    ensures nums == [] ==> Holds(words[..p], negative, 0)
    ensures nums != [] ==>
              var n := Value(nums);
              var e := Biased(n, exponent, bits);
              Holds(words[..p], negative && !SignLost(n, e, p, bits), Stored(n, e, p, bits))
  {
    hide BigEndian, Pow2, PowRadix, Bits, Width, Magnitude, BitLength, Value, Holds, FractionBits, Denormal;
    if nums == [] {
      HighWord(words, p, 0, negative, bits);
      assert Times(0, Pow2(FractionBits(p, bits))) == 0;
      return;
    }
    ghost var n := Value(nums);
    var st := new Stream(nums);
    ValueBound(nums);
    PowRadixIsPow2(|nums|);
    var skipped := Seek(st, n);
    LengthUnique(n, st.W() + 1);
    var exponent1 := exponent + |nums|;
    var exponent2 := exponent1 * 16;
    var exponent3 := exponent2 - skipped;
    var exponent4 := exponent3 + (Pow2(bits - 1) - 2);
    if -62 <= exponent4 < 1 {
      st.UngetBits(1);
      WholeAgain(n, st.W());
      PackDenormal(words, p, st, exponent4, negative, bits, n);
    } else if exponent4 < 1 || exponent4 >= Pow2(bits) {
      HighWord(words, p, Pow2(bits) - 1, negative, bits);
    } else {
      Pack(words, p, st, exponent4, negative, bits, n);
    }
  }

  lemma {:induction false} WholeAgain(n: nat, w: nat)
    requires HasLength(n, w)
    ensures Remainder(n, Pow2(w)) == n
  {
    DivModUnique(n, 0, n, Pow2(w));
  }

  // ----- what the words mean -----

  /** A number of an IEEE 754 format, without its sign, in units of the smallest denormal. */
  datatype Number = Finite(units: nat) | Infinite | NotANumber

  function Decoded(magnitude: nat, m: nat, bits: nat): Number {
    var e, f := Quotient(magnitude, Pow2(m)), Remainder(magnitude, Pow2(m));
    if e + 1 == Pow2(bits) then if f == 0 then Infinite else NotANumber
    else Finite(if e == 0 then f else Times(Pow2(m) + f, Pow2(e - 1)))
  }

  /** `v` is within half of `2^u` of `n * 2^s / 2^l`. */
  predicate Nearest(v: nat, n: nat, l: nat, s: int, u: nat) {
    if s >= 0 then Near(Times(v, Pow2(l + 1)), Times(n, Pow2(s + 1)), Pow2(l + u))
    else Near(Times(v, Pow2(l - s + 1)), 2 * n, Pow2(l - s + u))
  }

  predicate Near(a: nat, b: nat, d: nat) { b - d <= a <= b + d }

  /** The unit in the last place of a number with the exponent field `e`. */
  function LastPlace(e: int): nat { if e > 1 then e - 1 else 0 }

  /** The words of `n` are a finite number within half a unit in the last place of it. */
  predicate CorrectlyRounded(n: nat, e: int, p: nat, bits: nat)
    requires n > 0 && p > 0 && bits <= 15
  {
    var m := FractionBits(p, bits);
    match Decoded(Stored(n, e, p, bits), m, bits)
    case Finite(v) => Nearest(v, n, BitLength(n), m + e, LastPlace(e))
    case Infinite => false
    case NotANumber => false
  }

  /** Whether or not the carry reaches the exponent, the magnitude decodes to the rounded significand. */
  lemma {:induction false} DecodesRounded(e: nat, q: nat, m: nat, bits: nat)
    requires e > 0 && q <= Pow2(m) && Times(e, Pow2(m)) + q < Times(Pow2(bits) - 1, Pow2(m))
    ensures Decoded(Times(e, Pow2(m)) + q, m, bits) == Finite(Times(Pow2(m) + q, Pow2(e - 1)))
  {
    hide Pow2;
    var p, b := Pow2(m), Pow2(bits) - 1;
    if q < p {
      DivModUnique(Times(e, p) + q, e, q, p);
      if e >= b { TimesMonotone(b, e, p); }
    } else {
      assert e * p + p == (e + 1) * p;
      DivModUnique((e + 1) * p, e + 1, 0, p);
      if e + 1 >= b { TimesMonotone(b, e + 1, p); }
      PowNext(e - 1);
      assert 2 * p * Pow2(e - 1) == p * (2 * Pow2(e - 1));
    }
  }

  /** From the infinity on, magnitudes below the sign bit are no finite numbers. */
  lemma {:induction false} BeyondInfinity(mag: nat, p: nat, bits: nat)
    requires p > 0 && bits <= 15 && Infinity(p, bits) <= mag < Pow2(16 * p - 1)
    ensures !Decoded(mag, FractionBits(p, bits), bits).Finite?
    ensures mag == Infinity(p, bits) ==> Decoded(mag, FractionBits(p, bits), bits) == Infinite
  {
    hide Pow2;
    var m, b := FractionBits(p, bits), Pow2(bits) - 1;
    var q := Pow2(m);
    Pow2Adds(bits, m);
    assert (b + 1) * q == b * q + q;
    DivModUnique(mag, b, mag - b * q, q);
  }

  /** The rounded fraction is within half a unit of the exact one, on either side. */
  lemma {:induction false} RoundedIsNearest(f: nat, w: nat, m: nat)
    ensures var q := RoundedHalfUp(f, w, m);
            Times(f, Pow2(m + 1)) - Pow2(w) < Times(q, Pow2(w + 1)) <= Times(f, Pow2(m + 1)) + Pow2(w)
  {
    hide Pow2;
    PowNext(w);
    var x, d := Times(f, Pow2(m + 1)) + Pow2(w), Pow2(w + 1);
    assert x == x / d * d + x % d;
  }

  /** The rounded significand, scaled by the exponent, is the nearest number. */
  lemma {:induction false} NormalIsNearest(n: nat, e: nat, m: nat)
    requires n > 0 && e > 0
    ensures var l := BitLength(n);
            var q := RoundedHalfUp(Fraction(n), l - 1, m);
            q <= Pow2(m) && Nearest(Times(Pow2(m) + q, Pow2(e - 1)), n, l, m + e, LastPlace(e))
  {
    hide Pow2, RoundedHalfUp, BitLength, Taken, Rest, RestWidth, Fraction;
    var l, f := BitLength(n), Fraction(n);
    BitLengthIs(n);
    assert n == Pow2(l - 1) + f by { FractionIs(n); }
    var q := RoundedHalfUp(f, l - 1, m);
    RoundBit(f, l - 1, m);
    TakenBound(f, l - 1, m);
    RoundedIsNearest(f, l - 1, m);
    PowNext(l - 1);
    PowNext(l);
    PowNext(m);
    PowNext(m + 1);
    Pow2Adds(m + 2, e - 1);
    Pow2Adds(l, e - 1);
    ScaledUp(Pow2(m), q, f, Pow2(l - 1), Pow2(e - 1));
    Regrouped(n, Pow2(m + 2), Pow2(e - 1));
  }

  lemma {:induction false} Regrouped(n: nat, a: nat, b: nat)
    ensures Times(Times(n, a), b) == Times(n, a * b)
  {
  }

  lemma {:induction false} FractionIs(n: nat)
    requires n > 0
    ensures n == Pow2(BitLength(n) - 1) + Fraction(n)
  {
  }

  lemma {:induction false} ScaledUp(m: nat, q: nat, f: nat, l: nat, s: nat)
    requires Times(f, 2 * m) - l < Times(q, 2 * l) <= Times(f, 2 * m) + l && s > 0
    ensures Times(Times(l + f, 4 * m), s) - Times(2 * l, s) < Times(Times(m + q, s), 4 * l)
            <= Times(Times(l + f, 4 * m), s) + Times(2 * l, s)
  {
    var a, b := Times(l + f, 4 * m), Times(m + q, 4 * l);
    Significands(m, q, f, l);
    Rescaled(m + q, s, 4 * l);
    Between(a, b, 2 * l, s);
  }

  lemma {:induction false} Significands(m: nat, q: nat, f: nat, l: nat)
    ensures Times(l + f, 4 * m) == 4 * Times(l, m) + 2 * Times(f, 2 * m)
    ensures Times(m + q, 4 * l) == 4 * Times(l, m) + 2 * Times(q, 2 * l)
  {
  }

  lemma {:induction false} Rescaled(x: nat, s: nat, y: nat)
    ensures Times(Times(x, s), y) == Times(Times(x, y), s)
  {
  }

  lemma {:induction false} Between(a: nat, b: nat, d: nat, s: nat)
    requires a - d < b <= a + d && s > 0
    ensures Times(a, s) - Times(d, s) < Times(b, s) <= Times(a, s) + Times(d, s)
  {
    TimesMonotone(b, a + d, s);
    TimesMonotone(a + 1, b + d, s);
  }

  // ----- exactly when rounding is correct -----

  /**
   A caller can tell from the number: its exponent field is in range and rounding
   stays below the infinity, or it is a denormal that is not too small and whose
   rounding does not carry out of a last word with all of its bits.
   */
  predicate Representable(n: nat, e: int, p: nat, bits: nat)
    requires n > 0 && p > 0 && bits <= 15
  {
    if e < 1 then
      e >= -62 && !TooSmall(e, p, bits) && !(Places(e, p, bits) == 16 && RoundedHalfUp(n, BitLength(n), 16) == RADIX)
    else e < Pow2(bits) && Magnitude(n, e, p, bits) < Infinity(p, bits)
  }

  lemma {:induction false} InfinityBelowSign(p: nat, bits: nat)
    requires p > 0 && 0 < bits <= 15
    ensures 0 < Infinity(p, bits) < Pow2(16 * p - 1)
  {
    hide Pow2;
    var q := Pow2(FractionBits(p, bits));
    Pow2Adds(bits, FractionBits(p, bits));
    PowNext(bits - 1);
    assert (Pow2(bits) - 1) * q == Pow2(bits) * q - q;
    TimesMonotone(1, Pow2(bits) - 1, q);
  }

  /** Numbers with an exponent field in range. */
  lemma {:induction false} NormalExact(n: nat, e: nat, p: nat, bits: nat)
    requires n > 0 && p > 0 && 0 < bits <= 15 && 1 <= e < Pow2(bits)
    ensures CorrectlyRounded(n, e, p, bits) <==> Magnitude(n, e, p, bits) < Infinity(p, bits)
  {
    hide Pow2, RoundedHalfUp, BitLength, Fraction, Decoded, Magnitude, Nearest, Infinity, Denormal, TooSmall;
    var m, mag := FractionBits(p, bits), Magnitude(n, e, p, bits);
    InfinityBelowSign(p, bits);
    BitLengthIs(n);
    MagnitudeIs(n, e, p, bits);
    NormalIsNearest(n, e, m);
    if mag < Infinity(p, bits) {
      InfinityIs(p, bits);
      DecodesRounded(e, RoundedHalfUp(Fraction(n), BitLength(n) - 1, m), m, bits);
    } else if mag < Pow2(16 * p - 1) {
      BeyondInfinity(mag, p, bits);
    } else {
      ZeroIsFar(n, m + e, LastPlace(e)) by { assert LastPlace(e) < m + e; }
      DecodesZero(m, bits);
    }
  }

  lemma {:induction false} InfinityIs(p: nat, bits: nat)
    requires p > 0 && bits <= 15
    ensures Infinity(p, bits) == Times(Pow2(bits) - 1, Pow2(FractionBits(p, bits)))
  {
  }

  lemma {:induction false} DecodesZero(m: nat, bits: nat)
    requires bits > 0
    ensures Decoded(0, m, bits) == Finite(0)
  {
    hide Pow2;
    PowNext(bits - 1);
    DivModUnique(0, 0, 0, Pow2(m));
  }

  /** Zero is not the nearest number to one of at least a unit. */
  lemma {:induction false} ZeroIsFar(n: nat, s: nat, u: nat)
    requires n > 0 && u < s
    ensures !Nearest(0, n, BitLength(n), s, u)
  {
    hide Pow2, BitLength;
    BitLengthIs(n);
    var l := BitLength(n);
    Pow2Adds(l - 1, s + 1);
    Pow2Adds(l + u, s - u);
    PowNext(s - u - 1);
    TimesMonotone(Pow2(l - 1), n, Pow2(s + 1));
    TimesMonotone(2, Pow2(s - u), Pow2(l + u));
    assert Times(0, Pow2(l + 1)) == 0;
  }

  /** Denormals. */
  lemma {:induction false} DenormalExact(n: nat, e: int, p: nat, bits: nat)
    requires n > 0 && p > 0 && 1 < bits <= 15 && -62 <= e < 1 && !TooSmall(e, p, bits)
    ensures CorrectlyRounded(n, e, p, bits)
            <==> !(Places(e, p, bits) == 16 && RoundedHalfUp(n, BitLength(n), 16) == RADIX)
  {
    hide Pow2, RoundedHalfUp, BitLength, Decoded, Nearest, Magnitude, Taken, Rest, RestWidth;
    var m, k, l := FractionBits(p, bits), Places(e, p, bits), BitLength(n);
    BitLengthIs(n);
    DecodesZero(m, bits);
    if k < 0 {
      TinyIsZero(n, l, k);
    } else {
      var q := RoundedHalfUp(n, l, k);
      RoundBit(n, l, k);
      TakenBound(n, l, k);
      RoundedNear(n, l, k);
      if k == 16 && q == RADIX {
        ZeroIsFar(n, k, 0);
      } else {
        Pow2Adds(k, m - k);
        AtMost(Pow2(k), Pow2(m - k));
        DecodesDenormal(q, m, bits);
      }
    }
  }

  lemma {:induction false} RoundedNear(n: nat, l: nat, k: nat)
    ensures Nearest(RoundedHalfUp(n, l, k), n, l, k, 0)
  {
    hide Pow2, RoundedHalfUp;
    RoundedIsNearest(n, l, k);
  }

  /** Below half a unit, zero is the nearest number. */
  lemma {:induction false} TinyIsZero(n: nat, l: nat, k: int)
    requires n < Pow2(l) && k < 0
    ensures Nearest(0, n, l, k, 0)
  {
    hide Pow2;
    Pow2Adds(l, -k);
    PowNext(-k - 1);
    TimesMonotone(2, Pow2(-k), Pow2(l));
    assert Times(0, Pow2(l - k + 1)) == 0;
  }

  lemma {:induction false} DecodesDenormal(q: nat, m: nat, bits: nat)
    requires q <= Pow2(m) && bits > 1
    ensures Decoded(q, m, bits) == Finite(q)
  {
    hide Pow2;
    PowNext(bits - 1);
    PowNext(bits - 2);
    PowZero();
    var p := Pow2(m);
    if q < p { DivModUnique(q, 0, q, p); } else { DivModUnique(p, 1, 0, p); }
  }

  /** Over all numbers: the words are a finite number within half a unit exactly if it is representable. */
  lemma {:induction false} RoundingExact(n: nat, e: int, p: nat, bits: nat)
    requires n > 0 && p > 0 && 1 < bits <= 15
    ensures CorrectlyRounded(n, e, p, bits) <==> Representable(n, e, p, bits)
  {
    hide Pow2, RoundedHalfUp, BitLength, Decoded, Nearest, Magnitude, Denormal, Infinity;
    if -62 <= e < 1 && !TooSmall(e, p, bits) {
      DenormalExact(n, e, p, bits);
    } else if 1 <= e < Pow2(bits) {
      NormalExact(n, e, p, bits);
    } else {
      InfinityBelowSign(p, bits);
      BeyondInfinity(Infinity(p, bits), p, bits);
    }
  }

  // ----- numbers that are not stored correctly -----

  lemma {:induction false} SmallPowers()
    ensures Pow2(7) == 128 && Pow2(8) == 256 && Pow2(16) == 0x1_0000 && Pow2(17) == 0x2_0000
    ensures Pow2(22) == 0x40_0000 && Pow2(23) == 0x80_0000 && Pow2(24) == 0x100_0000
    ensures Pow2(26) == 0x400_0000 && Pow2(27) == 0x800_0000 && Pow2(28) == 0x1000_0000 && Pow2(31) == 0x8000_0000
  {
    hide Pow2;
    assert Pow2(4) == 16 by { FourBits(); }
    PowNext(4);
    PowNext(5);
    PowNext(6);
    PowNext(7);
    RadixIsPow2();
    PowNext(16);
    Pow2Adds(16, 6);
    PowNext(22);
    PowNext(23);
    Pow2Adds(16, 10);
    Pow2Adds(5, 5);
    PowNext(26);
    PowNext(27);
    Pow2Adds(24, 7);
    Pow2Adds(6, 0);
  }

  lemma {:induction false} FourBits()
    ensures Pow2(4) == 16
  {
  }

  /** The digits 0x18000 with the exponent 7 are three times 2^127, which single precision stores as a NaN. */
  lemma {:induction false} StoredAsNan()
    ensures var n := Value([0x8000, 1]);
            n == 0x1_8000 && Biased(n, 7, 8) == 255 && Decoded(Stored(n, 255, 2, 8), 23, 8) == NotANumber
  {
    hide Pow2, BitLength;
    SmallPowers();
    var n := 0x1_8000;
    assert Value([0x8000, 1]) == n by { TwoDigits(0x8000, 1); }
    LengthUnique(n, 17);
    assert Fraction(n) == 0x8000 by { FractionIs(n); }
    assert RoundedHalfUp(0x8000, 16, 23) == 0x40_0000;
    MagnitudeIs(n, 255, 2, 8);
    DivModUnique(255 * 0x80_0000 + 0x40_0000, 255, 0x40_0000, 0x80_0000);
  }

  lemma {:induction false} TwoDigits(a: littlenum, b: littlenum)
    ensures Value([a, b]) == a + b * RADIX
  {
    assert [a, b][..1] == [a] && [a][..0] == [];
    assert PowRadix(0) == 1;
    assert PowRadix(1) == RADIX;
    assert Value([a]) == a;
  }

  /** A number far below the smallest denormal is stored as an infinity. */
  lemma {:induction false} StoredAsInfinity()
    ensures Value([1]) == 1 && Biased(1, -20, 8) == -193 && Decoded(Stored(1, -193, 2, 8), 23, 8) == Infinite
  {
    hide Pow2;
    SmallPowers();
    assert [1][..0] == [];
    assert PowRadix(0) == 1;
    LengthUnique(1, 1) by { PowZero(); PowNext(0); }
    InfinityBelowSign(2, 8);
    BeyondInfinity(Infinity(2, 8), 2, 8);
  }

  /** A denormal with 16 bits, all ones and rounded up, is stored as zero. */
  lemma {:induction false} StoredAsZero()
    ensures var n := Value([0xffff, 0x7ff]);
            && n == 0x7ff_ffff && Biased(n, -10, 8) == -7 && Places(-7, 2, 8) == 16
            && Stored(n, -7, 2, 8) == 0 && RoundedHalfUp(n, BitLength(n), 16) == RADIX
  {
    hide Pow2, BitLength;
    SmallPowers();
    var n := 0x7ff_ffff;
    assert Value([0xffff, 0x7ff]) == n by { TwoDigits(0xffff, 0x7ff); }
    LengthUnique(n, 27);
    assert RoundedHalfUp(n, 27, 16) == RADIX;
  }

  lemma {:induction false} ThreeDigits(a: littlenum, b: littlenum, c: littlenum)
    ensures Value([a, b, c]) == a + b * RADIX + c * (RADIX * RADIX)
  {
    hide Value;
    assert [a, b, c][..2] == [a, b];
    TwoDigits(a, b);
    RadixNext(1);
    RadixNext(0);
    DigitOnTop([a, b, c]);
  }

  lemma {:induction false} DigitOnTop(nums: seq<littlenum>)
    requires nums != []
    ensures var k := |nums| - 1; Value(nums) == Value(nums[..k]) + nums[k] * PowRadix(k) && PowRadix(0) == 1
  {
  }

  /**
   The digits 0x1ffffffff with the exponent 6 are just below 2^129. In single
   precision the exponent field is all ones, the fraction rounds up to one, the
   carry reaches the sign, and zero is stored.
   */
  lemma {:induction false} LargeStoredAsZero()
    ensures var n := Value([0xffff, 0xffff, 1]);
            && n == 0x1_ffff_ffff && Biased(n, 6, 8) == 255
            && SignLost(n, 255, 2, 8) && Stored(n, 255, 2, 8) == 0
  {
    hide Pow2, BitLength, RoundedHalfUp, Magnitude;
    SmallPowers();
    Pow2Adds(16, 16);
    PowNext(32);
    var n := 0x1_ffff_ffff;
    assert Value([0xffff, 0xffff, 1]) == n by { ThreeDigits(0xffff, 0xffff, 1); }
    LengthUnique(n, 33);
    assert Fraction(n) == 0xffff_ffff by { FractionIs(n); }
    assert RoundedHalfUp(0xffff_ffff, 32, 23) == Pow2(23) by { RoundsToOne(); }
    CarryReachesSign(n, 255, 2, 8);
  }

  lemma {:induction false} RoundsToOne()
    ensures RoundedHalfUp(0xffff_ffff, 32, 23) == Pow2(23)
  {
    hide Pow2;
    SmallPowers();
    Pow2Adds(16, 16);
    PowNext(32);
    DivModUnique(0xffff_ffff * 0x100_0000 + 0x1_0000_0000, 0x80_0000, 0x1_0000_0000 - 0x100_0000, 0x2_0000_0000);
  }
}
