/**
 Numbers too small for an exponent field: the significant bits are moved right
 behind zeros, and rounded where the words end.
 */
module IeeeDenormal {
  import opened Arithmetic
  import opened Powers
  import opened BitStream
  import opened IeeeWords

  /** The sign bit on top of `lp` words. */
  function SignBit(negative: bool, lp: nat): nat
    requires lp > 0
  {
    if negative then Pow2(16 * lp - 1) else 0
  }

  /** The sign in front of everything, `z` zeros or the end, and then the number. */
  function Lead(negative: bool, z: nat): nat { if negative then Pow2(z) else 0 }

  lemma {:induction false} LeadIsSign(negative: bool, z: nat, lp: nat)
    requires lp > 0 && z <= 16 * lp - 1
    ensures Times(Lead(negative, z), Pow2(16 * lp - 1 - z)) == SignBit(negative, lp)
  {
    hide Pow2;
    Pow2Adds(z, 16 * lp - 1 - z);
  }

  lemma {:induction false} SignNext(negative: bool, lp: nat)
    requires lp > 0
    ensures SignBit(negative, lp) * RADIX == SignBit(negative, lp + 1)
  {
    hide Pow2;
    RadixIsPow2();
    Pow2Adds(16 * lp - 1, 16);
  }

  /** `lp` words of a denormal that begins behind `z` zeros. */
  ghost predicate Begun(s: seq<littlenum>, st: Stream, negative: bool, z: nat, n: nat, w: nat)
    requires s != [] && z <= 16 * |s| - 1
    reads st
  {
    Filled(s, st, Lead(negative, z), n, w, 16 * |s| - 1 - z)
  }

  /** The first word when the number begins in it. */
  method FirstBits(words: array<littlenum>, st: Stream, negative: bool, z: nat, ghost n: nat, ghost w: nat)
    requires words.Length > 0 && z <= 15 && st.Valid() && st.V() == n < Pow2(w) && st.W() == w
    modifies words, st
    ensures Begun(words[..1], st, negative, z, n, w)
  {
    hide BigEndian, Pow2, Taken, Rest, RestWidth, Bits, Width, SignBit;
    TakenBound(n, w, 15 - z);
    LeadIsSign(negative, z, 1);
    SignOfOne(negative);
    Pow2Adds(15 - z, z);
    HalfRadix();
    AtMost(Pow2(15 - z), Pow2(z));
    var t := st.NextBits(15 - z);
    words[0] := (if negative then 0x8000 else 0) + t;
    assert words[..1] == [words[0]];
    OneWord(words[0]);
  }

  lemma {:induction false} AtMost(a: nat, b: nat)
    requires b > 0
    ensures a <= a * b
  {
    TimesMonotone(1, b, a);
  }

  lemma {:induction false} SignOfOne(negative: bool)
    ensures SignBit(negative, 1) == if negative then 0x8000 else 0
  {
    HalfRadix();
  }

  /** Taking nothing leaves everything. */
  lemma {:induction false} NothingTaken(n: nat, w: nat)
    requires n < Pow2(w)
    ensures Taken(n, w, 0) == 0 && Rest(n, w, 0) == n && RestWidth(w, 0) == w
  {
    DivModUnique(n, 0, n, Pow2(w));
    assert Pow2(0) == 1;
  }

  /** Words without any bits of the number: the sign and zeros. */
  method ZeroBits(words: array<littlenum>, negative: bool, count: nat) returns (lp: nat)
    requires count < words.Length
    modifies words
    ensures lp == count + 1 && BigEndian(words[..lp]) == SignBit(negative, lp)
  {
    hide BigEndian, SignBit;
    words[0] := if negative then 0x8000 else 0;
    SignOfOne(negative);
    OneWord(words[0]);
    assert words[..1] == [words[0]];
    lp := 1;
    while lp < count + 1
      invariant 1 <= lp <= count + 1 && BigEndian(words[..lp]) == SignBit(negative, lp)
    {
      BigEndianAppend(words[..lp], 0);
      SignNext(negative, lp);
      words[lp] := 0;
      assert words[..lp + 1] == words[..lp] + [words[lp]];
      lp := lp + 1;
    }
  }

  /** The first words when the number begins `more` bits behind the first of them. */
  method LaterBits(words: array<littlenum>, p: nat, st: Stream, negative: bool, more: nat, ghost n: nat, ghost w: nat)
    returns (lp: nat)
    requires 0 < p < words.Length && 0 < more && more < 16 * p && st.Valid() && st.V() == n < Pow2(w) && st.W() == w
    modifies words, st
    ensures 1 <= lp <= p + 1 && 15 + more <= 16 * lp - 1 && Begun(words[..lp], st, negative, 15 + more, n, w)
    ensures lp == p + 1 <==> 15 + more > 16 * p - 1
    ensures lp == p + 1 ==> BigEndian(words[..p]) == SignBit(negative, p)
  {
    hide BigEndian, Pow2, Taken, Rest, RestWidth, Bits, Width, SignBit;
    ghost var z := 15 + more;
    var numBits := more;
    lp := ZeroBits(words, negative, numBits / 16);
    numBits := numBits % 16;
    ghost var front := words[..lp];
    if numBits > 0 {
      TakenBound(n, w, 16 - numBits);
      RadixIsPow2();
      Pow2Adds(numBits, 16 - numBits);
      AtMost(Pow2(16 - numBits), Pow2(numBits));
      var t := st.NextBits(16 - numBits);
      BigEndianAppend(words[..lp], t);
      SignNext(negative, lp);
      words[lp] := t;
      assert words[..lp + 1] == words[..lp] + [words[lp]] && words[..lp] == front;
      lp := lp + 1;
    } else {
      NothingTaken(n, w);
    }
    LeadIsSign(negative, z, lp);
  }

  // ----- rounding -----

  /** Adding one to the last word only, when all bits of the number are in it: a carry out of it is lost. */
  lemma {:induction false} LastWord(s: seq<littlenum>, negative: bool, t: nat)
    requires |s| > 1 && t < RADIX && BigEndian(s) == SignBit(negative, |s|) + t
    ensures var d: littlenum := (s[|s| - 1] + 1) % RADIX;
            BigEndian(s[|s| - 1 := d]) == SignBit(negative, |s|) + (if t + 1 == RADIX then 0 else t + 1)
  {
    hide BigEndian, SignBit;
    var front, last := s[..|s| - 1], s[|s| - 1];
    assert s == front + [last];
    BigEndianAppend(front, last);
    SignNext(negative, |s| - 1);
    DivModUnique(BigEndian(s), BigEndian(front), last, RADIX);
    DivModUnique(BigEndian(s), SignBit(negative, |s| - 1), t, RADIX);
    var d: littlenum := (last + 1) % RADIX;
    assert s[|s| - 1 := d] == front + [d];
    BigEndianAppend(front, d);
  }

  /** The places of the number that are inside `p` words: negative if it begins behind them. */
  function Places(e: int, p: nat, bits: nat): int
    requires p > 0 && bits <= 15
  {
    FractionBits(p, bits) + e
  }

  /** What the words hold of a number with the exponent field `e`, which is not positive. */
  function Denormal(n: nat, e: int, p: nat, bits: nat): nat
    requires p > 0 && bits <= 15
  {
    var k := Places(e, p, bits);
    if k < 0 then 0
    else
      var q := RoundedHalfUp(n, BitLength(n), k);
      if k == 16 && q == RADIX then 0 else q
  }

  /** The test for numbers that are too small, which makes infinities of them. */
  predicate TooSmall(e: int, p: nat, bits: nat)
    requires bits <= 15
  {
    -e >= 16 - bits && -e - (15 - bits) + bits + 1 >= 16 * p
  }

  /** The bits in front of the place where the words end. */
  method FillDenormal(words: array<littlenum>, p: nat, st: Stream, e: int, negative: bool, bits: nat, ghost n: nat, ghost w: nat)
    returns (lp: nat)
    requires 1 < p < words.Length && 0 < bits <= 15 && e <= 0 && !TooSmall(e, p, bits)
    requires st.Valid() && st.V() == n < Pow2(w) && st.W() == w
    modifies words, st
    ensures st.Valid()
    ensures var k := Places(e, p, bits);
            if k < 0 then lp == p + 1 && BigEndian(words[..p]) == SignBit(negative, p)
            else lp == p && Filled(words[..p], st, Lead(negative, 16 * p - 1 - k), n, w, k)
  {
    hide BigEndian, Pow2, Taken, Rest, RestWidth, Bits, Width, SignBit, Lead;
    var num := -e;
    ghost var z := bits + num;
    if num >= 16 - bits {
      lp := LaterBits(words, p, st, negative, num - (15 - bits), n, w);
    } else {
      FirstBits(words, st, negative, bits + num, n, w);
      lp := 1;
    }
    if lp <= p {
      FillWords(words, p, lp, st, Lead(negative, z), n, w, 16 * lp - 1 - z);
      lp := p;
    }
  }

  /** The denormal branch of gen_to_words. */
  method PackDenormal(words: array<littlenum>, p: nat, st: Stream, e: int, negative: bool, bits: nat, ghost n: nat)
    requires 1 < p < words.Length && 0 < bits <= 15 && e <= 0 && n > 0
    requires st.Valid() && st.V() == n && st.W() == BitLength(n)
    modifies words, st
    ensures Holds(words[..p], negative, if TooSmall(e, p, bits) then Infinity(p, bits) else Denormal(n, e, p, bits))
  {
    hide BigEndian, Pow2, Taken, Rest, RestWidth, Bits, Width, SignBit, Lead, BitLength, RoundedHalfUp, PowRadix, FractionBits;
    if TooSmall(e, p, bits) {
      HighWord(words, p, Pow2(bits) - 1, negative, bits);
      return;
    }
    BitLengthIs(n);
    ghost var w, k := BitLength(n), Places(e, p, bits);
    var precBits := 16 * p - (bits + 1 + -e);
    assert precBits == k by { PlacesAre(e, p, bits); }
    var lp := FillDenormal(words, p, st, e, negative, bits, n, w);
    ghost var before := words[..p];
    assert SignBit(negative, p) == if negative then Pow2(16 * p - 1) else 0 by { SignBitIs(negative, p); }
    if k >= 0 {
      LeadIsSign(negative, 16 * p - 1 - k, p);
      RoundBit(n, w, k);
      TakenBound(n, w, k);
      if k <= 16 { InLastWord(Taken(n, w, k), k); }
    }
    var round := st.NextBits(1);
    if round != 0 {
      lp := lp - 1;
      if precBits > 16 {
        RoundsInside(words[..p], negative, Taken(n, w, k), k);
        Carry(words, p);
      } else if lp == p - 1 {
        LastWord(words[..p], negative, Taken(n, w, k));
        words[lp] := (words[lp] + 1) % RADIX;
        assert words[..p] == before[p - 1 := words[p - 1]];
      } else {
        words[lp] := (words[lp] + 1) % RADIX;
        assert words[..p] == before;
      }
    }
  }

  lemma {:induction false} PlacesAre(e: int, p: nat, bits: nat)
    requires p > 0 && bits <= 15
    ensures Places(e, p, bits) == 16 * p - (bits + 1 + -e)
  {
  }

  lemma {:induction false} SignBitIs(negative: bool, p: nat)
    requires p > 0
    ensures SignBit(negative, p) == if negative then Pow2(16 * p - 1) else 0
  {
  }

  /** At most 16 bits fit the last word. */
  lemma {:induction false} InLastWord(t: nat, k: nat)
    requires t < Pow2(k) && k <= 16
    ensures t < RADIX && (k < 16 ==> t + 1 < RADIX)
  {
    hide Pow2;
    RadixIsPow2();
    Pow2Adds(k, 16 - k);
    AtMost(Pow2(k), Pow2(16 - k));
    if k < 16 {
      PowNext(15 - k);
      TimesMonotone(2, Pow2(16 - k), Pow2(k));
    }
  }

  /** A carry in more than one word stays below the sign. */
  lemma {:induction false} RoundsInside(s: seq<littlenum>, negative: bool, t: nat, k: nat)
    requires s != [] && t < Pow2(k) && k <= 16 * |s| - 2 && BigEndian(s) == SignBit(negative, |s|) + t
    ensures (BigEndian(s) + 1) % PowRadix(|s|) == BigEndian(s) + 1
  {
    hide Pow2, PowRadix, BigEndian;
    PowRadixIsPow2(|s|);
    PowNext(16 * |s| - 1);
    PowNext(16 * |s| - 2);
    Pow2Adds(k, 16 * |s| - 2 - k);
    AtMost(Pow2(k), Pow2(16 * |s| - 2 - k));
    SmallMod(BigEndian(s) + 1, PowRadix(|s|));
  }
}
