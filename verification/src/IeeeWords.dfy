/**
 Packing a flonum into the words of an IEEE 754 format: sign, biased exponent,
 fraction rounded half up, with the carry running into the exponent.
 */
module IeeeWords {
  import opened Arithmetic
  import opened Powers
  import opened BitStream

  // ----- words as one number, highest word first -----

  function BigEndian(s: seq<littlenum>): nat {
    if s == [] then 0 else Times(BigEndian(s[..|s| - 1]), RADIX) + s[|s| - 1]
  }

  lemma {:induction false} BigEndianAppend(s: seq<littlenum>, d: littlenum)
    ensures BigEndian(s + [d]) == BigEndian(s) * RADIX + d
  {
    assert (s + [d])[..|s|] == s;
  }

  lemma {:induction false} BigEndianBound(s: seq<littlenum>)
    ensures BigEndian(s) < PowRadix(|s|)
    decreases |s|
  {
    if s != [] { BigEndianBound(s[..|s| - 1]); }
  }

  // ----- what the words should be -----

  /** The number of significant bits. */
  function BitLength(n: nat): nat { if n == 0 then 0 else 1 + BitLength(n / 2) }

  predicate HasLength(n: nat, l: nat) { l > 0 && Pow2(l - 1) <= n < Pow2(l) }

  lemma {:induction false} LengthUnique(n: nat, l: nat)
    requires HasLength(n, l)
    ensures BitLength(n) == l
    decreases l
  {
    if l > 1 {
      assert Pow2(l - 1) == 2 * Pow2(l - 2);
      LengthUnique(n / 2, l - 1);
    }
  }

  /** `f * 2^m / 2^w` rounded to the nearest integer, a half upwards. */
  function RoundedHalfUp(f: nat, w: nat, m: nat): nat {
    Quotient(Times(f, Pow2(m + 1)) + Pow2(w), Pow2(w + 1))
  }

  lemma {:induction false} HalfUp(f: nat, c: nat, p: nat)
    requires c > 0 && p > 0
    ensures c * p > 0 && (f * p + c * p) / (2 * (c * p)) == (f / c + 1) / 2
  {
    DivSplit(f + c, 2 * c, p, 0);
    assert (f + c) * p + 0 == f * p + c * p && 2 * c * p == 2 * (c * p);
    HalfOfQuotient(f, c);
  }

  lemma {:induction false} HalfOfQuotient(f: nat, c: nat)
    requires c > 0
    ensures (f + c) / (2 * c) == (f / c + 1) / 2
  {
    var a, r := f / c, f % c;
    var q, s := (a + 1) / 2, (a + 1) % 2;
    assert f == a * c + r;
    assert f + c == (2 * q + s) * c + r;
    assert f + c == q * (2 * c) + (s * c + r);
    assert s * c <= c;
    DivModUnique(f + c, q, s * c + r, 2 * c);
  }

  /** The first `m` bits, increased by the one that follows, are the rounded fraction. */
  lemma {:induction false} RoundBit(f: nat, w: nat, m: nat)
    requires f < Pow2(w)
    ensures Taken(f, w, m) + Taken(Rest(f, w, m), RestWidth(w, m), 1) == RoundedHalfUp(f, w, m)
    ensures Taken(Rest(f, w, m), RestWidth(w, m), 1) <= 1
  {
    hide Taken, Rest, RestWidth, RoundedHalfUp;
    TakenTwice(f, w, m, 1);
    assert Pow2(1) == 2;
    TakenOne(Rest(f, w, m), RestWidth(w, m)) by { RestBound(f, w, m); }
    RoundedIsHalf(f, w, m);
  }

  lemma {:induction false} TakenOne(v: nat, w: nat)
    requires v < Pow2(w)
    ensures Taken(v, w, 1) <= 1
  {
    if w > 0 {
      assert Pow2(w) == 2 * Pow2(w - 1);
      if v / Pow2(w - 1) >= 2 { TimesMonotone(2, v / Pow2(w - 1), Pow2(w - 1)); }
    }
  }

  lemma {:induction false} RoundedIsHalf(f: nat, w: nat, m: nat)
    ensures RoundedHalfUp(f, w, m) == (Taken(f, w, m + 1) + 1) / 2
  {
    hide Pow2;
    PowNext(w);
    if m + 1 <= w {
      var c, p := Pow2(w - m - 1), Pow2(m + 1);
      Pow2Adds(w - m - 1, m + 1);
      HalfUp(f, c, p);
    } else {
      Pow2Adds(m + 1 - w, w);
      var k, p := Pow2(m + 1 - w), Pow2(w);
      assert f * (k * p) == (f * k) * p;
      HalfUp(f * k, 1, p);
    }
  }

  // ----- the code -----

  /** Seek (and forget) the first significant bit, counting the zeros before it. */
  method Seek(st: Stream, ghost n: nat) returns (skipped: nat)
    requires st.Valid() && st.V() == n && 0 < n < Pow2(st.W())
    modifies st
    ensures st.Valid() && skipped + st.W() + 1 == old(st.W())
    ensures HasLength(n, st.W() + 1) && st.V() == n - Pow2(st.W())
  {
    hide Taken, Rest, RestWidth, Bits, Width;
    skipped := 0;
    FirstBit(n, st.W());
    var bit := st.NextBits(1);
    while bit == 0
      invariant st.Valid() && skipped + st.W() + 1 == old(st.W())
      invariant bit == 0 ==> st.V() == n < Pow2(st.W())
      invariant bit != 0 ==> HasLength(n, st.W() + 1) && st.V() == n - Pow2(st.W())
      decreases st.W(), if bit == 0 then 1 else 0
    {
      FirstBit(n, st.W());
      bit := st.NextBits(1);
      skipped := skipped + 1;
    }
  }

  lemma {:induction false} FirstBit(n: nat, w: nat)
    requires 0 < n < Pow2(w)
    ensures w > 0 && RestWidth(w, 1) == w - 1
    ensures Taken(n, w, 1) == 0 ==> Rest(n, w, 1) == n < Pow2(w - 1)
    ensures Taken(n, w, 1) != 0 ==> HasLength(n, w) && Rest(n, w, 1) == n - Pow2(w - 1)
  {
    assert Pow2(0) == 1;
    var p := Pow2(w - 1);
    assert Pow2(w) == 2 * p;
    if n < p { DivModUnique(n, 0, n, p); } else { DivModUnique(n, 1, n - p, p); }
  }

  lemma {:induction false} BigEndianFront(s: seq<littlenum>)
    requires s != []
    ensures BigEndian(s) == s[0] * PowRadix(|s| - 1) + BigEndian(s[1..])
    decreases |s|
  {
    if |s| > 1 {
      var t := s[..|s| - 1];
      BigEndianFront(t);
      assert t[1..] == s[1..][..|s| - 2] && s[1..][|s| - 2] == s[|s| - 1] && t[0] == s[0];
      FrontStep(s[0], PowRadix(|s| - 2), BigEndian(t[1..]));
    }
  }

  lemma {:induction false} FrontStep(d: nat, p: nat, w: nat)
    ensures Times(d * p + w, RADIX) == d * (RADIX * p) + Times(w, RADIX)
  {
  }

  /** The carry owed to the words before `k` makes up the difference. */
  predicate Carried(was: seq<littlenum>, now: seq<littlenum>, k: nat, carry: nat)
    requires k <= |was| == |now|
  {
    BigEndian(now[k..]) + carry * PowRadix(|now| - k) == BigEndian(was[k..]) + 1
  }

  lemma {:induction false} CarryStep(was: seq<littlenum>, now: seq<littlenum>, k: nat, carry: nat)
    requires k < |was| == |now| && Carried(was, now, k + 1, carry) && now[k] == was[k]
    ensures var x := now[k] + carry;
            var d: littlenum := x % RADIX;
            Carried(was, now[k := d], k, x / RADIX)
  {
    hide BigEndian, PowRadix;
    var x := now[k] + carry;
    var d: littlenum := x % RADIX;
    var next := now[k := d];
    BigEndianFront(was[k..]);
    BigEndianFront(next[k..]);
    assert was[k..][1..] == was[k + 1..] && next[k..][1..] == now[k + 1..];
    var p := PowRadix(|now| - k - 1);
    assert PowRadix(|now| - k) == RADIX * p by { RadixNext(|now| - k - 1); }
    CarryArithmetic(was[k], carry, p);
  }

  lemma {:induction false} CarryArithmetic(d: nat, carry: nat, p: nat)
    ensures var x := d + carry; x % RADIX * p + x / RADIX * (RADIX * p) == d * p + carry * p
  {
    var x := d + carry;
    assert x == x / RADIX * RADIX + x % RADIX;
    assert x * p == (x / RADIX * RADIX + x % RADIX) * p;
  }

  lemma {:induction false} CarriedOut(was: seq<littlenum>, now: seq<littlenum>, k: nat, carry: nat)
    requires k <= |was| == |now| && Carried(was, now, k, carry) && now[..k] == was[..k] && (carry == 0 || k == 0)
    ensures BigEndian(now) == (BigEndian(was) + 1) % PowRadix(|now|)
    decreases k
  {
    hide BigEndian, PowRadix;
    if k == 0 {
      assert now[0..] == now && was[0..] == was;
      BigEndianBound(now);
      DivModUnique(BigEndian(was) + 1, carry, BigEndian(now), PowRadix(|now|));
    } else {
      assert now[k - 1] == now[..k][k - 1] && was[k - 1] == was[..k][k - 1];
      assert now[..k - 1] == now[..k][..k - 1] && was[..k - 1] == was[..k][..k - 1];
      assert Carried(was, now, k - 1, 0) by {
        CarryStep(was, now, k - 1, 0);
        assert now[k - 1 := now[k - 1]] == now;
      }
      CarriedOut(was, now, k - 1, 0);
    }
  }

  /** Adding one to the number in the first `p` words, modulo its size. */
  method Carry(words: array<littlenum>, p: nat)
    requires p <= words.Length
    modifies words
    ensures BigEndian(words[..p]) == (BigEndian(old(words[..p])) + 1) % PowRadix(p)
  {
    hide BigEndian, Carried;
    var carry, lp := 1, p - 1;
    ghost var was := words[..p];
    assert Carried(was, words[..p], p, 1) by { CarryStarts(was); }
    while carry != 0 && lp >= 0
      invariant -1 <= lp < p && 0 <= carry <= 1
      invariant words[..lp + 1] == was[..lp + 1]
      invariant Carried(was, words[..p], lp + 1, carry)
    {
      assert words[lp] == words[..lp + 1][lp] && was[lp] == was[..lp + 1][lp];
      CarryStep(was, words[..p], lp, carry);
      ghost var now := words[..p];
      carry := words[lp] + carry;
      words[lp] := carry % RADIX;
      assert words[..p] == now[lp := words[lp]];
      carry := carry / RADIX;
      lp := lp - 1;
    }
    assert words[..p][..lp + 1] == words[..lp + 1];
    CarriedOut(was, words[..p], lp + 1, carry);
  }

  lemma {:induction false} CarryStarts(was: seq<littlenum>)
    ensures Carried(was, was, |was|, 1)
  {
  }

  lemma {:induction false} TakenBound(v: nat, w: nat, n: nat)
    requires v < Pow2(w)
    ensures Taken(v, w, n) < Pow2(n)
  {
    hide Pow2;
    if n <= w {
      Pow2Adds(n, w - n);
      var p, q := Pow2(n), Pow2(w - n);
      if v / q >= p { TimesMonotone(p, v / q, q); }
    } else {
      Pow2Adds(w, n - w);
      TimesMonotone(v + 1, Pow2(w), Pow2(n - w));
    }
  }

  /** The words so far: sign and exponent `h`, and `k` bits of the fraction `f` of `w` bits. */
  ghost predicate Filled(s: seq<littlenum>, st: Stream, h: nat, f: nat, w: nat, k: nat)
    reads st
  {
    && st.Valid() && st.V() == Rest(f, w, k) && st.W() == RestWidth(w, k)
    && BigEndian(s) == Times(h, Pow2(k)) + Taken(f, w, k)
  }

  lemma {:induction false} FilledNext(s: seq<littlenum>, h: nat, f: nat, w: nat, k: nat, d: littlenum)
    requires f < Pow2(w) && BigEndian(s) == Times(h, Pow2(k)) + Taken(f, w, k)
    requires d == Taken(Rest(f, w, k), RestWidth(w, k), 16)
    ensures BigEndian(s + [d]) == Times(h, Pow2(k + 16)) + Taken(f, w, k + 16)
    ensures Rest(f, w, k + 16) == Rest(Rest(f, w, k), RestWidth(w, k), 16)
    ensures RestWidth(w, k + 16) == RestWidth(RestWidth(w, k), 16)
  {
    hide BigEndian, Taken, Rest, RestWidth, Pow2;
    BigEndianAppend(s, d);
    TakenTwice(f, w, k, 16);
    Pow2Adds(k, 16);
    RadixIsPow2();
    Distribute(h, Pow2(k), Taken(f, w, k), Pow2(16));
  }

  lemma {:induction false} Distribute(h: nat, p: nat, t: nat, r: nat)
    ensures (Times(h, p) + t) * r == Times(h, p * r) + t * r
  {
  }

  /** The words from number `lp` on are just fraction bits. */
  method FillWords(words: array<littlenum>, p: nat, lp: nat, st: Stream, ghost h: nat, ghost f: nat, ghost w: nat, ghost k: nat)
    requires 1 <= lp <= p <= words.Length && f < Pow2(w) && Filled(words[..lp], st, h, f, w, k)
    modifies words, st
    ensures words[0] == old(words[0]) && Filled(words[..p], st, h, f, w, k + 16 * (p - lp))
  {
    hide BigEndian, Taken, Rest, RestWidth, Pow2, Bits, Width;
    var j := lp;
    while j < p
      invariant lp <= j <= p && words[0] == old(words[0])
      invariant Filled(words[..j], st, h, f, w, k + 16 * (j - lp))
    {
      ghost var m := k + 16 * (j - lp);
      RestBound(f, w, m);
      TakenBound(Rest(f, w, m), RestWidth(w, m), 16);
      RadixIsPow2();
      var bits := st.NextBits(16);
      FilledNext(words[..j], h, f, w, m, bits);
      words[j] := bits;
      assert words[..j + 1] == words[..j] + [words[j]];
      j := j + 1;
    }
  }

  /** Sign, exponent and the high bits of the fraction. */
  lemma {:induction false} FirstWord(sign: nat, e: nat, bits: nat, t: nat)
    requires sign <= 1 && bits <= 15 && e < Pow2(bits) && t < Pow2(15 - bits)
    ensures var h := sign * Pow2(bits) + e;
            sign * 0x8000 + Times(e, Pow2(15 - bits)) + t == Times(h, Pow2(15 - bits)) + t < RADIX
  {
    hide Pow2;
    Pow2Adds(bits, 15 - bits);
    HalfRadix();
    JoinFields(sign, e, Pow2(bits), Pow2(15 - bits), t);
  }

  lemma {:induction false} JoinFields(sign: nat, e: nat, p: nat, q: nat, t: nat)
    requires sign <= 1 && e < p && t < q
    ensures sign * (p * q) + Times(e, q) + t == Times(sign * p + e, q) + t < 2 * (p * q)
  {
    TimesMonotone(e + 1, p, q);
    if sign == 1 { assert (p + e) * q == p * q + e * q; }
  }

  lemma {:induction false} HalfRadix()
    ensures Pow2(15) == 0x8000
  {
    RadixIsPow2();
    PowNext(15);
  }

  /** The highest word decides the highest bit of the number. */
  lemma {:induction false} TopBit(s: seq<littlenum>)
    requires s != []
    ensures s[0] >= 0x8000 <==> BigEndian(s) >= Pow2(16 * |s| - 1)
    ensures Pow2(16 * |s| - 1) * 2 == PowRadix(|s|)
  {
    hide BigEndian, Pow2, PowRadix;
    BigEndianFront(s);
    BigEndianBound(s[1..]);
    PowRadixIsPow2(|s| - 1);
    PowRadixIsPow2(|s|);
    Pow2Adds(15, 16 * (|s| - 1));
    HalfRadix();
    PowNext(16 * |s| - 1);
    TopDigit(s[0], PowRadix(|s| - 1), BigEndian(s[1..]));
  }

  lemma {:induction false} TopDigit(d: littlenum, q: nat, w: nat)
    requires w < q
    ensures d >= 0x8000 <==> d * q + w >= 0x8000 * q
  {
    if d >= 0x8000 { TimesMonotone(0x8000, d, q); } else { TimesMonotone(d + 1, 0x8000, q); }
  }

  // ----- the whole conversion -----

  /** The exponent field of a flonum: the digits `n` times 65536 to the `exponent`. */
  function Biased(n: nat, exponent: int, bits: nat): int
    requires bits > 0
  {
    16 * exponent + BitLength(n) + Pow2(bits - 1) - 2
  }

  lemma {:induction false} BitLengthIs(n: nat)
    requires n > 0
    ensures HasLength(n, BitLength(n))
    decreases n
  {
    if n > 1 { BitLengthIs(n / 2); }
  }

  /** What follows the first significant bit. */
  function Fraction(n: nat): (f: nat)
    requires n > 0
    ensures f < Pow2(BitLength(n) - 1)
  {
    BitLengthIs(n);
    n - Pow2(BitLength(n) - 1)
  }

  /** The number of fraction bits in `p` words. */
  function FractionBits(p: nat, bits: nat): nat
    requires p > 0 && bits <= 15
  {
    16 * p - 1 - bits
  }

  /** The number without its sign that `p` words should hold. */
  function Magnitude(n: nat, e: nat, p: nat, bits: nat): nat
    requires n > 0 && p > 0 && bits <= 15
  {
    var m := FractionBits(p, bits);
    Times(e, Pow2(m)) + RoundedHalfUp(Fraction(n), BitLength(n) - 1, m)
  }

  /** Before rounding, the magnitude is below the sign bit. */
  lemma {:induction false} BelowSign(e: nat, bits: nat, m: nat, t: nat)
    requires e < Pow2(bits) && t < Pow2(m)
    ensures Times(e, Pow2(m)) + t < Pow2(bits + m)
  {
    hide Pow2;
    Pow2Adds(bits, m);
    TimesMonotone(e + 1, Pow2(bits), Pow2(m));
  }

  /** An exponent field below the highest two leaves room for the carry. */
  lemma {:induction false} CarryHasRoom(n: nat, e: nat, p: nat, bits: nat)
    requires n > 0 && p > 0 && bits <= 15 && e + 1 < Pow2(bits)
    ensures Magnitude(n, e, p, bits) < Pow2(16 * p - 1)
  {
    hide Pow2, Taken, Rest, RestWidth, RoundedHalfUp;
    var m, f, w := FractionBits(p, bits), Fraction(n), BitLength(n) - 1;
    RoundBit(f, w, m);
    TakenBound(f, w, m);
    BelowSign(e + 1, bits, m, 0);
    assert (e + 1) * Pow2(m) == e * Pow2(m) + Pow2(m);
  }

  /** Rounding reaches the sign bit exactly if the exponent field and the fraction are all ones and the next bit is set. */
  lemma {:induction false} CarryReachesSign(n: nat, e: nat, p: nat, bits: nat)
    requires n > 0 && p > 0 && bits <= 15 && e < Pow2(bits)
    ensures var m := FractionBits(p, bits);
            Magnitude(n, e, p, bits) >= Pow2(16 * p - 1)
            <==> e + 1 == Pow2(bits) && RoundedHalfUp(Fraction(n), BitLength(n) - 1, m) == Pow2(m)
  {
    hide Pow2, Taken, Rest, RestWidth, RoundedHalfUp, Magnitude;
    var m, f, w := FractionBits(p, bits), Fraction(n), BitLength(n) - 1;
    RoundBit(f, w, m);
    TakenBound(f, w, m);
    if e + 1 < Pow2(bits) {
      CarryHasRoom(n, e, p, bits);
    } else {
      Pow2Adds(bits, m);
      AllOnes(e, Pow2(bits), Pow2(m), RoundedHalfUp(f, w, m));
      assert Magnitude(n, e, p, bits) == Times(e, Pow2(m)) + RoundedHalfUp(f, w, m) by { MagnitudeIs(n, e, p, bits); }
    }
  }

  lemma {:induction false} MagnitudeIs(n: nat, e: nat, p: nat, bits: nat)
    requires n > 0 && p > 0 && bits <= 15
    ensures var m := FractionBits(p, bits);
            Magnitude(n, e, p, bits) == Times(e, Pow2(m)) + RoundedHalfUp(Fraction(n), BitLength(n) - 1, m)
  {
  }

  lemma {:induction false} AllOnes(e: nat, b: nat, q: nat, r: nat)
    requires e + 1 == b && r <= q
    ensures Times(e, q) + r >= b * q <==> r == q
  {
    assert b * q == e * q + q;
  }

  /** Rounding up: add the carry, and drop the sign bit if that has flipped. */
  method RoundUp(words: array<littlenum>, p: nat, word1: littlenum)
    requires 0 < p <= words.Length && words[0] == word1
    modifies words
    ensures var was, h := BigEndian(old(words[..p])), Pow2(16 * p - 1);
            BigEndian(words[..p]) == if was + 1 == h || was + 1 == 2 * h then 0 else was + 1
  {
    hide BigEndian, Pow2, PowRadix;
    ghost var was, h := BigEndian(words[..p]), Pow2(16 * p - 1);
    TopBit(words[..p]);
    BigEndianBound(words[..p]);
    Carry(words, p);
    TopBit(words[..p]);
    SmallMod(was + 1, 2 * h);
    if (word1 >= 0x8000) != (words[0] >= 0x8000) {
      DropTopBit(words[..p]);
      ghost var now := words[..p];
      words[0] := words[0] % 0x8000;
      assert words[..p] == now[0 := words[0]];
    }
  }

  lemma {:induction false} SmallMod(x: nat, n: nat)
    requires 0 < x <= n
    ensures x % n == if x == n then 0 else x
  {
    if x == n { DivModUnique(x, 1, 0, n); }
  }

  lemma {:induction false} DropTopBit(s: seq<littlenum>)
    requires s != []
    ensures var d: littlenum := s[0] % 0x8000;
            BigEndian(s[0 := d]) == BigEndian(s) - if s[0] >= 0x8000 then Pow2(16 * |s| - 1) else 0
  {
    hide BigEndian, Pow2, PowRadix;
    var d: littlenum := s[0] % 0x8000;
    BigEndianFront(s);
    BigEndianFront(s[0 := d]);
    assert s[0 := d][1..] == s[1..];
    PowRadixIsPow2(|s| - 1);
    Pow2Adds(15, 16 * (|s| - 1));
    HalfRadix();
    TopOff(s[0], d, PowRadix(|s| - 1));
  }

  lemma {:induction false} TopOff(x: littlenum, d: littlenum, q: nat)
    requires d == x % 0x8000
    ensures x * q == d * q + if x >= 0x8000 then 0x8000 * q else 0
  {
    assert d == if x >= 0x8000 then x - 0x8000 else x;
  }

  /** Sign bit and magnitude in the words of a format. */
  ghost predicate Holds(s: seq<littlenum>, negative: bool, magnitude: nat)
    requires s != []
  {
    BigEndian(s) == (if negative then Pow2(16 * |s| - 1) else 0) + magnitude
  }

  /** Packing a stream behind its first significant bit, the exponent field being in range. */
  method Pack(words: array<littlenum>, p: nat, st: Stream, e: nat, negative: bool, bits: nat, ghost n: nat)
    requires 0 < p <= words.Length && bits <= 15 && e < Pow2(bits) && n > 0
    requires st.Valid() && st.V() == Fraction(n) && st.W() == BitLength(n) - 1
    modifies words, st
    ensures var mag := Magnitude(n, e, p, bits);
            if mag < Pow2(16 * p - 1) then Holds(words[..p], negative, mag) else Holds(words[..p], false, 0)
  {
    hide BigEndian, Pow2, Taken, Rest, RestWidth, RoundedHalfUp, Bits, Width, Magnitude, BitLength, PowRadix;
    ghost var f, w, m := Fraction(n), BitLength(n) - 1, FractionBits(p, bits);
    var sign := if negative then 1 else 0;
    ghost var h := sign * Pow2(bits) + e;
    var k := 15 - bits;
    TakenBound(f, w, k);
    var t := st.NextBits(k);
    FirstWord(sign, e, bits, t);
    var word1 := sign * 0x8000 + Times(e, Pow2(k)) + t;
    words[0] := word1;
    assert words[..1] == [words[0]];
    OneWord(words[0]);
    FillWords(words, p, 1, st, h, f, w, k);
    assert k + 16 * (p - 1) == m;
    RoundBit(f, w, m);
    TakenBound(f, w, m);
    SignAndRest(sign, e, bits, m, Taken(f, w, m));
    MagnitudeIs(n, e, p, bits);
    var round := st.NextBits(1);
    if round != 0 {
      PowNext(bits + m);
      RoundUp(words, p, word1);
    }
  }

  lemma {:induction false} OneWord(d: littlenum)
    ensures BigEndian([d]) == d
  {
    BigEndianAppend([], d);
    assert [] + [d] == [d];
  }

  lemma {:induction false} SignAndRest(sign: nat, e: nat, bits: nat, m: nat, t: nat)
    requires sign <= 1 && e < Pow2(bits) && t < Pow2(m)
    ensures Times(sign * Pow2(bits) + e, Pow2(m)) + t == sign * Pow2(bits + m) + (Times(e, Pow2(m)) + t)
    ensures Times(e, Pow2(m)) + t < Pow2(bits + m)
  {
    hide Pow2;
    Pow2Adds(bits, m);
    BelowSign(e, bits, m, t);
    var p, q := Pow2(bits), Pow2(m);
    if sign == 1 { assert (p + e) * q == p * q + e * q; }
  }

  /** The magnitude of an infinity: an exponent field of ones and no fraction. */
  function Infinity(p: nat, bits: nat): nat
    requires p > 0 && bits <= 15
  {
    Times(Pow2(bits) - 1, Pow2(FractionBits(p, bits)))
  }

  /** Single and double precision. */
  predicate Format(p: nat, bits: nat) { (p == 2 && bits == 8) || (p == 4 && bits == 11) }

  /** Zeros behind the first word. */
  method ZeroFill(words: array<littlenum>, p: nat)
    requires 0 < p <= words.Length
    modifies words
    ensures words[0] == old(words[0]) && forall j :: 1 <= j < p ==> words[j] == 0
  {
    for i := 1 to p
      invariant words[0] == old(words[0]) && forall j :: 1 <= j < i ==> words[j] == 0
    {
      words[i] := 0;
    }
  }

  /** A high word `d << (15 - bits)` and zeros behind it. */
  method HighWord(words: array<littlenum>, p: nat, d: nat, negative: bool, bits: nat)
    requires 0 < p <= words.Length && bits <= 15 && d < Pow2(bits)
    modifies words
    ensures Holds(words[..p], negative, Times(d, Pow2(FractionBits(p, bits))))
  {
    hide BigEndian, Pow2, PowRadix;
    var sign := if negative then 1 else 0;
    FirstWord(sign, d, bits, 0);
    words[0] := sign * 0x8000 + Times(d, Pow2(15 - bits));
    ZeroFill(words, p);
    ZeroWords(words[1..p]);
    BigEndianFront(words[..p]);
    assert words[..p][0] == words[0] && words[..p][1..] == words[1..p];
    PowRadixIsPow2(p - 1);
    HighFields(sign, d, bits, 16 * (p - 1));
  }

  lemma {:induction false} HighFields(sign: nat, d: nat, bits: nat, k: nat)
    requires bits <= 15
    ensures (sign * 0x8000 + Times(d, Pow2(15 - bits))) * Pow2(k) == sign * Pow2(15 + k) + Times(d, Pow2(15 - bits + k))
  {
    hide Pow2;
    HalfRadix();
    Pow2Adds(15, k);
    Pow2Adds(15 - bits, k);
    var a, b, c := Pow2(15), Pow2(15 - bits), Pow2(k);
    assert (sign * a + d * b) * c == sign * (a * c) + d * (b * c);
  }

  lemma {:induction false} ZeroWords(s: seq<littlenum>)
    requires forall i :: 0 <= i < |s| ==> s[i] == 0
    ensures BigEndian(s) == 0
    decreases |s|
  {
    if s != [] { ZeroWords(s[..|s| - 1]); }
  }
}
