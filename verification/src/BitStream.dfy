/**
 The bit stream of atof-ieee.c: the bits of a flonum, highest first, taken a
 few at a time out of an array of 16-bit digits and followed by zeros.
 */
module BitStream {
  import opened Arithmetic
  import opened Powers

  const RADIX := 0x1_0000

  type littlenum = n: int | 0 <= n < RADIX

  function PowRadix(k: nat): (p: nat)
    ensures p > 0
  {
    if k == 0 then 1 else RADIX * PowRadix(k - 1)
  }

  /** The number whose digits are `nums`, lowest first. */
  function Value(nums: seq<littlenum>): nat {
    if nums == [] then 0 else Value(nums[..|nums| - 1]) + nums[|nums| - 1] * PowRadix(|nums| - 1)
  }

  lemma {:induction false} ValueBound(nums: seq<littlenum>)
    ensures Value(nums) < PowRadix(|nums|)
    decreases |nums|
  {
    if nums != [] {
      ValueBound(nums[..|nums| - 1]);
      DigitBound(nums[|nums| - 1], PowRadix(|nums| - 1), Value(nums[..|nums| - 1]));
    }
  }

  lemma {:induction false} DigitBound(d: littlenum, p: nat, w: nat)
    requires w < p
    ensures w + d * p < RADIX * p
  {
    TimesMonotone(d + 1, RADIX, p);
  }

  lemma {:induction false} RadixNext(k: nat)
    ensures PowRadix(k + 1) == RADIX * PowRadix(k)
  {
  }

  lemma {:induction false} PowRadixIsPow2(k: nat)
    ensures PowRadix(k) == Pow2(16 * k)
    decreases k
  {
    if k > 0 {
      PowRadixIsPow2(k - 1);
      Pow2Adds(16, 16 * (k - 1));
      RadixIsPow2();
    }
  }

  lemma {:induction false} RadixIsPow2()
    ensures Pow2(16) == RADIX
  {
    assert Pow2(4) == 16;
    Pow2Adds(4, 4);
    Pow2Adds(8, 8);
  }

  // ----- streams as numbers -----

  /** The first `n` bits of a stream of `width` bits that are the number `v`. */
  function Taken(v: nat, width: nat, n: nat): nat {
    if n <= width then Quotient(v, Pow2(width - n)) else Times(v, Pow2(n - width))
  }

  function Rest(v: nat, width: nat, n: nat): nat { if n <= width then Remainder(v, Pow2(width - n)) else 0 }

  function RestWidth(width: nat, n: nat): nat { if n <= width then width - n else 0 }

  lemma {:induction false} RestBound(v: nat, width: nat, n: nat)
    ensures Rest(v, width, n) < Pow2(RestWidth(width, n))
  {
  }

  /** Taking bits twice is taking them at once. */
  lemma {:induction false} TakenTwice(v: nat, width: nat, m: nat, n: nat)
    requires v < Pow2(width)
    ensures Taken(v, width, m + n) == Taken(v, width, m) * Pow2(n) + Taken(Rest(v, width, m), RestWidth(width, m), n)
    ensures Rest(v, width, m + n) == Rest(Rest(v, width, m), RestWidth(width, m), n)
    ensures RestWidth(width, m + n) == RestWidth(RestWidth(width, m), n)
  {
    hide Pow2;
    if m + n <= width {
      var p, q := Pow2(n), Pow2(width - m - n);
      Pow2Adds(n, width - m - n);
      MiddleBits(v, p, q);
      SplitQuotient(v, p, q);
    } else if m <= width {
      var k := n - (width - m);
      Pow2Adds(width - m, k);
      Scaled(v, Pow2(width - m), Pow2(k));
      assert Pow2(0) == 1 by { PowZero(); }
    } else {
      Pow2Adds(m - width, n);
      assert v * Pow2(m - width) * Pow2(n) == v * (Pow2(m - width) * Pow2(n));
    }
  }

  lemma {:induction false} SplitQuotient(v: nat, p: nat, q: nat)
    requires p > 0 && q > 0
    ensures p * q > 0 && v / q == v / (p * q) * p + v % (p * q) / q
  {
    var a := v / (p * q);
    var b := v % (p * q);
    assert v == a * (p * q) + b;
    assert v == (a * p) * q + b;
    var c, r := b / q, b % q;
    assert v == (a * p + c) * q + r;
    DivModUnique(v, a * p + c, r, q);
  }

  lemma {:induction false} Scaled(v: nat, p: nat, k: nat)
    requires p > 0
    ensures v * k == v / p * (p * k) + v % p * k
  {
    assert v == v / p * p + v % p;
  }

  // ----- streams in digits -----

  /** The bits left when `left` digits remain, `bits` bits of the highest among them. */
  function Bits(nums: seq<littlenum>, left: nat, bits: nat): nat
    requires left <= |nums|
  {
    if left == 0 then 0
    else Times(Remainder(nums[left - 1], Pow2(bits)), PowRadix(left - 1)) + Value(nums[..left - 1])
  }

  function Width(left: nat, bits: nat): nat { if left == 0 then 0 else bits + 16 * (left - 1) }

  /** Taking fewer bits than the highest digit has left. */
  lemma {:induction false} TakeInside(nums: seq<littlenum>, left: nat, bits: nat, n: nat)
    requires 0 < left <= |nums| && n < bits <= 16
    ensures var v, w := Bits(nums, left, bits), Width(left, bits);
            && Taken(v, w, n) == nums[left - 1] / Pow2(bits - n) % Pow2(n)
            && Rest(v, w, n) == Bits(nums, left, bits - n) && RestWidth(w, n) == Width(left, bits - n)
  {
    hide Pow2, PowRadix, Value;
    var x: int, b, low := nums[left - 1], PowRadix(left - 1), Value(nums[..left - 1]);
    var p, q := Pow2(n), Pow2(bits - n);
    Pow2Adds(n, bits - n);
    MiddleBits(x, p, q);
    ValueBound(nums[..left - 1]);
    PowRadixIsPow2(left - 1);
    Pow2Adds(bits - n, 16 * (left - 1));
    DivSplit(x % (p * q), q, b, low);
  }

  /** Taking what is left of the last digit, and zeros. */
  lemma {:induction false} TakeLast(nums: seq<littlenum>, bits: nat, n: nat)
    requires |nums| > 0 && bits <= n
    ensures Taken(Bits(nums, 1, bits), Width(1, bits), n) == Times(nums[0] % Pow2(bits), Pow2(n - bits))
    ensures Rest(Bits(nums, 1, bits), Width(1, bits), n) == 0
  {
    assert nums[..0] == [];
    assert Pow2(0) == 1;
    assert PowRadix(0) == 1;
  }

  /** Taking bits across a digit boundary. */
  lemma {:induction false} TakeAcross(nums: seq<littlenum>, left: nat, bits: nat, n: nat)
    requires 1 < left <= |nums| && bits <= n && n - bits < 16
    ensures var v, w, k := Bits(nums, left, bits), Width(left, bits), n - bits;
            && Taken(v, w, n) == Times(nums[left - 1] % Pow2(bits), Pow2(k)) + nums[left - 2] / Pow2(16 - k)
            && Rest(v, w, n) == Bits(nums, left - 1, 16 - k) && RestWidth(w, n) == Width(left - 1, 16 - k)
  {
    hide Pow2, PowRadix, Value;
    var k, b, low := n - bits, PowRadix(left - 2), Value(nums[..left - 2]);
    var d, y: int := nums[left - 1] % Pow2(bits), nums[left - 2];
    LowerDigits(nums, left, d);
    var p, q := Pow2(k), Pow2(16 - k);
    Pow2Adds(k, 16 - k);
    RadixIsPow2();
    ValueBound(nums[..left - 2]);
    PowRadixIsPow2(left - 2);
    Pow2Adds(16 - k, 16 * (left - 2));
    DivSplit(d * RADIX + y, q, b, low);
    HighAndMiddle(d, p, q, y);
  }

  lemma {:induction false} LowerDigits(nums: seq<littlenum>, left: nat, d: nat)
    requires 1 < left <= |nums|
    ensures Times(d, PowRadix(left - 1)) + Value(nums[..left - 1])
            == (d * RADIX + nums[left - 2]) * PowRadix(left - 2) + Value(nums[..left - 2])
  {
    var xs := nums[..left - 1];
    assert xs[..|xs| - 1] == nums[..left - 2];
  }

  lemma {:induction false} HighAndMiddle(d: nat, p: nat, q: nat, y: nat)
    requires q > 0
    ensures (d * (p * q) + y) / q == Times(d, p) + y / q && (d * (p * q) + y) % q == y % q
  {
    var a, r := y / q, y % q;
    assert d * (p * q) + y == (d * p + a) * q + r;
    DivModUnique(d * (p * q) + y, d * p + a, r, q);
  }

  /** What is left of a stream is the low end of its number. */
  lemma {:induction false} BitsAreLow(nums: seq<littlenum>, left: nat, bits: nat)
    requires left <= |nums| && (left > 0 ==> bits <= 16)
    ensures Bits(nums, left, bits) == Remainder(Value(nums), Pow2(Width(left, bits)))
    decreases |nums|
  {
    hide Pow2, PowRadix;
    if left == 0 {
      PowZero();
    } else if left == |nums| {
      var b, low := PowRadix(left - 1), Value(nums[..left - 1]);
      ValueBound(nums[..left - 1]);
      PowRadixIsPow2(left - 1);
      Pow2Adds(bits, 16 * (left - 1));
      DivSplit(nums[left - 1], Pow2(bits), b, low);
    } else {
      var t, w := nums[..|nums| - 1], Width(left, bits);
      BitsAreLow(t, left, bits);
      assert t[left - 1] == nums[left - 1] && t[..left - 1] == nums[..left - 1];
      PowRadixIsPow2(|nums| - 1);
      Pow2Adds(16 * (|nums| - 1) - w, w);
      HigherDigits(Value(t), nums[|nums| - 1], Pow2(16 * (|nums| - 1) - w), Pow2(w));
    }
  }

  lemma {:induction false} HigherDigits(v: nat, d: nat, p: nat, q: nat)
    requires q > 0
    ensures (v + d * (p * q)) % q == v % q
  {
    assert d * (p * q) == d * p * q;
    ModShift(v, d * p, q);
  }

  class Stream {
    const nums: seq<littlenum>
    var bitsLeft: nat
    var left: nat

    ghost predicate Valid()
      reads this
    {
      left <= |nums| && (left > 0 ==> 1 <= bitsLeft <= 16)
    }

    ghost function V(): nat
      requires Valid()
      reads this
    {
      Bits(nums, left, bitsLeft)
    }

    ghost function W(): nat
      requires Valid()
      reads this
    {
      Width(left, bitsLeft)
    }

    constructor (nums: seq<littlenum>)
      ensures Valid() && this.nums == nums && V() == Value(nums) && W() == 16 * |nums|
    {
      this.nums, this.bitsLeft, this.left := nums, 16, |nums|;
      new;
      WholeStream(nums);
    }

    /** next_bits: the next `n` bits of the stream, zeros when it is exhausted. */
    method NextBits(n: nat) returns (r: nat)
      requires Valid() && n <= 16
      modifies this
      ensures Valid()
      ensures r == Taken(old(V()), old(W()), n)
      ensures V() == Rest(old(V()), old(W()), n) && W() == RestWidth(old(W()), n)
    {
      hide Pow2, Bits;
      if left == 0 {
        NothingLeft(nums, bitsLeft, n);
        return 0;
      }
      if n >= bitsLeft {
        r := nums[left - 1] % Pow2(bitsLeft);
        var k := n - bitsLeft;
        r := Times(r, Pow2(k));
        if left > 1 {
          TakeAcross(nums, left, bitsLeft, n);
          r := r + nums[left - 2] / Pow2(16 - k);
          bitsLeft := 16 - k;
        } else {
          TakeLast(nums, bitsLeft, n);
        }
        left := left - 1;
        if left == 0 { NothingLeft(nums, bitsLeft, n); }
      } else {
        TakeInside(nums, left, bitsLeft, n);
        bitsLeft := bitsLeft - n;
        r := nums[left - 1] / Pow2(bitsLeft) % Pow2(n);
      }
    }

    /** unget_bits: `n` bits that have been taken are given back. */
    method UngetBits(n: nat)
      requires Valid() && 0 < n < 16 && W() + n <= 16 * |nums|
      modifies this
      ensures Valid() && W() == old(W()) + n && V() == Remainder(Value(nums), Pow2(W()))
    {
      hide Pow2, Bits;
      if left == 0 {
        left, bitsLeft := 1, n;
      } else if bitsLeft + n > 16 {
        bitsLeft := n - (16 - bitsLeft);
        left := left + 1;
      } else {
        bitsLeft := bitsLeft + n;
      }
      BitsAreLow(nums, left, bitsLeft);
    }
  }

  lemma {:induction false} NothingLeft(nums: seq<littlenum>, bits: nat, n: nat)
    ensures Bits(nums, 0, bits) == 0 && Taken(0, 0, n) == 0 && Rest(0, 0, n) == 0
  {
    assert Pow2(0) == 1;
  }

  lemma {:induction false} WholeStream(nums: seq<littlenum>)
    ensures Bits(nums, |nums|, 16) == Value(nums)
  {
    RadixIsPow2();
  }
}
