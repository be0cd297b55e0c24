/**
 The digits of a decimal literal as an exact binary number: a large-precision
 version of multiplying by ten and adding the next digit.
 */
module DecimalValue {
  import opened Arithmetic
  import opened Powers
  import opened BitStream
  import opened DecimalDigits
  import opened DecimalRoom

  // ----- one digit -----

  /** Multiplying the number in `a` by ten and adding `digit`; what does not fit is returned. */
  method TimesTenPlus(a: array<littlenum>, digit: nat) returns (carry: nat)
    requires digit < 10
    modifies a
    ensures Value(a[..]) + Times(carry, PowRadix(a.Length)) == 10 * Value(old(a[..])) + digit
  {
    hide Value, PowRadix;
    carry := digit;
    ghost var was := a[..];
    assert was[..0] == a[..0];
    StartsExact(was[..0], digit);
    for i := 0 to a.Length
      invariant carry < 10 && a[i..] == was[i..]
      invariant Exact(was[..i], a[..i], carry, digit)
    {
      ghost var now := a[..i];
      assert a[i] == a[i..][0] == was[i..][0] == was[i];
      var work: int := carry + 10 * a[i] as int;
      ExactStep(was[..i], now, was[i], carry, digit);
      a[i] := work % RADIX;
      carry := work / RADIX;
      assert a[..i + 1] == now + [a[i]] && was[..i + 1] == was[..i] + [was[i]];
      assert a[i + 1..] == was[i + 1..];
    }
    assert a[..] == a[..a.Length] && was == was[..a.Length];
  }

  /** The low digits of the product, with the carry that goes into the next one. */
  ghost predicate Exact(was: seq<littlenum>, now: seq<littlenum>, carry: nat, digit: nat) {
    |was| == |now| && Value(now) + Times(carry, PowRadix(|now|)) == 10 * Value(was) + digit
  }

  lemma {:induction false} StartsExact(none: seq<littlenum>, digit: nat)
    requires none == []
    ensures Exact(none, none, digit, digit)
  {
  }

  lemma {:induction false} ExactStep(was: seq<littlenum>, now: seq<littlenum>, x: littlenum, carry: nat, digit: nat)
    requires Exact(was, now, carry, digit)
    ensures var work := carry + 10 * x;
            var d: littlenum := work % RADIX;
            Exact(was + [x], now + [d], work / RADIX, digit)
  {
    hide PowRadix;
    var work := carry + 10 * x;
    var d: littlenum := work % RADIX;
    var p := PowRadix(|now|);
    assert (was + [x])[..|was|] == was && (now + [d])[..|now|] == now;
    assert PowRadix(|now| + 1) == RADIX * p by { RadixNext(|now|); }
    DigitStep(x, carry, p);
  }

  lemma {:induction false} DigitStep(x: nat, carry: nat, p: nat)
    ensures var work := carry + 10 * x;
            work % RADIX * p + Times(work / RADIX, RADIX * p) == Times(carry, p) + 10 * (x * p)
  {
    var work := carry + 10 * x;
    assert work == work / RADIX * RADIX + work % RADIX;
    assert work * p == (work / RADIX * RADIX + work % RADIX) * p;
    assert work * p == carry * p + 10 * (x * p);
  }

  // ----- room for the digits -----

  const LOG_TO_BASE_2_OF_10: real := 3.3219280948873623478703194294893901758651

  function MaximumUsefulDigits(precision: nat): int
    requires precision >= 2
  {
    ((precision - 2) as real * 16.0 / LOG_TO_BASE_2_OF_10 + 2.0).Floor
  }

  function BitsForDigits(digits: nat): int { (digits as real * LOG_TO_BASE_2_OF_10 + 1.0).Floor }

  function LittlenumsForDigits(digits: nat): int { BitsForDigits(digits) / 16 + 2 }

  /** The array is large enough for any number of digits that an int can count. */
  lemma {:induction false} EnoughLittlenums(digits: nat)
    requires digits <= INT_MAX
    ensures LittlenumsForDigits(digits) >= 2 && Pow10(digits) <= PowRadix(LittlenumsForDigits(digits))
  {
    hide Pow10, Pow2, PowRadix;
    var size := LittlenumsForDigits(digits);
    assert BitsForDigits(digits) as real > digits as real * LOG_TO_BASE_2_OF_10;
    assert 16 * size >= BitsForDigits(digits) + 17;
    assert 28738 * digits <= 16 * size * 8651;
    CloseRatio();
    SameRatio(digits, 16 * size, 8651, 28738);
    PowRadixIsPow2(size);
  }

  /** At least the guard digits are used. */
  lemma {:induction false} SomeDigits(precision: nat)
    requires precision >= 2
    ensures MaximumUsefulDigits(precision) >= 2
  {
  }

  // ----- all digits -----

  /** Where the digit number `n` is: the mark is in front of those after the first `before`. */
  function Place(first: nat, before: nat, n: nat): nat { if n < before then first + n else first + n + 1 }

  /** `use` digits of the text, with a mark behind the first `before` if there are more. */
  ghost predicate Usable(text: seq<char>, first: nat, before: nat, use: nat) {
    && (forall n :: 0 <= n < use ==> Place(first, before, n) < |text| && IsDigit(text[Place(first, before, n)]))
    && (use > before ==> first + before < |text| && !IsDigit(text[first + before]))
  }

  ghost function Used(text: seq<char>, first: nat, before: nat, n: nat): (s: seq<char>)
    requires forall i :: 0 <= i < n ==> Place(first, before, i) < |text|
    ensures |s| == n && forall i :: 0 <= i < n ==> s[i] == text[Place(first, before, i)]
  {
    seq(n, i requires 0 <= i < n => text[Place(first, before, i)])
  }

  lemma {:induction false} UsedDigits(text: seq<char>, first: nat, before: nat, use: nat, n: nat)
    requires Usable(text, first, before, use) && n <= use
    ensures AllDigits(Used(text, first, before, n))
  {
    assert forall i :: 0 <= i < n ==> IsDigit(text[Place(first, before, i)]);
  }

  lemma {:induction false} UsedNext(text: seq<char>, first: nat, before: nat, use: nat, n: nat)
    requires Usable(text, first, before, use) && n < use
    ensures AllDigits(Used(text, first, before, n)) && AllDigits(Used(text, first, before, n + 1))
    ensures Number(Used(text, first, before, n + 1))
            == 10 * Number(Used(text, first, before, n)) + DigitOf(text[Place(first, before, n)])
  {
    UsedDigits(text, first, before, use, n);
    UsedDigits(text, first, before, use, n + 1);
    var u := Used(text, first, before, n + 1);
    assert u[..n] == Used(text, first, before, n);
  }

  /** A carry out of a number below the size of the array is impossible. */
  lemma {:induction false} NoCarry(v: nat, carry: nat, p: nat, total: nat)
    requires v + Times(carry, p) == total < p
    ensures carry == 0
  {
    if carry > 0 { TimesMonotone(1, carry, p); }
  }

  lemma {:induction false} UsedFits(text: seq<char>, first: nat, before: nat, use: nat, n: nat, size: nat)
    requires Usable(text, first, before, use) && n <= use && Pow10(use) <= PowRadix(size)
    ensures AllDigits(Used(text, first, before, n)) && Number(Used(text, first, before, n)) < PowRadix(size)
  {
    hide Used, Number, PowRadix;
    UsedDigits(text, first, before, use, n);
    NumberBound(Used(text, first, before, n));
    Pow10Monotone(n, use);
  }

  lemma {:induction false} Pow10Monotone(m: nat, n: nat)
    requires m <= n
    ensures Pow10(m) <= Pow10(n)
    decreases n
  {
    if m < n { Pow10Monotone(m, n - 1); }
  }

  lemma {:induction false} ZeroArray(s: seq<littlenum>)
    requires forall i :: 0 <= i < |s| ==> s[i] == 0
    ensures Value(s) == 0
    decreases |s|
  {
    if s != [] { ZeroArray(s[..|s| - 1]); }
  }

  /** One digit into the array: the carry that would abort the program is always zero. */
  method UseDigit(a: array<littlenum>, text: seq<char>, first: nat, before: nat, ghost use: nat, n: nat)
    requires Usable(text, first, before, use) && n < use && Pow10(use) <= PowRadix(a.Length)
    requires AllDigits(Used(text, first, before, n)) && Value(a[..]) == Number(Used(text, first, before, n))
    modifies a
    ensures AllDigits(Used(text, first, before, n + 1)) && Value(a[..]) == Number(Used(text, first, before, n + 1))
  {
    hide Used, Number, PowRadix, Pow10, Value, DigitOf;
    UsedNext(text, first, before, use, n);
    UsedFits(text, first, before, use, n + 1, a.Length);
    var carry := TimesTenPlus(a, DigitOf(text[Place(first, before, n)]));
    NoCarry(Value(a[..]), carry, PowRadix(a.Length), Number(Used(text, first, before, n + 1)));
    assert carry == 0;
    assert Times(0, PowRadix(a.Length)) == 0;
  }

  /** The Horner loop over the digits, which steps over the mark. */
  method Convert(text: seq<char>, first: nat, before: nat, use: nat, size: nat) returns (a: array<littlenum>)
    requires Usable(text, first, before, use) && Pow10(use) <= PowRadix(size)
    ensures fresh(a) && AllDigits(Used(text, first, before, use))
    ensures Value(a[..]) == Number(Used(text, first, before, use))
  {
    hide Number, PowRadix, Pow10, Value, DigitOf, Used;
    a := new littlenum[size](_ => 0);
    ZeroArray(a[..]);
    NoneUsed(text, first, before);
    var p, count := first, use;
    while count > 0
      invariant 0 <= count <= use && a.Length == size
      invariant first <= p <= first + (use - count) + 1
      invariant if p == first + (use - count) then use - count <= before
                else p == first + (use - count) + 1 && use - count >= before
      invariant AllDigits(Used(text, first, before, use - count))
      invariant Value(a[..]) == Number(Used(text, first, before, use - count))
      decreases count, first + use + 1 - p
    {
      ghost var n := use - count;
      assert IsDigit(text[Place(first, before, n)]);
      if IsDigit(text[p]) {
        assert p == Place(first, before, n);
        UseDigit(a, text, first, before, use, use - count);
        count := count - 1;
      }
      p := p + 1;
    }
  }

  lemma {:induction false} NoneUsed(text: seq<char>, first: nat, before: nat)
    ensures AllDigits(Used(text, first, before, 0)) && Number(Used(text, first, before, 0)) == 0
  {
  }
}
