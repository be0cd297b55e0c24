/** The widths of C's integers, and facts about division and remainder that several models share. */
module Arithmetic {

  const INT_MAX := 0x7fff_ffff
  const LONG_MAX := 0x7fff_ffff_ffff_ffff
  const MOD32 := 0x1_0000_0000

  /** Reading the low 32 bits as an int. */
  function Signed32(n: int): (v: int)
    ensures -INT_MAX - 1 <= v <= INT_MAX && (v - n) % MOD32 == 0
  {
    var m := n % MOD32;
    if m > INT_MAX then m - MOD32 else m
  }

  /** Quotient and remainder are unique. */
  lemma {:induction false} DivModUnique(x: int, k: int, m: int, n: int)
    requires 0 <= m < n && x == k * n + m
    ensures x / n == k && x % n == m
  {
    var d := x / n - k;
    assert d * n == m - x % n;
    assert d > 0 ==> d * n >= n;
    assert d < 0 ==> d * n <= -n;
  }

  lemma {:induction false} ModShift(y: int, q: int, n: int)
    requires n > 0
    ensures (y + q * n) % n == y % n
  {
    var k := y / n;
    assert y + q * n == (k + q) * n + y % n;
    DivModUnique(y + q * n, k + q, y % n, n);
  }

  /** Reducing part way makes no difference. */
  lemma {:induction false} ModAdds(x: int, a: int, b: int, n: int)
    requires n > 0
    ensures (((x + a) % n) + b) % n == (x + (a + b)) % n
  {
    var q := (x + a) / n;
    assert x + a == q * n + (x + a) % n;
    ModShift((x + a) % n + b, q, n);
  }

  function Times(a: nat, b: nat): nat { a * b }

  function Quotient(a: nat, b: nat): nat
    requires b > 0
  {
    a / b
  }

  function Remainder(a: nat, b: nat): (r: nat)
    requires b > 0
    ensures r < b
  {
    a % b
  }

  lemma {:induction false} Recomposed(a: nat, b: nat)
    requires b > 0
    ensures Times(Quotient(a, b), b) + Remainder(a, b) == a
  {
  }

  lemma {:induction false} QuotientShrinks(a: nat, b: nat)
    requires a > 0 && b >= 2
    ensures Quotient(a, b) < a
  {
    hide Quotient, Remainder;
    var q := Quotient(a, b);
    Recomposed(a, b);
    TimesMonotone(2, b, q);
    TimesSwaps(q, b);
  }

  lemma {:induction false} TimesSwaps(a: nat, b: nat)
    ensures Times(a, b) == b * a
  {
  }

  lemma {:induction false} TimesMonotone(a: nat, b: nat, c: nat)
    requires a <= b
    ensures a * c <= b * c
  {
    assert b * c - a * c == (b - a) * c;
  }
}
