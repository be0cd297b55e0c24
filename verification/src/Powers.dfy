/** Powers, and division by powers of two. */
module Powers {
  import opened Arithmetic

  function Pow2(n: nat): (p: nat)
    ensures p > 0
  {
    if n == 0 then 1 else 2 * Pow2(n - 1)
  }

  lemma {:induction false} PowZero()
    ensures Pow2(0) == 1
  {
  }

  lemma {:induction false} PowNext(n: nat)
    ensures Pow2(n + 1) == 2 * Pow2(n)
  {
  }

  function Power(b: nat, k: nat): nat { if k == 0 then 1 else Times(b, Power(b, k - 1)) }

  lemma {:induction false} Pow2Adds(m: nat, n: nat)
    ensures Pow2(m + n) == Pow2(m) * Pow2(n)
    decreases n
  {
    if n > 0 { Pow2Adds(m, n - 1); }
  }

  /** Dividing a number with a low part by a multiple of what the low part is below. */
  lemma {:induction false} DivSplit(a: nat, c: nat, b: nat, w: nat)
    requires c > 0 && w < b
    ensures c * b > 0 && (a * b + w) / (c * b) == a / c && (a * b + w) % (c * b) == a % c * b + w
  {
    var q, r := a / c, a % c;
    assert a == q * c + r;
    assert r * b + w < c * b by { assert (r + 1) * b <= c * b; }
    assert a * b + w == q * (c * b) + (r * b + w);
    DivModUnique(a * b + w, q, r * b + w, c * b);
  }

  /** The bits of `x` between two places, taken off either way. */
  lemma {:induction false} MiddleBits(x: nat, p: nat, q: nat)
    requires p > 0 && q > 0
    ensures p * q > 0 && x % (p * q) / q == x / q % p && x % (p * q) % q == x % q
  {
    var a, w := x / q, x % q;
    assert x == a * q + w;
    DivSplit(a, p, q, w);
    var b := a % p;
    DivModUnique(b * q + w, b, w, q);
  }
}
