/**
 The members of an ar archive as bytes: a 60-byte header, possibly a long name,
 the contents, and a byte that keeps the next member on an even offset.
 */
module ArFormat {
  import opened Powers
  import opened Arithmetic
  import opened Bytes

  const SPACE: byte := 32
  const NEWLINE: byte := 10
  const SLASH: byte := 47

  /** ARMAG, ARFMAG and AR_EFMT1. */
  const MAGIC: seq<byte> := [33, 60, 97, 114, 99, 104, 62, 10]
  const FMAG: seq<byte> := [96, 10]
  const LONG_NAME: seq<byte> := [35, 49, 47]

  const HEADER_SIZE := 60
  const MAXNAMLEN := 255

  // ----- numbers in header fields -----

  lemma {:induction false} QuotientSmaller(n: nat, base: nat)
    requires base >= 2 && n >= base
    ensures Quotient(n, base) < n && Times(Quotient(n, base), base) + Remainder(n, base) == n
  {
    hide Quotient, Remainder, Times;
    QuotientShrinks(n, base);
    Recomposed(n, base);
  }

  function Digits(n: nat, base: nat): (s: seq<byte>)
    requires 2 <= base <= 10
    ensures |s| > 0
    decreases n
  {
    if n < base then [48 + n]
    else
      QuotientSmaller(n, base);
      Digits(Quotient(n, base), base) + [48 + Remainder(n, base)]
  }

  predicate IsDigit(b: byte, base: nat) { 48 <= b < 48 + base }

  /** The value of the digits that `s` begins with, behind digits worth `acc`. */
  function Leading(s: seq<byte>, base: nat, acc: nat): nat
    decreases |s|
  {
    if s != [] && IsDigit(s[0], base) then Leading(s[1..], base, Times(acc, base) + (s[0] - 48)) else acc
  }

  /** strtol on a field: white space, a sign, and digits. */
  function Strtol(s: seq<byte>, base: nat): int
    decreases |s|
  {
    if s == [] then 0
    else if s[0] == SPACE || 9 <= s[0] <= 13 then Strtol(s[1..], base)
    else if s[0] == 43 then Leading(s[1..], base, 0)
    else if s[0] == 45 then (var v: int := Leading(s[1..], base, 0); -v)
    else Leading(s, base, 0)
  }

  /** atoi on a field: a long, of which an int is left. */
  function Atoi(s: seq<byte>): int {
    var v := Strtol(s, 10);
    Signed32(if v > LONG_MAX then LONG_MAX else if v < -LONG_MAX - 1 then -LONG_MAX - 1 else v)
  }

  lemma {:induction false} LeadingStep(d: nat, t: seq<byte>, base: nat, acc: nat)
    requires d < base <= 10
    ensures Leading([48 + d] + t, base, acc) == Leading(t, base, Times(acc, base) + d)
  {
    assert ([48 + d] + t)[1..] == t;
  }

  lemma {:induction false} LeadingDigits(n: nat, base: nat, t: seq<byte>)
    requires 2 <= base <= 10
    ensures Leading(Digits(n, base) + t, base, 0) == Leading(t, base, n)
    decreases n
  {
    hide Leading, Quotient, Remainder;
    if n < base {
      LeadingStep(n, t, base, 0);
    } else {
      QuotientSmaller(n, base);
      var q, r := Quotient(n, base), Remainder(n, base);
      assert Digits(n, base) + t == Digits(q, base) + ([48 + r] + t);
      LeadingDigits(q, base, [48 + r] + t);
      LeadingStep(r, t, base, q);
    }
  }

  lemma {:induction false} DigitsAreDigits(n: nat, base: nat)
    requires 2 <= base <= 10
    ensures forall i :: 0 <= i < |Digits(n, base)| ==> IsDigit(Digits(n, base)[i], base)
    decreases n
  {
    hide Quotient, Remainder;
    if n >= base {
      QuotientSmaller(n, base);
      DigitsAreDigits(Quotient(n, base), base);
    }
  }

  function Spaces(n: nat): (s: seq<byte>)
    ensures |s| == n
  {
    seq(n, _ => SPACE)
  }

  /** A field padded with spaces on the right; nothing is cut off. */
  function Field(s: seq<byte>, width: nat): (f: seq<byte>)
    ensures |f| == if |s| <= width then width else |s|
  {
    if |s| <= width then s + Spaces(width - |s|) else s
  }

  /** A number in a field is read back. */
  lemma {:induction false} FieldRead(n: nat, base: nat, width: nat, t: seq<byte>)
    requires 2 <= base <= 10 && (|Digits(n, base)| < width || t == [] || !IsDigit(t[0], base))
    ensures Strtol(Field(Digits(n, base), width) + t, base) == n
  {
    var d := Digits(n, base);
    DigitsAreDigits(n, base);
    var rest := if |d| <= width then Spaces(width - |d|) + t else t;
    assert Field(d, width) + t == d + rest;
    LeadingDigits(n, base, rest);
  }

  /** A number has at most `k` digits exactly if it is below the power. */
  lemma {:induction false} DigitsFit(n: nat, base: nat, k: nat)
    requires 2 <= base <= 10 && k > 0
    ensures |Digits(n, base)| <= k <==> n < Power(base, k)
    decreases n
  {
    hide Quotient, Remainder;
    if n < base {
      PowerGrows(base, k);
    } else {
      if k == 1 {
        assert Power(base, 1) == base;
      } else {
        QuotientSmaller(n, base);
        DigitsFit(Quotient(n, base), base, k - 1);
        QuotientBelow(n, base, Power(base, k - 1));
      }
    }
  }

  lemma {:induction false} PowerGrows(base: nat, k: nat)
    requires base >= 2 && k > 0
    ensures Power(base, k) >= base
    decreases k
  {
    if k > 1 { PowerGrows(base, k - 1); } else { assert Power(base, 0) == 1; }
  }

  lemma {:induction false} QuotientBelow(n: nat, base: nat, p: nat)
    requires base > 0
    ensures Quotient(n, base) < p <==> n < Times(base, p)
  {
    var q, r := n / base, n % base;
    assert n == q * base + r;
    if q < p { TimesMonotone(q + 1, p, base); } else { TimesMonotone(p, q, base); }
  }
}
