/** Strings of decimal digits and their values. */
module DecimalDigits {
  import opened Arithmetic

  predicate IsDigit(c: char) { '0' <= c <= '9' }

  function DigitOf(c: char): (d: nat)
    requires IsDigit(c)
    ensures d < 10
  {
    c as int - '0' as int
  }

  predicate AllDigits(s: seq<char>) { forall i :: 0 <= i < |s| ==> IsDigit(s[i]) }

  predicate AllZeros(s: seq<char>) { forall i :: 0 <= i < |s| ==> s[i] == '0' }

  function Pow10(n: nat): (p: nat)
    ensures p > 0
  {
    if n == 0 then 1 else 10 * Pow10(n - 1)
  }

  lemma {:induction false} Pow10Adds(m: nat, n: nat)
    ensures Pow10(m + n) == Pow10(m) * Pow10(n)
    decreases n
  {
    if n > 0 { Pow10Adds(m, n - 1); }
  }

  function Number(s: seq<char>): nat
    requires AllDigits(s)
  {
    if s == [] then 0 else 10 * Number(s[..|s| - 1]) + DigitOf(s[|s| - 1])
  }

  lemma {:induction false} NumberBound(s: seq<char>)
    requires AllDigits(s)
    ensures Number(s) < Pow10(|s|)
    decreases |s|
  {
    if s != [] { NumberBound(s[..|s| - 1]); }
  }

  lemma {:induction false} NumberConcat(xs: seq<char>, ys: seq<char>)
    requires AllDigits(xs) && AllDigits(ys)
    ensures AllDigits(xs + ys) && Number(xs + ys) == Times(Number(xs), Pow10(|ys|)) + Number(ys)
    decreases |ys|
  {
    if ys == [] {
      assert xs + ys == xs;
    } else {
      var y := ys[..|ys| - 1];
      NumberConcat(xs, y);
      assert (xs + ys)[..|xs + ys| - 1] == xs + y;
      NextDigit(Number(xs), Pow10(|y|), Number(y));
    }
  }

  lemma {:induction false} NextDigit(x: nat, p: nat, y: nat)
    ensures 10 * (Times(x, p) + y) == Times(x, 10 * p) + 10 * y
  {
  }

  lemma {:induction false} ZeroNumber(s: seq<char>)
    requires AllDigits(s)
    ensures Number(s) == 0 <==> AllZeros(s)
    decreases |s|
  {
    if s != [] {
      ZeroNumber(s[..|s| - 1]);
      assert AllZeros(s) <==> AllZeros(s[..|s| - 1]) && s[|s| - 1] == '0';
    }
  }

  /** The end of the run of digits that starts at `i`. */
  function RunEnd(text: seq<char>, i: nat): (j: nat)
    requires i <= |text|
    ensures i <= j <= |text|
    ensures AllDigits(text[i..j]) && (j < |text| ==> !IsDigit(text[j]))
    decreases |text| - i
  {
    if i < |text| && IsDigit(text[i]) then
      var j := RunEnd(text, i + 1);
      assert text[i..j] == [text[i]] + text[i + 1..j];
      j
    else i
  }
}
