/** What the scanner's digits and power of ten are worth, compared with the literal. */
module DecimalExact {
  import opened Arithmetic
  import opened BitStream
  import opened DecimalDigits
  import opened DecimalScan
  import opened DecimalValue

  function StripLeading(s: seq<char>): seq<char> { if s != [] && s[0] == '0' then StripLeading(s[1..]) else s }

  function StripTrailing(s: seq<char>): seq<char> {
    if s != [] && s[|s| - 1] == '0' then StripTrailing(s[..|s| - 1]) else s
  }

  /** The digits of a literal without the zeros in front of the mark's left part and behind its right part. */
  function Significant(l: Literal): seq<char> { StripLeading(l.pre) + StripTrailing(l.post) }

  lemma {:induction false} StrippedLeading(s: seq<char>, k: nat)
    requires k <= |s| && AllZeros(s[..k]) && (k < |s| ==> s[k] != '0')
    ensures StripLeading(s) == s[k..]
    decreases k
  {
    if k > 0 {
      assert s[..k][0] == '0';
      assert s[1..][..k - 1] == s[..k][1..];
      StrippedLeading(s[1..], k - 1);
    }
  }

  lemma {:induction false} StrippedTrailing(s: seq<char>, k: nat)
    requires k <= |s| && AllZeros(s[k..]) && (k > 0 ==> s[k - 1] != '0')
    ensures StripTrailing(s) == s[..k]
    decreases |s|
  {
    if k < |s| {
      assert s[k..][|s| - 1 - k] == '0';
      var t := s[..|s| - 1];
      assert forall i :: 0 <= i < |t| - k ==> t[k..][i] == s[k..][i];
      StrippedTrailing(t, k);
    }
  }

  // ----- values -----

  lemma {:induction false} ZerosInFront(z: seq<char>, s: seq<char>)
    requires AllZeros(z) && AllDigits(s)
    ensures AllDigits(z + s) && Number(z + s) == Number(s)
  {
    ZeroNumber(z);
    NumberConcat(z, s);
  }

  lemma {:induction false} ZerosBehind(s: seq<char>, z: seq<char>)
    requires AllZeros(z) && AllDigits(s)
    ensures AllDigits(s + z) && Number(s + z) == Times(Number(s), Pow10(|z|))
  {
    ZeroNumber(z);
    NumberConcat(s, z);
  }

  /** Dropping the zeros at both ends of a literal only takes out a power of ten. */
  lemma {:induction false} TrimmedValue(l: Literal, k: nat, after: nat)
    requires AllDigits(l.pre) && AllDigits(l.post) && k <= |l.pre| && after <= |l.post|
    requires AllZeros(l.pre[..k]) && AllZeros(l.post[after..])
    ensures var sig := l.pre[k..] + l.post[..after];
            AllDigits(sig) && Number(l.pre + l.post) == Times(Number(sig), Pow10(|l.post| - after))
  {
    hide Number, Pow10;
    var sig := l.pre[k..] + l.post[..after];
    var z, t := l.pre[..k], l.post[after..];
    assert l.pre + l.post == z + (sig + t);
    ZerosBehind(sig, t);
    ZerosInFront(z, sig + t);
  }

  /** Whether `d` times ten to the `k` is the number `n`, or only what is left of it when `k` digits are cut off. */
  ghost predicate CutOff(d: nat, k: nat, n: nat, exact: bool) {
    && Times(d, Pow10(k)) <= n < Times(d + 1, Pow10(k))
    && (exact <==> Times(d, Pow10(k)) == n)
  }

  /** Using only the first digits cuts the number off, and is exact if only zeros are lost. */
  lemma {:induction false} FirstDigits(sig: seq<char>, use: nat, z: nat)
    requires AllDigits(sig) && use <= |sig|
    ensures AllDigits(sig[..use])
    ensures CutOff(Number(sig[..use]), |sig| - use + z, Times(Number(sig), Pow10(z)), AllZeros(sig[use..]))
  {
    hide Number, Pow10;
    var d, r := sig[..use], sig[use..];
    assert sig == d + r;
    NumberConcat(d, r);
    NumberBound(r);
    ZeroNumber(r);
    Pow10Adds(|r|, z);
    CutArithmetic(Number(d), Pow10(|r|), Number(r), Pow10(z));
  }

  lemma {:induction false} CutArithmetic(d: nat, a: nat, r: nat, z: nat)
    requires r < a && z > 0
    ensures Times(d, a * z) <= Times(Times(d, a) + r, z) < Times(d + 1, a * z)
    ensures r == 0 <==> Times(d, a * z) == Times(Times(d, a) + r, z)
  {
    Spread(d, a, r, z);
    TimesMonotone(r + 1, a, z);
    if r > 0 { TimesMonotone(1, r, z); }
  }

  lemma {:induction false} Spread(d: nat, a: nat, r: nat, z: nat)
    ensures Times(Times(d, a) + r, z) == Times(d, a * z) + r * z
    ensures Times(d + 1, a * z) == Times(d, a * z) + a * z
  {
  }

  // ----- the whole conversion -----

  /** Where the scanner found digit number `n` of the significant ones. */
  lemma {:induction false} ScannedDigit(text: seq<char>, start: nat, first: nat, before: nat, after: nat, n: nat)
    requires start <= |text| && Trimmed(text, start, first, before, after) && n < before + after
    ensures var l := Parse(text, start);
            var sig := l.pre[first - start..] + l.post[..after];
            Place(first, before, n) < |text| && text[Place(first, before, n)] == sig[n] && IsDigit(sig[n])
  {
    hide RunEnd, Exponent;
    var l := Parse(text, start);
    if n < before {
      assert l.pre[first - start..][n] == l.pre[first - start + n];
    } else {
      assert l.post[..after][n - before] == l.post[n - before];
    }
  }

  /** The digits the scanner found are usable by the conversion, and are the significant ones. */
  lemma {:induction false} ScannedDigits(text: seq<char>, start: nat, first: nat, before: nat, after: nat, use: nat)
    requires start <= |text| && Trimmed(text, start, first, before, after) && use <= before + after
    ensures Usable(text, first, before, use)
    ensures var l := Parse(text, start);
            var sig := l.pre[first - start..] + l.post[..after];
            Used(text, first, before, use) == sig[..use] && sig == Significant(l)
  {
    hide Parse, Place;
    var l := Parse(text, start);
    var sig := l.pre[first - start..] + l.post[..after];
    StrippedLeading(l.pre, first - start);
    StrippedTrailing(l.post, after);
    forall n | 0 <= n < use
      ensures Place(first, before, n) < |text| && text[Place(first, before, n)] == sig[n] && IsDigit(sig[n])
    {
      ScannedDigit(text, start, first, before, after, n);
    }
    if use > before { MarkBetween(text, start, first, before, after); }
  }

  lemma {:induction false} MarkBetween(text: seq<char>, start: nat, first: nat, before: nat, after: nat)
    requires start <= |text| && Trimmed(text, start, first, before, after) && after > 0
    ensures first + before < |text| && !IsDigit(text[first + before])
  {
    hide RunEnd, Exponent;
  }

  /**
   atof_generic up to the power of ten: the digits times ten to the exponent are
   the literal cut off behind the useful digits, and exactly the literal if and
   only if no digit other than zero is cut off.
   */
  method AtofGeneric(text: seq<char>, start: nat, precision: nat) returns (digits: seq<littlenum>, exponent: int, end: nat)
    requires start <= |text| && 2 <= precision && MaximumUsefulDigits(precision) <= INT_MAX
    ensures end == Parse(text, start).end
    ensures var l := Parse(text, start);
            var sig, max := Significant(l), MaximumUsefulDigits(precision);
            var k := exponent - (l.exponent - |l.post|);
            && AllDigits(l.pre + l.post)
            && (sig == [] ==> digits == [] && exponent == 0 && Number(l.pre + l.post) == 0)
            && (sig != [] ==> 0 <= k && CutOff(Value(digits), k, Number(l.pre + l.post), |sig| <= max || AllZeros(sig[max..])))
  {
    hide Parse, Number, Pow10, Value, PowRadix, Used, Usable, CutOff, Significant, MaximumUsefulDigits, LittlenumsForDigits;
    ghost var l := Parse(text, start);
    var first, before, after;
    first, before, after, exponent, end := Scan(text, start);
    TrimmedValue(l, first - start, after);
    var available := before + after;
    SomeDigits(precision);
    var max := MaximumUsefulDigits(precision);
    var use := if available > max then max else available;
    ScannedDigits(text, start, first, before, after, use);
    ghost var sig := l.pre[first - start..] + l.post[..after];
    if available == 0 {
      assert Number(sig) == 0 by { ZeroNumber(sig); }
      assert Times(0, Pow10(|l.post| - after)) == 0;
      return [], 0, end;
    }
    exponent := exponent + before - use;
    EnoughLittlenums(use);
    var a := Convert(text, first, before, use, LittlenumsForDigits(use));
    FirstDigits(sig, use, |l.post| - after);
    digits := a[..];
    assert AllZeros(sig[use..]) <==> (|sig| <= max || AllZeros(sig[max..]));
  }
}
