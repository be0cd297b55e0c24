/**
 The scanner of atof-generic.c: it finds the significant digits of a decimal
 literal, skipping zeros at either end, and the power of ten they go with.
 */
module DecimalScan {
  import opened DecimalDigits

  /** A literal without its sign: digits, a mark, more digits, and an exponent. */
  datatype Literal = Literal(pre: seq<char>, post: seq<char>, exponent: int, end: nat)

  predicate IsExponentMark(c: char) { c == 'e' || c == 'E' }

  predicate IsSign(c: char) { c == '+' || c == '-' }

  function Exponent(text: seq<char>, i: nat): (r: (int, nat))
    requires i <= |text|
    ensures i <= r.1 <= |text|
  {
    if i < |text| && IsExponentMark(text[i]) then
      var signed := i + 1 < |text| && IsSign(text[i + 1]);
      var k := if signed then i + 2 else i + 1;
      var n := RunEnd(text, k);
      var x: int := Number(text[k..n]);
      (if signed && text[i + 1] == '-' then -x else x, n)
    else (0, i)
  }

  function Parse(text: seq<char>, start: nat): (l: Literal)
    requires start <= |text|
    ensures AllDigits(l.pre) && AllDigits(l.post) && start <= l.end <= |text|
  {
    var j := RunEnd(text, start);
    if j < |text| && text[j] == '.' then
      var k := RunEnd(text, j + 1);
      var (x, n) := Exponent(text, k);
      Literal(text[start..j], text[j + 1..k], x, n)
    else
      var (x, n) := Exponent(text, j);
      Literal(text[start..j], [], x, n)
  }

  /** What the scanner has found of the digits: `before` of them from `first` on, and `after` behind the mark. */
  ghost predicate Trimmed(text: seq<char>, start: nat, first: nat, before: nat, after: nat)
    requires start <= |text|
  {
    var l := Parse(text, start);
    && start <= first && first - start + before == |l.pre| && AllZeros(l.pre[..first - start])
    && (before > 0 ==> l.pre[first - start] != '0')
    && after <= |l.post| && AllZeros(l.post[after..]) && (after > 0 ==> l.post[after - 1] != '0')
  }

  predicate ZerosIn(text: seq<char>, lo: nat, hi: nat)
    requires hi <= |text|
  {
    forall i :: lo <= i < hi ==> text[i] == '0'
  }

  /** The digits before the mark. */
  method ScanBefore(text: seq<char>, start: nat) returns (first: nat, before: nat, seen: bool, p: nat)
    requires start <= |text|
    ensures p == RunEnd(text, start) && start <= first && first + before == p
    ensures ZerosIn(text, start, first) && (before > 0 ==> text[first] != '0') && seen == (before > 0)
  {
    hide AllDigits;
    first, before, seen, p := start, 0, false, start;
    while p < |text| && text[p] != '.' && !IsExponentMark(text[p])
      invariant start <= first && first + before == p <= |text|
      invariant RunEnd(text, p) == RunEnd(text, start)
      invariant ZerosIn(text, start, first) && (before > 0 ==> text[first] != '0') && seen == (before > 0)
    {
      if !IsDigit(text[p]) { break; }
      if seen || text[p] > '0' {
        before := before + 1;
        seen := true;
      } else {
        first := first + 1;
      }
      p := p + 1;
    }
  }

  /** The digits after the mark, which is behind the ones before it. */
  method CountAfter(text: seq<char>, mark: nat, seen0: bool) returns (after: nat, p: nat)
    requires mark < |text|
    ensures p == RunEnd(text, mark + 1) && mark + 1 + after <= p && ZerosIn(text, mark + 1 + after, p)
  {
    hide AllDigits;
    var seen := seen0;
    after, p := 0, mark + 1;
    while p < |text| && !IsExponentMark(text[p])
      invariant p == mark + 1 + after <= |text|
      invariant RunEnd(text, p) == RunEnd(text, mark + 1)
      invariant !seen ==> ZerosIn(text, mark + 1, p)
    {
      if !IsDigit(text[p]) {
        if !seen { after := 0; }
        break;
      }
      after := after + 1;
      if text[p] > '0' { seen := true; }
      p := p + 1;
    }
  }

  /** Zeros at the end are retracted. */
  method Retract(text: seq<char>, mark: nat, counted: nat, ghost p: nat) returns (after: nat)
    requires mark + 1 + counted <= p <= |text| && ZerosIn(text, mark + 1 + counted, p)
    ensures after <= counted && ZerosIn(text, mark + 1 + after, p) && (after > 0 ==> text[mark + after] != '0')
  {
    after := counted;
    while after > 0 && text[mark + after] == '0'
      invariant after <= counted && ZerosIn(text, mark + 1 + after, p)
    {
      after := after - 1;
    }
  }

  lemma {:induction false} NoDigits(text: seq<char>, k: nat)
    requires k <= |text|
    ensures AllDigits(text[k..k]) && Number(text[k..k]) == 0
  {
  }

  /** One more digit of a run. */
  lemma {:induction false} DigitAdded(text: seq<char>, k: nat, p: nat)
    requires k <= p < |text| && AllDigits(text[k..p]) && IsDigit(text[p])
    ensures AllDigits(text[k..p + 1]) && Number(text[k..p + 1]) == Number(text[k..p]) * 10 + DigitOf(text[p])
    ensures RunEnd(text, p) == RunEnd(text, p + 1)
  {
    hide DigitOf;
    var more := text[k..p + 1];
    assert more[..p - k] == text[k..p] && more[p - k] == text[p];
  }

  /** A run ends at a character that is no digit, or with the text. */
  lemma {:induction false} RunStops(text: seq<char>, p: nat)
    requires p <= |text| && (p < |text| ==> !IsDigit(text[p]))
    ensures RunEnd(text, p) == p
  {
  }

  method ScanNumber(text: seq<char>, k: nat) returns (x: nat, p: nat)
    requires k <= |text|
    ensures p == RunEnd(text, k) && x == Number(text[k..p])
  {
    hide DigitOf, Number, AllDigits, RunEnd, IsDigit;
    x, p := 0, k;
    NoDigits(text, k);
    while p < |text|
      invariant k <= p <= |text| && RunEnd(text, p) == RunEnd(text, k)
      invariant AllDigits(text[k..p]) && x == Number(text[k..p])
    {
      if !IsDigit(text[p]) { break; }
      DigitAdded(text, k, p);
      x := x * 10 + DigitOf(text[p]);
      p := p + 1;
    }
    RunStops(text, p);
  }

  /** The exponent behind the digits. */
  method ScanExponent(text: seq<char>, i: nat) returns (exponent: int, p: nat)
    requires i <= |text|
    ensures (exponent, p) == Exponent(text, i)
  {
    hide RunEnd, Number;
    exponent, p := 0, i;
    if i < |text| && IsExponentMark(text[i]) {
      p := p + 1;
      var sign := '+';
      if p < |text| && IsSign(text[p]) {
        sign := text[p];
        p := p + 1;
      }
      exponent, p := ScanNumber(text, p);
      if sign == '-' { exponent := -exponent; }
    }
  }

  /** The scanner up to the end of the literal. */
  method Scan(text: seq<char>, start: nat) returns (first: nat, before: nat, after: nat, exponent: int, p: nat)
    requires start <= |text|
    ensures Trimmed(text, start, first, before, after)
    ensures exponent == Parse(text, start).exponent && p == Parse(text, start).end
  {
    hide RunEnd, Exponent, AllDigits;
    var seen;
    first, before, seen, p := ScanBefore(text, start);
    after := 0;
    if p < |text| && text[p] == '.' {
      var mark := p;
      after, p := CountAfter(text, mark, seen);
      after := Retract(text, mark, after, p);
    }
    exponent, p := ScanExponent(text, p);
  }
}
