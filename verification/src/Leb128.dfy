/**
 LEB128 numbers, section 7.6 of the DWARF 3 specification: what they encode,
 and the assembler's loops that size and write them.
 */
module Leb128 {
  import opened Wrappers
  import opened Bytes

  // ----- unsigned -----

  function Uleb(n: nat): (s: seq<byte>)
    ensures |s| > 0
  {
    if n < 128 then [n] else [n % 128 + 128] + Uleb(n / 128)
  }

  /** A decoded number and the bytes after it. */
  datatype Decoded = Decoded(value: int, rest: seq<byte>)

  function DecodeUleb(s: seq<byte>): (r: Option<Decoded>)
    ensures r.Some? ==> r.value.value >= 0 && |r.value.rest| < |s|
    decreases |s|
  {
    if s == [] then None
    else if s[0] < 128 then Some(Decoded(s[0], s[1..]))
    else
      var high := DecodeUleb(s[1..]);
      if high.None? then None else Some(Decoded(s[0] - 128 + 128 * high.value.value, high.value.rest))
  }

  lemma {:induction false} UlebRoundTrip(n: nat, rest: seq<byte>)
    ensures DecodeUleb(Uleb(n) + rest) == Some(Decoded(n, rest))
    decreases n
  {
    if n < 128 {
      DecodeFirst(n, rest);
      assert Uleb(n) == [n];
    } else {
      hide Uleb, DecodeUleb;
      var q, r := n / 128, n % 128;
      UlebRoundTrip(q, rest);
      DecodeFirst(r + 128, Uleb(q) + rest);
      assert Uleb(n) + rest == [r + 128] + (Uleb(q) + rest) by { UlebFirst(n); }
    }
  }

  lemma {:induction false} UlebFirst(n: nat)
    requires n >= 128
    ensures Uleb(n) == [n % 128 + 128] + Uleb(n / 128)
  {
  }

  lemma {:induction false} DecodeFirst(b: byte, s: seq<byte>)
    ensures DecodeUleb([b] + s) ==
            if b < 128 then Some(Decoded(b, s))
            else var high := DecodeUleb(s);
                 if high.None? then None else Some(Decoded(b - 128 + 128 * high.value.value, high.value.rest))
  {
    assert ([b] + s)[1..] == s;
  }

  /** More significant numbers are not shorter. */
  lemma {:induction false} UlebGrows(m: nat, n: nat)
    requires m <= n
    ensures |Uleb(m)| <= |Uleb(n)|
    decreases n
  {
    if m >= 128 { UlebGrows(m / 128, n / 128); }
  }

  // ----- signed -----

  /** `value >> 7` with the sign kept. */
  function Shift7(v: int): int { v / 128 }

  /** The loop's exit test: the rest is only a copy of the sign bit of this byte. */
  predicate SlebDone(v: int) {
    (Shift7(v) == 0 && v % 128 < 64) || (Shift7(v) == -1 && v % 128 >= 64)
  }

  function Sleb(v: int): (s: seq<byte>)
    ensures |s| > 0
    decreases if v >= 0 then v else -v - 1
  {
    if SlebDone(v) then [v % 128] else [v % 128 + 128] + Sleb(Shift7(v))
  }

  function DecodeSleb(s: seq<byte>): (r: Option<Decoded>)
    ensures r.Some? ==> |r.value.rest| < |s|
    decreases |s|
  {
    if s == [] then None
    else if s[0] < 128 then
      var b: int := s[0];
      Some(Decoded(if b < 64 then b else b - 128, s[1..]))
    else
      var high := DecodeSleb(s[1..]);
      if high.None? then None else Some(Decoded(s[0] - 128 + 128 * high.value.value, high.value.rest))
  }

  lemma {:induction false} SlebRoundTrip(v: int, rest: seq<byte>)
    ensures DecodeSleb(Sleb(v) + rest) == Some(Decoded(v, rest))
    decreases if v >= 0 then v else -v - 1
  {
    if SlebDone(v) {
      assert ([v % 128] + rest)[1..] == rest;
    } else {
      SlebRoundTrip(Shift7(v), rest);
      assert (Sleb(v) + rest)[1..] == Sleb(Shift7(v)) + rest;
    }
  }

  // ----- the assembler's loops -----

  method SizeofUleb(value: nat) returns (size: nat)
    ensures size == |Uleb(value)|
  {
    var v := value;
    size := 1;
    while v / 128 != 0
      invariant size + |Uleb(v)| == 1 + |Uleb(value)|
      decreases v
    {
      v := v / 128;
      size := size + 1;
    }
  }

  method SizeofSleb(value: int) returns (size: nat)
    ensures size == |Sleb(value)|
  {
    var v := value;
    size := 1;
    while !SlebDone(v)
      invariant size + |Sleb(v)| == 1 + |Sleb(value)|
      decreases if v >= 0 then v else -v - 1
    {
      v := Shift7(v);
      size := size + 1;
    }
  }

  /** output_uleb128: writes at `p`, returns the position after the last byte. */
  method OutputUleb(buf: array<byte>, p: nat, value: nat) returns (q: nat)
    requires p + |Uleb(value)| <= buf.Length
    modifies buf
    ensures q == p + |Uleb(value)|
    ensures buf[..] == Splice(old(buf[..]), p, Uleb(value))
  {
    hide Splice;
    var v := value;
    q := p;
    ghost var done: seq<byte> := [];
    SpliceNothing(buf[..], p);
    while v >= 128
      invariant q == p + |done| && done + Uleb(v) == Uleb(value)
      invariant buf[..] == Splice(old(buf[..]), p, done)
      decreases v
    {
      var b := v % 128 + 128;
      q := Put(buf, q, b);
      SpliceTwice(old(buf[..]), p, done, [b]);
      assert done + ([b] + Uleb(v / 128)) == done + [b] + Uleb(v / 128);
      done := done + [b];
      v := v / 128;
    }
    q := Put(buf, q, v);
    SpliceTwice(old(buf[..]), p, done, [v]);
  }

  /** output_sleb128. */
  method OutputSleb(buf: array<byte>, p: nat, value: int) returns (q: nat)
    requires p + |Sleb(value)| <= buf.Length
    modifies buf
    ensures q == p + |Sleb(value)|
    ensures buf[..] == Splice(old(buf[..]), p, Sleb(value))
  {
    hide Splice;
    var v := value;
    q := p;
    ghost var done: seq<byte> := [];
    SpliceNothing(buf[..], p);
    while !SlebDone(v)
      invariant q == p + |done| && done + Sleb(v) == Sleb(value)
      invariant buf[..] == Splice(old(buf[..]), p, done)
      decreases if v >= 0 then v else -v - 1
    {
      var b := v % 128 + 128;
      q := Put(buf, q, b);
      SpliceTwice(old(buf[..]), p, done, [b]);
      assert done + ([b] + Sleb(Shift7(v))) == done + [b] + Sleb(Shift7(v));
      done := done + [b];
      v := Shift7(v);
    }
    q := Put(buf, q, v % 128);
    SpliceTwice(old(buf[..]), p, done, [v % 128]);
  }
}
