/** A request packed by the user side is accepted by the server side, which reads the same values back. */
module MigRoundTrip {
  import opened Arithmetic
  import opened Bytes
  import opened MigLayout
  import opened MigUser
  import opened MigServer

  /** The argument a server finds at `at`. */
  function ValueAt(s: seq<byte>, at: nat, f: Field): Value {
    match f
    case Fixed(size) => Value(0, if at + size <= |s| then s[at..at + size] else [])
    case Array(elem, _) =>
      var n := if at + 4 <= |s| then ReadCount(s, at) else 0;
      Value(n, if at + 4 + elem * n <= |s| then s[at + 4..at + 4 + elem * n] else [])
  }

  function Received(s: seq<byte>, head: nat, fields: seq<Field>): (vals: seq<Value>)
    ensures |vals| == |fields|
  {
    var c := Arrivals(s, head, fields);
    seq(|fields|, i requires 0 <= i < |fields| => ValueAt(s, WireOffset(head, fields, c, i), fields[i]))
  }

  /** Reading the arguments through the checked pointers gives what is at their wire offsets. */
  method Extract(s: seq<byte>, head: nat, fields: seq<Field>, inPs: seq<int>) returns (vals: seq<Value>)
    requires Pointers(fields, Arrivals(s, head, fields), inPs, |fields|)
    ensures vals == Received(s, head, fields)
  {
    hide Arrivals, WireOffset, Shift, Offset, ValueAt, Pos;
    vals := [];
    ghost var c := Arrivals(s, head, fields);
    for i := 0 to |fields|
      invariant |vals| == i
      invariant forall j :: 0 <= j < i ==> vals[j] == ValueAt(s, WireOffset(head, fields, c, j), fields[j])
    {
      ShiftedOffset(head, fields, c, i);
      vals := vals + [ValueAt(s, inPs[Pos(fields, i)] + Offset(head, fields, i), fields[i])];
    }
  }

  lemma {:induction false} StoredValue(s: seq<byte>, at: nat, f: Field, v: Value)
    requires Typed(f, v) && Stored(s, at, f, v) && v.count < COUNT_LIMIT
    ensures ValueAt(s, at, f) == v
    ensures f.Array? ==> at + 4 <= |s| && ReadCount(s, at) == v.count
  {
    hide ReadCount, LeBytes;
    if f.Array? { CountRoundTrip(s, at, v.count); }
  }

  /** A typed count within its maximum fits the 32-bit count field. */
  lemma {:induction false} CountFits(head: nat, fields: seq<Field>, counts: seq<nat>, i: nat)
    requires i < |fields| == |counts| && fields[i].Array? && fields[i].elem > 0 && SizeOf(head, fields) < MOD32
    requires counts[i] <= fields[i].max
    ensures counts[i] < COUNT_LIMIT
  {
    hide Padding, Offset;
    OffsetsGrow(head, fields, counts, i + 1, |fields|);
    assert Offset(head, fields, i + 1) == Offset(head, fields, i) + StructSize(fields[i]) by { OffsetStep(head, fields, i); }
    AtLeastCount(fields[i].elem, fields[i].max);
  }

  lemma {:induction false} OffsetStep(head: nat, fields: seq<Field>, i: nat)
    requires i < |fields|
    ensures Offset(head, fields, i + 1) == Offset(head, fields, i) + StructSize(fields[i])
  {
  }

  lemma {:induction false} AtLeastCount(elem: nat, count: nat)
    requires elem > 0
    ensures count <= elem * count
  {
  }

  /** Fixed fields carry no count. */
  lemma {:induction false} DecodedFixed(s: seq<byte>, head: nat, fields: seq<Field>, i: nat, j: nat)
    requires i <= |fields| && j < |fields| && fields[j].Fixed?
    ensures Decoded(s, head, fields, i)[j] == 0
    decreases i
  {
    hide WireOffset, ReadCount;
    if i > 0 { DecodedFixed(s, head, fields, i - 1, j); }
  }

  /** A value stored in a request is the one read back. */
  lemma {:induction false} StoredIsRead(s: seq<byte>, head: nat, fields: seq<Field>, vals: seq<Value>, i: nat)
    requires AllTyped(fields, vals) && AllWellFormed(fields) && SizeOf(head, fields) < MOD32
    requires Within(fields, Counts(vals), |fields|) && AllStored(s, head, fields, vals, |fields|) && i < |fields|
    ensures Carries(s, head, fields, Counts(vals), i)
    ensures ValueAt(s, WireOffset(head, fields, Counts(vals), i), fields[i]) == vals[i]
  {
    hide WireOffset, ValueAt, Stored, SizeOf, ReadCount;
    assert Typed(fields[i], vals[i]) && WellFormed(fields[i]);
    if fields[i].Array? { CountFits(head, fields, Counts(vals), i); }
    StoredValue(s, WireOffset(head, fields, Counts(vals), i), fields[i], vals[i]);
  }

  lemma {:induction false} ArrivalsAreCounts(s: seq<byte>, head: nat, fields: seq<Field>, vals: seq<Value>)
    requires AllTyped(fields, vals) && AllWellFormed(fields) && SizeOf(head, fields) < MOD32
    requires Within(fields, Counts(vals), |fields|) && AllStored(s, head, fields, vals, |fields|)
    ensures Arrivals(s, head, fields) == Counts(vals)
  {
    hide Decoded, WireOffset, Stored, SizeOf, Carries, ValueAt, AllStored, Within;
    var c := Counts(vals);
    forall j | 0 <= j < |fields| ensures Carries(s, head, fields, c, j) {
      StoredIsRead(s, head, fields, vals, j);
    }
    DecodedUnique(s, head, fields, c, |fields|);
    forall j | 0 <= j < |fields| ensures Arrivals(s, head, fields)[j] == c[j] {
      assert Typed(fields[j], vals[j]);
      if fields[j].Fixed? { DecodedFixed(s, head, fields, |fields|, j); }
    }
  }

  /** The bytes of a packed request up to its size are acceptable and read back as the values packed. */
  lemma {:induction false} PackedIsReceived(mess: seq<byte>, head: nat, fields: seq<Field>, vals: seq<Value>)
    requires AllTyped(fields, vals) && AllWellFormed(fields) && SizeOf(head, fields) < MOD32
    requires Within(fields, Counts(vals), |fields|) && AllStored(mess, head, fields, vals, |fields|)
    requires WireOffset(head, fields, Counts(vals), |fields|) <= |mess|
    ensures var s := mess[..WireOffset(head, fields, Counts(vals), |fields|)];
            Acceptable(s, head, fields) && Received(s, head, fields) == vals
  {
    hide Arrivals, WireOffset, SizeOf, Carries, ValueAt, AllStored, Within;
    var n := WireOffset(head, fields, Counts(vals), |fields|);
    var s := mess[..n];
    assert s[..n] == mess[..n];
    AllStoredFrame(mess, s, head, fields, vals, |fields|);
    ArrivalsAreCounts(s, head, fields, vals);
    forall i | 0 <= i < |fields| ensures Received(s, head, fields)[i] == vals[i] {
      StoredIsRead(s, head, fields, vals, i);
    }
  }

  /** Conversely, the values read from an acceptable message are the ones a user would have packed into it. */
  lemma {:induction false} ReceivedIsStored(s: seq<byte>, head: nat, fields: seq<Field>)
    requires Acceptable(s, head, fields)
    ensures var vals := Received(s, head, fields);
            AllTyped(fields, vals) && Counts(vals) == Arrivals(s, head, fields) && AllStored(s, head, fields, vals, |fields|)
  {
    hide WireOffset, ValueAt, Arrivals, Stored, Within;
    var c, vals := Arrivals(s, head, fields), Received(s, head, fields);
    forall i | 0 <= i < |fields|
      ensures vals[i].count == c[i] && Typed(fields[i], vals[i])
      ensures Stored(s, WireOffset(head, fields, c, i), fields[i], vals[i])
    {
      ReceivedAt(s, head, fields, i);
    }
    assert Counts(vals) == c;
  }

  lemma {:induction false} ReceivedAt(s: seq<byte>, head: nat, fields: seq<Field>, i: nat)
    requires Acceptable(s, head, fields) && i < |fields|
    ensures var c := Arrivals(s, head, fields);
            var at := WireOffset(head, fields, c, i);
            var v := ValueAt(s, at, fields[i]);
            v.count == c[i] && Typed(fields[i], v) && Stored(s, at, fields[i], v)
  {
    hide Decoded, ReadCount, ValueAt, Stored, Typed, Contents, Base, WireOffset;
    var c := Arrivals(s, head, fields);
    OffsetsGrow(head, fields, c, i + 1, |fields|);
    WireStep(head, fields, c, i);
    assert fields[i].Array? ==> Base(fields[i]) == 4 by { BaseOfArray(fields[i]); }
    if fields[i].Fixed? {
      DecodedFixed(s, head, fields, |fields|, i);
    } else {
      ArrivalRead(s, head, fields, i);
    }
    ValueIsStored(s, WireOffset(head, fields, c, i), fields[i], c[i]);
  }

  lemma {:induction false} BaseOfArray(f: Field)
    ensures f.Array? ==> Base(f) == 4
  {
  }

  lemma {:induction false} ValueIsStored(s: seq<byte>, at: nat, f: Field, n: nat)
    requires at + Base(f) + Contents(f, n) <= |s|
    requires if f.Array? then ReadCount(s, at) == n else n == 0
    ensures var v := ValueAt(s, at, f); v.count == n && Typed(f, v) && Stored(s, at, f, v)
  {
    hide ReadCount, LeBytes;
    if f.Array? { ReadIsWritten(s, at); }
  }

  lemma {:induction false} WireStep(head: nat, fields: seq<Field>, counts: seq<nat>, i: nat)
    requires i < |fields| == |counts|
    ensures WireOffset(head, fields, counts, i + 1)
            == WireOffset(head, fields, counts, i) + Base(fields[i]) + Contents(fields[i], counts[i])
  {
  }

  lemma {:induction false} ReadIsWritten(s: seq<byte>, at: nat)
    requires at + 4 <= |s|
    ensures s[at..at + 4] == LeBytes(ReadCount(s, at), 4)
  {
    WrittenBack(s[at..at + 4]);
  }

  /** Little-endian bytes are the bytes of the number they denote. */
  lemma {:induction false} WrittenBack(s: seq<byte>)
    ensures LeBytes(LittleEndian(s), |s|) == s
    decreases |s|
  {
    if s != [] {
      WrittenBack(s[1..]);
      var b: int := s[0];
      assert (b + 256 * LittleEndian(s[1..])) % 256 == b && (b + 256 * LittleEndian(s[1..])) / 256 == LittleEndian(s[1..]);
    }
  }

  /** A request from user stub to server function: what is sent is accepted and arrives unchanged. */
  method Deliver(mess: array<byte>, head: nat, fields: seq<Field>, vals: seq<Value>)
    returns (r: PackResult, ok: bool, got: seq<Value>)
    requires AllTyped(fields, vals) && AllWellFormed(fields)
    requires SizeOf(head, fields) <= mess.Length && SizeOf(head, fields) < MOD32
    modifies mess
    ensures r.Sent? <==> Within(fields, Counts(vals), |fields|)
    ensures r.Sent? ==> ok && got == vals
  {
    hide WireOffset, SizeOf, AllStored, Acceptable, Received, Pointers, Arrivals;
    r := PackRequest(mess, head, fields, vals);
    ok, got := false, [];
    if r.Sent? {
      PackedFits(head, fields, vals);
      PackedIsReceived(mess[..], head, fields, vals);
      var s := mess[..r.msghSize];
      assert s == mess[..][..r.msghSize];
      var inPs;
      ok, inPs := CheckRequest(s, false, head, fields);
      if ok { got := Extract(s, head, fields, inPs); }
    }
  }

  lemma {:induction false} PackedFits(head: nat, fields: seq<Field>, vals: seq<Value>)
    requires |fields| == |vals| && Within(fields, Counts(vals), |fields|)
    ensures WireOffset(head, fields, Counts(vals), |fields|) <= SizeOf(head, fields)
  {
    WireBounds(head, fields, Counts(vals), |fields|);
  }
}
