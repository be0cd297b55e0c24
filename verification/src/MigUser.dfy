/**
 The request packing that MIG generates for the user side: fields are copied
 through a structure pointer that is moved back after every array, and the
 message size is accumulated in 32 bits.
 */
module MigUser {
  import opened Wrappers
  import opened Arithmetic
  import opened Bytes
  import opened MigLayout

  function Counts(vals: seq<Value>): (c: seq<nat>)
    ensures |c| == |vals| && forall i :: 0 <= i < |vals| ==> c[i] == vals[i].count
  {
    seq(|vals|, i requires 0 <= i < |vals| => vals[i].count)
  }

  function Zeros(n: nat): (z: seq<byte>)
    ensures |z| == n
  {
    seq(n, i => 0)
  }

  /** Field `i` is in the message where the wire format has it. */
  predicate Stored(s: seq<byte>, at: nat, f: Field, v: Value) {
    match f
    case Fixed(size) => at + |v.bytes| <= |s| && s[at..at + |v.bytes|] == v.bytes
    case Array(_, _) =>
      && at + 4 + |v.bytes| <= |s|
      && s[at..at + 4] == LeBytes(v.count, 4)
      && s[at + 4..at + 4 + |v.bytes|] == v.bytes
  }

  /** The memory after a fixed field has been packed at `at`, with zeroed padding. */
  function PackedFixed(s: seq<byte>, at: nat, v: Value): (t: seq<byte>)
    requires at + Pad4(|v.bytes|) <= |s|
    ensures |t| == |s|
  {
    Splice(Splice(s, at, v.bytes), at + |v.bytes|, Zeros(Padding(|v.bytes|)))
  }

  /** The memory after an array has been packed at `at`; padding is zeroed behind the `room` reserved for it. */
  function PackedArray(s: seq<byte>, at: nat, room: nat, v: Value): (t: seq<byte>)
    requires |v.bytes| <= room && at + 4 + Pad4(room) <= |s|
    ensures |t| == |s|
  {
    var data := Splice(s, at + 4, v.bytes);
    var padded := Splice(data, at + 4 + room, Zeros(Padding(room)));
    Splice(padded, at, LeBytes(v.count, 4))
  }

  function Packed(s: seq<byte>, at: nat, f: Field, v: Value): (t: seq<byte>)
    requires Typed(f, v) && Fits(f, v) && at + StructSize(f) <= |s|
    ensures |t| == |s|
  {
    match f
    case Fixed(size) => PackedFixed(s, at, v)
    case Array(elem, max) => assert elem * v.count <= elem * max; PackedArray(s, at, elem * max, v)
  }

  lemma {:induction false} SpliceKeeps(s: seq<byte>, p: nat, a: seq<byte>, lo: nat, hi: nat)
    requires p + |a| <= |s| && lo <= hi <= |s| && (hi <= p || p + |a| <= lo)
    ensures Splice(s, p, a)[lo..hi] == s[lo..hi]
  {
  }

  lemma {:induction false} SpliceReads(s: seq<byte>, p: nat, a: seq<byte>)
    requires p + |a| <= |s|
    ensures Splice(s, p, a)[p..p + |a|] == a
  {
  }

  lemma {:induction false} PackedFixedStores(s: seq<byte>, at: nat, v: Value)
    requires at + Pad4(|v.bytes|) <= |s|
    ensures var t := PackedFixed(s, at, v); t[at..at + |v.bytes|] == v.bytes && t[..at] == s[..at]
  {
    hide Splice;
    var data, z := Splice(s, at, v.bytes), Zeros(Padding(|v.bytes|));
    SpliceReads(s, at, v.bytes);
    SpliceKeeps(data, at + |v.bytes|, z, at, at + |v.bytes|);
    SpliceKeeps(s, at, v.bytes, 0, at);
    SpliceKeeps(data, at + |v.bytes|, z, 0, at);
  }

  lemma {:induction false} PackedArrayStores(s: seq<byte>, at: nat, room: nat, v: Value)
    requires |v.bytes| <= room && at + 4 + Pad4(room) <= |s|
    ensures var t := PackedArray(s, at, room, v);
            t[at..at + 4] == LeBytes(v.count, 4) && t[at + 4..at + 4 + |v.bytes|] == v.bytes && t[..at] == s[..at]
  {
    hide Splice;
    var data := Splice(s, at + 4, v.bytes);
    var z := Zeros(Padding(room));
    var padded := Splice(data, at + 4 + room, z);
    var c := LeBytes(v.count, 4);
    SpliceReads(s, at + 4, v.bytes);
    SpliceKeeps(data, at + 4 + room, z, at + 4, at + 4 + |v.bytes|);
    SpliceKeeps(padded, at, c, at + 4, at + 4 + |v.bytes|);
    SpliceReads(padded, at, c);
    SpliceKeeps(s, at + 4, v.bytes, 0, at);
    SpliceKeeps(data, at + 4 + room, z, 0, at);
    SpliceKeeps(padded, at, c, 0, at);
  }

  /** Packing stores the field and leaves everything before it alone. */
  lemma {:induction false} PackedStores(s: seq<byte>, at: nat, f: Field, v: Value)
    requires Typed(f, v) && Fits(f, v) && at + StructSize(f) <= |s|
    ensures Stored(Packed(s, at, f, v), at, f, v)
    ensures Packed(s, at, f, v)[..at] == s[..at]
  {
    hide PackedFixed, PackedArray, Padding;
    if f.Fixed? {
      PackedFixedStores(s, at, v);
    } else {
      ElementsFit(f.elem, v.count, f.max);
      PackedArrayStores(s, at, f.elem * f.max, v);
    }
  }

  lemma {:induction false} ElementsFit(elem: nat, count: nat, max: nat)
    requires count <= max
    ensures elem * count <= elem * max
  {
    TimesMonotone(count, max, elem);
  }

  /** All of the first `n` fields are in the message. */
  predicate AllStored(s: seq<byte>, head: nat, fields: seq<Field>, vals: seq<Value>, n: nat)
    requires n <= |fields| == |vals|
  {
    forall i :: 0 <= i < n ==> Stored(s, WireOffset(head, fields, Counts(vals), i), fields[i], vals[i])
  }

  /** The end of a field's data on the wire. */
  function DataEnd(at: nat, f: Field, v: Value): nat { at + (if f.Array? then 4 else 0) + |v.bytes| }

  lemma {:induction false} StoredFrame(s: seq<byte>, t: seq<byte>, n: nat, at: nat, f: Field, v: Value)
    requires Stored(s, at, f, v) && DataEnd(at, f, v) <= n <= |s| && n <= |t| && s[..n] == t[..n]
    ensures Stored(t, at, f, v)
  {
    var lo := if f.Array? then at + 4 else at;
    SameSlice(s, t, n, lo, lo + |v.bytes|);
    if f.Array? { SameSlice(s, t, n, at, at + 4); }
  }

  /** A field's data ends before the next field begins. */
  lemma {:induction false} DataFits(head: nat, fields: seq<Field>, vals: seq<Value>, i: nat)
    requires AllTyped(fields, vals) && i < |fields|
    ensures DataEnd(WireOffset(head, fields, Counts(vals), i), fields[i], vals[i])
            <= WireOffset(head, fields, Counts(vals), i + 1)
  {
    assert Typed(fields[i], vals[i]);
  }

  lemma {:induction false} AllStoredFrame(s: seq<byte>, t: seq<byte>, head: nat, fields: seq<Field>, vals: seq<Value>, n: nat)
    requires AllTyped(fields, vals) && n <= |fields| && AllStored(s, head, fields, vals, n)
    requires var w := WireOffset(head, fields, Counts(vals), n); w <= |s| && w <= |t| && s[..w] == t[..w]
    ensures AllStored(t, head, fields, vals, n)
  {
    hide WireOffset, Stored, DataEnd, Counts;
    var c := Counts(vals);
    var w := WireOffset(head, fields, c, n);
    forall i | 0 <= i < n ensures Stored(t, WireOffset(head, fields, c, i), fields[i], vals[i]) {
      DataFits(head, fields, vals, i);
      OffsetsGrow(head, fields, c, i + 1, n);
      StoredFrame(s, t, w, WireOffset(head, fields, c, i), fields[i], vals[i]);
    }
  }

  // ----- the generated code -----


  /** `_WALIGN_`, in 32 bits. */
  function Walign(x: nat): nat { (x + 3) % MOD32 / 4 * 4 }

  /** The size expression the generators write: aligned only if the element size is not a multiple of four. */
  function ArgSize(f: Field, count: nat): nat
    requires f.Array?
  {
    var bytes := f.elem * count % MOD32;
    if f.elem % 4 != 0 then Walign(bytes) else bytes
  }

  /** Within 32 bits the size expression is the padded size. */
  lemma {:induction false} ArgSizeExact(f: Field, count: nat)
    requires f.Array? && Pad4(f.elem * count) < MOD32
    ensures ArgSize(f, count) == Contents(f, count)
  {
    if f.elem % 4 == 0 { MultipleOfFour(f.elem, count); }
    WalignExact(f.elem * count);
  }

  lemma {:induction false} MultipleOfFour(elem: nat, count: nat)
    requires elem % 4 == 0
    ensures elem * count % 4 == 0
  {
    assert elem * count == 0 + elem / 4 * count * 4;
    ModShift(0, elem / 4 * count, 4);
  }

  lemma {:induction false} WalignExact(bytes: nat)
    requires Pad4(bytes) < MOD32
    ensures Walign(bytes) == Pad4(bytes) && bytes % MOD32 == bytes
  {
  }

  method Memcpy(mess: array<byte>, at: nat, bytes: seq<byte>)
    requires at + |bytes| <= mess.Length
    modifies mess
    ensures mess[..] == Splice(old(mess[..]), at, bytes)
  {
    forall k | 0 <= k < |bytes| {
      mess[at + k] := bytes[k];
    }
  }

  method PackFixed(mess: array<byte>, at: nat, v: Value)
    requires at + Pad4(|v.bytes|) <= mess.Length
    modifies mess
    ensures mess[..] == PackedFixed(old(mess[..]), at, v)
  {
    hide Splice;
    Memcpy(mess, at, v.bytes);
    Memcpy(mess, at + |v.bytes|, Zeros(Padding(|v.bytes|)));
  }

  method PackArray(mess: array<byte>, at: nat, room: nat, v: Value)
    requires |v.bytes| <= room && at + 4 + Pad4(room) <= mess.Length
    modifies mess
    ensures mess[..] == PackedArray(old(mess[..]), at, room, v)
  {
    hide Splice;
    Memcpy(mess, at + 4, v.bytes);
    Memcpy(mess, at + 4 + room, Zeros(Padding(room)));
    Memcpy(mess, at, LeBytes(v.count, 4));
  }

  /** The code for one argument, `at` being the address of its first field through InP. */
  method PackField(mess: array<byte>, at: nat, f: Field, v: Value)
    requires Typed(f, v) && Fits(f, v) && at + StructSize(f) <= mess.Length
    modifies mess
    ensures mess[..] == Packed(old(mess[..]), at, f, v)
  {
    hide PackedFixed, PackedArray, Padding;
    match f {
      case Fixed(_) => PackFixed(mess, at, v);
      case Array(elem, max) =>
        ElementsFit(elem, v.count, max);
        PackArray(mess, at, elem * max, v);
    }
  }

  // ----- packing a whole request -----

  datatype PackResult = Sent(msghSize: nat) | ArrayTooLarge(index: nat)

  /** The index of the last array whose size has not been accounted for yet. */
  function Pending(fields: seq<Field>, i: nat): Option<nat>
    requires i <= |fields|
  {
    if i > 0 && fields[i - 1].Array? then Some(i - 1) else None
  }

  /** How many fields the structure pointer has been moved past. */
  function Passed(fields: seq<Field>, i: nat): nat
    requires i <= |fields|
  {
    if Pending(fields, i).Some? then i - 1 else i
  }

  /** The running message size after the arrays before field `k`. */
  predicate Accounted(head: nat, fields: seq<Field>, counts: seq<nat>, k: nat, msghSize: nat)
    requires k <= |fields| == |counts|
  {
    Pos(fields, k) > 0 ==> msghSize == MinSize(head, fields) + Extra(fields, counts, k)
  }

  lemma {:induction false} ContentsBound(head: nat, fields: seq<Field>, counts: seq<nat>, j: nat)
    requires j < |fields| == |counts| && fields[j].Array? && Within(fields, counts, j + 1)
    requires SizeOf(head, fields) < MOD32
    ensures ArgSize(fields[j], counts[j]) == Contents(fields[j], counts[j])
    ensures MinSize(head, fields) + Extra(fields, counts, j + 1) < MOD32
    ensures Extra(fields, counts, j + 1) == Extra(fields, counts, j) + Contents(fields[j], counts[j])
  {
    hide Pad4, Walign, SizeOf, MinSize;
    ExtraBound(head, fields, counts, j + 1);
    ArgSizeExact(fields[j], counts[j]);
  }

  /** WriteAdjustMsgSize and WriteFinishMsgSize: the size after array `j`. */
  method AccountFor(head: nat, fields: seq<Field>, counts: seq<nat>, j: nat, msghSize: nat) returns (delta: nat, size: nat)
    requires j < |fields| == |counts| && fields[j].Array? && Within(fields, counts, j + 1)
    requires SizeOf(head, fields) < MOD32 && Accounted(head, fields, counts, j, msghSize)
    ensures delta == Contents(fields[j], counts[j]) && size == MinSize(head, fields) + Extra(fields, counts, j + 1)
  {
    hide ArgSize, Contents, SizeOf, MinSize, Extra, Pos, Within;
    ContentsBound(head, fields, counts, j);
    ExtraIsDifference(head, fields, counts, j);
    delta := ArgSize(fields[j], counts[j]);
    if Pos(fields, j) == 0 {
      size := (MinSize(head, fields) + delta) % MOD32;
    } else {
      size := (msghSize + delta) % MOD32;
    }
  }

  /** The state of the generated code in front of field `i`. */
  ghost predicate Packing(s: seq<byte>, head: nat, fields: seq<Field>, vals: seq<Value>, i: nat,
                          inP: int, msghSize: nat, lastVarArg: Option<nat>)
    requires |fields| == |vals| && i <= |fields|
  {
    && lastVarArg == Pending(fields, i)
    && Within(fields, Counts(vals), i)
    && inP == Shift(fields, Counts(vals), Passed(fields, i))
    && Accounted(head, fields, Counts(vals), Passed(fields, i), msghSize)
    && AllStored(s, head, fields, vals, i)
  }

  /** Moving the structure pointer over the array packed last, if there is one. */
  method Adjust(head: nat, fields: seq<Field>, counts: seq<nat>, i: nat, inP: int, msghSize: nat, lastVarArg: Option<nat>)
    returns (inP': int, msghSize': nat)
    requires i < |fields| == |counts| && Within(fields, counts, i) && SizeOf(head, fields) < MOD32
    requires lastVarArg == Pending(fields, i) && inP == Shift(fields, counts, Passed(fields, i))
    requires Accounted(head, fields, counts, Passed(fields, i), msghSize)
    ensures inP' == Shift(fields, counts, i) && Accounted(head, fields, counts, i, msghSize')
  {
    hide Contents, SizeOf, MinSize, Extra, Within, Reserved;
    inP', msghSize' := inP, msghSize;
    if lastVarArg.Some? && Pos(fields, lastVarArg.value) < Pos(fields, i) {
      var j := lastVarArg.value;
      var delta;
      delta, msghSize' := AccountFor(head, fields, counts, j, msghSize);
      inP' := inP + delta - Reserved(fields[j]);
    }
  }

  lemma {:induction false} FieldHasRoom(head: nat, fields: seq<Field>, counts: seq<nat>, i: nat)
    requires i < |fields| == |counts| && Within(fields, counts, i)
    ensures var at := Shift(fields, counts, i) + Offset(head, fields, i);
            at == WireOffset(head, fields, counts, i) && at + StructSize(fields[i]) <= SizeOf(head, fields)
  {
    hide Shift, StructSize, WireOffset;
    ShiftedOffset(head, fields, counts, i);
    WireBounds(head, fields, counts, i);
    OffsetsGrow(head, fields, counts, i + 1, |fields|);
  }

  lemma {:induction false} OneMoreStored(s: seq<byte>, head: nat, fields: seq<Field>, vals: seq<Value>, i: nat)
    requires AllTyped(fields, vals) && i < |fields| && AllStored(s, head, fields, vals, i)
    requires var at := WireOffset(head, fields, Counts(vals), i); at + StructSize(fields[i]) <= |s|
    requires Typed(fields[i], vals[i]) && Fits(fields[i], vals[i])
    ensures AllStored(Packed(s, WireOffset(head, fields, Counts(vals), i), fields[i], vals[i]), head, fields, vals, i + 1)
  {
    hide WireOffset, StructSize, Stored, Packed, Counts;
    var at := WireOffset(head, fields, Counts(vals), i);
    var t := Packed(s, at, fields[i], vals[i]);
    PackedStores(s, at, fields[i], vals[i]);
    AllStoredFrame(s, t, head, fields, vals, i);
  }

  /** The generated code for field `i`: adjust, pack, remember an array. */
  method PackNext(mess: array<byte>, head: nat, fields: seq<Field>, vals: seq<Value>, i: nat,
                  inP: int, msghSize: nat, lastVarArg: Option<nat>)
    returns (inP': int, msghSize': nat, lastVarArg': Option<nat>)
    requires AllTyped(fields, vals) && i < |fields| && Fits(fields[i], vals[i])
    requires SizeOf(head, fields) <= mess.Length && SizeOf(head, fields) < MOD32
    requires Packing(mess[..], head, fields, vals, i, inP, msghSize, lastVarArg)
    modifies mess
    ensures Packing(mess[..], head, fields, vals, i + 1, inP', msghSize', lastVarArg')
  {
    hide WireOffset, StructSize, Offset, SizeOf, Stored, Packed, AllStored, MinSize;
    var counts := Counts(vals);
    assert Typed(fields[i], vals[i]);
    inP', msghSize' := Adjust(head, fields, counts, i, inP, msghSize, lastVarArg);
    FieldHasRoom(head, fields, counts, i);
    OneMoreStored(mess[..], head, fields, vals, i);
    PackField(mess, inP' + Offset(head, fields, i), fields[i], vals[i]);
    lastVarArg' := if fields[i].Array? then Some(i) else None;
  }

  lemma {:induction false} PackingStarts(s: seq<byte>, head: nat, fields: seq<Field>, vals: seq<Value>)
    requires |fields| == |vals|
    ensures Packing(s, head, fields, vals, 0, 0, 0, None)
  {
  }

  /** WriteFinishMsgSize, or the constant size when there is no array. */
  method Finish(ghost s: seq<byte>, head: nat, fields: seq<Field>, vals: seq<Value>, inP: int, msghSize: nat, lastVarArg: Option<nat>)
    returns (size: nat)
    requires |fields| == |vals| && SizeOf(head, fields) < MOD32
    requires Packing(s, head, fields, vals, |fields|, inP, msghSize, lastVarArg)
    ensures size == WireOffset(head, fields, Counts(vals), |fields|)
  {
    hide Shift, AllStored, Extra, Contents, WireOffset;
    var n, counts := |fields|, Counts(vals);
    ExtraIsDifference(head, fields, counts, n);
    if lastVarArg.Some? {
      var delta;
      delta, size := AccountFor(head, fields, counts, lastVarArg.value, msghSize);
    } else if Pos(fields, n) == 0 {
      NoArrays(head, fields, n);
      size := SizeOf(head, fields);
    } else {
      size := msghSize;
    }
  }

  lemma {:induction false} NoArrays(head: nat, fields: seq<Field>, i: nat)
    requires i <= |fields| && Pos(fields, i) == 0
    ensures Offset(head, fields, i) == MinOffset(head, fields, i)
    decreases i
  {
    if i > 0 { NoArrays(head, fields, i - 1); }
  }

  /** The request as the user stub builds it, or the error for the first array that is too long. */
  method PackRequest(mess: array<byte>, head: nat, fields: seq<Field>, vals: seq<Value>) returns (r: PackResult)
    requires AllTyped(fields, vals) && SizeOf(head, fields) <= mess.Length && SizeOf(head, fields) < MOD32
    modifies mess
    ensures r.Sent? ==> r.msghSize == WireOffset(head, fields, Counts(vals), |fields|)
    ensures r.Sent? ==> Within(fields, Counts(vals), |fields|) && AllStored(mess[..], head, fields, vals, |fields|)
    ensures r.ArrayTooLarge? ==> r.index < |fields| && !Fits(fields[r.index], vals[r.index]) && Within(fields, Counts(vals), r.index)
  {
    hide WireOffset, SizeOf, AllStored, Accounted, Passed, Pending, Shift;
    var inP, msghSize, i := 0, 0, 0;
    var lastVarArg: Option<nat> := None;
    PackingStarts(mess[..], head, fields, vals);
    while i < |fields|
      invariant 0 <= i <= |fields| && Packing(mess[..], head, fields, vals, i, inP, msghSize, lastVarArg)
    {
      if fields[i].Array? && vals[i].count > fields[i].max {
        return ArrayTooLarge(i);
      }
      inP, msghSize, lastVarArg := PackNext(mess, head, fields, vals, i, inP, msghSize, lastVarArg);
      i := i + 1;
    }
    var size := Finish(mess[..], head, fields, vals, inP, msghSize, lastVarArg);
    r := Sent(size);
  }
}
