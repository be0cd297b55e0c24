/**
 The layout of a MIG request: fixed fields and variable-sized inline arrays,
 where the C structure puts them and where they are on the wire.
 */
module MigLayout {
  import opened Bytes

  /** machine_padding: what rounds a size up to a multiple of four. */
  function Padding(bytes: nat): (p: nat)
    ensures p < 4 && (bytes + p) % 4 == 0
  {
    if bytes % 4 != 0 then 4 - bytes % 4 else 0
  }

  function Pad4(bytes: nat): nat { bytes + Padding(bytes) }

  /** Rounding up keeps order. */
  lemma {:induction false} Pad4Monotone(m: nat, n: nat)
    requires m <= n
    ensures Pad4(m) <= Pad4(n)
  {
  }

  /** A sent argument: a value of `size` bytes, or an array of up to `max` elements of `elem` bytes each. */
  datatype Field = Fixed(size: nat) | Array(elem: nat, max: nat)

  predicate WellFormed(f: Field) { f.Array? ==> f.elem > 0 }

  predicate AllWellFormed(fields: seq<Field>) { forall i :: 0 <= i < |fields| ==> WellFormed(fields[i]) }

  /** itTypeSize + itPadSize of an array: the room the structure reserves for it. */
  function Reserved(f: Field): nat { if f.Array? then Pad4(f.elem * f.max) else 0 }

  /** What a field takes in the structure apart from array contents; an array has its count in front. */
  function Base(f: Field): nat { if f.Array? then 4 else Pad4(f.size) }

  function StructSize(f: Field): nat { Base(f) + Reserved(f) }

  /** The offset of field `i` in the structure, after `head` bytes of header. */
  function Offset(head: nat, fields: seq<Field>, i: nat): nat
    requires i <= |fields|
  {
    if i == 0 then head else Offset(head, fields, i - 1) + StructSize(fields[i - 1])
  }

  /** sizeof(Request). */
  function SizeOf(head: nat, fields: seq<Field>): nat { Offset(head, fields, |fields|) }

  /** The size without any array contents, for the first `i` fields. */
  function MinOffset(head: nat, fields: seq<Field>, i: nat): nat
    requires i <= |fields|
  {
    if i == 0 then head else MinOffset(head, fields, i - 1) + Base(fields[i - 1])
  }

  /** The minimum request size. */
  function MinSize(head: nat, fields: seq<Field>): nat { MinOffset(head, fields, |fields|) }

  /** argRequestPos: the number of arrays before a field. */
  function Pos(fields: seq<Field>, i: nat): (k: nat)
    requires i <= |fields|
    ensures k <= i
  {
    if i == 0 then 0 else Pos(fields, i - 1) + (if fields[i - 1].Array? then 1 else 0)
  }

  /** rtMaxRequestPos: the position of the last field. */
  function MaxPos(fields: seq<Field>): nat { if fields == [] then 0 else Pos(fields, |fields| - 1) }

  /** rtNumRequestVar. */
  function NumVar(fields: seq<Field>): nat { Pos(fields, |fields|) }

  // ----- on the wire -----

  /** The value of an argument: for an array, how many elements. */
  datatype Value = Value(count: nat, bytes: seq<byte>)

  predicate Typed(f: Field, v: Value) {
    match f
    case Fixed(size) => v.count == 0 && |v.bytes| == size
    case Array(elem, _) => |v.bytes| == elem * v.count
  }

  predicate AllTyped(fields: seq<Field>, vals: seq<Value>) {
    |fields| == |vals| && forall i :: 0 <= i < |fields| ==> Typed(fields[i], vals[i])
  }

  /** Every array within its declared maximum. */
  predicate Fits(f: Field, v: Value) { f.Array? ==> v.count <= f.max }

  /** The bytes array contents of `count` elements take. */
  function Contents(f: Field, count: nat): nat { if f.Array? then Pad4(f.elem * count) else 0 }

  /** Where field `i` is on the wire when the arrays have the given counts. */
  function WireOffset(head: nat, fields: seq<Field>, counts: seq<nat>, i: nat): nat
    requires i <= |fields| == |counts|
  {
    if i == 0 then head
    else WireOffset(head, fields, counts, i - 1) + Base(fields[i - 1]) + Contents(fields[i - 1], counts[i - 1])
  }

  /** How far the structure pointer has moved when field `i` is reached: InkP - In0P, never positive. */
  function Shift(fields: seq<Field>, counts: seq<nat>, i: nat): int
    requires i <= |fields| == |counts|
  {
    if i == 0 then 0
    else Shift(fields, counts, i - 1) + Contents(fields[i - 1], counts[i - 1]) - Reserved(fields[i - 1])
  }

  /** The shifted structure puts every field at its wire offset. */
  lemma {:induction false} ShiftedOffset(head: nat, fields: seq<Field>, counts: seq<nat>, i: nat)
    requires i <= |fields| == |counts|
    ensures Shift(fields, counts, i) + Offset(head, fields, i) == WireOffset(head, fields, counts, i)
    decreases i
  {
    if i > 0 { ShiftedOffset(head, fields, counts, i - 1); }
  }

  /** Bounds that hold when every count is within its maximum. */
  lemma {:induction false} WireBounds(head: nat, fields: seq<Field>, counts: seq<nat>, i: nat)
    requires i <= |fields| == |counts|
    requires Within(fields, counts, i)
    ensures MinOffset(head, fields, i) <= WireOffset(head, fields, counts, i) <= Offset(head, fields, i)
    ensures Shift(fields, counts, i) <= 0
    decreases i
  {
    if i > 0 {
      WireBounds(head, fields, counts, i - 1);
      var f := fields[i - 1];
      if f.Array? {
        assert f.elem * counts[i - 1] <= f.elem * f.max;
        Pad4Monotone(f.elem * counts[i - 1], f.elem * f.max);
      }
    }
  }

  /** Offsets only grow. */
  lemma {:induction false} OffsetsGrow(head: nat, fields: seq<Field>, counts: seq<nat>, i: nat, j: nat)
    requires i <= j <= |fields| == |counts|
    ensures Offset(head, fields, i) <= Offset(head, fields, j)
    ensures MinOffset(head, fields, i) <= MinOffset(head, fields, j)
    ensures WireOffset(head, fields, counts, i) <= WireOffset(head, fields, counts, j)
    ensures Pos(fields, i) <= Pos(fields, j)
    decreases j - i
  {
    if i < j { OffsetsGrow(head, fields, counts, i, j - 1); }
  }

  /** The array contents among the first `i` fields: what a message has beyond its minimum size. */
  function Extra(fields: seq<Field>, counts: seq<nat>, i: nat): nat
    requires i <= |fields| == |counts|
  {
    if i == 0 then 0 else Extra(fields, counts, i - 1) + Contents(fields[i - 1], counts[i - 1])
  }

  lemma {:induction false} ExtraIsDifference(head: nat, fields: seq<Field>, counts: seq<nat>, i: nat)
    requires i <= |fields| == |counts|
    ensures WireOffset(head, fields, counts, i) == MinOffset(head, fields, i) + Extra(fields, counts, i)
    ensures Pos(fields, i) == 0 ==> Extra(fields, counts, i) == 0
    decreases i
  {
    if i > 0 { ExtraIsDifference(head, fields, counts, i - 1); }
  }

  predicate Within(fields: seq<Field>, counts: seq<nat>, i: nat)
    requires i <= |fields| == |counts|
  {
    forall j :: 0 <= j < i && fields[j].Array? ==> counts[j] <= fields[j].max
  }

  /** What is packed so far never exceeds the structure. */
  lemma {:induction false} ExtraBound(head: nat, fields: seq<Field>, counts: seq<nat>, i: nat)
    requires i <= |fields| == |counts| && Within(fields, counts, i)
    ensures MinSize(head, fields) + Extra(fields, counts, i) <= SizeOf(head, fields)
  {
    ExtraIsDifference(head, fields, counts, i);
    WireBounds(head, fields, counts, i);
    ReservedGrows(head, fields, i, |fields|);
  }

  /** The room reserved for arrays only grows. */
  lemma {:induction false} ReservedGrows(head: nat, fields: seq<Field>, i: nat, j: nat)
    requires i <= j <= |fields|
    ensures Offset(head, fields, i) - MinOffset(head, fields, i) <= Offset(head, fields, j) - MinOffset(head, fields, j)
    decreases j - i
  {
    if i < j { ReservedGrows(head, fields, i, j - 1); }
  }

  // ----- counts in memory -----

  const COUNT_LIMIT := 0x1_0000_0000

  function ReadCount(s: seq<byte>, at: nat): (n: nat)
    requires at + 4 <= |s|
  {
    LittleEndian(s[at..at + 4])
  }

  lemma {:induction false} CountRoundTrip(s: seq<byte>, at: nat, n: nat)
    requires at + 4 <= |s| && n < COUNT_LIMIT && s[at..at + 4] == LeBytes(n, 4)
    ensures ReadCount(s, at) == n
  {
    assert Pow256(4) == COUNT_LIMIT;
    LeRoundTrip(n, 4);
  }
}
