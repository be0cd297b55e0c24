/**
 The request check that MIG generates for the server side, and reading the
 arguments back through the structure pointers it computes.
 */
module MigServer {
  import opened Arithmetic
  import opened Wrappers
  import opened Bytes
  import opened MigLayout
  import opened MigUser

  // ----- what a well-formed request is -----

  /** The counts a message carries: each is found behind the contents of the arrays before it. */
  function Decoded(s: seq<byte>, head: nat, fields: seq<Field>, i: nat): (c: seq<nat>)
    requires i <= |fields|
    ensures |c| == |fields|
  {
    if i == 0 then seq(|fields|, _ => 0)
    else
      var c := Decoded(s, head, fields, i - 1);
      var at := WireOffset(head, fields, c, i - 1);
      if fields[i - 1].Array? && at + 4 <= |s| then c[i - 1 := ReadCount(s, at)] else c
  }

  function Arrivals(s: seq<byte>, head: nat, fields: seq<Field>): (c: seq<nat>)
    ensures |c| == |fields|
  {
    Decoded(s, head, fields, |fields|)
  }

  /** A message is a request if its counts are within their maxima and account for every byte of it. */
  predicate Acceptable(s: seq<byte>, head: nat, fields: seq<Field>) {
    var c := Arrivals(s, head, fields);
    Within(fields, c, |fields|) && WireOffset(head, fields, c, |fields|) == |s|
  }

  /** Only the counts before a field decide where it is. */
  lemma {:induction false} SamePrefix(head: nat, fields: seq<Field>, c: seq<nat>, d: seq<nat>, i: nat)
    requires i <= |fields| == |c| == |d|
    requires forall j :: 0 <= j < i && fields[j].Array? ==> c[j] == d[j]
    ensures WireOffset(head, fields, c, i) == WireOffset(head, fields, d, i)
    decreases i
  {
    if i > 0 { SamePrefix(head, fields, c, d, i - 1); }
  }

  /** Later counts do not change the ones already decoded. */
  lemma {:induction false} DecodedStable(s: seq<byte>, head: nat, fields: seq<Field>, i: nat, j: nat, k: nat)
    requires k < i <= j <= |fields|
    ensures Decoded(s, head, fields, i)[k] == Decoded(s, head, fields, j)[k]
    decreases j - i
  {
    if i < j { DecodedStable(s, head, fields, i, j - 1, k); }
  }

  /** The message carries `counts[j]` at the wire offset of array `j`. */
  predicate Carries(s: seq<byte>, head: nat, fields: seq<Field>, counts: seq<nat>, j: nat)
    requires j < |fields| == |counts|
  {
    fields[j].Array? ==>
      var at := WireOffset(head, fields, counts, j);
      at + 4 <= |s| && ReadCount(s, at) == counts[j]
  }

  /** Counts that a message carries at their wire offsets are the counts decoded from it. */
  lemma {:induction false} DecodedUnique(s: seq<byte>, head: nat, fields: seq<Field>, counts: seq<nat>, i: nat)
    requires i <= |fields| == |counts|
    requires forall j :: 0 <= j < i ==> Carries(s, head, fields, counts, j)
    ensures forall j :: 0 <= j < i && fields[j].Array? ==> Decoded(s, head, fields, i)[j] == counts[j]
    decreases i
  {
    hide WireOffset, ReadCount;
    if i > 0 {
      DecodedUnique(s, head, fields, counts, i - 1);
      SamePrefix(head, fields, Decoded(s, head, fields, i - 1), counts, i - 1);
      assert Carries(s, head, fields, counts, i - 1);
    }
  }

  /** Each count in front of position `i` is read at its wire offset. */
  lemma {:induction false} ArrivalRead(s: seq<byte>, head: nat, fields: seq<Field>, i: nat)
    requires i < |fields| && fields[i].Array?
    requires WireOffset(head, fields, Arrivals(s, head, fields), i) + 4 <= |s|
    ensures Arrivals(s, head, fields)[i] == ReadCount(s, WireOffset(head, fields, Arrivals(s, head, fields), i))
  {
    hide WireOffset, ReadCount;
    var n, c := |fields|, Decoded(s, head, fields, i);
    DecodedStable(s, head, fields, i + 1, n, i);
    forall k | 0 <= k < i ensures c[k] == Arrivals(s, head, fields)[k] {
      DecodedStable(s, head, fields, i, n, k);
    }
    SamePrefix(head, fields, c, Arrivals(s, head, fields), i);
  }

  // ----- the generated check -----

  /** WriteCheckHead: true if the message is refused. */
  predicate BadHead(complex: bool, msghSize: nat, head: nat, fields: seq<Field>) {
    || complex
    || (if NumVar(fields) > 0 then msghSize < MinSize(head, fields) || msghSize > SizeOf(head, fields)
        else msghSize != SizeOf(head, fields))
  }

  lemma {:induction false} QuotientTooSmall(room: nat, elem: nat, count: nat)
    requires elem > 0 && room / elem < count
    ensures room < elem * count
  {
    assert room == elem * (room / elem) + room % elem;
    assert elem * (room / elem + 1) <= elem * count;
  }

  /** WriteCheckArgSize, in 32 bits: whether what is left of the message is refused for `count` elements. */
  method CheckArgSize(min: nat, msghSize: nat, f: Field, count: nat, exact: bool) returns (bad: bool)
    requires f.Array? && f.elem > 0 && min <= msghSize && min + Contents(f, count) < MOD32
    ensures bad <==> if exact then msghSize != min + Contents(f, count) else msghSize < min + Contents(f, count)
  {
    hide Walign, ArgSize, Padding;
    ArgSizeExact(f, count);
    var room := msghSize - min;
    var elems := if f.elem > 1 then room / f.elem else room;
    var calc32 := (min + ArgSize(f, count)) % MOD32;
    if elems < count { QuotientTooSmall(room, f.elem, count); }
    bad := elems < count || (if exact then msghSize != calc32 else msghSize < calc32);
  }

  /** The arrays after field `i` account for the rest of an acceptable message. */
  lemma {:induction false} ExtraGrows(fields: seq<Field>, counts: seq<nat>, i: nat, j: nat)
    requires i <= j <= |fields| == |counts|
    ensures Extra(fields, counts, i) <= Extra(fields, counts, j) && Pos(fields, i) <= Pos(fields, j)
    ensures Pos(fields, i) == Pos(fields, j) ==> Extra(fields, counts, i) == Extra(fields, counts, j)
    decreases j - i
  {
    if i < j { ExtraGrows(fields, counts, i, j - 1); }
  }

  /** What an acceptable message must have room for once the arrays before field `i` are known. */
  lemma {:induction false} AcceptableSize(s: seq<byte>, head: nat, fields: seq<Field>, i: nat)
    requires i <= |fields| && Acceptable(s, head, fields)
    ensures var c := Arrivals(s, head, fields);
            && MinSize(head, fields) + Extra(fields, c, i) <= |s| <= SizeOf(head, fields)
            && (Pos(fields, i) == NumVar(fields) ==> MinSize(head, fields) + Extra(fields, c, i) == |s|)
  {
    hide WireOffset, Extra, Pos, Arrivals;
    var c, n := Arrivals(s, head, fields), |fields|;
    ExtraIsDifference(head, fields, c, n);
    ExtraBound(head, fields, c, n);
    ExtraGrows(fields, c, i, n);
  }

  /** The last position belongs to an array only if that array is the last field. */
  lemma {:induction false} MaxPosIsLast(fields: seq<Field>, i: nat)
    requires i < |fields| && fields[i].Array? && Pos(fields, i) == MaxPos(fields)
    ensures i + 1 == |fields|
  {
    if i + 1 < |fields| {
      ExtraGrows(fields, seq(|fields|, _ => 0), i + 1, |fields| - 1);
    }
  }

  /** The running message size in front of field `i`: the exact total once the last array has been seen. */
  predicate Running(s: seq<byte>, head: nat, fields: seq<Field>, i: nat, msghSize: nat)
    requires i <= |fields|
  {
    var min, extra := MinSize(head, fields), Extra(fields, Arrivals(s, head, fields), i);
    if Pos(fields, i) == NumVar(fields) then min + extra == |s| else msghSize == |s| - extra && min <= msghSize
  }

  /** A count is read inside the message. */
  lemma {:induction false} CountInside(s: seq<byte>, head: nat, fields: seq<Field>, i: nat, msghSize: nat)
    requires i < |fields| && fields[i].Array? && Running(s, head, fields, i, msghSize)
    ensures var c := Arrivals(s, head, fields);
            var at := Shift(fields, c, i) + Offset(head, fields, i);
            0 <= at && at + 4 <= |s| && ReadCount(s, at) == c[i]
  {
    hide WireOffset, Extra, Shift, Offset, Arrivals, ReadCount;
    var c := Arrivals(s, head, fields);
    ShiftedOffset(head, fields, c, i);
    ExtraIsDifference(head, fields, c, i);
    OffsetsGrow(head, fields, c, i + 1, |fields|);
    ArrivalRead(s, head, fields, i);
  }

  /** WriteCheckMsgSize: the check for array `i`, with InkP moved to its position. */
  method CheckMsgSize(s: seq<byte>, head: nat, fields: seq<Field>, i: nat, inP: int, msghSize: nat)
    returns (ok: bool, msghSize': nat, delta: nat)
    requires i < |fields| && fields[i].Array? && fields[i].elem > 0 && SizeOf(head, fields) < MOD32
    requires Running(s, head, fields, i, msghSize) && Within(fields, Arrivals(s, head, fields), i)
    requires inP == Shift(fields, Arrivals(s, head, fields), i)
    ensures ok ==> Within(fields, Arrivals(s, head, fields), i + 1) && Running(s, head, fields, i + 1, msghSize')
    ensures ok && Pos(fields, i) != MaxPos(fields) ==> delta == Contents(fields[i], Arrivals(s, head, fields)[i])
    ensures !ok ==> !Acceptable(s, head, fields)
  {
    hide WireOffset, Extra, Shift, Offset, Arrivals, ReadCount, ArgSize, Contents, MinSize, SizeOf, Acceptable, MaxPos;
    ghost var c := Arrivals(s, head, fields);
    msghSize', delta := msghSize, 0;
    CountInside(s, head, fields, i, msghSize);
    ExtraGrows(fields, c, i + 1, |fields|);
    var f, min := fields[i], MinSize(head, fields);
    var count := ReadCount(s, inP + Offset(head, fields, i));
    if Pos(fields, i) != MaxPos(fields) {
      delta := ArgSize(f, count);
    } else {
      MaxPosIsLast(fields, i);
    }
    if count > f.max {
      TooMany(s, head, fields, i);
      return false, msghSize', delta;
    }
    ContentsBound(head, fields, c, i);
    if Acceptable(s, head, fields) { AcceptableSize(s, head, fields, i + 1); }
    var last := Pos(fields, i) == MaxPos(fields) || Pos(fields, i) + 1 == NumVar(fields);
    var bad := CheckArgSize(min, msghSize, f, count, last);
    if !bad && !last { msghSize' := msghSize - delta; }
    ok := !bad;
  }

  lemma {:induction false} TooMany(s: seq<byte>, head: nat, fields: seq<Field>, i: nat)
    requires i < |fields| && fields[i].Array? && Arrivals(s, head, fields)[i] > fields[i].max
    ensures !Acceptable(s, head, fields)
  {
  }

  // ----- the whole check -----

  /** The pointers In0P..InkP: each is where the structure starts for the fields at its position. */
  predicate Pointers(fields: seq<Field>, counts: seq<nat>, inPs: seq<int>, n: nat)
    requires n <= |fields| == |counts|
  {
    forall i :: 0 <= i < n ==> Pos(fields, i) < |inPs| && inPs[Pos(fields, i)] == Shift(fields, counts, i)
  }

  /** The state of the check in front of field `i`; `delta` belongs to an array that has just been checked. */
  predicate Checking(s: seq<byte>, head: nat, fields: seq<Field>, i: nat, inPs: seq<int>, msghSize: nat, delta: nat)
    requires i <= |fields|
  {
    var c := Arrivals(s, head, fields);
    && Within(fields, c, i) && Running(s, head, fields, i, msghSize) && Pointers(fields, c, inPs, i)
    && |inPs| == Pos(fields, Passed(fields, i)) + 1
    && inPs[|inPs| - 1] == Shift(fields, c, Passed(fields, i))
    && (Pending(fields, i).Some? && i < |fields| ==> delta == Contents(fields[i - 1], c[i - 1]))
  }

  /** WriteAdjustRequestMsgPtr: the pointer for field `i`, moved over the array checked last if there is one. */
  method AdjustPtr(fields: seq<Field>, ghost c: seq<nat>, i: nat, inPs: seq<int>, delta: nat) returns (inPs': seq<int>)
    requires i < |fields| == |c| && Pointers(fields, c, inPs, i)
    requires |inPs| == Pos(fields, Passed(fields, i)) + 1 && inPs[|inPs| - 1] == Shift(fields, c, Passed(fields, i))
    requires Pending(fields, i).Some? ==> delta == Contents(fields[i - 1], c[i - 1])
    ensures |inPs'| == Pos(fields, i) + 1 && inPs'[Pos(fields, i)] == Shift(fields, c, i)
    ensures Pointers(fields, c, inPs', i + 1)
  {
    hide Contents, Reserved;
    inPs' := inPs;
    var lastVarArg := Pending(fields, i);
    if lastVarArg.Some? && Pos(fields, lastVarArg.value) < Pos(fields, i) {
      inPs' := inPs' + [inPs'[|inPs'| - 1] + delta - Reserved(fields[lastVarArg.value])];
    }
  }

  lemma {:induction false} RunningKeeps(s: seq<byte>, head: nat, fields: seq<Field>, i: nat, msghSize: nat)
    requires i < |fields| && fields[i].Fixed? && Running(s, head, fields, i, msghSize)
    ensures Running(s, head, fields, i + 1, msghSize)
  {
    hide Arrivals;
  }

  lemma {:induction false} PassedNext(fields: seq<Field>, c: seq<nat>, i: nat)
    requires i < |fields| == |c|
    ensures var k := Passed(fields, i + 1); Pos(fields, k) == Pos(fields, i) && Shift(fields, c, k) == Shift(fields, c, i)
  {
  }

  /** One argument of the WriteCheckRequest loop. */
  method CheckNext(s: seq<byte>, head: nat, fields: seq<Field>, i: nat, inPs: seq<int>, msghSize: nat, delta: nat)
    returns (ok: bool, inPs': seq<int>, msghSize': nat, delta': nat)
    requires i < |fields| && WellFormed(fields[i]) && SizeOf(head, fields) < MOD32
    requires Checking(s, head, fields, i, inPs, msghSize, delta)
    ensures ok ==> Checking(s, head, fields, i + 1, inPs', msghSize', delta')
    ensures !ok ==> !Acceptable(s, head, fields)
  {
    hide Arrivals, SizeOf, Acceptable, Running, Pointers, Shift, Pos, Contents, Passed, MaxPos;
    ghost var c := Arrivals(s, head, fields);
    msghSize', delta' := msghSize, delta;
    inPs' := AdjustPtr(fields, c, i, inPs, delta);
    PassedNext(fields, c, i);
    ok := true;
    if fields[i].Array? {
      ok, msghSize', delta' := CheckMsgSize(s, head, fields, i, inPs'[|inPs'| - 1], msghSize);
      if i + 1 < |fields| { NotMaxPos(fields, i); }
    } else {
      RunningKeeps(s, head, fields, i, msghSize);
    }
  }

  lemma {:induction false} NotMaxPos(fields: seq<Field>, i: nat)
    requires i + 1 < |fields| && fields[i].Array?
    ensures Pos(fields, i) != MaxPos(fields)
  {
    if Pos(fields, i) == MaxPos(fields) { MaxPosIsLast(fields, i); }
  }

  lemma {:induction false} HeadRefused(complex: bool, s: seq<byte>, head: nat, fields: seq<Field>)
    requires !complex && BadHead(complex, |s|, head, fields)
    ensures !Acceptable(s, head, fields)
  {
    hide Extra, Arrivals, Acceptable;
    if Acceptable(s, head, fields) {
      AcceptableSize(s, head, fields, 0);
      if NumVar(fields) == 0 {
        ExtraGrows(fields, Arrivals(s, head, fields), 0, |fields|);
        NoArrays(head, fields, |fields|);
      }
    }
  }

  lemma {:induction false} CheckingStarts(complex: bool, s: seq<byte>, head: nat, fields: seq<Field>)
    requires !BadHead(complex, |s|, head, fields)
    ensures Checking(s, head, fields, 0, [0], |s|, 0)
  {
    hide Arrivals;
    if NumVar(fields) == 0 { NoArrays(head, fields, |fields|); }
  }

  lemma {:induction false} CheckingEnds(s: seq<byte>, head: nat, fields: seq<Field>, inPs: seq<int>, msghSize: nat, delta: nat)
    requires Checking(s, head, fields, |fields|, inPs, msghSize, delta)
    ensures Acceptable(s, head, fields)
  {
    hide Arrivals, Extra, WireOffset;
    ExtraIsDifference(head, fields, Arrivals(s, head, fields), |fields|);
  }

  /**
   __MIG_check__Request: succeeds exactly on the simple messages that are
   requests, and sets the pointers so that every field is at its wire offset.
   */
  method CheckRequest(s: seq<byte>, complex: bool, head: nat, fields: seq<Field>) returns (ok: bool, inPs: seq<int>)
    requires AllWellFormed(fields) && SizeOf(head, fields) < MOD32
    ensures ok <==> !complex && Acceptable(s, head, fields)
    ensures ok ==> Pointers(fields, Arrivals(s, head, fields), inPs, |fields|)
  {
    hide Arrivals, Acceptable, SizeOf, MinSize, Running, Pos;
    inPs := [0];
    if BadHead(complex, |s|, head, fields) {
      if !complex { HeadRefused(complex, s, head, fields); }
      return false, inPs;
    }
    CheckingStarts(complex, s, head, fields);
    var i, msghSize: nat, delta: nat := 0, |s|, 0;
    while i < |fields|
      invariant 0 <= i <= |fields| && Checking(s, head, fields, i, inPs, msghSize, delta)
    {
      ok, inPs, msghSize, delta := CheckNext(s, head, fields, i, inPs, msghSize, delta);
      if !ok { return false, inPs; }
      i := i + 1;
    }
    CheckingEnds(s, head, fields, inPs, msghSize, delta);
    ok := true;
  }

  /**
   An accepted request is its minimum size and its padded array contents, and
   none of the sizes computed on the way is reduced to 32 bits.
   */
  lemma {:induction false} AcceptedSize(s: seq<byte>, head: nat, fields: seq<Field>, i: nat)
    requires Acceptable(s, head, fields) && SizeOf(head, fields) < MOD32 && i < |fields| && fields[i].Array?
    ensures var c := Arrivals(s, head, fields);
            && |s| == MinSize(head, fields) + Extra(fields, c, |fields|)
            && fields[i].elem * c[i] <= Contents(fields[i], c[i]) == ArgSize(fields[i], c[i])
            && MinSize(head, fields) + ArgSize(fields[i], c[i]) <= |s| < MOD32
  {
    hide Arrivals, Extra, ArgSize, MinSize, SizeOf, WireOffset, Pos, Padding;
    var c := Arrivals(s, head, fields);
    AcceptableSize(s, head, fields, i + 1);
    AcceptableSize(s, head, fields, |fields|);
    ContentsBound(head, fields, c, i);
  }
}
