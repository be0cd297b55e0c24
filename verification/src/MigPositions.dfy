/** Positions of arguments among the variable-sized arrays, and the size difference they cause. */
module MigPositions {
  import opened Wrappers
  import opened MigLayout
  import opened MigArguments
  import opened MigRoutine

  predicate HasKpd(a: Arg) { IsKpd(a.ty) && (a.sends || a.replies) }

  predicate InBody(a: Arg) { a.sends && !IsKpd(a.ty) }

  /** Whether argument `i` is given a position of its own. */
  predicate Own(args: seq<Arg>, i: nat)
    requires Linked(args) && i < |args|
  {
    args[i].parent.Some? ==> HasKpd(args[args[i].parent.value])
  }

  /** A field of the request body. */
  predicate IsField(args: seq<Arg>, i: nat)
    requires Linked(args) && i < |args|
  {
    Own(args, i) && InBody(args[i])
  }

  /** The number of variable-sized arrays among the first `i` arguments. */
  function VarsBefore(args: seq<Arg>, i: nat): nat
    requires Linked(args) && i <= |args|
  {
    if i == 0 then 0
    else VarsBefore(args, i - 1) + if IsField(args, i - 1) && IsVariable(args[i - 1].ty) then 1 else 0
  }

  /** A field is at the number of arrays before it; an implicit argument is where its parent is. */
  function Position(args: seq<Arg>, i: nat): nat
    requires Linked(args) && i < |args|
  {
    if !Own(args, i) then Position(args, args[i].parent.value)
    else if InBody(args[i]) then VarsBefore(args, i)
    else args[i].requestPos
  }

  function LastPosition(args: seq<Arg>, i: nat): nat
    requires Linked(args) && i <= |args|
  {
    if i == 0 then 0 else if IsField(args, i - 1) then VarsBefore(args, i - 1) else LastPosition(args, i - 1)
  }

  /** The first `i` arguments have their positions, the others are as they were. */
  predicate Placed(was: seq<Arg>, args: seq<Arg>, i: nat)
    requires Linked(was)
  {
    && |args| == |was|
    && forall j :: 0 <= j < |was| ==> args[j] == if j < i then was[j].(requestPos := Position(was, j)) else was[j]
  }

  lemma {:induction false} PlacesNext(was: seq<Arg>, args: seq<Arg>, i: nat, pos: nat)
    requires Linked(was) && i < |was| && Placed(was, args, i) && pos == Position(was, i)
    ensures Placed(was, args[i := args[i].(requestPos := pos)], i + 1)
  {
    hide Position;
  }

  lemma {:induction false} OwnWhilePlacing(was: seq<Arg>, args: seq<Arg>, i: nat)
    requires Linked(was) && i < |was| && Placed(was, args, i)
    ensures args[i] == was[i]
    ensures args[i].parent.Some? ==> args[i].parent.value < i && HasKpd(args[args[i].parent.value]) == Own(was, i)
    ensures !Own(was, i) ==> args[args[i].parent.value].requestPos == Position(was, i)
  {
  }

  /** rtCheckVariable. */
  method CheckVariable(rt: Routine) returns (numRequestVar: nat, maxRequestPos: nat)
    requires Linked(rt.args)
    modifies rt
    ensures Placed(old(rt.args), rt.args, |old(rt.args)|)
    ensures numRequestVar == VarsBefore(old(rt.args), |old(rt.args)|)
    ensures maxRequestPos == LastPosition(old(rt.args), |old(rt.args)|)
  {
    hide HasKpd, InBody, IsVariable, Linked, Placed;
    ghost var was := rt.args;
    numRequestVar, maxRequestPos := 0, 0;
    var i := 0;
    assert Placed(was, rt.args, 0) by { NothingPlaced(was); }
    while i < |rt.args|
      invariant 0 <= i <= |rt.args| == |was|
      invariant Placed(was, rt.args, i)
      invariant numRequestVar == VarsBefore(was, i) && maxRequestPos == LastPosition(was, i)
    {
      OwnWhilePlacing(was, rt.args, i);
      var arg := rt.args[i];
      var pos := arg.requestPos;
      if arg.parent.None? || HasKpd(rt.args[arg.parent.value]) {
        if InBody(arg) {
          pos := numRequestVar;
          maxRequestPos := numRequestVar;
          if IsVariable(arg.ty) { numRequestVar := numRequestVar + 1; }
        }
      } else {
        pos := rt.args[arg.parent.value].requestPos;
      }
      PlacesNext(was, rt.args, i, pos);
      rt.args := rt.args[i := arg.(requestPos := pos)];
      i := i + 1;
    }
  }

  lemma {:induction false} NothingPlaced(was: seq<Arg>)
    requires Linked(was)
    ensures Placed(was, was, 0)
  {
  }

  // ----- the argument list as the layout of a request -----

  /** The field an argument becomes. */
  function FieldOf(t: IpcType): Field { if IsVariable(t) then Array(t.size / 8, t.number) else Fixed(TypeSize(t)) }

  function Layout(args: seq<Arg>, i: nat): seq<Field>
    requires Linked(args) && i <= |args|
  {
    if i == 0 then [] else Layout(args, i - 1) + if IsField(args, i - 1) then [FieldOf(args[i - 1].ty)] else []
  }

  lemma {:induction false} LayoutGrows(args: seq<Arg>, i: nat, j: nat)
    requires Linked(args) && i <= j <= |args|
    ensures Layout(args, i) <= Layout(args, j)
    decreases j - i
  {
    if i < j { LayoutGrows(args, i, j - 1); }
  }

  lemma {:induction false} PosOfPrefix(xs: seq<Field>, ys: seq<Field>, k: nat)
    requires k <= |xs| && xs <= ys
    ensures Pos(xs, k) == Pos(ys, k)
    decreases k
  {
    if k > 0 { PosOfPrefix(xs, ys, k - 1); }
  }

  /** The number of arrays before an argument is the layout position of the field it becomes. */
  lemma {:induction false} VarsBeforeIsPos(args: seq<Arg>, i: nat)
    requires Linked(args) && i <= |args|
    ensures VarsBefore(args, i) == Pos(Layout(args, i), |Layout(args, i)|)
    decreases i
  {
    hide IsKpd, IsVariable, Own, InBody;
    if i > 0 {
      VarsBeforeIsPos(args, i - 1);
      var l, m := Layout(args, i - 1), Layout(args, i);
      PosOfPrefix(l, m, |l|);
    }
  }

  /** Positions agree with the layout that the stubs are generated for. */
  lemma {:induction false} FieldPosition(args: seq<Arg>, i: nat)
    requires Linked(args) && i < |args| && IsField(args, i)
    ensures var l, k := Layout(args, |args|), |Layout(args, i)|;
            k < |l| && l[k] == FieldOf(args[i].ty) && Position(args, i) == Pos(l, k)
  {
    hide IsKpd, IsVariable, VarsBefore;
    VarsBeforeIsPos(args, i);
    LayoutGrows(args, i + 1, |args|);
    LayoutGrows(args, i, i + 1);
    PosOfPrefix(Layout(args, i), Layout(args, |args|), |Layout(args, i)|);
  }

  /** The count of an inline array, though listed behind it, has the position of the array. */
  lemma {:induction false} CountPosition(args: seq<Arg>, i: nat)
    requires Linked(args) && i < |args| && args[i].parent.Some? && IsField(args, args[i].parent.value)
    ensures var p := args[i].parent.value;
            var l, k := Layout(args, |args|), |Layout(args, p)|;
            k < |l| && l[k] == FieldOf(args[p].ty) && Position(args, i) == Pos(l, k)
  {
    hide Layout, Pos, FieldOf;
    FieldPosition(args, args[i].parent.value);
  }

  // ----- rtSizeDelta -----

  function Align4(n: nat): nat { (n + 3) / 4 * 4 }

  /** The room reserved for arrays by the first `i` arguments that are in the request. */
  function ReservedSum(args: seq<Arg>, i: nat): nat
    requires i <= |args|
  {
    if i == 0 then 0
    else
      var a := args[i - 1];
      ReservedSum(args, i - 1) + if a.request && IsVariable(a.ty) then TypeSize(a.ty) + PadSize(a.ty) else 0
  }

  lemma {:induction false} AlignedStays(n: nat)
    requires n % 4 == 0
    ensures Align4(n) == n
  {
  }

  /** rtSizeDelta: the largest minus the smallest size, through rounding up before every argument. */
  method SizeDelta(args: seq<Arg>, head: nat) returns (delta: nat)
    requires head % 4 == 0
    ensures delta == ReservedSum(args, |args|)
  {
    hide TypeSize, PadSize, MinTypeSize, IsVariable, Align4;
    var minSize: nat, maxSize: nat := head, head;
    for i := 0 to |args|
      invariant minSize % 4 == 0 && maxSize % 4 == 0 && maxSize == minSize + ReservedSum(args, i)
    {
      var a := args[i];
      if a.request {
        MinTypeSizeAligned(a.ty);
        AlignedStays(minSize);
        AlignedStays(maxSize);
        minSize := Align4(minSize) + MinTypeSize(a.ty);
        maxSize := Align4(maxSize) + MinTypeSize(a.ty);
        AlignedStays(maxSize);
        if IsVariable(a.ty) {
          maxSize := Align4(maxSize) + TypeSize(a.ty);
          maxSize := maxSize + PadSize(a.ty);
        }
      }
    }
    delta := maxSize - minSize;
  }

  // ----- the lists that the walk produces -----

  /** How an argument's request bit goes with its body bit, and with its parent. */
  predicate ChildOk(parent: Arg, c: Arg) { if HasKpd(parent) then c.request == c.sends else !c.request }

  predicate OkAt(args: seq<Arg>, at: nat, j: nat)
    requires j < |args|
  {
    match args[j].parent
    case None => args[j].request == args[j].sends
    case Some(p) => at <= p < at + j && ChildOk(args[p - at], args[j])
  }

  /** Every argument of a list that starts at index `at` is in order. */
  predicate Ok(args: seq<Arg>, at: nat) { forall j :: 0 <= j < |args| ==> OkAt(args, at, j) }

  lemma {:induction false} OkConcat(xs: seq<Arg>, ys: seq<Arg>, at: nat)
    requires Ok(xs, at) && Ok(ys, at + |xs|)
    ensures Ok(xs + ys, at)
  {
    hide ChildOk;
    forall j | 0 <= j < |xs + ys| ensures OkAt(xs + ys, at, j) {
      if j < |xs| { assert OkAt(xs, at, j); } else { assert OkAt(ys, at + |xs|, j - |xs|); }
    }
  }

  /** An original argument: no parent, and in the request exactly if it is sent in the body. */
  predicate Original(a: Arg) { a.parent.None? && a.request == a.sends && Regular(a.ty) }

  lemma {:induction false} CountOk(a: Arg, at: nat, k: nat)
    requires Original(a) && Counts(a)
    ensures ChildOk(a, CountArg(a, at))
    ensures CountArg(a, at).ty.varArray ==> ChildOk(CountArg(a, at), CountArg(CountArg(a, at), k))
  {
  }

  /** `c` is a child of `a`, which is at index `at`. */
  predicate IsChild(a: Arg, at: nat, c: Arg) { c.parent == Some(at) && ChildOk(a, c) }

  predicate AllChildren(a: Arg, at: nat, cs: seq<Arg>) { forall j :: 0 <= j < |cs| ==> IsChild(a, at, cs[j]) }

  predicate AllRoots(cs: seq<Arg>) { forall j :: 0 <= j < |cs| ==> cs[j].parent.None? && cs[j].request == cs[j].sends }

  lemma {:induction false} ShapeOk(a: Arg, at: nat, p: seq<Arg>, o: seq<Arg>, c: seq<Arg>, d: seq<Arg>)
    requires Original(a) && AllChildren(a, at, p) && AllRoots(o) && AllChildren(a, at, d)
    requires |c| > 0 ==> IsChild(a, at, c[0]) && AllChildren(c[0], at + 1 + |p| + |o|, c[1..])
    ensures Ok([a] + p + o + c + d, at)
  {
    hide ChildOk;
    var f, k := [a] + p + o + c + d, 1 + |p| + |o|;
    forall j | 0 <= j < |f| ensures OkAt(f, at, j) {
      if 1 <= j < 1 + |p| {
        assert f[j] == p[j - 1];
      } else if 1 + |p| <= j < k {
        assert f[j] == o[j - 1 - |p|];
      } else if k < j < k + |c| {
        assert f[j] == c[1..][j - k - 1] && f[k] == c[0];
      } else if k + |c| <= j {
        assert f[j] == d[j - k - |c|];
      }
    }
  }

  lemma {:induction false} FamilyOk(a: Arg, at: nat)
    requires Original(a)
    ensures Ok(Family(a, at), at)
  {
    hide CountArg, ChildOk, Original, Ok, Counts, CountsInOut, Deallocates;
    var p, o, d := PolyOf(a, at), CountInOutOf(a), DeallocOf(a, at);
    var k := at + 1 + |p| + |o|;
    PlainOk(a, at);
    if Counts(a) {
      CountParents(a, at, k);
      CountOk(a, at, k);
    }
    ShapeOk(a, at, p, o, CountsOf(a, at, k), d);
  }

  lemma {:induction false} PlainOk(a: Arg, at: nat)
    ensures ChildOk(a, PolyArg(at)) && ChildOk(a, DeallocArg(at))
  {
  }

  lemma {:induction false} CountParents(a: Arg, at: nat, k: nat)
    ensures CountArg(a, at).parent == Some(at) && CountArg(CountArg(a, at), k).parent == Some(k)
  {
  }

  lemma {:induction false} FamiliesOk(args: seq<Arg>, at: nat)
    requires forall i :: 0 <= i < |args| ==> Original(args[i])
    ensures Ok(Families(args, at), at)
    decreases |args|
  {
    hide Family, Original, OkAt;
    if args != [] {
      var f := Family(args[0], at);
      FamilyOk(args[0], at);
      FamiliesOk(args[1..], at + |f|);
      OkConcat(f, Families(args[1..], at + |f|), at);
    }
  }

  lemma {:induction false} OkIsLinked(args: seq<Arg>)
    requires Ok(args, 0)
    ensures Linked(args)
    ensures forall i :: 0 <= i < |args| ==> (IsField(args, i) <==> args[i].request && !IsKpd(args[i].ty))
  {
    hide IsKpd;
    forall i | 0 <= i < |args| ensures args[i].parent.Some? ==> args[i].parent.value < i {
      assert OkAt(args, 0, i);
    }
    forall i | 0 <= i < |args| ensures IsField(args, i) <==> args[i].request && !IsKpd(args[i].ty) {
      assert OkAt(args, 0, i);
    }
  }

  /** Array elements are whole bytes. */
  predicate WholeBytes(args: seq<Arg>) {
    forall i :: 0 <= i < |args| && IsVariable(args[i].ty) ==> args[i].ty.size % 8 == 0
  }

  lemma {:induction false} FieldReserves(t: IpcType)
    requires IsVariable(t) ==> t.size % 8 == 0
    ensures Reserved(FieldOf(t)) == if IsVariable(t) then TypeSize(t) + PadSize(t) else 0
  {
    if IsVariable(t) { assert t.number * t.size == 8 * (t.size / 8 * t.number); }
  }

  lemma {:induction false} OffsetOfPrefix(head: nat, xs: seq<Field>, ys: seq<Field>, k: nat)
    requires k <= |xs| && xs <= ys
    ensures Offset(head, xs, k) == Offset(head, ys, k) && MinOffset(head, xs, k) == MinOffset(head, ys, k)
    decreases k
  {
    hide StructSize, Base;
    if k > 0 { OffsetOfPrefix(head, xs, ys, k - 1); }
  }

  /** What rtSizeDelta computes is what the structure has beyond the minimum size. */
  lemma {:induction false} ReservedSumIsDelta(head: nat, args: seq<Arg>, i: nat)
    requires Ok(args, 0) && WholeBytes(args) && i <= |args| && Linked(args)
    ensures ReservedSum(args, i) == SizeOf(head, Layout(args, i)) - MinSize(head, Layout(args, i))
    decreases i
  {
    hide TypeSize, PadSize, IsVariable, IsField, Base, Reserved, FieldOf, OkAt;
    if i > 0 {
      ReservedSumIsDelta(head, args, i - 1);
      OkIsLinked(args);
      var l, m, a := Layout(args, i - 1), Layout(args, i), args[i - 1];
      OffsetOfPrefix(head, l, m, |l|);
      VariableIsNotKpd(a.ty);
      FieldReserves(a.ty);
    }
  }

  lemma {:induction false} VariableIsNotKpd(t: IpcType)
    ensures IsVariable(t) ==> !IsKpd(t)
  {
  }

  /** The last position is the one of the last field, on which the exact size check turns. */
  lemma {:induction false} LastPositionIsMaxPos(args: seq<Arg>, i: nat)
    requires Linked(args) && i <= |args|
    ensures LastPosition(args, i) == MaxPos(Layout(args, i))
    decreases i
  {
    hide IsKpd, IsVariable, Own, InBody, VarsBefore;
    if i > 0 {
      LastPositionIsMaxPos(args, i - 1);
      var l, m := Layout(args, i - 1), Layout(args, i);
      VarsBeforeIsPos(args, i - 1);
      PosOfPrefix(l, m, |l|);
    }
  }

  /**
   The passes together: unless the walk fails, the list gets its families,
   positions and their counters are those of the layout, and the size difference
   is the one of the layout when array elements are whole bytes.
   */
  method Analyse(rt: Routine, head: nat) returns (ok: bool, numRequestVar: nat, maxRequestPos: nat, delta: nat)
    requires rt.Unlinked() && forall i :: 0 <= i < |rt.args| ==> Original(rt.args[i])
    requires head % 4 == 0
    modifies rt
    ensures ok <==> !SomeCrash(old(rt.args))
    ensures ok ==>
              var args := Families(old(rt.args), 0);
              && Linked(args) && Placed(args, rt.args, |args|)
              && numRequestVar == NumVar(Layout(args, |args|)) && maxRequestPos == MaxPos(Layout(args, |args|))
              && delta == ReservedSum(args, |args|)
              && (WholeBytes(args) ==> delta == SizeOf(head, Layout(args, |args|)) - MinSize(head, Layout(args, |args|)))
  {
    hide Families, Layout, Pos, SizeOf, MinSize, ReservedSum, Placed, Ok, MaxPos, WholeBytes, SomeCrash;
    numRequestVar, maxRequestPos, delta := 0, 0, 0;
    ghost var args := Families(rt.args, 0);
    FamiliesOk(rt.args, 0);
    OkIsLinked(args);
    ok := rt.CheckRoutineArgs();
    if !ok { return; }
    delta := SizeDelta(rt.args, head);
    if WholeBytes(args) { ReservedSumIsDelta(head, args, |args|); }
    VarsBeforeIsPos(args, |args|);
    LastPositionIsMaxPos(args, |args|);
    numRequestVar, maxRequestPos := CheckVariable(rt);
  }
}
