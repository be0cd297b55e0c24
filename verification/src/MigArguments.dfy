/**
 MIG's argument lists: types and their sizes, and the implicit arguments that
 are inserted into the list while it is walked.
 */
module MigArguments {
  import opened Wrappers
  import opened Arithmetic
  import opened MigLayout

  // ----- types -----

  /** The fields of an IPC type that decide its size and its implicit arguments; `size` is in bits. */
  datatype IpcType = IpcType(number: nat, size: nat, kpdNumber: nat, inLine: bool, migInLine: bool, portType: bool,
                             varArray: bool, elementVarArray: bool, polymorphic: bool, isString: bool)

  predicate IsKpd(t: IpcType) { !t.inLine || t.portType }

  predicate IsVariable(t: IpcType) { t.varArray && t.inLine && !t.portType }

  predicate HasSubCounts(t: IpcType) { t.kpdNumber > 1 && t.elementVarArray }

  const DESCRIPTOR_SIZE := 12

  function TypeSize(t: IpcType): nat {
    if IsKpd(t) then (if t.kpdNumber > 1 then t.kpdNumber * DESCRIPTOR_SIZE else DESCRIPTOR_SIZE)
    else (t.number * t.size + 7) / 8
  }

  function PadSize(t: IpcType): nat { if IsKpd(t) then 0 else Padding(TypeSize(t)) }

  /** A variable array is counted with its count only; a string has an offset as well. */
  function MinTypeSize(t: IpcType): nat {
    if IsVariable(t) then (if t.isString then 8 else 4) else TypeSize(t) + PadSize(t)
  }

  lemma {:induction false} MinTypeSizeAligned(t: IpcType)
    ensures MinTypeSize(t) % 4 == 0 && (IsVariable(t) ==> (TypeSize(t) + PadSize(t)) % 4 == 0)
  {
    hide TypeSize, Padding;
    DescriptorsAligned(t);
  }

  lemma {:induction false} DescriptorsAligned(t: IpcType)
    ensures IsKpd(t) ==> TypeSize(t) % 4 == 0
  {
    hide TypeSize, IsKpd;
    if IsKpd(t) {
      WholeDescriptors(t.kpdNumber);
      DescriptorSizes(t);
    }
  }

  lemma {:induction false} WholeDescriptors(n: nat)
    ensures n * DESCRIPTOR_SIZE % 4 == 0 && DESCRIPTOR_SIZE % 4 == 0
  {
    assert n * DESCRIPTOR_SIZE == 0 + 3 * n * 4;
    ModShift(0, 3 * n, 4);
  }

  lemma {:induction false} DescriptorSizes(t: IpcType)
    requires IsKpd(t)
    ensures TypeSize(t) == t.kpdNumber * DESCRIPTOR_SIZE || TypeSize(t) == DESCRIPTOR_SIZE
  {
  }

  /** Type declarations. */
  datatype TypeDecl =
    | Scalar(size: nat, port: bool, poly: bool, stringC: bool)
    | VarArrayOf(number: nat, base: TypeDecl)
    | ArrayOf(number: nat, base: TypeDecl)
    | PointerTo(base: TypeDecl)
    | StructOf(number: nat, base: TypeDecl)
    | CString(count: nat, varying: bool)
    | Alias(base: TypeDecl)

  /** What a declaration elaborates to, unless it is reported as too complicated. */
  function Elaborate(d: TypeDecl): Option<IpcType> {
    match d
    case Scalar(size, port, poly, stringC) =>
      Some(IpcType(1, size, if port || poly then 1 else 0, true, false, port || poly, false, false, poly, stringC))
    case VarArrayOf(n, base) =>
      (match Elaborate(base)
       case None => None
       case Some(t) =>
         if !t.inLine then
           if t.kpdNumber != 1 || n == 0 then None
           else Some(t.(kpdNumber := n, number := 1, varArray := true, isString := false, elementVarArray := t.varArray))
         else if t.varArray then None
         else if n > 0 then
           Some(t.(number := t.number * n, kpdNumber := if t.portType then t.kpdNumber * n else t.kpdNumber,
                   varArray := true, isString := false, elementVarArray := false))
         else
           Some(t.(number := 0, inLine := false, migInLine := true, kpdNumber := 1, varArray := true, isString := false,
                   elementVarArray := false)))
    case ArrayOf(n, base) =>
      (match Elaborate(base)
       case None => None
       case Some(t) =>
         if !t.inLine then
           if t.kpdNumber != 1 then None
           else Some(t.(kpdNumber := n, number := 1, varArray := false, isString := false, elementVarArray := t.varArray))
         else if t.varArray then None
         else Some(t.(number := t.number * n, kpdNumber := if t.portType then t.kpdNumber * n else t.kpdNumber,
                      isString := false, elementVarArray := false)))
    case PointerTo(base) =>
      (match Elaborate(base)
       case None => None
       case Some(t) => if !t.inLine && !t.migInLine then None
         else Some(t.(inLine := false, migInLine := false, isString := false, kpdNumber := 1)))
    case StructOf(n, base) =>
      (match Elaborate(base)
       case None => None
       case Some(t) =>
         if !t.inLine || t.varArray then None
         else Some(t.(number := t.number * n, isString := false, elementVarArray := false)))
    case CString(n, varying) => Some(IpcType(n, 8, 0, true, false, false, varying, false, false, true))
    case Alias(base) =>
      (match Elaborate(base)
       case None => None
       case Some(t) => Some(t.(elementVarArray := t.varArray)))
  }

  /** What elaborated types have in common. */
  predicate Regular(t: IpcType) {
    && (t.kpdNumber > 1 ==> IsKpd(t))
    && (t.isString && t.varArray ==> IsVariable(t))
  }

  lemma {:induction false} ElaboratedIsRegular(d: TypeDecl)
    requires Elaborate(d).Some?
    ensures Regular(Elaborate(d).value)
  {
    match d
    case Scalar(_, _, _, _) =>
    case CString(_, _) =>
    case VarArrayOf(_, base) => ElaboratedIsRegular(base);
    case ArrayOf(_, base) => ElaboratedIsRegular(base);
    case PointerTo(base) => ElaboratedIsRegular(base);
    case StructOf(_, base) => ElaboratedIsRegular(base);
    case Alias(base) => ElaboratedIsRegular(base);
  }

  /**
   An array type of any length has room for exactly its elements if and only if
   the element size is a whole number of bytes.
   */
  lemma {:induction false} ArrayRoomExact(size: nat)
    ensures (forall n: nat :: (n * size + 7) / 8 == n * ((size + 7) / 8)) <==> size % 8 == 0
  {
    if size % 8 == 0 {
      forall n: nat ensures (n * size + 7) / 8 == n * ((size + 7) / 8) {
        assert n * size == 8 * (n * (size / 8));
      }
    } else {
      assert (8 * size + 7) / 8 == size != 8 * ((size + 7) / 8);
    }
  }

  // ----- arguments -----

  datatype Role = Normal | Poly | CountInOut | Count | SubCount | Dealloc

  /**
   An argument: its bits in the request and the reply (`sends` and `replies`
   are the body bits), its flags, and the index of its parent in the list.
   */
  datatype Arg = Arg(role: Role, ty: IpcType, request: bool, reply: bool, sends: bool, replies: bool,
                     maybeDealloc: bool, countInOut: bool, parent: Option<nat>, requestPos: nat)

  const INTEGER: IpcType := IpcType(1, 32, 0, true, false, false, false, false, false, false)

  function Implicit(role: Role, ty: IpcType, parent: Option<nat>): Arg {
    Arg(role, ty, false, false, false, false, false, false, parent, 0)
  }

  predicate Deallocates(a: Arg) { a.maybeDealloc && IsKpd(a.ty) }

  predicate CountsInOut(a: Arg) { a.countInOut && a.reply && a.ty.varArray && a.ty.inLine }

  predicate Counts(a: Arg) { a.ty.varArray || HasSubCounts(a.ty) }

  /** An argument whose second count would be linked to a count that it does not have. */
  predicate Crashes(a: Arg) { CountsInOut(a) && HasSubCounts(a.ty) }

  predicate SomeCrash(args: seq<Arg>) { exists i :: 0 <= i < |args| && Crashes(args[i]) }

  /** Such a type exists: another name for an in-line array of ports, as its element is the array type itself. */
  lemma {:induction false} AliasedPortArrayCrashes(a: Arg)
    requires a.countInOut && a.reply
    requires Elaborate(Alias(VarArrayOf(10, Scalar(32, true, false, false)))) == Some(a.ty)
    ensures Crashes(a) && !IsVariable(a.ty)
    ensures Elaborate(VarArrayOf(10, Scalar(32, true, false, false))).Some?
    ensures !HasSubCounts(Elaborate(VarArrayOf(10, Scalar(32, true, false, false))).value)
  {
  }

  function PolyArg(at: nat): Arg { Implicit(Poly, INTEGER, Some(at)) }

  function DeallocArg(at: nat): Arg { Implicit(Dealloc, INTEGER, Some(at)) }

  function CountInOutArg(): Arg { Implicit(CountInOut, INTEGER, None).(request := true, sends := true) }

  /** The count of argument `a` at index `at`; the sub-counts of an array of varying arrays are an array themselves. */
  function CountArg(a: Arg, at: nat): Arg {
    var c :=
      if HasSubCounts(a.ty) then Implicit(SubCount, INTEGER.(number := a.ty.kpdNumber, varArray := a.ty.varArray), Some(at))
      else Implicit(Count, INTEGER, Some(at));
    if a.ty.isString then c
    else c.(request := a.request && !IsVariable(a.ty), reply := a.reply && !IsVariable(a.ty),
            sends := a.sends, replies := a.replies)
  }

  function PolyOf(a: Arg, at: nat): seq<Arg> { if a.ty.polymorphic then [PolyArg(at)] else [] }

  function CountInOutOf(a: Arg): seq<Arg> { if CountsInOut(a) then [CountInOutArg()] else [] }

  function CountOf(a: Arg, at: nat): seq<Arg> { if Counts(a) then [CountArg(a, at)] else [] }

  function DeallocOf(a: Arg, at: nat): seq<Arg> { if Deallocates(a) then [DeallocArg(at)] else [] }

  /** The implicit arguments inserted behind `a` at index `at`, in the order the walk leaves them in. */
  function Spawned(a: Arg, at: nat): seq<Arg> {
    PolyOf(a, at) + CountInOutOf(a) + CountOf(a, at) + DeallocOf(a, at)
  }

  /** The count at index `k` of the argument `a` at index `at`, and the count of the sub-counts if they vary. */
  function CountsOf(a: Arg, at: nat, k: nat): seq<Arg> {
    if !Counts(a) then []
    else
      var c := CountArg(a, at);
      [c] + if c.ty.varArray then [CountArg(c, k)] else []
  }

  /** An argument with everything it brings: arg, poly, countinout, count, the count of sub-counts, dealloc. */
  function Family(a: Arg, at: nat): (f: seq<Arg>)
    ensures |f| > 0
  {
    var p, o := PolyOf(a, at), CountInOutOf(a);
    [a] + p + o + CountsOf(a, at, at + 1 + |p| + |o|) + DeallocOf(a, at)
  }

  /** The families of all arguments of a list that starts at index `at`. */
  function Families(args: seq<Arg>, at: nat): seq<Arg> {
    if args == [] then [] else var f := Family(args[0], at); f + Families(args[1..], at + |f|)
  }

  lemma {:induction false} FamiliesFront(a: Arg, rest: seq<Arg>, at: nat)
    ensures var f := Family(a, at); Families([a] + rest, at) == f + Families(rest, at + |f|)
  {
    hide Family;
    assert ([a] + rest)[0] == a && ([a] + rest)[1..] == rest;
  }

  lemma {:induction false} Associates(x: seq<Arg>, y: seq<Arg>, z: seq<Arg>)
    ensures x + (y + z) == (x + y) + z
  {
  }

  lemma {:induction false} FamiliesConcat(xs: seq<Arg>, ys: seq<Arg>, at: nat)
    ensures Families(xs + ys, at) == Families(xs, at) + Families(ys, at + |Families(xs, at)|)
    decreases |xs|
  {
    if xs == [] {
      assert xs + ys == ys;
    } else {
      hide Family, Families;
      var a, rest := xs[0], xs[1..];
      var f := Family(a, at);
      var n := at + |f|;
      assert xs == [a] + rest;
      calc {
        Families(xs + ys, at);
        { Associates([a], rest, ys); }
        Families([a] + (rest + ys), at);
        { FamiliesFront(a, rest + ys, at); }
        f + Families(rest + ys, n);
        { FamiliesConcat(rest, ys, n); }
        f + (Families(rest, n) + Families(ys, n + |Families(rest, n)|));
        { Associates(f, Families(rest, n), Families(ys, n + |Families(rest, n)|)); }
        f + Families(rest, n) + Families(ys, n + |Families(rest, n)|);
        { FamiliesFront(a, rest, at); }
        Families(xs, at) + Families(ys, at + |Families(xs, at)|);
      }
    }
  }

  /** An argument without implicit ones is its own family. */
  lemma {:induction false} FamiliesOfOne(a: Arg, at: nat)
    ensures Families([a], at) == Family(a, at)
  {
    hide Family;
    assert [a][1..] == [];
  }

  lemma {:induction false} PlainParts(a: Arg, at: nat, k: nat)
    ensures Families(PolyOf(a, at), k) == PolyOf(a, at)
    ensures Families(CountInOutOf(a), k) == CountInOutOf(a)
    ensures Families(DeallocOf(a, at), k) == DeallocOf(a, at)
  {
    hide Families;
    PlainFamilies(PolyOf(a, at), k);
    PlainFamilies(CountInOutOf(a), k);
    PlainFamilies(DeallocOf(a, at), k);
  }

  /** The families of the arguments inserted behind `a` complete its family. */
  lemma {:induction false} SpawnedFamilies(a: Arg, at: nat)
    ensures [a] + Families(Spawned(a, at), at + 1) == Family(a, at)
  {
    hide Families, PolyOf, CountInOutOf, CountOf, DeallocOf, CountsOf;
    var p, o, c, d := PolyOf(a, at), CountInOutOf(a), CountOf(a, at), DeallocOf(a, at);
    var k := at + 1 + |p| + |o|;
    PlainParts(a, at, at + 1);
    PlainParts(a, at, at + 1 + |p|);
    CountFamily(a, at, k);
    PlainParts(a, at, k + |Families(c, k)|);
    FourFamilies(p, o, c, d, at + 1);
    FamilyShape(a, p, o, CountsOf(a, at, k), d);
  }

  lemma {:induction false} FamilyShape(a: Arg, p: seq<Arg>, o: seq<Arg>, c: seq<Arg>, d: seq<Arg>)
    ensures [a] + (p + o + c + d) == [a] + p + o + c + d
  {
  }

  lemma {:induction false} FourFamilies(p: seq<Arg>, o: seq<Arg>, c: seq<Arg>, d: seq<Arg>, at: nat)
    requires Families(p, at) == p && Families(o, at + |p|) == o
    requires Families(d, at + |p| + |o| + |Families(c, at + |p| + |o|)|) == d
    ensures Families(p + o + c + d, at) == p + o + Families(c, at + |p| + |o|) + d
  {
    hide Families;
    FamiliesConcat(p + o + c, d, at);
    FamiliesConcat(p + o, c, at);
    FamiliesConcat(p, o, at);
  }

  /** Arguments of integer type bring nothing. */
  lemma {:induction false} PlainFamilies(xs: seq<Arg>, at: nat)
    requires |xs| <= 1 && forall i :: 0 <= i < |xs| ==> xs[i].ty == INTEGER
    ensures Families(xs, at) == xs
  {
    if xs != [] {
      FamiliesOfOne(xs[0], at);
      assert Family(xs[0], at) == [xs[0]];
    }
  }

  lemma {:induction false} CountFamily(a: Arg, at: nat, k: nat)
    ensures Families(CountOf(a, at), k) == CountsOf(a, at, k)
  {
    if Counts(a) {
      var c := CountArg(a, at);
      var cc := CountArg(c, k);
      FamiliesOfOne(c, k);
      assert !c.ty.polymorphic && !CountsInOut(c) && !Deallocates(c) && Counts(c) == c.ty.varArray;
      assert !cc.ty.varArray;
    }
  }

  lemma {:induction false} SomeCrashConcat(xs: seq<Arg>, ys: seq<Arg>)
    ensures SomeCrash(xs + ys) <==> SomeCrash(xs) || SomeCrash(ys)
  {
    hide Crashes;
    assert forall i :: 0 <= i < |xs| ==> (xs + ys)[i] == xs[i];
    assert forall i :: 0 <= i < |ys| ==> (xs + ys)[|xs| + i] == ys[i];
    forall i | 0 <= i < |xs + ys| && Crashes((xs + ys)[i]) ensures SomeCrash(xs) || SomeCrash(ys) {
      if i >= |xs| { assert ys[i - |xs|] == (xs + ys)[i]; }
    }
  }

  lemma {:induction false} ImplicitNeverCrashes(a: Arg, at: nat, k: nat)
    ensures !SomeCrash(PolyOf(a, at)) && !SomeCrash(CountInOutOf(a)) && !SomeCrash(CountsOf(a, at, k)) && !SomeCrash(DeallocOf(a, at))
  {
    hide HasSubCounts, IsVariable;
  }

  /** Only the argument itself can crash in its family. */
  lemma {:induction false} FamilyCrashes(a: Arg, at: nat)
    ensures SomeCrash(Family(a, at)) <==> Crashes(a)
  {
    hide Crashes, PolyOf, CountInOutOf, CountsOf, DeallocOf, SomeCrash;
    var p, o, d := PolyOf(a, at), CountInOutOf(a), DeallocOf(a, at);
    var k := at + 1 + |p| + |o|;
    var c := CountsOf(a, at, k);
    ImplicitNeverCrashes(a, at, k);
    SomeCrashConcat([a] + p + o + c, d);
    SomeCrashConcat([a] + p + o, c);
    SomeCrashConcat([a] + p, o);
    SomeCrashConcat([a], p);
    OneCrash(a);
  }

  lemma {:induction false} OneCrash(a: Arg)
    ensures SomeCrash([a]) <==> Crashes(a)
  {
    hide Crashes;
    assert [a][0] == a;
  }

  /** So a walk meets such an argument exactly if the list it starts with has one. */
  lemma {:induction false} FamiliesCrash(args: seq<Arg>, at: nat)
    ensures SomeCrash(Families(args, at)) <==> SomeCrash(args)
    decreases |args|
  {
    hide Crashes, Family;
    if args != [] {
      var f := Family(args[0], at);
      FamilyCrashes(args[0], at);
      FamiliesCrash(args[1..], at + |f|);
      SomeCrashConcat(f, Families(args[1..], at + |f|));
      assert args == [args[0]] + args[1..];
      SomeCrashConcat([args[0]], args[1..]);
      OneCrash(args[0]);
    }
  }
}
