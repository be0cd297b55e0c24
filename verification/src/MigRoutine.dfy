/** The passes of routine.c over the argument list of a routine. */
module MigRoutine {
  import opened Wrappers
  import opened MigArguments

  function Inserted(args: seq<Arg>, i: nat, a: Arg): (r: seq<Arg>)
    requires i < |args|
    ensures |r| == |args| + 1
  {
    args[..i + 1] + [a] + args[i + 1..]
  }

  /** The list with `more` right behind argument `i`. */
  function With(args: seq<Arg>, i: nat, more: seq<Arg>): (r: seq<Arg>)
    requires i < |args|
    ensures |r| == |args| + |more| && r[i] == args[i]
  {
    args[..i + 1] + more + args[i + 1..]
  }

  lemma {:induction false} InsertedBefore(args: seq<Arg>, i: nat, more: seq<Arg>, a: Arg)
    requires i < |args|
    ensures Inserted(With(args, i, more), i, a) == With(args, i, [a] + more)
  {
  }

  /** The list with the implicit arguments of argument `i` behind it. */
  function Visited(args: seq<Arg>, i: nat): seq<Arg>
    requires i < |args|
  {
    With(args, i, Spawned(args[i], i))
  }

  /** Visiting an argument completes its family and leaves the other families to be visited. */
  lemma {:induction false} VisitKeepsFamilies(args: seq<Arg>, i: nat)
    requires i < |args|
    ensures var v := Visited(args, i);
            v[..i + 1] + Families(v[i + 1..], i + 1) == args[..i] + Families(args[i..], i)
            && |Families(v[i + 1..], i + 1)| < |Families(args[i..], i)|
  {
    hide Spawned, Family;
    var a, sp, rest, v := args[i], Spawned(args[i], i), args[i + 1..], Visited(args, i);
    assert v[i + 1..] == sp + rest && v[..i + 1] == args[..i] + [a];
    assert args[i..][0] == a && args[i..][1..] == rest;
    FamiliesConcat(sp, rest, i + 1);
    SpawnedFamilies(a, i);
  }

  /** Parents come before their implicit arguments. */
  predicate Linked(args: seq<Arg>) {
    forall i :: 0 <= i < |args| && args[i].parent.Some? ==> args[i].parent.value < i
  }

  // ----- pointers between arguments -----

  /** A pointer to an argument, as an index, once another one is inserted behind argument `i`. */
  function Pushed(link: Option<nat>, i: nat): Option<nat> {
    if link.Some? && link.value > i then Some(link.value + 1) else link
  }

  /** The pointers of all arguments then; the new one has none. */
  function Shifted(links: seq<Option<nat>>, i: nat): (r: seq<Option<nat>>)
    requires i < |links|
    ensures |r| == |links| + 1
  {
    seq(|links| + 1, k requires 0 <= k <= |links| =>
      if k <= i then Pushed(links[k], i) else if k == i + 1 then None else Pushed(links[k - 1], i))
  }

  /** Where arguments and their pointers are afterwards. */
  lemma {:induction false} Relocated(args: seq<Arg>, links: seq<Option<nat>>, i: nat, a: Arg, k: nat)
    requires i < |args| == |links| && k < |args|
    ensures var at := if k <= i then k else k + 1;
            Inserted(args, i, a)[at] == args[k] && Shifted(links, i)[at] == Pushed(links[k], i)
    ensures Inserted(args, i, a)[i + 1] == a && Shifted(links, i)[i + 1] == None
  {
  }

  lemma {:induction false} InsertedLinked(args: seq<Arg>, i: nat, a: Arg)
    requires i < |args| && Linked(args) && (a.parent.Some? ==> a.parent.value <= i)
    ensures Linked(Inserted(args, i, a))
  {
    var more := Inserted(args, i, a);
    forall k | 0 <= k < |more| && more[k].parent.Some? ensures more[k].parent.value < k {
      assert more[k] == if k <= i then args[k] else if k == i + 1 then a else args[k - 1];
    }
  }

  predicate InRange(links: seq<Option<nat>>) { forall k :: 0 <= k < |links| && links[k].Some? ==> links[k].value < |links| }

  /** No argument from `i` on has a pointer. */
  predicate NoneFrom(links: seq<Option<nat>>, i: nat) { forall k :: i <= k < |links| ==> links[k].None? }

  lemma {:induction false} ShiftedLinks(links: seq<Option<nat>>, i: nat)
    requires i < |links|
    ensures InRange(links) ==> InRange(Shifted(links, i))
    ensures NoneFrom(links, i + 1) ==> NoneFrom(Shifted(links, i), i + 1)
    ensures Shifted(links, i)[i] == Pushed(links[i], i)
  {
    hide Shifted;
    var r := Shifted(links, i);
    ShiftedAt(links, i, i);
    if InRange(links) {
      forall k | 0 <= k < |r| && r[k].Some? ensures r[k].value < |r| { ShiftedAt(links, i, k); }
    }
    if NoneFrom(links, i + 1) {
      forall k | i + 1 <= k < |r| ensures r[k].None? { ShiftedAt(links, i, k); }
    }
  }

  lemma {:induction false} ShiftedAt(links: seq<Option<nat>>, i: nat, k: nat)
    requires i < |links| && k <= |links|
    ensures Shifted(links, i)[k] ==
            if k <= i then Pushed(links[k], i) else if k == i + 1 then None else Pushed(links[k - 1], i)
  {
  }

  /**
   The second count at `k` is right in front of the count of the array it is for,
   one of the first arguments up to `n`, and the two point at each other.
   */
  predicate PairAt(args: seq<Arg>, cInOut: seq<Option<nat>>, n: nat, k: nat)
    requires k < |args| == |cInOut|
  {
    && args[k] == CountInOutArg() && k + 1 < |args|
    && args[k + 1].role == Count && args[k + 1].parent.Some? && args[k + 1].parent.value <= n
    && args[k + 1].parent.value < k && CountsInOut(args[args[k + 1].parent.value])
    && cInOut[k] == Some(k + 1) && cInOut[k + 1] == Some(k)
  }

  /** Every second count is paired. */
  predicate Paired(args: seq<Arg>, cInOut: seq<Option<nat>>, n: nat) {
    |cInOut| == |args| && forall k :: 0 <= k < |args| && args[k].role == CountInOut ==> PairAt(args, cInOut, n, k)
  }

  /** Pairs stay together when something is inserted that is not between the two. */
  lemma {:induction false} PairsPushed(args: seq<Arg>, cInOut: seq<Option<nat>>, i: nat, a: Arg, k: nat)
    requires i < |args| && Paired(args, cInOut, i) && args[i].role != CountInOut
    requires k <= |args| && k != i + 1 && (if k <= i then args[k] else args[k - 1]).role == CountInOut
    ensures PairAt(Inserted(args, i, a), Shifted(cInOut, i), i, k)
  {
    hide CountsInOut, Inserted, Shifted;
    var was := if k <= i then k else k - 1;
    Relocated(args, cInOut, i, a, was);
    assert PairAt(args, cInOut, i, was);
    Relocated(args, cInOut, i, a, was + 1);
    Relocated(args, cInOut, i, a, args[was + 1].parent.value);
  }

  lemma {:induction false} PairsKept(args: seq<Arg>, cInOut: seq<Option<nat>>, i: nat, a: Arg)
    requires i < |args| && Paired(args, cInOut, i) && args[i].role != CountInOut && a.role != CountInOut
    ensures Paired(Inserted(args, i, a), Shifted(cInOut, i), i)
  {
    hide PairAt, Shifted;
    var more := Inserted(args, i, a);
    forall k | 0 <= k < |more| && more[k].role == CountInOut ensures PairAt(more, Shifted(cInOut, i), i, k) {
      assert more[k] == if k <= i then args[k] else if k == i + 1 then a else args[k - 1];
      PairsPushed(args, cInOut, i, a, k);
    }
  }

  /** A second count, inserted between an array and its count and linked to that, is one more pair. */
  lemma {:induction false} PairAdded(args: seq<Arg>, cInOut: seq<Option<nat>>, i: nat)
    requires i + 1 < |args| && Paired(args, cInOut, i) && args[i].role != CountInOut && CountsInOut(args[i])
    requires args[i + 1].role == Count && args[i + 1].parent == Some(i)
    ensures Paired(Inserted(args, i, CountInOutArg()), Shifted(cInOut, i)[i + 1 := Some(i + 2)][i + 2 := Some(i + 1)], i)
  {
    assert |cInOut| == |args|;
    hide CountsInOut, Shifted, Paired;
    var more := Inserted(args, i, CountInOutArg());
    var links := Shifted(cInOut, i)[i + 1 := Some(i + 2)][i + 2 := Some(i + 1)];
    forall k | 0 <= k < |more| && more[k].role == CountInOut ensures PairAt(more, links, i, k) {
      assert more[k] == if k <= i then args[k] else if k == i + 1 then CountInOutArg() else args[k - 1];
      if k == i + 1 {
        assert more[i] == args[i] && more[i + 2] == args[i + 1];
      } else {
        PairsPushed(args, cInOut, i, CountInOutArg(), k);
        assert k != i && k != i + 2;
      }
    }
    MorePairs(more, links, i);
  }

  lemma {:induction false} MorePairs(args: seq<Arg>, cInOut: seq<Option<nat>>, n: nat)
    requires |cInOut| == |args| && forall k :: 0 <= k < |args| && args[k].role == CountInOut ==> PairAt(args, cInOut, n, k)
    ensures Paired(args, cInOut, n)
  {
  }

  lemma {:induction false} PairsLater(args: seq<Arg>, cInOut: seq<Option<nat>>, n: nat)
    requires Paired(args, cInOut, n)
    ensures Paired(args, cInOut, n + 1)
  {
    forall k | 0 <= k < |args| && args[k].role == CountInOut ensures PairAt(args, cInOut, n + 1, k) {
      assert PairAt(args, cInOut, n, k);
    }
  }

  /** The argument list, and which argument each one has as its count (argCount) and as its other count (argCInOut). */
  class Routine {
    var args: seq<Arg>
    var count: seq<Option<nat>>
    var cInOut: seq<Option<nat>>

    ghost predicate Valid()
      reads this
    {
      |count| == |cInOut| == |args| && Linked(args) && InRange(count)
    }

    /** As it is parsed. */
    ghost predicate Unlinked()
      reads this
    {
      Valid() && NoneFrom(count, 0) && NoneFrom(cInOut, 0)
    }

    constructor (args: seq<Arg>)
      requires Linked(args)
      ensures this.args == args && Unlinked()
    {
      this.args := args;
      count, cInOut := seq(|args|, _ => None), seq(|args|, _ => None);
    }

    /** The new argument is put right behind argument `i`; pointers still point at the arguments they did. */
    method Insert(i: nat, a: Arg)
      requires Valid() && i < |args| && (a.parent.Some? ==> a.parent.value <= i)
      modifies this
      ensures Valid() && args == Inserted(old(args), i, a)
      ensures count == Shifted(old(count), i) && cInOut == Shifted(old(cInOut), i)
    {
      hide Linked, Shifted, InRange;
      InsertedLinked(args, i, a);
      ShiftedLinks(count, i);
      args := args[..i + 1] + [a] + args[i + 1..];
      count := Shifted(count, i);
      cInOut := Shifted(cInOut, i);
    }

    method AddDeallocArg(i: nat)
      requires Valid() && i < |args|
      modifies this
      ensures Valid() && args == Inserted(old(args), i, DeallocArg(i))
      ensures count == Shifted(old(count), i) && cInOut == Shifted(old(cInOut), i)
    {
      Insert(i, DeallocArg(i));
    }

    /**
     The count goes right behind its argument and has it as parent. An array of
     varying arrays gets an array of counts, one for each, and no count of its
     own. A count is sent and returned where its argument is, but that of a
     string only inside the message, and that of an in-line array is not a field
     of its own. A count of sub-counts is known to the array they belong to as well.
     */
    method AddCountArg(i: nat) returns (own: bool)
      requires Valid() && i < |args|
      modifies this
      ensures Valid() && cInOut == Shifted(old(cInOut), i)
      ensures own ==> count[i] == Some(i + 1)
      ensures !own ==> count == Shifted(old(count), i)
      ensures old(NoneFrom(count, i + 1)) ==> NoneFrom(count, i + 1)
      ensures args == Inserted(old(args), i, CountArg(old(args[i]), i))
      ensures var a, c := old(args[i]), args[i + 1];
              && args[..i + 1] == old(args[..i + 1]) && args[i + 2..] == old(args[i + 1..])
              && c.parent == Some(i) && own == (c.role == Count) == !HasSubCounts(a.ty)
              && (c.sends ==> a.sends) && (c.replies ==> a.replies) && (c.request ==> c.sends || a.request != a.sends)
              && (a.ty.isString ==> !c.sends && !c.replies) && (IsVariable(a.ty) ==> !c.request && !c.reply)
              && !IsKpd(c.ty) && c.ty.number == (if own then 1 else a.ty.kpdNumber) && c.ty.varArray == (!own && a.ty.varArray)
    {
      hide Shifted, CountArg, HasSubCounts, Linked, InRange, IsVariable;
      var a := args[i];
      CountMeans(a, i);
      var c;
      c, own := NewCount(a, i);
      ShiftedLinks(count, i);
      ParentBefore(args, i);
      Insert(i, c);
      if own {
        LinkSet(count, i, i + 1);
        count := count[i := Some(i + 1)];
        if a.parent.Some? {
          LinkSet(count, a.parent.value, i + 1);
          count := count[a.parent.value := Some(i + 1)];
        }
      }
    }

    /** A count, or an array of counts for arrays. */
    static method NewCount(a: Arg, i: nat) returns (count: Arg, own: bool)
      ensures count == CountArg(a, i) && own == !HasSubCounts(a.ty)
    {
      if HasSubCounts(a.ty) {
        count := Implicit(SubCount, INTEGER.(number := a.ty.kpdNumber, varArray := a.ty.varArray), Some(i));
        own := false;
      } else {
        count := Implicit(Count, INTEGER, Some(i));
        own := true;
      }
      if !a.ty.isString {
        count := count.(request := a.request, reply := a.reply, sends := a.sends, replies := a.replies);
        if IsVariable(a.ty) { count := count.(request := false, reply := false); }
      }
    }

    /**
     The second count goes right behind argument `i`, and it and the count of that
     argument then point at each other. Without a count there is a null pointer.
     */
    method AddCountInOutArg(i: nat) returns (ok: bool)
      requires Valid() && i < |args|
      modifies this
      ensures Valid() && args == Inserted(old(args), i, CountInOutArg()) && count == Shifted(old(count), i)
      ensures ok <==> old(count[i]).Some?
      ensures ok ==>
                var c := count[i].value;
                && args[c] == old(args[count[i].value]) && args[i + 1].role == CountInOut && args[i + 1].parent.None?
                && cInOut[i + 1] == Some(c) && cInOut[c] == Some(i + 1)
                && cInOut == Shifted(old(cInOut), i)[i + 1 := Some(c)][c := Some(i + 1)]
    {
      Insert(i, CountInOutArg());
      var c := count[i];
      if c.None? {
        return false;
      }
      cInOut := cInOut[i + 1 := c][c.value := Some(i + 1)];
      ok := true;
    }

    method AddPolyArg(i: nat)
      requires Valid() && i < |args|
      modifies this
      ensures Valid() && args == Inserted(old(args), i, PolyArg(i))
      ensures count == Shifted(old(count), i) && cInOut == Shifted(old(cInOut), i)
    {
      Insert(i, PolyArg(i));
    }

    /** The first two insertions for argument `i`. */
    method VisitCount(i: nat)
      requires Valid() && i < |args| && NoneFrom(count, i)
      modifies this
      ensures Valid() && args == With(old(args), i, CountOf(old(args[i]), i) + DeallocOf(old(args[i]), i))
      ensures NoneFrom(count, i + 1)
      ensures count[i] == if Counts(args[i]) && !HasSubCounts(args[i].ty) then Some(i + 1) else None
      ensures old(Paired(args, cInOut, i)) ==> Paired(args, cInOut, i)
    {
      hide CountArg, DeallocArg, IsKpd, Inserted, With, PairAt, Paired, Linked, Shifted, InRange;
      var a := args[i];
      ghost var was := args;
      ghost var paired := Paired(args, cInOut, i);
      if paired { SecondCountIsPlain(args, cInOut, i); }
      NothingWith(was, i);
      ImplicitRoles(a, i);
      ghost var d, c := DeallocOf(a, i), CountOf(a, i);
      if Deallocates(a) {
        if paired { PairsKept(args, cInOut, i, DeallocArg(i)); }
        ShiftedLinks(count, i);
        AddDeallocArg(i);
        InsertedBefore(was, i, [], DeallocArg(i));
      }
      assert args == With(was, i, d) by { assert Deallocates(a) ==> d == [DeallocArg(i)] + []; }
      if Counts(a) {
        if paired { PairsKept(args, cInOut, i, CountArg(a, i)); }
        ShiftedLinks(count, i);
        var _ := AddCountArg(i);
        InsertedBefore(was, i, d, CountArg(a, i));
      }
      assert !Counts(a) ==> c + d == d;
    }

    /** The third insertion; there is no count to link it to if the argument has sub-counts. */
    method VisitInOut(i: nat, ghost was: seq<Arg>, ghost more: seq<Arg>) returns (ok: bool)
      requires Valid() && i < |was| && NoneFrom(count, i + 1)
      requires more == CountOf(was[i], i) + DeallocOf(was[i], i) && args == With(was, i, more)
      requires count[i] == if Counts(was[i]) && !HasSubCounts(was[i].ty) then Some(i + 1) else None
      modifies this
      ensures ok <==> !Crashes(was[i])
      ensures ok ==> Valid() && args == With(was, i, CountInOutOf(was[i]) + more) && NoneFrom(count, i + 1)
      ensures ok && old(Paired(args, cInOut, i)) ==> Paired(args, cInOut, i)
    {
      hide CountInOutArg, CountOf, DeallocOf, Inserted, With, PairAt, Paired, Linked, Shifted, InRange;
      var a := args[i];
      if !CountsInOut(a) {
        assert CountInOutOf(a) + more == more;
        return true;
      }
      if count[i].Some? {
        CountIsNext(was, i);
        if Paired(args, cInOut, i) {
          SecondCountIsPlain(args, cInOut, i);
          PairAdded(args, cInOut, i);
        }
      }
      ShiftedLinks(count, i);
      ok := AddCountInOutArg(i);
      InsertedBefore(was, i, more, CountInOutArg());
    }

    /** The last insertion. */
    method VisitPoly(i: nat, ghost was: seq<Arg>, ghost more: seq<Arg>)
      requires Valid() && i < |was| && NoneFrom(count, i + 1) && args == With(was, i, more)
      modifies this
      ensures Valid() && args == With(was, i, PolyOf(was[i], i) + more) && NoneFrom(count, i + 1)
      ensures old(Paired(args, cInOut, i)) ==> Paired(args, cInOut, i)
    {
      hide PolyArg, Inserted, With, PairAt, Paired, Linked, Shifted, InRange;
      var a := args[i];
      if !a.ty.polymorphic {
        assert PolyOf(a, i) + more == more;
        return;
      }
      ImplicitRoles(a, i);
      if Paired(args, cInOut, i) {
        SecondCountIsPlain(args, cInOut, i);
        PairsKept(args, cInOut, i, PolyArg(i));
      }
      ShiftedLinks(count, i);
      AddPolyArg(i);
      InsertedBefore(was, i, more, PolyArg(i));
    }

    /** One round of the walk: four insertions, each right behind argument `i`. */
    method Visit(i: nat) returns (ok: bool)
      requires Valid() && i < |args| && NoneFrom(count, i)
      modifies this
      ensures ok <==> !Crashes(old(args[i]))
      ensures ok ==> Valid() && args == Visited(old(args), i) && NoneFrom(count, i + 1)
      ensures ok && old(Paired(args, cInOut, i)) ==> Paired(args, cInOut, i)
    {
      hide Crashes, Paired, Linked, InRange, CountOf, DeallocOf, CountInOutOf, PolyOf, Counts, HasSubCounts, With, NoneFrom;
      ghost var was, a := args, args[i];
      VisitCount(i);
      ghost var p, o, c, d := PolyOf(a, i), CountInOutOf(a), CountOf(a, i), DeallocOf(a, i);
      ok := VisitInOut(i, was, c + d);
      if !ok { return; }
      VisitPoly(i, was, o + (c + d));
      assert p + (o + (c + d)) == Spawned(a, i);
    }

    /**
     The walk ends, although it inserts into the list it walks. It succeeds if
     and only if no argument is to have a second count while having sub-counts,
     and then every argument is followed by its family. Every second count it has
     inserted and the count behind it point at each other.
     */
    method CheckRoutineArgs() returns (ok: bool)
      requires Unlinked()
      modifies this
      ensures ok <==> !SomeCrash(old(args))
      ensures ok ==> args == Families(old(args), 0)
      ensures ok && old(forall k :: 0 <= k < |args| ==> args[k].role != CountInOut) ==> Paired(args, cInOut, |args|)
    {
      hide Visited, Families, Crashes, SomeCrash, PairAt, Linked;
      ghost var plain := forall k :: 0 <= k < |args| ==> args[k].role != CountInOut;
      var i := 0;
      assert args[..0] + Families(args[0..], 0) == Families(args, 0) by { assert args[0..] == args; }
      FamiliesCrash(args, 0);
      NoCrashYet();
      while i < |args|
        invariant 0 <= i <= |args| && !SomeCrash(args[..i])
        invariant args[..i] + Families(args[i..], i) == Families(old(args), 0)
        invariant Valid() && NoneFrom(count, i) && (plain ==> Paired(args, cInOut, i))
        decreases |Families(args[i..], i)|
      {
        VisitKeepsFamilies(args, i);
        VisitedGrows(args, i);
        SomeCrashConcat(args[..i], Families(args[i..], i));
        FirstCrashes(args[i..], i);
        CrashNext(args, i);
        ok := Visit(i);
        if !ok { return; }
        if plain { PairsLater(args, cInOut, i); }
        i := i + 1;
      }
      assert Families(args[i..], i) == [] by { assert args[i..] == []; NoFamilies(i); }
      assert args[..i] == args && args + [] == args;
      ok := true;
    }
  }

  lemma {:induction false} CountMeans(a: Arg, i: nat)
    ensures var c, own := CountArg(a, i), !HasSubCounts(a.ty);
            && c.parent == Some(i) && own == (c.role == Count)
            && (c.sends ==> a.sends) && (c.replies ==> a.replies) && (c.request ==> c.sends || a.request != a.sends)
            && (a.ty.isString ==> !c.sends && !c.replies) && (IsVariable(a.ty) ==> !c.request && !c.reply)
            && !IsKpd(c.ty) && c.ty.number == (if own then 1 else a.ty.kpdNumber) && c.ty.varArray == (!own && a.ty.varArray)
  {
  }

  lemma {:induction false} ParentBefore(args: seq<Arg>, i: nat)
    requires i < |args| && Linked(args)
    ensures args[i].parent.Some? ==> args[i].parent.value < i
  {
  }

  lemma {:induction false} LinkSet(links: seq<Option<nat>>, k: nat, to: nat)
    requires k < |links| && to < |links| && InRange(links)
    ensures InRange(links[k := Some(to)])
    ensures forall i :: k < i && NoneFrom(links, i) ==> NoneFrom(links[k := Some(to)], i)
  {
  }

  lemma {:induction false} ImplicitRoles(a: Arg, i: nat)
    ensures DeallocArg(i).role != CountInOut && CountArg(a, i).role != CountInOut && PolyArg(i).role != CountInOut
  {
  }

  /** The count is right behind its argument. */
  lemma {:induction false} CountIsNext(was: seq<Arg>, i: nat)
    requires i < |was| && Counts(was[i]) && !HasSubCounts(was[i].ty)
    ensures var args := With(was, i, CountOf(was[i], i) + DeallocOf(was[i], i));
            i + 1 < |args| && args[i + 1].role == Count && args[i + 1].parent == Some(i)
  {
    var args := With(was, i, CountOf(was[i], i) + DeallocOf(was[i], i));
    assert args[i + 1] == CountArg(was[i], i);
  }

  /** Only a second count has the role of one, and it brings nothing. */
  lemma {:induction false} SecondCountIsPlain(args: seq<Arg>, cInOut: seq<Option<nat>>, i: nat)
    requires i < |args| && Paired(args, cInOut, i)
    ensures args[i].role == CountInOut ==>
              !Deallocates(args[i]) && !Counts(args[i]) && !CountsInOut(args[i]) && !args[i].ty.polymorphic
  {
  }

  lemma {:induction false} NoCrashYet()
    ensures !SomeCrash([])
  {
  }

  lemma {:induction false} FirstCrashes(args: seq<Arg>, at: nat)
    requires args != []
    ensures Crashes(args[0]) ==> SomeCrash(Families(args, at))
  {
    hide Crashes;
    FamiliesCrash(args, at);
  }

  /** What is behind the argument visited does not matter to those before it. */
  lemma {:induction false} CrashNext(args: seq<Arg>, i: nat)
    requires i < |args|
    ensures SomeCrash(Visited(args, i)[..i + 1]) <==> SomeCrash(args[..i]) || Crashes(args[i])
  {
    hide Crashes, SomeCrash;
    assert Visited(args, i)[..i + 1] == args[..i] + [args[i]];
    SomeCrashConcat(args[..i], [args[i]]);
    OneCrash(args[i]);
  }

  lemma {:induction false} NothingWith(args: seq<Arg>, i: nat)
    requires i < |args|
    ensures With(args, i, []) == args
  {
  }

  lemma {:induction false} NoFamilies(at: nat)
    ensures Families([], at) == []
  {
  }

  lemma {:induction false} VisitedGrows(args: seq<Arg>, i: nat)
    requires i < |args|
    ensures |Visited(args, i)| >= |args|
  {
  }
}
