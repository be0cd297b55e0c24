/**
 Obfuscated ("dodgy") directives: a comment that began on an earlier line ends
 on the directive's line, or one that begins there goes on. unifdef decides
 about physical lines, so such a directive comes out whole only if its line
 shares the fate of the lines around it.
 */
module UnifdefObfuscated {
  import opened Conditional
  import opened UnifdefTable
  import opened UnifdefMeaning
  import opened UnifdefSafety

  predicate TopDrops(levels: seq<Level>)
    requires levels != []
  {
    Dropping(levels[|levels| - 1].state)
  }

  /** The one table entry that accepts an obfuscated directive and goes from dropping to printing. */
  predicate Tears(levels: seq<Level>, d: Directive)
    requires levels != []
  {
    levels[|levels| - 1].state.FalsePrefix? && d.ElUnknown?
  }

  /** An accepted effect that keeps the line exactly if plain lines were kept before it. */
  predicate Steady(s: IfState, e: Effect)
    requires e.Flush?
  {
    e.keep == !Dropping(s) && (e.move.Become? ==> Dropping(e.move.to) == Dropping(s))
  }

  lemma {:induction false} OpeningIsSteady(s: IfState, d: Directive, iocccok: bool)
    requires Opens(d)
    ensures var e := Meaning(DodgyRow(s, d), iocccok); e.Flush? ==> Steady(s, e) && e.move.Become?
  {
    TableOpensBy(s, Dodgy(d));
  }

  lemma {:induction false} ContinuingIsSteady(s: IfState, d: Directive, iocccok: bool)
    requires !Opens(d)
    ensures var e := Meaning(DodgyRow(s, d), iocccok);
            e.Flush? ==> && !e.move.Stay? && (e.move.Become? ==> e.keep == !Dropping(e.move.to))
                         && (Steady(s, e) <==> !(s.FalsePrefix? && d.ElUnknown?))
                         && (e.move.Leave? ==> e.keep && !Inert(s))
  {
  }

  /**
   A line with an obfuscated directive is kept exactly if the lines after it
   are, and printing or dropping does not change there, except at an #elif of
   unknown value after groups that are all false.
   */
  lemma {:induction false} ObfuscatedExact<C>(levels: seq<Level>, line: Line<C>, d: Directive, iocccok: bool)
    requires Shape(levels) && Step(levels, line, Dodgy(d), iocccok).Next?
    ensures var r := Step(levels, line, Dodgy(d), iocccok);
            && r.verdict.keep == !TopDrops(r.levels)
            && (TopDrops(r.levels) == TopDrops(levels) <==> !Tears(levels, d))
  {
    hide DodgyRow, PlainRow, Meaning;
    var s := levels[|levels| - 1].state;
    var e := Meaning(DodgyRow(s, d), iocccok);
    if Opens(d) {
      OpeningIsSteady(s, d, iocccok);
      TableEnters(s, Dodgy(d), iocccok);
    } else {
      ContinuingIsSteady(s, d, iocccok);
      TableStays(s, Dodgy(d), iocccok);
    }
  }

  // ----- whole runs -----

  /** The levels in front of line `n`, if the run gets there. */
  function Reached<C>(levels: seq<Level>, input: seq<Classified<C>>, iocccok: bool, n: nat): (r: seq<Level>)
    requires levels != []
    ensures r != []
    decreases n
  {
    if n == 0 || input == [] then levels
    else
      var r := Step(levels, input[0].line, input[0].lt, iocccok);
      if r.Next? then Reached(r.levels, input[1..], iocccok, n - 1) else levels
  }

  /** Each verdict of a run is that of a step from the levels in front of the line. */
  lemma {:induction false} VerdictAt<C>(levels: seq<Level>, input: seq<Classified<C>>, iocccok: bool, n: nat)
    requires Shape(levels) && n < |Decide(levels, input, iocccok).verdicts|
    requires forall i :: 0 <= i < |input| ==> Ordinary(input[i].lt)
    ensures n < |input| && Shape(Reached(levels, input, iocccok, n))
    ensures var r := Step(Reached(levels, input, iocccok, n), input[n].line, input[n].lt, iocccok);
            && r.Next? && r.verdict == Decide(levels, input, iocccok).verdicts[n]
            && r.levels == Reached(levels, input, iocccok, n + 1)
    decreases n
  {
    hide Step;
    var c := input[0];
    assert Ordinary(c.lt);
    StepIsSafe(levels, c.line, c.lt, iocccok);
    var r := Step(levels, c.line, c.lt, iocccok);
    if n == 0 {
      assert Reached(r.levels, input[1..], iocccok, 0) == r.levels;
    } else {
      VerdictAt(r.levels, input[1..], iocccok, n - 1);
    }
  }

  lemma {:induction false} PlainFate<C>(levels: seq<Level>, line: Line<C>, iocccok: bool)
    requires levels != []
    ensures Step(levels, line, PlainT, iocccok) == Next(levels, Verdict(!TopDrops(levels), line))
  {
  }

  /**
   In every run, an obfuscated directive shares the fate of the plain line
   after it; it shares that of the plain line before it unless it tears.
   */
  lemma {:induction false} ObfuscatedWhole<C>(input: seq<Classified<C>>, iocccok: bool, n: nat)
    requires forall i :: 0 <= i < |input| ==> Ordinary(input[i].lt)
    requires n < |Decide(Start, input, iocccok).verdicts| && n < |input| && input[n].lt.Dodgy?
    ensures var vs := Decide(Start, input, iocccok).verdicts;
            && (n + 1 < |vs| && n + 1 < |input| && input[n + 1].lt.PlainT? ==> vs[n + 1].keep == vs[n].keep)
            && (n > 0 && input[n - 1].lt.PlainT? ==>
                  (vs[n - 1].keep == vs[n].keep <==> !Tears(Reached(Start, input, iocccok, n), input[n].lt.d)))
  {
    hide Step, Decide, Reached, Tears, TopDrops;
    var vs := Decide(Start, input, iocccok).verdicts;
    VerdictAt(Start, input, iocccok, n);
    ObfuscatedExact(Reached(Start, input, iocccok, n), input[n].line, input[n].lt.d, iocccok);
    if n + 1 < |vs| && n + 1 < |input| && input[n + 1].lt.PlainT? {
      VerdictAt(Start, input, iocccok, n + 1);
      PlainFate(Reached(Start, input, iocccok, n + 1), input[n + 1].line, iocccok);
    }
    if n > 0 && input[n - 1].lt.PlainT? {
      VerdictAt(Start, input, iocccok, n - 1);
      PlainFate(Reached(Start, input, iocccok, n - 1), input[n - 1].line, iocccok);
    }
  }

  lemma {:induction false} OneMore<C>(levels: seq<Level>, c: Classified<C>, rest: seq<Classified<C>>, iocccok: bool,
                                      next: seq<Level>, v: Verdict<C>)
    requires levels != [] && next != [] && Step(levels, c.line, c.lt, iocccok) == Next(next, v)
    ensures var r := Decide(next, rest, iocccok); Decide(levels, [c] + rest, iocccok) == Run([v] + r.verdicts, r.ending)
  {
    assert ([c] + rest)[1..] == rest;
  }

  lemma {:induction false} TornSteps<C>(c: C, e: C, iocccok: bool)
    ensures var l1, l2 := Level(FalsePrefix, false), Level(PassMiddle, false);
            && Step(Start, If(c), Dir(False), iocccok) == Next(Start + [l1], Verdict(false, If(c)))
            && Step(Start + [l1], ElIf(e), Dodgy(ElUnknown), iocccok) == Next(Start + [l2], Verdict(true, If(e)))
            && (var end: Line<C> := EndIf; Step(Start + [l2], end, Dir(EndIfD), iocccok) == Next(Start, Verdict(true, end)))
  {
    assert Start + [Level(PassMiddle, false)] == [Start[0], Level(PassMiddle, false)];
  }

  /** The tear: the line where a comment begins is dropped, the #elif behind the comment's end is kept. */
  lemma {:induction false} TornComment<C>(c: C, e: C, begin: Line<C>, iocccok: bool)
    ensures Decide(Start, [Classified(If(c), Dir(False)), Classified(begin, PlainT),
                           Classified(ElIf(e), Dodgy(ElUnknown)), Classified(EndIf, Dir(EndIfD))], iocccok)
            == Run([Verdict(false, If(c)), Verdict(false, begin), Verdict(true, If(e)), Verdict(true, EndIf)], Complete)
  {
    hide Step, Decide;
    var l1, l2 := Level(FalsePrefix, false), Level(PassMiddle, false);
    TornSteps(c, e, iocccok);
    PlainFate(Start + [l1], begin, iocccok);
    var none: seq<Classified<C>> := [];
    AtEnd(none, iocccok);
    var c0, c1 := Classified(If(c), Dir(False)), Classified(begin, PlainT);
    var c2, c3: Classified<C> := Classified(ElIf(e), Dodgy(ElUnknown)), Classified(EndIf, Dir(EndIfD));
    OneMore(Start + [l2], c3, none, iocccok, Start, Verdict(true, EndIf));
    OneMore(Start + [l1], c2, [c3], iocccok, Start + [l2], Verdict(true, If(e)));
    OneMore(Start + [l1], c1, [c2, c3], iocccok, Start + [l1], Verdict(false, begin));
    OneMore(Start, c0, [c1, c2, c3], iocccok, Start + [l1], Verdict(false, If(c)));
    assert [c3] + none == [c3] && [c2] + [c3] == [c2, c3] && [c1] + [c2, c3] == [c1, c2, c3];
    assert [c0] + [c1, c2, c3] == [c0, c1, c2, c3];
  }

  lemma {:induction false} AtEnd<C>(none: seq<Classified<C>>, iocccok: bool)
    requires none == []
    ensures Decide(Start, none, iocccok) == Run([], Complete)
  {
  }
}
