/**
 What every run of the #if state machine keeps, for any input at all: the
 nesting depth stays within the arrays, no abort() is reached, and a group
 nested in a dropped group is dropped whole.
 */
module UnifdefSafety {
  import opened Conditional
  import opened UnifdefTable
  import opened UnifdefMeaning

  /** The only states a group inside a dropped group can be in. */
  predicate Inert(s: IfState) { s.FalseTrailer? || s.FalseElse? }

  predicate Shape(levels: seq<Level>) {
    && 0 < |levels| <= MAXDEPTH
    && levels[0].state.Outside?
    && (forall i :: 0 < i < |levels| ==> !levels[i].state.Outside?)
    && (forall i :: 0 <= i < |levels| - 1 && Dropping(levels[i].state) ==> Inert(levels[i + 1].state))
  }

  /** A line type parseline can return for a line. */
  predicate Ordinary(lt: LineType) { !lt.Eof? && !lt.Unevaluable? }

  /** An effect that is safe in a state. */
  predicate Safe(s: IfState, e: Effect) {
    || e.Error?
    || (&& e.Flush?
        && (if e.enter then e.move.Become? && !e.ignore.Keep? && (Dropping(s) ==> !e.keep && Inert(e.move.to))
            else (s.Outside? ==> e.move.Stay?) && (Inert(s) ==> !e.keep && (e.move.Become? ==> Inert(e.move.to))))
        && (e.move.Become? ==> !e.move.to.Outside?))
  }

  lemma {:induction false} EnteringIsSafe(s: IfState, lt: LineType, iocccok: bool)
    requires (lt.Dir? || lt.Dodgy?) && Opens(lt.d)
    ensures Safe(s, Meaning(Transition(s, lt), iocccok))
  {
    TableOpensBy(s, lt);
    OpeningEntry(Dropping(s), lt, iocccok);
  }

  lemma {:induction false} StayingIsSafe(s: IfState, lt: LineType, iocccok: bool)
    requires (lt.Dir? || lt.Dodgy?) && !Opens(lt.d)
    ensures Safe(s, Meaning(Transition(s, lt), iocccok))
  {
  }

  /** Every table entry is safe. */
  lemma {:induction false} TableIsSafe(s: IfState, lt: LineType, iocccok: bool)
    requires Ordinary(lt)
    ensures Safe(s, Meaning(Transition(s, lt), iocccok))
  {
    if lt.PlainT? {
      assert Transition(s, lt) == if Dropping(s) then Drop else Print;
    } else if Opens(lt.d) {
      EnteringIsSafe(s, lt, iocccok);
    } else {
      StayingIsSafe(s, lt, iocccok);
    }
  }

  lemma {:induction false} PerformIsSafe<C>(levels: seq<Level>, line: Line<C>, e: Effect)
    requires Shape(levels) && Safe(levels[|levels| - 1].state, e)
    ensures var r := Perform(levels, line, e);
            && !r.Crashed? && !r.Finished?
            && (r.Next? ==> Shape(r.levels))
  {
    var top := |levels| - 1;
    var r := Perform(levels, line, e);
    if r.Next? && !e.enter && e.move.Become? {
      assert r.levels[..top] == levels[..top];
    }
  }

  /** One line: no abort, the shape is kept, and inside a dropped group nothing is kept. */
  lemma {:induction false} StepIsSafe<C>(levels: seq<Level>, line: Line<C>, lt: LineType, iocccok: bool)
    requires Shape(levels) && Ordinary(lt)
    ensures var r := Step(levels, line, lt, iocccok);
            && !r.Crashed? && !r.Finished?
            && (r.Next? ==> Shape(r.levels))
            && (r.Next? && (exists i :: 0 <= i < |levels| - 1 && Dropping(levels[i].state)) ==> !r.verdict.keep)
  {
    var s := levels[|levels| - 1].state;
    InnermostIsInert(levels);
    TableIsSafe(s, lt, iocccok);
    PerformIsSafe(levels, line, Meaning(Transition(s, lt), iocccok));
  }

  lemma {:induction false} InnermostIsInert(levels: seq<Level>)
    requires Shape(levels)
    ensures (exists i :: 0 <= i < |levels| - 1 && Dropping(levels[i].state)) ==> Inert(levels[|levels| - 1].state)
    decreases |levels|
  {
    var top := |levels| - 1;
    if i :| 0 <= i < top && Dropping(levels[i].state) {
      if i < top - 1 {
        var below := levels[..top];
        assert below[i] == levels[i];
        InnermostIsInert(below);
        assert Inert(below[top - 1].state) && below[top - 1] == levels[top - 1];
      }
    }
  }

  /** Whole runs: whatever the lines are, the run ends by completing or by reporting a problem, never by abort(). */
  lemma {:induction false} NeverAborts<C>(levels: seq<Level>, input: seq<Classified<C>>, iocccok: bool)
    requires Shape(levels)
    requires forall i :: 0 <= i < |input| ==> Ordinary(input[i].lt)
    ensures !Decide(levels, input, iocccok).ending.Abnormal?
    decreases |input|
  {
    if input != [] {
      assert Ordinary(input[0].lt);
      StepIsSafe(levels, input[0].line, input[0].lt, iocccok);
      var r := Step(levels, input[0].line, input[0].lt, iocccok);
      if r.Next? { NeverAborts(r.levels, input[1..], iocccok); }
    }
  }
}
