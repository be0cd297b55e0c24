/**
 The unifdef driver as it runs: the state and ignore arrays indexed by the
 nesting depth, the line buffer, the counters and the output file, updated
 line by line.
 */
module UnifdefProcess {
  import opened Wrappers
  import opened Conditional
  import opened UnifdefTable
  import opened UnifdefFlush
  import opened UnifdefSafety

  function Zip(states: seq<IfState>, ignoring: seq<bool>): (levels: seq<Level>)
    requires |states| == |ignoring|
    ensures |levels| == |states|
    ensures forall i :: 0 <= i < |states| ==> levels[i] == Level(states[i], ignoring[i])
  {
    seq(|states|, i requires 0 <= i < |states| => Level(states[i], ignoring[i]))
  }

  /** After `n` lines the run has given the verdicts `done` and is in the state `levels`. */
  ghost predicate Judged<C>(input: seq<Classified<C>>, n: nat, done: seq<Verdict<C>>, levels: seq<Level>, iocccok: bool)
    requires levels != [] && n <= |input|
  {
    Decide(Start, input, iocccok) == After1(done, Decide(levels, input[n..], iocccok))
  }

  function After1<C>(done: seq<Verdict<C>>, rest: Run<C>): Run<C> { Run(done + rest.verdicts, rest.ending) }

  lemma {:induction false} JudgedStarts<C>(input: seq<Classified<C>>, o: Options)
    ensures Shape(Start) && Judged(input, 0, [], Start, o.iocccok)
    ensures var none: seq<Verdict<C>> := []; Written(o, none, Initial, [])
  {
    assert input[0..] == input;
  }

  lemma {:induction false} JudgedEnds<C>(input: seq<Classified<C>>, done: seq<Verdict<C>>, levels: seq<Level>, iocccok: bool)
    requires levels != [] && Judged(input, |input|, done, levels, iocccok)
    ensures Decide(Start, input, iocccok) ==
            Run(done, if levels[|levels| - 1].state.Outside? then Complete else Failed(PrematureEof))
  {
    assert input[|input|..] == [] && done + [] == done;
  }

  lemma {:induction false} JudgedSteps<C>(input: seq<Classified<C>>, n: nat, done: seq<Verdict<C>>, levels: seq<Level>, iocccok: bool)
    requires levels != [] && n < |input| && Judged(input, n, done, levels, iocccok)
    ensures var r := Step(levels, input[n].line, input[n].lt, iocccok);
            && (r.Stopped? ==> Decide(Start, input, iocccok) == Run(done, Failed(r.problem)))
            && (r.Next? ==> Judged(input, n + 1, done + [r.verdict], r.levels, iocccok))
  {
    var rest := input[n..];
    assert rest[0] == input[n] && rest[1..] == input[n + 1..];
    var r := Step(levels, input[n].line, input[n].lt, iocccok);
    if r.Next? {
      var tail := Decide(r.levels, input[n + 1..], iocccok);
      Regroup(done, r.verdict, tail);
      assert Decide(levels, rest, iocccok) == After1([r.verdict], tail);
    } else {
      assert done + [] == done;
    }
  }

  lemma {:induction false} Regroup<C>(done: seq<Verdict<C>>, v: Verdict<C>, tail: Run<C>)
    ensures After1(done, After1([v], tail)) == After1(done + [v], tail)
  {
    assert done + ([v] + tail.verdicts) == done + [v] + tail.verdicts;
  }

  /** What a new level held before its state is set does not matter. */
  lemma {:induction false} EnteredLevel(levels: seq<Level>, stale: Level, move: Move, ignore: Ignore)
    requires levels != [] && move.Become? && !ignore.Keep?
    ensures Moved(levels + [stale], move, ignore) == Moved(levels + [Level(Outside, false)], move, ignore)
    ensures Moved(levels + [stale], move, ignore).Some?
  {
    assert (levels + [stale])[..|levels|] == levels == (levels + [Level(Outside, false)])[..|levels|];
  }

  /** What has been written after the verdicts `done`. */
  ghost predicate Written<C>(o: Options, done: seq<Verdict<C>>, k: Counters, output: seq<Item<C>>) {
    output == FlushAll(o, Initial, 1, done) && k == After(o, Initial, 1, done)
  }

  lemma {:induction false} WrittenSteps<C>(o: Options, done: seq<Verdict<C>>, k: Counters, output: seq<Item<C>>, v: Verdict<C>)
    requires Written(o, done, k, output)
    ensures Written(o, done + [v], FlushOne(o, k, |done| + 1, v).0, output + FlushOne(o, k, |done| + 1, v).1)
  {
    FlushAppend(o, Initial, 1, done, [v]);
    assert [v][1..] == [];
  }

  class Unifdef<C> {
    const o: Options
    const ifstate: array<IfState>
    const ignoring: array<bool>
    const stifline: array<int>
    var depth: nat
    var linenum: int
    var tline: Line<C>
    var delcount: nat
    var blankcount: nat
    var blankmax: nat
    var output: seq<Item<C>>

    ghost predicate Valid()
      reads this
    {
      ifstate.Length == ignoring.Length == stifline.Length == MAXDEPTH && depth < MAXDEPTH
    }

    ghost function Levels(): seq<Level>
      requires Valid()
      reads this, ifstate, ignoring
    {
      Zip(ifstate[..depth + 1], ignoring[..depth + 1])
    }

    ghost function Count(): Counters
      reads this
    {
      Counters(delcount, blankcount, blankmax)
    }

    constructor (o: Options)
      ensures Valid() && fresh(ifstate) && fresh(ignoring) && fresh(stifline)
      ensures this.o == o && Levels() == Start && Count() == Initial && linenum == 0 && output == []
    {
      this.o := o;
      ifstate := new IfState[MAXDEPTH](i => Outside);
      ignoring := new bool[MAXDEPTH](i => false);
      stifline := new int[MAXDEPTH](i => 0);
      depth, linenum, tline, output := 0, 0, Plain(""), [];
      delcount, blankcount, blankmax := 0, 1000, 1000;
    }

    /** One level deeper, whose state is not set yet; at the deepest level the program reports an error and exits. */
    method Nest() returns (ok: bool)
      requires Valid()
      modifies this`depth, stifline
      ensures Valid() && (ok <==> old(depth) < MAXDEPTH - 1)
      ensures depth == if ok then old(depth) + 1 else old(depth)
      ensures stifline[..] == if ok then old(stifline[..])[depth := linenum] else old(stifline[..])
    {
      if depth == MAXDEPTH - 1 {
        return false;
      }
      depth := depth + 1;
      stifline[depth] := linenum;
      return true;
    }

    method FlushLine(keep: bool)
      modifies this`delcount, this`blankcount, this`blankmax, this`output
      ensures Count() == FlushOne(o, old(Count()), linenum, Verdict(keep, tline)).0
      ensures output == old(output) + FlushOne(o, old(Count()), linenum, Verdict(keep, tline)).1
    {
      assert output + [] == output;
      if o.symlist {
        return;
      }
      if keep != o.complement {
        var blankline := IsBlank(tline);
        if blankline && o.compblank && blankcount != blankmax {
          delcount := delcount + 1;
          blankcount := blankcount + 1;
        } else {
          var marker := if o.lnnum && delcount > 0 then [Marker(linenum)] else [];
          output := output + (marker + [Text(tline)]);
          delcount := 0;
          blankcount := if blankline then blankcount + 1 else 0;
          blankmax := blankcount;
        }
      } else {
        output := output + if o.lnblank then [Empty] else [];
        delcount := delcount + 1;
        blankcount := 0;
      }
    }

    /** The last part of a state function: ignoreoff or ignoreon and state, or unnest. */
    method Shift(move: Move, ignore: Ignore)
      requires Valid() && Moved(Levels(), move, ignore).Some?
      modifies this`depth, ifstate, ignoring
      ensures Valid() && Levels() == old(Moved(Levels(), move, ignore).value)
    {
      match move {
        case Stay =>
        case Leave => depth := depth - 1;
        case Become(s) =>
          if ignore.Inherit? {
            ignoring[depth] := ignoring[depth - 1];
          } else if ignore.On? {
            ignoring[depth] := true;
          }
          ifstate[depth] := s;
      }
    }

    /** Edits and flushes the line, then moves. */
    method FlushAndShift(keep: bool, edit: Edit, move: Move, ignore: Ignore)
      requires Valid() && Moved(Levels(), move, ignore).Some?
      modifies this, ifstate, ignoring
      ensures Valid() && linenum == old(linenum) && Levels() == old(Moved(Levels(), move, ignore).value)
      ensures Count() == FlushOne(o, old(Count()), linenum, Verdict(keep, Edited(old(tline), edit))).0
      ensures output == old(output) + FlushOne(o, old(Count()), linenum, Verdict(keep, Edited(old(tline), edit))).1
    {
      hide FlushOne, Edited, Moved;
      tline := Edited(tline, edit);
      FlushLine(keep);
      assert Levels() == old(Levels());
      Shift(move, ignore);
    }

    /** One state function of the table; `stop` is how the program exits, if it does. */
    method Act(e: Effect, ghost r: StepResult<C>) returns (stop: Option<Ending>)
      requires Valid() && r == Perform(Levels(), tline, e) && (r.Next? || r.Stopped?) && Safe(ifstate[depth], e)
      modifies this, ifstate, ignoring, stifline
      ensures Valid() && linenum == old(linenum)
      ensures r.Stopped? ==> stop == Some(Failed(r.problem)) && output == old(output)
      ensures r.Next? ==>
                && stop == None && Levels() == r.levels
                && Count() == FlushOne(o, old(Count()), linenum, r.verdict).0
                && output == old(output) + FlushOne(o, old(Count()), linenum, r.verdict).1
    {
      if e.Error? {
        return Some(Failed(e.problem));
      }
      if e.enter {
        var ok := Nest();
        if !ok {
          return Some(Failed(TooDeep));
        }
        EnteredLevel(old(Levels()), Level(ifstate[depth], ignoring[depth]), e.move, e.ignore);
        assert Levels() == old(Levels()) + [Level(ifstate[depth], ignoring[depth])];
      }
      FlushAndShift(e.keep, e.edit, e.move, e.ignore);
      return None;
    }

    /** One turn of the driver loop: the table entry for the line is carried out. */
    method ProcessLine(c: Classified<C>) returns (stop: Option<Ending>, ghost r: StepResult<C>)
      requires Valid() && Shape(Levels()) && Ordinary(c.lt)
      modifies this, ifstate, ignoring, stifline
      ensures Valid() && linenum == old(linenum) + 1
      ensures r == Step(old(Levels()), c.line, c.lt, o.iocccok)
      ensures stop.None? ==>
                && r.Next? && Levels() == r.levels && Shape(r.levels)
                && Count() == FlushOne(o, old(Count()), linenum, r.verdict).0
                && output == old(output) + FlushOne(o, old(Count()), linenum, r.verdict).1
      ensures stop.Some? ==> output == old(output) && r.Stopped? && stop.value == Failed(r.problem)
    {
      linenum := linenum + 1;
      tline := c.line;
      StepIsSafe(Levels(), tline, c.lt, o.iocccok);
      TableIsSafe(ifstate[depth], c.lt, o.iocccok);
      r := Step(Levels(), c.line, c.lt, o.iocccok);
      stop := Act(Meaning(Transition(ifstate[depth], c.lt), o.iocccok), r);
    }

    /** The same, as progress through a whole file. */
    method ProcessNext(input: seq<Classified<C>>, n: nat, ghost done: seq<Verdict<C>>)
      returns (stop: Option<Ending>, ghost done': seq<Verdict<C>>)
      requires Valid() && Shape(Levels()) && n == linenum == |done| && n < |input| && Ordinary(input[n].lt)
      requires Judged(input, n, done, Levels(), o.iocccok) && Written(o, done, Count(), output)
      modifies this, ifstate, ignoring, stifline
      ensures Valid()
      ensures stop.None? ==>
                && Shape(Levels()) && n + 1 == linenum == |done'|
                && Judged(input, n + 1, done', Levels(), o.iocccok) && Written(o, done', Count(), output)
      ensures stop.Some? ==>
                Decide(Start, input, o.iocccok) == Run(done, stop.value) && output == FlushAll(o, Initial, 1, done)
    {
      JudgedSteps(input, n, done, Levels(), o.iocccok);
      ghost var k, out := Count(), output;
      ghost var r;
      stop, r := ProcessLine(input[n]);
      done' := done;
      if stop.None? {
        WrittenSteps(o, done, k, out, r.verdict);
        done' := done + [r.verdict];
      }
    }

    /** The table entry for the end of the file. */
    method AtEof(input: seq<Classified<C>>, ghost done: seq<Verdict<C>>) returns (ending: Ending)
      requires Valid() && Judged(input, |input|, done, Levels(), o.iocccok)
      ensures ending == Decide(Start, input, o.iocccok).ending && done == Decide(Start, input, o.iocccok).verdicts
    {
      hide Judged, Decide;
      JudgedEnds(input, done, Levels(), o.iocccok);
      ending := if ifstate[depth].Outside? then Complete else Failed(PrematureEof);
    }

    /** The driver loop: a line at a time, then the end of the file. */
    method Process(input: seq<Classified<C>>) returns (ending: Ending)
      requires Valid() && Levels() == Start && Count() == Initial && linenum == 0 && output == []
      requires forall i :: 0 <= i < |input| ==> Ordinary(input[i].lt)
      modifies this, ifstate, ignoring, stifline
      ensures ending == Decide(Start, input, o.iocccok).ending
      ensures output == FlushAll(o, Initial, 1, Decide(Start, input, o.iocccok).verdicts)
    {
      var n := 0;
      ghost var done: seq<Verdict<C>> := [];
      JudgedStarts(input, o);
      while n < |input|
        invariant 0 <= n <= |input| && n == linenum == |done| && Valid() && Shape(Levels())
        invariant Judged(input, n, done, Levels(), o.iocccok)
        invariant Written(o, done, Count(), output)
      {
        var stop;
        stop, done := ProcessNext(input, n, done);
        if stop.Some? {
          return stop.value;
        }
        n := n + 1;
      }
      ending := AtEof(input, done);
    }
  }
}
