/**
 unifdef as a whole, from the file it reads to the file it writes.
 */
module UnifdefRun {
  import opened Conditional
  import opened UnifdefTable
  import opened UnifdefFlush
  import opened UnifdefSound
  import opened UnifdefCorrect
  import opened UnifdefSafety
  import opened UnifdefOutput
  import M = UnifdefMeaning
  import P = UnifdefProcess

  /**
   The output has the meaning of the source in every compilation that agrees with
   the command line, whatever the conditions come to that unifdef cannot read.
   */
  ghost predicate Preserves(o: Options, s: Settings, source: seq<Line<Condition>>, output: seq<Line<Condition>>) {
    forall env: Env, truth: Condition -> bool ::
      Extends(env, s.tab) && Respects(truth, env, s.tab) ==> SameMeaning(o, truth, source, output)
  }

  predicate SameMeaning(o: Options, truth: Condition -> bool, source: seq<Line<Condition>>, output: seq<Line<Condition>>) {
    && Survivors([], source, truth).Some?
    && Filtered(Survivors([], output, truth)) == Filtered(Survivors([], source, truth))
    && (Bare(o) ==> Survivors([], output, truth) == Survivors([], source, truth))
  }

  /** No number in the file or on the command line is too large for an int. */
  predicate Readable(s: Settings, source: seq<Line<Condition>>) {
    SmallTab(s.tab) && forall i :: 0 <= i < |source| ==> Modest(source[i])
  }

  lemma {:induction false} OutputPreserves(o: Options, s: Settings, source: seq<Line<Condition>>)
    requires Readable(s, source) && Decide(Start, ClassifyAll(source, s), o.iocccok).ending.Complete?
    requires !o.complement && !o.symlist
    ensures Preserves(o, s, source, Output(o, ClassifyAll(source, s)))
  {
    var input := ClassifyAll(source, s);
    forall env: Env, truth: Condition -> bool | Extends(env, s.tab) && Respects(truth, env, s.tab)
      ensures SameMeaning(o, truth, source, Output(o, input))
    {
      AllClassifiedAgree(source, s, truth, env);
      OutputMeansInput(o, input, truth);
      LinesOfClassified(source, s);
    }
  }

  lemma {:induction false} ClassifiedIsOrdinary(source: seq<Line<Condition>>, s: Settings)
    ensures var input := ClassifyAll(source, s); forall i :: 0 <= i < |input| ==> Ordinary(input[i].lt)
  {
  }

  /** unifdef on a file: if it completes, what it has written means what the file means. */
  method Filter(o: Options, s: Settings, source: seq<Line<Condition>>) returns (ending: Ending, output: seq<Item<Condition>>)
    ensures ending == Decide(Start, ClassifyAll(source, s), o.iocccok).ending
    ensures ending.Complete? && !o.complement && !o.symlist && Readable(s, source) ==> Preserves(o, s, source, AsLines(output))
    ensures !o.compblank && !o.symlist ==>
              var vs := Decide(Start, ClassifyAll(source, s), o.iocccok).verdicts;
              Texts(output) == if o.complement then Dropped(vs) else M.Kept(vs)
  {
    var driver := new P.Unifdef(o);
    ClassifiedIsOrdinary(source, s);
    ending := driver.Process(ClassifyAll(source, s));
    output := driver.output;
    if ending.Complete? && !o.complement && !o.symlist && Readable(s, source) {
      OutputPreserves(o, s, source);
    }
    if !o.compblank && !o.symlist {
      WritesKept(o, Initial, 1, Decide(Start, ClassifyAll(source, s), o.iocccok).verdicts);
    }
  }
}
