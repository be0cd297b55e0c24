/**
 unifdef preserves meaning: for every truth assignment that agrees with what
 unifdef was told, its output keeps alive exactly the plain lines that its
 input keeps alive. Proved by a level-by-level simulation between the
 conditional sections of the input and those of the output.
 */
module UnifdefMeaning {
  import opened Wrappers
  import opened Conditional
  import opened UnifdefTable

  // ----- agreement between line types and truth -----

  predicate Opens(d: Directive) { d.TrueI? || d.FalseI? || d.Unknown? || d.True? || d.False? }
  predicate Continues(d: Directive) { d.ElUnknown? || d.ElTrue? || d.ElFalse? }
  predicate KnownTrue(d: Directive) { d.TrueI? || d.True? || d.ElTrue? }
  predicate KnownFalse(d: Directive) { d.FalseI? || d.False? || d.ElFalse? }

  /** A directive with its condition replaced by the truth of it. */
  function Resolve<C>(line: Line<C>, truth: C -> bool): Line<bool> {
    match line
    case Plain(t) => Plain(t)
    case If(c) => If(truth(c))
    case ElIf(c) => ElIf(truth(c))
    case Else => Else
    case EndIf => EndIf
  }

  /** The line type fits the directive, and what it claims of the condition is true. */
  predicate Fits(d: Directive, line: Line<bool>) {
    if Opens(d) then line.If? && (KnownTrue(d) ==> line.cond) && (KnownFalse(d) ==> !line.cond)
    else if Continues(d) then line.ElIf? && (KnownTrue(d) ==> line.cond) && (KnownFalse(d) ==> !line.cond)
    else if d.ElseD? then line.Else?
    else line.EndIf?
  }

  predicate Agrees<C>(c: Classified<C>, truth: C -> bool) {
    match c.lt
    case PlainT => c.line.Plain?
    case Dir(d) => Fits(d, Resolve(c.line, truth))
    case Dodgy(d) => Fits(d, Resolve(c.line, truth))
    case _ => false
  }

  predicate AllAgree<C>(input: seq<Classified<C>>, truth: C -> bool) {
    forall i :: 0 <= i < |input| ==> Agrees(input[i], truth)
  }

  function Lines<C>(input: seq<Classified<C>>): (ls: seq<Line<C>>)
    ensures |ls| == |input|
  {
    if input == [] then [] else [input[0].line] + Lines(input[1..])
  }

  /** The lines unifdef prints (no -b, -B, -c, -n or -s). */
  function Kept<C>(verdicts: seq<Verdict<C>>): seq<Line<C>> {
    if verdicts == [] then []
    else (if verdicts[0].keep then [verdicts[0].line] else []) + Kept(verdicts[1..])
  }

  // ----- the simulation relation, one section at a time -----

  /** A section as the input has it and as the output has it, if it has it at all. */
  datatype Section = Section(input: Option<Frame>, output: Option<Frame>)

  /** `Advance` restricted to the one section a directive is about; None when it is about another one or misplaced. */
  function Local(o: Option<Frame>, line: Line<bool>): Option<Option<Frame>> {
    match line
    case Plain(_) => Some(o)
    case If(t) => if o.None? then Some(Some(Frame(t, t, false))) else None
    case ElIf(t) =>
      if o.Some? && !o.value.sawElse
      then Some(Some(Frame(!o.value.taken && t, o.value.taken || t, false))) else None
    case Else => if o.Some? && !o.value.sawElse then Some(Some(Frame(!o.value.taken, true, true))) else None
    case EndIf => if o.Some? then Some(None) else None
  }

  function Opt(o: Option<Frame>): seq<Frame> { if o.Some? then [o.value] else [] }

  lemma {:induction false} AdvanceIsLocal<C>(below: seq<Frame>, o: Option<Frame>, line: Line<C>, truth: C -> bool)
    requires Local(o, Resolve(line, truth)).Some?
    ensures Advance(below + Opt(o), line, truth) == Some(below + Opt(Local(o, Resolve(line, truth)).value))
  {
    var frames := below + Opt(o);
    if o.Some? { assert frames[..|frames| - 1] == below; }
    if o.None? { assert frames == below; }
    assert below + Opt(None) == below;
  }

  /** How a section's state, its input side and its output side belong together. */
  predicate Coupled(buried: bool, s: IfState, sec: Section) {
    && sec.input.Some?
    && var f := sec.input.value;
       if buried then sec.output.None? && ((s.FalseTrailer? && !f.sawElse) || (s.FalseElse? && f.sawElse))
       else
         match s
         case Outside => false
         case FalsePrefix => sec.output.None? && f == Frame(false, false, false)
         case TruePrefix => sec.output.None? && f == Frame(true, true, false)
         case FalseElse => sec.output.None? && !f.selected && f.sawElse
         case TrueElse => sec.output.None? && f.selected && f.sawElse
         case FalseTrailer => sec.output.None? && f == Frame(false, true, false)
         case PassMiddle => sec.output == Some(f) && !f.sawElse
         case FalseMiddle =>
           !f.selected && !f.sawElse && sec.output.Some? && sec.output.value.taken == f.taken && !sec.output.value.sawElse
         case TrueMiddle =>
           f.taken && !f.sawElse && sec.output.Some? && sec.output.value.selected == f.selected && sec.output.value.sawElse
         case PassElse =>
           f.sawElse && sec.output.Some? && sec.output.value.selected == f.selected && sec.output.value.sawElse
  }

  /** A directive applied to the input side, and to the output side if it is printed. */
  function NextSection(sec: Section, line: Line<bool>, v: Verdict<bool>): Option<Section> {
    var i := Local(sec.input, line);
    var o := if v.keep then Local(sec.output, v.line) else Some(sec.output);
    if i.Some? && o.Some? then Some(Section(i.value, o.value)) else None
  }

  /** Which action opens a group: only whether the enclosing state drops matters. */
  function OpeningAction(drops: bool, lt: LineType): Action
    requires (lt.Dir? || lt.Dodgy?) && Opens(lt.d)
  {
    if drops then if lt.d.TrueI? || lt.d.FalseI? then Idrop else Fdrop
    else if lt.d.Unknown? then Fpass
    else if lt.Dodgy? then if lt.d.TrueI? || lt.d.FalseI? then Oiffy else Oif
    else match lt.d case TrueI => Itrue case FalseI => Ifalse case True => Ftrue case _ => Ffalse
  }

  lemma {:induction false} TableOpensBy(below: IfState, lt: LineType)
    requires (lt.Dir? || lt.Dodgy?) && Opens(lt.d)
    ensures Transition(below, lt) == OpeningAction(Dropping(below), lt)
  {
  }

  /** An effect opens a group correctly. */
  predicate OpensWell(drops: bool, line: Line<bool>, e: Effect) {
    && e.Flush? && e.enter && e.move.Become? && !e.ignore.Keep?
    && (drops ==> !e.keep)
    && var sec := NextSection(Section(None, None), line, Verdict(e.keep, Edited(line, e.edit)));
       sec.Some? && Coupled(drops, e.move.to, sec.value)
  }

  lemma {:induction false} OpeningEffect(drops: bool, lt: LineType, line: Line<bool>, iocccok: bool)
    requires (lt.Dir? || lt.Dodgy?) && Opens(lt.d) && Fits(lt.d, line)
    ensures var e := Meaning(OpeningAction(drops, lt), iocccok);
            (e == Error(Obfuscated) && lt.Dodgy? && !iocccok) || OpensWell(drops, line, e)
  {
  }

  /** The table opens groups correctly. */
  lemma {:induction false} TableOpens(below: IfState, lt: LineType, line: Line<bool>, iocccok: bool)
    requires (lt.Dir? || lt.Dodgy?) && Opens(lt.d) && Fits(lt.d, line)
    ensures var e := Meaning(Transition(below, lt), iocccok);
            (e == Error(Obfuscated) && lt.Dodgy? && !iocccok) || OpensWell(Dropping(below), line, e)
  {
    TableOpensBy(below, lt);
    OpeningEffect(Dropping(below), lt, line, iocccok);
  }

  /** An effect carries a section to its next group; only a misplaced or obfuscated directive may be refused. */
  predicate Handles(buried: bool, sec: Section, lt: LineType, line: Line<bool>, e: Effect)
    requires sec.input.Some?
  {
    if e.Error? then lt.Dir? ==> sec.input.value.sawElse
    else
      && e.Flush? && !e.enter && e.move.Become? && (buried ==> !e.keep)
      && var next := NextSection(sec, line, Verdict(e.keep, Edited(line, e.edit)));
         next.Some? && Coupled(buried, e.move.to, next.value)
  }

  lemma {:induction false} TableElUnknown(buried: bool, s: IfState, sec: Section, dodgy: bool, t: bool, iocccok: bool)
    requires Coupled(buried, s, sec)
    ensures var lt := if dodgy then Dodgy(ElUnknown) else Dir(ElUnknown);
            Handles(buried, sec, lt, ElIf(t), Meaning(Transition(s, lt), iocccok))
  {
  }

  lemma {:induction false} TableElTrue(buried: bool, s: IfState, sec: Section, dodgy: bool, iocccok: bool)
    requires Coupled(buried, s, sec)
    ensures var lt := if dodgy then Dodgy(ElTrue) else Dir(ElTrue);
            Handles(buried, sec, lt, ElIf(true), Meaning(Transition(s, lt), iocccok))
  {
  }

  lemma {:induction false} TableElFalse(buried: bool, s: IfState, sec: Section, dodgy: bool, iocccok: bool)
    requires Coupled(buried, s, sec)
    ensures var lt := if dodgy then Dodgy(ElFalse) else Dir(ElFalse);
            Handles(buried, sec, lt, ElIf(false), Meaning(Transition(s, lt), iocccok))
  {
  }

  lemma {:induction false} TableElse(buried: bool, s: IfState, sec: Section, dodgy: bool, iocccok: bool)
    requires Coupled(buried, s, sec)
    ensures var lt := if dodgy then Dodgy(ElseD) else Dir(ElseD);
            Handles(buried, sec, lt, Else, Meaning(Transition(s, lt), iocccok))
  {
  }

  /** The table moves between the groups of a section correctly. */
  lemma {:induction false} TableContinues(buried: bool, s: IfState, sec: Section, lt: LineType, line: Line<bool>, iocccok: bool)
    requires (lt.Dir? || lt.Dodgy?) && (Continues(lt.d) || lt.d.ElseD?) && Fits(lt.d, line)
    requires Coupled(buried, s, sec)
    ensures Handles(buried, sec, lt, line, Meaning(Transition(s, lt), iocccok))
  {
    match lt.d {
      case ElUnknown => TableElUnknown(buried, s, sec, lt.Dodgy?, line.cond, iocccok);
      case ElTrue => TableElTrue(buried, s, sec, lt.Dodgy?, iocccok);
      case ElFalse => TableElFalse(buried, s, sec, lt.Dodgy?, iocccok);
      case ElseD => TableElse(buried, s, sec, lt.Dodgy?, iocccok);
    }
  }

  /** The table closes sections correctly. */
  lemma {:induction false} TableCloses(buried: bool, s: IfState, sec: Section, lt: LineType, iocccok: bool)
    requires (lt.Dir? || lt.Dodgy?) && lt.d.EndIfD?
    requires Coupled(buried, s, sec)
    ensures var e := Meaning(Transition(s, lt), iocccok);
            (e.Error? && lt.Dodgy?) ||
            (&& e.Flush? && !e.enter && e.move.Leave?
             && (buried ==> !e.keep)
             && NextSection(sec, EndIf, Verdict(e.keep, Edited(EndIf, e.edit))) == Some(Section(None, None)))
  {
  }

  // ----- the simulation over whole stacks -----

  /** The sections open in the input, outermost first. */
  ghost function Ins(secs: seq<Section>): seq<Frame> {
    if secs == [] then [] else Ins(secs[..|secs| - 1]) + Opt(secs[|secs| - 1].input)
  }

  /** The sections open in the output, outermost first. */
  ghost function Outs(secs: seq<Section>): seq<Frame> {
    if secs == [] then [] else Outs(secs[..|secs| - 1]) + Opt(secs[|secs| - 1].output)
  }

  ghost predicate Related(levels: seq<Level>, secs: seq<Section>) {
    && |levels| == |secs| + 1
    && levels[0].state.Outside?
    && forall i :: 0 <= i < |secs| ==> Coupled(Dropping(levels[i].state), levels[i + 1].state, secs[i])
  }

  lemma {:induction false} Grown(below: seq<Section>, top: Section)
    ensures Ins(below + [top]) == Ins(below) + Opt(top.input)
    ensures Outs(below + [top]) == Outs(below) + Opt(top.output)
  {
    assert (below + [top])[..|below|] == below;
  }

  /** In a dropping state nothing is alive in the input; otherwise input and output agree on what is alive. */
  lemma {:induction false} ActivityAgrees(levels: seq<Level>, secs: seq<Section>)
    requires Related(levels, secs)
    ensures Dropping(levels[|secs|].state) ==> !Active(Ins(secs))
    ensures !Dropping(levels[|secs|].state) ==> Active(Ins(secs)) == Active(Outs(secs))
    decreases |secs|
  {
    var n := |secs|;
    if n > 0 {
      var top := secs[n - 1];
      ActivityAgrees(levels[..n], secs[..n - 1]);
      ActiveAppend(Ins(secs[..n - 1]), top.input);
      ActiveAppend(Outs(secs[..n - 1]), top.output);
      assert Coupled(Dropping(levels[n - 1].state), levels[n].state, top);
    }
  }

  lemma {:induction false} ActiveAppend(frames: seq<Frame>, o: Option<Frame>)
    ensures Active(frames + Opt(o)) <==> Active(frames) && (o.Some? ==> o.value.selected)
  {
    var all := frames + Opt(o);
    if Active(all) {
      assert forall i :: 0 <= i < |frames| ==> frames[i] == all[i];
      if o.Some? { assert all[|frames|] == o.value; }
    }
  }

  /** What the output's sections become when a verdict is carried out. */
  ghost function Shown<C>(outs: seq<Frame>, v: Verdict<C>, truth: C -> bool): Option<seq<Frame>> {
    if v.keep then Advance(outs, v.line, truth) else Some(outs)
  }

  /** A section's step, lifted to the stacks it is on top of. */
  lemma {:induction false} SectionStepLifts<C>(below: seq<Section>, sec: Section, line: Line<C>, keep: bool, edit: Edit, truth: C -> bool)
    requires NextSection(sec, Resolve(line, truth), Verdict(keep, Edited(Resolve(line, truth), edit))).Some?
    ensures var next := NextSection(sec, Resolve(line, truth), Verdict(keep, Edited(Resolve(line, truth), edit))).value;
            && Advance(Ins(below) + Opt(sec.input), line, truth) == Some(Ins(below) + Opt(next.input))
            && Shown(Outs(below) + Opt(sec.output), Verdict(keep, Edited(line, edit)), truth)
               == Some(Outs(below) + Opt(next.output))
  {
    AdvanceIsLocal(Ins(below), sec.input, line, truth);
    assert Resolve(Edited(line, edit), truth) == Edited(Resolve(line, truth), edit);
    if keep { AdvanceIsLocal(Outs(below), sec.output, Edited(line, edit), truth); }
  }

  /** A performed effect moves input and output in step, from one set of open sections to another. */
  ghost predicate InStep<C>(secs: seq<Section>, next: seq<Section>, line: Line<C>, r: StepResult<C>, truth: C -> bool) {
    && r.Next?
    && Related(r.levels, next)
    && Advance(Ins(secs), line, truth) == Some(Ins(next))
    && Shown(Outs(secs), r.verdict, truth) == Some(Outs(next))
  }

  lemma {:induction false} OpeningPerforms<C>(levels: seq<Level>, secs: seq<Section>, line: Line<C>, e: Effect, sec: Section, truth: C -> bool)
    requires Related(levels, secs)
    requires e.Flush? && e.enter && e.move.Become? && !e.ignore.Keep? && |levels| < MAXDEPTH
    requires NextSection(Section(None, None), Resolve(line, truth), Verdict(e.keep, Edited(Resolve(line, truth), e.edit))) == Some(sec)
    requires Coupled(Dropping(levels[|secs|].state), e.move.to, sec)
    ensures InStep(secs, secs + [sec], line, Perform(levels, line, e), truth)
  {
    hide Coupled, NextSection, Ins, Outs, Advance, Related, Edited;
    var n := |secs|;
    RelatedLength(levels, secs);
    SectionStepLifts(secs, Section(None, None), line, e.keep, e.edit, truth);
    assert Ins(secs) + Opt(None) == Ins(secs) && Outs(secs) + Opt(None) == Outs(secs);
    Grown(secs, sec);
    var r := Perform(levels, line, e);
    assert r.levels == levels + [r.levels[n + 1]] && r.levels[n + 1].state == e.move.to;
    RelatedPushed(levels, secs, r.levels[n + 1], sec);
  }

  lemma {:induction false} RelatedLength(levels: seq<Level>, secs: seq<Section>)
    requires Related(levels, secs)
    ensures |levels| == |secs| + 1
  {
  }

  /** One more section keeps the stacks related. */
  lemma {:induction false} RelatedPushed(levels: seq<Level>, secs: seq<Section>, top: Level, sec: Section)
    requires Related(levels, secs) && Coupled(Dropping(levels[|secs|].state), top.state, sec)
    ensures Related(levels + [top], secs + [sec])
  {
    hide Coupled;
    var ls, ss := levels + [top], secs + [sec];
    forall i | 0 <= i <= |secs| ensures Coupled(Dropping(ls[i].state), ls[i + 1].state, ss[i]) {
      if i < |secs| { assert ls[i] == levels[i] && ls[i + 1] == levels[i + 1] && ss[i] == secs[i]; }
    }
  }

  /** Replacing the innermost section keeps the stacks related. */
  lemma {:induction false} RelatedReplaced(levels: seq<Level>, secs: seq<Section>, top: Level, sec: Section)
    requires Related(levels, secs) && secs != []
    requires Coupled(Dropping(levels[|secs| - 1].state), top.state, sec)
    ensures Related(levels[..|secs|] + [top], secs[..|secs| - 1] + [sec])
  {
    var n := |secs|;
    var ls, ss := levels[..n] + [top], secs[..n - 1] + [sec];
    forall i | 0 <= i < n ensures Coupled(Dropping(ls[i].state), ls[i + 1].state, ss[i]) {
      if i < n - 1 { assert ls[i] == levels[i] && ls[i + 1] == levels[i + 1] && ss[i] == secs[i]; }
    }
  }

  lemma {:induction false} ContinuingPerforms<C>(levels: seq<Level>, secs: seq<Section>, line: Line<C>, e: Effect, sec: Section, truth: C -> bool)
    requires Related(levels, secs) && secs != []
    requires e.Flush? && !e.enter && e.move.Become?
    requires NextSection(secs[|secs| - 1], Resolve(line, truth), Verdict(e.keep, Edited(Resolve(line, truth), e.edit))) == Some(sec)
    requires Coupled(Dropping(levels[|secs| - 1].state), e.move.to, sec)
    ensures InStep(secs, secs[..|secs| - 1] + [sec], line, Perform(levels, line, e), truth)
  {
    var n := |secs|;
    var next := Moved(levels, e.move, e.ignore);
    assert next.Some? && next.value == levels[..n] + [next.value[n]] && next.value[n].state == e.move.to;
    RelatedReplaced(levels, secs, next.value[n], sec);
    SectionStepLifts(secs[..n - 1], secs[n - 1], line, e.keep, e.edit, truth);
    Grown(secs[..n - 1], sec);
  }

  lemma {:induction false} ClosingPerforms<C>(levels: seq<Level>, secs: seq<Section>, line: Line<C>, e: Effect, truth: C -> bool)
    requires Related(levels, secs) && secs != []
    requires e.Flush? && !e.enter && e.move.Leave?
    requires NextSection(secs[|secs| - 1], Resolve(line, truth), Verdict(e.keep, Edited(Resolve(line, truth), e.edit))) == Some(Section(None, None))
    ensures InStep(secs, secs[..|secs| - 1], line, Perform(levels, line, e), truth)
  {
    var n := |secs|;
    var below := secs[..n - 1];
    SectionStepLifts(below, secs[n - 1], line, e.keep, e.edit, truth);
    assert Ins(below) + Opt(None) == Ins(below) && Outs(below) + Opt(None) == Outs(below);
  }

  lemma {:induction false} OutsideRefuses(lt: LineType, iocccok: bool)
    requires (lt.Dir? || lt.Dodgy?) && !Opens(lt.d)
    ensures Meaning(Transition(Outside, lt), iocccok).Error?
  {
  }

  /** One line that unifdef accepts moves input and output in step. */
  lemma {:induction false} StepSimulates<C>(levels: seq<Level>, secs: seq<Section>, c: Classified<C>, truth: C -> bool, iocccok: bool)
    returns (next: seq<Section>)
    requires Related(levels, secs) && Agrees(c, truth)
    requires Step(levels, c.line, c.lt, iocccok).Next?
    ensures InStep(secs, next, c.line, Step(levels, c.line, c.lt, iocccok), truth)
  {
    var n, line := |secs|, Resolve(c.line, truth);
    var e := Meaning(Transition(levels[n].state, c.lt), iocccok);
    if c.lt.PlainT? {
      next := secs;
    } else if Opens(c.lt.d) {
      TableOpens(levels[n].state, c.lt, line, iocccok);
      var sec := NextSection(Section(None, None), line, Verdict(e.keep, Edited(line, e.edit))).value;
      OpeningPerforms(levels, secs, c.line, e, sec, truth);
      next := secs + [sec];
    } else {
      if n == 0 { OutsideRefuses(c.lt, iocccok); }
      var buried := Dropping(levels[n - 1].state);
      if c.lt.d.EndIfD? {
        TableCloses(buried, levels[n].state, secs[n - 1], c.lt, iocccok);
        ClosingPerforms(levels, secs, c.line, e, truth);
        next := secs[..n - 1];
      } else {
        TableContinues(buried, levels[n].state, secs[n - 1], c.lt, line, iocccok);
        var sec := NextSection(secs[n - 1], line, Verdict(e.keep, Edited(line, e.edit))).value;
        ContinuingPerforms(levels, secs, c.line, e, sec, truth);
        next := secs[..n - 1] + [sec];
      }
    }
  }

  // ----- main results -----

  lemma {:induction false} Simulation<C>(levels: seq<Level>, secs: seq<Section>, input: seq<Classified<C>>, truth: C -> bool, iocccok: bool)
    requires Related(levels, secs) && AllAgree(input, truth)
    requires Decide(levels, input, iocccok).ending.Complete?
    ensures Survivors(Ins(secs), Lines(input), truth).Some?
    ensures Survivors(Outs(secs), Kept(Decide(levels, input, iocccok).verdicts), truth) == Survivors(Ins(secs), Lines(input), truth)
    decreases |input|
  {
    if input == [] {
      OutsideMeansClosed(levels, secs);
    } else {
      var c, rest := input[0], input[1..];
      assert Agrees(c, truth);
      NoEarlyFinish(levels, c, truth, iocccok);
      var r := Step(levels, c.line, c.lt, iocccok);
      var next := StepSimulates(levels, secs, c, truth, iocccok);
      Simulation(r.levels, next, rest, truth, iocccok);
      ActivityAgrees(levels, secs);
      PlainVerdict(levels, c, truth, iocccok);
      KeptStep(r.verdict, Decide(r.levels, rest, iocccok).verdicts, Outs(secs), truth);
      assert Lines(input)[1..] == Lines(rest);
    }
  }

  lemma {:induction false} NoEarlyFinish<C>(levels: seq<Level>, c: Classified<C>, truth: C -> bool, iocccok: bool)
    requires levels != [] && Agrees(c, truth)
    ensures !Step(levels, c.line, c.lt, iocccok).Finished?
  {
    OnlyEofFinishes(levels[|levels| - 1].state, c.lt, iocccok);
  }

  /** A plain line is kept as it is exactly when the state prints, and only plain lines become plain lines. */
  lemma {:induction false} PlainVerdict<C>(levels: seq<Level>, c: Classified<C>, truth: C -> bool, iocccok: bool)
    requires levels != [] && Agrees(c, truth) && Step(levels, c.line, c.lt, iocccok).Next?
    ensures var v := Step(levels, c.line, c.lt, iocccok).verdict;
            if c.line.Plain? then v == Verdict(!Dropping(levels[|levels| - 1].state), c.line) else !v.line.Plain?
  {
  }

  /** Printing one more line in front of the output. */
  lemma {:induction false} KeptStep<C>(v: Verdict<C>, rest: seq<Verdict<C>>, outs: seq<Frame>, truth: C -> bool)
    requires Shown(outs, v, truth).Some?
    ensures var after := Survivors(Shown(outs, v, truth).value, Kept(rest), truth);
            Survivors(outs, Kept([v] + rest), truth) ==
            if after.None? then None
            else Some((if v.keep && v.line.Plain? && Active(outs) then [v.line.text] else []) + after.value)
  {
    assert ([v] + rest)[1..] == rest;
    if v.keep {
      assert Kept([v] + rest)[0] == v.line && Kept([v] + rest)[1..] == Kept(rest);
    } else {
      assert Kept([v] + rest) == Kept(rest);
      var after := Survivors(outs, Kept(rest), truth);
      if after.Some? { assert [] + after.value == after.value; }
    }
  }

  /**
   Meaning preservation: whatever the conditions unifdef could not decide turn
   out to be, the output has the same surviving lines as the input. An
   obfuscated directive counts as one whole line here; `UnifdefObfuscated` says
   exactly when its physical lines are kept or dropped together.
   */
  lemma {:induction false} MeaningPreserved<C>(input: seq<Classified<C>>, truth: C -> bool, iocccok: bool)
    requires AllAgree(input, truth)
    requires Decide(Start, input, iocccok).ending.Complete?
    ensures Survivors([], Lines(input), truth).Some?
    ensures Survivors([], Kept(Decide(Start, input, iocccok).verdicts), truth) == Survivors([], Lines(input), truth)
  {
    Simulation(Start, [], input, truth, iocccok);
  }

  lemma {:induction false} DecideUnfolds<C>(levels: seq<Level>, c: Classified<C>, rest: seq<Classified<C>>, truth: C -> bool, iocccok: bool)
    requires levels != [] && Agrees(c, truth)
    ensures var r := Step(levels, c.line, c.lt, iocccok);
            Decide(levels, [c] + rest, iocccok).ending.Complete? <==> r.Next? && Decide(r.levels, rest, iocccok).ending.Complete?
  {
    NoEarlyFinish(levels, c, truth, iocccok);
    assert ([c] + rest)[1..] == rest;
  }

  lemma {:induction false} NestingUnfolds<C>(frames: seq<Frame>, depth: int, c: Classified<C>, rest: seq<Classified<C>>, truth: C -> bool)
    ensures var next := Advance(frames, c.line, truth);
            Survivors(frames, Lines([c] + rest), truth).Some? <==> next.Some? && Survivors(next.value, Lines(rest), truth).Some?
    ensures var next := depth + (if c.line.If? then 1 else if c.line.EndIf? then -1 else 0);
            Deepest(depth, Lines([c] + rest)) < MAXDEPTH <==> depth < MAXDEPTH && Deepest(next, Lines(rest)) < MAXDEPTH
  {
    assert ([c] + rest)[1..] == rest;
    assert Lines([c] + rest) == [c.line] + Lines(rest);
    assert Lines([c] + rest)[1..] == Lines(rest);
  }

  /** Without obfuscated lines, a run completes exactly when the file is well nested and not nested too deeply. */
  lemma {:induction false} CompletionFrom<C>(levels: seq<Level>, secs: seq<Section>, input: seq<Classified<C>>, truth: C -> bool, iocccok: bool)
    requires Related(levels, secs) && AllAgree(input, truth) && |levels| <= MAXDEPTH
    requires forall i :: 0 <= i < |input| ==> !input[i].lt.Dodgy?
    ensures Decide(levels, input, iocccok).ending.Complete? <==>
            Survivors(Ins(secs), Lines(input), truth).Some? && Deepest(|secs|, Lines(input)) < MAXDEPTH
    decreases |input|
  {
    if input == [] {
      OutsideMeansClosed(levels, secs);
    } else {
      var c, rest := input[0], input[1..];
      assert Agrees(c, truth) && input == [c] + rest;
      DecideUnfolds(levels, c, rest, truth, iocccok);
      NestingUnfolds(Ins(secs), |secs|, c, rest, truth);
      if Step(levels, c.line, c.lt, iocccok).Next? {
        var next := StepSimulates(levels, secs, c, truth, iocccok);
        DepthFollows(levels, c, truth, iocccok);
        CompletionFrom(Step(levels, c.line, c.lt, iocccok).levels, next, rest, truth, iocccok);
      } else {
        RefusalIsJust(levels, secs, c, truth, iocccok);
      }
    }
  }

  lemma {:induction false} OutsideMeansClosed(levels: seq<Level>, secs: seq<Section>)
    requires Related(levels, secs)
    ensures levels[|secs|].state.Outside? <==> secs == []
    ensures Ins(secs) == [] <==> secs == []
  {
    if secs != [] {
      assert Coupled(Dropping(levels[|secs| - 1].state), levels[|secs|].state, secs[|secs| - 1]);
    }
  }

  lemma {:induction false} DepthFollows<C>(levels: seq<Level>, c: Classified<C>, truth: C -> bool, iocccok: bool)
    requires levels != [] && |levels| <= MAXDEPTH && Agrees(c, truth) && Step(levels, c.line, c.lt, iocccok).Next?
    ensures var n := |Step(levels, c.line, c.lt, iocccok).levels|;
            n <= MAXDEPTH && n == |levels| + (if c.line.If? then 1 else if c.line.EndIf? then -1 else 0)
  {
    if c.lt.Dir? || c.lt.Dodgy? {
      if Opens(c.lt.d) {
        TableEnters(levels[|levels| - 1].state, c.lt, iocccok);
      } else {
        TableStays(levels[|levels| - 1].state, c.lt, iocccok);
      }
    }
  }

  /** Opening directives enter a group. */
  lemma {:induction false} TableEnters(s: IfState, lt: LineType, iocccok: bool)
    requires (lt.Dir? || lt.Dodgy?) && Opens(lt.d)
    ensures var e := Meaning(Transition(s, lt), iocccok);
            e.Error? || (e.Flush? && e.enter && !e.move.Leave?)
  {
    TableOpensBy(s, lt);
    OpeningEntry(Dropping(s), lt, iocccok);
  }

  /** Opening actions set a state and never leave a group. */
  lemma {:induction false} OpeningEntry(drops: bool, lt: LineType, iocccok: bool)
    requires (lt.Dir? || lt.Dodgy?) && Opens(lt.d)
    ensures var e := Meaning(OpeningAction(drops, lt), iocccok);
            e.Error? || (&& e.Flush? && e.enter && e.move.Become? && !e.move.to.Outside? && !e.ignore.Keep?
                         && (drops ==> !e.keep && e.move.to.FalseTrailer?))
  {
  }

  /** #endif leaves a group, #elif and #else do not. */
  lemma {:induction false} TableStays(s: IfState, lt: LineType, iocccok: bool)
    requires (lt.Dir? || lt.Dodgy?) && !Opens(lt.d)
    ensures var e := Meaning(Transition(s, lt), iocccok);
            e.Error? || (e.Flush? && !e.enter && (e.move.Leave? <==> lt.d.EndIfD?))
  {
  }

  /** unifdef stops only at a misplaced directive or at the nesting limit. */
  lemma {:induction false} RefusalIsJust<C>(levels: seq<Level>, secs: seq<Section>, c: Classified<C>, truth: C -> bool, iocccok: bool)
    requires Related(levels, secs) && Agrees(c, truth) && !c.lt.Dodgy?
    requires !Step(levels, c.line, c.lt, iocccok).Next?
    ensures (c.line.If? && |levels| >= MAXDEPTH) || Advance(Ins(secs), c.line, truth).None?
  {
    var n, line := |secs|, Resolve(c.line, truth);
    var s := levels[n].state;
    if c.lt.Dir? {
      if Opens(c.lt.d) {
        TableOpens(s, c.lt, line, iocccok);
      } else if n > 0 {
        var buried, top := Dropping(levels[n - 1].state), secs[n - 1];
        assert Coupled(buried, s, top);
        assert Ins(secs) == Ins(secs[..n - 1]) + [top.input.value];
        if c.lt.d.EndIfD? {
          TableCloses(buried, s, top, c.lt, iocccok);
        } else {
          TableContinues(buried, s, top, c.lt, line, iocccok);
        }
      }
    }
  }

  lemma {:induction false} CompletesExactlyWhenWellNested<C>(input: seq<Classified<C>>, truth: C -> bool, iocccok: bool)
    requires AllAgree(input, truth)
    requires forall i :: 0 <= i < |input| ==> !input[i].lt.Dodgy?
    ensures Decide(Start, input, iocccok).ending.Complete? <==>
            Survivors([], Lines(input), truth).Some? && Deepest(0, Lines(input)) < MAXDEPTH
  {
    CompletionFrom(Start, [], input, truth, iocccok);
  }
}
