/**
 The #if state machine of unifdef: line types, states, the transition table
 and what each table action does to the stack of states.
 */
module UnifdefTable {
  import opened Wrappers
  import opened Conditional

  datatype Directive = TrueI | FalseI | Unknown | True | False | ElUnknown | ElTrue | ElFalse | ElseD | EndIfD

  datatype LineType = Dir(d: Directive) | Dodgy(d: Directive) | PlainT | Eof | Unevaluable

  datatype IfState =
    | Outside | FalsePrefix | TruePrefix | PassMiddle | FalseMiddle
    | TrueMiddle | PassElse | FalseElse | TrueElse | FalseTrailer

  /** The state functions of the table, by their names in the source. */
  datatype Action =
    | Eelif | Eelse | Eendif | Eeof | Eioccc | Print | Drop
    | Strue | Sfalse | Selse | Pelif | Pelse | Pendif | Dfalse | Delif | Delse | Dendif
    | Fdrop | Fpass | Ftrue | Ffalse | Oiffy | Oif | Oelif | Idrop | Itrue | Ifalse
    | Mpass | Mtrue | Melif | Melse | Done | Abort

  /** Selects one of ten table entries by the directive they are listed for. */
  function Column(d: Directive, a0: Action, a1: Action, a2: Action, a3: Action, a4: Action,
                  a5: Action, a6: Action, a7: Action, a8: Action, a9: Action): Action
  {
    match d
    case TrueI => a0 case FalseI => a1 case Unknown => a2 case True => a3 case False => a4
    case ElUnknown => a5 case ElTrue => a6 case ElFalse => a7 case ElseD => a8 case EndIfD => a9
  }

  function PlainRow(s: IfState, d: Directive): Action {
    match s
    case Outside => Column(d, Itrue, Ifalse, Fpass, Ftrue, Ffalse, Eelif, Eelif, Eelif, Eelse, Eendif)
    case FalsePrefix => Column(d, Idrop, Idrop, Fdrop, Fdrop, Fdrop, Mpass, Strue, Sfalse, Selse, Dendif)
    case TruePrefix => Column(d, Itrue, Ifalse, Fpass, Ftrue, Ffalse, Dfalse, Dfalse, Dfalse, Delse, Dendif)
    case PassMiddle => Column(d, Itrue, Ifalse, Fpass, Ftrue, Ffalse, Pelif, Mtrue, Delif, Pelse, Pendif)
    case FalseMiddle => Column(d, Idrop, Idrop, Fdrop, Fdrop, Fdrop, Pelif, Mtrue, Delif, Pelse, Pendif)
    case TrueMiddle => Column(d, Itrue, Ifalse, Fpass, Ftrue, Ffalse, Melif, Melif, Melif, Melse, Pendif)
    case PassElse => Column(d, Itrue, Ifalse, Fpass, Ftrue, Ffalse, Eelif, Eelif, Eelif, Eelse, Pendif)
    case FalseElse => Column(d, Idrop, Idrop, Fdrop, Fdrop, Fdrop, Eelif, Eelif, Eelif, Eelse, Dendif)
    case TrueElse => Column(d, Itrue, Ifalse, Fpass, Ftrue, Ffalse, Eelif, Eelif, Eelif, Eelse, Dendif)
    case FalseTrailer => Column(d, Idrop, Idrop, Fdrop, Fdrop, Fdrop, Dfalse, Dfalse, Dfalse, Delse, Dendif)
  }

  function DodgyRow(s: IfState, d: Directive): Action {
    match s
    case Outside => Column(d, Oiffy, Oiffy, Fpass, Oif, Oif, Eelif, Eelif, Eelif, Eelse, Eendif)
    case FalsePrefix => Column(d, Idrop, Idrop, Fdrop, Fdrop, Fdrop, Mpass, Eioccc, Eioccc, Eioccc, Eioccc)
    case TruePrefix => Column(d, Oiffy, Oiffy, Fpass, Oif, Oif, Eioccc, Eioccc, Eioccc, Eioccc, Eioccc)
    case PassMiddle => Column(d, Oiffy, Oiffy, Fpass, Oif, Oif, Pelif, Oelif, Oelif, Pelse, Pendif)
    case FalseMiddle => Column(d, Idrop, Idrop, Fdrop, Fdrop, Fdrop, Eioccc, Eioccc, Eioccc, Eioccc, Eioccc)
    case TrueMiddle => Column(d, Oiffy, Oiffy, Fpass, Oif, Oif, Eioccc, Eioccc, Eioccc, Eioccc, Pendif)
    case PassElse => Column(d, Oiffy, Oiffy, Fpass, Oif, Oif, Eelif, Eelif, Eelif, Eelse, Pendif)
    case FalseElse => Column(d, Idrop, Idrop, Fdrop, Fdrop, Fdrop, Eelif, Eelif, Eelif, Eelse, Eioccc)
    case TrueElse => Column(d, Oiffy, Oiffy, Fpass, Oif, Oif, Eelif, Eelif, Eelif, Eelse, Eioccc)
    case FalseTrailer => Column(d, Idrop, Idrop, Fdrop, Fdrop, Fdrop, Dfalse, Dfalse, Dfalse, Delse, Eioccc)
  }

  /** States in which plain lines are dropped. */
  predicate Dropping(s: IfState) {
    s.FalsePrefix? || s.FalseMiddle? || s.FalseElse? || s.FalseTrailer?
  }

  /** `trans_table[s][lt]`. */
  function Transition(s: IfState, lt: LineType): Action {
    match lt
    case Dir(d) => PlainRow(s, d)
    case Dodgy(d) => DodgyRow(s, d)
    case PlainT => if Dropping(s) then Drop else Print
    case Eof => if s.Outside? then Done else Eeof
    case Unevaluable => Abort
  }

  // ----- what an action amounts to -----

  datatype Problem = MisplacedElif | MisplacedElse | MisplacedEndif | PrematureEof | Obfuscated | TooDeep

  datatype Edit = AsIs | ToIf | ToElse | ToEndIf
  datatype Move = Stay | Become(to: IfState) | Leave
  datatype Ignore = Keep | Inherit | On

  datatype Effect =
    | Flush(enter: bool, keep: bool, edit: Edit, move: Move, ignore: Ignore)
    | Error(problem: Problem)
    | Finish
    | Bug

  function Meaning(a: Action, iocccok: bool): Effect {
    match a
    case Eelif => Error(MisplacedElif)
    case Eelse => Error(MisplacedElse)
    case Eendif => Error(MisplacedEndif)
    case Eeof => Error(PrematureEof)
    case Eioccc => Error(Obfuscated)
    case Print => Flush(false, true, AsIs, Stay, Keep)
    case Drop => Flush(false, false, AsIs, Stay, Keep)
    case Strue => Flush(false, false, AsIs, Become(TruePrefix), Inherit)
    case Sfalse => Flush(false, false, AsIs, Become(FalsePrefix), Inherit)
    case Selse => Flush(false, false, AsIs, Become(TrueElse), Keep)
    case Pelif => Flush(false, true, AsIs, Become(PassMiddle), Inherit)
    case Pelse => Flush(false, true, AsIs, Become(PassElse), Keep)
    case Pendif => Flush(false, true, AsIs, Leave, Keep)
    case Dfalse => Flush(false, false, AsIs, Become(FalseTrailer), Inherit)
    case Delif => Flush(false, false, AsIs, Become(FalseMiddle), Inherit)
    case Delse => Flush(false, false, AsIs, Become(FalseElse), Keep)
    case Dendif => Flush(false, false, AsIs, Leave, Keep)
    case Fdrop => Flush(true, false, AsIs, Become(FalseTrailer), Inherit)
    case Fpass => Flush(true, true, AsIs, Become(PassMiddle), Inherit)
    case Ftrue => Flush(true, false, AsIs, Become(TruePrefix), Inherit)
    case Ffalse => Flush(true, false, AsIs, Become(FalsePrefix), Inherit)
    case Oiffy => if iocccok then Flush(true, true, AsIs, Become(PassMiddle), On) else Error(Obfuscated)
    case Oif => if iocccok then Flush(true, true, AsIs, Become(PassMiddle), Inherit) else Error(Obfuscated)
    case Oelif => if iocccok then Flush(false, true, AsIs, Become(PassMiddle), Inherit) else Error(Obfuscated)
    case Idrop => Flush(true, false, AsIs, Become(FalseTrailer), On)
    case Itrue => Flush(true, false, AsIs, Become(TruePrefix), On)
    case Ifalse => Flush(true, false, AsIs, Become(FalsePrefix), On)
    case Mpass => Flush(false, true, ToIf, Become(PassMiddle), Inherit)
    case Mtrue => Flush(false, true, ToElse, Become(TrueMiddle), Keep)
    case Melif => Flush(false, true, ToEndIf, Become(FalseTrailer), Keep)
    case Melse => Flush(false, true, ToEndIf, Become(FalseElse), Keep)
    case Done => Finish
    case Abort => Bug
  }

  /** Only the end of the file ends a run. */
  lemma {:induction false} OnlyEofFinishes(s: IfState, lt: LineType, iocccok: bool)
    requires !lt.Eof?
    ensures !Meaning(Transition(s, lt), iocccok).Finish?
  {
    var a := Transition(s, lt);
    assert a != Done;
    assert Meaning(a, iocccok).Finish? ==> a == Done;
  }

  // ----- one line -----

  const MAXDEPTH := 64

  /** One level of nesting: `ifstate[i]` and `ignoring[i]`. */
  datatype Level = Level(state: IfState, ignoring: bool)

  /** What was decided for one input line: keep or drop, and the line as edited. */
  datatype Verdict<+C> = Verdict(keep: bool, line: Line<C>)

  datatype StepResult<+C> =
    | Next(levels: seq<Level>, verdict: Verdict<C>)
    | Stopped(problem: Problem)
    | Finished
    | Crashed

  function Edited<C>(line: Line<C>, edit: Edit): Line<C> {
    match edit
    case AsIs => line
    case ToIf => if line.ElIf? then If(line.cond) else line
    case ToElse => Else
    case ToEndIf => EndIf
  }

  /** The levels after entering a group, moving within it or leaving it; None where the source calls abort(). */
  function Moved(levels: seq<Level>, move: Move, ignore: Ignore): (r: Option<seq<Level>>)
    requires levels != []
    ensures r.Some? ==> r.value != []
  {
    var top := |levels| - 1;
    match move
    case Leave => if top == 0 then None else Some(levels[..top])
    case Stay => Some(levels)
    case Become(s) =>
      match ignore
      case Keep => Some(levels[..top] + [Level(s, levels[top].ignoring)])
      case On => if top == 0 then None else Some(levels[..top] + [Level(s, true)])
      case Inherit => if top == 0 then None else Some(levels[..top] + [Level(s, levels[top - 1].ignoring)])
  }

  /** Applies one action to the levels. */
  function Perform<C>(levels: seq<Level>, line: Line<C>, e: Effect): (r: StepResult<C>)
    requires levels != []
    ensures r.Next? ==> r.levels != []
  {
    match e
    case Error(p) => Stopped(p)
    case Finish => Finished
    case Bug => Crashed
    case Flush(enter, keep, edit, move, ignore) =>
      if enter && |levels| >= MAXDEPTH then Stopped(TooDeep)
      else
        match Moved(if enter then levels + [Level(Outside, false)] else levels, move, ignore)
        case None => Crashed
        case Some(next) => Next(next, Verdict(keep, Edited(line, edit)))
  }

  function Step<C>(levels: seq<Level>, line: Line<C>, lt: LineType, iocccok: bool): StepResult<C>
    requires levels != []
  {
    Perform(levels, line, Meaning(Transition(levels[|levels| - 1].state, lt), iocccok))
  }

  // ----- whole runs -----

  /** An input line with the type parseline gave it. */
  datatype Classified<+C> = Classified(line: Line<C>, lt: LineType)

  datatype Ending = Complete | Failed(problem: Problem) | Abnormal

  datatype Run<+C> = Run(verdicts: seq<Verdict<C>>, ending: Ending)

  const Start: seq<Level> := [Level(Outside, false)]

  /** The verdicts of a run over all lines and the end of file, and how it ends. */
  function Decide<C>(levels: seq<Level>, input: seq<Classified<C>>, iocccok: bool): Run<C>
    requires levels != []
    decreases |input|
  {
    if input == [] then
      Run([], if levels[|levels| - 1].state.Outside? then Complete else Failed(PrematureEof))
    else
      match Step(levels, input[0].line, input[0].lt, iocccok)
      case Stopped(p) => Run([], Failed(p))
      case Finished => Run([], Complete)
      case Crashed => Run([], Abnormal)
      case Next(next, v) =>
        var rest := Decide(next, input[1..], iocccok);
        Run([v] + rest.verdicts, rest.ending)
  }
}
