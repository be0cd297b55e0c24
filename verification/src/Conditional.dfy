/**
 The meaning of conditional inclusion, after section 6.10.1 of
 ISO/IEC 9899:1999: which plain lines of a file survive, given the truth of
 every controlling condition. Independent of how unifdef works.
 */
module Conditional {
  import opened Wrappers

  /** A source line; `C` is whatever names a controlling condition. */
  datatype Line<+C> =
    | Plain(text: string)
    | If(cond: C)
    | ElIf(cond: C)
    | Else
    | EndIf

  /** One open #if section: is the current group selected, was any group selected so far, was #else seen. */
  datatype Frame = Frame(selected: bool, taken: bool, sawElse: bool)

  predicate Active(frames: seq<Frame>) {
    forall i :: 0 <= i < |frames| ==> frames[i].selected
  }

  /** The effect of one line on the open sections; None when the directive is misplaced. */
  function Advance<C>(frames: seq<Frame>, line: Line<C>, truth: C -> bool): Option<seq<Frame>> {
    match line
    case Plain(_) => Some(frames)
    case If(c) => Some(frames + [Frame(truth(c), truth(c), false)])
    case ElIf(c) =>
      if frames == [] || frames[|frames| - 1].sawElse then None
      else
        var f := frames[|frames| - 1];
        Some(frames[..|frames| - 1] + [Frame(!f.taken && truth(c), f.taken || truth(c), false)])
    case Else =>
      if frames == [] || frames[|frames| - 1].sawElse then None
      else
        var f := frames[|frames| - 1];
        Some(frames[..|frames| - 1] + [Frame(!f.taken, true, true)])
    case EndIf =>
      if frames == [] then None else Some(frames[..|frames| - 1])
  }

  /** The plain lines that survive preprocessing, in order; None when the file is not well nested. */
  function Survivors<C>(frames: seq<Frame>, lines: seq<Line<C>>, truth: C -> bool): Option<seq<string>>
    decreases |lines|
  {
    if lines == [] then
      if frames == [] then Some([]) else None
    else
      match Advance(frames, lines[0], truth)
      case None => None
      case Some(next) =>
        match Survivors(next, lines[1..], truth)
        case None => None
        case Some(rest) =>
          Some((if lines[0].Plain? && Active(frames) then [lines[0].text] else []) + rest)
  }

  /** The greatest number of sections open at once, counted from `depth`. */
  function Deepest<C>(depth: int, lines: seq<Line<C>>): (d: int)
    ensures d >= depth
    decreases |lines|
  {
    if lines == [] then depth
    else
      var next := if lines[0].If? then depth + 1 else if lines[0].EndIf? then depth - 1 else depth;
      var rest := Deepest(next, lines[1..]);
      if rest > depth then rest else depth
  }
}
