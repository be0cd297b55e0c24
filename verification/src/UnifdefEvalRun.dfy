/**
 The evaluator as it runs: line types, a value delivered beside them, a cursor
 that moves, and the constexpr flag. Each routine is proved to compute the
 evaluation function it stands for.
 */
module UnifdefEvalRun {
  import opened Arithmetic
  import opened Wrappers
  import opened UnifdefEval

  datatype Lt = LtIf | LtTrue | LtFalse | LtError

  /** A line type and an int stand for a three-valued value; the int means nothing beside LT_IF. */
  predicate Stands(lt: Lt, val: int, v: Three) {
    match v
    case Unknown => lt.LtIf?
    case Known(n) => val == n && lt == FromInt(n)
  }

  function FromInt(n: int): Lt { if n != 0 then LtTrue else LtFalse }

  function OpStrict(v: int, at: Lt, a: int, bt: Lt): (Lt, int) {
    if at.LtIf? || bt.LtIf? then (LtIf, a) else (FromInt(v), v)
  }

  /** The operator functions: the line type of the result, and what `*valp` holds afterwards. */
  function OpFn(op: BinOp, at: Lt, a: int, bt: Lt, b: int, strictlogic: bool): (Lt, int) {
    if op.Or? && !strictlogic && (at.LtTrue? || bt.LtTrue?) then (LtTrue, 1)
    else if op.And? && !strictlogic && (at.LtFalse? || bt.LtFalse?) then (LtFalse, 0)
    else OpStrict(Compare(op, a, b), at, a, bt)
  }

  lemma {:induction false} OpFnApplies(op: BinOp, at: Lt, a: int, bt: Lt, b: int, va: Three, vb: Three, strictlogic: bool)
    requires Stands(at, a, va) && Stands(bt, b, vb)
    ensures var (lt, v) := OpFn(op, at, a, bt, b, strictlogic); Stands(lt, v, Apply(op, va, vb, strictlogic))
  {
  }

  /** The operators of a table row are tried in order; a token is at most one of them. */
  predicate HasRowOp(level: nat, cp: Toks) { cp.Tok? && cp.head.Op? && Row(cp.head.op) == level }

  class Evaluator {
    const tab: SymTab
    const strictlogic: bool
    const killconsts: bool
    var constexpr: bool

    constructor (tab: SymTab, strictlogic: bool, killconsts: bool)
      ensures this.tab == tab && this.strictlogic == strictlogic && this.killconsts == killconsts
    {
      this.tab, this.strictlogic, this.killconsts, constexpr := tab, strictlogic, killconsts, true;
    }

    /** The result of a routine is the evaluation `r`, and the flag is reset if a symbol was met. */
    twostate predicate Delivered(new r: Option<Eval>, lt: Lt, val: int, new rest: Toks)
      reads this
    {
      match r
      case None => lt.LtError?
      case Some(v) => Stands(lt, val, v.value) && rest == v.rest && constexpr == (old(constexpr) && !v.symbolic)
    }

    method SkipArguments(ocp: Toks) returns (cp: Toks)
      ensures cp == SkipArgs(ocp)
    {
      cp := ocp;
      if cp.End? || !cp.head.LParen? {
        return;
      }
      var level := 1;
      cp := cp.tail;
      while level != 0 && cp.Tok?
        invariant level >= 0 && Close(level, cp) == Close(1, ocp.tail)
        decreases cp
      {
        if cp.head.LParen? {
          level := level + 1;
        } else if cp.head.RParen? {
          level := level - 1;
        }
        cp := cp.tail;
      }
      if level != 0 {
        cp := ocp;
      }
    }

    method EvalDefinedName(start: Toks) returns (lt: Lt, val: int, cp: Toks)
      modifies this`constexpr
      ensures Delivered(EvalDefined(start, tab), lt, val, cp)
    {
      var defparen := start.Tok? && start.head.LParen?;
      cp := if defparen then start.tail else start;
      lt, val := LtIf, 0;
      if cp.Tok? && IsWord(cp.head) {
        var v := DefinedValue(cp.head, tab);
        if v.Known? {
          lt, val := FromInt(v.v), v.v;
        }
        cp := cp.tail;
      }
      if defparen {
        if cp.End? || !cp.head.RParen? {
          return LtError, val, cp;
        }
        cp := cp.tail;
      }
      constexpr := false;
    }

    method EvalName(id: string, start: Toks) returns (lt: Lt, val: int, cp: Toks)
      modifies this`constexpr
      ensures Delivered(EvalSymbol(id, start, tab), lt, val, cp)
    {
      cp, val := start, 0;
      if id !in tab {
        lt := LtIf;
        cp := SkipArguments(cp);
      } else if tab[id].Undefined? {
        lt := LtFalse;
      } else {
        if tab[id].Text? {
          return LtError, val, cp;
        }
        val := Signed32(tab[id].value);
        lt := FromInt(val);
        cp := SkipArguments(cp);
      }
      constexpr := false;
    }

    method EvalOperand(start: Toks) returns (lt: Lt, val: int, cp: Toks)
      modifies this`constexpr
      ensures Delivered(EvalUnary(start, tab, strictlogic), lt, val, cp)
      decreases Length(start), 0
    {
      if start.End? {
        return LtError, 0, start;
      }
      match start.head {
        case Bang =>
          lt, val, cp := EvalOperand(start.tail);
          if lt.LtTrue? || lt.LtFalse? {
            val := Truth(val == 0);
            lt := FromInt(val);
          }
        case LParen =>
          lt, val, cp := EvalRow(0, start.tail);
          if !lt.LtError? {
            if cp.End? || !cp.head.RParen? {
              lt := LtError;
            } else {
              cp := cp.tail;
            }
          }
        case Number(n) =>
          val := Literal(n);
          lt, cp := FromInt(val), start.tail;
        case Defined => lt, val, cp := EvalDefinedName(start.tail);
        case Name(id) => lt, val, cp := EvalName(id, start.tail);
        case _ => return LtError, 0, start;
      }
    }

    method EvalInnerRow(level: nat, start: Toks) returns (lt: Lt, val: int, cp: Toks)
      requires level < UNARY
      modifies this`constexpr
      ensures Delivered(EvalInner(level, start, tab, strictlogic), lt, val, cp)
      decreases Length(start), UNARY - level, 1
    {
      if level == UNARY - 1 {
        lt, val, cp := EvalOperand(start);
      } else {
        lt, val, cp := EvalRow(level + 1, start);
      }
    }

    /** eval_table: a first operand, then operators of this row for as long as there are any. */
    method EvalRow(level: nat, start: Toks) returns (lt: Lt, val: int, cp: Toks)
      requires level < UNARY
      modifies this`constexpr
      ensures Delivered(EvalTable(level, start, tab, strictlogic), lt, val, cp)
      decreases Length(start), UNARY - level, 2
    {
      lt, val, cp := EvalInnerRow(level, start);
      if lt.LtError? {
        return;
      }
      ghost var acc := EvalInner(level, start, tab, strictlogic).value;
      while HasRowOp(level, cp)
        invariant Stands(lt, val, acc.value) && cp == acc.rest
        invariant constexpr == (old(constexpr) && !acc.symbolic)
        invariant Length(cp) < Length(start)
        invariant EvalLoop(level, acc, tab, strictlogic) == EvalTable(level, start, tab, strictlogic)
        decreases Length(cp)
      {
        ghost var right := EvalInner(level, cp.tail, tab, strictlogic);
        var op := cp.head.op;
        var rt, v;
        rt, v, cp := EvalInnerRow(level, cp.tail);
        if rt.LtError? {
          return LtError, val, cp;
        }
        OpFnApplies(op, lt, val, rt, v, acc.value, right.value.value, strictlogic);
        var (lt', val') := OpFn(op, lt, val, rt, v, strictlogic);
        lt, val := lt', val';
        acc := Combine(op, acc, right.value, strictlogic);
      }
    }

    /** ifeval: the type of an #if line, and where its expression ends. */
    method IfEval(start: Toks) returns (lt: Lt, cp: Toks)
      modifies this`constexpr
      ensures var r := EvalTable(0, start, tab, strictlogic);
              && (r.Some? ==> cp == r.value.rest)
              && lt == if r.None? || r.value.value.Unknown? || !(killconsts || r.value.symbolic) then LtIf
                       else FromInt(r.value.value.v)
    {
      constexpr := !killconsts;
      var val;
      lt, val, cp := EvalRow(0, start);
      if constexpr || lt.LtError? {
        lt := LtIf;
      }
    }
  }
}
