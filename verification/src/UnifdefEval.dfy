/**
 The expression evaluator of unifdef: tokens, the precedence table and
 evaluation in three values, on exactly the expressions of its grammar.
 */
module UnifdefEval {
  import opened Arithmetic
  import opened Wrappers

  datatype BinOp = Or | And | Eq | Ne | Le | Ge | Lt | Gt

  datatype Token =
    | Op(op: BinOp)
    | Bang | LParen | RParen
    | Number(n: nat)
    | Defined
    | Name(id: string)
    | Other(text: string)

  /** The rest of a line: what the cursor `*cpp` points at. */
  datatype Toks = End | Tok(head: Token, tail: Toks)

  function Length(t: Toks): nat { if t.End? then 0 else 1 + Length(t.tail) }

  /** What -D or -U said of a symbol; a value that is not a number is `Text`. */
  datatype Symbol = Undefined | Numeric(value: int) | Text

  type SymTab = map<string, Symbol>

  /** A value, or not known. LT_TRUE and LT_FALSE are the known values that are and are not non-zero. */
  datatype Three = Known(v: int) | Unknown

  /** strtol stops at the largest long. */
  function Literal(n: nat): int { Signed32(if n > LONG_MAX then LONG_MAX else n) }

  // ----- the operators -----

  function Truth(b: bool): int { if b then 1 else 0 }

  predicate IsTrue(a: Three) { a.Known? && a.v != 0 }
  predicate IsFalse(a: Three) { a.Known? && a.v == 0 }

  function Compare(op: BinOp, a: int, b: int): int {
    match op
    case Or => Truth(a != 0 || b != 0)
    case And => Truth(a != 0 && b != 0)
    case Eq => Truth(a == b)
    case Ne => Truth(a != b)
    case Le => Truth(a <= b)
    case Ge => Truth(a >= b)
    case Lt => Truth(a < b)
    case Gt => Truth(a > b)
  }

  /** op_or, op_and and the operators that are strict in any case. */
  function Apply(op: BinOp, a: Three, b: Three, strictlogic: bool): Three {
    if op.Or? && !strictlogic && (IsTrue(a) || IsTrue(b)) then Known(1)
    else if op.And? && !strictlogic && (IsFalse(a) || IsFalse(b)) then Known(0)
    else if a.Unknown? || b.Unknown? then Unknown
    else Known(Compare(op, a.v, b.v))
  }

  function Negate(a: Three): Three { if a.Unknown? then Unknown else Known(Truth(a.v == 0)) }

  /** The row of the precedence table that lists an operator. */
  function Row(op: BinOp): nat {
    match op
    case Or => 0
    case And => 1
    case Eq => 2 case Ne => 2
    case Le => 3 case Ge => 3 case Lt => 3 case Gt => 3
  }

  const UNARY := 4

  // ----- evaluation -----

  /** A value, what is left after it, and whether it depends on a symbol (constexpr is then reset). */
  datatype Eval = Eval(value: Three, rest: Toks, symbolic: bool)

  /** What follows the parenthesis that closes `level` open ones; None when nothing does. */
  function Close(level: nat, t: Toks): (r: Option<Toks>)
    ensures r.Some? ==> Length(r.value) + (if level > 0 then 1 else 0) <= Length(t)
    decreases t
  {
    if level == 0 then Some(t)
    else if t.End? then None
    else Close(if t.head.LParen? then level + 1 else if t.head.RParen? then level - 1 else level, t.tail)
  }

  /** skipargs: skips a parenthesised argument list, if there is a balanced one. */
  function SkipArgs(t: Toks): (r: Toks)
    ensures Length(r) <= Length(t)
  {
    if t.Tok? && t.head.LParen? && Close(1, t.tail).Some? then Close(1, t.tail).value else t
  }

  function EvalSymbol(id: string, rest: Toks, tab: SymTab): (r: Option<Eval>)
    ensures r.Some? ==> Length(r.value.rest) <= Length(rest)
  {
    if id !in tab then Some(Eval(Unknown, SkipArgs(rest), true))
    else match tab[id]
         case Undefined => Some(Eval(Known(0), rest, true))
         case Text => None
         case Numeric(v) => Some(Eval(Known(Signed32(v)), SkipArgs(rest), true))
  }

  /** Tokens skipsym consumes: names, and anything else made of letters and digits. */
  predicate IsWord(t: Token) { t.Name? || t.Defined? || t.Number? }

  /** `defined` applied to a word; no symbol has the name of a number. */
  function DefinedValue(t: Token, tab: SymTab): Three
    requires IsWord(t)
  {
    var id := if t.Name? then t.id else "defined";
    if !t.Number? && id in tab then Known(Truth(!tab[id].Undefined?)) else Unknown
  }

  /** A word and what is left, or nothing consumed and nothing known. */
  function EvalWord(t: Toks, tab: SymTab): (r: Eval)
    ensures Length(r.rest) <= Length(t)
  {
    if t.Tok? && IsWord(t.head) then Eval(DefinedValue(t.head, tab), t.tail, true) else Eval(Unknown, t, true)
  }

  /** After `defined`: a word, in parentheses or not. A missing word is not an error here. */
  function EvalDefined(t: Toks, tab: SymTab): (r: Option<Eval>)
    ensures r.Some? ==> Length(r.value.rest) <= Length(t)
  {
    if t.Tok? && t.head.LParen? then
      var w := EvalWord(t.tail, tab);
      if w.rest.Tok? && w.rest.head.RParen? then Some(Eval(w.value, w.rest.tail, true)) else None
    else Some(EvalWord(t, tab))
  }

  function EvalUnary(t: Toks, tab: SymTab, strictlogic: bool): (r: Option<Eval>)
    ensures r.Some? ==> Length(r.value.rest) < Length(t)
    decreases Length(t), 0
  {
    if t.End? then None
    else
      match t.head
      case Bang =>
        var r := EvalUnary(t.tail, tab, strictlogic);
        if r.None? then None else Some(r.value.(value := Negate(r.value.value)))
      case LParen =>
        var r := EvalTable(0, t.tail, tab, strictlogic);
        if r.None? || r.value.rest.End? || !r.value.rest.head.RParen? then None
        else Some(r.value.(rest := r.value.rest.tail))
      case Number(n) => Some(Eval(Known(Literal(n)), t.tail, false))
      case Defined => EvalDefined(t.tail, tab)
      case Name(id) => EvalSymbol(id, t.tail, tab)
      case _ => None
  }

  /** `ops->inner` of a table row. */
  function EvalInner(level: nat, t: Toks, tab: SymTab, strictlogic: bool): (r: Option<Eval>)
    requires level < UNARY
    ensures r.Some? ==> Length(r.value.rest) < Length(t)
    decreases Length(t), UNARY - level, 1
  {
    if level == UNARY - 1 then EvalUnary(t, tab, strictlogic) else EvalTable(level + 1, t, tab, strictlogic)
  }

  function EvalTable(level: nat, t: Toks, tab: SymTab, strictlogic: bool): (r: Option<Eval>)
    requires level < UNARY
    ensures r.Some? ==> Length(r.value.rest) < Length(t)
    decreases Length(t), UNARY - level, 2
  {
    var first := EvalInner(level, t, tab, strictlogic);
    if first.None? then None else EvalLoop(level, first.value, tab, strictlogic)
  }

  /** The operator loop of eval_table, with `acc` to the left of the cursor. */
  function EvalLoop(level: nat, acc: Eval, tab: SymTab, strictlogic: bool): (r: Option<Eval>)
    requires level < UNARY
    ensures r.Some? ==> Length(r.value.rest) <= Length(acc.rest)
    decreases Length(acc.rest), UNARY - level, 3
  {
    var t := acc.rest;
    if t.End? || !t.head.Op? || Row(t.head.op) != level then Some(acc)
    else
      var right := EvalInner(level, t.tail, tab, strictlogic);
      if right.None? then None else EvalLoop(level, Combine(t.head.op, acc, right.value, strictlogic), tab, strictlogic)
  }

  function Combine(op: BinOp, a: Eval, b: Eval, strictlogic: bool): Eval {
    Eval(Apply(op, a.value, b.value, strictlogic), b.rest, a.symbolic || b.symbolic)
  }

  // ----- expressions -----

  /** `defined` may lack its word, and a symbol may have an argument list. */
  datatype Expr =
    | ENum(n: nat)
    | EDef(word: Option<Token>, paren: bool)
    | ESym(id: string, args: Option<Toks>)
    | ENot(e: Expr)
    | EParen(e: Expr)
    | EBin(op: BinOp, l: Expr, r: Expr)

  function Append(a: Toks, k: Toks): Toks { if a.End? then k else Tok(a.head, Append(a.tail, k)) }

  /** An expression written in front of `k`. */
  function Write(e: Expr, k: Toks): Toks
    decreases e
  {
    match e
    case ENum(n) => Tok(Number(n), k)
    case EDef(word, paren) =>
      var after := if paren then Tok(RParen, k) else k;
      var w := if word.Some? then Tok(word.value, after) else after;
      Tok(Defined, if paren then Tok(LParen, w) else w)
    case ESym(id, args) => Tok(Name(id), if args.Some? then Tok(LParen, Append(args.value, Tok(RParen, k))) else k)
    case ENot(a) => Tok(Bang, Write(a, k))
    case EParen(a) => Tok(LParen, Write(a, Tok(RParen, k)))
    case EBin(op, l, r) => Write(l, Tok(Op(op), Write(r, k)))
  }

  /** An argument list: balanced, and not closed before its end. */
  predicate Balanced(args: Toks) { Close(1, Append(args, Tok(RParen, End))) == Some(End) }

  /**
   The grammar: row `level` of the precedence table is left associative over
   row `level + 1`, and a known undefined symbol takes no arguments.
   */
  predicate InGrammar(level: nat, e: Expr, tab: SymTab)
    requires level <= UNARY
    decreases e, UNARY - level
  {
    if level < UNARY then
      if e.EBin? && Row(e.op) == level then InGrammar(level, e.l, tab) && InGrammar(level + 1, e.r, tab)
      else InGrammar(level + 1, e, tab)
    else
      match e
      case ENum(_) => true
      case EDef(word, _) => word.Some? ==> IsWord(word.value)
      case ESym(id, args) => args.Some? ==> Balanced(args.value) && !(id in tab && tab[id].Undefined?)
      case ENot(a) => InGrammar(UNARY, a, tab)
      case EParen(a) => InGrammar(0, a, tab)
      case EBin(_, _, _) => false
  }

  /** The three-valued value of an expression; None where unifdef gives up on a symbol's text. */
  function Value3(e: Expr, tab: SymTab, strictlogic: bool): Option<Three> {
    match e
    case ENum(n) => Some(Known(Literal(n)))
    case EDef(word, _) => Some(if word.Some? && IsWord(word.value) then DefinedValue(word.value, tab) else Unknown)
    case ESym(id, _) =>
      if id !in tab then Some(Unknown)
      else (match tab[id] case Undefined => Some(Known(0)) case Text => None case Numeric(v) => Some(Known(Signed32(v))))
    case ENot(a) => var v := Value3(a, tab, strictlogic); if v.None? then None else Some(Negate(v.value))
    case EParen(a) => Value3(a, tab, strictlogic)
    case EBin(op, l, r) =>
      var a, b := Value3(l, tab, strictlogic), Value3(r, tab, strictlogic);
      if a.None? || b.None? then None else Some(Apply(op, a.value, b.value, strictlogic))
  }

  predicate Symbolic(e: Expr) {
    match e
    case ENum(_) => false
    case EDef(_, _) => true
    case ESym(_, _) => true
    case ENot(a) => Symbolic(a)
    case EParen(a) => Symbolic(a)
    case EBin(_, l, r) => Symbolic(l) || Symbolic(r)
  }

  // ----- the evaluator parses exactly this grammar -----

  /** What may follow an expression of a row: nothing that would continue it. */
  predicate Stops(level: nat, k: Toks) {
    k.End? || k.head.RParen? || (k.head.Op? && Row(k.head.op) < level)
  }

  /** What evaluating `e` in front of `k` should give. */
  function Outcome(e: Expr, k: Toks, tab: SymTab, strictlogic: bool): Option<Eval> {
    var v := Value3(e, tab, strictlogic);
    if v.None? then None else Some(Eval(v.value, k, Symbolic(e)))
  }

  lemma {:induction false} CloseAppend(level: nat, a: Toks, k: Toks)
    requires Close(level, a).Some?
    ensures Close(level, Append(a, k)) == Some(Append(Close(level, a).value, k))
    decreases a
  {
    if level > 0 {
      CloseAppend(if a.head.LParen? then level + 1 else if a.head.RParen? then level - 1 else level, a.tail, k);
    }
  }

  lemma {:induction false} AppendAssoc(a: Toks, b: Toks, k: Toks)
    ensures Append(Append(a, b), k) == Append(a, Append(b, k))
    decreases a
  {
    if a.Tok? { AppendAssoc(a.tail, b, k); }
  }

  lemma {:induction false} ArgsWritten(args: Toks, k: Toks)
    requires Balanced(args)
    ensures SkipArgs(Tok(LParen, Append(args, Tok(RParen, k)))) == k
  {
    CloseAppend(1, Append(args, Tok(RParen, End)), k);
    AppendAssoc(args, Tok(RParen, End), k);
  }

  lemma {:induction false} DefinedWritten(e: Expr, k: Toks, tab: SymTab, strictlogic: bool)
    requires InGrammar(UNARY, e, tab) && Stops(UNARY, k) && e.EDef?
    ensures EvalUnary(Write(e, k), tab, strictlogic) == Outcome(e, k, tab, strictlogic)
  {
    hide EvalTable, DefinedValue;
  }

  lemma {:induction false} SymbolWritten(e: Expr, k: Toks, tab: SymTab, strictlogic: bool)
    requires InGrammar(UNARY, e, tab) && Stops(UNARY, k) && e.ESym?
    ensures EvalUnary(Write(e, k), tab, strictlogic) == Outcome(e, k, tab, strictlogic)
  {
    hide EvalTable, Balanced, Append, Signed32;
    if e.args.Some? {
      ArgsWritten(e.args.value, k);
    } else {
      NothingSkipped(k);
    }
  }

  lemma {:induction false} NothingSkipped(k: Toks)
    requires Stops(UNARY, k)
    ensures SkipArgs(k) == k
  {
  }

  lemma {:induction false} UnaryWritten(e: Expr, k: Toks, tab: SymTab, strictlogic: bool)
    requires InGrammar(UNARY, e, tab) && Stops(UNARY, k)
    ensures EvalUnary(Write(e, k), tab, strictlogic) == Outcome(e, k, tab, strictlogic)
    decreases e, 0, 0
  {
    hide EvalTable, EvalLoop, EvalInner, EvalDefined, EvalSymbol, Literal;
    match e {
      case ENum(_) =>
      case EDef(_, _) => DefinedWritten(e, k, tab, strictlogic);
      case ESym(_, _) => SymbolWritten(e, k, tab, strictlogic);
      case ENot(a) => UnaryWritten(a, k, tab, strictlogic);
      case EParen(a) =>
        TableWritten(0, a, Tok(RParen, k), tab, strictlogic);
        var v := Outcome(a, Tok(RParen, k), tab, strictlogic);
        if v.Some? { LoopStops(0, v.value, tab, strictlogic); }
    }
  }

  lemma {:induction false} LoopStops(level: nat, v: Eval, tab: SymTab, strictlogic: bool)
    requires level < UNARY && Stops(level, v.rest)
    ensures EvalLoop(level, v, tab, strictlogic) == Some(v)
  {
  }

  /** Evaluating a written expression of a row leaves the row's operator loop to continue after it. */
  lemma {:induction false} TableWritten(level: nat, e: Expr, k: Toks, tab: SymTab, strictlogic: bool)
    requires level < UNARY && InGrammar(level, e, tab) && Stops(level + 1, k)
    ensures var v := Outcome(e, k, tab, strictlogic);
            EvalTable(level, Write(e, k), tab, strictlogic) ==
            if v.None? then None else EvalLoop(level, v.value, tab, strictlogic)
    decreases e, UNARY - level, 0
  {
    if e.EBin? && Row(e.op) == level {
      TableWritten(level, e.l, Tok(Op(e.op), Write(e.r, k)), tab, strictlogic);
      InnerWritten(level, e.r, k, tab, strictlogic);
    } else {
      InnerWritten(level, e, k, tab, strictlogic);
    }
  }

  lemma {:induction false} InnerWritten(level: nat, e: Expr, k: Toks, tab: SymTab, strictlogic: bool)
    requires level < UNARY && InGrammar(level + 1, e, tab) && Stops(level + 1, k)
    ensures EvalInner(level, Write(e, k), tab, strictlogic) == Outcome(e, k, tab, strictlogic)
    decreases e, UNARY - level - 1, 1
  {
    if level + 1 == UNARY {
      UnaryWritten(e, k, tab, strictlogic);
    } else {
      TableWritten(level + 1, e, k, tab, strictlogic);
    }
  }

  /** Evaluating a written expression gives its value and consumes exactly it. */
  lemma {:induction false} EvaluatesWritten(e: Expr, k: Toks, tab: SymTab, strictlogic: bool)
    requires InGrammar(0, e, tab) && Stops(0, k)
    ensures EvalTable(0, Write(e, k), tab, strictlogic) == Outcome(e, k, tab, strictlogic)
  {
    TableWritten(0, e, k, tab, strictlogic);
  }
}
