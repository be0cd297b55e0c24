/**
 Soundness of unifdef's evaluator: whatever it accepts is an expression of the
 grammar, and a known answer holds in every environment that extends the symbol
 table.
 */
module UnifdefSound {
  import opened Arithmetic
  import opened Wrappers
  import opened UnifdefEval

  // ----- everything accepted is an expression -----

  /** `e` is what was read from `t` up to `r.rest`, with the value `r.value`. */
  predicate Reads(level: nat, t: Toks, r: Eval, e: Expr, tab: SymTab, strictlogic: bool)
    requires level <= UNARY
  {
    InGrammar(level, e, tab) && Write(e, r.rest) == t && Outcome(e, r.rest, tab, strictlogic) == Some(r)
  }

  lemma {:induction false} ArgsRead(level: nat, t: Toks) returns (args: Toks)
    requires level > 0 && Close(level, t).Some?
    ensures t == Append(args, Tok(RParen, Close(level, t).value))
    ensures Close(level, Append(args, Tok(RParen, End))) == Some(End)
    decreases t
  {
    var next := if t.head.LParen? then level + 1 else if t.head.RParen? then level - 1 else level;
    if next == 0 {
      args := End;
    } else {
      var inner := ArgsRead(next, t.tail);
      args := Tok(t.head, inner);
    }
  }

  lemma {:induction false} SymbolRead(t: Toks, tab: SymTab, strictlogic: bool) returns (e: Expr)
    requires t.Tok? && t.head.Name? && EvalUnary(t, tab, strictlogic).Some?
    ensures Reads(UNARY, t, EvalUnary(t, tab, strictlogic).value, e, tab, strictlogic)
  {
    var id, rest := t.head.id, t.tail;
    if rest.Tok? && rest.head.LParen? && Close(1, rest.tail).Some? && !(id in tab && tab[id].Undefined?) {
      var args := ArgsRead(1, rest.tail);
      e := ESym(id, Some(args));
    } else {
      e := ESym(id, None);
    }
  }

  lemma {:induction false} DefinedRead(t: Toks, tab: SymTab, strictlogic: bool) returns (e: Expr)
    requires t.Tok? && t.head.Defined? && EvalUnary(t, tab, strictlogic).Some?
    ensures Reads(UNARY, t, EvalUnary(t, tab, strictlogic).value, e, tab, strictlogic)
  {
    var paren := t.tail.Tok? && t.tail.head.LParen?;
    var at := if paren then t.tail.tail else t.tail;
    e := EDef(if at.Tok? && IsWord(at.head) then Some(at.head) else None, paren);
  }

  lemma {:induction false} UnaryRead(t: Toks, tab: SymTab, strictlogic: bool) returns (e: Expr)
    requires EvalUnary(t, tab, strictlogic).Some?
    ensures Reads(UNARY, t, EvalUnary(t, tab, strictlogic).value, e, tab, strictlogic)
    decreases Length(t), 0
  {
    match t.head {
      case Bang =>
        var a := UnaryRead(t.tail, tab, strictlogic);
        e := ENot(a);
      case LParen =>
        var a := TableRead(0, t.tail, tab, strictlogic);
        e := EParen(a);
      case Number(n) => e := ENum(n);
      case Defined => e := DefinedRead(t, tab, strictlogic);
      case Name(id) => e := SymbolRead(t, tab, strictlogic);
    }
  }

  lemma {:induction false} InnerRead(level: nat, t: Toks, tab: SymTab, strictlogic: bool) returns (e: Expr)
    requires level < UNARY && EvalInner(level, t, tab, strictlogic).Some?
    ensures Reads(level + 1, t, EvalInner(level, t, tab, strictlogic).value, e, tab, strictlogic)
    decreases Length(t), UNARY - level, 1
  {
    if level == UNARY - 1 {
      e := UnaryRead(t, tab, strictlogic);
    } else {
      e := TableRead(level + 1, t, tab, strictlogic);
    }
  }

  /** Everything eval_table accepts is an expression of its row, written out, with that value. */
  lemma {:induction false} TableRead(level: nat, t: Toks, tab: SymTab, strictlogic: bool) returns (e: Expr)
    requires level < UNARY && EvalTable(level, t, tab, strictlogic).Some?
    ensures Reads(level, t, EvalTable(level, t, tab, strictlogic).value, e, tab, strictlogic)
    decreases Length(t), UNARY - level, 2
  {
    var first := InnerRead(level, t, tab, strictlogic);
    Climb(level, first, tab);
    var r := EvalInner(level, t, tab, strictlogic).value;
    e := LoopRead(level, first, r, tab, strictlogic);
  }

  lemma {:induction false} Climb(level: nat, e: Expr, tab: SymTab)
    requires level < UNARY && InGrammar(level + 1, e, tab)
    ensures InGrammar(level, e, tab)
  {
    if e.EBin? && Row(e.op) == level { RowsRise(level + 1, e, tab); }
  }

  /** An expression of a row has no operator of a lower row at its root. */
  lemma {:induction false} RowsRise(level: nat, e: Expr, tab: SymTab)
    requires level <= UNARY && InGrammar(level, e, tab)
    ensures e.EBin? ==> Row(e.op) >= level
    decreases UNARY - level
  {
    if level < UNARY && !(e.EBin? && Row(e.op) == level) { RowsRise(level + 1, e, tab); }
  }

  lemma {:induction false} LoopRead(level: nat, left: Expr, acc: Eval, tab: SymTab, strictlogic: bool) returns (e: Expr)
    requires level < UNARY && InGrammar(level, left, tab) && Outcome(left, acc.rest, tab, strictlogic) == Some(acc)
    requires EvalLoop(level, acc, tab, strictlogic).Some?
    ensures Reads(level, Write(left, acc.rest), EvalLoop(level, acc, tab, strictlogic).value, e, tab, strictlogic)
    decreases Length(acc.rest), UNARY - level, 3
  {
    var t := acc.rest;
    if t.End? || !t.head.Op? || Row(t.head.op) != level {
      e := left;
    } else {
      var right := InnerRead(level, t.tail, tab, strictlogic);
      var r := EvalInner(level, t.tail, tab, strictlogic).value;
      e := LoopRead(level, EBin(t.head.op, left, right), Combine(t.head.op, acc, r, strictlogic), tab, strictlogic);
    }
  }

  // ----- known answers are right -----

  /** A compilation: which symbols are defined, and what symbols and macro calls come to. */
  datatype Env = Env(defined: Token -> bool, value: (string, Option<Toks>) -> int)

  /** The ordinary value of an expression (section 6.10.1 of ISO/IEC 9899:1999). */
  function Value(e: Expr, env: Env): int {
    match e
    case ENum(n) => n
    case EDef(word, _) => if word.Some? && IsWord(word.value) then Truth(env.defined(word.value)) else env.value("defined", None)
    case ESym(id, args) => env.value(id, args)
    case ENot(a) => Truth(Value(a, env) == 0)
    case EParen(a) => Value(a, env)
    case EBin(op, l, r) => Compare(op, Value(l, env), Value(r, env))
  }

  /** The compilation agrees with what -D and -U said. */
  ghost predicate Extends(env: Env, tab: SymTab) {
    && (forall w: Token :: IsWord(w) && DefinedValue(w, tab).Known? ==> Truth(env.defined(w)) == DefinedValue(w, tab).v)
    && (forall id: string, args: Option<Toks> :: id in tab ==>
          match tab[id]
          case Undefined => env.value(id, args) == 0
          case Numeric(v) => env.value(id, args) == v
          case Text => true)
  }

  predicate Fits(n: int) { -INT_MAX - 1 <= n <= INT_MAX }

  /** Every number in an expression fits in an int. */
  predicate Small(e: Expr) {
    match e
    case ENum(n) => Fits(n)
    case EDef(_, _) => true
    case ESym(_, _) => true
    case ENot(a) => Small(a)
    case EParen(a) => Small(a)
    case EBin(_, l, r) => Small(l) && Small(r)
  }

  predicate SmallTab(tab: SymTab) {
    forall id :: id in tab && tab[id].Numeric? ==> Fits(tab[id].value)
  }

  lemma {:induction false} Signed32Exact(n: int)
    ensures Signed32(n) == n <==> Fits(n)
  {
  }

  /** A literal keeps its value exactly when it fits in an int. */
  lemma {:induction false} LiteralExact(n: nat)
    ensures Literal(n) == n <==> n <= INT_MAX
  {
    Signed32Exact(if n > LONG_MAX then LONG_MAX else n);
  }

  /** The truncation is visible: unifdef takes `#if 4294967296` for false. */
  lemma {:induction false} LargeLiteralMisread(tab: SymTab, strictlogic: bool, env: Env)
    ensures EvalTable(0, Tok(Number(0x1_0000_0000), End), tab, strictlogic) == Some(Eval(Known(0), End, false))
    ensures Value(ENum(0x1_0000_0000), env) != 0
  {
    assert Literal(0x1_0000_0000) == 0;
    EvaluatesWritten(ENum(0x1_0000_0000), End, tab, strictlogic);
  }

  /** Three-valued soundness: a known value is the ordinary value in every compilation that extends the table. */
  lemma {:induction false} KnownIsRight(e: Expr, tab: SymTab, strictlogic: bool, env: Env)
    requires Extends(env, tab) && Small(e) && SmallTab(tab)
    requires var v := Value3(e, tab, strictlogic); v.Some? && v.value.Known?
    ensures Value(e, env) == Value3(e, tab, strictlogic).value.v
    decreases e
  {
    match e {
      case ENum(n) => LiteralExact(n);
      case EDef(_, _) =>
      case ESym(id, _) =>
        if tab[id].Numeric? { Signed32Exact(tab[id].value); }
      case ENot(a) => KnownIsRight(a, tab, strictlogic, env);
      case EParen(a) => KnownIsRight(a, tab, strictlogic, env);
      case EBin(op, l, r) =>
        if Value3(l, tab, strictlogic).value.Known? { KnownIsRight(l, tab, strictlogic, env); }
        if Value3(r, tab, strictlogic).value.Known? { KnownIsRight(r, tab, strictlogic, env); }
    }
  }

  /** -K only ever turns answers into "unknown". */
  lemma {:induction false} StrictLogicIsWeaker(e: Expr, tab: SymTab)
    requires var v := Value3(e, tab, true); v.Some? && v.value.Known?
    ensures Value3(e, tab, false) == Value3(e, tab, true)
    decreases e
  {
    match e {
      case ENot(a) => StrictLogicIsWeaker(a, tab);
      case EParen(a) => StrictLogicIsWeaker(a, tab);
      case EBin(_, l, r) => StrictLogicIsWeaker(l, tab); StrictLogicIsWeaker(r, tab);
      case _ =>
    }
  }
}
