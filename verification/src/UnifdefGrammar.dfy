/**
 The grammar of unifdef's expressions is unambiguous: a reader that builds the
 expression recovers it from what is written. So an expression's text has one
 value in each compilation.
 */
module UnifdefGrammar {
  import opened Wrappers
  import opened UnifdefEval

  datatype Parsed = Parsed(e: Expr, rest: Toks)

  /** The tokens in front of the parenthesis that closes `level` open ones. */
  function ArgsOf(level: nat, t: Toks): Toks
    requires level > 0 && Close(level, t).Some?
    decreases t
  {
    var next := if t.head.LParen? then level + 1 else if t.head.RParen? then level - 1 else level;
    if next == 0 then End else Tok(t.head, ArgsOf(next, t.tail))
  }

  function ReadSymbol(id: string, t: Toks, tab: SymTab): (r: Parsed)
    ensures Length(r.rest) <= Length(t)
  {
    if t.Tok? && t.head.LParen? && Close(1, t.tail).Some? && !(id in tab && tab[id].Undefined?)
    then Parsed(ESym(id, Some(ArgsOf(1, t.tail))), Close(1, t.tail).value)
    else Parsed(ESym(id, None), t)
  }

  function ReadDefined(t: Toks): (r: Option<Parsed>)
    ensures r.Some? ==> Length(r.value.rest) <= Length(t)
  {
    var paren := t.Tok? && t.head.LParen?;
    var at := if paren then t.tail else t;
    var word := if at.Tok? && IsWord(at.head) then Some(at.head) else None;
    var after := if word.Some? then at.tail else at;
    assert Length(after) <= Length(at) <= Length(t);
    if !paren then Some(Parsed(EDef(word, false), after))
    else if after.Tok? && after.head.RParen? then Some(Parsed(EDef(word, true), after.tail))
    else None
  }

  function ReadUnary(t: Toks, tab: SymTab): (r: Option<Parsed>)
    ensures r.Some? ==> Length(r.value.rest) < Length(t)
    decreases Length(t), 0
  {
    if t.End? then None
    else
      match t.head
      case Bang =>
        var r := ReadUnary(t.tail, tab);
        if r.None? then None else Some(r.value.(e := ENot(r.value.e)))
      case LParen =>
        var r := ReadRow(0, t.tail, tab);
        if r.None? || r.value.rest.End? || !r.value.rest.head.RParen? then None
        else Some(Parsed(EParen(r.value.e), r.value.rest.tail))
      case Number(n) => Some(Parsed(ENum(n), t.tail))
      case Defined => ReadDefined(t.tail)
      case Name(id) => Some(ReadSymbol(id, t.tail, tab))
      case _ => None
  }

  function ReadInner(level: nat, t: Toks, tab: SymTab): (r: Option<Parsed>)
    requires level < UNARY
    ensures r.Some? ==> Length(r.value.rest) < Length(t)
    decreases Length(t), UNARY - level, 1
  {
    if level == UNARY - 1 then ReadUnary(t, tab) else ReadRow(level + 1, t, tab)
  }

  function ReadRow(level: nat, t: Toks, tab: SymTab): (r: Option<Parsed>)
    requires level < UNARY
    ensures r.Some? ==> Length(r.value.rest) < Length(t)
    decreases Length(t), UNARY - level, 2
  {
    var first := ReadInner(level, t, tab);
    if first.None? then None else ReadMore(level, first.value, tab)
  }

  function ReadMore(level: nat, acc: Parsed, tab: SymTab): (r: Option<Parsed>)
    requires level < UNARY
    ensures r.Some? ==> Length(r.value.rest) <= Length(acc.rest)
    decreases Length(acc.rest), UNARY - level, 3
  {
    var t := acc.rest;
    if t.End? || !t.head.Op? || Row(t.head.op) != level then Some(acc)
    else
      var right := ReadInner(level, t.tail, tab);
      if right.None? then None
      else ReadMore(level, Parsed(EBin(t.head.op, acc.e, right.value.e), right.value.rest), tab)
  }

  // ----- reading back what is written -----

  lemma {:induction false} ArgsBack(level: nat, args: Toks, k: Toks)
    requires level > 0 && Close(level, Append(args, Tok(RParen, End))) == Some(End)
    ensures var t := Append(args, Tok(RParen, k)); Close(level, t) == Some(k) && ArgsOf(level, t) == args
    decreases args
  {
    if args.Tok? {
      var next := if args.head.LParen? then level + 1 else if args.head.RParen? then level - 1 else level;
      if next > 0 { ArgsBack(next, args.tail, k); }
    }
  }

  lemma {:induction false} DefinedBack(e: Expr, k: Toks, tab: SymTab)
    requires InGrammar(UNARY, e, tab) && Stops(UNARY, k) && e.EDef?
    ensures ReadUnary(Write(e, k), tab) == Some(Parsed(e, k))
  {
    hide ReadRow, ReadSymbol;
  }

  lemma {:induction false} SymbolBack(e: Expr, k: Toks, tab: SymTab)
    requires InGrammar(UNARY, e, tab) && Stops(UNARY, k) && e.ESym?
    ensures ReadUnary(Write(e, k), tab) == Some(Parsed(e, k))
  {
    hide ReadRow, ReadDefined;
    if e.args.Some? { ArgsBack(1, e.args.value, k); }
  }

  lemma {:induction false} UnaryBack(e: Expr, k: Toks, tab: SymTab)
    requires InGrammar(UNARY, e, tab) && Stops(UNARY, k)
    ensures ReadUnary(Write(e, k), tab) == Some(Parsed(e, k))
    decreases e, 0, 0
  {
    hide ReadRow, ReadInner, ReadMore, ReadDefined, ReadSymbol;
    match e {
      case ENum(_) =>
      case EDef(_, _) => DefinedBack(e, k, tab);
      case ESym(_, _) => SymbolBack(e, k, tab);
      case ENot(a) => UnaryBack(a, k, tab);
      case EParen(a) =>
        RowBack(0, a, Tok(RParen, k), tab);
        ReadingStops(0, Parsed(a, Tok(RParen, k)), tab);
    }
  }

  lemma {:induction false} ReadingStops(level: nat, acc: Parsed, tab: SymTab)
    requires level < UNARY && Stops(level, acc.rest)
    ensures ReadMore(level, acc, tab) == Some(acc)
  {
  }

  lemma {:induction false} RowBack(level: nat, e: Expr, k: Toks, tab: SymTab)
    requires level < UNARY && InGrammar(level, e, tab) && Stops(level + 1, k)
    ensures ReadRow(level, Write(e, k), tab) == ReadMore(level, Parsed(e, k), tab)
    decreases e, UNARY - level, 0
  {
    if e.EBin? && Row(e.op) == level {
      RowBack(level, e.l, Tok(Op(e.op), Write(e.r, k)), tab);
      InnerBack(level, e.r, k, tab);
    } else {
      InnerBack(level, e, k, tab);
    }
  }

  lemma {:induction false} InnerBack(level: nat, e: Expr, k: Toks, tab: SymTab)
    requires level < UNARY && InGrammar(level + 1, e, tab) && Stops(level + 1, k)
    ensures ReadInner(level, Write(e, k), tab) == Some(Parsed(e, k))
    decreases e, UNARY - level - 1, 1
  {
    if level + 1 == UNARY {
      UnaryBack(e, k, tab);
    } else {
      RowBack(level + 1, e, k, tab);
      ReadingStops(level + 1, Parsed(e, k), tab);
    }
  }

  /** Reading what is written gives the expression back, and what follows it. */
  lemma {:induction false} ReadsBack(e: Expr, k: Toks, tab: SymTab)
    requires InGrammar(0, e, tab) && Stops(0, k)
    ensures ReadRow(0, Write(e, k), tab) == Some(Parsed(e, k))
  {
    RowBack(0, e, k, tab);
    ReadingStops(0, Parsed(e, k), tab);
  }

  /** The grammar is unambiguous. */
  lemma {:induction false} Unambiguous(a: Expr, b: Expr, tab: SymTab)
    requires InGrammar(0, a, tab) && InGrammar(0, b, tab) && Write(a, End) == Write(b, End)
    ensures a == b
  {
    ReadsBack(a, End, tab);
    ReadsBack(b, End, tab);
  }
}
