/**
 unifdef from end to end: conditions are classified by the evaluator, lines are
 judged by the table, and the output means what the input means in every
 compilation that agrees with the command line.
 */
module UnifdefCorrect {
  import opened Arithmetic
  import opened Wrappers
  import opened Conditional
  import T = UnifdefTable
  import M = UnifdefMeaning
  import opened UnifdefEval
  import opened UnifdefGrammar
  import opened UnifdefSound

  /** What controls a section. */
  datatype Condition = Ifdef(id: string) | Ifndef(id: string) | Expression(toks: Toks)

  datatype Settings = Settings(tab: SymTab, ignore: set<string>, strictlogic: bool, killconsts: bool)

  /** ifeval and the check that the whole line was used: a decision, or none. */
  function Decision(t: Toks, s: Settings): Three {
    var r := EvalTable(0, t, s.tab, s.strictlogic);
    if r.None? || r.value.rest != End || !(s.killconsts || r.value.symbolic) then Unknown else r.value.value
  }

  function IfType(c: Condition, s: Settings): T.Directive {
    match c
    case Expression(t) =>
      var d := Decision(t, s);
      if d.Unknown? then T.Unknown else if d.v != 0 then T.True else T.False
    case _ =>
      if c.id !in s.tab then T.Unknown
      else
        var yes := s.tab[c.id].Undefined? == c.Ifndef?;
        if c.id in s.ignore then if yes then T.TrueI else T.FalseI
        else if yes then T.True else T.False
  }

  /** parseline: the type of a line. */
  function Classify(line: Line<Condition>, s: Settings): T.Classified<Condition> {
    T.Classified(line,
      match line
      case Plain(_) => T.PlainT
      case If(c) => T.Dir(IfType(c, s))
      case ElIf(c) =>
        (match IfType(c, s)
         case True => T.Dir(T.ElTrue)
         case False => T.Dir(T.ElFalse)
         case _ => T.Dir(T.ElUnknown))
      case Else => T.Dir(T.ElseD)
      case EndIf => T.Dir(T.EndIfD))
  }

  function ClassifyAll(source: seq<Line<Condition>>, s: Settings): (cs: seq<T.Classified<Condition>>)
    ensures |cs| == |source|
    ensures forall i :: 0 <= i < |source| ==> cs[i] == Classify(source[i], s)
  {
    if source == [] then [] else [Classify(source[0], s)] + ClassifyAll(source[1..], s)
  }

  predicate SmallToks(t: Toks) { t.Tok? ==> (t.head.Number? ==> t.head.n <= INT_MAX) && SmallToks(t.tail) }

  /** The file's own conditions: #elif takes an expression, and no number is too large for an int. */
  predicate Modest(line: Line<Condition>) {
    match line
    case If(c) => c.Expression? ==> SmallToks(c.toks)
    case ElIf(c) => c.Expression? && SmallToks(c.toks)
    case _ => true
  }

  /** The truth of every condition in a compilation. */
  ghost predicate Respects(truth: Condition -> bool, env: Env, tab: SymTab) {
    && (forall id :: truth(Ifdef(id)) == env.defined(Name(id)) == !truth(Ifndef(id)))
    && (forall e: Expr :: InGrammar(0, e, tab) ==> truth(Expression(Write(e, End))) == (Value(e, env) != 0))
  }

  /** The truth of a condition in a compilation: that of the one expression its text can be read as. */
  function TruthIn(c: Condition, env: Env, tab: SymTab): bool {
    match c
    case Ifdef(id) => env.defined(Name(id))
    case Ifndef(id) => !env.defined(Name(id))
    case Expression(t) =>
      var r := ReadRow(0, t, tab);
      r.Some? && r.value.rest == End && Value(r.value.e, env) != 0
  }

  /** Every compilation has a truth assignment that respects it. */
  lemma {:induction false} TruthExists(env: Env, tab: SymTab)
    ensures Respects(c => TruthIn(c, env, tab), env, tab)
  {
    forall e: Expr | InGrammar(0, e, tab) ensures TruthIn(Expression(Write(e, End)), env, tab) == (Value(e, env) != 0) {
      ReadsBack(e, End, tab);
    }
  }

  /** For every command line there is a compilation that agrees with it. */
  lemma {:induction false} CompilationExists(tab: SymTab)
    ensures Extends(Env((w: Token) => IsWord(w) && DefinedValue(w, tab) == Known(1),
                        (id: string, args: Option<Toks>) => if id in tab && tab[id].Numeric? then tab[id].value else 0), tab)
  {
    forall w: Token | IsWord(w) && DefinedValue(w, tab).Known? ensures DefinedValue(w, tab).v in {0, 1} {
      var id := if w.Name? then w.id else "defined";
      assert id in tab;
    }
  }

  lemma {:induction false} SmallWritten(e: Expr, k: Toks)
    requires SmallToks(Write(e, k))
    ensures Small(e) && SmallToks(k)
    decreases e
  {
    match e {
      case ENum(_) =>
      case EDef(word, paren) =>
        var after := if paren then Tok(RParen, k) else k;
        var w := if word.Some? then Tok(word.value, after) else after;
        assert SmallToks(if paren then Tok(LParen, w) else w);
        assert SmallToks(w);
        assert SmallToks(after);
      case ESym(_, args) => if args.Some? { SmallAppend(args.value, Tok(RParen, k)); }
      case ENot(a) => SmallWritten(a, k);
      case EParen(a) => SmallWritten(a, Tok(RParen, k));
      case EBin(op, l, r) => SmallWritten(l, Tok(Op(op), Write(r, k))); SmallWritten(r, k);
    }
  }

  lemma {:induction false} SmallAppend(a: Toks, k: Toks)
    requires SmallToks(Append(a, k))
    ensures SmallToks(k)
    decreases a
  {
    if a.Tok? { SmallAppend(a.tail, k); }
  }

  /** A decision about an expression is the truth about it. */
  lemma {:induction false} DecisionIsTrue(t: Toks, s: Settings, truth: Condition -> bool, env: Env)
    requires Extends(env, s.tab) && SmallTab(s.tab) && SmallToks(t) && Respects(truth, env, s.tab)
    requires Decision(t, s).Known?
    ensures truth(Expression(t)) == (Decision(t, s).v != 0)
  {
    var e := TableRead(0, t, s.tab, s.strictlogic);
    SmallWritten(e, End);
    KnownIsRight(e, s.tab, s.strictlogic, env);
  }

  lemma {:induction false} ClassifiedAgrees(line: Line<Condition>, s: Settings, truth: Condition -> bool, env: Env)
    requires Extends(env, s.tab) && SmallTab(s.tab) && Modest(line) && Respects(truth, env, s.tab)
    ensures M.Agrees(Classify(line, s), truth)
  {
    if line.If? || line.ElIf? {
      var c := line.cond;
      if c.Expression? {
        if Decision(c.toks, s).Known? { DecisionIsTrue(c.toks, s, truth, env); }
      } else if c.id in s.tab {
        assert DefinedValue(Name(c.id), s.tab).Known?;
        assert truth(Ifdef(c.id)) == env.defined(Name(c.id)) == !truth(Ifndef(c.id));
      }
    }
  }

  lemma {:induction false} AllClassifiedAgree(source: seq<Line<Condition>>, s: Settings, truth: Condition -> bool, env: Env)
    requires Extends(env, s.tab) && SmallTab(s.tab) && Respects(truth, env, s.tab)
    requires forall i :: 0 <= i < |source| ==> Modest(source[i])
    ensures M.AllAgree(ClassifyAll(source, s), truth)
  {
    var input := ClassifyAll(source, s);
    forall i | 0 <= i < |input| ensures M.Agrees(input[i], truth) {
      ClassifiedAgrees(source[i], s, truth, env);
    }
  }

  /**
   The end-to-end theorem: for every file, every command line and every
   compilation that agrees with it, the lines that survive preprocessing of
   what unifdef keeps are those that survive preprocessing of its input.
   */
  lemma {:induction false} UnifdefPreservesMeaning(source: seq<Line<Condition>>, s: Settings, iocccok: bool,
                                                   truth: Condition -> bool, env: Env)
    requires Extends(env, s.tab) && SmallTab(s.tab) && Respects(truth, env, s.tab)
    requires forall i :: 0 <= i < |source| ==> Modest(source[i])
    requires T.Decide(T.Start, ClassifyAll(source, s), iocccok).ending.Complete?
    ensures Survivors([], source, truth).Some?
    ensures Survivors([], M.Kept(T.Decide(T.Start, ClassifyAll(source, s), iocccok).verdicts), truth)
            == Survivors([], source, truth)
  {
    AllClassifiedAgree(source, s, truth, env);
    M.MeaningPreserved(ClassifyAll(source, s), truth, iocccok);
    LinesOfClassified(source, s);
  }

  lemma {:induction false} LinesOfClassified(source: seq<Line<Condition>>, s: Settings)
    ensures M.Lines(ClassifyAll(source, s)) == source
    decreases |source|
  {
    if source != [] {
      LinesOfClassified(source[1..], s);
      assert ClassifyAll(source, s)[1..] == ClassifyAll(source[1..], s);
    }
  }
}
