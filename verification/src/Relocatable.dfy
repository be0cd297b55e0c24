/**
 Relocatable values: a symbol, minus a symbol, plus a number. Sums and
 differences of them stay in that form, or a warning is given.
 */
module Relocatable {
  import opened Wrappers
  import opened Arithmetic
  import opened ExprGrammar
  import opened ExprParser

  datatype Seg = NoSeg | Absolute | Sect | Unknown | DiffSect

  /** A symbol that is undefined so far, or defined in a section. */
  datatype Symbol = Symbol(name: string, defined: bool, section: nat)

  /** expressionS. */
  datatype Record = Record(seg: Seg, add: Option<Symbol>, sub: Option<Symbol>, number: int)

  const MOD64 := 0x1_0000_0000_0000_0000

  /** What is left of a number in 64 bits. */
  function Wrap(n: int): int { (n + MOD64 / 2) % MOD64 - MOD64 / 2 }

  predicate Congruent(a: int, b: int) { (a - b) % MOD64 == 0 }

  // ----- the operations -----

  /** clean_up_expression. */
  function CleanedUp(r: Record): Record {
    match r.seg
    case NoSeg => Record(NoSeg, None, None, 0)
    case Absolute => r.(add := None, sub := None)
    case Sect => r.(sub := None)
    case Unknown => r.(sub := None)
    case DiffSect => if r.add == r.sub then r.(seg := Absolute, add := None, sub := None) else r
  }

  function SegOf(s: Symbol): Seg { if s.defined then Sect else Unknown }

  /** The result of expr_part; no segment stands for the error return. */
  datatype Part = Part(symbol: Option<Symbol>, seg: Option<Seg>, warned: bool)

  /** expr_part: two symbols cannot be combined. */
  function Combine(one: Option<Symbol>, two: Option<Symbol>): Part {
    match (one, two)
    case (Some(s), None) => Part(one, Some(SegOf(s)), false)
    case (None, Some(s)) => Part(two, Some(SegOf(s)), false)
    case (None, None) => Part(None, Some(Absolute), false)
    case (Some(s), Some(t)) => if s.defined && t.defined then Part(None, Some(Absolute), true) else Part(None, None, false)
  }

  /** Subtraction turned into addition. */
  function Swapped(r: Record): Record {
    Record(if r.add.Some? then DiffSect else r.seg, r.sub, r.add, Wrap(-r.number))
  }

  /** A value and whether a warning has been given about it. */
  datatype Quant = Quant(rec: Record, warned: bool)

  predicate OtherSection(one: Option<Symbol>, two: Option<Symbol>) {
    one.Some? && two.Some? && one.value.section != two.value.section
  }

  /** The segment of a sum of cleaned-up values, from those of its parts, and whether a warning is given. */
  function SumSeg(seg: Seg, p1: Part, p2: Part, k: bool): (Seg, bool) {
    if p1.seg.None? || p2.seg.None? then (Absolute, true)
    else if p2.seg.value.Absolute? then (if seg.DiffSect? then seg else p1.seg.value, p1.warned || p2.warned)
    else if !k && p1.seg.value.Sect? && p2.seg.value != Unknown && p1.seg != p2.seg && OtherSection(p1.symbol, p2.symbol)
    then (Absolute, true)
    else (DiffSect, p1.warned || p2.warned)
  }

  /** The operator + on two values. */
  function Sum(left: Record, right: Record, k: bool): Quant {
    var l, r := CleanedUp(left), CleanedUp(right);
    var p1, p2 := Combine(l.add, r.add), Combine(l.sub, r.sub);
    var (seg, warned) := SumSeg(l.seg, p1, p2, k);
    var base := if p1.seg.None? || p2.seg.None? then 0 else l.number;
    Quant(CleanedUp(Record(seg, p1.symbol, p2.symbol, Wrap(base + r.number))), warned)
  }

  /** The prefix - on a value: an absolute number is negated, a symbol moves to the other side. */
  function Negated(r: Record): Quant {
    match r.seg
    case Absolute => Quant(CleanedUp(r.(number := Wrap(-r.number))), false)
    case Sect => Quant(CleanedUp(r.(seg := DiffSect, sub := r.add, add := None)), false)
    case Unknown => Quant(CleanedUp(r.(seg := DiffSect, sub := r.add, add := None)), false)
    case NoSeg => Quant(CleanedUp(r), true)
    case DiffSect => Quant(CleanedUp(r), true)
  }

  // ----- what a record stands for -----

  function Address(s: Option<Symbol>, env: Symbol -> int): int { if s.Some? then env(s.value) else 0 }

  /** The value of a record once the symbols have addresses. */
  function Denoted(r: Record, env: Symbol -> int): int { Address(r.add, env) - Address(r.sub, env) + r.number }

  /** The symbols a record has room for in its segment. */
  predicate Normal(r: Record) {
    && -MOD64 / 2 <= r.number < MOD64 / 2
    && match r.seg
       case NoSeg => r.add.None? && r.sub.None? && r.number == 0
       case Absolute => r.add.None? && r.sub.None?
       case Sect => r.add.Some? && r.sub.None? && r.add.value.defined
       case Unknown => r.add.Some? && r.sub.None? && !r.add.value.defined
       case DiffSect => r.sub.Some? && r.add != r.sub
  }

  lemma {:induction false} WrapCongruent(n: int)
    ensures Congruent(Wrap(n), n) && -MOD64 / 2 <= Wrap(n) < MOD64 / 2
  {
    var m := n + MOD64 / 2;
    assert m == m / MOD64 * MOD64 + m % MOD64;
    assert Wrap(n) - n == 0 + -(m / MOD64) * MOD64;
    ModShift(0, -(m / MOD64), MOD64);
  }

  lemma {:induction false} CongruentAdds(a: int, b: int, c: int, d: int)
    requires Congruent(a, b) && Congruent(c, d)
    ensures Congruent(a + c, b + d) && Congruent(a - c, b - d)
  {
    var p, q := (a - b) / MOD64, (c - d) / MOD64;
    assert a - b == p * MOD64 && c - d == q * MOD64;
    ModShift(0, p + q, MOD64);
    ModShift(0, p - q, MOD64);
    assert a + c - (b + d) == 0 + (p + q) * MOD64 && a - c - (b - d) == 0 + (p - q) * MOD64;
  }

  /** The negated right operand of a subtraction. */
  lemma {:induction false} SwappedDenotes(r: Record, env: Symbol -> int)
    requires Normal(r)
    ensures Congruent(Denoted(CleanedUp(Swapped(r)), env), -Denoted(r, env))
  {
    WrapCongruent(-r.number);
  }

  /** A sum without a warning has one symbol at most on either side, and is worth what its parts are. */
  lemma {:induction false} SumDenotes(l: Record, r: Record, k: bool, env: Symbol -> int)
    requires Normal(l) && !Sum(l, r, k).warned
    ensures Normal(Sum(l, r, k).rec)
    ensures Congruent(Denoted(Sum(l, r, k).rec, env), Denoted(l, env) + Denoted(CleanedUp(r), env))
  {
    hide Wrap;
    var c := CleanedUp(r);
    WrapCongruent(l.number + c.number);
    var a := Address(l.add, env) + Address(c.add, env) - (Address(l.sub, env) + Address(c.sub, env));
    assert Congruent(a, a);
    CongruentAdds(Wrap(l.number + c.number), l.number + c.number, a, a);
  }

  /**
   A symbol with a number added to it is negated correctly if and only if twice
   that number is nothing in 64 bits.
   */
  lemma {:induction false} NegationExact(r: Record, env: Symbol -> int)
    requires Normal(r) && (r.seg.Sect? || r.seg.Unknown?)
    ensures !Negated(r).warned
    ensures Congruent(Denoted(Negated(r).rec, env), -Denoted(r, env)) <==> 2 * r.number % MOD64 == 0
  {
    assert Denoted(Negated(r).rec, env) + Denoted(r, env) == 2 * r.number;
  }

  /** Negating `symbol + 5` gives `5 - symbol`. */
  lemma {:induction false} NegatedAddendIsWrong(s: Symbol)
    ensures var r := Record(SegOf(s), Some(s), None, 5);
            Normal(r) && !Negated(r).warned && !Congruent(Denoted(Negated(r).rec, _ => 0), -Denoted(r, _ => 0))
  {
    NegationExact(Record(SegOf(s), Some(s), None, 5), _ => 0);
  }

  // ----- whole expressions -----

  /** The operators other than + and -, and the prefixes other than -, as functions on numbers. */
  datatype Numeric = Numeric(binary: (Operator, int, int) -> int, prefix: (Prefix, int) -> int)

  function Absolutely(n: int): Record { Record(Absolute, None, None, Wrap(n)) }

  function Operate(op: Operator, l: Record, r: Record, num: Numeric, k: bool): Quant {
    if op.Add? then Sum(l, r, k)
    else if op.Subtract? then Sum(l, Swapped(r), k)
    else if l.seg.Absolute? && r.seg.Absolute? then Quant(Absolutely(num.binary(op, l.number, r.number)), false)
    else Quant(Absolutely(0), true)
  }

  function Prefixed(p: Prefix, r: Record, num: Numeric): Quant {
    if p.Negative? then Negated(r)
    else if r.seg.Absolute? then Quant(Absolutely(num.prefix(p, r.number)), false)
    else Quant(CleanedUp(r), true)
  }

  function Warn(q: Quant, warned: bool): Quant { q.(warned := q.warned || warned) }

  predicate TooHard(r: Record) { r.seg.DiffSect? && r.add.None? && r.sub.Some? && r.sub.value.defined }

  function Reloc(num: Numeric, k: bool): Interpretation<Quant> {
    Interpretation(
      (op, l: Quant, r: Quant) => Warn(Operate(op, l.rec, r.rec, num, k), l.warned || r.warned),
      (p, v: Quant) => Warn(Prefixed(p, v.rec, num), v.warned),
      (v: Quant) => Quant(CleanedUp(v.rec), v.warned || TooHard(v.rec)),
      Quant(Record(NoSeg, None, None, 0), false),
      Quant(Absolutely(0), true),
      (v: Quant) => v.rec.seg.NoSeg?)
  }

  /** The value of an expression as it is written, once the symbols have addresses. */
  function Meaning(t: Tree<Quant>, env: Symbol -> int, num: Numeric): int {
    match t
    case Leaf(v) => Denoted(v.rec, env)
    case Missing => 0
    case Unary(p, a) =>
      if p.Negative? then -Meaning(a, env, num) else num.prefix(p, Wrap(Meaning(a, env, num)))
    case Paren(e, _) => Meaning(e, env, num)
    case Binary(op, l, r) =>
      if op.Add? then Meaning(l, env, num) + Meaning(r, env, num)
      else if op.Subtract? then Meaning(l, env, num) - Meaning(r, env, num)
      else num.binary(op, Wrap(Meaning(l, env, num)), Wrap(Meaning(r, env, num)))
  }

  predicate NormalLeaves(t: Tree<Quant>) {
    match t
    case Leaf(v) => Normal(v.rec) && !v.rec.seg.NoSeg?
    case Missing => true
    case Unary(_, a) => NormalLeaves(a)
    case Paren(e, _) => NormalLeaves(e)
    case Binary(_, l, r) => NormalLeaves(l) && NormalLeaves(r)
  }

  predicate NegatesExactly(r: Record) { r.seg.Sect? || r.seg.Unknown? ==> 2 * r.number % MOD64 == 0 }

  /** No prefix - is applied to a symbol with a number that it would leave unchanged. */
  predicate NegatedExactly(t: Tree<Quant>, num: Numeric, k: bool) {
    match t
    case Leaf(_) => true
    case Missing => true
    case Unary(p, a) => NegatedExactly(a, num, k) && (p.Negative? ==> NegatesExactly(Value(a, Reloc(num, k)).rec))
    case Paren(e, _) => NegatedExactly(e, num, k)
    case Binary(_, l, r) => NegatedExactly(l, num, k) && NegatedExactly(r, num, k)
  }

  /** A record that stands for the value `m` at the given addresses. */
  predicate StandsFor(r: Record, env: Symbol -> int, m: int) { Normal(r) && Congruent(Denoted(r, env), m) }

  lemma {:induction false} WrapUnique(a: int, b: int)
    requires Congruent(a, b) && -MOD64 / 2 <= a < MOD64 / 2
    ensures Wrap(b) == a
  {
    var q := (a - b) / MOD64;
    assert a - b == q * MOD64;
    assert b + MOD64 / 2 == -q * MOD64 + (a + MOD64 / 2);
    DivModUnique(b + MOD64 / 2, -q, a + MOD64 / 2, MOD64);
  }

  lemma {:induction false} AbsolutelyStandsFor(n: int, env: Symbol -> int)
    ensures StandsFor(Absolutely(n), env, n)
  {
    WrapCongruent(n);
  }

  lemma {:induction false} CongruentTrans(a: int, b: int, c: int)
    requires Congruent(a, b) && Congruent(b, c)
    ensures Congruent(a, c)
  {
    CongruentAdds(a, b, b, c);
  }

  lemma {:induction false} OperateStandsFor(op: Operator, l: Record, r: Record, num: Numeric, k: bool, env: Symbol -> int,
                                            x: int, y: int)
    requires StandsFor(l, env, x) && StandsFor(r, env, y) && !Operate(op, l, r, num, k).warned
    ensures var m := if op.Add? then x + y else if op.Subtract? then x - y else num.binary(op, Wrap(x), Wrap(y));
            StandsFor(Operate(op, l, r, num, k).rec, env, m)
  {
    hide Wrap, Sum, Congruent, Normal, Denoted, Swapped;
    if op.Add? {
      SumDenotes(l, r, k, env);
      CleanIsNormal(r);
      CongruentAdds(Denoted(l, env), x, Denoted(r, env), y);
      CongruentTrans(Denoted(Sum(l, r, k).rec, env), Denoted(l, env) + Denoted(r, env), x + y);
    } else if op.Subtract? {
      var s := Swapped(r);
      SumDenotes(l, s, k, env);
      SwappedDenotes(r, env);
      Opposite(Denoted(r, env), y);
      CongruentTrans(Denoted(CleanedUp(s), env), -Denoted(r, env), -y);
      CongruentAdds(Denoted(l, env), x, Denoted(CleanedUp(s), env), -y);
      CongruentTrans(Denoted(Sum(l, s, k).rec, env), Denoted(l, env) + Denoted(CleanedUp(s), env), x - y);
    } else {
      AbsoluteNumber(l, env, x);
      AbsoluteNumber(r, env, y);
      AbsolutelyStandsFor(num.binary(op, Wrap(x), Wrap(y)), env);
    }
  }

  lemma {:induction false} Opposite(a: int, b: int)
    requires Congruent(a, b)
    ensures Congruent(-a, -b)
  {
    CongruentAdds(0, 0, a, b);
  }

  lemma {:induction false} CleanIsNormal(r: Record)
    requires Normal(r)
    ensures CleanedUp(r) == r
  {
  }

  lemma {:induction false} AbsoluteNumber(r: Record, env: Symbol -> int, x: int)
    requires StandsFor(r, env, x) && r.seg.Absolute?
    ensures r.number == Wrap(x)
  {
    WrapUnique(r.number, x);
  }

  lemma {:induction false} PrefixedStandsFor(p: Prefix, r: Record, num: Numeric, env: Symbol -> int, x: int)
    requires StandsFor(r, env, x) && !Prefixed(p, r, num).warned && (p.Negative? ==> NegatesExactly(r))
    ensures StandsFor(Prefixed(p, r, num).rec, env, if p.Negative? then -x else num.prefix(p, Wrap(x)))
  {
    hide Wrap, Congruent;
    if p.Negative? {
      Opposite(Denoted(r, env), x);
      if r.seg.Absolute? {
        WrapCongruent(-r.number);
        CongruentTrans(Wrap(-r.number), -r.number, -x);
      } else {
        NegationExact(r, env);
        CongruentTrans(Denoted(Negated(r).rec, env), -Denoted(r, env), -x);
      }
    } else {
      AbsoluteNumber(r, env, x);
      AbsolutelyStandsFor(num.prefix(p, Wrap(x)), env);
    }
  }

  /**
   Whatever addresses the symbols get later, an expression evaluated without a
   warning stands for its value.
   */
  lemma {:induction false} MeaningKept(t: Tree<Quant>, env: Symbol -> int, num: Numeric, k: bool)
    requires NormalLeaves(t) && NegatedExactly(t, num, k) && !Value(t, Reloc(num, k)).warned
    ensures StandsFor(Value(t, Reloc(num, k)).rec, env, Meaning(t, env, num))
  {
    hide Normal, Denoted, Wrap, Operate, Prefixed, Congruent, NegatesExactly;
    match t
    case Leaf(v) => LeafStandsFor(v.rec, env);
    case Missing => NothingStandsForZero(env);
    case Unary(p, a) =>
      MeaningKept(a, env, num, k);
      PrefixedStandsFor(p, Value(a, Reloc(num, k)).rec, num, env, Meaning(a, env, num));
    case Paren(e, _) =>
      MeaningKept(e, env, num, k);
      CleanIsNormal(Value(e, Reloc(num, k)).rec);
    case Binary(op, l, r) =>
      MeaningKept(l, env, num, k);
      MeaningKept(r, env, num, k);
      OperateStandsFor(op, Value(l, Reloc(num, k)).rec, Value(r, Reloc(num, k)).rec, num, k, env,
                       Meaning(l, env, num), Meaning(r, env, num));
  }

  lemma {:induction false} LeafStandsFor(r: Record, env: Symbol -> int)
    requires Normal(r)
    ensures StandsFor(r, env, Denoted(r, env))
  {
  }

  lemma {:induction false} NothingStandsForZero(env: Symbol -> int)
    ensures StandsFor(Record(NoSeg, None, None, 0), env, 0)
  {
  }

  // ----- where the code falls short -----

  /** The segments of the symbols of a sum never differ, so the test for different sections never matters. */
  lemma {:induction false} SectionTestIsDead(l: Record, r: Record, subtract: bool)
    requires Normal(l) && Normal(r)
    ensures var s := if subtract then Swapped(r) else r; Sum(l, s, false) == Sum(l, s, true)
  {
    hide Wrap;
  }

  /** The difference of two symbols is accepted even if they are in different sections. */
  lemma {:induction false} DifferentSectionsAccepted(s: Symbol, t: Symbol)
    requires s.defined && t.defined && s.section != t.section
    ensures var d := Sum(Record(Sect, Some(s), None, 0), Swapped(Record(Sect, Some(t), None, 0)), false);
            d == Quant(Record(DiffSect, Some(s), Some(t), 0), false)
  {
  }

  /** When an operator's right operand has no value, the result is zero, whatever the left one is. */
  lemma {:induction false} MissingOperandGivesZero(op: Operator, l: Tree<Quant>, r: Tree<Quant>, num: Numeric, k: bool)
    requires Value(r, Reloc(num, k)).rec == Record(NoSeg, None, None, 0)
    ensures Value(Binary(op, l, r), Reloc(num, k)) == Quant(Absolutely(0), true)
  {
    hide Operate;
    ZeroAndNothing(op, num, k);
  }

  lemma {:induction false} ZeroAndNothing(op: Operator, num: Numeric, k: bool)
    ensures Operate(op, Absolutely(0), Record(NoSeg, None, None, 0), num, k).rec == Absolutely(0)
  {
  }

  /**
   So a missing operand counts as zero, for every assignment of addresses, if and
   only if the expression with a zero there is zero in 64 bits; for + and - that
   is when the left operand is.
   */
  lemma {:induction false} MissingOperandExact(op: Operator, l: Tree<Quant>, num: Numeric, k: bool, env: Symbol -> int)
    ensures StandsFor(Value(Binary(op, l, Missing), Reloc(num, k)).rec, env, Meaning(Binary(op, l, Missing), env, num))
            <==> if op.Add? || op.Subtract? then Congruent(Meaning(l, env, num), 0)
                 else Congruent(num.binary(op, Wrap(Meaning(l, env, num)), 0), 0)
  {
    hide Value, Congruent;
    MissingOperandGivesZero(op, l, Missing, num, k) by { MissingHasNoValue(num, k); }
    var m := Meaning(Binary(op, l, Missing), env, num);
    assert Denoted(Absolutely(0), env) == 0 && Normal(Absolutely(0));
    if Congruent(0, m) { CongruentSym(0, m); }
    if Congruent(m, 0) { CongruentSym(m, 0); }
  }

  lemma {:induction false} MissingHasNoValue(num: Numeric, k: bool)
    ensures Value(Missing, Reloc(num, k)).rec == Record(NoSeg, None, None, 0)
  {
  }

  lemma {:induction false} CongruentSym(a: int, b: int)
    requires Congruent(a, b)
    ensures Congruent(b, a)
  {
    var q := (a - b) / MOD64;
    assert b - a == 0 + -q * MOD64;
    ModShift(0, -q, MOD64);
  }

  lemma {:induction false} SevenPlusParsed(seven: Quant)
    ensures ParseExpr(Tok(Quantity(seven), Tok(Op(Add), End)), 0).tree == Binary(Add, Leaf(seven), Missing)
  {
    assert ParseOperand(Tok(Quantity(seven), Tok(Op(Add), End))) == Parsed(Leaf(seven), Tok(Op(Add), End));
    var nothing: Toks<Quant> := End;
    assert ParseExpr(nothing, 9) == Parsed(Missing, nothing);
  }

  /** The line `7 +` is zero, not seven. */
  lemma {:induction false} SevenPlusNothing(num: Numeric, k: bool)
    ensures var seven := Quant(Record(Absolute, None, None, 7), false);
            var t := ParseExpr(Tok(Quantity(seven), Tok(Op(Add), End)), 0).tree;
            && t == Binary(Add, Leaf(seven), Missing)
            && Value(t, Reloc(num, k)) == Quant(Absolutely(0), true)
            && !StandsFor(Absolutely(0), _ => 0, Meaning(t, _ => 0, num))
  {
    hide ParseExpr, Value;
    SevenPlusParsed(Quant(Record(Absolute, None, None, 7), false));
    var seven := Leaf(Quant(Record(Absolute, None, None, 7), false));
    MissingOperandGivesZero(Add, seven, Missing, num, k) by { MissingHasNoValue(num, k); }
    assert Meaning(Binary(Add, seven, Missing), _ => 0, num) == 7;
  }
}
