/**
 The recursive parser itself, which moves along the line and computes values as
 it goes, whatever the operators mean.
 */
module ExprParser {
  import opened ExprGrammar

  /** What the operators do to values; `none` is the value of an empty operand. */
  datatype Interpretation<!V> = Interpretation(
    binary: (Operator, V, V) -> V,
    unary: (Prefix, V) -> V,
    group: V -> V,
    none: V,
    zero: V,
    isNone: V -> bool)

  /** The value of a tree; when the right operand has no value, the left one is replaced by zero. */
  function Value<V>(t: Tree<V>, i: Interpretation<V>): V {
    match t
    case Leaf(v) => v
    case Missing => i.none
    case Unary(p, a) => i.unary(p, Value(a, i))
    case Paren(e, _) => i.group(Value(e, i))
    case Binary(op, l, r) =>
      var right := Value(r, i);
      i.binary(op, if i.isNone(right) then i.zero else Value(l, i), right)
  }

  class Parser<V> {
    const meaning: Interpretation<V>
    var input: Toks<V>

    constructor (input: Toks<V>, meaning: Interpretation<V>)
      ensures this.input == input && this.meaning == meaning
    {
      this.input, this.meaning := input, meaning;
    }

    method PrefixedOperand(p: Prefix) returns (v: V)
      requires input.Tok?
      modifies this
      ensures v == meaning.unary(p, Value(ParseOperand(old(input).tail).tree, meaning))
      ensures input == ParseOperand(old(input).tail).rest
      decreases Length(input), 0
    {
      input := input.tail;
      v := Operand();
      v := meaning.unary(p, v);
    }

    method Group() returns (v: V)
      requires input.Tok?
      modifies this
      ensures var e := ParseExpr(old(input).tail, 0);
              && v == meaning.group(Value(e.tree, meaning))
              && input == if e.rest.Tok? && e.rest.head.RParen? then e.rest.tail else e.rest
      decreases Length(input), 0
    {
      input := input.tail;
      v := Expr(0);
      v := meaning.group(v);
      if input.Tok? && input.head.RParen? { input := input.tail; }
    }

    /** operand(). */
    method Operand() returns (v: V)
      modifies this
      ensures v == Value(ParseOperand(old(input)).tree, meaning) && input == ParseOperand(old(input)).rest
      decreases Length(input), 1
    {
      if input.End? { return meaning.none; }
      match input.head {
        case Quantity(q) =>
          v := q;
          input := input.tail;
        case LParen => v := Group();
        case Tilde => v := PrefixedOperand(Complement);
        case Bang => v := PrefixedOperand(Not);
        case Op(o) => if o.Subtract? { v := PrefixedOperand(Negative); } else { v := meaning.none; }
        case RParen => v := meaning.none;
      }
    }

    /** expr(rank): the value of the expression read, with the line moved behind it. */
    method Expr(rank: nat) returns (result: V)
      modifies this
      ensures result == Value(ParseExpr(old(input), rank).tree, meaning) && input == ParseExpr(old(input), rank).rest
      decreases Length(input), 2
    {
      hide Rank, ParseOperand, ParseExpr, Climb;
      ghost var left := ParseOperand(input).tree;
      ExprClimbs(input, rank);
      result := Operand();
      while input.Tok? && input.head.Op? && Rank(input.head.op) > rank
        invariant Length(input) <= Length(old(input)) && result == Value(left, meaning)
        invariant Climb(left, input, rank) == ParseExpr(old(input), rank)
        decreases Length(input)
      {
        var op := input.head.op;
        ClimbContinues(left, input, rank);
        input := input.tail;
        ghost var right := ParseExpr(input, Rank(op)).tree;
        var value := Expr(Rank(op));
        if meaning.isNone(value) { result := meaning.zero; }
        result := meaning.binary(op, result, value);
        left := Binary(op, left, right);
      }
      ClimbEnds(left, input, rank);
    }
  }

  lemma {:induction false} ExprClimbs<V>(ts: Toks<V>, rank: nat)
    ensures var left := ParseOperand(ts); ParseExpr(ts, rank) == Climb(left.tree, left.rest, rank)
  {
  }

  lemma {:induction false} ClimbContinues<V>(left: Tree<V>, ts: Toks<V>, rank: nat)
    requires ts.Tok? && ts.head.Op? && Rank(ts.head.op) > rank
    ensures var right := ParseExpr(ts.tail, Rank(ts.head.op));
            && Climb(left, ts, rank) == Climb(Binary(ts.head.op, left, right.tree), right.rest, rank)
            && Length(right.rest) < Length(ts)
  {
  }

  lemma {:induction false} ClimbEnds<V>(left: Tree<V>, ts: Toks<V>, rank: nat)
    ensures !(ts.Tok? && ts.head.Op? && Rank(ts.head.op) > rank) ==> Climb(left, ts, rank) == Parsed(left, ts)
  {
  }
}
