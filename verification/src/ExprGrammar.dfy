/**
 The assembler's expressions: ranked binary operators, unary operators and
 parentheses over operands of any kind. The grammar is stratified by rank and
 the operators associate to the left.
 */
module ExprGrammar {
  datatype Operator =
    | Multiply | Divide | Modulus
    | Add | Subtract
    | RightShift | LeftShift
    | LessThan | GreaterThan | LessThanOrEqual | GreaterThanOrEqual
    | Equal | NotEqual
    | BitAnd | BitExclusiveOr | BitInclusiveOr
    | LogicalAnd | LogicalOr

  /** op_rank: larger numbers bind tighter. */
  function Rank(o: Operator): (r: nat)
    ensures 1 <= r <= 10
  {
    match o
    case Multiply => 10 case Divide => 10 case Modulus => 10
    case Add => 9 case Subtract => 9
    case RightShift => 8 case LeftShift => 8
    case LessThan => 7 case GreaterThan => 7 case LessThanOrEqual => 7 case GreaterThanOrEqual => 7
    case Equal => 6 case NotEqual => 6
    case BitAnd => 5
    case BitExclusiveOr => 4
    case BitInclusiveOr => 3
    case LogicalAnd => 2
    case LogicalOr => 1
  }

  datatype Prefix = Negative | Complement | Not

  /** A minus sign is an operator or a prefix, depending on where it is. */
  datatype Token<V> = Quantity(v: V) | Op(op: Operator) | Tilde | Bang | LParen | RParen

  /** The rest of the line: what input_line_pointer points at. */
  datatype Toks<V> = End | Tok(head: Token<V>, tail: Toks<V>)

  function Length<V>(ts: Toks<V>): nat { if ts.End? then 0 else 1 + Length(ts.tail) }

  // ----- the grammar -----

  /** A parenthesis that is never closed extends to where its contents stop. */
  datatype Tree<V> =
    | Leaf(v: V)
    | Missing
    | Unary(p: Prefix, arg: Tree<V>)
    | Paren(inner: Tree<V>, closed: bool)
    | Binary(op: Operator, left: Tree<V>, right: Tree<V>)

  function PrefixToken<V>(p: Prefix): Token<V> {
    match p
    case Negative => Op(Subtract)
    case Complement => Tilde
    case Not => Bang
  }

  /** The tokens of a tree in front of `k`. */
  function Write<V>(t: Tree<V>, k: Toks<V>): Toks<V> {
    match t
    case Leaf(v) => Tok(Quantity(v), k)
    case Missing => k
    case Unary(p, a) => Tok(PrefixToken(p), Write(a, k))
    case Paren(i, closed) => Tok(LParen, Write(i, if closed then Tok(RParen, k) else k))
    case Binary(op, l, r) => Write(l, Tok(Op(op), Write(r, k)))
  }

  /** An expression of rank above `rank`: looser operators are outside, and to the right of equally loose ones. */
  predicate Stratified<V>(t: Tree<V>, rank: nat)
    decreases t
  {
    match t
    case Leaf(_) => true
    case Missing => true
    case Unary(_, a) => !a.Binary? && Stratified(a, 0)
    case Paren(i, _) => Stratified(i, 0)
    case Binary(op, l, r) => Rank(op) > rank && Stratified(l, Rank(op) - 1) && Stratified(r, Rank(op))
  }

  /** No operand is missing and no parenthesis is left open. */
  predicate Complete<V>(t: Tree<V>) {
    match t
    case Leaf(_) => true
    case Missing => false
    case Unary(_, a) => Complete(a)
    case Paren(i, closed) => closed && Complete(i)
    case Binary(_, l, r) => Complete(l) && Complete(r)
  }

  /** The line does not go on with an operator of a rank above `rank`. */
  predicate Stops<V>(ts: Toks<V>, rank: nat) { ts.Tok? && ts.head.Op? ==> Rank(ts.head.op) <= rank }

  lemma {:induction false} StratifiedWeaken<V>(t: Tree<V>, r: nat, s: nat)
    requires Stratified(t, r) && s <= r
    ensures Stratified(t, s)
  {
  }

  // ----- the parser -----

  datatype Parsed<V> = Parsed(tree: Tree<V>, rest: Toks<V>)

  function ParseOperand<V>(ts: Toks<V>): (r: Parsed<V>)
    ensures Length(r.rest) <= Length(ts)
    decreases Length(ts), 1
  {
    if ts.End? then Parsed(Missing, ts)
    else match ts.head
         case Quantity(v) => Parsed(Leaf(v), ts.tail)
         case LParen =>
           var i := ParseExpr(ts.tail, 0);
           if i.rest.Tok? && i.rest.head.RParen? then Parsed(Paren(i.tree, true), i.rest.tail)
           else Parsed(Paren(i.tree, false), i.rest)
         case Tilde => var a := ParseOperand(ts.tail); Parsed(Unary(Complement, a.tree), a.rest)
         case Bang => var a := ParseOperand(ts.tail); Parsed(Unary(Not, a.tree), a.rest)
         case Op(o) =>
           if o.Subtract? then var a := ParseOperand(ts.tail); Parsed(Unary(Negative, a.tree), a.rest)
           else Parsed(Missing, ts)
         case RParen => Parsed(Missing, ts)
  }

  /** expr(rank): an operand, and operators of higher ranks with what follows them. */
  function ParseExpr<V>(ts: Toks<V>, rank: nat): (r: Parsed<V>)
    ensures Length(r.rest) <= Length(ts)
    decreases Length(ts), 2
  {
    var left := ParseOperand(ts);
    Climb(left.tree, left.rest, rank)
  }

  function Climb<V>(left: Tree<V>, ts: Toks<V>, rank: nat): (r: Parsed<V>)
    ensures Length(r.rest) <= Length(ts)
    decreases Length(ts), 0
  {
    if ts.Tok? && ts.head.Op? && Rank(ts.head.op) > rank then
      var right := ParseExpr(ts.tail, Rank(ts.head.op));
      Climb(Binary(ts.head.op, left, right.tree), right.rest, rank)
    else Parsed(left, ts)
  }

  // ----- every line is read as a stratified expression -----

  lemma {:induction false} OperandRead<V>(ts: Toks<V>)
    ensures var r := ParseOperand(ts);
            !r.tree.Binary? && Stratified(r.tree, 0) && Write(r.tree, r.rest) == ts
    decreases Length(ts), 1
  {
    if ts.Tok? {
      match ts.head
      case LParen => ExprRead(ts.tail, 0);
      case Tilde => OperandRead(ts.tail);
      case Bang => OperandRead(ts.tail);
      case Op(o) => if o.Subtract? { OperandRead(ts.tail); }
      case _ =>
    }
  }

  /** Whatever the line, expr(rank) reads a stratified expression and stops at an operator of rank at most `rank`. */
  lemma {:induction false} ExprRead<V>(ts: Toks<V>, rank: nat)
    ensures var r := ParseExpr(ts, rank);
            Stratified(r.tree, rank) && Write(r.tree, r.rest) == ts && Stops(r.rest, rank)
    decreases Length(ts), 2
  {
    var left := ParseOperand(ts);
    OperandRead(ts);
    ClimbRead(left.tree, left.rest, rank);
  }

  lemma {:induction false} ClimbRead<V>(left: Tree<V>, ts: Toks<V>, rank: nat)
    requires Stratified(left, rank) && (left.Binary? ==> Stops(ts, Rank(left.op)))
    ensures var r := Climb(left, ts, rank);
            Stratified(r.tree, rank) && Write(r.tree, r.rest) == Write(left, ts) && Stops(r.rest, rank)
    decreases Length(ts), 0
  {
    if ts.Tok? && ts.head.Op? && Rank(ts.head.op) > rank {
      var op := ts.head.op;
      var right := ParseExpr(ts.tail, Rank(op));
      ExprRead(ts.tail, Rank(op));
      ClimbRead(Binary(op, left, right.tree), right.rest, rank);
    }
  }

  // ----- every stratified expression is read back -----

  lemma {:induction false} OperandWritten<V>(t: Tree<V>, k: Toks<V>)
    requires !t.Binary? && Stratified(t, 0) && Complete(t)
    ensures ParseOperand(Write(t, k)) == Parsed(t, k)
    decreases t, 0
  {
    match t
    case Leaf(_) =>
    case Unary(_, a) => OperandWritten(a, k);
    case Paren(i, _) => ExprWritten(i, 0, Tok(RParen, k));
  }

  /** Where a written expression ends, the parser goes on with it as left operand. */
  lemma {:induction false} WrittenClimbs<V>(t: Tree<V>, rank: nat, k: Toks<V>)
    requires Stratified(t, rank) && Complete(t) && (t.Binary? ==> Stops(k, Rank(t.op)))
    ensures ParseExpr(Write(t, k), rank) == Climb(t, k, rank)
    decreases t, 1
  {
    if t.Binary? {
      var rest := Tok(Op(t.op), Write(t.right, k));
      StratifiedWeaken(t.left, Rank(t.op) - 1, rank);
      WrittenClimbs(t.left, rank, rest);
      ExprWritten(t.right, Rank(t.op), k);
    } else {
      OperandWritten(t, k);
    }
  }

  /** Reading undoes writing, up to an operator of lower or equal rank. */
  lemma {:induction false} ExprWritten<V>(t: Tree<V>, rank: nat, k: Toks<V>)
    requires Stratified(t, rank) && Complete(t) && Stops(k, rank)
    ensures ParseExpr(Write(t, k), rank) == Parsed(t, k)
    decreases t, 2
  {
    WrittenClimbs(t, rank, k);
  }

  /** So the expression that a line begins with is unique. */
  lemma {:induction false} Unambiguous<V>(s: Tree<V>, j: Toks<V>, t: Tree<V>, k: Toks<V>, rank: nat)
    requires Stratified(s, rank) && Complete(s) && Stops(j, rank)
    requires Stratified(t, rank) && Complete(t) && Stops(k, rank)
    requires Write(s, j) == Write(t, k)
    ensures s == t && j == k
  {
    ExprWritten(s, rank, j);
    ExprWritten(t, rank, k);
  }
}
