/** The same operations as expr.c performs them, on records updated in place. */
module RelocatableRun {
  import opened Wrappers
  import opened Relocatable

  class Expression {
    var seg: Seg
    var add: Option<Symbol>
    var sub: Option<Symbol>
    var number: int

    ghost function Rec(): Record
      reads this
    {
      Record(seg, add, sub, number)
    }

    constructor (r: Record)
      ensures Rec() == r
    {
      seg, add, sub, number := r.seg, r.add, r.sub, r.number;
    }

    /** clean_up_expression. */
    method CleanUp()
      modifies this
      ensures Rec() == CleanedUp(old(Rec()))
    {
      match seg {
        case NoSeg => add, sub, number := None, None, 0;
        case Absolute => add, sub := None, None;
        case Sect => sub := None;
        case Unknown => sub := None;
        case DiffSect => if add == sub { add, sub, seg := None, None, Absolute; }
      }
    }

    /** Exchanging the symbols and negating the number. */
    method Swap()
      modifies this
      ensures Rec() == Swapped(old(Rec()))
    {
      number := Wrap(-number);
      var symbol := add;
      add := sub;
      sub := symbol;
      if symbol.Some? { seg := DiffSect; }
    }

    /** expr_part on the add symbol. */
    method CombineAdd(two: Option<Symbol>) returns (part: Option<Seg>, warned: bool)
      modifies this`add
      ensures Part(add, part, warned) == Combine(old(add), two)
    {
      add, part, warned := ExprPart(add, two);
    }

    /** expr_part on the subtract symbol. */
    method CombineSub(two: Option<Symbol>) returns (part: Option<Seg>, warned: bool)
      modifies this`sub
      ensures Part(sub, part, warned) == Combine(old(sub), two)
    {
      sub, part, warned := ExprPart(sub, two);
    }

    /** The operators + and -: this is the left operand and becomes the result. */
    method Plus(right: Expression, subtract: bool, k: bool) returns (warned: bool)
      requires right != this
      modifies this, right
      ensures Quant(Rec(), warned) == Sum(old(Rec()), if subtract then Swapped(old(right.Rec())) else old(right.Rec()), k)
    {
      if subtract { right.Swap(); }
      right.CleanUp();
      CleanUp();
      var seg1, warned1 := CombineAdd(right.add);
      var seg2, warned2 := CombineSub(right.sub);
      warned := warned1 || warned2;
      if seg1.None? || seg2.None? {
        warned, seg, number := true, Absolute, 0;
      } else if seg2.value.Absolute? {
        if !seg.DiffSect? { seg := seg1.value; }
      } else if !k && seg1.value.Sect? && seg2.value != Unknown && seg1 != seg2 && OtherSection(add, sub) {
        warned, seg := true, Absolute;
      } else {
        seg := DiffSect;
      }
      number := Wrap(number + right.number);
      CleanUp();
    }
  }

  /** expr_part. */
  method ExprPart(one: Option<Symbol>, two: Option<Symbol>) returns (symbol: Option<Symbol>, seg: Option<Seg>, warned: bool)
    ensures Part(symbol, seg, warned) == Combine(one, two)
  {
    symbol, warned := one, false;
    if one.Some? {
      if !one.value.defined {
        if two.Some? {
          symbol, seg := None, None;
        } else {
          seg := Some(Unknown);
        }
      } else if two.Some? {
        symbol := None;
        if !two.value.defined {
          seg := None;
        } else {
          warned, seg := true, Some(Absolute);
        }
      } else {
        seg := Some(Sect);
      }
    } else if two.Some? {
      symbol, seg := two, Some(SegOf(two.value));
    } else {
      seg := Some(Absolute);
    }
  }
}
