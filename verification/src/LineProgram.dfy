/**
 The DWARF line program encoder of the assembler: the size and the bytes of one
 line and address advance, and what the line number state machine makes of it.
 */
module LineProgram {
  import opened Arithmetic
  import opened Wrappers
  import opened Bytes
  import opened Leb128
  import opened LineMachine

  const MAX_SPECIAL_ADDR_DELTA := (255 - OPCODE_BASE) / LINE_RANGE

  predicate IsInt(n: int) { -INT_MAX - 1 <= n <= INT_MAX }

  // ----- one advance -----

  /** The bias applied to a line delta, as an unsigned int. */
  function Biased(lineDelta: int): int { (lineDelta - LINE_BASE) % MOD32 }

  predicate NeedsAdvanceLine(lineDelta: int) { Biased(lineDelta) >= LINE_RANGE }

  /** The special opcode for an address delta when the line bias is `tmp`, as an unsigned int. */
  function Special(tmp: int, addrDelta: int): int { (tmp + addrDelta * LINE_RANGE) % MOD32 }

  const EndSequence: seq<byte> := [LNS_extended_op, 1, LNE_end_sequence]

  /** The address part of an advance, after the line part. */
  function AddrBytes(lineDelta: int, addrDelta: nat, tmp: int, needCopy: bool): seq<byte>
    requires OPCODE_BASE <= tmp < OPCODE_BASE + LINE_RANGE
  {
    if lineDelta == 0 && addrDelta == 0 then [LNS_copy]
    else if addrDelta < 256 + MAX_SPECIAL_ADDR_DELTA && Special(tmp, addrDelta) <= 255 then [Special(tmp, addrDelta)]
    else if addrDelta < 256 + MAX_SPECIAL_ADDR_DELTA && Special(tmp, addrDelta - MAX_SPECIAL_ADDR_DELTA) <= 255 then
      [LNS_const_add_pc, Special(tmp, addrDelta - MAX_SPECIAL_ADDR_DELTA)]
    else [LNS_advance_pc] + Uleb(addrDelta) + [if needCopy then LNS_copy else tmp]
  }

  /** What emit_inc_line_addr writes; a line delta of INT_MAX stands for the end of the sequence. */
  function Advance(lineDelta: int, addrDelta: nat): seq<byte>
    requires IsInt(lineDelta)
  {
    if lineDelta == INT_MAX then
      (if addrDelta == MAX_SPECIAL_ADDR_DELTA then [LNS_const_add_pc] else [LNS_advance_pc] + Uleb(addrDelta)) + EndSequence
    else if NeedsAdvanceLine(lineDelta) then
      [LNS_advance_line] + Sleb(lineDelta) + AddrBytes(0, addrDelta, OPCODE_BASE - LINE_BASE, true)
    else AddrBytes(lineDelta, addrDelta, Biased(lineDelta) + OPCODE_BASE, false)
  }

  /** size_inc_line_addr; the address delta is any 64-bit number. */
  method SizeIncLineAddr(lineDelta: int, addrDelta: nat) returns (len: nat)
    requires IsInt(lineDelta)
    ensures len == |Advance(lineDelta, addrDelta)|
  {
    len := 0;
    if lineDelta == INT_MAX {
      if addrDelta == MAX_SPECIAL_ADDR_DELTA {
        len := 1;
      } else {
        var n := SizeofUleb(addrDelta);
        len := 1 + n;
      }
      return len + 3;
    }
    var tmp := Biased(lineDelta);
    if tmp >= LINE_RANGE {
      var n := SizeofSleb(lineDelta);
      len := 1 + n;
      tmp := -LINE_BASE;
    }
    tmp := tmp + OPCODE_BASE;
    if addrDelta < 256 + MAX_SPECIAL_ADDR_DELTA {
      if Special(tmp, addrDelta) <= 255 {
        return len + 1;
      }
      if Special(tmp, addrDelta - MAX_SPECIAL_ADDR_DELTA) <= 255 {
        return len + 2;
      }
    }
    var n := SizeofUleb(addrDelta);
    len := len + 1 + n;
    len := len + 1;
  }

  method PutTwo(buf: array<byte>, start: nat, a: byte, b: byte) returns (p: nat)
    requires start + 2 <= buf.Length
    modifies buf
    ensures p == start + 2 && buf[..] == Splice(old(buf[..]), start, [a, b])
  {
    hide Splice;
    p := Put(buf, start, a);
    p := Put(buf, p, b);
    SpliceTwice(old(buf[..]), start, [a], [b]);
    assert [a] + [b] == [a, b];
  }

  method EmitAdvancePc(addrDelta: nat, buf: array<byte>, start: nat) returns (p: nat)
    requires start + 1 + |Uleb(addrDelta)| <= buf.Length
    modifies buf
    ensures p == start + 1 + |Uleb(addrDelta)|
    ensures buf[..] == Splice(old(buf[..]), start, [LNS_advance_pc] + Uleb(addrDelta))
  {
    hide Splice;
    p := Put(buf, start, LNS_advance_pc);
    p := OutputUleb(buf, p, addrDelta);
    SpliceTwice(old(buf[..]), start, [LNS_advance_pc], Uleb(addrDelta));
  }

  /** The part of emit_inc_line_addr after the line has been dealt with. */
  method EmitAddr(lineDelta: int, addrDelta: nat, tmp: int, needCopy: bool, buf: array<byte>, start: nat) returns (p: nat)
    requires OPCODE_BASE <= tmp < OPCODE_BASE + LINE_RANGE
    requires start + |AddrBytes(lineDelta, addrDelta, tmp, needCopy)| <= buf.Length
    modifies buf
    ensures p == start + |AddrBytes(lineDelta, addrDelta, tmp, needCopy)|
    ensures buf[..] == Splice(old(buf[..]), start, AddrBytes(lineDelta, addrDelta, tmp, needCopy))
  {
    hide Splice;
    if lineDelta == 0 && addrDelta == 0 {
      p := Put(buf, start, LNS_copy);
      return;
    }
    if addrDelta < 256 + MAX_SPECIAL_ADDR_DELTA {
      var opcode := Special(tmp, addrDelta);
      if opcode <= 255 {
        p := Put(buf, start, opcode);
        return;
      }
      opcode := Special(tmp, addrDelta - MAX_SPECIAL_ADDR_DELTA);
      if opcode <= 255 {
        p := PutTwo(buf, start, LNS_const_add_pc, opcode);
        return;
      }
    }
    var last: byte := if needCopy then LNS_copy else tmp;
    p := EmitLong(addrDelta, last, buf, start);
  }

  method EmitLong(addrDelta: nat, last: byte, buf: array<byte>, start: nat) returns (p: nat)
    requires start + 2 + |Uleb(addrDelta)| <= buf.Length
    modifies buf
    ensures p == start + 2 + |Uleb(addrDelta)|
    ensures buf[..] == Splice(old(buf[..]), start, [LNS_advance_pc] + Uleb(addrDelta) + [last])
  {
    hide Splice;
    p := EmitAdvancePc(addrDelta, buf, start);
    p := Put(buf, p, last);
    SpliceTwice(old(buf[..]), start, [LNS_advance_pc] + Uleb(addrDelta), [last]);
  }

  method EmitAdvanceLine(lineDelta: int, buf: array<byte>, start: nat) returns (p: nat)
    requires start + 1 + |Sleb(lineDelta)| <= buf.Length
    modifies buf
    ensures p == start + 1 + |Sleb(lineDelta)|
    ensures buf[..] == Splice(old(buf[..]), start, [LNS_advance_line] + Sleb(lineDelta))
  {
    hide Splice;
    p := Put(buf, start, LNS_advance_line);
    p := OutputSleb(buf, p, lineDelta);
    SpliceTwice(old(buf[..]), start, [LNS_advance_line], Sleb(lineDelta));
  }

  /** emit_inc_line_addr: given the size that size_inc_line_addr computes, it fills exactly that many bytes. */
  method EmitIncLineAddr(lineDelta: int, addrDelta: nat, buf: array<byte>, start: nat, len: nat)
    requires IsInt(lineDelta) && len == |Advance(lineDelta, addrDelta)| && start + len <= buf.Length
    modifies buf
    ensures buf[..] == Splice(old(buf[..]), start, Advance(lineDelta, addrDelta))
  {
    hide Splice, AddrBytes;
    BiasedExact(lineDelta);
    var p := start;
    if lineDelta == INT_MAX {
      EmitEnd(addrDelta, buf, start);
    } else {
      var tmp := Biased(lineDelta);
      if tmp >= LINE_RANGE {
        p := EmitAdvanceLine(lineDelta, buf, p);
        p := EmitAddr(0, addrDelta, OPCODE_BASE - LINE_BASE, true, buf, p);
        SpliceTwice(old(buf[..]), start, [LNS_advance_line] + Sleb(lineDelta), AddrBytes(0, addrDelta, OPCODE_BASE - LINE_BASE, true));
      } else {
        p := EmitAddr(lineDelta, addrDelta, tmp + OPCODE_BASE, false, buf, p);
      }
    }
  }

  /** The end-of-sequence case of emit_inc_line_addr. */
  method EmitEnd(addrDelta: nat, buf: array<byte>, start: nat)
    requires start + |Advance(INT_MAX, addrDelta)| <= buf.Length
    modifies buf
    ensures buf[..] == Splice(old(buf[..]), start, Advance(INT_MAX, addrDelta))
  {
    hide Splice;
    ghost var head := [LNS_const_add_pc];
    var p;
    if addrDelta == MAX_SPECIAL_ADDR_DELTA {
      p := Put(buf, start, LNS_const_add_pc);
    } else {
      p := EmitAdvancePc(addrDelta, buf, start);
      head := [LNS_advance_pc] + Uleb(addrDelta);
    }
    p := EmitEndSequence(buf, p);
    SpliceTwice(old(buf[..]), start, head, EndSequence);
  }

  method EmitEndSequence(buf: array<byte>, start: nat) returns (p: nat)
    requires start + 3 <= buf.Length
    modifies buf
    ensures p == start + 3 && buf[..] == Splice(old(buf[..]), start, EndSequence)
  {
    hide Splice;
    p := PutTwo(buf, start, LNS_extended_op, 1);
    p := Put(buf, p, LNE_end_sequence);
    SpliceTwice(old(buf[..]), start, [LNS_extended_op, 1], [LNE_end_sequence]);
    assert [LNS_extended_op, 1] + [LNE_end_sequence] == EndSequence;
  }

  /** The room reserved before relaxation, with the largest address delta, is always enough. */
  lemma {:induction false} ReservedIsEnough(lineDelta: int, addrDelta: nat)
    requires IsInt(lineDelta) && addrDelta < MOD64
    ensures |Advance(lineDelta, addrDelta)| <= |Advance(lineDelta, MOD64 - 1)|
  {
    UlebGrows(addrDelta, MOD64 - 1);
    UlebGrows(1, MOD64 - 1);
  }

  // ----- what an advance means to the state machine -----

  lemma {:induction false} RunOperand(op: byte, n: nat, rest: seq<byte>, r: Regs)
    requires op in {LNS_advance_pc, LNS_set_file, LNS_set_column, LNS_set_isa}
    ensures Rows([op] + Uleb(n) + rest, r) ==
            Rows(rest, if op == LNS_advance_pc then Advanced(r, n, 0)
                       else if op == LNS_set_file then r.(file := n)
                       else if op == LNS_set_column then r.(column := n)
                       else r.(isa := n))
  {
    var s := [op] + Uleb(n) + rest;
    assert s[1..] == Uleb(n) + rest;
    UlebRoundTrip(n, rest);
  }

  lemma {:induction false} RunAdvanceLine(v: int, rest: seq<byte>, r: Regs)
    ensures Rows([LNS_advance_line] + Sleb(v) + rest, r) == Rows(rest, Advanced(r, 0, v))
  {
    var s := [LNS_advance_line] + Sleb(v) + rest;
    assert s[1..] == Sleb(v) + rest;
    SlebRoundTrip(v, rest);
  }

  lemma {:induction false} RunSpecial(op: byte, rest: seq<byte>, r: Regs)
    requires op >= OPCODE_BASE
    ensures var r' := Advanced(r, (op - OPCODE_BASE) / LINE_RANGE, LINE_BASE + (op - OPCODE_BASE) % LINE_RANGE);
            Rows([op] + rest, r) == Prepend(r', Rows(rest, Cleared(r')))
  {
    assert ([op] + rest)[1..] == rest;
  }

  /** Registers as they can be: addresses have 64 bits and lines 32. */
  predicate InRange(r: Regs) { 0 <= r.address < MOD64 && 0 <= r.line < MOD32 }

  lemma {:induction false} AdvancedTwice(r: Regs, a: int, l: int, b: int, m: int)
    ensures Advanced(Advanced(r, a, l), b, m) == Advanced(r, a + b, l + m)
  {
    ModAdds(r.address, a, b, MOD64);
    ModAdds(r.line, l, m, MOD32);
  }

  /** The state machine after the address part of an advance. */
  lemma {:induction false} AddrRuns(lineDelta: int, addrDelta: nat, needCopy: bool, rest: seq<byte>, r: Regs)
    requires InRange(r) && LINE_BASE <= lineDelta < LINE_BASE + LINE_RANGE && (needCopy ==> lineDelta == 0)
    ensures var r' := Advanced(r, addrDelta, lineDelta);
            Rows(AddrBytes(lineDelta, addrDelta, lineDelta - LINE_BASE + OPCODE_BASE, needCopy) + rest, r)
            == Prepend(r', Rows(rest, Cleared(r')))
  {
    hide Rows;
    var tmp := lineDelta - LINE_BASE + OPCODE_BASE;
    if lineDelta == 0 && addrDelta == 0 {
      RunCopy(rest, r);
    } else if addrDelta < 256 + MAX_SPECIAL_ADDR_DELTA && Special(tmp, addrDelta) <= 255 {
      RunSpecialFor(lineDelta, addrDelta, rest, r);
    } else if addrDelta < 256 + MAX_SPECIAL_ADDR_DELTA && Special(tmp, addrDelta - MAX_SPECIAL_ADDR_DELTA) <= 255 {
      LateSpecial(tmp, addrDelta);
      TwoOpcodesRun(lineDelta, addrDelta, rest, r);
    } else {
      LongRuns(lineDelta, addrDelta, needCopy, rest, r);
    }
  }

  lemma {:induction false} TwoOpcodesRun(lineDelta: int, addrDelta: nat, rest: seq<byte>, r: Regs)
    requires LINE_BASE <= lineDelta < LINE_BASE + LINE_RANGE
    requires MAX_SPECIAL_ADDR_DELTA <= addrDelta < 256 + MAX_SPECIAL_ADDR_DELTA
    requires Special(lineDelta - LINE_BASE + OPCODE_BASE, addrDelta - MAX_SPECIAL_ADDR_DELTA) <= 255
    ensures var r' := Advanced(r, addrDelta, lineDelta);
            var op := Special(lineDelta - LINE_BASE + OPCODE_BASE, addrDelta - MAX_SPECIAL_ADDR_DELTA);
            Rows([LNS_const_add_pc, op] + rest, r) == Prepend(r', Rows(rest, Cleared(r')))
  {
    hide Rows;
    var op := Special(lineDelta - LINE_BASE + OPCODE_BASE, addrDelta - MAX_SPECIAL_ADDR_DELTA);
    var mid := Advanced(r, MAX_SPECIAL_ADDR_DELTA, 0);
    assert [LNS_const_add_pc, op] + rest == [LNS_const_add_pc] + ([op] + rest);
    RunConstAddPc([op] + rest, r);
    RunSpecialFor(lineDelta, addrDelta - MAX_SPECIAL_ADDR_DELTA, rest, mid);
    AdvancedTwice(r, MAX_SPECIAL_ADDR_DELTA, 0, addrDelta - MAX_SPECIAL_ADDR_DELTA, lineDelta);
  }

  lemma {:induction false} RunConstAddPc(rest: seq<byte>, r: Regs)
    ensures Rows([LNS_const_add_pc] + rest, r) == Rows(rest, Advanced(r, MAX_SPECIAL_ADDR_DELTA, 0))
  {
    assert ([LNS_const_add_pc] + rest)[1..] == rest;
  }

  lemma {:induction false} LongRuns(lineDelta: int, addrDelta: nat, needCopy: bool, rest: seq<byte>, r: Regs)
    requires InRange(r) && LINE_BASE <= lineDelta < LINE_BASE + LINE_RANGE && (needCopy ==> lineDelta == 0)
    ensures var r' := Advanced(r, addrDelta, lineDelta);
            var tmp := lineDelta - LINE_BASE + OPCODE_BASE;
            Rows([LNS_advance_pc] + Uleb(addrDelta) + [if needCopy then LNS_copy else tmp] + rest, r)
            == Prepend(r', Rows(rest, Cleared(r')))
  {
    hide Rows;
    var last: byte := if needCopy then LNS_copy else lineDelta - LINE_BASE + OPCODE_BASE;
    var mid := Advanced(r, addrDelta, 0);
    assert [LNS_advance_pc] + Uleb(addrDelta) + [last] + rest == [LNS_advance_pc] + Uleb(addrDelta) + ([last] + rest);
    RunOperand(LNS_advance_pc, addrDelta, [last] + rest, r);
    AdvancedTwice(r, addrDelta, 0, 0, lineDelta);
    if needCopy {
      RunCopy(rest, mid);
    } else {
      assert last == Special(last, 0);
      RunSpecialFor(lineDelta, 0, rest, mid);
    }
  }

  lemma {:induction false} RunCopy(rest: seq<byte>, r: Regs)
    requires InRange(r)
    ensures Rows([LNS_copy] + rest, r) == Prepend(r, Rows(rest, Cleared(r))) && r == Advanced(r, 0, 0)
  {
    assert ([LNS_copy] + rest)[1..] == rest;
  }

  /** For small address deltas the first special opcode is always available. */
  lemma {:induction false} LateSpecial(tmp: int, addrDelta: nat)
    requires OPCODE_BASE <= tmp < OPCODE_BASE + LINE_RANGE && Special(tmp, addrDelta) > 255
    ensures addrDelta >= MAX_SPECIAL_ADDR_DELTA
  {
  }

  lemma {:induction false} RunSpecialFor(lineDelta: int, addrDelta: nat, rest: seq<byte>, r: Regs)
    requires LINE_BASE <= lineDelta < LINE_BASE + LINE_RANGE && addrDelta < 256 + MAX_SPECIAL_ADDR_DELTA
    requires Special(lineDelta - LINE_BASE + OPCODE_BASE, addrDelta) <= 255
    ensures var r' := Advanced(r, addrDelta, lineDelta);
            Rows([Special(lineDelta - LINE_BASE + OPCODE_BASE, addrDelta)] + rest, r) == Prepend(r', Rows(rest, Cleared(r')))
  {
    var op := Special(lineDelta - LINE_BASE + OPCODE_BASE, addrDelta);
    assert op == lineDelta - LINE_BASE + OPCODE_BASE + addrDelta * LINE_RANGE;
    assert (op - OPCODE_BASE) / LINE_RANGE == addrDelta && (op - OPCODE_BASE) % LINE_RANGE == lineDelta - LINE_BASE;
    RunSpecial(op, rest, r);
  }

  /** An advance appends exactly one row, the given number of lines and addresses further on. */
  lemma {:induction false} AdvanceRuns(lineDelta: int, addrDelta: nat, rest: seq<byte>, r: Regs)
    requires IsInt(lineDelta) && lineDelta != INT_MAX && InRange(r)
    ensures var r' := Advanced(r, addrDelta, lineDelta);
            Rows(Advance(lineDelta, addrDelta) + rest, r) == Prepend(r', Rows(rest, Cleared(r')))
  {
    hide Rows, AddrBytes;
    BiasedExact(lineDelta);
    if NeedsAdvanceLine(lineDelta) {
      FarAdvanceRuns(lineDelta, addrDelta, rest, r);
    } else {
      AddrRuns(lineDelta, addrDelta, false, rest, r);
    }
  }

  lemma {:induction false} BiasedExact(lineDelta: int)
    requires IsInt(lineDelta)
    ensures if LINE_BASE <= lineDelta < LINE_BASE + LINE_RANGE
            then !NeedsAdvanceLine(lineDelta) && Biased(lineDelta) == lineDelta - LINE_BASE
            else NeedsAdvanceLine(lineDelta)
  {
  }

  lemma {:induction false} FarAdvanceRuns(lineDelta: int, addrDelta: nat, rest: seq<byte>, r: Regs)
    requires InRange(r)
    ensures var r' := Advanced(r, addrDelta, lineDelta);
            Rows([LNS_advance_line] + Sleb(lineDelta) + AddrBytes(0, addrDelta, OPCODE_BASE - LINE_BASE, true) + rest, r)
            == Prepend(r', Rows(rest, Cleared(r')))
  {
    hide Rows, AddrBytes;
    var tail := AddrBytes(0, addrDelta, OPCODE_BASE - LINE_BASE, true);
    var head := [LNS_advance_line] + Sleb(lineDelta);
    assert head + tail + rest == head + (tail + rest);
    RunAdvanceLine(lineDelta, tail + rest, r);
    AddrRuns(0, addrDelta, true, rest, Advanced(r, 0, lineDelta));
    AdvancedTwice(r, 0, lineDelta, addrDelta, 0);
  }

  /** The end marker appends the end-of-sequence row and resets the machine. */
  lemma {:induction false} EndRuns(addrDelta: nat, rest: seq<byte>, r: Regs)
    requires InRange(r)
    ensures Rows(Advance(INT_MAX, addrDelta) + rest, r) ==
            Prepend(Advanced(r, addrDelta, 0).(endSequence := true), Rows(rest, Initial))
  {
    hide Rows;
    var mid := Advanced(r, addrDelta, 0);
    var tail := EndSequence + rest;
    if addrDelta == MAX_SPECIAL_ADDR_DELTA {
      assert Advance(INT_MAX, addrDelta) + rest == [LNS_const_add_pc] + tail;
      RunConstAddPc(tail, r);
    } else {
      assert Advance(INT_MAX, addrDelta) + rest == [LNS_advance_pc] + Uleb(addrDelta) + tail;
      RunOperand(LNS_advance_pc, addrDelta, tail, r);
    }
    RunEnd(rest, mid);
  }

  lemma {:induction false} RunEnd(rest: seq<byte>, r: Regs)
    ensures Rows(EndSequence + rest, r) == Prepend(r.(endSequence := true), Rows(rest, Initial))
  {
    var s := EndSequence + rest;
    var body := [LNE_end_sequence] + rest;
    assert s[1..] == [1] + body && ([1] + body)[1..] == body;
    assert body[..1] == [LNE_end_sequence] && body[1..] == rest;
    assert StepExtended(s[1..], r) == Some(Ran(rest, Initial, Some(r.(endSequence := true))));
  }
}
