/**
 The line number state machine, section 6.2 of the DWARF 3 specification, with
 the parameters the assembler puts in its prologue.
 */
module LineMachine {
  import opened Arithmetic
  import opened Wrappers
  import opened Bytes
  import opened Leb128

  const OPCODE_BASE := 13
  const LINE_BASE := -5
  const LINE_RANGE := 14
  const DEFAULT_IS_STMT := true

  const MOD64 := 0x1_0000_0000_0000_0000

  const LNS_extended_op: byte := 0
  const LNS_copy: byte := 1
  const LNS_advance_pc: byte := 2
  const LNS_advance_line: byte := 3
  const LNS_set_file: byte := 4
  const LNS_set_column: byte := 5
  const LNS_negate_stmt: byte := 6
  const LNS_set_basic_block: byte := 7
  const LNS_const_add_pc: byte := 8
  const LNS_fixed_advance_pc: byte := 9
  const LNS_set_prologue_end: byte := 10
  const LNS_set_epilogue_begin: byte := 11
  const LNS_set_isa: byte := 12

  const LNE_end_sequence: byte := 1
  const LNE_set_address: byte := 2

  /** The registers; a row of the line table is a copy of them. Addresses have 64 bits and lines 32. */
  datatype Regs = Regs(
    address: int, file: int, line: int, column: int, isStmt: bool,
    basicBlock: bool, endSequence: bool, prologueEnd: bool, epilogueBegin: bool, isa: int)

  const Initial := Regs(0, 1, 1, 0, DEFAULT_IS_STMT, false, false, false, false, 0)

  function Advanced(r: Regs, pc: int, lines: int): Regs {
    r.(address := (r.address + pc) % MOD64, line := (r.line + lines) % MOD32)
  }

  /** What follows the appending of a row. */
  function Cleared(r: Regs): Regs { r.(basicBlock := false, prologueEnd := false, epilogueBegin := false) }

  /** One instruction: the bytes after it, the registers and the row it appends, if any. */
  datatype Ran = Ran(rest: seq<byte>, regs: Regs, row: Option<Regs>)

  /** Section 6.2.5.3. */
  function StepExtended(s: seq<byte>, r: Regs): (x: Option<Ran>)
    ensures x.Some? ==> |x.value.rest| < |s|
  {
    var n := DecodeUleb(s);
    if n.None? || n.value.value == 0 || n.value.value > |n.value.rest| then None
    else
      var body, rest := n.value.rest[..n.value.value], n.value.rest[n.value.value..];
      if body[0] == LNE_end_sequence then Some(Ran(rest, Initial, Some(r.(endSequence := true))))
      else if body[0] == LNE_set_address then Some(Ran(rest, r.(address := LittleEndian(body[1..]) % MOD64), None))
      else Some(Ran(rest, r, None))
  }

  /** Section 6.2.5.2, the opcodes with one number after them. */
  function StepOperand(op: byte, s: seq<byte>, r: Regs): (x: Option<Ran>)
    requires op in {LNS_advance_pc, LNS_advance_line, LNS_set_file, LNS_set_column, LNS_set_isa}
    ensures x.Some? ==> |x.value.rest| < |s|
  {
    var n := if op == LNS_advance_line then DecodeSleb(s) else DecodeUleb(s);
    if n.None? then None
    else
      var v := n.value.value;
      Some(Ran(n.value.rest,
               if op == LNS_advance_pc then Advanced(r, v, 0)
               else if op == LNS_advance_line then Advanced(r, 0, v)
               else if op == LNS_set_file then r.(file := v)
               else if op == LNS_set_column then r.(column := v)
               else r.(isa := v), None))
  }

  /** One instruction. */
  function Step(s: seq<byte>, r: Regs): (x: Option<Ran>)
    ensures x.Some? ==> |x.value.rest| < |s|
  {
    if s == [] then None
    else
      var op, rest := s[0], s[1..];
      if op >= OPCODE_BASE then
        var adjusted := op - OPCODE_BASE;
        var r' := Advanced(r, adjusted / LINE_RANGE, LINE_BASE + adjusted % LINE_RANGE);
        Some(Ran(rest, Cleared(r'), Some(r')))
      else if op == LNS_extended_op then StepExtended(rest, r)
      else if op == LNS_copy then Some(Ran(rest, Cleared(r), Some(r)))
      else if op == LNS_negate_stmt then Some(Ran(rest, r.(isStmt := !r.isStmt), None))
      else if op == LNS_set_basic_block then Some(Ran(rest, r.(basicBlock := true), None))
      else if op == LNS_const_add_pc then Some(Ran(rest, Advanced(r, (255 - OPCODE_BASE) / LINE_RANGE, 0), None))
      else if op == LNS_fixed_advance_pc then
        if |rest| < 2 then None else Some(Ran(rest[2..], Advanced(r, LittleEndian(rest[..2]), 0), None))
      else if op == LNS_set_prologue_end then Some(Ran(rest, r.(prologueEnd := true), None))
      else if op == LNS_set_epilogue_begin then Some(Ran(rest, r.(epilogueBegin := true), None))
      else StepOperand(op, rest, r)
  }

  /** The table a program describes; None when it is malformed. */
  function Rows(s: seq<byte>, r: Regs): Option<seq<Regs>>
    decreases |s|
  {
    if s == [] then Some([])
    else
      var x := Step(s, r);
      if x.None? then None
      else
        var more := Rows(x.value.rest, x.value.regs);
        if more.None? then None
        else if x.value.row.None? then more
        else Some([x.value.row.value] + more.value)
  }

  function Prepend(row: Regs, more: Option<seq<Regs>>): Option<seq<Regs>> {
    if more.None? then None else Some([row] + more.value)
  }
}
