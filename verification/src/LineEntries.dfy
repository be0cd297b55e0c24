/**
 process_entries: the line program for the entries of one section, and the
 proof that the state machine reads back one row per entry and the end row.
 */
module LineEntries {
  import opened Arithmetic
  import opened Wrappers
  import opened Bytes
  import opened Leb128
  import opened LineMachine
  import opened LineProgram

  /** A line entry: where it is and what was current there. */
  datatype Entry = Entry(
    address: nat, file: nat, line: nat, column: nat, isa: nat,
    isStmt: bool, basicBlock: bool, prologueEnd: bool, epilogueBegin: bool)

  /** What the encoder believes the registers to hold; no address before the first entry. */
  datatype Cursor = Cursor(file: nat, line: nat, column: nat, isa: nat, isStmt: bool, address: Option<nat>)

  const Fresh := Cursor(1, 1, 0, 0, DEFAULT_IS_STMT, None)

  function Moved(e: Entry): Cursor { Cursor(e.file, e.line, e.column, e.isa, e.isStmt, Some(e.address)) }

  /** `e->loc.line - line`, computed on unsigned ints and stored in an int. */
  function LineDelta(c: Cursor, e: Entry): int { Signed32(e.line - c.line) }

  // Each of the following writes its bytes in front of what comes next.

  function Operand(op: byte, n: nat, next: seq<byte>): seq<byte> { [op] + Uleb(n) + next }

  function SetAddress(a: nat, next: seq<byte>): seq<byte> {
    [LNS_extended_op, 9, LNE_set_address] + LeBytes(a, 8) + next
  }

  function Registers(c: Cursor, e: Entry, next: seq<byte>): seq<byte> {
    var stmt := if c.isStmt != e.isStmt then [LNS_negate_stmt] + next else next;
    var isa := if c.isa != e.isa then Operand(LNS_set_isa, e.isa, stmt) else stmt;
    var column := if c.column != e.column then Operand(LNS_set_column, e.column, isa) else isa;
    if c.file != e.file then Operand(LNS_set_file, e.file, column) else column
  }

  function Flags(e: Entry, next: seq<byte>): seq<byte> {
    var epilogue := if e.epilogueBegin then [LNS_set_epilogue_begin] + next else next;
    var prologue := if e.prologueEnd then [LNS_set_prologue_end] + epilogue else epilogue;
    if e.basicBlock then [LNS_set_basic_block] + prologue else prologue
  }

  function Place(c: Cursor, e: Entry, next: seq<byte>): seq<byte>
    requires c.address.Some? ==> c.address.value <= e.address
  {
    if c.address.None? then SetAddress(e.address, Advance(LineDelta(c, e), 0) + next)
    else Advance(LineDelta(c, e), e.address - c.address.value) + next
  }

  /** An address delta as emit_inc_line_addr accepts it: not negative as a signed 64-bit number. */
  predicate Gap(from: Option<nat>, to: nat) {
    to < MOD64 && (from.Some? ==> from.value <= to < from.value + MOD64 / 2)
  }

  /** Addresses never go down, and every field has its width. */
  predicate Ordered(from: Option<nat>, entries: seq<Entry>, end: nat)
    decreases |entries|
  {
    if entries == [] then Gap(from, end)
    else
      var e := entries[0];
      && Gap(from, e.address) && e.file < MOD32 && e.line < MOD32 && e.column < MOD32 && e.isa < MOD32
      && Ordered(Some(e.address), entries[1..], end)
  }

  function From(c: Cursor): nat { if c.address.Some? then c.address.value else 0 }

  /** The whole program. */
  function Program(c: Cursor, entries: seq<Entry>, end: nat): seq<byte>
    requires Ordered(c.address, entries, end)
    decreases |entries|
  {
    if entries == [] then Advance(INT_MAX, end - From(c))
    else
      var e := entries[0];
      Registers(c, e, Flags(e, Place(c, e, Program(Moved(e), entries[1..], end))))
  }

  // ----- the table it should describe -----

  function RowOf(e: Entry): Regs {
    Regs(e.address, e.file, e.line, e.column, e.isStmt, e.basicBlock, false, e.prologueEnd, e.epilogueBegin, e.isa)
  }

  function EndRow(c: Cursor, end: nat): Regs {
    Regs(end, c.file, c.line, c.column, c.isStmt, false, true, false, false, c.isa)
  }

  function Table(c: Cursor, entries: seq<Entry>, end: nat): (t: seq<Regs>)
    ensures |t| == |entries| + 1
    decreases |entries|
  {
    if entries == [] then [EndRow(c, end)] else [RowOf(entries[0])] + Table(Moved(entries[0]), entries[1..], end)
  }

  /** An entry whose line delta is taken for the end marker: 2^31-1 lines after the one before it, or 2^31+1 before it. */
  predicate FalseEnd(from: nat, to: nat) { to - from == INT_MAX || from - to == INT_MAX + 2 }

  lemma {:induction false} FalseEndExactly(c: Cursor, e: Entry)
    requires c.line < MOD32 && e.line < MOD32
    ensures LineDelta(c, e) == INT_MAX <==> FalseEnd(c.line, e.line)
  {
  }

  predicate NoFalseEnd(c: Cursor, entries: seq<Entry>)
    decreases |entries|
  {
    entries == [] || (!FalseEnd(c.line, entries[0].line) && NoFalseEnd(Moved(entries[0]), entries[1..]))
  }

  // ----- running it -----

  /** The registers hold what the encoder believes. */
  predicate Holds(c: Cursor, r: Regs) {
    r == Regs(From(c), c.file, c.line, c.column, c.isStmt, false, false, false, false, c.isa)
  }

  lemma {:induction false} RunRegisters(c: Cursor, e: Entry, next: seq<byte>, r: Regs)
    requires Holds(c, r)
    ensures Rows(Registers(c, e, next), r)
            == Rows(next, r.(file := e.file, column := e.column, isa := e.isa, isStmt := e.isStmt))
  {
    hide Rows;
    var stmt := if c.isStmt != e.isStmt then [LNS_negate_stmt] + next else next;
    var isa := if c.isa != e.isa then Operand(LNS_set_isa, e.isa, stmt) else stmt;
    var column := if c.column != e.column then Operand(LNS_set_column, e.column, isa) else isa;
    var r1 := r.(file := e.file);
    var r2 := r1.(column := e.column);
    var r3 := r2.(isa := e.isa);
    if c.file != e.file { RunOperand(LNS_set_file, e.file, column, r); }
    if c.column != e.column { RunOperand(LNS_set_column, e.column, isa, r1); }
    if c.isa != e.isa { RunOperand(LNS_set_isa, e.isa, stmt, r2); }
    RunFlag(LNS_negate_stmt, next, r3);
  }

  /** The opcodes without operands that only set a flag. */
  lemma {:induction false} RunFlag(op: byte, next: seq<byte>, r: Regs)
    requires op in {LNS_negate_stmt, LNS_set_basic_block, LNS_set_prologue_end, LNS_set_epilogue_begin}
    ensures Rows([op] + next, r) ==
            Rows(next, if op == LNS_negate_stmt then r.(isStmt := !r.isStmt)
                       else if op == LNS_set_basic_block then r.(basicBlock := true)
                       else if op == LNS_set_prologue_end then r.(prologueEnd := true)
                       else r.(epilogueBegin := true))
  {
    assert ([op] + next)[1..] == next;
  }

  lemma {:induction false} RunFlags(e: Entry, next: seq<byte>, r: Regs)
    requires !r.basicBlock && !r.prologueEnd && !r.epilogueBegin
    ensures Rows(Flags(e, next), r)
            == Rows(next, r.(basicBlock := e.basicBlock, prologueEnd := e.prologueEnd, epilogueBegin := e.epilogueBegin))
  {
    hide Rows;
    var epilogue := if e.epilogueBegin then [LNS_set_epilogue_begin] + next else next;
    var prologue := if e.prologueEnd then [LNS_set_prologue_end] + epilogue else epilogue;
    var r1 := r.(basicBlock := e.basicBlock);
    var r2 := r1.(prologueEnd := e.prologueEnd);
    RunFlag(LNS_set_basic_block, prologue, r);
    RunFlag(LNS_set_prologue_end, epilogue, r1);
    RunFlag(LNS_set_epilogue_begin, next, r2);
  }

  lemma {:induction false} RunSetAddress(a: nat, next: seq<byte>, r: Regs)
    requires a < MOD64
    ensures Rows(SetAddress(a, next), r) == Rows(next, r.(address := a))
  {
    hide LeBytes, LittleEndian;
    var s := SetAddress(a, next);
    var body := [LNE_set_address] + LeBytes(a, 8);
    assert s == [LNS_extended_op, 9] + (body + next);
    assert s[1..] == [9] + (body + next);
    assert ([9] + (body + next))[1..] == body + next;
    assert (body + next)[..9] == body && (body + next)[9..] == next && body[1..] == LeBytes(a, 8);
    AddressRoundTrip(a);
    assert StepExtended(s[1..], r) == Some(Ran(next, r.(address := a), None));
  }

  lemma {:induction false} AddressRoundTrip(a: nat)
    requires a < MOD64
    ensures LittleEndian(LeBytes(a, 8)) == a
  {
    assert Pow256(8) == MOD64;
    LeRoundTrip(a, 8);
  }

  /** The registers once an entry's own values are set. */
  function Loaded(c: Cursor, e: Entry): Regs {
    RowOf(e).(address := From(c), line := c.line)
  }

  lemma {:induction false} RunPrelude(c: Cursor, e: Entry, next: seq<byte>, r: Regs)
    requires Holds(c, r)
    ensures Rows(Registers(c, e, Flags(e, next)), r) == Rows(next, Loaded(c, e))
  {
    hide Rows, Registers, Flags;
    RunRegisters(c, e, Flags(e, next), r);
    RunFlags(e, next, r.(file := e.file, column := e.column, isa := e.isa, isStmt := e.isStmt));
  }

  /** Line numbers are recovered modulo 2^32, so exactly. */
  lemma {:induction false} LinesAdd(c: Cursor, e: Entry)
    requires c.line < MOD32 && e.line < MOD32
    ensures (c.line + LineDelta(c, e)) % MOD32 == e.line
  {
  }

  /** Placing an entry appends its row, unless its line delta looks like the end marker. */
  lemma {:induction false} RunPlace(c: Cursor, e: Entry, next: seq<byte>)
    requires Gap(c.address, e.address) && c.line < MOD32 && e.line < MOD32
    requires c.address.Some? ==> c.address.value < MOD64
    ensures LineDelta(c, e) != INT_MAX ==>
              Rows(Place(c, e, next), Loaded(c, e)) == Prepend(RowOf(e), Rows(next, Cleared(RowOf(e))))
    ensures LineDelta(c, e) == INT_MAX ==>
              exists row: Regs, more :: row.endSequence && Rows(Place(c, e, next), Loaded(c, e)) == Prepend(row, more)
  {
    hide Rows, Advance, SetAddress;
    var r := Loaded(c, e);
    var delta := LineDelta(c, e);
    LinesAdd(c, e);
    var at, gap := r, 0;
    if c.address.None? {
      RunSetAddress(e.address, Advance(delta, 0) + next, r);
      at := r.(address := e.address);
    } else {
      gap := e.address - c.address.value;
    }
    assert Rows(Place(c, e, next), r) == Rows(Advance(delta, gap) + next, at);
    if delta == INT_MAX {
      EndRuns(gap, next, at);
      var row := Advanced(at, gap, 0).(endSequence := true);
      assert row.endSequence && Rows(Place(c, e, next), r) == Prepend(row, Rows(next, Initial));
    } else {
      AdvanceRuns(delta, gap, next, at);
      assert Advanced(at, gap, delta) == RowOf(e);
    }
  }

  /** From any point of the chain on: the program describes the rest of the table, exactly when there is no false end. */
  lemma {:induction false} ProgramRuns(c: Cursor, entries: seq<Entry>, end: nat, r: Regs)
    requires Ordered(c.address, entries, end) && Holds(c, r) && c.line < MOD32 && From(c) < MOD64
    ensures Rows(Program(c, entries, end), r) == Some(Table(c, entries, end)) <==> NoFalseEnd(c, entries)
    decreases |entries|
  {
    if entries == [] {
      LastRuns(c, end, r);
    } else {
      hide Rows, Registers, Flags, Place, LineDelta, FalseEnd, Loaded, Cleared;
      var e, rest := entries[0], entries[1..];
      var next := Program(Moved(e), rest, end);
      FalseEndExactly(c, e);
      RunPrelude(c, e, Place(c, e, next), r);
      MovedHolds(e);
      ProgramRuns(Moved(e), rest, end, Cleared(RowOf(e)));
      EntryRuns(c, e, next, Table(Moved(e), rest, end));
    }
  }

  lemma {:induction false} MovedHolds(e: Entry)
    ensures Holds(Moved(e), Cleared(RowOf(e))) && Moved(e).line == e.line && From(Moved(e)) == e.address
  {
  }

  /** One entry and a table behind it: both come out unless the entry is a false end. */
  lemma {:induction false} EntryRuns(c: Cursor, e: Entry, next: seq<byte>, t: seq<Regs>)
    requires Gap(c.address, e.address) && c.line < MOD32 && e.line < MOD32
    requires c.address.Some? ==> c.address.value < MOD64
    ensures Rows(Place(c, e, next), Loaded(c, e)) == Some([RowOf(e)] + t)
            <==> LineDelta(c, e) != INT_MAX && Rows(next, Cleared(RowOf(e))) == Some(t)
  {
    hide Rows, Place, LineDelta, Loaded, Cleared;
    RunPlace(c, e, next);
    if LineDelta(c, e) == INT_MAX {
      var row: Regs, tail :| row.endSequence && Rows(Place(c, e, next), Loaded(c, e)) == Prepend(row, tail);
      if tail.Some? { assert ([row] + tail.value)[0] != ([RowOf(e)] + t)[0]; }
    } else {
      PrependCancels(RowOf(e), Rows(next, Cleared(RowOf(e))), t);
    }
  }

  lemma {:induction false} PrependCancels(row: Regs, more: Option<seq<Regs>>, t: seq<Regs>)
    ensures Prepend(row, more) == Some([row] + t) <==> more == Some(t)
  {
    if more.Some? && [row] + more.value == [row] + t {
      assert ([row] + more.value)[1..] == more.value && ([row] + t)[1..] == t;
    }
  }

  lemma {:induction false} LastRuns(c: Cursor, end: nat, r: Regs)
    requires Gap(c.address, end) && Holds(c, r) && c.line < MOD32 && From(c) < MOD64
    ensures Rows(Advance(INT_MAX, end - From(c)), r) == Some([EndRow(c, end)])
  {
    hide Rows, Advance;
    var bytes := Advance(INT_MAX, end - From(c));
    EndRuns(end - From(c), [], r);
    assert bytes + [] == bytes;
    assert Advanced(r, end - From(c), 0).(endSequence := true) == EndRow(c, end);
    NothingLeft(Initial);
    assert [EndRow(c, end)] + [] == [EndRow(c, end)];
  }

  lemma {:induction false} NothingLeft(r: Regs)
    ensures Rows([], r) == Some([])
  {
  }

  /**
   Line-program correctness: running the state machine on the program gives
   exactly one row per entry, in order, and then the end of the sequence, if and
   only if no entry lies 2^31-1 lines after its predecessor or 2^31+1 before it.
   */
  lemma {:induction false} ProgramDescribesEntries(entries: seq<Entry>, end: nat)
    requires entries != [] && Ordered(None, entries, end)
    ensures Rows(Program(Fresh, entries, end), Initial) == Some(Table(Fresh, entries, end)) <==> NoFalseEnd(Fresh, entries)
  {
    ProgramRuns(Fresh, entries, end, Initial);
  }

  /** The exception is real: a first entry at line 2^31 is taken for the end of the sequence. */
  lemma {:induction false} FalseEndExists()
    ensures exists entries: seq<Entry>, end: nat ::
              Ordered(None, entries, end) && Rows(Program(Fresh, entries, end), Initial) != Some(Table(Fresh, entries, end))
  {
    var entries := [Entry(0, 1, 0x8000_0000, 0, 0, true, false, false, false)];
    assert entries[1..] == [];
    assert Ordered(None, entries, 0);
    assert FalseEnd(Fresh.line, entries[0].line);
    ProgramRuns(Fresh, entries, 0, Initial);
  }

  // ----- the encoder's loop -----

  /** out_inc_line_addr. */
  method OutIncLineAddr(lineDelta: int, addrDelta: nat) returns (bytes: seq<byte>)
    requires IsInt(lineDelta)
    ensures bytes == Advance(lineDelta, addrDelta)
  {
    var len := SizeIncLineAddr(lineDelta, addrDelta);
    var frag := new byte[len];
    EmitIncLineAddr(lineDelta, addrDelta, frag, 0, len);
    bytes := frag[..];
  }

  method OutUleb(value: nat) returns (bytes: seq<byte>)
    ensures bytes == Uleb(value)
  {
    var len := SizeofUleb(value);
    var frag := new byte[len];
    var _ := OutputUleb(frag, 0, value);
    bytes := frag[..];
  }

  method OutOperand(out: seq<byte>, op: byte, value: nat, ghost next: seq<byte>) returns (more: seq<byte>)
    ensures more + next == out + Operand(op, value, next)
  {
    var n := OutUleb(value);
    more := out + [op] + n;
    assert more + next == out + ([op] + n + next);
  }

  method OutOpcode(out: seq<byte>, op: byte, ghost next: seq<byte>) returns (more: seq<byte>)
    ensures more + next == out + ([op] + next)
  {
    more := out + [op];
  }

  /** The opcodes for what has changed since the last entry. */
  method OutRegisters(out: seq<byte>, c: Cursor, e: Entry, ghost next: seq<byte>) returns (more: seq<byte>)
    ensures more + next == out + Registers(c, e, next)
  {
    hide Operand;
    ghost var stmt := if c.isStmt != e.isStmt then [LNS_negate_stmt] + next else next;
    ghost var isa := if c.isa != e.isa then Operand(LNS_set_isa, e.isa, stmt) else stmt;
    ghost var column := if c.column != e.column then Operand(LNS_set_column, e.column, isa) else isa;
    more := out;
    if c.file != e.file {
      more := OutOperand(more, LNS_set_file, e.file, column);
    }
    if c.column != e.column {
      more := OutOperand(more, LNS_set_column, e.column, isa);
    }
    if c.isa != e.isa {
      more := OutOperand(more, LNS_set_isa, e.isa, stmt);
    }
    if c.isStmt != e.isStmt {
      more := OutOpcode(more, LNS_negate_stmt, next);
    }
  }

  /** The opcodes for the flags of an entry. */
  method OutFlags(out: seq<byte>, e: Entry, ghost next: seq<byte>) returns (more: seq<byte>)
    ensures more + next == out + Flags(e, next)
  {
    ghost var epilogue := if e.epilogueBegin then [LNS_set_epilogue_begin] + next else next;
    ghost var prologue := if e.prologueEnd then [LNS_set_prologue_end] + epilogue else epilogue;
    more := out;
    if e.basicBlock {
      more := OutOpcode(more, LNS_set_basic_block, prologue);
    }
    if e.prologueEnd {
      more := OutOpcode(more, LNS_set_prologue_end, epilogue);
    }
    if e.epilogueBegin {
      more := OutOpcode(more, LNS_set_epilogue_begin, next);
    }
  }

  method OutSetAddr(a: nat) returns (bytes: seq<byte>)
    ensures bytes == [LNS_extended_op, 9, LNE_set_address] + LeBytes(a, 8)
  {
    var n := OutUleb(8 + 1);
    bytes := [LNS_extended_op] + n + [LNE_set_address] + LeBytes(a, 8);
    assert Uleb(9) == [9];
  }

  /** The address and line of an entry. */
  method OutPlace(out: seq<byte>, c: Cursor, e: Entry, ghost next: seq<byte>) returns (more: seq<byte>)
    requires c.address.Some? ==> c.address.value <= e.address
    ensures more + next == out + Place(c, e, next)
  {
    hide Advance;
    var lineDelta := LineDelta(c, e);
    if c.address.None? {
      var address := OutSetAddr(e.address);
      var advance := OutIncLineAddr(lineDelta, 0);
      more := out + address + advance;
      assert more + next == out + (address + (advance + next));
    } else {
      var advance := OutIncLineAddr(lineDelta, e.address - c.address.value);
      more := out + advance;
      assert more + next == out + (advance + next);
    }
  }

  /** One entry of the chain. */
  method OutEntry(out: seq<byte>, c: Cursor, e: Entry, ghost next: seq<byte>) returns (more: seq<byte>)
    requires c.address.Some? ==> c.address.value <= e.address
    ensures more + next == out + Registers(c, e, Flags(e, Place(c, e, next)))
  {
    hide Registers, Flags, Place;
    more := OutRegisters(out, c, e, Flags(e, Place(c, e, next)));
    more := OutFlags(more, e, Place(c, e, next));
    more := OutPlace(more, c, e, next);
  }

  /** The loop over the chain, and the end marker. */
  method ProcessEntries(entries: seq<Entry>, end: nat) returns (out: seq<byte>)
    requires entries != [] && Ordered(None, entries, end)
    ensures out == Program(Fresh, entries, end)
  {
    hide Registers, Flags, Place, Advance;
    out := [];
    var c := Fresh;
    var i := 0;
    assert entries[0..] == entries;
    while i < |entries|
      invariant 0 <= i <= |entries| && Ordered(c.address, entries[i..], end)
      invariant i > 0 ==> c.address.Some?
      invariant out + Program(c, entries[i..], end) == Program(Fresh, entries, end)
    {
      var e := entries[i];
      assert entries[i..][0] == e && entries[i..][1..] == entries[i + 1..];
      out := OutEntry(out, c, e, Program(Moved(e), entries[i + 1..], end));
      c := Moved(e);
      i := i + 1;
    }
    assert entries[i..] == [];
    var last := OutIncLineAddr(INT_MAX, end - c.address.value);
    out := out + last;
  }
}
