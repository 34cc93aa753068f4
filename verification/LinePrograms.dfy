/** The two line-number interpreters of readelf-mini/dwarf.c, display_debug_lines_raw and
    display_debug_lines_decoded (section 6.2.5 of DWARF 3), from the first statement of a unit on.
    They are two switches in the source and two functions here. What they read only to print it counts
    too, since it may not be there: operands past the section, and entries the unit's tables lack. */
module LinePrograms {
  import opened Machine
  import opened ByteOrder
  import Leb128

  const EXTENDED_OP := 0
  const COPY := 1
  const ADVANCE_PC := 2
  const ADVANCE_LINE := 3
  const SET_FILE := 4
  const SET_COLUMN := 5
  const NEGATE_STMT := 6
  const SET_BASIC_BLOCK := 7
  const CONST_ADD_PC := 8
  const FIXED_ADVANCE_PC := 9
  const SET_PROLOGUE_END := 10
  const SET_EPILOGUE_BEGIN := 11
  const SET_ISA := 12

  const END_SEQUENCE := 1
  const SET_ADDRESS := 2
  const DEFINE_FILE := 3
  const SET_DISCRIMINATOR := 4

  /** state_machine_regs, without last_file_entry and end_sequence. */
  datatype Regs = Regs(address: nat, file: nat, line: nat, column: nat, isStmt: nat, basicBlock: nat)

  /** The header of the unit; stdOpcodes is the offset of the table of operand counts. */
  datatype Info = Info(order: Order, minInsn: byte, defaultIsStmt: byte, lineBase: int, lineRange: byte, opcodeBase: byte, stdOpcodes: nat)

  /** The unit's tables as the decoded dump saves them: how many directories, and each file's directory. */
  datatype Tables = Tables(dirs: nat, fileDirs: seq<nat>)

  datatype Fault = Overrun | DivideByZero | Aborted | Backwards | NoEntry

  datatype Outcome = At(pos: nat, regs: Regs) | Stopped(fault: Fault)

  function Reset(info: Info): Regs { Regs(0, 1, 1, 0, info.defaultIsStmt, 0) }

  function AddAddress(r: Regs, n: nat): Regs { r.(address := (r.address + n) % TWO_64) }

  function AddLine(r: Regs, n: int): Regs { r.(line := (r.line + n) % TWO_32) }

  /** The address advance of an adjusted opcode. */
  function Advance(info: Info, adjusted: nat): nat
    requires info.lineRange > 0
  {
    QuotientNonNegative(adjusted, info.lineRange);
    adjusted / info.lineRange * info.minInsn
  }

  /** Reading n LEB128 operands only to step over them. */
  function SkipLebs(sec: seq<byte>, p: nat, n: nat): (q: Option<nat>)
    ensures q.Some? ==> p <= q.value
    decreases n
  {
    if n == 0 then Some(p)
    else
      match Leb128.End(sec, p)
      case None => None
      case Some(q) => SkipLebs(sec, q, n - 1)
  }

  /** One past the NUL of the string at p. */
  function StringEnd(sec: seq<byte>, p: nat): (r: Option<nat>)
    ensures r.Some? ==> p < r.value <= |sec| && sec[r.value - 1] == 0 && 0 !in sec[p..r.value - 1]
    decreases |sec| - p
  {
    if p >= |sec| then None
    else if sec[p] == 0 then Some(p + 1)
    else
      match StringEnd(sec, p + 1)
      case None => None
      case Some(e) =>
        assert sec[p..e - 1] == [sec[p]] + sec[p + 1..e - 1];
        Some(e)
  }

  datatype FileEntry = FileEntry(name: nat, dir: nat, date: nat, length: nat)

  /** An entry of the file table, or of DW_LNE_define_file: a name and three LEB128 values. */
  function FileAt(sec: seq<byte>, p: nat): (r: Option<(FileEntry, nat)>)
    ensures r.Some? ==> p < r.value.1
  {
    match StringEnd(sec, p)
    case None => None
    case Some(q) =>
      match Leb128.ReadUnsigned(sec, q)
      case Overrun => None
      case Got(dir, q1) =>
        match Leb128.ReadUnsigned(sec, q1)
        case Overrun => None
        case Got(date, q2) =>
          match Leb128.ReadUnsigned(sec, q2)
          case Overrun => None
          case Got(length, q3) => Some((FileEntry(p, dir % TWO_32, date % TWO_32, length % TWO_32), q3))
  }

  // ----- the raw dump -----

  /** process_extended_line_op: the registers it leaves and the int it returns, here reinterpreted
      as the amount the caller adds to its pointer. */
  function RawExtended(sec: seq<byte>, info: Info, p: nat, r: Regs): Outcome
  {
    match Leb128.ReadUnsigned(sec, p)
    case Overrun => Stopped(Overrun)
    case Got(v, q) =>
      var len := v % TWO_32;
      var bytesRead := q - p;
      if len == 0 then At(p + bytesRead, r)
      else if q >= |sec| then Stopped(Overrun)
      else
        var total := (len + bytesRead) % TWO_32;
        var regs :=
          if sec[q] == END_SEQUENCE then At(0, Reset(info))
          else if sec[q] == SET_ADDRESS then
            var size := len - 1;
            if !KnownSize(size) then Stopped(Aborted)
            else if q + 1 + size > |sec| then Stopped(Overrun)
            else At(0, r.(address := FieldValue(info.order, sec[q + 1..q + 1 + size])))
          else if sec[q] == DEFINE_FILE && FileAt(sec, q + 1) == None then Stopped(Overrun)
          else if sec[q] == SET_DISCRIMINATOR && Leb128.End(sec, q + 1) == None then Stopped(Overrun)
          else At(0, r);
        if regs.Stopped? then regs
        else if total >= TWO_31 then Stopped(Backwards)
        else At(p + total, regs.regs)
  }

  function RawStep(sec: seq<byte>, info: Info, pos: nat, r: Regs): (o: Outcome)
    ensures o.At? ==> pos < o.pos
    ensures o != Stopped(NoEntry)
  {
    if pos >= |sec| then Stopped(Overrun)
    else
      var op, p := sec[pos], pos + 1;
      if op >= info.opcodeBase then
        if info.lineRange == 0 then Stopped(DivideByZero)
        else
          var a := op - info.opcodeBase;
          At(p, AddLine(AddAddress(r, Advance(info, a)), a % info.lineRange + info.lineBase))
      else if op == EXTENDED_OP then RawExtended(sec, info, p, r)
      else if op == COPY then At(p, r)
      else if op == ADVANCE_PC then
        match Leb128.ReadUnsigned(sec, p)
        case Overrun => Stopped(Overrun)
        case Got(v, q) => At(q, AddAddress(r, v * info.minInsn))
      else if op == ADVANCE_LINE then
        match Leb128.ReadSigned(sec, p)
        case Overrun => Stopped(Overrun)
        case Got(v, q) => At(q, AddLine(r, v))
      else if op == SET_FILE then
        match Leb128.ReadUnsigned(sec, p)
        case Overrun => Stopped(Overrun)
        case Got(v, q) => At(q, r.(file := v % TWO_32))
      else if op == SET_COLUMN then
        match Leb128.ReadUnsigned(sec, p)
        case Overrun => Stopped(Overrun)
        case Got(v, q) => At(q, r.(column := v % TWO_32))
      else if op == NEGATE_STMT then At(p, r.(isStmt := if r.isStmt == 0 then 1 else 0))
      else if op == SET_BASIC_BLOCK then At(p, r.(basicBlock := 1))
      else if op == CONST_ADD_PC then
        if info.lineRange == 0 then Stopped(DivideByZero)
        else At(p, AddAddress(r, Advance(info, 255 - info.opcodeBase)))
      else if op == FIXED_ADVANCE_PC then
        if p + 2 > |sec| then Stopped(Overrun)
        else At(p + 2, AddAddress(r, FieldValue(info.order, sec[p..p + 2])))
      else if op == SET_PROLOGUE_END then At(p, r)
      else if op == SET_EPILOGUE_BEGIN then At(p, r)
      else if op == SET_ISA then
        match Leb128.End(sec, p)
        case None => Stopped(Overrun)
        case Some(q) => At(q, r)
      else if info.stdOpcodes + op - 1 >= |sec| then Stopped(Overrun)
      else
        match SkipLebs(sec, p, sec[info.stdOpcodes + op - 1])
        case None => Stopped(Overrun)
        case Some(q) => At(q, r)
  }

  // ----- the decoded dump -----

  /** file_table[file - 1], in an unsigned int. */
  predicate HasFile(t: Tables, file: nat) { (file - 1) % TWO_32 < |t.fileDirs| }

  /** And the directory its entry names, which counts from 1. */
  predicate HasNames(t: Tables, file: nat)
  {
    HasFile(t, file) && t.fileDirs[(file - 1) % TWO_32] <= t.dirs
  }

  function DecodedExtended(sec: seq<byte>, info: Info, t: Tables, p: nat, r: Regs): (o: Outcome)
    ensures o.At? ==> p <= o.pos
    ensures o != Stopped(Backwards)
  {
    match Leb128.ReadUnsigned(sec, p)
    case Overrun => Stopped(Overrun)
    case Got(v, q) =>
      var len := v % TWO_32;
      if len == 0 then At(p, r)
      else if q >= |sec| then Stopped(Overrun)
      else
        var data := p + (len + (q - p)) % TWO_32;
        if sec[q] == END_SEQUENCE then At(data, Reset(info))
        else if sec[q] == SET_ADDRESS then
          if !KnownSize(len - 1) then Stopped(Aborted)
          else if q + len > |sec| then Stopped(Overrun)
          else At(data, r.(address := FieldValue(info.order, sec[q + 1..q + len])))
        else if sec[q] == DEFINE_FILE then
          match FileAt(sec, q + 1)
          case None => Stopped(Overrun)
          case Some((f, _)) => if f.dir < t.dirs then At(data, r) else Stopped(NoEntry)
        else At(data, r)
  }

  /** A row is printed with the name of its file. */
  function Printed(t: Tables, p: nat, r: Regs): Outcome { if HasFile(t, r.file) then At(p, r) else Stopped(NoEntry) }

  function DecodedStep(sec: seq<byte>, info: Info, t: Tables, pos: nat, r: Regs): (o: Outcome)
    ensures o.At? ==> pos < o.pos
    ensures o != Stopped(Backwards)
  {
    if pos >= |sec| then Stopped(Overrun)
    else
      var op, p := sec[pos], pos + 1;
      if op >= info.opcodeBase then
        if info.lineRange == 0 then Stopped(DivideByZero)
        else
          var a := op - info.opcodeBase;
          Printed(t, p, AddLine(AddAddress(r, Advance(info, a)), a % info.lineRange + info.lineBase))
      else if op == EXTENDED_OP then DecodedExtended(sec, info, t, p, r)
      else if op == COPY then Printed(t, p, r)
      else if op == ADVANCE_PC then
        match Leb128.ReadUnsigned(sec, p)
        case Overrun => Stopped(Overrun)
        case Got(v, q) => At(q, AddAddress(r, v * info.minInsn))
      else if op == ADVANCE_LINE then
        match Leb128.ReadSigned(sec, p)
        case Overrun => Stopped(Overrun)
        case Got(v, q) => At(q, AddLine(r, v))
      else if op == SET_FILE then
        match Leb128.ReadUnsigned(sec, p)
        case Overrun => Stopped(Overrun)
        case Got(v, q) => if HasNames(t, v % TWO_32) then At(q, r.(file := v % TWO_32)) else Stopped(NoEntry)
      else if op == SET_COLUMN then
        match Leb128.ReadUnsigned(sec, p)
        case Overrun => Stopped(Overrun)
        case Got(v, q) => At(q, r.(column := v % TWO_32))
      else if op == NEGATE_STMT then At(p, r.(isStmt := if r.isStmt == 0 then 1 else 0))
      else if op == SET_BASIC_BLOCK then At(p, r.(basicBlock := 1))
      else if op == CONST_ADD_PC then
        if info.lineRange == 0 then Stopped(DivideByZero)
        else At(p, AddAddress(r, Advance(info, 255 - info.opcodeBase)))
      else if op == FIXED_ADVANCE_PC then
        if p + 2 > |sec| then Stopped(Overrun)
        else At(p + 2, AddAddress(r, FieldValue(info.order, sec[p..p + 2])))
      else if op == SET_PROLOGUE_END || op == SET_EPILOGUE_BEGIN then At(p, r)
      else if op == SET_ISA then
        match Leb128.End(sec, p)
        case None => Stopped(Overrun)
        case Some(q) => At(q, r)
      else if info.stdOpcodes + op - 1 >= |sec| then Stopped(Overrun)
      else
        match SkipLebs(sec, p, sec[info.stdOpcodes + op - 1])
        case None => Stopped(Overrun)
        case Some(q) => At(q, r)
  }

  datatype Row = Row(file: nat, line: nat, address: nat)

  /** A row is printed after a special opcode and after an opcode byte equal to 1: the source compares
      the standard opcode with both DW_LNS_copy and DW_LNE_end_sequence, which are the same number. */
  predicate EmitsRow(info: Info, op: byte) { op >= info.opcodeBase || op == COPY }

  function RowOf(r: Regs): Row { Row(r.file, r.line, r.address) }

  // ----- whole programs -----

  function RawRun(sec: seq<byte>, info: Info, pos: nat, end: nat, r: Regs): Outcome
    decreases end - pos
  {
    if pos >= end then At(pos, r)
    else
      match RawStep(sec, info, pos, r)
      case Stopped(f) => Stopped(f)
      case At(p, r') => RawRun(sec, info, p, end, r')
  }

  function DecodedRun(sec: seq<byte>, info: Info, t: Tables, pos: nat, end: nat, r: Regs): Outcome
    decreases end - pos
  {
    if pos >= end then At(pos, r)
    else
      match DecodedStep(sec, info, t, pos, r)
      case Stopped(f) => Stopped(f)
      case At(p, r') => DecodedRun(sec, info, t, p, end, r')
  }

  /** The offsets and registers at each round of the loop. */
  function RawTrace(sec: seq<byte>, info: Info, pos: nat, end: nat, r: Regs): seq<(nat, Regs)>
    decreases end - pos
  {
    if pos >= end then []
    else
      match RawStep(sec, info, pos, r)
      case Stopped(_) => [(pos, r)]
      case At(p, r') => [(pos, r)] + RawTrace(sec, info, p, end, r')
  }

  function DecodedTrace(sec: seq<byte>, info: Info, t: Tables, pos: nat, end: nat, r: Regs): seq<(nat, Regs)>
    decreases end - pos
  {
    if pos >= end then []
    else
      match DecodedStep(sec, info, t, pos, r)
      case Stopped(_) => [(pos, r)]
      case At(p, r') => [(pos, r)] + DecodedTrace(sec, info, t, p, end, r')
  }

  function DecodedRows(sec: seq<byte>, info: Info, t: Tables, pos: nat, end: nat, r: Regs): seq<Row>
    decreases end - pos
  {
    if pos >= end then []
    else
      match DecodedStep(sec, info, t, pos, r)
      case Stopped(_) => []
      case At(p, r') =>
        (if EmitsRow(info, sec[pos]) then [RowOf(r')] else []) + DecodedRows(sec, info, t, p, end, r')
  }

  lemma RowsSoFar(sec: seq<byte>, info: Info, t: Tables, pos: nat, end: nat, r: Regs, rows: seq<Row>)
    requires pos < end
    ensures var o := DecodedStep(sec, info, t, pos, r);
            rows + DecodedRows(sec, info, t, pos, end, r)
            == if o.Stopped? then rows
               else (if EmitsRow(info, sec[pos]) then rows + [RowOf(o.regs)] else rows)
                    + DecodedRows(sec, info, t, o.pos, end, o.regs)
  {
    var o := DecodedStep(sec, info, t, pos, r);
    if o.At? {
      var rest := DecodedRows(sec, info, t, o.pos, end, o.regs);
      if EmitsRow(info, sec[pos]) {
        assert rows + ([RowOf(o.regs)] + rest) == rows + [RowOf(o.regs)] + rest;
      } else {
        assert [] + rest == rest;
      }
    }
  }

  /** The static state_machine_regs and the loops that drive it. */
  class StateMachine {
    var regs: Regs

    constructor (info: Info)
      ensures regs == Reset(info)
    {
      regs := Reset(info);
    }

    method DumpRaw(sec: seq<byte>, info: Info, start: nat, end: nat) returns (final: Outcome)
      modifies this
      ensures final == RawRun(sec, info, start, end, old(regs))
      ensures final.At? ==> regs == final.regs
    {
      var data := start;
      while data < end
        invariant RawRun(sec, info, data, end, regs) == RawRun(sec, info, start, end, old(regs))
        decreases end - data
      {
        var o := RawStep(sec, info, data, regs);
        if o.Stopped? { return o; }
        data, regs := o.pos, o.regs;
      }
      return At(data, regs);
    }

    method DumpDecoded(sec: seq<byte>, info: Info, t: Tables, start: nat, end: nat) returns (final: Outcome, rows: seq<Row>)
      modifies this
      ensures final == DecodedRun(sec, info, t, start, end, old(regs))
      ensures rows == DecodedRows(sec, info, t, start, end, old(regs))
      ensures final.At? ==> regs == final.regs
    {
      var data := start;
      rows := [];
      while data < end
        invariant DecodedRun(sec, info, t, data, end, regs) == DecodedRun(sec, info, t, start, end, old(regs))
        invariant rows + DecodedRows(sec, info, t, data, end, regs) == DecodedRows(sec, info, t, start, end, old(regs))
        decreases end - data
      {
        var o := DecodedStep(sec, info, t, data, regs);
        RowsSoFar(sec, info, t, data, end, regs, rows);
        if o.Stopped? { return o, rows; }
        if EmitsRow(info, sec[data]) { rows := rows + [RowOf(o.regs)]; }
        data, regs := o.pos, o.regs;
      }
      return At(data, regs), rows;
    }
  }

  // ----- lockstep -----

  /** The extended opcodes the two dumps treat differently: one of length zero, whose length bytes only the
      raw dump skips; one whose total length does not fit the int the raw dump returns; a discriminator past
      the section, which only the raw dump reads; and a new file in a directory that the table, counted from
      0 here, lacks. */
  predicate DivergentExtended(sec: seq<byte>, t: Tables, p: nat)
  {
    match Leb128.ReadUnsigned(sec, p)
    case Overrun => false
    case Got(v, q) =>
      var len := v % TWO_32;
      var long := (len + (q - p)) % TWO_32 >= TWO_31;
      if len == 0 then true
      else if q >= |sec| then false
      else if sec[q] == SET_ADDRESS then long && KnownSize(len - 1) && q + len <= |sec|
      else if sec[q] == DEFINE_FILE then
        FileAt(sec, q + 1).Some? && (long || FileAt(sec, q + 1).value.0.dir >= t.dirs)
      else if sec[q] == SET_DISCRIMINATOR then long || Leb128.End(sec, q + 1) == None
      else long
  }

  /** What a round needs of the tables that only the decoded dump looks up: a file for its row, and for a
      DW_LNS_set_file the file and its directory. */
  predicate FindsEntry(sec: seq<byte>, info: Info, t: Tables, pos: nat, r: Regs)
  {
    pos < |sec| ==>
      && (sec[pos] >= info.opcodeBase && info.lineRange > 0 ==> HasFile(t, r.file))
      && (sec[pos] == COPY < info.opcodeBase ==> HasFile(t, r.file))
      && (sec[pos] == SET_FILE < info.opcodeBase && Leb128.ReadUnsigned(sec, pos + 1).Got? ==>
            HasNames(t, Leb128.ReadUnsigned(sec, pos + 1).value % TWO_32))
  }

  predicate Divergent(sec: seq<byte>, info: Info, t: Tables, pos: nat, r: Regs)
  {
    || (pos < |sec| && sec[pos] == EXTENDED_OP < info.opcodeBase && DivergentExtended(sec, t, pos + 1))
    || !FindsEntry(sec, info, t, pos, r)
  }

  /** One round: the dumps agree on offset and registers exactly when the opcode is not divergent. */
  lemma StepsAgree(sec: seq<byte>, info: Info, t: Tables, pos: nat, r: Regs)
    ensures RawStep(sec, info, pos, r) == DecodedStep(sec, info, t, pos, r) <==> !Divergent(sec, info, t, pos, r)
  {
  }

  /** Whole programs: the dumps visit the same offsets with the same address, file, line, column,
      is_stmt and basic_block, and end the same way, exactly when no round of the raw dump meets a
      divergent opcode. */
  lemma {:induction false} Lockstep(sec: seq<byte>, info: Info, t: Tables, pos: nat, end: nat, r: Regs)
    ensures var raw, decoded := RawTrace(sec, info, pos, end, r), DecodedTrace(sec, info, t, pos, end, r);
            raw == decoded && RawRun(sec, info, pos, end, r) == DecodedRun(sec, info, t, pos, end, r)
            <==> forall k :: 0 <= k < |raw| ==> !Divergent(sec, info, t, raw[k].0, raw[k].1)
    decreases end - pos
  {
    hide RawStep, DecodedStep, Divergent;
    if pos < end {
      StepsAgree(sec, info, t, pos, r);
      var raw, decoded := RawTrace(sec, info, pos, end, r), DecodedTrace(sec, info, t, pos, end, r);
      assert raw[0] == (pos, r) == decoded[0];
      if Divergent(sec, info, t, pos, r) {
        Diverges(sec, info, t, pos, end, r);
      } else if RawStep(sec, info, pos, r).At? {
        var o := RawStep(sec, info, pos, r);
        Lockstep(sec, info, t, o.pos, end, o.regs);
        var rest := RawTrace(sec, info, o.pos, end, o.regs);
        assert raw[1..] == rest && decoded[1..] == DecodedTrace(sec, info, t, o.pos, end, o.regs);
        assert forall k :: 0 < k < |raw| ==> raw[k] == rest[k - 1];
        assert forall k :: 0 <= k < |rest| ==> rest[k] == raw[k + 1];
      }
    }
  }

  lemma {:induction false} RawRunEnds(sec: seq<byte>, info: Info, pos: nat, end: nat, r: Regs)
    ensures RawRun(sec, info, pos, end, r) != Stopped(NoEntry)
    ensures RawTrace(sec, info, pos, end, r) == [] <==> pos >= end
    ensures pos < end ==> RawTrace(sec, info, pos, end, r)[0].0 == pos
    decreases end - pos
  {
    hide RawStep;
    if pos < end {
      var o := RawStep(sec, info, pos, r);
      if o.At? { RawRunEnds(sec, info, o.pos, end, o.regs); }
    }
  }

  lemma {:induction false} DecodedRunEnds(sec: seq<byte>, info: Info, t: Tables, pos: nat, end: nat, r: Regs)
    ensures DecodedRun(sec, info, t, pos, end, r) != Stopped(Backwards)
    ensures DecodedTrace(sec, info, t, pos, end, r) == [] <==> pos >= end
    ensures pos < end ==> DecodedTrace(sec, info, t, pos, end, r)[0].0 == pos
    decreases end - pos
  {
    hide DecodedStep;
    if pos < end {
      var o := DecodedStep(sec, info, t, pos, r);
      if o.At? { DecodedRunEnds(sec, info, t, o.pos, end, o.regs); }
    }
  }

  lemma Diverges(sec: seq<byte>, info: Info, t: Tables, pos: nat, end: nat, r: Regs)
    requires pos < end && Divergent(sec, info, t, pos, r)
    ensures RawTrace(sec, info, pos, end, r) != DecodedTrace(sec, info, t, pos, end, r)
            || RawRun(sec, info, pos, end, r) != DecodedRun(sec, info, t, pos, end, r)
  {
    hide RawStep, DecodedStep, Divergent;
    var a, b := RawStep(sec, info, pos, r), DecodedStep(sec, info, t, pos, r);
    HowDivergent(sec, info, t, pos, r);
    RawRunEnds(sec, info, pos, end, r);
    DecodedRunEnds(sec, info, t, pos, end, r);
    if a.At? { RawRunEnds(sec, info, a.pos, end, a.regs); }
    if b.At? { DecodedRunEnds(sec, info, t, b.pos, end, b.regs); }
    var raw, decoded := RawTrace(sec, info, pos, end, r), DecodedTrace(sec, info, t, pos, end, r);
    assert raw[1..] == if a.At? then RawTrace(sec, info, a.pos, end, a.regs) else [];
    assert decoded[1..] == if b.At? then DecodedTrace(sec, info, t, b.pos, end, b.regs) else [];
  }

  /** Where the dumps part: at different offsets, or one of them stops, the decoded one only for an entry. */
  lemma HowDivergent(sec: seq<byte>, info: Info, t: Tables, pos: nat, r: Regs)
    requires Divergent(sec, info, t, pos, r)
    ensures var a, b := RawStep(sec, info, pos, r), DecodedStep(sec, info, t, pos, r);
            || (a.At? && b.At? && a.pos != b.pos)
            || (a.Stopped? && b.At?)
            || b == Stopped(NoEntry)
  {
  }

  /** A file that DW_LNE_define_file has just added is not in the decoded dump's table: setting it, which is
      what it was added for, stops that dump and not the other. */
  lemma DefinedFileMissing(sec: seq<byte>, info: Info, t: Tables, pos: nat, r: Regs)
    requires info.opcodeBase > SET_FILE && |t.fileDirs| + 1 < TWO_32
    requires Machine.At(sec, pos, [SET_FILE] + Leb128.EncodeUnsigned(|t.fileDirs| + 1))
    ensures RawStep(sec, info, pos, r).At? && DecodedStep(sec, info, t, pos, r) == Stopped(NoEntry)
  {
    var n := |t.fileDirs| + 1;
    AtSplit(sec, pos, [SET_FILE], Leb128.EncodeUnsigned(n));
    AtByte(sec, pos, SET_FILE);
    Leb128.UnsignedRoundTrip(sec, pos + 1, n);
    SmallMod(n, TWO_32);
    SmallMod(n - 1, TWO_32);
  }
}
