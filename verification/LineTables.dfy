/** Line tables through the line-number program and back: a table of address and line steps,
    assembled with special opcodes where they reach (section 6.2.5.1 of DWARF 3) and with the
    standard opcodes where they do not, is printed row for row by the decoded dump. */
module LineTables {
  import opened Machine
  import opened LinePrograms
  import opened LineStatements

  /** The next row: the address advance in instructions, the line advance. */
  datatype Step = Step(addr: nat, line: int)

  function Assemble(info: Info, s: Step): seq<Stmt>
  {
    if Representable(info, s.addr, s.line) then [Special(s.addr, s.line)]
    else [AdvancePc(s.addr), AdvanceLine(s.line), Copy]
  }

  function AssembleAll(info: Info, steps: seq<Step>): seq<Stmt>
  {
    if steps == [] then [] else Assemble(info, steps[0]) + AssembleAll(info, steps[1..])
  }

  predicate StepFits(s: Step) { s.addr < TWO_64 && -(TWO_64 / 2) <= s.line < TWO_64 / 2 }

  predicate StepsFit(steps: seq<Step>) { forall k :: 0 <= k < |steps| ==> StepFits(steps[k]) }

  /** The registers the table asks for after a step. */
  function After(info: Info, m: Point, s: Step): Point
  {
    m.(address := (m.address + s.addr * info.minInsn) % TWO_64, line := (m.line + s.line) % TWO_32)
  }

  function TableEnd(info: Info, m: Point, steps: seq<Step>): Point
    decreases steps
  {
    if steps == [] then m else TableEnd(info, After(info, m, steps[0]), steps[1..])
  }

  function TableRows(info: Info, m: Point, steps: seq<Step>): seq<Row>
    decreases steps
  {
    if steps == [] then []
    else
      var after := After(info, m, steps[0]);
      [Row(after.file, after.line, after.address)] + TableRows(info, after, steps[1..])
  }

  /** Every table fits a unit that has the first three standard opcodes. */
  lemma {:induction false} AssembledFits(info: Info, steps: seq<Step>)
    requires StepsFit(steps) && info.opcodeBase > 3
    ensures AllFit(info, [], AssembleAll(info, steps))
  {
    if steps != [] {
      AssembledFits(info, steps[1..]);
      var head, tail := Assemble(info, steps[0]), AssembleAll(info, steps[1..]);
      assert StepFits(steps[0]);
      forall k | 0 <= k < |head + tail| ensures Fits(info, [], (head + tail)[k]) {
        if k >= |head| { assert (head + tail)[k] == tail[k - |head|]; }
      }
    }
  }

  /** One step: its row, and no name but that of its file. */
  lemma StepRuns(info: Info, t: Tables, m: Point, s: Step, rest: seq<Stmt>)
    ensures var code, after := Assemble(info, s) + rest, After(info, m, s);
            && Execute(info, m, code) == Execute(info, after, rest)
            && Matrix(info, m, code) == [MatrixRow(after.file, after.line, after.address, false)] + Matrix(info, after, rest)
            && (InTable(t, m.file) ==> Reach(info, t, m, code) == |Assemble(info, s)| + Reach(info, t, after, rest))
            && (!InTable(t, m.file) ==> Printable(Matrix(info, m, code[..Reach(info, t, m, code)])) == [])
            && (!InTable(t, m.file) ==> Reach(info, t, m, code) < |code|)
  {
    hide Execute, Matrix, Reach, Printable, Effect, After, InTable;
    var code := Assemble(info, s) + rest;
    if Representable(info, s.addr, s.line) {
      ShortStep(info, t, m, s, rest);
      NothingRuns(info, t, m);
      assert code[..0] == [];
    } else {
      LongStep(info, t, m, s, [Copy] + rest);
      assert ([Copy] + rest)[1..] == rest;
      assert code == [AdvancePc(s.addr), AdvanceLine(s.line)] + ([Copy] + rest);
      assert code[..2] == [AdvancePc(s.addr), AdvanceLine(s.line)];
      SilentPrefix(info, m, s);
    }
  }

  lemma ShortStep(info: Info, t: Tables, m: Point, s: Step, rest: seq<Stmt>)
    ensures var code, after := [Special(s.addr, s.line)] + rest, After(info, m, s);
            && Execute(info, m, code) == Execute(info, after, rest)
            && Matrix(info, m, code) == [MatrixRow(after.file, after.line, after.address, false)] + Matrix(info, after, rest)
            && Reach(info, t, m, code) == if InTable(t, m.file) then 1 + Reach(info, t, after, rest) else 0
  {
    assert ([Special(s.addr, s.line)] + rest)[1..] == rest;
  }

  /** A statement that makes no row and needs no name. */
  lemma Silent(info: Info, t: Tables, m: Point, s: Stmt, rest: seq<Stmt>)
    requires s.AdvancePc? || s.AdvanceLine?
    ensures var code, after := [s] + rest, Effect(info, m, s);
            && Execute(info, m, code) == Execute(info, after, rest)
            && Matrix(info, m, code) == Matrix(info, after, rest)
            && Reach(info, t, m, code) == 1 + Reach(info, t, after, rest)
  {
    assert ([s] + rest)[1..] == rest;
  }

  lemma LongStep(info: Info, t: Tables, m: Point, s: Step, rest: seq<Stmt>)
    requires rest != [] && rest[0] == Copy
    ensures var code, after := [AdvancePc(s.addr), AdvanceLine(s.line)] + rest, After(info, m, s);
            && Execute(info, m, code) == Execute(info, after, rest[1..])
            && Matrix(info, m, code) == [MatrixRow(after.file, after.line, after.address, false)] + Matrix(info, after, rest[1..])
            && Reach(info, t, m, code) == 2 + (if InTable(t, m.file) then 1 + Reach(info, t, after, rest[1..]) else 0)
  {
    var pc, line := AdvancePc(s.addr), AdvanceLine(s.line);
    assert [pc, line] + rest == [pc] + ([line] + rest);
    Silent(info, t, m, pc, [line] + rest);
    Silent(info, t, Effect(info, m, pc), line, rest);
    assert Effect(info, Effect(info, m, pc), line) == After(info, m, s);
  }

  lemma SilentPrefix(info: Info, m: Point, s: Step)
    ensures Printable(Matrix(info, m, [AdvancePc(s.addr), AdvanceLine(s.line)])) == []
  {
    var pc, line := AdvancePc(s.addr), AdvanceLine(s.line);
    assert [pc, line] == [pc] + [line] && [line] == [line] + [];
    Silent(info, Tables(0, []), m, pc, [line]);
    Silent(info, Tables(0, []), Effect(info, m, pc), line, []);
  }

  /** The matrix of an assembled table is the table. */
  lemma {:induction false} AssembledRuns(info: Info, t: Tables, m: Point, steps: seq<Step>)
    ensures var code := AssembleAll(info, steps);
            && Execute(info, m, code) == TableEnd(info, m, steps)
            && Printable(Matrix(info, m, code)) == TableRows(info, m, steps)
            && (steps == [] || InTable(t, m.file) ==> Reach(info, t, m, code) == |code|)
            && (steps != [] && !InTable(t, m.file) ==>
                  Reach(info, t, m, code) < |code| && Printable(Matrix(info, m, code[..Reach(info, t, m, code)])) == [])
    decreases steps
  {
    hide Assemble, Execute, Matrix, InTable, Reach;
    if steps == [] {
      NothingRuns(info, t, m);
    } else {
      var rest := AssembleAll(info, steps[1..]);
      StepRuns(info, t, m, steps[0], rest);
      AssembledRuns(info, t, After(info, m, steps[0]), steps[1..]);
      var after := After(info, m, steps[0]);
      var rows := Matrix(info, after, rest);
      assert ([MatrixRow(after.file, after.line, after.address, false)] + rows)[1..] == rows;
    }
  }

  lemma NothingRuns(info: Info, t: Tables, m: Point)
    ensures Execute(info, m, []) == m && Matrix(info, m, []) == [] && Printable([]) == [] && Reach(info, t, m, []) == 0
  {
  }

  /** Both dumps have gone over the table from p to end: exactly its rows are printed, or none for want of the file. */
  predicate TableDumped(sec: seq<byte>, info: Info, t: Tables, p: nat, end: nat, r: Regs, m: Point, steps: seq<Step>)
  {
    var raw, decoded := RawRun(sec, info, p, end, r), DecodedRun(sec, info, t, p, end, r);
    var rows := DecodedRows(sec, info, t, p, end, r);
    && raw.At? && raw.pos == end && Shows(raw.regs, TableEnd(info, m, steps))
    && if steps == [] || InTable(t, m.file) then decoded == raw && rows == TableRows(info, m, steps)
       else decoded == Stopped(NoEntry) && rows == []
  }

  /** Any table of steps, assembled and dumped: if the unit's tables have the file, exactly the rows are printed
      and the program ends at its last byte with the last row's registers; if not, the first row stops the
      decoded dump. */
  lemma TableRoundTrip(sec: seq<byte>, info: Info, t: Tables, p: nat, r: Regs, m: Point, steps: seq<Step>)
    requires AllFit(info, [], AssembleAll(info, steps)) && Shows(r, m)
    requires Machine.At(sec, p, EncodeAll(info, [], AssembleAll(info, steps)))
    ensures TableDumped(sec, info, t, p, p + |EncodeAll(info, [], AssembleAll(info, steps))|, r, m, steps)
  {
    hide Machine.At, EncodeAll, RawRun, DecodedRun, DecodedRows, Shows, AssembleAll, InTable, Reach, Matrix, Execute;
    var code := AssembleAll(info, steps);
    ProgramDumped(sec, info, [], t, p, r, m, code);
    AssembledRuns(info, t, m, steps);
    assert code[..|code|] == code;
  }

  /** Tables of steps that special opcodes reach need one byte a row. */
  lemma {:induction false} OneByteARow(info: Info, steps: seq<Step>)
    requires forall k :: 0 <= k < |steps| ==> Representable(info, steps[k].addr, steps[k].line)
    ensures AllFit(info, [], AssembleAll(info, steps)) && |EncodeAll(info, [], AssembleAll(info, steps))| == |steps|
    decreases steps
  {
    if steps != [] {
      OneByteARow(info, steps[1..]);
      var s, rest := steps[0], AssembleAll(info, steps[1..]);
      var code := [Special(s.addr, s.line)] + rest;
      assert AssembleAll(info, steps) == code && code[1..] == rest;
      assert Fits(info, [], code[0]);
      forall k | 0 <= k < |code| ensures Fits(info, [], code[k]) {
        if k > 0 { assert code[k] == rest[k - 1]; }
      }
    }
  }

  /** DW_LNS_const_add_pc advances the address exactly as special opcode 255 does, and nothing else; but it
      prints no row, and so needs no file. */
  lemma ConstAddPc(sec: seq<byte>, info: Info, t: Tables, p: nat, q: nat, r: Regs)
    requires p < |sec| && q < |sec| && sec[p] == CONST_ADD_PC < info.opcodeBase && sec[q] == 255
    requires info.lineRange > 0
    ensures var c, special := DecodedStep(sec, info, t, p, r), DecodedStep(sec, info, t, q, r);
            && c.At? && (special.At? <==> HasFile(t, r.file))
            && (special.At? ==> c.regs == r.(address := special.regs.address))
  {
  }
}
