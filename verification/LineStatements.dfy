/** Line-number programs as section 6.2.5 of DWARF 3 defines them: the statements with their byte forms, what each
    does to the registers, the rows of the matrix. Both dumps of LinePrograms run every such program as it says. */
module LineStatements {
  import opened Machine
  import opened ByteOrder
  import opened LinePrograms
  import Leb128

  // ----- the statements -----

  /** An entry of the file table: a name without a NUL, and three numbers. */
  datatype File = File(name: seq<byte>, dir: nat, date: nat, length: nat)

  /** Special makes a row after advancing by addr instructions and line lines. */
  datatype Stmt =
    | Special(addr: nat, line: int)
    | Copy
    | AdvancePc(n: nat)
    | AdvanceLine(lines: int)
    | SetFile(n: nat)
    | SetColumn(n: nat)
    | NegateStmt
    | SetBasicBlock
    | ConstAddPc
    | FixedAdvancePc(n: nat)
    | PrologueEnd
    | EpilogueBegin
    | SetIsa(n: nat)
    | Unknown(op: nat, operands: seq<nat>)
    | EndSequence
    | SetAddress(size: nat, n: nat)
    | DefineFile(file: File)
    | Discriminator(n: nat)
    | Vendor(op: nat, payload: seq<byte>)

  function U128(n: nat): seq<byte> { Leb128.EncodeUnsigned(n) }

  /** A special opcode reaches the advance (section 6.2.5.1 of DWARF 3). */
  predicate Representable(info: Info, addr: nat, line: int)
  {
    && info.lineRange > 0
    && info.lineBase <= line < info.lineBase + info.lineRange
    && (line - info.lineBase) + info.lineRange * addr + info.opcodeBase <= 255
  }

  /** The standard's formula. */
  function SpecialOpcode(info: Info, addr: nat, line: int): (op: byte)
    requires Representable(info, addr, line)
    ensures op >= info.opcodeBase
  {
    MulMonotone(info.lineRange, 0, addr);
    (line - info.lineBase) + info.lineRange * addr + info.opcodeBase
  }

  function EncodeFile(f: File): seq<byte> { (f.name + [0]) + (U128(f.dir) + (U128(f.date) + U128(f.length))) }

  predicate FileFits(f: File) { 0 !in f.name && f.dir < TWO_32 && f.date < TWO_32 && f.length < TWO_32 }

  function EncodeOperands(ns: seq<nat>): seq<byte> { if ns == [] then [] else U128(ns[0]) + EncodeOperands(ns[1..]) }

  /** An extended opcode: its length, its number, its operands. */
  function Extended(op: byte, payload: seq<byte>): seq<byte> { [0] + (U128(1 + |payload|) + ([op] + payload)) }

  /** The length and its own field fit the int that the raw dump counts in. */
  predicate ExtendedFits(payload: seq<byte>) { 1 + |payload| + |U128(1 + |payload|)| < 0x8000_0000 }

  /** The statement has its opcode in a unit with this header, and its operands have room; counts is the header's
      table of operand counts. */
  predicate Fits(info: Info, counts: seq<byte>, s: Stmt)
  {
    match s
    case Special(addr, line) => Representable(info, addr, line)
    case Copy => 1 < info.opcodeBase
    case AdvancePc(n) => 2 < info.opcodeBase && n < TWO_64
    case AdvanceLine(n) => 3 < info.opcodeBase && -(TWO_64 / 2) <= n < TWO_64 / 2
    case SetFile(n) => 4 < info.opcodeBase && n < TWO_64
    case SetColumn(n) => 5 < info.opcodeBase && n < TWO_64
    case NegateStmt => 6 < info.opcodeBase
    case SetBasicBlock => 7 < info.opcodeBase
    case ConstAddPc => 8 < info.opcodeBase && info.lineRange > 0
    case FixedAdvancePc(n) => 9 < info.opcodeBase && n < 0x1_0000
    case PrologueEnd => 10 < info.opcodeBase
    case EpilogueBegin => 11 < info.opcodeBase
    case SetIsa(n) => 12 < info.opcodeBase && n < TWO_64
    case Unknown(op, operands) => 12 < op < info.opcodeBase && op <= |counts| && counts[op - 1] == |operands|
    case EndSequence => 0 < info.opcodeBase
    case SetAddress(size, n) => 0 < info.opcodeBase && KnownSize(size) && n < Pow2(8 * size)
    case DefineFile(f) => 0 < info.opcodeBase && FileFits(f) && ExtendedFits(EncodeFile(f))
    case Discriminator(n) => 0 < info.opcodeBase && n < TWO_64 && ExtendedFits(U128(n))
    case Vendor(op, payload) => 0 < info.opcodeBase && 4 < op < 256 && ExtendedFits(payload)
  }

  function Encode(info: Info, counts: seq<byte>, s: Stmt): (bs: seq<byte>)
    requires Fits(info, counts, s)
    ensures bs != []
  {
    match s
    case Special(addr, line) => [SpecialOpcode(info, addr, line)]
    case Copy => [1]
    case AdvancePc(n) => [2] + U128(n)
    case AdvanceLine(n) => [3] + Leb128.EncodeSigned(n)
    case SetFile(n) => [4] + U128(n)
    case SetColumn(n) => [5] + U128(n)
    case NegateStmt => [6]
    case SetBasicBlock => [7]
    case ConstAddPc => [8]
    case FixedAdvancePc(n) => [9] + FieldBytes(info.order, n, 2)
    case PrologueEnd => [10]
    case EpilogueBegin => [11]
    case SetIsa(n) => [12] + U128(n)
    case Unknown(op, operands) => [op] + EncodeOperands(operands)
    case EndSequence => Extended(1, [])
    case SetAddress(size, n) => Extended(2, FieldBytes(info.order, n, size))
    case DefineFile(f) => Extended(3, EncodeFile(f))
    case Discriminator(n) => Extended(4, U128(n))
    case Vendor(op, payload) => Extended(op, payload)
  }

  predicate AllFit(info: Info, counts: seq<byte>, code: seq<Stmt>) { forall k :: 0 <= k < |code| ==> Fits(info, counts, code[k]) }

  function EncodeAll(info: Info, counts: seq<byte>, code: seq<Stmt>): seq<byte>
    requires AllFit(info, counts, code)
  {
    if code == [] then [] else Encode(info, counts, code[0]) + EncodeAll(info, counts, code[1..])
  }

  // ----- the state machine -----

  /** The registers. */
  datatype Point = Point(address: nat, file: nat, line: nat, column: nat, isStmt: bool, basicBlock: bool)

  /** At the start of a sequence (section 6.2.2 of DWARF 3). */
  function Start(info: Info): Point { Point(0, 1, 1, 0, info.defaultIsStmt != 0, false) }

  /** The address advanced by a number of instructions. */
  function Onward(info: Info, m: Point, n: nat): Point { m.(address := (m.address + n * info.minInsn) % TWO_64) }

  function Down(m: Point, n: int): Point { m.(line := (m.line + n) % TWO_32) }

  /** What a statement does to the registers. The standard also clears basic_block after a row; the dumps, which
      print it nowhere, do not. */
  function Effect(info: Info, m: Point, s: Stmt): Point
  {
    match s
    case Special(addr, line) => Down(Onward(info, m, addr), line)
    case Copy => m
    case AdvancePc(n) => Onward(info, m, n)
    case AdvanceLine(n) => Down(m, n)
    case SetFile(n) => m.(file := n % TWO_32)
    case SetColumn(n) => m.(column := n % TWO_32)
    case NegateStmt => m.(isStmt := !m.isStmt)
    case SetBasicBlock => m.(basicBlock := true)
    case ConstAddPc => if info.lineRange > 0 then Onward(info, m, ConstAdvance(info)) else m
    case FixedAdvancePc(n) => m.(address := (m.address + n) % TWO_64)
    case PrologueEnd => m
    case EpilogueBegin => m
    case SetIsa(_) => m
    case Unknown(_, _) => m
    case EndSequence => Start(info)
    case SetAddress(_, n) => m.(address := n)
    case DefineFile(_) => m
    case Discriminator(_) => m
    case Vendor(_, _) => m
  }

  /** The address advance of special opcode 255. */
  function ConstAdvance(info: Info): nat
    requires info.lineRange > 0
  {
    QuotientNonNegative(255 - info.opcodeBase, info.lineRange);
    (255 - info.opcodeBase) / info.lineRange
  }

  datatype MatrixRow = MatrixRow(file: nat, line: nat, address: nat, endSequence: bool)

  /** The row a statement appends to the matrix. */
  function RowMade(info: Info, m: Point, s: Stmt): Option<MatrixRow>
  {
    var after := Effect(info, m, s);
    if s.Special? || s.Copy? then Some(MatrixRow(after.file, after.line, after.address, false))
    else if s.EndSequence? then Some(MatrixRow(m.file, m.line, m.address, true))
    else None
  }

  function Execute(info: Info, m: Point, code: seq<Stmt>): Point
    decreases code
  {
    if code == [] then m else Execute(info, Effect(info, m, code[0]), code[1..])
  }

  /** The matrix of the program. */
  function Matrix(info: Info, m: Point, code: seq<Stmt>): seq<MatrixRow>
    decreases code
  {
    if code == [] then []
    else
      (match RowMade(info, m, code[0]) case None => [] case Some(row) => [row])
      + Matrix(info, Effect(info, m, code[0]), code[1..])
  }

  /** What the decoded dump prints of it: all rows but those that end a sequence. */
  function Printable(rows: seq<MatrixRow>): seq<Row>
  {
    if rows == [] then []
    else (if rows[0].endSequence then [] else [Row(rows[0].file, rows[0].line, rows[0].address)]) + Printable(rows[1..])
  }

  // ----- the tables the decoded dump looks into -----

  /** The file is in the table, whose first entry is file 1; with 2^32 files, file 0 is the last. */
  predicate InTable(t: Tables, file: nat) { 1 <= file <= |t.fileDirs| || (file == 0 && |t.fileDirs| >= TWO_32) }

  /** The decoded dump finds the names it prints: of the row's file, of the file set and its directory, of the
      directory of a new file, which it counts from 0. */
  predicate Found(info: Info, t: Tables, m: Point, s: Stmt)
  {
    match s
    case Special(_, _) => InTable(t, m.file)
    case Copy => InTable(t, m.file)
    case SetFile(n) =>
      var file := n % TWO_32;
      InTable(t, file) && t.fileDirs[if file == 0 then TWO_32 - 1 else file - 1] <= t.dirs
    case DefineFile(f) => f.dir < t.dirs
    case _ => true
  }

  /** How many statements the decoded dump gets through. */
  function Reach(info: Info, t: Tables, m: Point, code: seq<Stmt>): (n: nat)
    ensures n <= |code|
    decreases code
  {
    if code == [] || !Found(info, t, m, code[0]) then 0
    else 1 + Reach(info, t, Effect(info, m, code[0]), code[1..])
  }

  // ----- registers -----

  predicate Shows(r: Regs, m: Point)
  {
    && r.address == m.address && r.file == m.file && r.line == m.line && r.column == m.column
    && (r.isStmt != 0 <==> m.isStmt) && r.basicBlock == (if m.basicBlock then 1 else 0)
    && m.file < TWO_32
  }

  lemma InTableIs(t: Tables, file: nat)
    requires file < TWO_32
    ensures HasFile(t, file) <==> InTable(t, file)
    ensures (file - 1) % TWO_32 == if file == 0 then TWO_32 - 1 else file - 1
  {
    if file == 0 { NegativeMod(-1, TWO_32); } else { SmallMod(file - 1, TWO_32); }
  }

  /** Both dumps take the statement at p in one round: the raw one does what it says, and the decoded one the
      same if it finds the names, and stops otherwise. */
  predicate Taken(sec: seq<byte>, info: Info, t: Tables, p: nat, q: nat, r: Regs, m: Point, s: Stmt)
  {
    var raw, decoded := RawStep(sec, info, p, r), DecodedStep(sec, info, t, p, r);
    && p < |sec| && raw.At? && raw.pos == q && Shows(raw.regs, Effect(info, m, s))
    && decoded == (if Found(info, t, m, s) then raw else Stopped(NoEntry))
    && (EmitsRow(info, sec[p]) <==> s.Special? || s.Copy?)
  }

  // ----- one statement -----

  /** A special opcode splits back into the two advances it was made of. */
  lemma SpecialSplits(info: Info, addr: nat, line: int)
    requires Representable(info, addr, line)
    ensures var a := SpecialOpcode(info, addr, line) - info.opcodeBase;
            a / info.lineRange == addr && a % info.lineRange == line - info.lineBase
  {
    DivModUnique(SpecialOpcode(info, addr, line) - info.opcodeBase, info.lineRange, addr, line - info.lineBase);
  }

  lemma TakesSpecial(sec: seq<byte>, info: Info, t: Tables, p: nat, r: Regs, m: Point, s: Stmt)
    requires s.Special? && Representable(info, s.addr, s.line) && Machine.At(sec, p, [SpecialOpcode(info, s.addr, s.line)]) && Shows(r, m)
    ensures Taken(sec, info, t, p, p + 1, r, m, s)
  {
    AtByte(sec, p, SpecialOpcode(info, s.addr, s.line));
    SpecialSplits(info, s.addr, s.line);
    InTableIs(t, m.file);
  }

  predicate OneByte(s: Stmt)
  {
    s.Copy? || s.NegateStmt? || s.SetBasicBlock? || s.ConstAddPc? || s.PrologueEnd? || s.EpilogueBegin?
  }

  lemma TakesOneByte(sec: seq<byte>, info: Info, counts: seq<byte>, t: Tables, p: nat, r: Regs, m: Point, s: Stmt)
    requires OneByte(s) && Fits(info, counts, s) && Machine.At(sec, p, Encode(info, counts, s)) && Shows(r, m)
    ensures Taken(sec, info, t, p, p + 1, r, m, s)
  {
    AtByte(sec, p, Encode(info, counts, s)[0]);
    InTableIs(t, m.file);
  }

  predicate OneNumber(s: Stmt) { s.AdvancePc? || s.SetFile? || s.SetColumn? || s.SetIsa? }

  lemma TakesOneNumber(sec: seq<byte>, info: Info, counts: seq<byte>, t: Tables, p: nat, r: Regs, m: Point, s: Stmt)
    requires OneNumber(s) && Fits(info, counts, s) && Machine.At(sec, p, Encode(info, counts, s)) && Shows(r, m)
    ensures Taken(sec, info, t, p, p + |Encode(info, counts, s)|, r, m, s)
  {
    hide Leb128.EncodeUnsigned, Leb128.End, Leb128.ReadUnsigned, Leb128.Unsigned, Leb128.Terminated, Machine.At;
    var op := Encode(info, counts, s)[0];
    assert Encode(info, counts, s) == [op] + U128(s.n);
    AtSplit(sec, p, [op], U128(s.n));
    AtByte(sec, p, op);
    Leb128.UnsignedRoundTrip(sec, p + 1, s.n);
    if s.SetIsa? { EndsAt(sec, p + 1, s.n); }
    InTableIs(t, s.n % TWO_32);
  }

  lemma TakesAdvanceLine(sec: seq<byte>, info: Info, counts: seq<byte>, t: Tables, p: nat, r: Regs, m: Point, s: Stmt)
    requires s.AdvanceLine? && Fits(info, counts, s) && Machine.At(sec, p, Encode(info, counts, s)) && Shows(r, m)
    ensures Taken(sec, info, t, p, p + |Encode(info, counts, s)|, r, m, s)
  {
    hide Leb128.EncodeSigned, Leb128.End, Machine.At;
    AtSplit(sec, p, [3], Leb128.EncodeSigned(s.lines));
    AtByte(sec, p, 3);
    Leb128.SignedRoundTrip(sec, p + 1, s.lines);
    AddMultiple(r.line + s.lines, TWO_32, TWO_32);
  }

  lemma TakesFixed(sec: seq<byte>, info: Info, counts: seq<byte>, t: Tables, p: nat, r: Regs, m: Point, s: Stmt)
    requires s.FixedAdvancePc? && Fits(info, counts, s) && Machine.At(sec, p, Encode(info, counts, s)) && Shows(r, m)
    ensures Taken(sec, info, t, p, p + |Encode(info, counts, s)|, r, m, s)
  {
    hide FieldBytes, FieldValue, Pow2;
    AtSplit(sec, p, [9], FieldBytes(info.order, s.n, 2));
    AtByte(sec, p, 9);
    Pow2Known();
    FieldRead(info.order, sec, p + 1, s.n, 2);
  }

  lemma {:induction false} Skips(sec: seq<byte>, p: nat, ns: seq<nat>)
    requires Machine.At(sec, p, EncodeOperands(ns))
    ensures SkipLebs(sec, p, |ns|) == Some(p + |EncodeOperands(ns)|)
    decreases |ns|
  {
    hide Leb128.EncodeUnsigned, Leb128.End, Machine.At;
    if ns != [] {
      AtSplit(sec, p, U128(ns[0]), EncodeOperands(ns[1..]));
      EndsAt(sec, p, ns[0]);
      Skips(sec, p + |U128(ns[0])|, ns[1..]);
    }
  }

  lemma TakesUnknown(sec: seq<byte>, info: Info, counts: seq<byte>, t: Tables, p: nat, r: Regs, m: Point, s: Stmt)
    requires s.Unknown? && Fits(info, counts, s) && Machine.At(sec, p, Encode(info, counts, s)) && Shows(r, m)
    requires Machine.At(sec, info.stdOpcodes, counts)
    ensures Taken(sec, info, t, p, p + |Encode(info, counts, s)|, r, m, s)
  {
    hide EncodeOperands, SkipLebs;
    AtSplit(sec, p, [s.op], EncodeOperands(s.operands));
    AtByte(sec, p, s.op);
    Skips(sec, p + 1, s.operands);
    assert sec[info.stdOpcodes + s.op - 1] == sec[info.stdOpcodes..info.stdOpcodes + |counts|][s.op - 1];
  }

  // ----- extended opcodes -----

  /** Where an extended opcode's number and operands lie. */
  lemma ExtendedRead(sec: seq<byte>, p: nat, op: byte, payload: seq<byte>)
    requires Machine.At(sec, p, Extended(op, payload)) && ExtendedFits(payload)
    ensures var q := p + 1 + |U128(1 + |payload|)|;
            && p < |sec| && sec[p] == 0 && Leb128.ReadUnsigned(sec, p + 1) == Leb128.Got(1 + |payload|, q)
            && q < |sec| && sec[q] == op && Machine.At(sec, q + 1, payload) && q + 1 + |payload| <= |sec|
            && p + |Extended(op, payload)| == q + 1 + |payload|
            && (1 + |payload|) % TWO_32 == 1 + |payload|
            && (1 + |payload| + (q - p - 1)) % TWO_32 == 1 + |payload| + (q - p - 1) < TWO_31
  {
    hide Leb128.EncodeUnsigned, Leb128.ReadUnsigned;
    var len := U128(1 + |payload|);
    AtSplit(sec, p, [0], len + ([op] + payload));
    AtByte(sec, p, 0);
    AtSplit(sec, p + 1, len, [op] + payload);
    AtSplit(sec, p + 1 + |len|, [op], payload);
    AtByte(sec, p + 1 + |len|, op);
    Leb128.UnsignedRoundTrip(sec, p + 1, 1 + |payload|);
    SmallMod(1 + |payload|, TWO_32);
    SmallMod(1 + |payload| + |len|, TWO_32);
  }

  /** Both dumps hand an extended opcode on. */
  lemma ExtendedEntered(sec: seq<byte>, info: Info, t: Tables, p: nat, r: Regs)
    requires p < |sec| && sec[p] == 0 < info.opcodeBase
    ensures !EmitsRow(info, sec[p])
    ensures RawStep(sec, info, p, r) == RawExtended(sec, info, p + 1, r)
    ensures DecodedStep(sec, info, t, p, r) == DecodedExtended(sec, info, t, p + 1, r)
  {
    hide RawExtended, DecodedExtended;
  }

  /** The length of an extended opcode at p, whose number lies at q. */
  predicate LengthRead(sec: seq<byte>, p: nat, q: nat, len: nat)
  {
    && Leb128.ReadUnsigned(sec, p) == Leb128.Got(len, q) && q < |sec|
    && 0 < len == len % TWO_32 && (len + (q - p)) % TWO_32 == len + (q - p) < TWO_31
  }

  lemma RawExtendedSteps(sec: seq<byte>, info: Info, p: nat, r: Regs, q: nat, len: nat)
    requires LengthRead(sec, p, q, len)
    ensures var raw := RawExtended(sec, info, p, r);
            && (sec[q] == 1 ==> raw == Outcome.At(q + len, Reset(info)))
            && (sec[q] == 2 && KnownSize(len - 1) && q + len <= |sec| ==>
                  raw == Outcome.At(q + len, r.(address := FieldValue(info.order, sec[q + 1..q + len]))))
            && (sec[q] == 3 && FileAt(sec, q + 1).Some? ==> raw == Outcome.At(q + len, r))
            && (sec[q] == 4 && Leb128.End(sec, q + 1).Some? ==> raw == Outcome.At(q + len, r))
            && (sec[q] > 4 ==> raw == Outcome.At(q + len, r))
  {
    hide Leb128.ReadUnsigned, Leb128.End, FileAt, FieldValue;
  }

  lemma DecodedExtendedSteps(sec: seq<byte>, info: Info, t: Tables, p: nat, r: Regs, q: nat, len: nat)
    requires LengthRead(sec, p, q, len)
    ensures var decoded := DecodedExtended(sec, info, t, p, r);
            && (sec[q] == 1 ==> decoded == Outcome.At(q + len, Reset(info)))
            && (sec[q] == 2 && KnownSize(len - 1) && q + len <= |sec| ==>
                  decoded == Outcome.At(q + len, r.(address := FieldValue(info.order, sec[q + 1..q + len]))))
            && (sec[q] == 3 && FileAt(sec, q + 1).Some? ==>
                  decoded == if FileAt(sec, q + 1).value.0.dir < t.dirs then Outcome.At(q + len, r) else Stopped(NoEntry))
            && (sec[q] >= 4 ==> decoded == Outcome.At(q + len, r))
  {
    hide Leb128.ReadUnsigned, Leb128.End, FileAt, FieldValue;
  }

  /** What both dumps do with an extended opcode of length len whose number lies at q. */
  lemma ExtendedSteps(sec: seq<byte>, info: Info, t: Tables, p: nat, r: Regs, q: nat, len: nat)
    requires p < |sec| && sec[p] == 0 < info.opcodeBase && LengthRead(sec, p + 1, q, len)
    ensures !EmitsRow(info, sec[p])
    ensures var raw, decoded := RawStep(sec, info, p, r), DecodedStep(sec, info, t, p, r);
            && (sec[q] == 1 ==> raw == decoded == Outcome.At(q + len, Reset(info)))
            && (sec[q] == 2 && KnownSize(len - 1) && q + len <= |sec| ==>
                  raw == decoded == Outcome.At(q + len, r.(address := FieldValue(info.order, sec[q + 1..q + len]))))
            && (sec[q] == 3 && FileAt(sec, q + 1).Some? ==>
                  && raw == Outcome.At(q + len, r)
                  && decoded == if FileAt(sec, q + 1).value.0.dir < t.dirs then raw else Stopped(NoEntry))
            && (sec[q] == 4 && Leb128.End(sec, q + 1).Some? ==> raw == decoded == Outcome.At(q + len, r))
            && (sec[q] > 4 ==> raw == decoded == Outcome.At(q + len, r))
  {
    hide Leb128.ReadUnsigned, Leb128.End, FileAt, FieldValue, RawStep, DecodedStep, RawExtended, DecodedExtended, EmitsRow;
    ExtendedEntered(sec, info, t, p, r);
    RawExtendedSteps(sec, info, p + 1, r, q, len);
    DecodedExtendedSteps(sec, info, t, p + 1, r, q, len);
  }

  lemma TakesEndSequence(sec: seq<byte>, info: Info, counts: seq<byte>, t: Tables, p: nat, r: Regs, m: Point, s: Stmt)
    requires s.EndSequence? && Fits(info, counts, s) && Machine.At(sec, p, Encode(info, counts, s)) && Shows(r, m)
    ensures Taken(sec, info, t, p, p + |Encode(info, counts, s)|, r, m, s)
  {
    hide Leb128.EncodeUnsigned, Leb128.ReadUnsigned, Leb128.End, RawStep, DecodedStep, Extended, ExtendedFits, Machine.At, FieldBytes, FieldValue, EncodeFile, FileAt, Pow2, U128;
    var payload := [];
    ShortPayload([]);
    ExtendedRead(sec, p, 1, payload);
    var q := p + 1 + |U128(1 + |payload|)|;
    ExtendedSteps(sec, info, t, p, r, q, 1 + |payload|);
  }

  lemma TakesVendor(sec: seq<byte>, info: Info, counts: seq<byte>, t: Tables, p: nat, r: Regs, m: Point, s: Stmt)
    requires s.Vendor? && Fits(info, counts, s) && Machine.At(sec, p, Encode(info, counts, s)) && Shows(r, m)
    ensures Taken(sec, info, t, p, p + |Encode(info, counts, s)|, r, m, s)
  {
    hide Leb128.EncodeUnsigned, Leb128.ReadUnsigned, Leb128.End, RawStep, DecodedStep, Extended, ExtendedFits, Machine.At, FieldBytes, FieldValue, EncodeFile, FileAt, Pow2, U128;
    var payload := s.payload;
    ExtendedRead(sec, p, s.op, payload);
    var q := p + 1 + |U128(1 + |payload|)|;
    ExtendedSteps(sec, info, t, p, r, q, 1 + |payload|);
  }

  lemma TakesDiscriminator(sec: seq<byte>, info: Info, counts: seq<byte>, t: Tables, p: nat, r: Regs, m: Point, s: Stmt)
    requires s.Discriminator? && Fits(info, counts, s) && Machine.At(sec, p, Encode(info, counts, s)) && Shows(r, m)
    ensures Taken(sec, info, t, p, p + |Encode(info, counts, s)|, r, m, s)
  {
    hide Leb128.EncodeUnsigned, Leb128.ReadUnsigned, Leb128.End, RawStep, DecodedStep, Extended, ExtendedFits, Machine.At, FieldBytes, FieldValue, EncodeFile, FileAt, Pow2, U128;
    var payload := U128(s.n);
    ExtendedRead(sec, p, 4, payload);
    var q := p + 1 + |U128(1 + |payload|)|;
    EndsAt(sec, q + 1, s.n);
    ExtendedSteps(sec, info, t, p, r, q, 1 + |payload|);
  }

  lemma TakesSetAddress(sec: seq<byte>, info: Info, counts: seq<byte>, t: Tables, p: nat, r: Regs, m: Point, s: Stmt)
    requires s.SetAddress? && Fits(info, counts, s) && Machine.At(sec, p, Encode(info, counts, s)) && Shows(r, m)
    ensures Taken(sec, info, t, p, p + |Encode(info, counts, s)|, r, m, s)
  {
    hide Leb128.EncodeUnsigned, Leb128.ReadUnsigned, Leb128.End, RawStep, DecodedStep, Extended, ExtendedFits, Machine.At, FieldBytes, FieldValue, EncodeFile, FileAt, Pow2, U128;
    var payload := FieldBytes(info.order, s.n, s.size);
    ShortPayload(payload);
    ExtendedRead(sec, p, 2, payload);
    var q := p + 1 + |U128(1 + |payload|)|;
    FieldRead(info.order, sec, q + 1, s.n, s.size);
    ExtendedSteps(sec, info, t, p, r, q, 1 + |payload|);
  }

  lemma FieldRead(order: Order, sec: seq<byte>, p: nat, n: nat, size: nat)
    requires n < Pow2(8 * size) && Machine.At(sec, p, FieldBytes(order, n, size))
    ensures p + size <= |sec| && FieldValue(order, sec[p..p + size]) == n
  {
    FieldRoundTrip(order, n, size);
    SmallMod(n, Pow2(8 * size));
  }

  lemma ShortPayload(payload: seq<byte>)
    requires |payload| < 100
    ensures ExtendedFits(payload)
  {
    ShortLength();
  }

  lemma EndsAt(sec: seq<byte>, p: nat, n: nat)
    requires Machine.At(sec, p, U128(n))
    ensures Leb128.End(sec, p) == Some(p + |U128(n)|)
  {
    Leb128.EndOf(sec, p, p + |U128(n)|);
  }

  lemma ShortLength()
    ensures forall n: nat :: n < 128 ==> |U128(n)| == 1
  {
  }

  // ----- file entries -----

  lemma {:induction false} StringEndAt(sec: seq<byte>, p: nat, name: seq<byte>)
    requires 0 !in name && Machine.At(sec, p, name + [0])
    ensures StringEnd(sec, p) == Some(p + |name| + 1)
    decreases |name|
  {
    if name == [] {
      assert name + [0] == [0];
      AtByte(sec, p, 0);
    } else {
      assert name + [0] == [name[0]] + (name[1..] + [0]);
      AtSplit(sec, p, [name[0]], name[1..] + [0]);
      AtByte(sec, p, name[0]);
      StringEndAt(sec, p + 1, name[1..]);
    }
  }

  predicate FileLies(sec: seq<byte>, e: FileEntry, f: File)
  {
    Machine.At(sec, e.name, f.name + [0]) && e.dir == f.dir && e.date == f.date && e.length == f.length
  }

  /** A file entry is read back. */
  lemma FileRoundTrip(sec: seq<byte>, p: nat, f: File)
    requires FileFits(f) && Machine.At(sec, p, EncodeFile(f))
    ensures var r := FileAt(sec, p);
            r.Some? && r.value.1 == p + |EncodeFile(f)| && FileLies(sec, r.value.0, f)
    ensures f.name != [] ==> p < |sec| && sec[p] != 0
  {
    hide Machine.At, StringEnd, Leb128.ReadUnsigned, Leb128.EncodeUnsigned, Leb128.Unsigned, Leb128.Terminated, Leb128.End;
    var d, t, l := U128(f.dir), U128(f.date), U128(f.length);
    var q := p + |f.name| + 1;
    AtSplit(sec, p, f.name + [0], d + (t + l));
    AtSplit(sec, q, d, t + l);
    AtSplit(sec, q + |d|, t, l);
    StringEndAt(sec, p, f.name);
    if f.name != [] { FirstOfName(sec, p, f.name); }
    Leb128.UnsignedRoundTrip(sec, q, f.dir);
    Leb128.UnsignedRoundTrip(sec, q + |d|, f.date);
    Leb128.UnsignedRoundTrip(sec, q + |d| + |t|, f.length);
    SmallMod(f.dir, TWO_32);
    SmallMod(f.date, TWO_32);
    SmallMod(f.length, TWO_32);
  }

  lemma FirstOfName(sec: seq<byte>, p: nat, name: seq<byte>)
    requires name != [] && 0 !in name && Machine.At(sec, p, name + [0])
    ensures p < |sec| && sec[p] != 0
  {
    assert sec[p] == sec[p..p + |name + [0]|][0] == name[0];
  }

  lemma TakesDefineFile(sec: seq<byte>, info: Info, counts: seq<byte>, t: Tables, p: nat, r: Regs, m: Point, s: Stmt)
    requires s.DefineFile? && Fits(info, counts, s) && Machine.At(sec, p, Encode(info, counts, s)) && Shows(r, m)
    ensures Taken(sec, info, t, p, p + |Encode(info, counts, s)|, r, m, s)
  {
    hide Leb128.EncodeUnsigned, Leb128.ReadUnsigned, Leb128.End, RawStep, DecodedStep, Extended, ExtendedFits, Machine.At, FieldBytes, FieldValue, EncodeFile, FileAt, Pow2, U128;
    var payload := EncodeFile(s.file);
    ExtendedRead(sec, p, 3, payload);
    var q := p + 1 + |U128(1 + |payload|)|;
    FileRoundTrip(sec, q + 1, s.file);
    ExtendedSteps(sec, info, t, p, r, q, 1 + |payload|);
  }

  /** Every statement of the standard, placed anywhere in a unit, is taken for what it is. */
  lemma StatementTaken(sec: seq<byte>, info: Info, counts: seq<byte>, t: Tables, p: nat, r: Regs, m: Point, s: Stmt)
    requires Fits(info, counts, s) && Machine.At(sec, p, Encode(info, counts, s)) && Shows(r, m)
    requires counts == [] || Machine.At(sec, info.stdOpcodes, counts)
    ensures Taken(sec, info, t, p, p + |Encode(info, counts, s)|, r, m, s)
  {
    hide Machine.At, Taken, Shows, Leb128.EncodeUnsigned, Leb128.EncodeSigned, FieldBytes, Extended;
    if s.Special? { TakesSpecial(sec, info, t, p, r, m, s); }
    else if OneByte(s) { TakesOneByte(sec, info, counts, t, p, r, m, s); }
    else if OneNumber(s) { TakesOneNumber(sec, info, counts, t, p, r, m, s); }
    else if s.AdvanceLine? { TakesAdvanceLine(sec, info, counts, t, p, r, m, s); }
    else if s.FixedAdvancePc? { TakesFixed(sec, info, counts, t, p, r, m, s); }
    else if s.Unknown? { TakesUnknown(sec, info, counts, t, p, r, m, s); }
    else if s.SetAddress? { TakesSetAddress(sec, info, counts, t, p, r, m, s); }
    else if s.DefineFile? { TakesDefineFile(sec, info, counts, t, p, r, m, s); }
    else if s.EndSequence? { TakesEndSequence(sec, info, counts, t, p, r, m, s); }
    else if s.Discriminator? { TakesDiscriminator(sec, info, counts, t, p, r, m, s); }
    else { TakesVendor(sec, info, counts, t, p, r, m, s); }
  }

  // ----- whole programs -----

  /** The raw dump is at the end of the program with the registers it leaves; the decoded dump has printed the
      rows of the statements it got through, and is where the raw one is if those are all. */
  predicate Dumped(sec: seq<byte>, info: Info, t: Tables, p: nat, end: nat, r: Regs, m: Point, code: seq<Stmt>)
  {
    var raw, decoded := RawRun(sec, info, p, end, r), DecodedRun(sec, info, t, p, end, r);
    var n := Reach(info, t, m, code);
    && raw.At? && raw.pos == end && Shows(raw.regs, Execute(info, m, code))
    && decoded == (if n == |code| then raw else Stopped(NoEntry))
    && DecodedRows(sec, info, t, p, end, r) == Printable(Matrix(info, m, code[..n]))
  }

  /** Any program, placed anywhere in a section, is dumped as the standard says it runs. */
  lemma {:induction false} ProgramDumped(sec: seq<byte>, info: Info, counts: seq<byte>, t: Tables, p: nat, r: Regs, m: Point, code: seq<Stmt>)
    requires AllFit(info, counts, code) && Machine.At(sec, p, EncodeAll(info, counts, code))
    requires (counts == [] || Machine.At(sec, info.stdOpcodes, counts)) && Shows(r, m)
    ensures Dumped(sec, info, t, p, p + |EncodeAll(info, counts, code)|, r, m, code)
    decreases |code|
  {
    hide Machine.At, Encode, Fits, Taken, Shows, Dumped, RawStep;
    if code == [] {
      NothingToDo(sec, info, t, p, r, m, code);
    } else {
      var head, tail := Encode(info, counts, code[0]), EncodeAll(info, counts, code[1..]);
      var end := p + |head| + |tail|;
      AtSplit(sec, p, head, tail);
      StatementTaken(sec, info, counts, t, p, r, m, code[0]);
      TakenShows(sec, info, t, p, p + |head|, r, m, code[0]);
      ProgramDumped(sec, info, counts, t, p + |head|, RawStep(sec, info, p, r).regs, Effect(info, m, code[0]), code[1..]);
      OneMore(sec, info, t, p, p + |head|, end, r, m, code);
    }
  }

  lemma TakenShows(sec: seq<byte>, info: Info, t: Tables, p: nat, q: nat, r: Regs, m: Point, s: Stmt)
    requires Taken(sec, info, t, p, q, r, m, s)
    ensures RawStep(sec, info, p, r).At? && RawStep(sec, info, p, r).pos == q && Shows(RawStep(sec, info, p, r).regs, Effect(info, m, s))
  {
  }

  lemma NothingToDo(sec: seq<byte>, info: Info, t: Tables, p: nat, r: Regs, m: Point, code: seq<Stmt>)
    requires code == [] && Shows(r, m)
    ensures Dumped(sec, info, t, p, p, r, m, code)
  {
  }

  lemma OneMore(sec: seq<byte>, info: Info, t: Tables, p: nat, q: nat, end: nat, r: Regs, m: Point, code: seq<Stmt>)
    requires code != [] && p < q <= end && Taken(sec, info, t, p, q, r, m, code[0])
    requires Dumped(sec, info, t, q, end, RawStep(sec, info, p, r).regs, Effect(info, m, code[0]), code[1..])
    ensures Dumped(sec, info, t, p, end, r, m, code)
  {
    hide RawStep, DecodedStep, Effect, Found, EmitsRow, Printable, Matrix, Execute;
    ExecuteUnfolds(info, m, code);
    var n := Reach(info, t, m, code);
    MatrixUnfolds(info, m, code, n);
    NoRows(info, m);
    if Found(info, t, m, code[0]) {
      assert code[1..][..n - 1] == code[1..n];
    }
  }

  lemma ExecuteUnfolds(info: Info, m: Point, code: seq<Stmt>)
    requires code != []
    ensures Execute(info, m, code) == Execute(info, Effect(info, m, code[0]), code[1..])
  {
  }

  lemma NoRows(info: Info, m: Point)
    ensures Printable(Matrix(info, m, [])) == []
  {
  }

  /** The first row, and the rest. */
  lemma MatrixUnfolds(info: Info, m: Point, code: seq<Stmt>, n: nat)
    requires code != [] && n <= |code|
    ensures n == 0 ==> code[..n] == []
    ensures n > 0 ==>
              var after, s := Effect(info, m, code[0]), code[0];
              Printable(Matrix(info, m, code[..n]))
              == (if s.Special? || s.Copy? then [Row(after.file, after.line, after.address)] else [])
                 + Printable(Matrix(info, after, code[1..n]))
  {
    hide Effect;
    if n > 0 {
      assert code[..n][0] == code[0] && code[..n][1..] == code[1..n];
      var rest := Matrix(info, Effect(info, m, code[0]), code[1..n]);
      var made := RowMade(info, m, code[0]);
      if made.Some? {
        assert ([made.value] + rest)[1..] == rest;
      } else {
        assert [] + rest == rest;
      }
    }
  }
}
