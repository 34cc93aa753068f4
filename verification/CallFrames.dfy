/** The call-frame interpreter of display_debug_frames (readelf-mini/dwarf.c; section 6.4.2 of DWARF 3).

    Each chunk's instructions are decoded twice: a first pass sizes the column arrays with
    frame_need_space, a second pass fills them, reporting the registers it calls bad. The two
    passes are two separate switches in the source and are kept as two tables here. */
module CallFrames {
  import opened Machine
  import opened ByteOrder
  import Leb128

  const ADVANCE_LOC := 0x40
  const OFFSET := 0x80
  const RESTORE := 0xc0
  const NOP := 0x00
  const SET_LOC := 0x01
  const ADVANCE_LOC1 := 0x02
  const ADVANCE_LOC2 := 0x03
  const ADVANCE_LOC4 := 0x04
  const OFFSET_EXTENDED := 0x05
  const RESTORE_EXTENDED := 0x06
  const UNDEFINED := 0x07
  const SAME_VALUE := 0x08
  const REGISTER := 0x09
  const REMEMBER_STATE := 0x0a
  const RESTORE_STATE := 0x0b
  const DEF_CFA := 0x0c
  const DEF_CFA_REGISTER := 0x0d
  const DEF_CFA_OFFSET := 0x0e
  const DEF_CFA_EXPRESSION := 0x0f
  const EXPRESSION := 0x10
  const OFFSET_EXTENDED_SF := 0x11
  const DEF_CFA_SF := 0x12
  const DEF_CFA_OFFSET_SF := 0x13
  const VAL_OFFSET := 0x14
  const VAL_OFFSET_SF := 0x15
  const VAL_EXPRESSION := 0x16
  const MIPS_ADVANCE_LOC8 := 0x1d
  const GNU_WINDOW_SAVE := 0x2d
  const GNU_ARGS_SIZE := 0x2e
  const GNU_NEGATIVE_OFFSET_EXTENDED := 0x2f

  const UNREFERENCED := -1

  // ----- instructions -----

  /** What follows an opcode byte: LEB128 values, a fixed-size field, or a counted block. */
  datatype Operand = U | S | Fixed(size: nat) | Block

  /** A decoded instruction: the opcode with its six operand bits split off, the operand values
      (a block counts by its length), and the offset of the next instruction. */
  datatype Instr = Instr(op: nat, opa: nat, args: seq<nat>, next: nat)

  /** op and opa: the two high bits alone name the opcode when either is set. */
  function OpOf(b: byte): nat { if b >= 0x40 then b / 0x40 * 0x40 else b }

  function OpaOf(b: byte): nat { b % 0x40 }

  /** The operands the first switch steps over; anything it does not list has none. */
  function FirstShape(op: nat, ptrSize: nat): seq<Operand>
  {
    if op == ADVANCE_LOC then []
    else if op == OFFSET then [U]
    else if op == RESTORE then []
    else if op == SET_LOC then [Fixed(ptrSize)]
    else if op == ADVANCE_LOC1 then [Fixed(1)]
    else if op == ADVANCE_LOC2 then [Fixed(2)]
    else if op == ADVANCE_LOC4 then [Fixed(4)]
    else if op == OFFSET_EXTENDED || op == VAL_OFFSET then [U, U]
    else if op == RESTORE_EXTENDED then [U]
    else if op == UNDEFINED then [U]
    else if op == SAME_VALUE then [U]
    else if op == REGISTER then [U, U]
    else if op == DEF_CFA then [U, U]
    else if op == DEF_CFA_REGISTER then [U]
    else if op == DEF_CFA_OFFSET then [U]
    else if op == DEF_CFA_EXPRESSION then [Block]
    else if op == EXPRESSION || op == VAL_EXPRESSION then [U, Block]
    else if op == OFFSET_EXTENDED_SF || op == VAL_OFFSET_SF then [U, S]
    else if op == DEF_CFA_SF then [U, S]
    else if op == DEF_CFA_OFFSET_SF then [S]
    else if op == MIPS_ADVANCE_LOC8 then [Fixed(8)]
    else if op == GNU_ARGS_SIZE then [U]
    else if op == GNU_NEGATIVE_OFFSET_EXTENDED then [U, U]
    else []
  }

  /** The operands the second switch reads; None is its default case. */
  function SecondShape(op: nat, ptrSize: nat): Option<seq<Operand>>
  {
    if op == ADVANCE_LOC then Some([])
    else if op == OFFSET then Some([U])
    else if op == RESTORE then Some([])
    else if op == SET_LOC then Some([Fixed(ptrSize)])
    else if op == ADVANCE_LOC1 then Some([Fixed(1)])
    else if op == ADVANCE_LOC2 then Some([Fixed(2)])
    else if op == ADVANCE_LOC4 then Some([Fixed(4)])
    else if op == OFFSET_EXTENDED then Some([U, U])
    else if op == VAL_OFFSET then Some([U, U])
    else if op == RESTORE_EXTENDED then Some([U])
    else if op == UNDEFINED then Some([U])
    else if op == SAME_VALUE then Some([U])
    else if op == REGISTER then Some([U, U])
    else if op == REMEMBER_STATE then Some([])
    else if op == RESTORE_STATE then Some([])
    else if op == DEF_CFA then Some([U, U])
    else if op == DEF_CFA_REGISTER then Some([U])
    else if op == DEF_CFA_OFFSET then Some([U])
    else if op == NOP then Some([])
    else if op == DEF_CFA_EXPRESSION then Some([Block])
    else if op == EXPRESSION then Some([U, Block])
    else if op == VAL_EXPRESSION then Some([U, Block])
    else if op == OFFSET_EXTENDED_SF then Some([U, S])
    else if op == VAL_OFFSET_SF then Some([U, S])
    else if op == DEF_CFA_SF then Some([U, S])
    else if op == DEF_CFA_OFFSET_SF then Some([S])
    else if op == MIPS_ADVANCE_LOC8 then Some([Fixed(8)])
    else if op == GNU_WINDOW_SAVE then Some([])
    else if op == GNU_ARGS_SIZE then Some([U])
    else if op == GNU_NEGATIVE_OFFSET_EXTENDED then Some([U, U])
    else None
  }

  lemma ShapesAgree(op: nat, ptrSize: nat)
    ensures SecondShape(op, ptrSize) == Some(FirstShape(op, ptrSize)) || SecondShape(op, ptrSize) == None
  {
  }

  // ----- reading operands -----

  /** One operand at p. The first pass steps over a fixed field without looking at it. */
  function ReadOperand(order: Order, sec: seq<byte>, p: nat, o: Operand, look: bool): (r: Leb128.Read)
    ensures r.Got? ==> p <= r.next
  {
    match o
    case U => Leb128.ReadUnsigned(sec, p)
    case S => Leb128.ReadSigned(sec, p)
    case Fixed(n) =>
      if !look then Leb128.Got(0, p + n)
      else if p + n <= |sec| then Leb128.Got(FieldValue(order, sec[p..p + n]), p + n)
      else Leb128.Overrun
    case Block =>
      match Leb128.ReadUnsigned(sec, p)
      case Overrun => Leb128.Overrun
      case Got(len, q) => Leb128.Got(len, q + len)
  }

  function ReadOperands(order: Order, sec: seq<byte>, p: nat, shape: seq<Operand>, look: bool): (r: Option<(seq<nat>, nat)>)
    ensures r.Some? ==> |r.value.0| == |shape| && p <= r.value.1
    decreases |shape|
  {
    if shape == [] then Some(([], p))
    else
      match ReadOperand(order, sec, p, shape[0], look)
      case Overrun => None
      case Got(v, q) =>
        match ReadOperands(order, sec, q, shape[1..], look)
        case None => None
        case Some((vs, e)) => Some(([v] + vs, e))
  }

  function DecodeWith(order: Order, sec: seq<byte>, p: nat, shape: seq<Operand>, look: bool): (r: Option<Instr>)
    requires p < |sec|
    ensures r.Some? ==> p < r.value.next && |r.value.args| == |shape|
  {
    match ReadOperands(order, sec, p + 1, shape, look)
    case None => None
    case Some((vs, e)) => Some(Instr(OpOf(sec[p]), OpaOf(sec[p]), vs, e))
  }

  function FirstDecode(order: Order, sec: seq<byte>, p: nat, ptrSize: nat): (r: Option<Instr>)
    requires p < |sec|
    ensures r.Some? ==> p < r.value.next
  {
    DecodeWith(order, sec, p, FirstShape(OpOf(sec[p]), ptrSize), false)
  }

  /** None: an unknown opcode (the source jumps to the end of the block) or data that ran out. */
  function SecondDecode(order: Order, sec: seq<byte>, p: nat, ptrSize: nat): (r: Option<Instr>)
    requires p < |sec|
    ensures r.Some? ==> p < r.value.next && SecondShape(r.value.op, ptrSize).Some?
    ensures r.Some? ==> |r.value.args| == |SecondShape(r.value.op, ptrSize).value|
  {
    match SecondShape(OpOf(sec[p]), ptrSize)
    case None => None
    case Some(shape) => DecodeWith(order, sec, p, shape, true)
  }

  /** The register an instruction names, if it names one. */
  function Touches(i: Instr): (r: Option<nat>)
  {
    if i.op == OFFSET || i.op == RESTORE then Some(i.opa)
    else if |i.args| > 0 && (i.op == OFFSET_EXTENDED || i.op == VAL_OFFSET || i.op == RESTORE_EXTENDED
            || i.op == UNDEFINED || i.op == SAME_VALUE || i.op == REGISTER || i.op == EXPRESSION
            || i.op == VAL_EXPRESSION || i.op == OFFSET_EXTENDED_SF || i.op == VAL_OFFSET_SF
            || i.op == GNU_NEGATIVE_OFFSET_EXTENDED) then Some(i.args[0])
    else None
  }

  lemma {:induction false} LookAgrees(order: Order, sec: seq<byte>, p: nat, shape: seq<Operand>)
    requires ReadOperands(order, sec, p, shape, true).Some?
    ensures ReadOperands(order, sec, p, shape, false).Some?
    ensures var a, b := ReadOperands(order, sec, p, shape, false).value, ReadOperands(order, sec, p, shape, true).value;
            a.1 == b.1 && forall k :: 0 <= k < |shape| && !shape[k].Fixed? ==> a.0[k] == b.0[k]
    decreases |shape|
  {
    if shape != [] {
      var q := ReadOperand(order, sec, p, shape[0], true).next;
      assert ReadOperand(order, sec, p, shape[0], false).next == q;
      LookAgrees(order, sec, q, shape[1..]);
    }
  }

  /** What the second pass decodes at an offset, the first pass decoded there too: the same opcode,
      the same register, and the same next offset. */
  lemma DecodesAgree(order: Order, sec: seq<byte>, p: nat, ptrSize: nat)
    requires p < |sec| && SecondDecode(order, sec, p, ptrSize).Some?
    ensures FirstDecode(order, sec, p, ptrSize).Some?
    ensures var a, b := FirstDecode(order, sec, p, ptrSize).value, SecondDecode(order, sec, p, ptrSize).value;
            a.op == b.op && a.opa == b.opa && a.next == b.next && Touches(a) == Touches(b)
  {
    var op := OpOf(sec[p]);
    ShapesAgree(op, ptrSize);
    var shape := FirstShape(op, ptrSize);
    LookAgrees(order, sec, p + 1, shape);
    RegisterOperandFirst(op, ptrSize);
  }

  lemma RegisterOperandFirst(op: nat, ptrSize: nat)
    ensures Touches(Instr(op, 0, [1], 0)).Some? && op != OFFSET && op != RESTORE
            ==> |FirstShape(op, ptrSize)| > 0 && FirstShape(op, ptrSize)[0] == U
  {
  }

  // ----- the column arrays -----

  datatype Cols = Cols(types: seq<int>, offsets: seq<int>)

  predicate Paired(c: Cols) { |c.types| == |c.offsets| }

  function Filled(n: nat, x: int): seq<int> { seq(n, _ => x) }

  /** frame_need_space on a register number truncated to unsigned int, for a machine with
      regnames > 0 named registers: the new columns and its result. */
  function NeedSpace(c: Cols, regnames: nat, reg: nat): (r: (Cols, int))
    requires regnames > 0 && Paired(c)
    ensures Paired(r.0) && c.types <= r.0.types && c.offsets <= r.0.offsets
    ensures r.1 < 0 <==> reg % TWO_32 >= |c.types| && reg % TWO_32 > regnames
    ensures r.1 >= 0 ==> reg % TWO_32 < |r.0.types|
    ensures |c.types| <= regnames + 1 ==> |r.0.types| <= regnames + 1
  {
    var r32 := reg % TWO_32;
    if r32 < |c.types| then (c, 0)
    else if r32 > regnames then (c, -1)
    else
      var more := r32 + 1 - |c.types|;
      (Cols(c.types + Filled(more, UNREFERENCED), c.offsets + Filled(more, 0)), 1)
  }

  /** Storing into column reg. The source indexes with the untruncated register number: None is a store
      outside the arrays, after which nothing can be said. */
  function SetColumn(c: Cols, reg: nat, ty: int, offset: Option<int>): (r: Option<Cols>)
    requires Paired(c)
    ensures r.Some? <==> reg < |c.types|
    ensures r.Some? ==> Paired(r.value) && |r.value.types| == |c.types|
  {
    if reg >= |c.types| then None
    else Some(Cols(c.types[reg := ty], if offset.Some? then c.offsets[reg := offset.value] else c.offsets))
  }

  // ----- the first pass -----

  /** A register instruction as a pass saw it. */
  datatype Report = Report(at: nat, op: nat, reg: nat, bad: bool)

  function FirstStep(c: Cols, regnames: nat, i: Instr): (r: Option<Cols>)
    requires regnames > 0 && Paired(c)
    ensures r.Some? ==> Paired(r.value) && |c.types| <= |r.value.types|
    ensures r.Some? && |c.types| <= regnames + 1 ==> |r.value.types| <= regnames + 1
  {
    match Touches(i)
    case None => Some(c)
    case Some(reg) =>
      var (grown, status) := NeedSpace(c, regnames, reg);
      if status >= 0 then SetColumn(grown, reg, UNDEFINED, None) else Some(grown)
  }

  /** The instructions of one chunk: the section, the end of the block, the size of an encoded pointer. */
  datatype Program = Program(order: Order, sec: seq<byte>, end: nat, ptrSize: nat)

  predicate InSection(b: Program) { b.end <= |b.sec| }

  /** How a pass over a chunk ends: with its result, at a store outside the arrays, or at an operand past the
      section; after either of the last two nothing can be said. */
  datatype Pass<+T> = Done(value: T) | Outside | RanOff

  function FirstPass(b: Program, p: nat, c: Cols, regnames: nat): (r: Pass<Cols>)
    requires InSection(b) && regnames > 0 && Paired(c)
    ensures r.Done? ==> Paired(r.value) && |c.types| <= |r.value.types|
    ensures r.Done? && |c.types| <= regnames + 1 ==> |r.value.types| <= regnames + 1
    decreases b.end - p
  {
    if p >= b.end then Done(c)
    else
      match FirstDecode(b.order, b.sec, p, b.ptrSize)
      case None => RanOff
      case Some(i) =>
        match FirstStep(c, regnames, i)
        case None => Outside
        case Some(c') => FirstPass(b, i.next, c', regnames)
  }

  /** The offsets the first pass decodes at. */
  function FirstOffsets(b: Program, p: nat): seq<nat>
    requires InSection(b)
    decreases b.end - p
  {
    if p >= b.end then []
    else
      match FirstDecode(b.order, b.sec, p, b.ptrSize)
      case None => [p]
      case Some(i) => [p] + FirstOffsets(b, i.next)
  }

  /** The register instructions of the first pass, bad when frame_need_space refused. */
  function FirstReports(b: Program, p: nat, c: Cols, regnames: nat): seq<Report>
    requires InSection(b) && regnames > 0 && Paired(c)
    decreases b.end - p
  {
    if p >= b.end then []
    else
      match FirstDecode(b.order, b.sec, p, b.ptrSize)
      case None => []
      case Some(i) =>
        var rest := match FirstStep(c, regnames, i) case None => [] case Some(c') => FirstReports(b, i.next, c', regnames);
        match Touches(i)
        case None => rest
        case Some(reg) => [Report(p, i.op, reg, NeedSpace(c, regnames, reg).1 < 0)] + rest
  }

  // ----- the second pass -----

  /** How fde_encoding lays out an address: its size, whether it is signed, and whether it counts from its own
      place in the section, which is loaded at address. */
  datatype Pointer = Pointer(size: nat, signed: bool, pcrel: bool, address: nat)

  /** cie is None when the chunk is its own CIE. */
  datatype Env = Env(regnames: nat, cie: Option<Cols>, codeFactor: nat, dataFactor: int, pointer: Pointer, interp: bool)

  /** The CFA rule of a Frame_Chunk: cfa_reg, cfa_offset and cfa_exp. */
  datatype Cfa = Cfa(reg: int, offset: int, exp: bool)

  /** What frame_display_row prints. */
  datatype Row = Row(pc: nat, cfa: Cfa, cols: Cols)

  datatype State = State(cols: Cols, remembered: seq<Cols>, maxRegs: nat, cfa: Cfa, pc: nat, rows: seq<Row>)

  predicate ValidEnv(e: Env) { e.regnames > 0 && (e.cie.Some? ==> Paired(e.cie.value)) }

  predicate ValidState(s: State) { Paired(s.cols) && forall k :: 0 <= k < |s.remembered| ==> Paired(s.remembered[k]) }

  function Int32(x: int): int { (x + TWO_31) % TWO_32 - TWO_31 }

  function CieCols(e: Env, s: State): Cols { if e.cie.Some? then e.cie.value else s.cols }

  predicate SignedForm(op: nat)
  {
    op == OFFSET_EXTENDED_SF || op == VAL_OFFSET_SF || op == GNU_NEGATIVE_OFFSET_EXTENDED
  }

  predicate RestoreForm(op: nat) { op == RESTORE || op == RESTORE_EXTENDED }

  /** Whether the second pass prefixes the register with "bad register". */
  predicate Bad(e: Env, s: State, op: nat, reg: nat)
    requires ValidEnv(e) && ValidState(s)
  {
    if SignedForm(op) then NeedSpace(s.cols, e.regnames, reg).1 < 0
    else if RestoreForm(op) then reg >= |CieCols(e, s).types| || reg >= |s.cols.types|
    else reg >= |s.cols.types|
  }

  /** The type and offset a register instruction writes when its register is not bad. */
  function Written(e: Env, s: State, i: Instr, reg: nat): (int, Option<int>)
    requires ValidState(s) && (RestoreForm(i.op) ==> Paired(CieCols(e, s)) && reg < |CieCols(e, s).types|)
  {
    var arg := if i.op == OFFSET then (if |i.args| > 0 then i.args[0] else 0) else (if |i.args| > 1 then i.args[1] else 0);
    if RestoreForm(i.op) then (CieCols(e, s).types[reg], Some(CieCols(e, s).offsets[reg]))
    else if i.op == OFFSET || i.op == OFFSET_EXTENDED || i.op == OFFSET_EXTENDED_SF then (OFFSET, Some(Int32(arg * e.dataFactor)))
    else if i.op == VAL_OFFSET || i.op == VAL_OFFSET_SF then (VAL_OFFSET, Some(Int32(arg * e.dataFactor)))
    else if i.op == UNDEFINED then (UNDEFINED, Some(0))
    else if i.op == SAME_VALUE then (SAME_VALUE, Some(0))
    else if i.op == REGISTER then (REGISTER, Some(Int32(arg)))
    else if i.op == EXPRESSION then (EXPRESSION, None)
    else if i.op == VAL_EXPRESSION then (VAL_EXPRESSION, None)
    else (OFFSET, Some(Int32(-arg * e.dataFactor)))
  }

  /** The first n bytes of the saved array of shorts copied over the current one, on a little-endian host. */
  function CopyTypeBytes(current: seq<int>, saved: seq<int>, n: nat): (r: seq<int>)
    requires n <= |saved| && n <= |current|
    ensures |r| == |current|
  {
    seq(|current|, k requires 0 <= k < |current| =>
      if 2 * k + 2 <= n then saved[k]
      else if 2 * k + 1 == n then current[k] - current[k] % 256 + saved[k] % 256
      else current[k])
  }

  /** DW_CFA_restore_state: the offsets come back as ncols ints, the types as ncols bytes. None when there
      is no room for them, a copy outside the arrays. */
  function RestoreSaved(c: Cols, saved: Cols, regnames: nat): (r: Option<Cols>)
    requires Paired(c) && Paired(saved) && regnames > 0
    ensures r.Some? ==> Paired(r.value) && |c.types| <= |r.value.types|
    ensures r.Some? && |c.types| <= regnames + 1 && |saved.types| <= regnames + 1 ==> |r.value.types| <= regnames + 1
  {
    var n := |saved.types|;
    var grown := NeedSpace(c, regnames, (n - 1) % TWO_32).0;
    if n > |grown.types| then None
    else Some(Cols(CopyTypeBytes(grown.types, saved.types, n), saved.offsets + grown.offsets[n..]))
  }

  predicate ShowsRow(op: nat)
  {
    op == ADVANCE_LOC || op == SET_LOC || op == ADVANCE_LOC1 || op == ADVANCE_LOC2
    || op == ADVANCE_LOC4 || op == MIPS_ADVANCE_LOC8
  }

  /** frame_display_row first raises max_regs to the chunk's column count. */
  function Raise(maxRegs: nat, ncols: nat): nat { if maxRegs < ncols then ncols else maxRegs }

  function DisplayRow(s: State): State
  {
    s.(maxRegs := Raise(s.maxRegs, |s.cols.types|), rows := s.rows + [Row(s.pc, s.cfa, s.cols)])
  }

  /** get_encoded_value of the field v, whose place in the section is given, moved there if pc-relative. */
  function Located(p: Pointer, v: nat, place: int): nat
  {
    var x := if p.signed && p.size > 0 && v >= Pow2(8 * p.size - 1) then v - Pow2(8 * p.size) else v;
    (if p.pcrel then x + p.address + place else x) % TWO_64
  }

  /** pc_begin after a row. A short advance is multiplied in 32 bits. */
  function MovedTo(e: Env, pc: nat, i: Instr): nat
  {
    var arg := if |i.args| > 0 then i.args[0] else 0;
    if i.op == SET_LOC then Located(e.pointer, arg, i.next - e.pointer.size)
    else if i.op == ADVANCE_LOC then (pc + i.opa * e.codeFactor % TWO_32) % TWO_64
    else (pc + arg * e.codeFactor) % TWO_64
  }

  /** The CFA rule after an instruction that does not name a register's rule. */
  function NewCfa(e: Env, c: Cfa, i: Instr): Cfa
  {
    var a := if |i.args| > 0 then i.args[0] else 0;
    var b := if |i.args| > 1 then i.args[1] else 0;
    if i.op == DEF_CFA then Cfa(Int32(a), Int32(b), false)
    else if i.op == DEF_CFA_REGISTER then Cfa(Int32(a), c.offset, false)
    else if i.op == DEF_CFA_OFFSET then c.(offset := Int32(a))
    else if i.op == DEF_CFA_EXPRESSION then c.(exp := true)
    else if i.op == DEF_CFA_SF then Cfa(Int32(a), Int32(Int32(b) * e.dataFactor), false)
    else if i.op == DEF_CFA_OFFSET_SF then c.(offset := Int32(Int32(a) * e.dataFactor))
    else c
  }

  /** The state with new columns, if they could be stored. */
  function WithCols(s: State, cols: Option<Cols>): Option<State>
  {
    match cols case None => None case Some(c) => Some(s.(cols := c))
  }

  /** None: a store fell outside the arrays. */
  function SecondStep(e: Env, s: State, i: Instr): (r: Option<State>)
    requires ValidEnv(e) && ValidState(s)
    ensures r.Some? ==> ValidState(r.value) && |s.cols.types| <= |r.value.cols.types|
  {
    match Touches(i)
    case Some(reg) =>
      var cols := if SignedForm(i.op) then NeedSpace(s.cols, e.regnames, reg).0 else s.cols;
      if Bad(e, s, i.op, reg) then Some(s.(cols := cols))
      else
        var (ty, offset) := Written(e, s, i, reg);
        WithCols(s, SetColumn(cols, reg, ty, offset))
    case None =>
      if i.op == REMEMBER_STATE then Some(s.(remembered := [s.cols] + s.remembered))
      else if i.op == RESTORE_STATE then
        if s.remembered == [] then Some(s)
        else WithCols(s.(remembered := s.remembered[1..]), RestoreSaved(s.cols, s.remembered[0], e.regnames))
      else if ShowsRow(i.op) then Some((if e.interp then DisplayRow(s) else s).(pc := MovedTo(e, s.pc, i)))
      else Some(s.(cfa := NewCfa(e, s.cfa, i)))
  }

  /** The default case of the second switch, which goes to the end of the block. */
  predicate UnknownAt(b: Program, p: nat)
    requires p < |b.sec|
  {
    SecondShape(OpOf(b.sec[p]), b.ptrSize) == None
  }

  function SecondPass(b: Program, p: nat, e: Env, s: State): (r: Pass<State>)
    requires InSection(b) && ValidEnv(e) && ValidState(s)
    ensures r.Done? ==> ValidState(r.value)
    decreases b.end - p
  {
    if p >= b.end then Done(s)
    else
      match SecondDecode(b.order, b.sec, p, b.ptrSize)
      case None => if UnknownAt(b, p) then Done(s) else RanOff
      case Some(i) =>
        match SecondStep(e, s, i)
        case None => Outside
        case Some(s') => SecondPass(b, i.next, e, s')
  }

  function SecondOffsets(b: Program, p: nat): seq<nat>
    requires InSection(b)
    decreases b.end - p
  {
    if p >= b.end then []
    else
      match SecondDecode(b.order, b.sec, p, b.ptrSize)
      case None => [p]
      case Some(i) => [p] + SecondOffsets(b, i.next)
  }

  function SecondReports(b: Program, p: nat, e: Env, s: State): seq<Report>
    requires InSection(b) && ValidEnv(e) && ValidState(s)
    decreases b.end - p
  {
    if p >= b.end then []
    else
      match SecondDecode(b.order, b.sec, p, b.ptrSize)
      case None => []
      case Some(i) =>
        var rest := match SecondStep(e, s, i) case None => [] case Some(s') => SecondReports(b, i.next, e, s');
        match Touches(i)
        case None => rest
        case Some(reg) => [Report(p, i.op, reg, Bad(e, s, i.op, reg))] + rest
  }

  // ----- the passes as the source runs them -----

  /** The column arrays of a Frame_Chunk, ncols being their length, its CFA rule and its location. */
  class FrameChunk {
    var colType: seq<int>
    var colOffset: seq<int>
    var cfaReg: int
    var cfaOffset: int
    var cfaExp: bool
    var pcBegin: nat

    ghost predicate Valid()
      reads this
    {
      |colType| == |colOffset|
    }

    ghost function Columns(): Cols
      reads this
    {
      Cols(colType, colOffset)
    }

    /** The chunk as a state of the second pass, with what display_debug_frames keeps beside it. */
    ghost function Now(remembered: seq<Cols>, maxRegs: nat, rows: seq<Row>): State
      reads this
    {
      State(Columns(), remembered, maxRegs, Cfa(cfaReg, cfaOffset, cfaExp), pcBegin, rows)
    }

    constructor ()
      ensures Valid() && Now([], 0, []) == State(Cols([], []), [], 0, Cfa(0, 0, false), 0, [])
    {
      colType, colOffset := [], [];
      cfaReg, cfaOffset, cfaExp, pcBegin := 0, 0, false, 0;
    }

    /** frame_need_space; reg arrives as an unsigned int. */
    method FrameNeedSpace(regnames: nat, reg: nat) returns (status: int)
      requires Valid() && regnames > 0 && reg < TWO_32
      modifies this`colType, this`colOffset
      ensures Valid() && (Columns(), status) == NeedSpace(old(Columns()), regnames, reg)
    {
      if reg < |colType| { return 0; }
      if reg > regnames { return -1; }
      ghost var types, offsets := colType, colOffset;
      var prev := |colType|;
      while prev < reg + 1
        invariant |types| <= prev <= reg + 1
        invariant colType == types + Filled(prev - |types|, UNREFERENCED)
        invariant colOffset == offsets + Filled(prev - |types|, 0)
      {
        colType := colType + [UNREFERENCED];
        colOffset := colOffset + [0];
        prev := prev + 1;
      }
      return 1;
    }

    /** One round of the first pass; not inside when it stores outside the arrays. */
    method NoteRegister(i: Instr, regnames: nat) returns (inside: bool)
      requires Valid() && regnames > 0
      modifies this
      ensures Valid() && inside == FirstStep(old(Columns()), regnames, i).Some?
      ensures inside ==> Columns() == FirstStep(old(Columns()), regnames, i).value
    {
      var reg := Touches(i);
      if reg.Some? {
        var status := FrameNeedSpace(regnames, reg.value % TWO_32);
        if status >= 0 {
          if reg.value >= |colType| { return false; }
          colType := colType[reg.value := UNDEFINED];
        }
      }
      return true;
    }

    /** The first pass over the chunk. */
    method SizeColumns(b: Program, start: nat, regnames: nat) returns (r: Pass<Cols>)
      requires Valid() && regnames > 0 && InSection(b)
      modifies this
      ensures Valid() && r == FirstPass(b, start, old(Columns()), regnames)
      ensures r.Done? ==> r.value == Columns()
    {
      var p := start;
      while p < b.end
        invariant Valid()
        invariant FirstPass(b, p, Columns(), regnames) == FirstPass(b, start, old(Columns()), regnames)
        decreases b.end - p
      {
        var decoded := FirstDecode(b.order, b.sec, p, b.ptrSize);
        if decoded.None? { return RanOff; }
        var inside := NoteRegister(decoded.value, regnames);
        if !inside { return Outside; }
        p := decoded.value.next;
      }
      return Done(Cols(colType, colOffset));
    }

    /** DW_CFA_restore_state for a saved chunk. */
    method CopyBack(saved: Cols, regnames: nat) returns (inside: bool)
      requires Valid() && Paired(saved) && regnames > 0
      modifies this`colType, this`colOffset
      ensures Valid() && inside == RestoreSaved(old(Columns()), saved, regnames).Some?
      ensures inside ==> Columns() == RestoreSaved(old(Columns()), saved, regnames).value
    {
      var n := |saved.types|;
      var _ := FrameNeedSpace(regnames, (n - 1) % TWO_32);
      if n > |colType| { return false; }
      colType := CopyTypeBytes(colType, saved.types, n);
      colOffset := saved.offsets + colOffset[n..];
      return true;
    }

    /** A register instruction that is not bad, case by case; not inside when the column does not exist. */
    method StoreRule(e: Env, i: Instr, reg: nat) returns (inside: bool)
      requires Valid() && ValidEnv(e) && Touches(i) == Some(reg)
      requires RestoreForm(i.op) ==> reg < |colType| && reg < |if e.cie.Some? then e.cie.value.types else colType|
      modifies this`colType, this`colOffset
      ensures Valid() && inside == (reg < |old(colType)|)
      ensures inside ==> var (ty, offset) := Written(e, old(Now([], 0, [])), i, reg);
                SetColumn(old(Columns()), reg, ty, offset) == Some(Columns())
    {
      if reg >= |colType| { return false; }
      var operand := if |i.args| > 1 then i.args[1] else 0;
      if i.op == OFFSET {
        colType := colType[reg := OFFSET];
        colOffset := colOffset[reg := Int32((if |i.args| > 0 then i.args[0] else 0) * e.dataFactor)];
      } else if i.op == RESTORE || i.op == RESTORE_EXTENDED {
        var cie := if e.cie.Some? then e.cie.value else Cols(colType, colOffset);
        colType := colType[reg := cie.types[reg]];
        colOffset := colOffset[reg := cie.offsets[reg]];
      } else if i.op == OFFSET_EXTENDED || i.op == OFFSET_EXTENDED_SF {
        colType := colType[reg := OFFSET];
        colOffset := colOffset[reg := Int32(operand * e.dataFactor)];
      } else if i.op == VAL_OFFSET || i.op == VAL_OFFSET_SF {
        colType := colType[reg := VAL_OFFSET];
        colOffset := colOffset[reg := Int32(operand * e.dataFactor)];
      } else if i.op == UNDEFINED {
        colType := colType[reg := UNDEFINED];
        colOffset := colOffset[reg := 0];
      } else if i.op == SAME_VALUE {
        colType := colType[reg := SAME_VALUE];
        colOffset := colOffset[reg := 0];
      } else if i.op == REGISTER {
        colType := colType[reg := REGISTER];
        colOffset := colOffset[reg := Int32(operand)];
      } else if i.op == EXPRESSION {
        colType := colType[reg := EXPRESSION];
      } else if i.op == VAL_EXPRESSION {
        colType := colType[reg := VAL_EXPRESSION];
      } else {
        colType := colType[reg := OFFSET];
        colOffset := colOffset[reg := Int32(-operand * e.dataFactor)];
      }
      return true;
    }

    /** A register instruction: a signed form asks frame_need_space again, the others compare with ncols. */
    method ApplyToRegister(e: Env, i: Instr, reg: nat, ghost s: State) returns (inside: bool)
      requires Valid() && ValidEnv(e) && ValidState(s) && s == Now(s.remembered, s.maxRegs, s.rows) && Touches(i) == Some(reg)
      modifies this`colType, this`colOffset
      ensures Valid() && inside == SecondStep(e, s, i).Some?
      ensures inside ==> SecondStep(e, s, i) == Some(s.(cols := Columns()))
    {
      var bad := false;
      if SignedForm(i.op) {
        var status := FrameNeedSpace(e.regnames, reg % TWO_32);
        bad := status < 0;
      } else if RestoreForm(i.op) {
        bad := reg >= |if e.cie.Some? then e.cie.value.types else colType| || reg >= |colType|;
      } else {
        bad := reg >= |colType|;
      }
      assert bad == Bad(e, s, i.op, reg);
      inside := true;
      if !bad { inside := StoreRule(e, i, reg); }
    }

    /** The instructions for the CFA rule. */
    method StoreCfa(e: Env, i: Instr)
      modifies this`cfaReg, this`cfaOffset, this`cfaExp
      ensures Cfa(cfaReg, cfaOffset, cfaExp) == NewCfa(e, old(Cfa(cfaReg, cfaOffset, cfaExp)), i)
    {
      var a := if |i.args| > 0 then i.args[0] else 0;
      var b := if |i.args| > 1 then i.args[1] else 0;
      if i.op == DEF_CFA {
        cfaReg, cfaOffset, cfaExp := Int32(a), Int32(b), false;
      } else if i.op == DEF_CFA_REGISTER {
        cfaReg, cfaExp := Int32(a), false;
      } else if i.op == DEF_CFA_OFFSET {
        cfaOffset := Int32(a);
      } else if i.op == DEF_CFA_EXPRESSION {
        cfaExp := true;
      } else if i.op == DEF_CFA_SF {
        cfaReg, cfaOffset := Int32(a), Int32(b);
        cfaOffset := Int32(cfaOffset * e.dataFactor);
        cfaExp := false;
      } else if i.op == DEF_CFA_OFFSET_SF {
        cfaOffset := Int32(a);
        cfaOffset := Int32(cfaOffset * e.dataFactor);
      }
    }

    /** One round of the second pass: the new remembered list, max_regs and rows. */
    method Interpret(e: Env, i: Instr, remembered: seq<Cols>, maxRegs: nat, rows: seq<Row>)
      returns (inside: bool, remembered': seq<Cols>, maxRegs': nat, rows': seq<Row>)
      requires Valid() && ValidEnv(e) && ValidState(Now(remembered, maxRegs, rows))
      modifies this
      ensures Valid() && inside == SecondStep(e, old(Now(remembered, maxRegs, rows)), i).Some?
      ensures inside ==>
                Now(remembered', maxRegs', rows') == SecondStep(e, old(Now(remembered, maxRegs, rows)), i).value
    {
      hide NewCfa, MovedTo, Touches, Bad, Written, RestoreSaved;
      inside, remembered', maxRegs', rows' := true, remembered, maxRegs, rows;
      ghost var s := Now(remembered, maxRegs, rows);
      var touched := Touches(i);
      if touched.Some? {
        inside := ApplyToRegister(e, i, touched.value, s);
      } else if i.op == REMEMBER_STATE {
        remembered' := [Cols(colType, colOffset)] + remembered;
      } else if i.op == RESTORE_STATE {
        if remembered != [] {
          inside := CopyBack(remembered[0], e.regnames);
          remembered' := remembered[1..];
        }
      } else if ShowsRow(i.op) {
        if e.interp {
          maxRegs' := Raise(maxRegs, |colType|);
          rows' := rows + [Row(pcBegin, Cfa(cfaReg, cfaOffset, cfaExp), Cols(colType, colOffset))];
        }
        pcBegin := MovedTo(e, pcBegin, i);
      } else {
        StoreCfa(e, i);
      }
    }

    /** The second pass over the chunk. */
    method FillColumns(b: Program, start: nat, e: Env, remembered: seq<Cols>, maxRegs: nat) returns (r: Pass<State>)
      requires Valid() && InSection(b) && ValidEnv(e) && ValidState(Now(remembered, maxRegs, []))
      modifies this
      ensures Valid() && r == SecondPass(b, start, e, old(Now(remembered, maxRegs, [])))
      ensures r.Done? ==> r.value == Now(r.value.remembered, r.value.maxRegs, r.value.rows)
    {
      hide SecondStep, SecondDecode;
      var states, widest, rows := remembered, maxRegs, [];
      var p := start;
      while p < b.end
        invariant Valid() && ValidState(Now(states, widest, rows))
        invariant SecondPass(b, p, e, Now(states, widest, rows))
                  == SecondPass(b, start, e, old(Now(remembered, maxRegs, [])))
        decreases b.end - p
      {
        var decoded := SecondDecode(b.order, b.sec, p, b.ptrSize);
        if decoded.None? {
          if UnknownAt(b, p) { break; }
          return RanOff;
        }
        var inside;
        inside, states, widest, rows := Interpret(e, decoded.value, states, widest, rows);
        if !inside { return Outside; }
        p := decoded.value.next;
      }
      return Done(State(Cols(colType, colOffset), states, widest, Cfa(cfaReg, cfaOffset, cfaExp), pcBegin, rows));
    }
  }
}
