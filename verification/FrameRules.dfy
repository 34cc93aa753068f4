/** The unwind table of section 6.4 of DWARF 3, and that display_debug_frames prints it.

    The table is defined on its own: rules, instructions with their byte forms, and what each instruction does to
    the rules. The theorems say which column, CFA rule, location and row the second pass shows for it. */
module FrameRules {
  import opened Machine
  import opened ByteOrder
  import Leb128
  import opened CallFrames
  import opened CallFrameProofs

  // ----- the table -----

  /** How the previous value of a register is found: it is lost, or unchanged; it lies at CFA + n, or is CFA + n;
      it is in another register; it lies where an expression says, or is what it says. */
  datatype Rule = Unsaved | Same | AtOffset(n: int) | IsOffset(n: int) | InRegister(r: nat) | AtExpression | IsExpression

  /** The rules of the registers that have one. */
  type Rules = map<nat, Rule>

  /** The CFA is a register plus a number, or an expression. */
  datatype CfaRule = CfaRule(reg: nat, n: int, exp: bool)

  datatype TableRow = TableRow(loc: nat, cfa: CfaRule, rules: Rules)

  /** The table while it is built: the row being made, the remembered rules, the rows finished. */
  datatype Table = Table(rules: Rules, cfa: CfaRule, loc: nat, stack: seq<Rules>, rows: seq<TableRow>)

  /** The call frame instructions. */
  datatype Cfi =
    | AdvanceLoc(delta: nat)
    | AdvanceLoc1(delta: nat)
    | AdvanceLoc2(delta: nat)
    | AdvanceLoc4(delta: nat)
    | AdvanceLoc8(delta: nat)
    | SetLoc(field: nat)
    | DefCfa(reg: nat, u: nat)
    | DefCfaSf(reg: nat, n: int)
    | DefCfaRegister(reg: nat)
    | DefCfaOffset(u: nat)
    | DefCfaOffsetSf(n: int)
    | DefCfaExpression(block: seq<byte>)
    | OffsetShort(reg: nat, u: nat)
    | OffsetExtended(reg: nat, u: nat)
    | OffsetExtendedSf(reg: nat, n: int)
    | NegativeOffset(reg: nat, u: nat)
    | ValOffset(reg: nat, u: nat)
    | ValOffsetSf(reg: nat, n: int)
    | RestoreShort(reg: nat)
    | RestoreExtended(reg: nat)
    | Forget(reg: nat)
    | Keep(reg: nat)
    | Move(reg: nat, to: nat)
    | ExpressionAt(reg: nat, block: seq<byte>)
    | ExpressionIs(reg: nat, block: seq<byte>)
    | RememberState
    | RestoreState
    | Nop
    | WindowSave
    | ArgsSize(u: nat)

  function U128(v: nat): seq<byte> { Leb128.EncodeUnsigned(v) }

  function S128(v: int): seq<byte> { Leb128.EncodeSigned(v) }

  /** The bytes of an instruction (figure 40 of DWARF 3, and the vendor opcodes). */
  function Encode(order: Order, ptrSize: nat, c: Cfi): (bs: seq<byte>)
    requires Fits(ptrSize, c)
    ensures bs != []
  {
    match c
    case AdvanceLoc(d) => [0x40 + d]
    case OffsetShort(r, u) => [0x80 + r] + U128(u)
    case RestoreShort(r) => [0xc0 + r]
    case Nop => [0x00]
    case SetLoc(v) => [0x01] + FieldBytes(order, v, ptrSize)
    case AdvanceLoc1(d) => [0x02] + FieldBytes(order, d, 1)
    case AdvanceLoc2(d) => [0x03] + FieldBytes(order, d, 2)
    case AdvanceLoc4(d) => [0x04] + FieldBytes(order, d, 4)
    case OffsetExtended(r, u) => [0x05] + (U128(r) + U128(u))
    case RestoreExtended(r) => [0x06] + U128(r)
    case Forget(r) => [0x07] + U128(r)
    case Keep(r) => [0x08] + U128(r)
    case Move(r, to) => [0x09] + (U128(r) + U128(to))
    case RememberState => [0x0a]
    case RestoreState => [0x0b]
    case DefCfa(r, u) => [0x0c] + (U128(r) + U128(u))
    case DefCfaRegister(r) => [0x0d] + U128(r)
    case DefCfaOffset(u) => [0x0e] + U128(u)
    case DefCfaExpression(b) => [0x0f] + (U128(|b|) + b)
    case ExpressionAt(r, b) => [0x10] + (U128(r) + (U128(|b|) + b))
    case OffsetExtendedSf(r, n) => [0x11] + (U128(r) + S128(n))
    case DefCfaSf(r, n) => [0x12] + (U128(r) + S128(n))
    case DefCfaOffsetSf(n) => [0x13] + S128(n)
    case ValOffset(r, u) => [0x14] + (U128(r) + U128(u))
    case ValOffsetSf(r, n) => [0x15] + (U128(r) + S128(n))
    case ExpressionIs(r, b) => [0x16] + (U128(r) + (U128(|b|) + b))
    case AdvanceLoc8(d) => [0x1d] + FieldBytes(order, d, 8)
    case WindowSave => [0x2d]
    case ArgsSize(u) => [0x2e] + U128(u)
    case NegativeOffset(r, u) => [0x2f] + (U128(r) + U128(u))
  }

  predicate Signed64(n: int) { -(TWO_64 / 2) <= n < TWO_64 / 2 }

  /** The operands have room in their fields. */
  predicate Fits(ptrSize: nat, c: Cfi)
  {
    match c
    case AdvanceLoc(d) => d < 64
    case OffsetShort(r, u) => r < 64 && u < TWO_64
    case RestoreShort(r) => r < 64
    case SetLoc(v) => v < Pow2(8 * ptrSize)
    case AdvanceLoc1(d) => d < 256
    case AdvanceLoc2(d) => d < 0x1_0000
    case AdvanceLoc4(d) => d < TWO_32
    case AdvanceLoc8(d) => d < TWO_64
    case DefCfa(r, u) => r < TWO_64 && u < TWO_64
    case DefCfaSf(r, n) => r < TWO_64 && Signed64(n)
    case DefCfaRegister(r) => r < TWO_64
    case DefCfaOffset(u) => u < TWO_64
    case DefCfaOffsetSf(n) => Signed64(n)
    case DefCfaExpression(b) => |b| < TWO_64
    case OffsetExtended(r, u) => r < TWO_64 && u < TWO_64
    case OffsetExtendedSf(r, n) => r < TWO_64 && Signed64(n)
    case NegativeOffset(r, u) => r < TWO_64 && u < TWO_64
    case ValOffset(r, u) => r < TWO_64 && u < TWO_64
    case ValOffsetSf(r, n) => r < TWO_64 && Signed64(n)
    case RestoreExtended(r) => r < TWO_64
    case Forget(r) => r < TWO_64
    case Keep(r) => r < TWO_64
    case Move(r, to) => r < TWO_64 && to < TWO_64
    case ExpressionAt(r, b) => r < TWO_64 && |b| < TWO_64
    case ExpressionIs(r, b) => r < TWO_64 && |b| < TWO_64
    case ArgsSize(u) => u < TWO_64
    case RememberState => true
    case RestoreState => true
    case Nop => true
    case WindowSave => true
  }

  /** What the CIE of a chunk provides: its rules, and how many columns it has. */
  datatype CieRules = CieRules(rules: Rules, width: nat)

  /** The factors and the CIE of a chunk; the CIE itself has none. */
  datatype Factors = Factors(code: nat, data: int, pointer: Pointer, cie: Option<CieRules>)

  function SetRule(t: Table, reg: nat, rule: Rule): Table { t.(rules := t.rules[reg := rule]) }

  /** The rule of the CIE comes back. Two things are as the dump has them: in a CIE nothing changes, and neither
      does it for a register the CIE has no column for. */
  function RestoreRule(f: Factors, t: Table, reg: nat): Table
  {
    match f.cie
    case None => t
    case Some(cie) =>
      if reg >= cie.width then t
      else if reg in cie.rules then SetRule(t, reg, cie.rules[reg])
      else t.(rules := t.rules - {reg})
  }

  /** A new row: the old one is finished. */
  function NewRow(t: Table, loc: int): Table
  {
    t.(rows := t.rows + [TableRow(t.loc, t.cfa, t.rules)], loc := loc % TWO_64)
  }

  /** The address of a DW_CFA_set_loc whose operand lies at place: the value of the field, signed if the encoding
      says so, counted from the place if it is pc-relative. */
  function SetTo(p: Pointer, field: nat, place: nat): int
  {
    (if p.signed && p.size > 0 && 2 * field >= Pow2(8 * p.size) then field - Pow2(8 * p.size) else field)
    + (if p.pcrel then p.address + place else 0)
  }

  /** What an instruction at an offset does (section 6.4.2 of DWARF 3). */
  function Effect(f: Factors, t: Table, c: Cfi, at: nat): Table
  {
    match c
    case AdvanceLoc(d) => NewRow(t, t.loc + d * f.code % TWO_32)
    case AdvanceLoc1(d) => NewRow(t, t.loc + d * f.code)
    case AdvanceLoc2(d) => NewRow(t, t.loc + d * f.code)
    case AdvanceLoc4(d) => NewRow(t, t.loc + d * f.code)
    case AdvanceLoc8(d) => NewRow(t, t.loc + d * f.code)
    case SetLoc(v) => NewRow(t, SetTo(f.pointer, v, at + 1))
    case DefCfa(r, u) => t.(cfa := CfaRule(r, u, false))
    case DefCfaSf(r, n) => t.(cfa := CfaRule(r, n * f.data, false))
    case DefCfaRegister(r) => t.(cfa := CfaRule(r, t.cfa.n, false))
    case DefCfaOffset(u) => t.(cfa := t.cfa.(n := u))
    case DefCfaOffsetSf(n) => t.(cfa := t.cfa.(n := n * f.data))
    case DefCfaExpression(_) => t.(cfa := t.cfa.(exp := true))
    case OffsetShort(r, u) => SetRule(t, r, AtOffset(u * f.data))
    case OffsetExtended(r, u) => SetRule(t, r, AtOffset(u * f.data))
    case OffsetExtendedSf(r, n) => SetRule(t, r, AtOffset(n * f.data))
    case NegativeOffset(r, u) => SetRule(t, r, AtOffset(-(u * f.data)))
    case ValOffset(r, u) => SetRule(t, r, IsOffset(u * f.data))
    case ValOffsetSf(r, n) => SetRule(t, r, IsOffset(n * f.data))
    case RestoreShort(r) => RestoreRule(f, t, r)
    case RestoreExtended(r) => RestoreRule(f, t, r)
    case Forget(r) => SetRule(t, r, Unsaved)
    case Keep(r) => SetRule(t, r, Same)
    case Move(r, to) => SetRule(t, r, InRegister(to))
    case ExpressionAt(r, _) => SetRule(t, r, AtExpression)
    case ExpressionIs(r, _) => SetRule(t, r, IsExpression)
    case RememberState => t.(stack := [t.rules] + t.stack)
    case RestoreState => if t.stack == [] then t else t.(rules := t.stack[0], stack := t.stack[1..])
    case Nop => t
    case WindowSave => t
    case ArgsSize(_) => t
  }

  predicate AllFit(ptrSize: nat, code: seq<Cfi>) { forall k :: 0 <= k < |code| ==> Fits(ptrSize, code[k]) }

  function EncodeAll(order: Order, ptrSize: nat, code: seq<Cfi>): seq<byte>
    requires AllFit(ptrSize, code)
  {
    if code == [] then [] else Encode(order, ptrSize, code[0]) + EncodeAll(order, ptrSize, code[1..])
  }

  /** The table after the instructions, which lie at an offset. */
  function Execute(order: Order, f: Factors, t: Table, code: seq<Cfi>, at: nat): Table
    requires AllFit(f.pointer.size, code)
    decreases code
  {
    if code == [] then t
    else
      Execute(order, f, Effect(f, t, code[0], at), code[1..], at + |Encode(order, f.pointer.size, code[0])|)
  }

  /** The instruction with remembering and restoring states taken out. */
  function Flat(c: Cfi): Cfi { if c == RememberState || c == RestoreState then Nop else c }

  function FlatAll(code: seq<Cfi>): seq<Cfi> { seq(|code|, k requires 0 <= k < |code| => Flat(code[k])) }

  /** The register whose rule an instruction sets. */
  function Named(c: Cfi): Option<nat>
  {
    match c
    case OffsetShort(r, _) => Some(r)
    case OffsetExtended(r, _) => Some(r)
    case OffsetExtendedSf(r, _) => Some(r)
    case NegativeOffset(r, _) => Some(r)
    case ValOffset(r, _) => Some(r)
    case ValOffsetSf(r, _) => Some(r)
    case RestoreShort(r) => Some(r)
    case RestoreExtended(r) => Some(r)
    case Forget(r) => Some(r)
    case Keep(r) => Some(r)
    case Move(r, _) => Some(r)
    case ExpressionAt(r, _) => Some(r)
    case ExpressionIs(r, _) => Some(r)
    case _ => None
  }

  // ----- decoding -----

  /** A signed operand as read_leb128 returns it. */
  function Wrapped(n: int): nat { n % TWO_64 }

  /** What the second pass should decode: opcode, operand bits, operand values. */
  function Decoded(c: Cfi, next: nat): Instr
  {
    match c
    case AdvanceLoc(d) => Instr(ADVANCE_LOC, d, [], next)
    case OffsetShort(r, u) => Instr(OFFSET, r, [u], next)
    case RestoreShort(r) => Instr(RESTORE, r, [], next)
    case Nop => Instr(NOP, NOP, [], next)
    case SetLoc(v) => Instr(SET_LOC, SET_LOC, [v], next)
    case AdvanceLoc1(d) => Instr(ADVANCE_LOC1, ADVANCE_LOC1, [d], next)
    case AdvanceLoc2(d) => Instr(ADVANCE_LOC2, ADVANCE_LOC2, [d], next)
    case AdvanceLoc4(d) => Instr(ADVANCE_LOC4, ADVANCE_LOC4, [d], next)
    case OffsetExtended(r, u) => Instr(OFFSET_EXTENDED, OFFSET_EXTENDED, [r, u], next)
    case RestoreExtended(r) => Instr(RESTORE_EXTENDED, RESTORE_EXTENDED, [r], next)
    case Forget(r) => Instr(UNDEFINED, UNDEFINED, [r], next)
    case Keep(r) => Instr(SAME_VALUE, SAME_VALUE, [r], next)
    case Move(r, to) => Instr(REGISTER, REGISTER, [r, to], next)
    case RememberState => Instr(REMEMBER_STATE, REMEMBER_STATE, [], next)
    case RestoreState => Instr(RESTORE_STATE, RESTORE_STATE, [], next)
    case DefCfa(r, u) => Instr(DEF_CFA, DEF_CFA, [r, u], next)
    case DefCfaRegister(r) => Instr(DEF_CFA_REGISTER, DEF_CFA_REGISTER, [r], next)
    case DefCfaOffset(u) => Instr(DEF_CFA_OFFSET, DEF_CFA_OFFSET, [u], next)
    case DefCfaExpression(b) => Instr(DEF_CFA_EXPRESSION, DEF_CFA_EXPRESSION, [|b|], next)
    case ExpressionAt(r, b) => Instr(EXPRESSION, EXPRESSION, [r, |b|], next)
    case OffsetExtendedSf(r, n) => Instr(OFFSET_EXTENDED_SF, OFFSET_EXTENDED_SF, [r, Wrapped(n)], next)
    case DefCfaSf(r, n) => Instr(DEF_CFA_SF, DEF_CFA_SF, [r, Wrapped(n)], next)
    case DefCfaOffsetSf(n) => Instr(DEF_CFA_OFFSET_SF, DEF_CFA_OFFSET_SF, [Wrapped(n)], next)
    case ValOffset(r, u) => Instr(VAL_OFFSET, VAL_OFFSET, [r, u], next)
    case ValOffsetSf(r, n) => Instr(VAL_OFFSET_SF, VAL_OFFSET_SF, [r, Wrapped(n)], next)
    case ExpressionIs(r, b) => Instr(VAL_EXPRESSION, VAL_EXPRESSION, [r, |b|], next)
    case AdvanceLoc8(d) => Instr(MIPS_ADVANCE_LOC8, MIPS_ADVANCE_LOC8, [d], next)
    case WindowSave => Instr(GNU_WINDOW_SAVE, GNU_WINDOW_SAVE, [], next)
    case ArgsSize(u) => Instr(GNU_ARGS_SIZE, GNU_ARGS_SIZE, [u], next)
    case NegativeOffset(r, u) => Instr(GNU_NEGATIVE_OFFSET_EXTENDED, GNU_NEGATIVE_OFFSET_EXTENDED, [r, u], next)
  }

  lemma OneOperand(order: Order, o: Operand, v: nat, payload: seq<byte>)
    requires OperandFits(o, v, payload)
    ensures OperandsFit([o], [v], payload)
    ensures EncodeOperands(order, [o], [v], payload) == EncodeOperand(order, o, v, payload)
  {
    hide OperandFits, EncodeOperand, EncodeOperands;
    OperandsCons(order, [o], [v], payload);
    NoOperands(order, [], 0, [], payload);
    assert [o][1..] == [] && [v][1..] == [];
  }

  lemma TwoOperands(order: Order, o1: Operand, v1: nat, o2: Operand, v2: nat, payload: seq<byte>)
    requires OperandFits(o1, v1, payload) && OperandFits(o2, v2, payload)
    ensures OperandsFit([o1, o2], [v1, v2], payload)
    ensures EncodeOperands(order, [o1, o2], [v1, v2], payload)
            == EncodeOperand(order, o1, v1, payload) + EncodeOperand(order, o2, v2, payload)
  {
    hide OperandFits, EncodeOperand, EncodeOperands;
    assert OperandsFit([o1, o2], [v1, v2], payload);
    OperandsCons(order, [o1, o2], [v1, v2], payload);
    OneOperand(order, o2, v2, payload);
    assert [o1, o2][1..] == [o2] && [v1, v2][1..] == [v2];
  }

  lemma Decode0(order: Order, sec: seq<byte>, p: nat, ptrSize: nat, op: nat, opa: nat)
    requires OpcodeFits(op, opa) && SecondShape(op, ptrSize) == Some([]) && At(sec, p, [OpcodeByte(op, opa)])
    ensures p < |sec| && SecondDecode(order, sec, p, ptrSize) == Some(Instr(op, opa, [], p + 1))
  {
    hide SecondShape, SecondDecode, EncodeOperands, At, OpcodeByte;
    NoOperands(order, sec, p, [], []);
    assert [OpcodeByte(op, opa)] + [] == [OpcodeByte(op, opa)];
    InstrRoundTrip(order, sec, p, op, opa, ptrSize, [], [], []);
  }

  lemma Decode1(order: Order, sec: seq<byte>, p: nat, ptrSize: nat, op: nat, opa: nat, o: Operand, v: nat, payload: seq<byte>)
    requires OpcodeFits(op, opa) && SecondShape(op, ptrSize) == Some([o]) && OperandFits(o, v, payload)
    requires At(sec, p, [OpcodeByte(op, opa)] + EncodeOperand(order, o, v, payload))
    ensures p < |sec|
    ensures SecondDecode(order, sec, p, ptrSize)
            == Some(Instr(op, opa, [v], p + |[OpcodeByte(op, opa)] + EncodeOperand(order, o, v, payload)|))
  {
    hide SecondShape, SecondDecode, EncodeOperand, EncodeOperands, At, OpcodeByte, OperandFits;
    OneOperand(order, o, v, payload);
    InstrRoundTrip(order, sec, p, op, opa, ptrSize, [o], [v], payload);
  }

  lemma Decode2(order: Order, sec: seq<byte>, p: nat, ptrSize: nat, op: nat, opa: nat,
                o1: Operand, v1: nat, o2: Operand, v2: nat, payload: seq<byte>)
    requires OpcodeFits(op, opa) && SecondShape(op, ptrSize) == Some([o1, o2])
    requires OperandFits(o1, v1, payload) && OperandFits(o2, v2, payload)
    requires At(sec, p, [OpcodeByte(op, opa)] + (EncodeOperand(order, o1, v1, payload) + EncodeOperand(order, o2, v2, payload)))
    ensures p < |sec|
    ensures SecondDecode(order, sec, p, ptrSize)
            == Some(Instr(op, opa, [v1, v2],
                          p + |[OpcodeByte(op, opa)] + (EncodeOperand(order, o1, v1, payload) + EncodeOperand(order, o2, v2, payload))|))
  {
    hide SecondShape, SecondDecode, EncodeOperand, EncodeOperands, At, OpcodeByte, OperandFits;
    TwoOperands(order, o1, v1, o2, v2, payload);
    InstrRoundTrip(order, sec, p, op, opa, ptrSize, [o1, o2], [v1, v2], payload);
  }

  lemma WrappedBack(n: int)
    requires Signed64(n)
    ensures Wrapped(n) < TWO_64 && Leb128.AsSigned64(Wrapped(n)) == n
  {
    if n >= 0 { SmallMod(n, TWO_64); } else { NegativeMod(n, TWO_64); }
  }

  predicate NoOperand(c: Cfi)
  {
    c.AdvanceLoc? || c.RestoreShort? || c.Nop? || c.RememberState? || c.RestoreState? || c.WindowSave?
  }

  predicate OneU(c: Cfi)
  {
    c.OffsetShort? || c.RestoreExtended? || c.Forget? || c.Keep? || c.DefCfaRegister? || c.DefCfaOffset? || c.ArgsSize?
  }

  predicate TwoU(c: Cfi)
  {
    c.OffsetExtended? || c.Move? || c.DefCfa? || c.ValOffset? || c.NegativeOffset?
  }

  predicate HasField(c: Cfi)
  {
    c.SetLoc? || c.AdvanceLoc1? || c.AdvanceLoc2? || c.AdvanceLoc4? || c.AdvanceLoc8?
  }

  predicate HasSigned(c: Cfi)
  {
    c.OffsetExtendedSf? || c.DefCfaSf? || c.DefCfaOffsetSf? || c.ValOffsetSf?
  }

  predicate HasBlock(c: Cfi) { c.DefCfaExpression? || c.ExpressionAt? || c.ExpressionIs? }

  /** At p the section holds c, and the second pass decodes it there. */
  predicate DecodesAs(order: Order, sec: seq<byte>, p: nat, ptrSize: nat, c: Cfi)
    requires Fits(ptrSize, c)
  {
    p < |sec| && SecondDecode(order, sec, p, ptrSize) == Some(Decoded(c, p + |Encode(order, ptrSize, c)|))
  }

  lemma NoOperandBytes(order: Order, ptrSize: nat, c: Cfi)
    requires NoOperand(c) && Fits(ptrSize, c)
    ensures var i := Decoded(c, 0); OpcodeFits(i.op, i.opa) && |i.args| == 0
    ensures var i := Decoded(c, 0); SecondShape(i.op, ptrSize) == Some([])
    ensures var i := Decoded(c, 0); Encode(order, ptrSize, c) == [OpcodeByte(i.op, i.opa)]
  {
    hide Leb128.EncodeUnsigned, Leb128.EncodeSigned, FieldBytes, Pow2;
  }

  lemma DecodesNoOperand(order: Order, sec: seq<byte>, p: nat, ptrSize: nat, c: Cfi)
    requires NoOperand(c) && Fits(ptrSize, c) && At(sec, p, Encode(order, ptrSize, c))
    ensures DecodesAs(order, sec, p, ptrSize, c)
  {
    hide At, SecondDecode, Encode, SecondShape, OpcodeByte, EncodeOperand, OperandFits, OpcodeFits, Fits;
    NoOperandBytes(order, ptrSize, c);
    var i := Decoded(c, 0);
    Decode0(order, sec, p, ptrSize, i.op, i.opa);
  }

  lemma OneUBytes(order: Order, ptrSize: nat, c: Cfi)
    requires OneU(c) && Fits(ptrSize, c)
    ensures var i := Decoded(c, 0); OpcodeFits(i.op, i.opa) && |i.args| == 1 && OperandFits(U, i.args[0], [])
    ensures var i := Decoded(c, 0); SecondShape(i.op, ptrSize) == Some([U])
    ensures var i := Decoded(c, 0); Encode(order, ptrSize, c) == [OpcodeByte(i.op, i.opa)] + EncodeOperand(order, U, i.args[0], [])
  {
    hide Leb128.EncodeUnsigned, Leb128.EncodeSigned, FieldBytes, Pow2;
  }

  lemma DecodesOneU(order: Order, sec: seq<byte>, p: nat, ptrSize: nat, c: Cfi)
    requires OneU(c) && Fits(ptrSize, c) && At(sec, p, Encode(order, ptrSize, c))
    ensures DecodesAs(order, sec, p, ptrSize, c)
  {
    hide At, SecondDecode, Encode, SecondShape, OpcodeByte, EncodeOperand, OperandFits, OpcodeFits, Fits;
    OneUBytes(order, ptrSize, c);
    var i := Decoded(c, 0);
    Decode1(order, sec, p, ptrSize, i.op, i.opa, U, i.args[0], []);
  }

  lemma TwoUBytes(order: Order, ptrSize: nat, c: Cfi)
    requires TwoU(c) && Fits(ptrSize, c)
    ensures var i := Decoded(c, 0); OpcodeFits(i.op, i.opa) && |i.args| == 2 && OperandFits(U, i.args[0], []) && OperandFits(U, i.args[1], [])
    ensures var i := Decoded(c, 0); SecondShape(i.op, ptrSize) == Some([U, U])
    ensures var i := Decoded(c, 0); Encode(order, ptrSize, c) == [OpcodeByte(i.op, i.opa)] + (EncodeOperand(order, U, i.args[0], []) + EncodeOperand(order, U, i.args[1], []))
  {
    hide Leb128.EncodeUnsigned, Leb128.EncodeSigned, FieldBytes, Pow2;
  }

  lemma DecodesTwoU(order: Order, sec: seq<byte>, p: nat, ptrSize: nat, c: Cfi)
    requires TwoU(c) && Fits(ptrSize, c) && At(sec, p, Encode(order, ptrSize, c))
    ensures DecodesAs(order, sec, p, ptrSize, c)
  {
    hide At, SecondDecode, Encode, SecondShape, OpcodeByte, EncodeOperand, OperandFits, OpcodeFits, Fits;
    TwoUBytes(order, ptrSize, c);
    var i := Decoded(c, 0);
    Decode2(order, sec, p, ptrSize, i.op, i.opa, U, i.args[0], U, i.args[1], []);
  }

  function FieldSize(ptrSize: nat, c: Cfi): nat
  {
    if c.SetLoc? then ptrSize else if c.AdvanceLoc1? then 1 else if c.AdvanceLoc2? then 2 else if c.AdvanceLoc4? then 4 else 8
  }

  lemma FixedBytes(order: Order, ptrSize: nat, c: Cfi)
    requires HasField(c) && Fits(ptrSize, c)
    ensures var i := Decoded(c, 0); OpcodeFits(i.op, i.opa) && |i.args| == 1 && OperandFits(Fixed(FieldSize(ptrSize, c)), i.args[0], [])
    ensures var i := Decoded(c, 0); SecondShape(i.op, ptrSize) == Some([Fixed(FieldSize(ptrSize, c))])
    ensures var i := Decoded(c, 0); Encode(order, ptrSize, c) == [OpcodeByte(i.op, i.opa)] + EncodeOperand(order, Fixed(FieldSize(ptrSize, c)), i.args[0], [])
  {
    hide Leb128.EncodeUnsigned, Leb128.EncodeSigned, FieldBytes, Pow2;
    Pow2Known();
  }

  lemma DecodesField(order: Order, sec: seq<byte>, p: nat, ptrSize: nat, c: Cfi)
    requires HasField(c) && Fits(ptrSize, c) && At(sec, p, Encode(order, ptrSize, c))
    ensures DecodesAs(order, sec, p, ptrSize, c)
  {
    hide At, SecondDecode, Encode, SecondShape, OpcodeByte, EncodeOperand, OperandFits, OpcodeFits, Fits;
    FixedBytes(order, ptrSize, c);
    var i := Decoded(c, 0);
    Decode1(order, sec, p, ptrSize, i.op, i.opa, Fixed(FieldSize(ptrSize, c)), i.args[0], []);
  }

  lemma OneSBytes(order: Order, ptrSize: nat, c: Cfi)
    requires c.DefCfaOffsetSf? && Fits(ptrSize, c)
    ensures var i := Decoded(c, 0); OpcodeFits(i.op, i.opa) && |i.args| == 1 && OperandFits(S, i.args[0], [])
    ensures var i := Decoded(c, 0); SecondShape(i.op, ptrSize) == Some([S])
    ensures var i := Decoded(c, 0); Encode(order, ptrSize, c) == [OpcodeByte(i.op, i.opa)] + EncodeOperand(order, S, i.args[0], [])
  {
    hide Leb128.EncodeUnsigned, Leb128.EncodeSigned, FieldBytes, Pow2;
    WrappedBack(c.n);
  }

  lemma DecodesOneS(order: Order, sec: seq<byte>, p: nat, ptrSize: nat, c: Cfi)
    requires c.DefCfaOffsetSf? && Fits(ptrSize, c) && At(sec, p, Encode(order, ptrSize, c))
    ensures DecodesAs(order, sec, p, ptrSize, c)
  {
    hide At, SecondDecode, Encode, SecondShape, OpcodeByte, EncodeOperand, OperandFits, OpcodeFits, Fits;
    OneSBytes(order, ptrSize, c);
    var i := Decoded(c, 0);
    Decode1(order, sec, p, ptrSize, i.op, i.opa, S, i.args[0], []);
  }

  lemma TwoSBytes(order: Order, ptrSize: nat, c: Cfi)
    requires HasSigned(c) && !c.DefCfaOffsetSf? && Fits(ptrSize, c)
    ensures var i := Decoded(c, 0); OpcodeFits(i.op, i.opa) && |i.args| == 2 && OperandFits(U, i.args[0], []) && OperandFits(S, i.args[1], [])
    ensures var i := Decoded(c, 0); SecondShape(i.op, ptrSize) == Some([U, S])
    ensures var i := Decoded(c, 0); Encode(order, ptrSize, c) == [OpcodeByte(i.op, i.opa)] + (EncodeOperand(order, U, i.args[0], []) + EncodeOperand(order, S, i.args[1], []))
  {
    hide Leb128.EncodeUnsigned, Leb128.EncodeSigned, FieldBytes, Pow2;
    WrappedBack(c.n);
  }

  lemma DecodesTwoS(order: Order, sec: seq<byte>, p: nat, ptrSize: nat, c: Cfi)
    requires HasSigned(c) && !c.DefCfaOffsetSf? && Fits(ptrSize, c) && At(sec, p, Encode(order, ptrSize, c))
    ensures DecodesAs(order, sec, p, ptrSize, c)
  {
    hide At, SecondDecode, Encode, SecondShape, OpcodeByte, EncodeOperand, OperandFits, OpcodeFits, Fits;
    TwoSBytes(order, ptrSize, c);
    var i := Decoded(c, 0);
    Decode2(order, sec, p, ptrSize, i.op, i.opa, U, i.args[0], S, i.args[1], []);
  }

  lemma OneBlockBytes(order: Order, ptrSize: nat, c: Cfi)
    requires c.DefCfaExpression? && Fits(ptrSize, c)
    ensures var i := Decoded(c, 0); OpcodeFits(i.op, i.opa) && |i.args| == 1 && OperandFits(Block, i.args[0], c.block)
    ensures var i := Decoded(c, 0); SecondShape(i.op, ptrSize) == Some([Block])
    ensures var i := Decoded(c, 0); Encode(order, ptrSize, c) == [OpcodeByte(i.op, i.opa)] + EncodeOperand(order, Block, i.args[0], c.block)
  {
    hide Leb128.EncodeUnsigned, Leb128.EncodeSigned, FieldBytes, Pow2;
  }

  lemma DecodesOneBlock(order: Order, sec: seq<byte>, p: nat, ptrSize: nat, c: Cfi)
    requires c.DefCfaExpression? && Fits(ptrSize, c) && At(sec, p, Encode(order, ptrSize, c))
    ensures DecodesAs(order, sec, p, ptrSize, c)
  {
    hide At, SecondDecode, Encode, SecondShape, OpcodeByte, EncodeOperand, OperandFits, OpcodeFits, Fits;
    OneBlockBytes(order, ptrSize, c);
    var i := Decoded(c, 0);
    Decode1(order, sec, p, ptrSize, i.op, i.opa, Block, i.args[0], c.block);
  }

  lemma TwoBlockBytes(order: Order, ptrSize: nat, c: Cfi)
    requires HasBlock(c) && !c.DefCfaExpression? && Fits(ptrSize, c)
    ensures var i := Decoded(c, 0); OpcodeFits(i.op, i.opa) && |i.args| == 2 && OperandFits(U, i.args[0], c.block) && OperandFits(Block, i.args[1], c.block)
    ensures var i := Decoded(c, 0); SecondShape(i.op, ptrSize) == Some([U, Block])
    ensures var i := Decoded(c, 0); Encode(order, ptrSize, c) == [OpcodeByte(i.op, i.opa)] + (EncodeOperand(order, U, i.args[0], c.block) + EncodeOperand(order, Block, i.args[1], c.block))
  {
    hide Leb128.EncodeUnsigned, Leb128.EncodeSigned, FieldBytes, Pow2;
  }

  lemma DecodesTwoBlock(order: Order, sec: seq<byte>, p: nat, ptrSize: nat, c: Cfi)
    requires HasBlock(c) && !c.DefCfaExpression? && Fits(ptrSize, c) && At(sec, p, Encode(order, ptrSize, c))
    ensures DecodesAs(order, sec, p, ptrSize, c)
  {
    hide At, SecondDecode, Encode, SecondShape, OpcodeByte, EncodeOperand, OperandFits, OpcodeFits, Fits;
    TwoBlockBytes(order, ptrSize, c);
    var i := Decoded(c, 0);
    Decode2(order, sec, p, ptrSize, i.op, i.opa, U, i.args[0], Block, i.args[1], c.block);
  }

  /** Every instruction of the standard, placed anywhere in the section, is decoded as what it is. */
  lemma InstructionDecoded(order: Order, sec: seq<byte>, p: nat, ptrSize: nat, c: Cfi)
    requires Fits(ptrSize, c) && At(sec, p, Encode(order, ptrSize, c))
    ensures DecodesAs(order, sec, p, ptrSize, c)
  {
    hide At, SecondDecode, DecodesAs, Encode, Fits;
    if NoOperand(c) { DecodesNoOperand(order, sec, p, ptrSize, c); }
    else if OneU(c) { DecodesOneU(order, sec, p, ptrSize, c); }
    else if TwoU(c) { DecodesTwoU(order, sec, p, ptrSize, c); }
    else if HasField(c) { DecodesField(order, sec, p, ptrSize, c); }
    else if c.DefCfaOffsetSf? { DecodesOneS(order, sec, p, ptrSize, c); }
    else if HasSigned(c) { DecodesTwoS(order, sec, p, ptrSize, c); }
    else if c.DefCfaExpression? { DecodesOneBlock(order, sec, p, ptrSize, c); }
    else { DecodesTwoBlock(order, sec, p, ptrSize, c); }
  }
}
