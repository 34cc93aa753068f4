/** The dump of a chunk shows the unwind table of its instructions: columns, CFA rule, locations, rows. */
module FrameTables {
  import opened Machine
  import opened ByteOrder
  import opened CallFrames
  import opened CallFrameProofs
  import opened FrameRules

  // ----- what the arrays show -----

  /** The int that C makes of n. */
  predicate Narrow(c: int, n: int) { -0x8000_0000 <= c < 0x8000_0000 && (c - n) % TWO_32 == 0 }

  function RuleAt(rules: Rules, k: nat): Option<Rule> { if k in rules then Some(rules[k]) else None }

  /** col_type of a rule; -1 is a register without one. */
  function Kind(rule: Option<Rule>): int
  {
    match rule
    case None => -1
    case Some(Unsaved) => 0x07
    case Some(Same) => 0x08
    case Some(InRegister(_)) => 0x09
    case Some(AtExpression) => 0x10
    case Some(IsOffset(_)) => 0x14
    case Some(IsExpression) => 0x16
    case Some(AtOffset(_)) => 0x80
  }

  /** col_offset of a rule, for the rules that have a number. */
  predicate NumberShown(c: int, rule: Option<Rule>)
  {
    match rule
    case Some(AtOffset(n)) => Narrow(c, n)
    case Some(IsOffset(n)) => Narrow(c, n)
    case Some(InRegister(r)) => Narrow(c, r)
    case _ => true
  }

  /** col_type of column k of n, for the rules full of the program and the rules flat of the program without
      remembering: restore_state brings back only the first n bytes, so that the upper half follows flat, and the
      middle one of an odd number has the high byte from flat. */
  predicate KindShown(ty: int, full: Option<Rule>, flat: Option<Rule>, k: nat, n: nat)
  {
    if 2 * k + 2 <= n then ty == Kind(full)
    else if 2 * k + 1 == n then ty % 256 == Kind(full) % 256 && ty / 256 == Kind(flat) / 256
    else ty == Kind(flat)
  }

  predicate ColumnShown(c: Cols, full: Rules, flat: Rules, k: nat)
    requires Paired(c) && k < |c.types|
  {
    KindShown(c.types[k], RuleAt(full, k), RuleAt(flat, k), k, |c.types|) && NumberShown(c.offsets[k], RuleAt(full, k))
  }

  predicate ColumnsShow(c: Cols, full: Rules, flat: Rules)
  {
    Paired(c) && forall k :: 0 <= k < |c.types| ==> ColumnShown(c, full, flat, k)
  }

  /** Columns that show rules, and have room for all of them. */
  predicate Shows(c: Cols, rules: Rules)
  {
    ColumnsShow(c, rules, rules) && forall k :: k in rules ==> k < |c.types|
  }

  /** What is left of remembered columns when they are copied back. */
  predicate SavedColumn(c: Cols, rules: Rules, k: nat)
    requires Paired(c) && k < |c.types|
  {
    && (2 * k + 2 <= |c.types| ==> c.types[k] == Kind(RuleAt(rules, k)))
    && (2 * k + 1 == |c.types| ==> c.types[k] % 256 == Kind(RuleAt(rules, k)) % 256)
    && NumberShown(c.offsets[k], RuleAt(rules, k))
  }

  predicate SavedShow(c: Cols, rules: Rules)
  {
    Paired(c) && forall k :: 0 <= k < |c.types| ==> SavedColumn(c, rules, k)
  }

  predicate CfaShown(c: Cfa, r: CfaRule) { Narrow(c.reg, r.reg) && Narrow(c.offset, r.n) && c.exp == r.exp }

  predicate RowShown(row: Row, full: TableRow, flat: TableRow)
  {
    row.pc == full.loc && CfaShown(row.cfa, full.cfa) && ColumnsShow(row.cols, full.rules, flat.rules)
  }

  predicate RowsShow(rows: seq<Row>, full: seq<TableRow>, flat: seq<TableRow>)
  {
    |rows| == |full| == |flat| && forall j :: 0 <= j < |rows| ==> RowShown(rows[j], full[j], flat[j])
  }

  /** The remembered list: the states of this chunk, over those it found. */
  predicate StackShows(remembered: seq<Cols>, base: seq<Cols>, n: nat, stack: seq<Rules>)
  {
    && |stack| <= |remembered| && remembered[|stack|..] == base
    && forall j :: 0 <= j < |stack| ==> |remembered[j].types| == n && SavedShow(remembered[j], stack[j])
  }

  /** A state of the second pass with n columns shows the table full; flat is the table without remembering. */
  predicate Mirrors(e: Env, s: State, base: seq<Cols>, n: nat, full: Table, flat: Table)
  {
    && |s.cols.types| == n && ColumnsShow(s.cols, full.rules, flat.rules)
    && StackShows(s.remembered, base, n, full.stack)
    && CfaShown(s.cfa, full.cfa) && s.pc == full.loc == flat.loc
    && (if e.interp then RowsShow(s.rows, full.rows, flat.rows) else s.rows == [])
  }

  predicate EnvShows(e: Env, f: Factors)
  {
    && e.codeFactor == f.code && e.dataFactor == f.data && e.pointer == f.pointer
    && e.cie.Some? == f.cie.Some?
    && (e.cie.Some? ==> Shows(e.cie.value, f.cie.value.rules) && |e.cie.value.types| == f.cie.value.width)
  }

  // ----- numbers -----

  lemma NarrowInt32(x: int)
    ensures Narrow(Int32(x), x)
  {
    assert Int32(x) - x == 0 + TWO_32 * -((x + TWO_31) / TWO_32);
    AddMultiple(0, TWO_32, -((x + TWO_31) / TWO_32));
  }

  lemma NarrowMoved(c: int, x: int, q: int)
    requires Narrow(c, x)
    ensures Narrow(c, x + TWO_32 * q)
  {
    AddMultiple(c - x, TWO_32, -q);
  }

  /** A product of a wrapped operand is the product, as an int. */
  lemma NarrowProduct(n: int, d: int)
    ensures Narrow(Int32(Wrapped(n) * d), n * d)
    ensures Narrow(Int32(Int32(Wrapped(n)) * d), n * d)
  {
    var w := Wrapped(n);
    NarrowInt32(w * d);
    assert w == n - TWO_64 * (n / TWO_64);
    assert n * d == w * d + TWO_32 * (TWO_32 * (n / TWO_64) * d) by { ProductSplit(n, w, n / TWO_64, d); }
    NarrowMoved(Int32(w * d), w * d, TWO_32 * (n / TWO_64) * d);
    var q := (w + TWO_31) / TWO_32;
    assert Int32(w) == w - TWO_32 * q;
    NarrowInt32(Int32(w) * d);
    assert n * d == Int32(w) * d + TWO_32 * ((q + TWO_32 * (n / TWO_64)) * d) by { ProductSplit32(n, Int32(w), q + TWO_32 * (n / TWO_64), d); }
    NarrowMoved(Int32(Int32(w) * d), Int32(w) * d, (q + TWO_32 * (n / TWO_64)) * d);
  }

  lemma ProductSplit(n: int, w: int, q: int, d: int)
    requires n == w + TWO_64 * q
    ensures n * d == w * d + TWO_32 * (TWO_32 * q * d)
  {
    ProductSplit32(n, w, TWO_32 * q, d);
  }

  lemma ProductSplit32(n: int, w: int, q: int, d: int)
    requires n == w + TWO_32 * q
    ensures n * d == w * d + TWO_32 * (q * d)
  {
    Distribute(d, w, TWO_32 * q);
    MulAssociative(TWO_32, q, d);
  }

  // ----- one instruction -----

  /** The rules differ at reg at most. */
  ghost predicate Elsewhere(a: Rules, b: Rules, reg: nat) { forall k: nat :: k != reg ==> RuleAt(a, k) == RuleAt(b, k) }

  /** Storing the kind and the number of a rule shows it in both programs. */
  lemma StoreShows(c: Cols, full: Rules, flat: Rules, full': Rules, flat': Rules, reg: nat, ty: int, offset: Option<int>)
    requires ColumnsShow(c, full, flat) && reg < |c.types| && Elsewhere(full, full', reg) && Elsewhere(flat, flat', reg)
    requires RuleAt(full', reg) == RuleAt(flat', reg) && ty == Kind(RuleAt(full', reg))
    requires NumberShown(if offset.Some? then offset.value else c.offsets[reg], RuleAt(full', reg))
    ensures ColumnsShow(SetColumn(c, reg, ty, offset).value, full', flat')
  {
    hide Kind, NumberShown, RuleAt;
    var c' := SetColumn(c, reg, ty, offset).value;
    forall k | 0 <= k < |c'.types| ensures ColumnShown(c', full', flat', k) {
      assert ColumnShown(c, full, flat, k);
    }
  }

  /** Rules of registers without a column do not matter. */
  lemma BeyondShows(c: Cols, full: Rules, flat: Rules, full': Rules, flat': Rules, reg: nat)
    requires ColumnsShow(c, full, flat) && reg >= |c.types| && Elsewhere(full, full', reg) && Elsewhere(flat, flat', reg)
    ensures ColumnsShow(c, full', flat')
  {
    hide Kind, NumberShown, RuleAt, KindShown;
    forall k | 0 <= k < |c.types| ensures ColumnShown(c, full', flat', k) {
      assert ColumnShown(c, full, flat, k);
    }
  }

  predicate RestoresRule(c: Cfi) { c.RestoreShort? || c.RestoreExtended? }

  /** A register of an instruction, and the columns of a state: a granted one has a column. */
  predicate HasColumn(regnames: nat, n: nat, c: Cfi)
  {
    Named(c).Some? && Granted(regnames, Named(c).value) ==> Named(c).value < n
  }

  lemma DecodedNames(c: Cfi, next: nat)
    ensures Touches(Decoded(c, next)) == Named(c)
    ensures RestoreForm(Decoded(c, next).op) <==> RestoresRule(c)
  {
  }

  /** The rule a register instruction sets, other than a restore. */
  function RuleSet(f: Factors, c: Cfi): Rule
    requires Named(c).Some? && !RestoresRule(c)
  {
    var reg := Named(c).value;
    Effect(f, Table(map[], CfaRule(0, 0, false), 0, [], []), c, 0).rules[reg]
  }

  lemma EffectSets(f: Factors, t: Table, c: Cfi, at: nat)
    requires Named(c).Some? && !RestoresRule(c)
    ensures Effect(f, t, c, at) == SetRule(t, Named(c).value, RuleSet(f, c))
  {
  }

  /** What the second pass writes is the rule: with the data factor, as an int, and no number for expressions. */
  lemma WrittenIsRule(e: Env, f: Factors, s: State, c: Cfi, next: nat, was: int)
    requires ValidState(s) && EnvShows(e, f) && Named(c).Some? && !RestoresRule(c)
    ensures var (ty, offset) := Written(e, s, Decoded(c, next), Named(c).value);
            && ty == Kind(Some(RuleSet(f, c)))
            && NumberShown(if offset.Some? then offset.value else was, Some(RuleSet(f, c)))
  {
    hide EnvShows, Narrow, Int32, Wrapped;
    assert e.dataFactor == f.data by { FactorsSame(e, f); }
    match c
    case OffsetShort(_, u) => NarrowInt32(u * f.data);
    case OffsetExtended(_, u) => NarrowInt32(u * f.data);
    case OffsetExtendedSf(_, n) => NarrowProduct(n, f.data);
    case NegativeOffset(_, u) => NarrowInt32(-(u * f.data)); MinusProduct(u, f.data);
    case ValOffset(_, u) => NarrowInt32(u * f.data);
    case ValOffsetSf(_, n) => NarrowProduct(n, f.data);
    case Move(_, to) => NarrowInt32(to);
    case _ =>
  }

  lemma FactorsSame(e: Env, f: Factors)
    requires EnvShows(e, f)
    ensures e.codeFactor == f.code && e.dataFactor == f.data && e.pointer == f.pointer
  {
  }

  lemma MinusProduct(u: int, d: int)
    ensures -u * d == -(u * d)
  {
  }

  /** A granted register below 2^32 has its column without growing; a refused one has none. */
  lemma VerdictOfRegister(e: Env, s: State, c: Cfi, next: nat)
    requires ValidEnv(e) && ValidState(s) && Within(e, s) && Named(c).Some? && HasColumn(e.regnames, |s.cols.types|, c)
    ensures var reg, op := Named(c).value, Decoded(c, next).op;
            && (SignedForm(op) ==> NeedSpace(s.cols, e.regnames, reg).0 == s.cols)
            && (!RestoresRule(c) ==> (Bad(e, s, op, reg) <==> reg >= |s.cols.types|))
            && (RestoresRule(c) ==> (Bad(e, s, op, reg) <==> reg >= |s.cols.types| || (e.cie.Some? && reg >= |e.cie.value.types|)))
  {
    DecodedNames(c, next);
    var reg := Named(c).value;
    if reg < |s.cols.types| { SmallMod(reg, TWO_32); }
    GrantExactly(s.cols, e.regnames, reg);
  }

  /** An instruction that sets a rule: the table's new rule is shown, and nothing else changes. */
  lemma SetStep(e: Env, f: Factors, s: State, full: Rules, flat: Rules, c: Cfi, next: nat)
    requires ValidEnv(e) && ValidState(s) && Within(e, s) && EnvShows(e, f)
    requires Named(c).Some? && !RestoresRule(c) && HasColumn(e.regnames, |s.cols.types|, c)
    requires ColumnsShow(s.cols, full, flat)
    ensures var r, reg := SecondStep(e, s, Decoded(c, next)), Named(c).value;
            && r.Some? && r.value == s.(cols := r.value.cols) && |r.value.cols.types| == |s.cols.types|
            && ColumnsShow(r.value.cols, full[reg := RuleSet(f, c)], flat[reg := RuleSet(f, c)])
  {
    hide Decoded, Bad, Written, ColumnsShow, RuleSet, EnvShows, Within, Kind, NumberShown, Named, NeedSpace, SignedForm;
    var reg, i := Named(c).value, Decoded(c, next);
    DecodedNames(c, next);
    VerdictOfRegister(e, s, c, next);
    var full', flat' := full[reg := RuleSet(f, c)], flat[reg := RuleSet(f, c)];
    if reg < |s.cols.types| {
      WrittenIsRule(e, f, s, c, next, s.cols.offsets[reg]);
      var (ty, offset) := Written(e, s, i, reg);
      StoreShows(s.cols, full, flat, full', flat', reg, ty, offset);
    } else {
      BeyondShows(s.cols, full, flat, full', flat', reg);
    }
  }

  /** Restoring a column from the CIE. */
  lemma RestoreStep(e: Env, f: Factors, s: State, full: Table, flat: Table, c: Cfi, next: nat)
    requires ValidEnv(e) && ValidState(s) && Within(e, s) && EnvShows(e, f)
    requires RestoresRule(c) && HasColumn(e.regnames, |s.cols.types|, c)
    requires ColumnsShow(s.cols, full.rules, flat.rules)
    ensures var r, reg := SecondStep(e, s, Decoded(c, next)), Named(c).value;
            && r.Some? && r.value == s.(cols := r.value.cols) && |r.value.cols.types| == |s.cols.types|
            && ColumnsShow(r.value.cols, RestoreRule(f, full, reg).rules, RestoreRule(f, flat, reg).rules)
  {
    hide Decoded, Bad, ColumnsShow, Within, Kind, NumberShown, NeedSpace, SignedForm;
    var reg, i := Named(c).value, Decoded(c, next);
    DecodedNames(c, next);
    VerdictOfRegister(e, s, c, next);
    var full', flat' := RestoreRule(f, full, reg).rules, RestoreRule(f, flat, reg).rules;
    if e.cie.None? {
      if reg < |s.cols.types| { SetSame(s.cols, reg); }
    } else if reg >= |e.cie.value.types| {
    } else if reg < |s.cols.types| {
      CieColumn(e.cie.value, f.cie.value.rules, reg);
      StoreShows(s.cols, full.rules, flat.rules, full', flat', reg, e.cie.value.types[reg], Some(e.cie.value.offsets[reg]));
    } else {
      BeyondShows(s.cols, full.rules, flat.rules, full', flat', reg);
    }
  }

  lemma SetSame(c: Cols, reg: nat)
    requires Paired(c) && reg < |c.types|
    ensures SetColumn(c, reg, c.types[reg], Some(c.offsets[reg])) == Some(c)
  {
    assert c.types[reg := c.types[reg]] == c.types && c.offsets[reg := c.offsets[reg]] == c.offsets;
  }

  /** Where the two programs have the same rules, columns show them exactly. */
  lemma CieColumn(c: Cols, rules: Rules, k: nat)
    requires ColumnsShow(c, rules, rules) && k < |c.types|
    ensures c.types[k] == Kind(RuleAt(rules, k)) && NumberShown(c.offsets[k], RuleAt(rules, k))
  {
    hide Kind, NumberShown, RuleAt;
    assert ColumnShown(c, rules, rules, k);
  }

  lemma RememberStep(s: State, base: seq<Cols>, n: nat, full: Table, flat: Table)
    requires |s.cols.types| == n && ColumnsShow(s.cols, full.rules, flat.rules) && StackShows(s.remembered, base, n, full.stack)
    ensures StackShows([s.cols] + s.remembered, base, n, [full.rules] + full.stack)
  {
    hide KindShown, NumberShown, Kind, RuleAt, SavedShow;
    SavedWhole(s.cols, full.rules, flat.rules);
    var stack := [full.rules] + full.stack;
    assert ([s.cols] + s.remembered)[|stack|..] == s.remembered[|full.stack|..];
    forall j | 0 <= j < |stack| ensures |([s.cols] + s.remembered)[j].types| == n && SavedShow(([s.cols] + s.remembered)[j], stack[j]) {
      if j > 0 { assert ([s.cols] + s.remembered)[j] == s.remembered[j - 1]; }
    }
  }

  lemma SavedWhole(c: Cols, full: Rules, flat: Rules)
    requires ColumnsShow(c, full, flat)
    ensures SavedShow(c, full)
  {
    hide Kind, NumberShown, RuleAt;
    forall k | 0 <= k < |c.types| ensures SavedColumn(c, full, k) {
      assert ColumnShown(c, full, flat, k);
    }
  }

  /** Copying remembered columns of the same width back: the numbers, and the kinds of the lower half. */
  lemma CopiedBack(c: Cols, saved: Cols, regnames: nat, was: Rules, full: Rules, flat: Rules)
    requires ColumnsShow(c, full, flat) && SavedShow(saved, was) && |c.types| == |saved.types| <= regnames + 1 && 0 < regnames < TWO_32 - 1
    ensures var r := RestoreSaved(c, saved, regnames);
            r.Some? && |r.value.types| == |c.types| && ColumnsShow(r.value, was, flat)
  {
    hide Kind, NumberShown, RuleAt;
    var n := |saved.types|;
    assert NeedSpace(c, regnames, (n - 1) % TWO_32).0 == c || n == 0 by { if n > 0 { SmallMod(n - 1, TWO_32); } }
    if n > 0 {
      var r := RestoreSaved(c, saved, regnames).value;
      forall k | 0 <= k < n ensures ColumnShown(r, was, flat, k) {
        assert ColumnShown(c, full, flat, k) && SavedColumn(saved, was, k);
        if 2 * k + 1 == n { MixedByte(c.types[k], saved.types[k]); }
      }
    } else {
      NothingBack(c, saved, regnames);
    }
  }

  lemma MixedByte(x: int, y: int)
    ensures (x - x % 256 + y % 256) % 256 == y % 256 && (x - x % 256 + y % 256) / 256 == x / 256
  {
    DivModUnique(x - x % 256 + y % 256, 256, x / 256, y % 256);
  }

  /** A restored state of no columns asks for column 2^32 - 1, which is refused. */
  lemma NothingBack(c: Cols, saved: Cols, regnames: nat)
    requires Paired(c) && Paired(saved) && |c.types| == |saved.types| == 0 && 0 < regnames < TWO_32 - 1
    ensures RestoreSaved(c, saved, regnames).Some? && RestoreSaved(c, saved, regnames).value == c
  {
  }

  /** A restored state with nothing remembered is a mismatch, and ignored; it may not take another chunk's. */
  lemma RestoreStateStep(e: Env, s: State, base: seq<Cols>, n: nat, full: Table, flat: Table, next: nat)
    requires ValidEnv(e) && ValidState(s) && Within(e, s) && Mirrors(e, s, base, n, full, flat)
    requires full.stack == [] ==> base == []
    ensures var r, t := SecondStep(e, s, Decoded(RestoreState, next)), if full.stack == [] then full else full.(rules := full.stack[0], stack := full.stack[1..]);
            r.Some? && Mirrors(e, r.value, base, n, t, flat)
  {
    hide RestoreSaved, ColumnsShow, SavedShow, RowsShow, CfaShown;
    if full.stack != [] {
      CopiedBack(s.cols, s.remembered[0], e.regnames, full.stack[0], full.rules, flat.rules);
      var rest := s.remembered[1..];
      assert rest[|full.stack| - 1..] == s.remembered[|full.stack|..];
      forall j | 0 <= j < |full.stack| - 1 ensures |rest[j].types| == n && SavedShow(rest[j], full.stack[1..][j]) {
        assert rest[j] == s.remembered[j + 1] && full.stack[1..][j] == full.stack[j + 1];
      }
    } else {
      assert s.remembered == [];
    }
  }

  predicate StartsRow(c: Cfi) { HasField(c) || c.AdvanceLoc? }

  /** An operand of DW_CFA_set_loc is read as the address it stands for. */
  lemma LocatedIsSetTo(p: Pointer, v: nat, place: nat)
    ensures Located(p, v, place) == SetTo(p, v, place) % TWO_64
  {
    if p.size > 0 { assert Pow2(8 * p.size) == 2 * Pow2(8 * p.size - 1); }
  }

  lemma LocationMoves(e: Env, f: Factors, order: Order, t: Table, c: Cfi, at: nat)
    requires EnvShows(e, f) && StartsRow(c) && Fits(f.pointer.size, c)
    ensures var next := at + |Encode(order, f.pointer.size, c)|;
            MovedTo(e, t.loc, Decoded(c, next)) == Effect(f, t, c, at).loc
    ensures Effect(f, t, c, at).(loc := t.loc) == t.(rows := t.rows + [TableRow(t.loc, t.cfa, t.rules)])
  {
    FactorsSame(e, f);
    hide EnvShows, FieldBytes, SetTo, Located, Pow2;
    if c.SetLoc? { LocatedIsSetTo(f.pointer, c.field, at + 1); }
  }

  /** A new location: the row before it is printed as the table has it. */
  lemma RowStep(e: Env, f: Factors, order: Order, s: State, base: seq<Cols>, n: nat, full: Table, flat: Table, c: Cfi, at: nat)
    requires ValidEnv(e) && ValidState(s) && EnvShows(e, f) && Mirrors(e, s, base, n, full, flat)
    requires StartsRow(c) && Fits(f.pointer.size, c)
    ensures var r := SecondStep(e, s, Decoded(c, at + |Encode(order, f.pointer.size, c)|));
            r.Some? && Mirrors(e, r.value, base, n, Effect(f, full, c, at), Effect(f, flat, c, at))
  {
    hide ColumnsShow, StackShows, CfaShown, EnvShows, Effect, Encode, MovedTo, Fits;
    LocationMoves(e, f, order, full, c, at);
    LocationMoves(e, f, order, flat, c, at);
    var i := Decoded(c, at + |Encode(order, f.pointer.size, c)|);
    assert Touches(i) == None && ShowsRow(i.op);
    var row, row1, row2 := Row(s.pc, s.cfa, s.cols), TableRow(full.loc, full.cfa, full.rules), TableRow(flat.loc, flat.cfa, flat.rules);
    if e.interp {
      forall j | 0 <= j < |s.rows| + 1 ensures RowShown((s.rows + [row])[j], (full.rows + [row1])[j], (flat.rows + [row2])[j]) {
        if j < |s.rows| { assert RowShown(s.rows[j], full.rows[j], flat.rows[j]); }
      }
    }
  }

  predicate SetsCfa(c: Cfi)
  {
    c.DefCfa? || c.DefCfaSf? || c.DefCfaRegister? || c.DefCfaOffset? || c.DefCfaOffsetSf? || c.DefCfaExpression?
  }

  predicate DoesNothing(c: Cfi) { c.Nop? || c.WindowSave? || c.ArgsSize? }

  lemma CfaNarrow(e: Env, f: Factors, s: State, full: Table, c: Cfi, next: nat, at: nat)
    requires EnvShows(e, f) && CfaShown(s.cfa, full.cfa) && (SetsCfa(c) || DoesNothing(c))
    ensures CfaShown(NewCfa(e, s.cfa, Decoded(c, next)), Effect(f, full, c, at).cfa)
    ensures Effect(f, full, c, at) == full.(cfa := Effect(f, full, c, at).cfa)
  {
    FactorsSame(e, f);
    hide EnvShows, Narrow, Int32, Wrapped;
    match c
    case DefCfa(r, u) => NarrowInt32(r); NarrowInt32(u);
    case DefCfaSf(r, n) => NarrowInt32(r); NarrowProduct(n, f.data);
    case DefCfaRegister(r) => NarrowInt32(r);
    case DefCfaOffset(u) => NarrowInt32(u);
    case DefCfaOffsetSf(n) => NarrowProduct(n, f.data);
    case _ =>
  }

  lemma CfaStep(e: Env, f: Factors, s: State, base: seq<Cols>, n: nat, full: Table, flat: Table, c: Cfi, next: nat, at: nat)
    requires ValidEnv(e) && ValidState(s) && EnvShows(e, f) && Mirrors(e, s, base, n, full, flat)
    requires SetsCfa(c) || DoesNothing(c)
    ensures var r := SecondStep(e, s, Decoded(c, next));
            r.Some? && Mirrors(e, r.value, base, n, Effect(f, full, c, at), Effect(f, flat, c, at))
  {
    hide ColumnsShow, StackShows, CfaShown, EnvShows, Effect, NewCfa, RowsShow;
    var i := Decoded(c, next);
    assert Touches(i) == None && i.op != REMEMBER_STATE && i.op != RESTORE_STATE && !ShowsRow(i.op);
    CfaNarrow(e, f, s, full, c, next, at);
    CfaOnly(f, flat, c, at);
  }

  lemma CfaOnly(f: Factors, t: Table, c: Cfi, at: nat)
    requires SetsCfa(c) || DoesNothing(c)
    ensures Effect(f, t, c, at) == t.(cfa := Effect(f, t, c, at).cfa)
  {
  }

  /** An instruction that sets or restores a register's rule. */
  lemma RegisterStep(e: Env, f: Factors, s: State, base: seq<Cols>, n: nat, full: Table, flat: Table, c: Cfi, next: nat, at: nat)
    requires ValidEnv(e) && ValidState(s) && Within(e, s) && EnvShows(e, f) && Mirrors(e, s, base, n, full, flat)
    requires Named(c).Some? && HasColumn(e.regnames, n, c)
    ensures var r := SecondStep(e, s, Decoded(c, next));
            r.Some? && Mirrors(e, r.value, base, n, Effect(f, full, c, at), Effect(f, flat, c, at))
  {
    hide ColumnsShow, StackShows, CfaShown, EnvShows, RowsShow, SecondStep, Decoded, Within, ValidState, ValidEnv;
    if RestoresRule(c) {
      RestoreStep(e, f, s, full, flat, c, next);
    } else {
      SetStep(e, f, s, full.rules, flat.rules, c, next);
      EffectSets(f, full, c, at);
      EffectSets(f, flat, c, at);
    }
  }

  /** One instruction: the second pass goes on showing the table. */
  lemma StepMirrors(e: Env, f: Factors, order: Order, s: State, base: seq<Cols>, n: nat, full: Table, flat: Table, c: Cfi, at: nat)
    requires ValidEnv(e) && ValidState(s) && Within(e, s) && EnvShows(e, f) && Mirrors(e, s, base, n, full, flat)
    requires Fits(f.pointer.size, c) && HasColumn(e.regnames, n, c) && (c.RestoreState? && full.stack == [] ==> base == [])
    ensures var r := SecondStep(e, s, Decoded(c, at + |Encode(order, f.pointer.size, c)|));
            r.Some? && Mirrors(e, r.value, base, n, Effect(f, full, c, at), Effect(f, flat, Flat(c), at))
  {
    hide ColumnsShow, StackShows, CfaShown, EnvShows, RowsShow, SecondStep, Encode, Within, ValidState, ValidEnv, Fits, Decoded, Mirrors, HasColumn;
    var next := at + |Encode(order, f.pointer.size, c)|;
    if Named(c).Some? { RegisterStep(e, f, s, base, n, full, flat, c, next, at); }
    else if StartsRow(c) { RowStep(e, f, order, s, base, n, full, flat, c, at); }
    else if c.RememberState? { Remembers(e, s, base, n, full, flat, next); }
    else if c.RestoreState? { RestoreStateStep(e, s, base, n, full, flat, next); }
    else { CfaStep(e, f, s, base, n, full, flat, c, next, at); }
  }

  lemma Remembers(e: Env, s: State, base: seq<Cols>, n: nat, full: Table, flat: Table, next: nat)
    requires ValidEnv(e) && ValidState(s) && Mirrors(e, s, base, n, full, flat)
    ensures var r := SecondStep(e, s, Decoded(RememberState, next));
            r.Some? && Mirrors(e, r.value, base, n, full.(stack := [full.rules] + full.stack), flat)
  {
    hide ColumnsShow, StackShows, CfaShown, RowsShow;
    RememberStep(s, base, n, full, flat);
  }

  // ----- the second pass -----

  /** Every restored state was remembered by the code itself, with depth of them open. */
  predicate OwnStates(code: seq<Cfi>, depth: nat)
  {
    if code == [] then true
    else if code[0].RememberState? then OwnStates(code[1..], depth + 1)
    else if code[0].RestoreState? then depth > 0 && OwnStates(code[1..], depth - 1)
    else OwnStates(code[1..], depth)
  }

  predicate HaveColumns(regnames: nat, n: nat, code: seq<Cfi>) { forall k :: 0 <= k < |code| ==> HasColumn(regnames, n, code[k]) }

  /** The code fills the chunk from p to its end. */
  predicate Fills(b: Program, p: nat, code: seq<Cfi>)
  {
    && AllFit(b.ptrSize, code) && InSection(b)
    && At(b.sec, p, EncodeAll(b.order, b.ptrSize, code)) && p + |EncodeAll(b.order, b.ptrSize, code)| == b.end
  }

  lemma FillsCons(b: Program, p: nat, code: seq<Cfi>)
    requires Fills(b, p, code) && code != []
    ensures Fits(b.ptrSize, code[0]) && At(b.sec, p, Encode(b.order, b.ptrSize, code[0])) && p < b.end
    ensures Fills(b, p + |Encode(b.order, b.ptrSize, code[0])|, code[1..])
  {
    hide Fits, At, Encode;
    AtSplit(b.sec, p, Encode(b.order, b.ptrSize, code[0]), EncodeAll(b.order, b.ptrSize, code[1..]));
  }

  lemma FlatCons(code: seq<Cfi>)
    requires code != []
    ensures FlatAll(code) != [] && FlatAll(code)[0] == Flat(code[0]) && FlatAll(code)[1..] == FlatAll(code[1..])
  {
  }

  lemma FlatFits(order: Order, ptrSize: nat, c: Cfi)
    requires Fits(ptrSize, c)
    ensures Fits(ptrSize, Flat(c)) && |Encode(order, ptrSize, Flat(c))| == |Encode(order, ptrSize, c)|
  {
  }

  lemma FlatAllFit(ptrSize: nat, code: seq<Cfi>)
    requires AllFit(ptrSize, code)
    ensures AllFit(ptrSize, FlatAll(code))
  {
    hide Fits;
    forall k | 0 <= k < |code| ensures Fits(ptrSize, FlatAll(code)[k]) { FlatFits(Little, ptrSize, code[k]); }
  }

  /** The second pass over any list of instructions shows, when it is done, the table they build: all its rows,
      its CFA rule and location, and its rules column by column. */
  lemma {:induction false} PassMirrors(b: Program, p: nat, e: Env, f: Factors, s: State, base: seq<Cols>, n: nat, full: Table, flat: Table, code: seq<Cfi>)
    requires Fills(b, p, code) && b.ptrSize == f.pointer.size
    requires ValidEnv(e) && ValidState(s) && Within(e, s) && EnvShows(e, f) && Mirrors(e, s, base, n, full, flat)
    requires HaveColumns(e.regnames, n, code) && (base == [] || OwnStates(code, |full.stack|))
    ensures AllFit(f.pointer.size, FlatAll(code))
    ensures var r := SecondPass(b, p, e, s);
            r.Done? && Within(e, r.value)
            && Mirrors(e, r.value, base, n, Execute(b.order, f, full, code, p), Execute(b.order, f, flat, FlatAll(code), p))
    decreases |code|
  {
    hide Mirrors, EnvShows, Within, SecondStep, SecondPass, Execute, Effect, Encode, Fits, Decoded, SecondDecode, HasColumn,
      EncodeAll, At, ValidEnv, ValidState, FlatAll, Flat;
    FlatAllFit(b.ptrSize, code);
    if code == [] {
      PassOver(b, p, e, f, s, full, flat, code);
    } else {
      FillsCons(b, p, code);
      FlatCons(code);
      var c := code[0];
      InstructionDecoded(b.order, b.sec, p, b.ptrSize, c);
      FlatFits(b.order, b.ptrSize, c);
      ColumnsCons(e.regnames, n, code);
      StepMirrors(e, f, b.order, s, base, n, full, flat, c, p);
      var next := p + |Encode(b.order, b.ptrSize, c)|;
      StepWithin(e, s, Decoded(c, next));
      StackDepth(f, full, c, p);
      DecodedNext(c, next);
      PassNext(b, p, e, s, Decoded(c, next), SecondStep(e, s, Decoded(c, next)).value);
      ExecuteNext(b.order, f, full, code, p);
      ExecuteNext(b.order, f, flat, FlatAll(code), p);
      PassMirrors(b, next, e, f, SecondStep(e, s, Decoded(c, next)).value, base, n,
                  Effect(f, full, c, p), Effect(f, flat, Flat(c), p), code[1..]);
    }
  }

  lemma ColumnsCons(regnames: nat, n: nat, code: seq<Cfi>)
    requires HaveColumns(regnames, n, code) && code != []
    ensures HasColumn(regnames, n, code[0]) && HaveColumns(regnames, n, code[1..])
  {
    hide HasColumn;
  }

  lemma PassOver(b: Program, p: nat, e: Env, f: Factors, s: State, full: Table, flat: Table, code: seq<Cfi>)
    requires Fills(b, p, code) && code == [] && ValidEnv(e) && ValidState(s)
    ensures SecondPass(b, p, e, s) == Done(s) && FlatAll(code) == []
    ensures Execute(b.order, f, full, [], p) == full && Execute(b.order, f, flat, [], p) == flat
  {
  }

  lemma PassNext(b: Program, p: nat, e: Env, s: State, i: Instr, t: State)
    requires InSection(b) && p < b.end && ValidEnv(e) && ValidState(s) && ValidState(t)
    requires SecondDecode(b.order, b.sec, p, b.ptrSize) == Some(i) && SecondStep(e, s, i) == Some(t)
    ensures SecondPass(b, p, e, s) == SecondPass(b, i.next, e, t)
  {
    hide SecondStep, SecondDecode;
  }

  lemma DecodedNext(c: Cfi, next: nat)
    ensures Decoded(c, next).next == next
  {
  }

  lemma ExecuteNext(order: Order, f: Factors, t: Table, code: seq<Cfi>, at: nat)
    requires AllFit(f.pointer.size, code) && code != []
    ensures Execute(order, f, t, code, at)
            == Execute(order, f, Effect(f, t, code[0], at), code[1..], at + |Encode(order, f.pointer.size, code[0])|)
  {
    hide Effect, Encode, Fits;
  }

  lemma StackDepth(f: Factors, t: Table, c: Cfi, at: nat)
    ensures |Effect(f, t, c, at).stack| == if c.RememberState? then |t.stack| + 1
                                          else if c.RestoreState? && t.stack != [] then |t.stack| - 1
                                          else |t.stack|
  {
  }
}
