/** Both passes over a chunk, and over a section, print the unwind tables of the instructions. */
module FrameSections {
  import opened Machine
  import opened ByteOrder
  import opened CallFrames
  import opened CallFrameProofs
  import opened FrameRules
  import opened FrameTables

  // ----- the first pass -----

  function NamedIn(regnames: nat, c: Cfi): set<nat>
  {
    if Named(c).Some? && Granted(regnames, Named(c).value) then {Named(c).value} else {}
  }

  /** The registers named by the code that frame_need_space grants. */
  function NamedBy(regnames: nat, code: seq<Cfi>): set<nat>
  {
    if code == [] then {} else NamedIn(regnames, code[0]) + NamedBy(regnames, code[1..])
  }

  /** Register numbers that keep their value as unsigned ints. */
  predicate AllBelow(regs: set<nat>) { forall r :: r in regs ==> r < TWO_32 }

  /** c' is c with columns for exactly the registers up to the largest of regs, marked undefined at regs. */
  predicate Noted(c: Cols, c': Cols, regs: set<nat>)
  {
    && Paired(c) && Paired(c') && |c.types| <= |c'.types|
    && (forall r :: r in regs ==> r < |c'.types|)
    && (|c'.types| == |c.types| || |c'.types| - 1 in regs)
    && (forall k :: 0 <= k < |c'.types| ==>
          c'.types[k] == if k in regs then 0x07 else if k < |c.types| then c.types[k] else -1)
    && (forall k :: 0 <= k < |c'.types| ==> c'.offsets[k] == if k < |c.types| then c.offsets[k] else 0)
  }

  lemma StepNotes(c: Cols, regnames: nat, i: Instr, k: Cfi)
    requires Bounded(c, regnames) && 0 < regnames < TWO_32 - 1 && Touches(i) == Named(k)
    requires AllBelow(NamedIn(regnames, k))
    ensures var r := FirstStep(c, regnames, i);
            r.Some? && Bounded(r.value, regnames) && Noted(c, r.value, NamedIn(regnames, k))
  {
    FirstStepExactly(c, regnames, i);
    if Named(k).Some? {
      var reg := Named(k).value;
      GrantExactly(c, regnames, reg);
      if Granted(regnames, reg) {
        assert reg in NamedIn(regnames, k);
        SmallMod(reg, TWO_32);
      }
    }
  }

  lemma NotedTwice(c: Cols, c1: Cols, c2: Cols, a: set<nat>, b: set<nat>)
    requires Noted(c, c1, a) && Noted(c1, c2, b)
    ensures Noted(c, c2, a + b)
  {
  }

  /** The first pass is done, and leaves a column for every granted register it met, marked undefined whatever
      was there, and all other columns as they were. */
  lemma {:induction false} FirstPassNotes(b: Program, p: nat, c: Cols, regnames: nat, code: seq<Cfi>)
    requires Fills(b, p, code) && Bounded(c, regnames) && 0 < regnames < TWO_32 - 1
    requires AllBelow(NamedBy(regnames, code))
    ensures var r := FirstPass(b, p, c, regnames);
            r.Done? && Bounded(r.value, regnames) && Noted(c, r.value, NamedBy(regnames, code))
    decreases |code|
  {
    hide FirstStep, FirstDecode, SecondDecode, Encode, Fits, Decoded, Noted, At, NamedIn;
    if code == [] {
      NotedNothing(c);
    } else {
      FillsCons(b, p, code);
      InstructionDecoded(b.order, b.sec, p, b.ptrSize, code[0]);
      DecodesAgree(b.order, b.sec, p, b.ptrSize);
      var next := p + |Encode(b.order, b.ptrSize, code[0])|;
      DecodedNames(code[0], next);
      DecodedNext(code[0], next);
      var i := FirstDecode(b.order, b.sec, p, b.ptrSize).value;
      assert AllBelow(NamedIn(regnames, code[0])) && AllBelow(NamedBy(regnames, code[1..])) by {
        BelowBoth(NamedIn(regnames, code[0]), NamedBy(regnames, code[1..]));
      }
      StepNotes(c, regnames, i, code[0]);
      var c1 := FirstStep(c, regnames, i).value;
      FirstPassNotes(b, next, c1, regnames, code[1..]);
      NotedTwice(c, c1, FirstPass(b, next, c1, regnames).value, NamedIn(regnames, code[0]), NamedBy(regnames, code[1..]));
    }
  }

  lemma BelowBoth(a: set<nat>, b: set<nat>)
    requires AllBelow(a + b)
    ensures AllBelow(a) && AllBelow(b)
  {
    assert forall r :: r in a || r in b ==> r in a + b;
  }

  lemma NotedNothing(c: Cols)
    requires Paired(c)
    ensures Noted(c, c, {})
  {
  }

  /** The rules after the first pass. */
  function Marked(rules: Rules, regs: set<nat>): Rules
  {
    map k | k in rules.Keys + regs :: if k in regs then Unsaved else rules[k]
  }

  lemma NotedShows(c: Cols, c': Cols, regs: set<nat>, rules: Rules)
    requires Shows(c, rules) && Noted(c, c', regs)
    ensures Shows(c', Marked(rules, regs))
  {
    hide Kind, NumberShown;
    forall k | 0 <= k < |c'.types| ensures ColumnShown(c', Marked(rules, regs), Marked(rules, regs), k) {
      if k < |c.types| { CieColumn(c, rules, k); }
      KindOfAbsent();
    }
  }

  lemma KindOfAbsent()
    ensures Kind(None) == -1 && Kind(Some(Unsaved)) == 7
    ensures forall n: int :: NumberShown(n, None) && NumberShown(n, Some(Unsaved))
  {
  }

  /** The first pass shows the CIE's rules exactly when it marks nothing: every register the code names was
      undefined already. */
  lemma MarkedExactly(c: Cols, c': Cols, regs: set<nat>, rules: Rules)
    requires Shows(c, rules) && Noted(c, c', regs)
    ensures Shows(c', rules) <==> forall r :: r in regs ==> RuleAt(rules, r) == Some(Unsaved)
  {
    NotedShows(c, c', regs, rules);
    if forall r :: r in regs ==> RuleAt(rules, r) == Some(Unsaved) {
      assert Marked(rules, regs) == rules;
    }
    if Shows(c', rules) {
      forall r | r in regs ensures RuleAt(rules, r) == Some(Unsaved) {
        CieColumn(c', rules, r);
      }
    }
  }

  // ----- both passes -----

  lemma {:induction false} NamedAt(regnames: nat, code: seq<Cfi>, k: nat)
    requires k < |code|
    ensures NamedIn(regnames, code[k]) <= NamedBy(regnames, code)
  {
    if k > 0 { NamedAt(regnames, code[1..], k - 1); }
  }

  lemma NotedHaveColumns(c: Cols, c': Cols, regnames: nat, code: seq<Cfi>)
    requires Noted(c, c', NamedBy(regnames, code))
    ensures HaveColumns(regnames, |c'.types|, code)
  {
    hide Named;
    forall k | 0 <= k < |code| ensures HasColumn(regnames, |c'.types|, code[k]) {
      NamedAt(regnames, code, k);
      if Named(code[k]).Some? && Granted(regnames, Named(code[k]).value) { assert Named(code[k]).value in NamedIn(regnames, code[k]); }
    }
  }

  /** The table a chunk starts from. */
  function StartTable(rules: Rules, regs: set<nat>, cfa: CfaRule, pc: nat): Table { Table(Marked(rules, regs), cfa, pc, [], []) }

  /** Both passes over a chunk. They get through, and show the table that its instructions build from the rules
      it starts with, less those of the registers it names. */
  lemma ChunkShows(b: Program, p: nat, e: Env, f: Factors, begun: State, rules: Rules, cfa: CfaRule, code: seq<Cfi>)
    requires Fills(b, p, code) && b.ptrSize == f.pointer.size && AllBelow(NamedBy(e.regnames, code))
    requires ValidEnv(e) && ValidState(begun) && Within(e, begun) && EnvShows(e, f)
    requires Shows(begun.cols, rules) && CfaShown(begun.cfa, cfa) && begun.rows == []
    requires begun.remembered == [] || OwnStates(code, 0)
    ensures AllFit(f.pointer.size, FlatAll(code))
    ensures var sized := FirstPass(b, p, begun.cols, e.regnames);
            && sized.Done? && Noted(begun.cols, sized.value, NamedBy(e.regnames, code))
            && var r := SecondPass(b, p, e, begun.(cols := sized.value));
               var t := StartTable(rules, NamedBy(e.regnames, code), cfa, begun.pc);
               r.Done? && Within(e, r.value)
               && Mirrors(e, r.value, begun.remembered, |sized.value.types|,
                          Execute(b.order, f, t, code, p), Execute(b.order, f, t, FlatAll(code), p))
  {
    hide Noted, Shows, CfaShown, EnvShows, SecondPass, FirstPass, Execute, Fills, OwnStates, HaveColumns;
    var regs := NamedBy(e.regnames, code);
    FillsParts(b, p, code);
    FirstPassNotes(b, p, begun.cols, e.regnames, code);
    var sized := FirstPass(b, p, begun.cols, e.regnames).value;
    NotedShows(begun.cols, sized, regs, rules);
    NotedHaveColumns(begun.cols, sized, e.regnames, code);
    var t := StartTable(rules, regs, cfa, begun.pc);
    var s := begun.(cols := sized);
    ShowsColumns(sized, t.rules);
    assert Mirrors(e, s, begun.remembered, |sized.types|, t, t);
    PassMirrors(b, p, e, f, s, begun.remembered, |sized.types|, t, t, code);
  }

  lemma FillsParts(b: Program, p: nat, code: seq<Cfi>)
    requires Fills(b, p, code)
    ensures InSection(b) && AllFit(b.ptrSize, code)
  {
  }

  lemma ShowsColumns(c: Cols, rules: Rules)
    requires Shows(c, rules)
    ensures ColumnsShow(c, rules, rules)
  {
  }

  // ----- sections -----

  /** The rules a CIE provides. */
  datatype Provided = Provided(rules: Rules, cfa: CfaRule)

  predicate ProvidedShows(i: Initial, r: Provided) { Shows(i.cols, r.rules) && CfaShown(i.cfa, r.cfa) }

  /** The CIEs met so far show their rules, and no remembered state is left over. */
  predicate SectionShows(sec: Section, cies: seq<Provided>)
  {
    && |sec.cies| == |cies| && sec.remembered == []
    && forall k :: 0 <= k < |cies| ==> ProvidedShows(sec.cies[k], cies[k])
  }

  /** The rules a chunk starts with; the source does not copy that the CFA is an expression. */
  function StartOf(cies: seq<Provided>, ch: Chunk): Provided
    requires ch.header.Fde? && ch.header.cie.Some? ==> ch.header.cie.value < |cies|
  {
    if ch.header.Fde? && ch.header.cie.Some? then
      var cie := cies[ch.header.cie.value];
      Provided(cie.rules, cie.cfa.(exp := false))
    else Provided(map[], CfaRule(0, 0, false))
  }

  /** The factors of a chunk. How many columns its CIE has is taken from the arrays. */
  function FactorsOf(sec: Section, cies: seq<Provided>, ch: Chunk): Factors
    requires ChunkOk(sec, ch) && |sec.cies| == |cies|
  {
    Factors(ch.codeFactor, ch.dataFactor, ch.pointer,
            if CieOf(sec, ch).Some? then Some(CieRules(cies[ch.header.cie.value].rules, |CieOf(sec, ch).value.types|)) else None)
  }

  /** The code of a chunk, placed where the header says. */
  predicate ChunkHolds(ch: Chunk, code: seq<Cfi>, regnames: nat)
  {
    && Fills(ch.code, ch.start, code) && ch.code.ptrSize == ch.pointer.size
    && AllBelow(NamedBy(regnames, code))
  }

  /** The unwind table of a chunk, with its last row; code is the chunk's, or that without remembering. */
  function TableOf(sec: Section, cies: seq<Provided>, ch: Chunk, named: set<nat>, code: seq<Cfi>): Table
    requires ChunkOk(sec, ch) && |sec.cies| == |cies| && AllFit(ch.pointer.size, code)
  {
    var start := StartOf(cies, ch);
    var t := Execute(ch.code.order, FactorsOf(sec, cies, ch), StartTable(start.rules, named, start.cfa, ch.pc), code, ch.start);
    t.(rows := t.rows + [TableRow(t.loc, t.cfa, t.rules)])
  }

  /** Growing the arrays shows no new rule. */
  lemma GrownShows(c: Cols, regnames: nat, reg: nat, rules: Rules)
    requires regnames > 0 && Shows(c, rules)
    ensures Shows(NeedSpace(c, regnames, reg).0, rules)
  {
    hide Kind, NumberShown;
    var c' := NeedSpace(c, regnames, reg).0;
    forall k | 0 <= k < |c'.types| ensures ColumnShown(c', rules, rules, k) {
      if k < |c.types| { CieColumn(c, rules, k); }
      KindOfAbsent();
    }
  }

  lemma StartShows(sec: Section, cies: seq<Provided>, ch: Chunk, regnames: nat)
    requires SectionOk(sec, regnames) && ChunkOk(sec, ch) && SectionShows(sec, cies)
    ensures Shows(StartColumns(sec, ch, regnames), StartOf(cies, ch).rules)
    ensures CfaShown(StartCfa(sec, ch), StartOf(cies, ch).cfa)
  {
    hide Shows, NeedSpace;
    var rules := StartOf(cies, ch).rules;
    var copied := if CieOf(sec, ch).Some? then CieOf(sec, ch).value else Cols([], []);
    assert Shows(copied, rules) by {
      if CieOf(sec, ch).Some? { assert ProvidedShows(sec.cies[ch.header.cie.value], cies[ch.header.cie.value]); }
      NoRules();
    }
    GrownShows(copied, regnames, (sec.maxRegs - 1) % TWO_32, rules);
    if ch.header.Cie? { GrownShows(NeedSpace(copied, regnames, (sec.maxRegs - 1) % TWO_32).0, regnames, ch.header.ra, rules); }
  }

  lemma NoRules()
    ensures Shows(Cols([], []), map[])
  {
  }

  lemma EnvOfChunkShows(sec: Section, cies: seq<Provided>, ch: Chunk, regnames: nat, interp: bool)
    requires SectionOk(sec, regnames) && ChunkOk(sec, ch) && SectionShows(sec, cies)
    ensures EnvShows(ChunkEnv(sec, ch, regnames, interp), FactorsOf(sec, cies, ch))
  {
    hide Shows;
    if CieOf(sec, ch).Some? { assert ProvidedShows(sec.cies[ch.header.cie.value], cies[ch.header.cie.value]); }
  }

  /** A chunk of a section, interpreted: the dump gets through it and prints its unwind table, row by row. */
  lemma ChunkPrinted(sec: Section, cies: seq<Provided>, ch: Chunk, code: seq<Cfi>, regnames: nat)
    requires SectionOk(sec, regnames) && ChunkOk(sec, ch) && SectionShows(sec, cies) && ChunkHolds(ch, code, regnames)
    ensures AllFit(ch.pointer.size, code) && AllFit(ch.pointer.size, FlatAll(code))
    ensures var named, r := NamedBy(regnames, code), ChunkEnd(sec, ch, regnames, true);
            var full, flat := TableOf(sec, cies, ch, named, code), TableOf(sec, cies, ch, named, FlatAll(code));
            && r.Some? && RowsShow(r.value.rows, full.rows, flat.rows)
            && ColumnsShow(r.value.cols, full.rules, flat.rules) && CfaShown(r.value.cfa, full.cfa)
            && StackShows(r.value.remembered, [], |r.value.cols.types|, full.stack)
  {
    hide SecondPass, FirstPass, Execute, Fills, ColumnsShow, CfaShown, StackShows, EnvShows, Shows, StartTable, Noted;
    var e, f, begun := ChunkEnv(sec, ch, regnames, true), FactorsOf(sec, cies, ch), BegunState(sec, ch, regnames);
    var start := StartOf(cies, ch);
    StartShows(sec, cies, ch, regnames);
    EnvOfChunkShows(sec, cies, ch, regnames, true);
    ChunkShows(ch.code, ch.start, e, f, begun, start.rules, start.cfa, code);
    FillsParts(ch.code, ch.start, code);
    var t := StartTable(start.rules, NamedBy(regnames, code), start.cfa, ch.pc);
    var r := SecondPass(ch.code, ch.start, e, SizedState(sec, ch, regnames).value).value;
    LastRow(e, r, |r.cols.types|, Execute(ch.code.order, f, t, code, ch.start), Execute(ch.code.order, f, t, FlatAll(code), ch.start));
  }

  lemma LastRow(e: Env, s: State, n: nat, full: Table, flat: Table)
    requires Mirrors(e, s, [], n, full, flat) && e.interp
    ensures RowsShow(s.rows + [Row(s.pc, s.cfa, s.cols)], full.rows + [TableRow(full.loc, full.cfa, full.rules)],
                     flat.rows + [TableRow(flat.loc, flat.cfa, flat.rules)])
  {
    hide ColumnsShow, CfaShown;
    forall j | 0 <= j < |s.rows| ensures RowShown(s.rows[j], full.rows[j], flat.rows[j]) {}
  }

  /** How many states are remembered after the code. */
  function OpenStates(code: seq<Cfi>, depth: nat): nat
  {
    if code == [] then depth
    else if code[0].RememberState? then OpenStates(code[1..], depth + 1)
    else if code[0].RestoreState? && depth > 0 then OpenStates(code[1..], depth - 1)
    else OpenStates(code[1..], depth)
  }

  lemma {:induction false} StackAfter(order: Order, f: Factors, t: Table, code: seq<Cfi>, at: nat)
    requires AllFit(f.pointer.size, code)
    ensures |Execute(order, f, t, code, at).stack| == OpenStates(code, |t.stack|)
    decreases |code|
  {
    hide Effect, Encode, Fits;
    if code != [] {
      StackDepth(f, t, code[0], at);
      StackAfter(order, f, Effect(f, t, code[0], at), code[1..], at + |Encode(order, f.pointer.size, code[0])|);
    }
  }

  /** The rules of registers that have a column. */
  function Restricted(rules: Rules, n: nat): Rules { map k | k in rules && k < n :: rules[k] }

  lemma RestrictedShows(c: Cols, rules: Rules)
    requires ColumnsShow(c, rules, rules)
    ensures Shows(c, Restricted(rules, |c.types|))
  {
    hide Kind, NumberShown, KindShown;
    var some := Restricted(rules, |c.types|);
    forall k | 0 <= k < |c.types| ensures ColumnShown(c, some, some, k) {
      assert ColumnShown(c, rules, rules, k);
      assert RuleAt(some, k) == RuleAt(rules, k);
    }
  }

  /** A chunk and its code. */
  datatype Piece = Piece(chunk: Chunk, code: seq<Cfi>)

  /** What the dump needs of a chunk to print its table: the code closes what it remembers, a CIE remembers
      nothing, an FDE names a CIE met before it, if any. */
  predicate Regular(met: nat, piece: Piece, regnames: nat)
  {
    var ch := piece.chunk;
    && ChunkHolds(ch, piece.code, regnames) && OpenStates(piece.code, 0) == 0
    && (ch.header.Cie? ==> FlatAll(piece.code) == piece.code)
    && (ch.header.Fde? && ch.header.cie.Some? ==> ch.header.cie.value < met)
  }

  predicate AllRegular(met: nat, pieces: seq<Piece>, regnames: nat)
    decreases pieces
  {
    pieces != [] ==>
      Regular(met, pieces[0], regnames) && AllRegular(if pieces[0].chunk.header.Cie? then met + 1 else met, pieces[1..], regnames)
  }

  /** The CIEs after a chunk. */
  function NextCies(sec: Section, cies: seq<Provided>, piece: Piece, regnames: nat): seq<Provided>
    requires SectionOk(sec, regnames) && SectionShows(sec, cies) && Regular(|cies|, piece, regnames)
  {
    assert AllFit(piece.chunk.pointer.size, piece.code);
    if piece.chunk.header.Cie? then
      var t := TableOf(sec, cies, piece.chunk, NamedBy(regnames, piece.code), piece.code);
      var n := match ChunkEnd(sec, piece.chunk, regnames, true) case None => 0 case Some(r) => |r.cols.types|;
      [Provided(Restricted(t.rules, n), t.cfa)] + cies
    else cies
  }

  lemma ChunkKeeps(sec: Section, cies: seq<Provided>, piece: Piece, regnames: nat)
    requires SectionOk(sec, regnames) && SectionShows(sec, cies) && Regular(|cies|, piece, regnames)
    ensures var after := ProcessChunk(sec, piece.chunk, regnames, true);
            && after.Some? && SectionOk(after.value, regnames)
            && SectionShows(after.value, NextCies(sec, cies, piece, regnames))
            && |after.value.cies| == if piece.chunk.header.Cie? then |cies| + 1 else |cies|
  {
    hide SectionOk, ColumnsShow, RowsShow, CfaShown, Shows, Execute, ChunkEnd, StartTable;
    var ch, code := piece.chunk, piece.code;
    ChunkPrinted(sec, cies, ch, code, regnames);
    var start := StartOf(cies, ch);
    StackAfter(ch.code.order, FactorsOf(sec, cies, ch), StartTable(start.rules, NamedBy(regnames, code), start.cfa, ch.pc), code, ch.start);
    var r := ChunkEnd(sec, ch, regnames, true).value;
    assert StartTable(start.rules, NamedBy(regnames, code), start.cfa, ch.pc).stack == [] by { NothingOpen(start, NamedBy(regnames, code), ch.pc); }
    assert r.remembered == [];
    if ch.header.Cie? { RestrictedShows(r.cols, TableOf(sec, cies, ch, NamedBy(regnames, code), code).rules); }
    var after, next := ProcessChunk(sec, ch, regnames, true).value, NextCies(sec, cies, piece, regnames);
    forall k | 0 <= k < |next| ensures ProvidedShows(after.cies[k], next[k]) {
      if ch.header.Cie? && k > 0 { assert next[k] == cies[k - 1] && after.cies[k] == sec.cies[k - 1]; }
    }
  }

  lemma NothingOpen(start: Provided, named: set<nat>, pc: nat)
    ensures StartTable(start.rules, named, start.cfa, pc).stack == []
  {
  }

  /** The dump of each chunk in turn: it gets through, and prints the rows of the chunk's table. */
  predicate AllPrinted(sec: Section, cies: seq<Provided>, pieces: seq<Piece>, regnames: nat)
    requires SectionOk(sec, regnames) && SectionShows(sec, cies) && AllRegular(|cies|, pieces, regnames)
    decreases pieces
  {
    pieces != [] ==>
      var piece := pieces[0];
      var ch, named := piece.chunk, NamedBy(regnames, piece.code);
      ChunkPrinted(sec, cies, ch, piece.code, regnames);
      ChunkKeeps(sec, cies, piece, regnames);
      && RowsShow(ChunkEnd(sec, ch, regnames, true).value.rows,
                  TableOf(sec, cies, ch, named, piece.code).rows, TableOf(sec, cies, ch, named, FlatAll(piece.code)).rows)
      && AllPrinted(ProcessChunk(sec, ch, regnames, true).value, NextCies(sec, cies, piece, regnames), pieces[1..], regnames)
  }

  /** Every section of regular chunks is dumped from beginning to end, and every row printed is the row of the
      unwind table that section 6.4 of DWARF 3 gives the chunk. */
  lemma {:induction false} SectionPrinted(sec: Section, cies: seq<Provided>, pieces: seq<Piece>, regnames: nat)
    requires SectionOk(sec, regnames) && SectionShows(sec, cies) && AllRegular(|cies|, pieces, regnames)
    ensures AllPrinted(sec, cies, pieces, regnames)
    decreases pieces
  {
    hide SectionOk, ProcessChunk, ChunkEnd, RowsShow, TableOf, NextCies, ProvidedShows;
    if pieces != [] {
      ChunkPrinted(sec, cies, pieces[0].chunk, pieces[0].code, regnames);
      ChunkKeeps(sec, cies, pieces[0], regnames);
      SectionPrinted(ProcessChunk(sec, pieces[0].chunk, regnames, true).value, NextCies(sec, cies, pieces[0], regnames), pieces[1..], regnames);
    }
  }

  /** The dump starts so. */
  lemma DumpPrinted(pieces: seq<Piece>, regnames: nat)
    requires 0 < regnames < TWO_32 - 1 && AllRegular(0, pieces, regnames)
    ensures SectionShows(Section([], [], 0), []) && AllPrinted(Section([], [], 0), [], pieces, regnames)
  {
    SectionPrinted(Section([], [], 0), [], pieces, regnames);
  }
}
