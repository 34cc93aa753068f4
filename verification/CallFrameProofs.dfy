/** What the two passes of the call-frame interpreter agree on, what remember/restore bring back,
    and what holds of every chunk of a section. */
module CallFrameProofs {
  import opened Machine
  import opened ByteOrder
  import Leb128
  import opened CallFrames

  // ----- offsets -----

  /** The second pass decodes, offset by offset, a prefix of what the first pass decoded. */
  lemma {:induction false} SecondIsPrefix(b: Program, p: nat)
    requires InSection(b)
    ensures SecondOffsets(b, p) <= FirstOffsets(b, p)
    decreases b.end - p
  {
    if p < b.end && SecondDecode(b.order, b.sec, p, b.ptrSize).Some? {
      DecodesAgree(b.order, b.sec, p, b.ptrSize);
      SecondIsPrefix(b, SecondDecode(b.order, b.sec, p, b.ptrSize).value.next);
    }
  }

  /** The second pass can go on from an offset. */
  predicate Known(b: Program, p: nat) { p < |b.sec| && SecondDecode(b.order, b.sec, p, b.ptrSize).Some? }

  /** It decodes all of them exactly when no opcode before the last is unknown to it. */
  lemma {:induction false} SecondIsWhole(b: Program, p: nat)
    requires InSection(b)
    ensures var first := FirstOffsets(b, p);
            SecondOffsets(b, p) == first <==> forall k :: 0 <= k < |first| - 1 ==> Known(b, first[k])
    decreases b.end - p
  {
    if p < b.end {
      var first := FirstOffsets(b, p);
      assert first[0] == p;
      if Known(b, p) {
        DecodesAgree(b.order, b.sec, p, b.ptrSize);
        var q := SecondDecode(b.order, b.sec, p, b.ptrSize).value.next;
        SecondIsWhole(b, q);
        var rest := FirstOffsets(b, q);
        assert first == [p] + rest && SecondOffsets(b, p) == [p] + SecondOffsets(b, q);
        assert SecondOffsets(b, p)[1..] == SecondOffsets(b, q) && first[1..] == rest;
        if forall k :: 0 <= k < |rest| - 1 ==> Known(b, rest[k]) {
          assert forall k :: 0 < k < |first| - 1 ==> first[k] == rest[k - 1];
        }
        if forall k :: 0 <= k < |first| - 1 ==> Known(b, first[k]) {
          assert forall k :: 0 <= k < |rest| - 1 ==> rest[k] == first[k + 1];
        }
      }
    }
  }

  // ----- bad registers -----

  /** The register numbers the first pass hands to frame_need_space. */
  function FirstRegisters(b: Program, p: nat): set<nat>
    requires InSection(b)
    decreases b.end - p
  {
    if p >= b.end then {}
    else
      match FirstDecode(b.order, b.sec, p, b.ptrSize)
      case None => {}
      case Some(i) => (if Touches(i).Some? then {Touches(i).value} else {}) + FirstRegisters(b, i.next)
  }

  /** A register that frame_need_space grants: it sees 32 bits of the number. */
  predicate Granted(regnames: nat, reg: nat) { reg % TWO_32 <= regnames }

  /** Every granted register the chunk names is below 2^32. */
  predicate GrantedBelow(b: Program, p: nat, regnames: nat)
    requires InSection(b)
  {
    forall r :: r in FirstRegisters(b, p) && Granted(regnames, r) ==> r < TWO_32
  }

  /** Every granted register of the chunk has a column. */
  predicate Covered(b: Program, p: nat, regnames: nat, c: Cols)
    requires InSection(b)
  {
    forall r :: r in FirstRegisters(b, p) && Granted(regnames, r) ==> r % TWO_32 < |c.types|
  }

  lemma FirstStepExactly(c: Cols, regnames: nat, i: Instr)
    requires Bounded(c, regnames) && 0 < regnames < TWO_32 - 1
    ensures FirstStep(c, regnames, i).Some? <==> (Touches(i).Some? && Granted(regnames, Touches(i).value) ==> Touches(i).value < TWO_32)
    ensures FirstStep(c, regnames, i).Some? ==> Bounded(FirstStep(c, regnames, i).value, regnames)
  {
    if Touches(i).Some? { GrantExactly(c, regnames, Touches(i).value); }
  }

  /** With no more columns than nameable registers, the answer depends on the number alone, and the granted
      column exists under the untruncated number exactly below 2^32. */
  lemma GrantExactly(c: Cols, regnames: nat, reg: nat)
    requires Bounded(c, regnames) && 0 < regnames < TWO_32 - 1
    ensures var (grown, status) := NeedSpace(c, regnames, reg);
            && (status >= 0 <==> Granted(regnames, reg))
            && (status >= 0 ==> (reg < |grown.types| <==> reg < TWO_32))
  {
    if reg < TWO_32 { SmallMod(reg, TWO_32); }
  }

  /** The first pass comes to an operand past the section. */
  predicate FirstRunsOff(b: Program, p: nat)
    requires InSection(b)
    decreases b.end - p
  {
    p < b.end &&
    match FirstDecode(b.order, b.sec, p, b.ptrSize)
    case None => true
    case Some(i) => FirstRunsOff(b, i.next)
  }

  /** So does the second, which also looks at fixed fields, but stops at an opcode it does not know. */
  predicate SecondRunsOff(b: Program, p: nat)
    requires InSection(b)
    decreases b.end - p
  {
    p < b.end &&
    match SecondDecode(b.order, b.sec, p, b.ptrSize)
    case None => !UnknownAt(b, p)
    case Some(i) => SecondRunsOff(b, i.next)
  }

  /** The second pass ends without more ado exactly at the opcodes that neither the standard nor the vendors it
      knows have defined. */
  lemma UnknownExactly(b: Program, p: nat, e: Env, s: State)
    requires InSection(b) && p < b.end && ValidEnv(e) && ValidState(s)
    ensures var op := b.sec[p];
            && (UnknownAt(b, p) <==> 0x17 <= op <= 0x1c || 0x1e <= op <= 0x2c || 0x30 <= op <= 0x3f)
            && (UnknownAt(b, p) ==> SecondPass(b, p, e, s) == Done(s))
            && (!UnknownAt(b, p) && SecondDecode(b.order, b.sec, p, b.ptrSize) == None ==> SecondPass(b, p, e, s) == RanOff)
  {
    hide DecodeWith, SecondStep;
  }

  /** How the first pass ends, exactly: at a store outside its arrays when the chunk names a granted register
      of 2^32 or more before it runs off the section, off the section when it does not but an operand is cut
      off, and done, with a column for every granted register, otherwise. */
  lemma {:induction false} FirstPassExactly(b: Program, p: nat, c: Cols, regnames: nat)
    requires InSection(b) && Bounded(c, regnames) && 0 < regnames < TWO_32 - 1
    ensures var r := FirstPass(b, p, c, regnames);
            && (r == Outside <==> !GrantedBelow(b, p, regnames))
            && (r == RanOff <==> GrantedBelow(b, p, regnames) && FirstRunsOff(b, p))
            && (r.Done? ==> Covered(b, p, regnames, r.value))
    decreases b.end - p
  {
    if p < b.end && FirstDecode(b.order, b.sec, p, b.ptrSize).Some? {
      var i := FirstDecode(b.order, b.sec, p, b.ptrSize).value;
      FirstStepExactly(c, regnames, i);
      if FirstStep(c, regnames, i).Some? {
        FirstPassExactly(b, i.next, FirstStep(c, regnames, i).value, regnames);
      } else {
        assert Touches(i).value in FirstRegisters(b, p);
      }
    }
  }

  /** No array is wider than the named registers allow: the invariant of the whole section. */
  predicate Within(e: Env, s: State)
  {
    && 0 < e.regnames < TWO_32 - 1
    && |s.cols.types| <= e.regnames + 1
    && (forall k :: 0 <= k < |s.remembered| ==> |s.remembered[k].types| <= e.regnames + 1)
  }

  /** A store of the second pass that falls inside: only the signed forms go by frame_need_space's answer. */
  predicate StoresInside(e: Env, i: Instr)
  {
    Touches(i).Some? && SignedForm(i.op) && Granted(e.regnames, Touches(i).value) ==> Touches(i).value < TWO_32
  }

  lemma StepWithin(e: Env, s: State, i: Instr)
    requires ValidEnv(e) && ValidState(s) && Within(e, s)
    ensures SecondStep(e, s, i).Some? ==> Within(e, SecondStep(e, s, i).value)
    ensures SecondStep(e, s, i).Some? <==> StoresInside(e, i)
  {
    match Touches(i)
    case Some(reg) =>
      GrantExactly(s.cols, e.regnames, reg);
    case None =>
      if i.op == RESTORE_STATE && s.remembered != [] { RestoreHasRoom(s.cols, s.remembered[0], e.regnames); }
  }

  lemma RestoreHasRoom(c: Cols, saved: Cols, regnames: nat)
    requires Paired(saved) && Bounded(c, regnames) && |saved.types| <= regnames + 1 && 0 < regnames < TWO_32 - 1
    ensures RestoreSaved(c, saved, regnames).Some?
  {
    if |saved.types| > 0 { SmallMod(|saved.types| - 1, TWO_32); }
  }

  /** The verdict the first pass predicts: refused there, or a restore of a column the CIE lacks. */
  predicate Predicted(e: Env, first: Report)
  {
    first.bad || (RestoreForm(first.op) && e.cie.Some? && first.reg >= |e.cie.value.types|)
  }

  /** Both passes judge a register that is refused, or below 2^32, alike. */
  lemma VerdictExactly(e: Env, s: State, c: Cols, at: nat, op: nat, reg: nat)
    requires ValidEnv(e) && ValidState(s) && Within(e, s) && Bounded(c, e.regnames)
    requires e.cie.Some? ==> |e.cie.value.types| <= e.regnames + 1
    requires Granted(e.regnames, reg) ==> reg < TWO_32 && reg % TWO_32 < |s.cols.types|
    ensures Bad(e, s, op, reg) == Predicted(e, Report(at, op, reg, NeedSpace(c, e.regnames, reg).1 < 0))
  {
    GrantExactly(c, e.regnames, reg);
    GrantExactly(s.cols, e.regnames, reg);
    if reg < TWO_32 { SmallMod(reg, TWO_32); }
  }

  predicate InStep(e: Env, first: Report, second: Report)
  {
    && first.at == second.at && first.op == second.op && first.reg == second.reg
    && second.bad == Predicted(e, first)
  }

  /** Register by register, the passes report in step and with one verdict, and the second pass stores only
      inside its arrays, when the first pass did; it is done exactly when it does not run off the section. */
  lemma {:induction false} ReportsAgree(b: Program, p: nat, e: Env, s: State, c: Cols)
    requires InSection(b) && ValidEnv(e) && ValidState(s) && Within(e, s) && Bounded(c, e.regnames)
    requires e.cie.Some? ==> |e.cie.value.types| <= e.regnames + 1
    requires Covered(b, p, e.regnames, s.cols) && GrantedBelow(b, p, e.regnames)
    ensures if SecondRunsOff(b, p) then SecondPass(b, p, e, s) == RanOff else SecondPass(b, p, e, s).Done?
    ensures var first, second := FirstReports(b, p, c, e.regnames), SecondReports(b, p, e, s);
            |second| <= |first|
            && forall k :: 0 <= k < |second| ==> InStep(e, first[k], second[k])
    decreases b.end - p
  {
    hide FirstStep, SecondStep, SecondDecode, FirstDecode, NeedSpace, Bad;
    if p < b.end && SecondDecode(b.order, b.sec, p, b.ptrSize).Some? {
      DecodesAgree(b.order, b.sec, p, b.ptrSize);
      var i := SecondDecode(b.order, b.sec, p, b.ptrSize).value;
      var f := FirstDecode(b.order, b.sec, p, b.ptrSize).value;
      StepWithin(e, s, i);
      FirstStepExactly(c, e.regnames, f);
      if Touches(i).Some? {
        assert Touches(f).value in FirstRegisters(b, p);
        VerdictExactly(e, s, c, p, i.op, Touches(i).value);
      }
      assert FirstRegisters(b, f.next) <= FirstRegisters(b, p);
      ReportsAgree(b, i.next, e, SecondStep(e, s, i).value, FirstStep(c, e.regnames, f).value);
    }
  }

  /** Both passes over a chunk. A store falls outside the arrays exactly when a granted register is 2^32 or
      more; otherwise the first pass runs off the section exactly when an operand of it is cut off, and the
      second likewise. If the first is done, a register is reported bad in the second exactly when
      frame_need_space refused it in the first (a restore also needs a column in the CIE). */
  lemma BadExactlyWhenRefused(b: Program, start: nat, e: Env, begun: State)
    requires InSection(b) && ValidEnv(e) && ValidState(begun) && Within(e, begun)
    requires e.cie.Some? ==> |e.cie.value.types| <= e.regnames + 1
    ensures var sized := FirstPass(b, start, begun.cols, e.regnames);
            && (sized == Outside <==> !GrantedBelow(b, start, e.regnames))
            && (sized == RanOff <==> GrantedBelow(b, start, e.regnames) && FirstRunsOff(b, start))
            && (sized.Done? ==>
                  var s := begun.(cols := sized.value);
                  var first, second := FirstReports(b, start, begun.cols, e.regnames), SecondReports(b, start, e, s);
                  && (if SecondRunsOff(b, start) then SecondPass(b, start, e, s) == RanOff else SecondPass(b, start, e, s).Done?)
                  && |second| <= |first|
                  && forall k :: 0 <= k < |second| ==>
                       && second[k].at == first[k].at && second[k].reg == first[k].reg && second[k].op == first[k].op
                       && (second[k].bad <==>
                             first[k].bad || (RestoreForm(first[k].op) && e.cie.Some? && first[k].reg >= |e.cie.value.types|)))
  {
    var c := begun.cols;
    FirstPassExactly(b, start, c, e.regnames);
    var sized := FirstPass(b, start, c, e.regnames);
    if sized.Done? {
      var s := begun.(cols := sized.value);
      ReportsAgree(b, start, e, s, c);
      var first, second := FirstReports(b, start, c, e.regnames), SecondReports(b, start, e, s);
      forall k | 0 <= k < |second| ensures InStep(e, first[k], second[k]) {}
    }
  }

  // ----- remember and restore -----

  /** None: a store fell outside the arrays. */
  function Run(e: Env, s: State, code: seq<Instr>): (r: Option<State>)
    requires ValidEnv(e) && ValidState(s)
    ensures r.Some? ==> ValidState(r.value)
    decreases code
  {
    if code == [] then Some(s)
    else
      match SecondStep(e, s, code[0])
      case None => None
      case Some(t) => Run(e, t, code[1..])
  }

  /** The instructions the second pass executes. */
  function SecondInstrs(b: Program, p: nat): seq<Instr>
    requires InSection(b)
    decreases b.end - p
  {
    if p >= b.end then []
    else
      match SecondDecode(b.order, b.sec, p, b.ptrSize)
      case None => []
      case Some(i) => [i] + SecondInstrs(b, i.next)
  }

  lemma {:induction false} SecondPassRuns(b: Program, p: nat, e: Env, s: State)
    requires InSection(b) && ValidEnv(e) && ValidState(s)
    ensures SecondPass(b, p, e, s) == match Run(e, s, SecondInstrs(b, p))
                                        case None => Outside
                                        case Some(r) => if SecondRunsOff(b, p) then RanOff else Done(r)
    decreases b.end - p
  {
    if p < b.end && SecondDecode(b.order, b.sec, p, b.ptrSize).Some? {
      var i := SecondDecode(b.order, b.sec, p, b.ptrSize).value;
      if SecondStep(e, s, i).Some? { SecondPassRuns(b, i.next, e, SecondStep(e, s, i).value); }
      assert SecondInstrs(b, p)[1..] == SecondInstrs(b, i.next);
    }
  }

  /** Every restore in code has its remember, with depth of them still open from before. */
  predicate Nested(code: seq<Instr>, depth: nat)
  {
    if code == [] then depth == 0
    else if code[0].op == REMEMBER_STATE then Nested(code[1..], depth + 1)
    else if code[0].op == RESTORE_STATE then depth > 0 && Nested(code[1..], depth - 1)
    else Nested(code[1..], depth)
  }

  predicate AllInside(e: Env, code: seq<Instr>) { forall k :: 0 <= k < |code| ==> StoresInside(e, code[k]) }

  lemma AllInsideCons(e: Env, code: seq<Instr>)
    requires code != []
    ensures AllInside(e, code) <==> StoresInside(e, code[0]) && AllInside(e, code[1..])
  {
    if StoresInside(e, code[0]) && AllInside(e, code[1..]) {
      forall k | 0 <= k < |code| ensures StoresInside(e, code[k]) {
        if k > 0 { assert code[k] == code[1..][k - 1]; }
      }
    }
  }

  /** Only remembering and restoring change the stack. */
  lemma StackStep(e: Env, s: State, i: Instr)
    requires ValidEnv(e) && ValidState(s) && SecondStep(e, s, i).Some?
    ensures SecondStep(e, s, i).value.remembered
            == if i.op == REMEMBER_STATE then [s.cols] + s.remembered
               else if i.op == RESTORE_STATE && s.remembered != [] then s.remembered[1..]
               else s.remembered
  {
  }

  /** A properly nested run stores only inside exactly when each of its instructions does. It leaves the stack
      it was given, less the open entries it closes, and only ever adds columns. */
  lemma {:induction false} NestedRun(e: Env, s: State, code: seq<Instr>, depth: nat)
    requires ValidEnv(e) && ValidState(s) && Within(e, s) && Nested(code, depth) && depth <= |s.remembered|
    ensures var r := Run(e, s, code);
            && (r.Some? <==> AllInside(e, code))
            && (r.Some? ==>
                  && r.value.remembered == s.remembered[depth..]
                  && |s.cols.types| <= |r.value.cols.types| && Within(e, r.value))
    decreases code
  {
    hide SecondStep, Within, StoresInside;
    if code != [] {
      StepWithin(e, s, code[0]);
      AllInsideCons(e, code);
      if SecondStep(e, s, code[0]).Some? {
        StackStep(e, s, code[0]);
        var t := SecondStep(e, s, code[0]).value;
        NestedRun(e, t, code[1..],
                  if code[0].op == REMEMBER_STATE then depth + 1 else if code[0].op == RESTORE_STATE then depth - 1 else depth);
      }
    }
  }

  lemma {:induction false} RunAppend(e: Env, s: State, code: seq<Instr>, last: Instr)
    requires ValidEnv(e) && ValidState(s)
    ensures Run(e, s, code + [last]) == match Run(e, s, code) case None => None case Some(t) => SecondStep(e, t, last)
    decreases code
  {
    if code == [] {
      assert [] + [last] == [last];
    } else {
      assert (code + [last])[1..] == code[1..] + [last];
      if SecondStep(e, s, code[0]).Some? { RunAppend(e, SecondStep(e, s, code[0]).value, code[1..], last); }
    }
  }

  /** From the remember to its matching restore, whatever nested instructions run between, as long as they
      store inside the arrays: the stack is as before, and every saved column has its offset back. The type
      comes back too, for the columns of the lower half. */
  lemma RestoreBringsBack(e: Env, s: State, remember: Instr, body: seq<Instr>, restore: Instr)
    requires ValidEnv(e) && ValidState(s) && Within(e, s)
    requires remember.op == REMEMBER_STATE && restore.op == RESTORE_STATE && Nested(body, 0)
    ensures var n, r := |s.cols.types|, Run(e, s, [remember] + body + [restore]);
            && (r.Some? <==> AllInside(e, body))
            && (r.Some? ==>
                  && r.value.remembered == s.remembered
                  && n <= |r.value.cols.types|
                  && r.value.cols.offsets[..n] == s.cols.offsets
                  && (forall k :: 0 <= k && 2 * k + 2 <= n ==> r.value.cols.types[k] == s.cols.types[k]))
  {
    StepWithin(e, s, remember);
    var entered := SecondStep(e, s, remember).value;
    NestedRun(e, entered, body, 0);
    assert ([remember] + body)[1..] == body;
    RunAppend(e, s, [remember] + body, restore);
    if Run(e, entered, body).Some? {
      RestoreStep(e, Run(e, entered, body).value, s, restore);
    }
  }

  lemma RestoreStep(e: Env, closing: State, s: State, restore: Instr)
    requires ValidEnv(e) && ValidState(closing) && ValidState(s) && Within(e, s) && Within(e, closing)
    requires restore.op == RESTORE_STATE && closing.remembered == [s.cols] + s.remembered
    requires |s.cols.types| <= |closing.cols.types|
    ensures var n, r := |s.cols.types|, SecondStep(e, closing, restore);
            && r.Some? && r.value.remembered == s.remembered
            && n <= |r.value.cols.types|
            && r.value.cols.offsets[..n] == s.cols.offsets
            && (forall k :: 0 <= k && 2 * k + 2 <= n ==> r.value.cols.types[k] == s.cols.types[k])
  {
    var n := |s.cols.types|;
    if n > 0 {
      SmallMod(n - 1, TWO_32);
      assert NeedSpace(closing.cols, e.regnames, (n - 1) % TWO_32).0 == closing.cols;
    }
  }

  /** In the upper half the type is lost: the source copies ncols bytes of an array of ncols shorts. */
  lemma TypeNotBroughtBack(e: Env, n: nat, k: nat, cfa: Cfa, pc: nat)
    requires ValidEnv(e) && n <= e.regnames + 1 && e.regnames < TWO_32 - 1 && k < n && 2 * k + 2 > n
    ensures var s := State(Cols(Filled(n, UNREFERENCED), Filled(n, 0)), [], 0, cfa, pc, []);
            var r := Run(e, s, [Instr(REMEMBER_STATE, 0, [], 0)] + [Instr(SAME_VALUE, 0, [k], 0)] + [Instr(RESTORE_STATE, 0, [], 0)]);
            r.Some? && n <= |r.value.cols.types| && r.value.cols.types[k] != s.cols.types[k]
  {
    var s := State(Cols(Filled(n, UNREFERENCED), Filled(n, 0)), [], 0, cfa, pc, []);
    var remember, same, restore := Instr(REMEMBER_STATE, 0, [], 0), Instr(SAME_VALUE, 0, [k], 0), Instr(RESTORE_STATE, 0, [], 0);
    RestoreBringsBack(e, s, remember, [same], restore);
    assert [remember] + [same] == [remember, same];
    assert [remember, same][1..] == [same] && [same][1..] == [];
    var entered := SecondStep(e, s, remember).value;
    var changed := SecondStep(e, entered, same).value;
    assert Run(e, entered, [same]) == Run(e, changed, []);
    assert Run(e, s, [remember, same]) == Some(changed);
    RunAppend(e, s, [remember, same], restore);
    SmallMod(n - 1, TWO_32);
    assert changed.cols.types[k] == SAME_VALUE;
  }

  // ----- the whole section -----

  datatype Header = Cie(ra: nat) | Fde(cie: Option<nat>)

  /** A chunk as its header describes it; pc is 0 for a CIE. */
  datatype Chunk = Chunk(header: Header, code: Program, start: nat, codeFactor: nat, dataFactor: int, pointer: Pointer, pc: nat)

  /** What a CIE leaves for its FDEs. */
  datatype Initial = Initial(cols: Cols, cfa: Cfa)

  /** What display_debug_frames carries from chunk to chunk: the CIEs met so far, the list of
      remembered states, and max_regs. */
  datatype Section = Section(cies: seq<Initial>, remembered: seq<Cols>, maxRegs: nat)

  predicate Bounded(c: Cols, regnames: nat) { Paired(c) && |c.types| <= regnames + 1 }

  predicate SectionOk(sec: Section, regnames: nat)
  {
    && 0 < regnames < TWO_32 - 1
    && (forall k :: 0 <= k < |sec.cies| ==> Bounded(sec.cies[k].cols, regnames))
    && (forall k :: 0 <= k < |sec.remembered| ==> Bounded(sec.remembered[k], regnames))
    && sec.maxRegs <= regnames + 1
  }

  predicate ChunkOk(sec: Section, ch: Chunk)
  {
    InSection(ch.code) && (ch.header.Fde? && ch.header.cie.Some? ==> ch.header.cie.value < |sec.cies|)
  }

  function CieOf(sec: Section, ch: Chunk): Option<Cols>
    requires ChunkOk(sec, ch)
  {
    if ch.header.Fde? && ch.header.cie.Some? then Some(sec.cies[ch.header.cie.value].cols) else None
  }

  /** The CFA rule a chunk starts with: an FDE copies cfa_reg and cfa_offset of its CIE, but not cfa_exp. */
  function StartCfa(sec: Section, ch: Chunk): Cfa
    requires ChunkOk(sec, ch)
  {
    if ch.header.Fde? && ch.header.cie.Some? then sec.cies[ch.header.cie.value].cfa.(exp := false) else Cfa(0, 0, false)
  }

  /** The state before the first pass. */
  function BegunState(sec: Section, ch: Chunk, regnames: nat): (s: State)
    requires SectionOk(sec, regnames) && ChunkOk(sec, ch)
    ensures ValidState(s)
  {
    State(StartColumns(sec, ch, regnames), sec.remembered, sec.maxRegs, StartCfa(sec, ch), ch.pc, [])
  }

  /** The columns a chunk starts with: empty or copied from its CIE, then room for max_regs columns,
      and for a CIE room for its return address column. */
  function StartColumns(sec: Section, ch: Chunk, regnames: nat): (c: Cols)
    requires SectionOk(sec, regnames) && ChunkOk(sec, ch)
    ensures Bounded(c, regnames) && sec.maxRegs <= |c.types|
  {
    var copied := if CieOf(sec, ch).Some? then CieOf(sec, ch).value else Cols([], []);
    var roomy := NeedSpace(copied, regnames, (sec.maxRegs - 1) % TWO_32).0;
    if ch.header.Cie? then NeedSpace(roomy, regnames, ch.header.ra).0 else roomy
  }

  function ChunkEnv(sec: Section, ch: Chunk, regnames: nat, interp: bool): Env
    requires ChunkOk(sec, ch)
  {
    Env(regnames, CieOf(sec, ch), ch.codeFactor, ch.dataFactor, ch.pointer, interp)
  }

  /** The state the second pass starts from, if the first pass was done. */
  function SizedState(sec: Section, ch: Chunk, regnames: nat): (s: Option<State>)
    requires SectionOk(sec, regnames) && ChunkOk(sec, ch)
    ensures s.Some? ==> ValidState(s.value) && |s.value.cols.types| <= regnames + 1 && s.value.maxRegs <= |s.value.cols.types|
  {
    match FirstPass(ch.code, ch.start, StartColumns(sec, ch, regnames), regnames)
    case Done(cols) => Some(BegunState(sec, ch, regnames).(cols := cols))
    case _ => None
  }

  /** Along the second pass max_regs never exceeds the chunk's own columns, so the header loop of
      frame_display_row, which reads max_regs column types, stays inside the array. */
  lemma {:induction false} RowsStayInside(e: Env, s: State, code: seq<Instr>)
    requires ValidEnv(e) && ValidState(s) && Within(e, s) && s.maxRegs <= |s.cols.types| && Run(e, s, code).Some?
    ensures var r := Run(e, s, code).value;
            Within(e, r) && r.maxRegs <= |r.cols.types| && Raise(r.maxRegs, |r.cols.types|) == |r.cols.types|
    decreases code
  {
    if code != [] {
      StepWithin(e, s, code[0]);
      RowsStayInside(e, SecondStep(e, s, code[0]).value, code[1..]);
    }
  }

  /** A chunk that both passes get through: its granted registers are below 2^32, and no operand is cut off. */
  predicate Passable(b: Program, p: nat, regnames: nat)
    requires InSection(b)
  {
    GrantedBelow(b, p, regnames) && !FirstRunsOff(b, p) && !SecondRunsOff(b, p)
  }

  lemma ChunkStaysWithin(sec: Section, ch: Chunk, regnames: nat, interp: bool)
    requires SectionOk(sec, regnames) && ChunkOk(sec, ch)
    ensures var e, sized := ChunkEnv(sec, ch, regnames, interp), SizedState(sec, ch, regnames);
            && (sized.Some? <==> GrantedBelow(ch.code, ch.start, regnames) && !FirstRunsOff(ch.code, ch.start))
            && (sized.Some? ==>
                  var r := SecondPass(ch.code, ch.start, e, sized.value);
                  && (r.Done? <==> !SecondRunsOff(ch.code, ch.start))
                  && (r.Done? ==> Within(e, r.value) && r.value.maxRegs <= |r.value.cols.types|))
  {
    var e := ChunkEnv(sec, ch, regnames, interp);
    BadExactlyWhenRefused(ch.code, ch.start, e, BegunState(sec, ch, regnames));
    var sized := SizedState(sec, ch, regnames);
    if sized.Some? {
      SecondPassRuns(ch.code, ch.start, e, sized.value);
      if Run(e, sized.value, SecondInstrs(ch.code, ch.start)).Some? {
        RowsStayInside(e, sized.value, SecondInstrs(ch.code, ch.start));
      }
    }
  }

  /** After its last instruction an interpreted chunk prints one more row. */
  function Finished(s: State, interp: bool): State { if interp then DisplayRow(s) else s }

  /** The chunk when both passes are over, if they get through. */
  function ChunkEnd(sec: Section, ch: Chunk, regnames: nat, interp: bool): Option<State>
    requires SectionOk(sec, regnames) && ChunkOk(sec, ch)
  {
    match SizedState(sec, ch, regnames)
    case None => None
    case Some(s) =>
      match SecondPass(ch.code, ch.start, ChunkEnv(sec, ch, regnames, interp), s)
      case Done(r) => Some(Finished(r, interp))
      case _ => None
  }

  /** Both passes over one chunk keep every bound of the section; None when one of them does not get through. */
  function ProcessChunk(sec: Section, ch: Chunk, regnames: nat, interp: bool): (after: Option<Section>)
    requires SectionOk(sec, regnames) && ChunkOk(sec, ch)
    ensures after.Some? <==> Passable(ch.code, ch.start, regnames)
    ensures after.Some? ==> SectionOk(after.value, regnames)
  {
    ChunkStaysWithin(sec, ch, regnames, interp);
    match ChunkEnd(sec, ch, regnames, interp)
    case None => None
    case Some(r) =>
      Some(Section(if ch.header.Cie? then [Initial(r.cols, r.cfa)] + sec.cies else sec.cies, r.remembered, r.maxRegs))
  }

  /** A section processed chunk by chunk; an FDE may name any CIE met before it. */
  predicate Reaches(before: Section, chunks: seq<Chunk>, after: Section, regnames: nat, interp: bool)
    requires SectionOk(before, regnames)
    decreases chunks
  {
    if chunks == [] then after == before
    else
      && ChunkOk(before, chunks[0])
      && var next := ProcessChunk(before, chunks[0], regnames, interp);
         next.Some? && Reaches(next.value, chunks[1..], after, regnames, interp)
  }

  lemma {:induction false} ReachableIsOk(before: Section, chunks: seq<Chunk>, after: Section, regnames: nat, interp: bool)
    requires SectionOk(before, regnames) && Reaches(before, chunks, after, regnames, interp)
    ensures SectionOk(after, regnames)
    decreases chunks
  {
    if chunks != [] {
      ReachableIsOk(ProcessChunk(before, chunks[0], regnames, interp).value, chunks[1..], after, regnames, interp);
    }
  }

  /** In every section, at every chunk that is reached: both passes get through exactly when the chunk's
      granted registers are below 2^32 and no operand is cut off; and as soon as the first has, the second
      calls a register bad exactly when the first was refused it, or a restore finds no such column in the
      CIE. */
  lemma SectionVerdicts(chunks: seq<Chunk>, sec: Section, ch: Chunk, regnames: nat, interp: bool)
    requires 0 < regnames < TWO_32 - 1
    requires Reaches(Section([], [], 0), chunks, sec, regnames, interp) && ChunkOk(sec, ch)
    ensures SectionOk(sec, regnames)
    ensures ProcessChunk(sec, ch, regnames, interp).Some? <==> Passable(ch.code, ch.start, regnames)
    ensures SizedState(sec, ch, regnames).Some? ==>
              var e := ChunkEnv(sec, ch, regnames, interp);
              var first := FirstReports(ch.code, ch.start, StartColumns(sec, ch, regnames), regnames);
              var second := SecondReports(ch.code, ch.start, e, SizedState(sec, ch, regnames).value);
              && |second| <= |first|
              && forall k :: 0 <= k < |second| ==>
                   && second[k].at == first[k].at && second[k].reg == first[k].reg && second[k].op == first[k].op
                   && (second[k].bad <==>
                         first[k].bad || (RestoreForm(first[k].op) && e.cie.Some? && first[k].reg >= |e.cie.value.types|))
  {
    ReachableIsOk(Section([], [], 0), chunks, sec, regnames, interp);
    BadExactlyWhenRefused(ch.code, ch.start, ChunkEnv(sec, ch, regnames, interp), BegunState(sec, ch, regnames));
  }

  // ----- encoding -----

  predicate OperandFits(o: Operand, v: nat, payload: seq<byte>)
  {
    match o
    case U => v < TWO_64
    case S => v < TWO_64
    case Fixed(n) => v < Pow2(8 * n)
    case Block => v < TWO_64 && v == |payload|
  }

  function EncodeOperand(order: Order, o: Operand, v: nat, payload: seq<byte>): seq<byte>
    requires OperandFits(o, v, payload)
  {
    match o
    case U => Leb128.EncodeUnsigned(v)
    case S => Leb128.EncodeSigned(Leb128.AsSigned64(v))
    case Fixed(n) => FieldBytes(order, v, n)
    case Block => Leb128.EncodeUnsigned(v) + payload
  }

  predicate OperandsFit(shape: seq<Operand>, vs: seq<nat>, payload: seq<byte>)
  {
    |vs| == |shape| && forall k :: 0 <= k < |shape| ==> OperandFits(shape[k], vs[k], payload)
  }

  function EncodeOperands(order: Order, shape: seq<Operand>, vs: seq<nat>, payload: seq<byte>): seq<byte>
    requires OperandsFit(shape, vs, payload)
  {
    if shape == [] then []
    else EncodeOperand(order, shape[0], vs[0], payload) + EncodeOperands(order, shape[1..], vs[1..], payload)
  }

  lemma OperandRoundTrip(order: Order, sec: seq<byte>, p: nat, o: Operand, v: nat, payload: seq<byte>)
    requires OperandFits(o, v, payload) && At(sec, p, EncodeOperand(order, o, v, payload))
    ensures ReadOperand(order, sec, p, o, true) == Leb128.Got(v, p + |EncodeOperand(order, o, v, payload)|)
  {
    match o
    case U => Leb128.UnsignedRoundTrip(sec, p, v);
    case S => Leb128.SignedRoundTrip(sec, p, Leb128.AsSigned64(v));
    case Fixed(n) =>
      FieldRoundTrip(order, v, n);
      SmallMod(v, Pow2(8 * n));
    case Block =>
      AtSplit(sec, p, Leb128.EncodeUnsigned(v), payload);
      Leb128.UnsignedRoundTrip(sec, p, v);
  }

  lemma ReadOneMore(order: Order, sec: seq<byte>, p: nat, shape: seq<Operand>, v: nat, q: nat, vs: seq<nat>, e: nat)
    requires shape != []
    requires ReadOperand(order, sec, p, shape[0], true) == Leb128.Got(v, q)
    requires ReadOperands(order, sec, q, shape[1..], true) == Some((vs, e))
    ensures ReadOperands(order, sec, p, shape, true) == Some(([v] + vs, e))
  {
  }

  lemma {:induction false} OperandsRoundTrip(order: Order, sec: seq<byte>, p: nat, shape: seq<Operand>, vs: seq<nat>, payload: seq<byte>)
    requires OperandsFit(shape, vs, payload) && At(sec, p, EncodeOperands(order, shape, vs, payload))
    ensures ReadOperands(order, sec, p, shape, true) == Some((vs, p + |EncodeOperands(order, shape, vs, payload)|))
    decreases |shape|
  {
    hide At, EncodeOperand, EncodeOperands, OperandFits, ReadOperand, ReadOperands;
    if shape == [] {
      NoOperands(order, sec, p, vs, payload);
    } else {
      OperandsCons(order, shape, vs, payload);
      var head, tail := EncodeOperand(order, shape[0], vs[0], payload), EncodeOperands(order, shape[1..], vs[1..], payload);
      OperandThenRest(order, sec, p, shape[0], vs[0], payload, head, tail);
      OperandsRoundTrip(order, sec, p + |head|, shape[1..], vs[1..], payload);
      OperandsJoin(order, sec, p, shape, vs, |head|, |tail|);
    }
  }

  lemma NoOperands(order: Order, sec: seq<byte>, p: nat, vs: seq<nat>, payload: seq<byte>)
    requires vs == []
    ensures EncodeOperands(order, [], vs, payload) == [] && ReadOperands(order, sec, p, [], true) == Some((vs, p))
  {
  }

  lemma OperandsCons(order: Order, shape: seq<Operand>, vs: seq<nat>, payload: seq<byte>)
    requires shape != [] && OperandsFit(shape, vs, payload)
    ensures OperandFits(shape[0], vs[0], payload) && OperandsFit(shape[1..], vs[1..], payload)
    ensures EncodeOperands(order, shape, vs, payload)
            == EncodeOperand(order, shape[0], vs[0], payload) + EncodeOperands(order, shape[1..], vs[1..], payload)
  {
  }

  lemma OperandsJoin(order: Order, sec: seq<byte>, p: nat, shape: seq<Operand>, vs: seq<nat>, m: nat, n: nat)
    requires shape != [] && |vs| == |shape|
    requires ReadOperand(order, sec, p, shape[0], true) == Leb128.Got(vs[0], p + m)
    requires ReadOperands(order, sec, p + m, shape[1..], true) == Some((vs[1..], p + m + n))
    ensures ReadOperands(order, sec, p, shape, true) == Some((vs, p + m + n))
  {
    hide ReadOperands, ReadOperand;
    ReadOneMore(order, sec, p, shape, vs[0], p + m, vs[1..], p + m + n);
    FirstAndRest(vs);
  }

  lemma OperandThenRest(order: Order, sec: seq<byte>, p: nat, o: Operand, v: nat, payload: seq<byte>, head: seq<byte>, tail: seq<byte>)
    requires OperandFits(o, v, payload) && head == EncodeOperand(order, o, v, payload) && At(sec, p, head + tail)
    ensures ReadOperand(order, sec, p, o, true) == Leb128.Got(v, p + |head|) && At(sec, p + |head|, tail)
  {
    AtSplit(sec, p, head, tail);
    OperandRoundTrip(order, sec, p, o, v, payload);
  }

  /** An opcode byte: the high-bit opcodes carry six operand bits. */
  predicate OpcodeFits(op: nat, opa: nat)
  {
    opa < 0x40 && (op == ADVANCE_LOC || op == OFFSET || op == RESTORE || (op < 0x40 && opa == op))
  }

  function OpcodeByte(op: nat, opa: nat): (b: byte)
    requires OpcodeFits(op, opa)
    ensures OpOf(b) == op && OpaOf(b) == opa
  {
    if op >= 0x40 then op + opa else op
  }

  function EncodeInstr(order: Order, op: nat, opa: nat, shape: seq<Operand>, vs: seq<nat>, payload: seq<byte>): seq<byte>
    requires OpcodeFits(op, opa) && OperandsFit(shape, vs, payload)
  {
    [OpcodeByte(op, opa)] + EncodeOperands(order, shape, vs, payload)
  }

  /** Every instruction the second pass knows, encoded as the standard lays it out and placed anywhere
      in the section, is decoded back by both passes with its operands and its exact length. */
  lemma InstrRoundTrip(order: Order, sec: seq<byte>, p: nat, op: nat, opa: nat, ptrSize: nat, shape: seq<Operand>, vs: seq<nat>, payload: seq<byte>)
    requires OpcodeFits(op, opa) && SecondShape(op, ptrSize) == Some(shape) && OperandsFit(shape, vs, payload)
    requires At(sec, p, EncodeInstr(order, op, opa, shape, vs, payload))
    ensures var next := p + |EncodeInstr(order, op, opa, shape, vs, payload)|;
            p < |sec|
            && SecondDecode(order, sec, p, ptrSize) == Some(Instr(op, opa, vs, next))
            && FirstDecode(order, sec, p, ptrSize).Some?
            && FirstDecode(order, sec, p, ptrSize).value.next == next
  {
    hide EncodeOperands, OperandsFit, SecondShape, FirstShape;
    var b := OpcodeByte(op, opa);
    AtSplit(sec, p, [b], EncodeOperands(order, shape, vs, payload));
    AtByte(sec, p, b);
    OperandsRoundTrip(order, sec, p + 1, shape, vs, payload);
    DecodesAgree(order, sec, p, ptrSize);
  }

  /** A section that holds DW_CFA_undefined of register 2^32 + r, for a register r with a name: the number is
      granted, and the first pass stores outside its arrays. */
  lemma OutsideStore(b: Program, p: nat, c: Cols, regnames: nat, r: nat)
    requires InSection(b) && Bounded(c, regnames) && r <= regnames < TWO_32 - 1 && regnames > 0
    requires p < b.end && At(b.sec, p, EncodeInstr(b.order, UNDEFINED, UNDEFINED, [U], [TWO_32 + r], []))
    ensures NeedSpace(c, regnames, TWO_32 + r).1 >= 0
    ensures FirstPass(b, p, c, regnames) == Outside
  {
    var reg := TWO_32 + r;
    DivModUnique(reg, TWO_32, 1, r);
    InstrRoundTrip(b.order, b.sec, p, UNDEFINED, UNDEFINED, b.ptrSize, [U], [reg], []);
    DecodesAgree(b.order, b.sec, p, b.ptrSize);
    var i := FirstDecode(b.order, b.sec, p, b.ptrSize).value;
    FirstStepExactly(c, regnames, i);
  }
}
