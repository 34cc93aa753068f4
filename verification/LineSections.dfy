/** Whole .debug_line sections as the two dumps of readelf-mini/dwarf.c go through them: unit by unit, over the
    header (section 6.2.4 of DWARF 3), the directory table, the file table and the statements. The raw dump
    walks each table once and prints it; the decoded dump counts its entries and walks it again to save them. */
module LineSections {
  import opened Machine
  import opened ByteOrder
  import opened LinePrograms
  import Leb128

  // ----- the header -----

  /** Refused: the section is reported corrupt or its version unknown, and the dump returns. */
  datatype HeaderRead = Header(info: Info, tables: nat, end: nat) | Refused | OffEnd

  function Signed8(b: byte): int { if b < 128 then b else b - 256 }

  function Field(order: Order, sec: seq<byte>, p: nat, n: nat): nat
    requires p + n <= |sec|
  {
    FieldValue(order, sec[p..p + n])
  }

  /** The header of the unit at data: where its tables begin and where its statements end. The sum of length
      and size of the length field is an unsigned long, and is compared with the size of the whole section. */
  function ReadHeader(order: Order, sec: seq<byte>, data: nat): (r: HeaderRead)
    ensures r.Header? ==> data < r.tables
  {
    if data + 4 > |sec| then OffEnd
    else
      var wide := Field(order, sec, data, 4) == 0xffff_ffff;
      if wide && data + 12 > |sec| then OffEnd
      else
        var length := if wide then Field(order, sec, data + 4, 8) else Field(order, sec, data, 4);
        var initial: nat, offsetSize: nat := if wide then 12 else 4, if wide then 8 else 4;
        var total := (length + initial) % TWO_64;
        if total > |sec| then Refused
        else AfterLength(order, sec, data + initial, offsetSize, data + total)
  }

  function AfterLength(order: Order, sec: seq<byte>, p: nat, offsetSize: nat, end: nat): (r: HeaderRead)
    ensures r.Header? ==> p < r.tables
  {
    if p + 2 > |sec| then OffEnd
    else if Field(order, sec, p, 2) != 2 && Field(order, sec, p, 2) != 3 then Refused
    else
      var q := p + 2 + offsetSize;
      if q + 5 > |sec| then OffEnd
      else Header(Info(order, sec[q], sec[q + 1], Signed8(sec[q + 2]), sec[q + 3], sec[q + 4], q + 5), q + 4 + sec[q + 4], end)
  }

  // ----- the tables -----

  /** Where the names of the directories lie, and the NUL that ends the table. */
  function Directories(sec: seq<byte>, p: nat): (r: Option<(seq<nat>, nat)>)
    ensures r.Some? ==> p <= r.value.1 < |sec| && sec[r.value.1] == 0
    decreases |sec| - p
  {
    if p >= |sec| then None
    else if sec[p] == 0 then Some(([], p))
    else
      match StringEnd(sec, p)
      case None => None
      case Some(q) =>
        match Directories(sec, q)
        case None => None
        case Some((names, e)) => Some(([p] + names, e))
  }

  function Files(sec: seq<byte>, p: nat): (r: Option<(seq<FileEntry>, nat)>)
    ensures r.Some? ==> p <= r.value.1 < |sec| && sec[r.value.1] == 0
    decreases |sec| - p
  {
    if p >= |sec| then None
    else if sec[p] == 0 then Some(([], p))
    else
      match FileAt(sec, p)
      case None => None
      case Some((f, q)) =>
        match Files(sec, q)
        case None => None
        case Some((more, e)) => Some(([f] + more, e))
  }

  // ----- units and sections -----

  /** A unit: its header, what its tables hold, where its statements begin and where they end. */
  datatype Unit = Unit(info: Info, tables: Tables, statements: nat, end: nat)

  function DirsOf(files: seq<FileEntry>): (dirs: seq<nat>)
    ensures |dirs| == |files|
  {
    seq(|files|, k requires 0 <= k < |files| => files[k].dir)
  }

  datatype UnitRead = Good(unit: Unit) | Bad(how: Ending)

  datatype Ending = Finished | GaveUp | Faulted(fault: Fault)

  function UnitAt(order: Order, sec: seq<byte>, data: nat): (r: UnitRead)
    ensures r.Good? ==> data < r.unit.statements
  {
    match ReadHeader(order, sec, data)
    case Refused => Bad(GaveUp)
    case OffEnd => Bad(Faulted(Overrun))
    case Header(info, tables, end) =>
      match Directories(sec, tables)
      case None => Bad(Faulted(Overrun))
      case Some((dirs, d)) =>
        match Files(sec, d + 1)
        case None => Bad(Faulted(Overrun))
        case Some((files, f)) => Good(Unit(info, Tables(|dirs|, DirsOf(files)), f + 1, end))
  }

  datatype UnitRun = UnitRun(data: nat, unit: Unit, final: Outcome)

  function RawUnit(sec: seq<byte>, u: Unit): (o: Outcome)
    ensures o.At? ==> u.statements <= o.pos
  {
    RawRunAdvances(sec, u.info, u.statements, u.end, Reset(u.info));
    RawRun(sec, u.info, u.statements, u.end, Reset(u.info))
  }

  function DecodedUnit(sec: seq<byte>, u: Unit): (o: Outcome)
    ensures o.At? ==> u.statements <= o.pos
  {
    DecodedRunAdvances(sec, u.info, u.tables, u.statements, u.end, Reset(u.info));
    DecodedRun(sec, u.info, u.tables, u.statements, u.end, Reset(u.info))
  }

  lemma {:induction false} RawRunAdvances(sec: seq<byte>, info: Info, pos: nat, end: nat, r: Regs)
    ensures var o := RawRun(sec, info, pos, end, r); o.At? ==> pos <= o.pos
    decreases end - pos
  {
    if pos < end && RawStep(sec, info, pos, r).At? {
      RawRunAdvances(sec, info, RawStep(sec, info, pos, r).pos, end, RawStep(sec, info, pos, r).regs);
    }
  }

  lemma {:induction false} DecodedRunAdvances(sec: seq<byte>, info: Info, t: Tables, pos: nat, end: nat, r: Regs)
    ensures var o := DecodedRun(sec, info, t, pos, end, r); o.At? ==> pos <= o.pos
    decreases end - pos
  {
    if pos < end && DecodedStep(sec, info, t, pos, r).At? {
      DecodedRunAdvances(sec, info, t, DecodedStep(sec, info, t, pos, r).pos, end, DecodedStep(sec, info, t, pos, r).regs);
    }
  }

  /** display_debug_lines_raw from data on: the units, where each was left, and how the dump ended. */
  function RawSection(order: Order, sec: seq<byte>, data: nat): (seq<UnitRun>, Ending)
    decreases |sec| - data
  {
    if data >= |sec| then ([], Finished)
    else
      match UnitAt(order, sec, data)
      case Bad(how) => ([], how)
      case Good(u) =>
        var here := UnitRun(data, u, RawUnit(sec, u));
        match here.final
        case Stopped(f) => ([here], Faulted(f))
        case At(next, _) =>
          var (rest, how) := RawSection(order, sec, next);
          ([here] + rest, how)
  }

  /** display_debug_lines_decoded */
  function DecodedSection(order: Order, sec: seq<byte>, data: nat): (seq<UnitRun>, Ending)
    decreases |sec| - data
  {
    if data >= |sec| then ([], Finished)
    else
      match UnitAt(order, sec, data)
      case Bad(how) => ([], how)
      case Good(u) =>
        var here := UnitRun(data, u, DecodedUnit(sec, u));
        match here.final
        case Stopped(f) => ([here], Faulted(f))
        case At(next, _) =>
          var (rest, how) := DecodedSection(order, sec, next);
          ([here] + rest, how)
  }

  function UnitRows(sec: seq<byte>, u: Unit): seq<Row> { DecodedRows(sec, u.info, u.tables, u.statements, u.end, Reset(u.info)) }

  // ----- lockstep over a section -----

  predicate SameTrace(sec: seq<byte>, u: Unit)
  {
    RawTrace(sec, u.info, u.statements, u.end, Reset(u.info)) == DecodedTrace(sec, u.info, u.tables, u.statements, u.end, Reset(u.info))
  }

  predicate Undivided(sec: seq<byte>, u: Unit)
  {
    var raw := RawTrace(sec, u.info, u.statements, u.end, Reset(u.info));
    forall k :: 0 <= k < |raw| ==> !Divergent(sec, u.info, u.tables, raw[k].0, raw[k].1)
  }

  predicate AllSameTrace(sec: seq<byte>, runs: seq<UnitRun>)
  {
    runs == [] || (SameTrace(sec, runs[0].unit) && AllSameTrace(sec, runs[1..]))
  }

  predicate AllUndivided(sec: seq<byte>, runs: seq<UnitRun>)
  {
    runs == [] || (Undivided(sec, runs[0].unit) && AllUndivided(sec, runs[1..]))
  }

  /** Over a whole section: the dumps find the same units, start their statements and leave them at the same
      offsets, go through the same registers at the same offsets in between, and end the same way, exactly
      when the raw dump meets no divergent opcode: none that the dumps decode differently, and none for which
      the unit's tables lack the file or the directory that the decoded dump looks up. */
  lemma {:induction false} SectionLockstep(order: Order, sec: seq<byte>, data: nat)
    ensures var raw, decoded := RawSection(order, sec, data), DecodedSection(order, sec, data);
            raw == decoded && AllSameTrace(sec, raw.0) <==> AllUndivided(sec, raw.0)
    decreases |sec| - data
  {
    hide UnitAt, RawUnit, DecodedUnit, SameTrace, Undivided;
    if data < |sec| && UnitAt(order, sec, data).Good? {
      var u := UnitAt(order, sec, data).unit;
      UnitLockstep(sec, u);
      var raw, decoded := RawSection(order, sec, data).0, DecodedSection(order, sec, data).0;
      assert raw[0] == UnitRun(data, u, RawUnit(sec, u)) && decoded[0] == UnitRun(data, u, DecodedUnit(sec, u));
      if RawUnit(sec, u) == DecodedUnit(sec, u) && RawUnit(sec, u).At? {
        var next := RawUnit(sec, u).pos;
        SectionLockstep(order, sec, next);
        assert raw[1..] == RawSection(order, sec, next).0 && decoded[1..] == DecodedSection(order, sec, next).0;
      }
    }
  }

  lemma UnitLockstep(sec: seq<byte>, u: Unit)
    ensures SameTrace(sec, u) && RawUnit(sec, u) == DecodedUnit(sec, u) <==> Undivided(sec, u)
  {
    Lockstep(sec, u.info, u.tables, u.statements, u.end, Reset(u.info));
  }

  // ----- the dumps as the source runs them -----

  /** strlen and one more */
  method PastString(sec: seq<byte>, p: nat) returns (r: Option<nat>)
    ensures r == StringEnd(sec, p)
  {
    var q := p;
    while q < |sec| && sec[q] != 0
      invariant p <= q && (q <= |sec| || q == p) && StringEnd(sec, p) == StringEnd(sec, q)
    {
      q := q + 1;
    }
    if q >= |sec| { return None; }
    return Some(q + 1);
  }

  method PastFile(sec: seq<byte>, p: nat) returns (r: Option<(FileEntry, nat)>)
    ensures r == FileAt(sec, p)
  {
    var q := PastString(sec, p);
    if q.None? { return None; }
    var dir := Leb128.ReadLeb128(sec, q.value, false);
    if dir.Overrun? { return None; }
    var date := Leb128.ReadLeb128(sec, dir.next, false);
    if date.Overrun? { return None; }
    var length := Leb128.ReadLeb128(sec, date.next, false);
    if length.Overrun? { return None; }
    return Some((FileEntry(p, dir.value % TWO_32, date.value % TWO_32, length.value % TWO_32), length.next));
  }

  /** The first walk over the directory table: its end, and how many entries it has. */
  method CountDirectories(sec: seq<byte>, start: nat) returns (n: nat, end: Option<nat>)
    ensures match Directories(sec, start) case None => end == None case Some((names, e)) => end == Some(e) && n == |names|
  {
    var p := start;
    n := 0;
    while p < |sec| && sec[p] != 0
      invariant start <= p
      invariant match Directories(sec, p)
                case None => Directories(sec, start) == None
                case Some((names, e)) =>
                  Directories(sec, start).Some? && Directories(sec, start).value.1 == e
                  && |Directories(sec, start).value.0| == n + |names|
      decreases |sec| - p
    {
      var q := PastString(sec, p);
      if q.None? { return n, None; }
      n := n + 1;
      p := q.value;
    }
    if p >= |sec| { return n, None; }
    return n, Some(p);
  }

  /** The second walk: it fills the table that was allocated for the count, every entry once. */
  method SaveDirectories(sec: seq<byte>, start: nat, n: nat) returns (table: array<nat>)
    requires Directories(sec, start).Some? && |Directories(sec, start).value.0| == n
    ensures table[..] == Directories(sec, start).value.0
  {
    ghost var names := Directories(sec, start).value.0;
    table := new nat[n];
    var p, i := start, 0;
    while sec[p] != 0
      invariant i <= n && Directories(sec, p).Some? && Directories(sec, p).value.0 == names[i..]
      invariant forall k :: 0 <= k < i ==> table[k] == names[k]
      decreases |sec| - p
    {
      assert names[i..][0] == p && names[i..][1..] == names[i + 1..];
      table[i] := p;
      var q := PastString(sec, p);
      p := q.value;
      i := i + 1;
    }
  }

  method CountFiles(sec: seq<byte>, start: nat) returns (n: nat, end: Option<nat>)
    ensures match Files(sec, start) case None => end == None case Some((files, e)) => end == Some(e) && n == |files|
  {
    hide FileAt;
    var p := start;
    n := 0;
    while p < |sec| && sec[p] != 0
      invariant start <= p
      invariant match Files(sec, p)
                case None => Files(sec, start) == None
                case Some((files, e)) =>
                  Files(sec, start).Some? && Files(sec, start).value.1 == e && |Files(sec, start).value.0| == n + |files|
      decreases |sec| - p
    {
      var f := PastFile(sec, p);
      if f.None? { return n, None; }
      n := n + 1;
      p := f.value.1;
    }
    if p >= |sec| { return n, None; }
    return n, Some(p);
  }

  method SaveFiles(sec: seq<byte>, start: nat, n: nat) returns (table: array<FileEntry>)
    requires Files(sec, start).Some? && |Files(sec, start).value.0| == n
    ensures table[..] == Files(sec, start).value.0
  {
    hide FileAt;
    ghost var files := Files(sec, start).value.0;
    table := new FileEntry[n](_ => FileEntry(0, 0, 0, 0));
    var p, i := start, 0;
    while sec[p] != 0
      invariant i <= n && Files(sec, p).Some? && Files(sec, p).value.0 == files[i..]
      invariant forall k :: 0 <= k < i ==> table[k] == files[k]
      decreases |sec| - p
    {
      var f := PastFile(sec, p);
      assert files[i..][0] == f.value.0 && files[i..][1..] == files[i + 1..];
      table[i] := f.value.0;
      p := f.value.1;
      i := i + 1;
    }
  }

  /** The raw dump of a section. */
  method DumpRawSection(machine: StateMachine, order: Order, sec: seq<byte>) returns (runs: seq<UnitRun>, how: Ending)
    modifies machine
    ensures (runs, how) == RawSection(order, sec, 0)
  {
    hide UnitAt, RawUnit, RawSection;
    runs, how := [], Finished;
    var data := 0;
    assert [] + RawSection(order, sec, 0).0 == RawSection(order, sec, 0).0;
    while data < |sec|
      invariant RawSection(order, sec, 0) == (runs + RawSection(order, sec, data).0, RawSection(order, sec, data).1)
      decreases |sec| - data
    {
      RawSectionUnfold(order, sec, data);
      var unit := EnterRaw(order, sec, data);
      if unit.Bad? {
        assert runs + [] == runs;
        return runs, unit.how;
      }
      var u := unit.unit;
      machine.regs := Reset(u.info);
      var final := machine.DumpRaw(sec, u.info, u.statements, u.end);
      RawUnitIs(sec, u);
      var here := UnitRun(data, u, final);
      if final.Stopped? { return runs + [here], Faulted(final.fault); }
      assert runs + ([here] + RawSection(order, sec, final.pos).0) == runs + [here] + RawSection(order, sec, final.pos).0;
      runs, data := runs + [here], final.pos;
    }
    RawSectionUnfold(order, sec, data);
    assert runs + [] == runs;
  }

  lemma RawSectionUnfold(order: Order, sec: seq<byte>, data: nat)
    ensures data >= |sec| ==> RawSection(order, sec, data) == ([], Finished)
    ensures data < |sec| && UnitAt(order, sec, data).Bad? ==>
              RawSection(order, sec, data) == ([], UnitAt(order, sec, data).how)
    ensures data < |sec| && UnitAt(order, sec, data).Good? ==>
              var u := UnitAt(order, sec, data).unit;
              var here := UnitRun(data, u, RawUnit(sec, u));
              RawSection(order, sec, data) ==
              if here.final.Stopped? then ([here], Faulted(here.final.fault))
              else ([here] + RawSection(order, sec, here.final.pos).0, RawSection(order, sec, here.final.pos).1)
  {
    hide UnitAt, RawUnit;
  }

  lemma DecodedSectionUnfold(order: Order, sec: seq<byte>, data: nat)
    ensures data >= |sec| ==> DecodedSection(order, sec, data) == ([], Finished)
    ensures data < |sec| && UnitAt(order, sec, data).Bad? ==>
              DecodedSection(order, sec, data) == ([], UnitAt(order, sec, data).how)
    ensures data < |sec| && UnitAt(order, sec, data).Good? ==>
              var u := UnitAt(order, sec, data).unit;
              var here := UnitRun(data, u, DecodedUnit(sec, u));
              DecodedSection(order, sec, data) ==
              if here.final.Stopped? then ([here], Faulted(here.final.fault))
              else ([here] + DecodedSection(order, sec, here.final.pos).0, DecodedSection(order, sec, here.final.pos).1)
  {
    hide UnitAt, DecodedUnit;
  }

  lemma RawUnitIs(sec: seq<byte>, u: Unit)
    ensures RawUnit(sec, u) == RawRun(sec, u.info, u.statements, u.end, Reset(u.info))
  {
  }

  lemma DecodedUnitIs(sec: seq<byte>, u: Unit)
    ensures DecodedUnit(sec, u) == DecodedRun(sec, u.info, u.tables, u.statements, u.end, Reset(u.info))
  {
  }

  /** The file table as the raw dump prints it, in one walk. */
  method ListFiles(sec: seq<byte>, start: nat) returns (files: seq<FileEntry>, end: Option<nat>)
    ensures end == match Files(sec, start) case None => None case Some((_, e)) => Some(e)
    ensures end.Some? ==> files == Files(sec, start).value.0
  {
    hide FileAt;
    var p := start;
    files := [];
    ghost var all := Files(sec, start);
    if all.Some? { assert [] + all.value.0 == all.value.0; }
    while p < |sec| && sec[p] != 0
      invariant start <= p
      invariant all == match Files(sec, p) case None => None case Some((more, e)) => Some((files + more, e))
      decreases |sec| - p
    {
      var f := PastFile(sec, p);
      if f.None? { return files, None; }
      ghost var rest := Files(sec, f.value.1);
      if rest.Some? { assert files + ([f.value.0] + rest.value.0) == files + [f.value.0] + rest.value.0; }
      files := files + [f.value.0];
      p := f.value.1;
    }
    if p >= |sec| { return files, None; }
    assert files + [] == files;
    return files, Some(p);
  }

  /** The raw dump's way to the statements: each table walked once. */
  method EnterRaw(order: Order, sec: seq<byte>, data: nat) returns (r: UnitRead)
    ensures r == UnitAt(order, sec, data)
  {
    hide ReadHeader, Directories, Files;
    var h := ReadHeader(order, sec, data);
    if h.Refused? { return Bad(GaveUp); }
    if h.OffEnd? { return Bad(Faulted(Overrun)); }
    var n, d := CountDirectories(sec, h.tables);
    if d.None? { return Bad(Faulted(Overrun)); }
    var files, f := ListFiles(sec, d.value + 1);
    if f.None? { return Bad(Faulted(Overrun)); }
    return Good(Unit(h.info, Tables(n, DirsOf(files)), f.value + 1, h.end));
  }

  /** The decoded dump's: each table counted, allocated and walked again. The tables hold what the section
      does. */
  method EnterDecoded(order: Order, sec: seq<byte>, data: nat)
    returns (r: UnitRead, dirs: array<nat>, files: array<FileEntry>)
    ensures r == UnitAt(order, sec, data)
    ensures r.Good? ==> r.unit.tables == Tables(dirs.Length, DirsOf(files[..]))
    ensures r.Good? ==>
              var h := ReadHeader(order, sec, data);
              && h.Header? && Directories(sec, h.tables).Some?
              && dirs[..] == Directories(sec, h.tables).value.0
              && Files(sec, Directories(sec, h.tables).value.1 + 1).Some?
              && files[..] == Files(sec, Directories(sec, h.tables).value.1 + 1).value.0
  {
    hide ReadHeader, Directories, Files;
    dirs, files := new nat[0], new FileEntry[0];
    var h := ReadHeader(order, sec, data);
    if h.Refused? { return Bad(GaveUp), dirs, files; }
    if h.OffEnd? { return Bad(Faulted(Overrun)), dirs, files; }
    var n, d := CountDirectories(sec, h.tables);
    if d.None? { return Bad(Faulted(Overrun)), dirs, files; }
    dirs := SaveDirectories(sec, h.tables, n);
    var m, f := CountFiles(sec, d.value + 1);
    if f.None? { return Bad(Faulted(Overrun)), dirs, files; }
    files := SaveFiles(sec, d.value + 1, m);
    return Good(Unit(h.info, Tables(dirs.Length, DirsOf(files[..])), f.value + 1, h.end)), dirs, files;
  }

  function SectionRows(sec: seq<byte>, runs: seq<UnitRun>): seq<seq<Row>>
  {
    if runs == [] then [] else [UnitRows(sec, runs[0].unit)] + SectionRows(sec, runs[1..])
  }

  /** The decoded dump of a section: the units and the rows of each. */
  method DumpDecodedSection(machine: StateMachine, order: Order, sec: seq<byte>)
    returns (runs: seq<UnitRun>, how: Ending, rows: seq<seq<Row>>)
    modifies machine
    ensures (runs, how) == DecodedSection(order, sec, 0) && rows == SectionRows(sec, runs)
  {
    hide UnitAt, DecodedUnit, UnitRows, ReadHeader, Directories, Files, DecodedSection, SectionRows, DecodedRows, DecodedRun;
    runs, how, rows := [], Finished, [];
    var data := 0;
    NoRows(sec);
    assert [] + DecodedSection(order, sec, 0).0 == DecodedSection(order, sec, 0).0;
    while data < |sec|
      invariant rows == SectionRows(sec, runs)
      invariant DecodedSection(order, sec, 0) == (runs + DecodedSection(order, sec, data).0, DecodedSection(order, sec, data).1)
      decreases |sec| - data
    {
      DecodedSectionUnfold(order, sec, data);
      var unit, dirs, files := EnterDecoded(order, sec, data);
      if unit.Bad? {
        assert runs + [] == runs;
        return runs, unit.how, rows;
      }
      var u := unit.unit;
      machine.regs := Reset(u.info);
      var final, printed := machine.DumpDecoded(sec, u.info, Tables(dirs.Length, DirsOf(files[..])), u.statements, u.end);
      DecodedUnitIs(sec, u);
      var here := UnitRun(data, u, final);
      OneMoreUnit(sec, runs, here, printed);
      rows := rows + [printed];
      if final.Stopped? { return runs + [here], Faulted(final.fault), rows; }
      assert runs + ([here] + DecodedSection(order, sec, final.pos).0) == runs + [here] + DecodedSection(order, sec, final.pos).0;
      runs, data := runs + [here], final.pos;
    }
    DecodedSectionUnfold(order, sec, data);
    assert runs + [] == runs;
  }

  lemma NoRows(sec: seq<byte>)
    ensures SectionRows(sec, []) == []
  {
  }

  lemma {:induction false} OneMoreUnit(sec: seq<byte>, runs: seq<UnitRun>, here: UnitRun, printed: seq<Row>)
    requires printed == DecodedRows(sec, here.unit.info, here.unit.tables, here.unit.statements, here.unit.end, Reset(here.unit.info))
    ensures SectionRows(sec, runs + [here]) == SectionRows(sec, runs) + [printed]
  {
    if runs == [] {
      assert [] + [here] == [here] && [here][1..] == [];
    } else {
      OneMoreUnit(sec, runs[1..], here, printed);
      assert (runs + [here])[1..] == runs[1..] + [here];
    }
  }
}
