/** Line-number programs through a whole .debug_line section and back: units with a header, a directory table and a
    file table, laid out as section 6.2.4 of DWARF 3 says, are found and printed by the dumps of LineSections. */
module LineUnits {
  import opened Machine
  import opened ByteOrder
  import opened LinePrograms
  import opened LineSections
  import opened LineStatements
  import Leb128

  /** What a unit says. The counts are those of the standard opcodes' operands. */
  datatype Source = Source(
    wide: bool, version: nat, prologue: nat, minInsn: byte, defaultIsStmt: byte, lineBase: int, lineRange: byte,
    counts: seq<byte>, dirs: seq<seq<byte>>, files: seq<File>, code: seq<Stmt>)

  predicate IsName(s: seq<byte>) { s != [] && 0 !in s }

  predicate UnitFits(order: Order, s: Source, p: nat)
  {
    && (s.version == 2 || s.version == 3) && s.prologue < (if s.wide then TWO_64 else TWO_32)
    && -128 <= s.lineBase < 128 && |s.counts| < 255
    && (forall k :: 0 <= k < |s.dirs| ==> IsName(s.dirs[k]))
    && (forall k :: 0 <= k < |s.files| ==> IsName(s.files[k].name) && FileFits(s.files[k]))
    && AllFit(InfoAt(order, s, p), s.counts, s.code)
    && |Body(order, s, p)| < (if s.wide then TWO_64 - 12 else TWO_32 - 1)
  }

  // ----- the layout -----

  function Initial(s: Source): nat { if s.wide then 12 else 4 }

  function OffsetSize(s: Source): nat { if s.wide then 8 else 4 }

  /** The header as the dumps should read it, for a unit placed at p. */
  function InfoAt(order: Order, s: Source, p: nat): Info
  {
    Info(order, s.minInsn, s.defaultIsStmt, s.lineBase, s.lineRange,
         if |s.counts| < 255 then |s.counts| + 1 else 0, p + Initial(s) + 2 + OffsetSize(s) + 5)
  }

  function Unsigned8(x: int): byte { if 0 <= x < 128 then x else if -128 <= x < 0 then x + 256 else 0 }

  function Five(order: Order, s: Source, p: nat): seq<byte>
  {
    [s.minInsn, s.defaultIsStmt, Unsigned8(s.lineBase), s.lineRange, InfoAt(order, s, p).opcodeBase]
  }

  function EncodeDirs(dirs: seq<seq<byte>>): seq<byte>
  {
    if dirs == [] then [0] else (dirs[0] + [0]) + EncodeDirs(dirs[1..])
  }

  function EncodeFiles(files: seq<File>): seq<byte>
  {
    if files == [] then [0] else EncodeFile(files[0]) + EncodeFiles(files[1..])
  }

  function TableBytes(s: Source): seq<byte> { EncodeDirs(s.dirs) + EncodeFiles(s.files) }

  function Program(order: Order, s: Source, p: nat): seq<byte>
  {
    var info := InfoAt(order, s, p);
    if AllFit(info, s.counts, s.code) then EncodeAll(info, s.counts, s.code) else []
  }

  function Body(order: Order, s: Source, p: nat): seq<byte>
  {
    (FieldBytes(order, s.version, 2) + FieldBytes(order, s.prologue, OffsetSize(s)))
    + (Five(order, s, p) + (s.counts + (TableBytes(s) + Program(order, s, p))))
  }

  function LengthField(order: Order, s: Source, n: nat): (bs: seq<byte>)
    ensures |bs| == Initial(s)
  {
    if s.wide then FieldBytes(order, 0xffff_ffff, 4) + FieldBytes(order, n, 8) else FieldBytes(order, n, 4)
  }

  function EncodeUnit(order: Order, s: Source, p: nat): seq<byte>
  {
    LengthField(order, s, |Body(order, s, p)|) + Body(order, s, p)
  }

  function EncodeSection(order: Order, sources: seq<Source>, p: nat): seq<byte>
    decreases |sources|
  {
    if sources == [] then []
    else
      var first := EncodeUnit(order, sources[0], p);
      first + EncodeSection(order, sources[1..], p + |first|)
  }

  predicate SectionFits(order: Order, sources: seq<Source>, p: nat)
    decreases |sources|
  {
    sources != [] ==>
      UnitFits(order, sources[0], p) && SectionFits(order, sources[1..], p + |EncodeUnit(order, sources[0], p)|)
  }

  // ----- the tables are read back -----

  /** A table whose entries lie where it says they do. */
  predicate NamesLie(sec: seq<byte>, at: seq<nat>, names: seq<seq<byte>>)
  {
    |at| == |names| && forall k :: 0 <= k < |at| ==> Machine.At(sec, at[k], names[k] + [0])
  }

  lemma {:induction false} DirsRoundTrip(sec: seq<byte>, p: nat, dirs: seq<seq<byte>>)
    requires (forall k :: 0 <= k < |dirs| ==> IsName(dirs[k])) && Machine.At(sec, p, EncodeDirs(dirs))
    ensures var r := Directories(sec, p);
            r.Some? && r.value.1 + 1 == p + |EncodeDirs(dirs)| && NamesLie(sec, r.value.0, dirs)
    decreases |dirs|
  {
    hide Machine.At, StringEnd;
    if dirs == [] {
      AtByte(sec, p, 0);
    } else {
      var name := dirs[0];
      AtSplit(sec, p, name + [0], EncodeDirs(dirs[1..]));
      StringEndAt(sec, p, name);
      FirstOfName(sec, p, name);
      DirsRoundTrip(sec, p + |name| + 1, dirs[1..]);
      NamesCons(sec, p, Directories(sec, p + |name| + 1).value.0, dirs);
    }
  }

  lemma NamesCons(sec: seq<byte>, p: nat, at: seq<nat>, names: seq<seq<byte>>)
    requires names != [] && Machine.At(sec, p, names[0] + [0]) && NamesLie(sec, at, names[1..])
    ensures NamesLie(sec, [p] + at, names)
  {
    hide Machine.At;
    forall k | 0 <= k < |names| ensures Machine.At(sec, ([p] + at)[k], names[k] + [0]) {
      if k > 0 { assert Machine.At(sec, at[k - 1], names[1..][k - 1] + [0]); }
    }
  }

  predicate FilesLie(sec: seq<byte>, es: seq<FileEntry>, files: seq<File>)
  {
    |es| == |files| && forall k :: 0 <= k < |es| ==> FileLies(sec, es[k], files[k])
  }

  lemma {:induction false} FilesRoundTrip(sec: seq<byte>, p: nat, files: seq<File>)
    requires (forall k :: 0 <= k < |files| ==> IsName(files[k].name) && FileFits(files[k])) && Machine.At(sec, p, EncodeFiles(files))
    ensures var r := Files(sec, p);
            r.Some? && r.value.1 + 1 == p + |EncodeFiles(files)| && FilesLie(sec, r.value.0, files)
    decreases |files|
  {
    hide Machine.At, FileAt, EncodeFile, FileLies;
    if files == [] {
      AtByte(sec, p, 0);
    } else {
      AtSplit(sec, p, EncodeFile(files[0]), EncodeFiles(files[1..]));
      FileRoundTrip(sec, p, files[0]);
      var (e, q) := FileAt(sec, p).value;
      FilesRoundTrip(sec, q, files[1..]);
      FilesCons(sec, e, Files(sec, q).value.0, files);
    }
  }

  lemma FilesCons(sec: seq<byte>, e: FileEntry, es: seq<FileEntry>, files: seq<File>)
    requires files != [] && FileLies(sec, e, files[0]) && FilesLie(sec, es, files[1..])
    ensures FilesLie(sec, [e] + es, files)
  {
    hide FileLies;
    forall k | 0 <= k < |files| ensures FileLies(sec, ([e] + es)[k], files[k]) {
      if k > 0 { assert FileLies(sec, es[k - 1], files[1..][k - 1]); }
    }
  }

  // ----- the header is read back -----

  lemma FieldAt(order: Order, sec: seq<byte>, p: nat, v: nat, n: nat)
    requires Machine.At(sec, p, FieldBytes(order, v, n)) && v < Pow2(8 * n)
    ensures p + n <= |sec| && Field(order, sec, p, n) == v
  {
    FieldRoundTrip(order, v, n);
    SmallMod(v, Pow2(8 * n));
  }

  lemma LengthRead(order: Order, sec: seq<byte>, p: nat, s: Source, n: nat)
    requires Machine.At(sec, p, LengthField(order, s, n)) && n < (if s.wide then TWO_64 - 12 else TWO_32 - 1)
    ensures p + Initial(s) <= |sec|
    ensures Field(order, sec, p, 4) == 0xffff_ffff <==> s.wide
    ensures s.wide ==> Field(order, sec, p + 4, 8) == n
    ensures !s.wide ==> Field(order, sec, p, 4) == n
  {
    hide FieldBytes, Field;
    Pow2Known();
    if s.wide {
      AtSplit(sec, p, FieldBytes(order, 0xffff_ffff, 4), FieldBytes(order, n, 8));
      FieldAt(order, sec, p, 0xffff_ffff, 4);
      FieldAt(order, sec, p + 4, n, 8);
    } else {
      FieldAt(order, sec, p, n, 4);
    }
  }

  lemma FiveRead(order: Order, sec: seq<byte>, q: nat, s: Source, p: nat)
    requires Machine.At(sec, q, Five(order, s, p)) && -128 <= s.lineBase < 128
    ensures q + 5 <= |sec| && sec[q] == s.minInsn && sec[q + 1] == s.defaultIsStmt && Signed8(sec[q + 2]) == s.lineBase
    ensures sec[q + 3] == s.lineRange && sec[q + 4] == InfoAt(order, s, p).opcodeBase
  {
    var five := Five(order, s, p);
    assert forall k :: 0 <= k < 5 ==> sec[q + k] == sec[q..q + 5][k] == five[k];
  }

  /** The body of a unit, past the length field. */
  lemma BodyRead(order: Order, sec: seq<byte>, p: nat, s: Source, end: nat)
    requires UnitFits(order, s, p) && Machine.At(sec, p + Initial(s), Body(order, s, p))
    ensures var info := InfoAt(order, s, p);
            && AfterLength(order, sec, p + Initial(s), OffsetSize(s), end) == Header(info, info.stdOpcodes + |s.counts|, end)
            && Machine.At(sec, info.stdOpcodes, s.counts)
            && Machine.At(sec, info.stdOpcodes + |s.counts|, TableBytes(s) + Program(order, s, p))
  {
    hide Machine.At, Field, FieldBytes, LengthField, TableBytes, Program, Five, Pow2;
    var b := p + Initial(s);
    var version, prologue := FieldBytes(order, s.version, 2), FieldBytes(order, s.prologue, OffsetSize(s));
    var five, rest := Five(order, s, p), s.counts + (TableBytes(s) + Program(order, s, p));
    AtSplit(sec, b, version + prologue, five + rest);
    AtSplit(sec, b, version, prologue);
    Pow2Known();
    FieldAt(order, sec, b, s.version, 2);
    var q := b + 2 + OffsetSize(s);
    AtSplit(sec, q, five, rest);
    FiveRead(order, sec, q, s, p);
    FiveLong(order, s, p);
    AtSplit(sec, q + 5, s.counts, TableBytes(s) + Program(order, s, p));
  }

  /** The header of an encoded unit: its fields, the start of its tables and its end. */
  lemma HeaderRoundTrip(order: Order, sec: seq<byte>, p: nat, s: Source)
    requires UnitFits(order, s, p) && Machine.At(sec, p, EncodeUnit(order, s, p))
    ensures var info := InfoAt(order, s, p);
            && ReadHeader(order, sec, p) == Header(info, info.stdOpcodes + |s.counts|, p + |EncodeUnit(order, s, p)|)
            && Machine.At(sec, info.stdOpcodes, s.counts)
            && Machine.At(sec, info.stdOpcodes + |s.counts|, TableBytes(s) + Program(order, s, p))
  {
    hide Machine.At, Field, LengthField, AfterLength, Body, InfoAt;
    var body := Body(order, s, p);
    AtSplit(sec, p, LengthField(order, s, |body|), body);
    LengthRead(order, sec, p, s, |body|);
    SmallMod(|body| + Initial(s), TWO_64);
    AtFits(sec, p, EncodeUnit(order, s, p));
    BodyRead(order, sec, p, s, p + |EncodeUnit(order, s, p)|);
  }

  lemma FiveLong(order: Order, s: Source, p: nat)
    ensures |Five(order, s, p)| == 5
  {
  }

  lemma AtFits(sec: seq<byte>, p: nat, bs: seq<byte>)
    requires Machine.At(sec, p, bs)
    ensures p + |bs| <= |sec|
  {
  }

  // ----- units and sections are read back -----

  /** What the decoded dump should save of the unit's tables. */
  function TablesOf(s: Source): Tables
  {
    Tables(|s.dirs|, seq(|s.files|, k requires 0 <= k < |s.files| => s.files[k].dir))
  }

  lemma FilesDirs(sec: seq<byte>, es: seq<FileEntry>, files: seq<File>)
    requires FilesLie(sec, es, files)
    ensures DirsOf(es) == seq(|files|, k requires 0 <= k < |files| => files[k].dir)
  {
    forall k | 0 <= k < |files| ensures es[k].dir == files[k].dir { assert FileLies(sec, es[k], files[k]); }
  }

  /** An encoded unit is found, and its statements are where they were put. */
  lemma UnitRoundTrip(order: Order, sec: seq<byte>, p: nat, s: Source)
    requires UnitFits(order, s, p) && Machine.At(sec, p, EncodeUnit(order, s, p))
    ensures var end := p + |EncodeUnit(order, s, p)|;
            var at := end - |Program(order, s, p)|;
            && at >= 0 && Machine.At(sec, at, Program(order, s, p)) && Machine.At(sec, InfoAt(order, s, p).stdOpcodes, s.counts)
            && UnitAt(order, sec, p) == Good(Unit(InfoAt(order, s, p), TablesOf(s), at, end))
  {
    hide Machine.At, ReadHeader, Directories, Files, Program, EncodeDirs, EncodeFiles, Five, LengthField, InfoAt, FilesLie, NamesLie;
    HeaderRoundTrip(order, sec, p, s);
    var tables := InfoAt(order, s, p).stdOpcodes + |s.counts|;
    var d := EncodeDirs(s.dirs);
    AtSplit(sec, tables, TableBytes(s), Program(order, s, p));
    AtSplit(sec, tables, d, EncodeFiles(s.files));
    DirsRoundTrip(sec, tables, s.dirs);
    FilesRoundTrip(sec, tables + |d|, s.files);
    SizeOfUnit(order, s, p);
    FilesDirs(sec, Files(sec, tables + |d|).value.0, s.files);
    NamesCount(sec, Directories(sec, tables).value.0, s.dirs);
  }

  lemma NamesCount(sec: seq<byte>, at: seq<nat>, names: seq<seq<byte>>)
    requires NamesLie(sec, at, names)
    ensures |at| == |names|
  {
  }

  lemma SizeOfUnit(order: Order, s: Source, p: nat)
    ensures p + |EncodeUnit(order, s, p)| == InfoAt(order, s, p).stdOpcodes + |s.counts| + |TableBytes(s)| + |Program(order, s, p)|
  {
    hide TableBytes, Program;
  }

  /** The names that the decoded dump prints are all in the unit's tables. */
  predicate Named(order: Order, s: Source, p: nat)
  {
    var info := InfoAt(order, s, p);
    Reach(info, TablesOf(s), Point(0, 1, 1, 0, s.defaultIsStmt != 0, false), s.code) == |s.code|
  }

  /** The registers a unit's program leaves: it starts at address 0, file 1, line 1, column 0. */
  function UnitEnd(order: Order, s: Source, p: nat): Point
  {
    Execute(InfoAt(order, s, p), Point(0, 1, 1, 0, s.defaultIsStmt != 0, false), s.code)
  }

  /** The rows of its matrix that the decoded dump prints, as far as it gets. */
  function UnitMatrix(order: Order, s: Source, p: nat): seq<Row>
  {
    var info, start := InfoAt(order, s, p), Point(0, 1, 1, 0, s.defaultIsStmt != 0, false);
    Printable(Matrix(info, start, s.code[..Reach(info, TablesOf(s), start, s.code)]))
  }

  /** An encoded unit is dumped as its program runs: the raw dump leaves it at its end with the registers of the
      program; the decoded dump prints the rows of the matrix, to the end exactly when it finds every name. */
  lemma UnitPrinted(order: Order, sec: seq<byte>, p: nat, s: Source)
    requires UnitFits(order, s, p) && Machine.At(sec, p, EncodeUnit(order, s, p))
    ensures UnitAt(order, sec, p).Good?
    ensures var end, u := p + |EncodeUnit(order, s, p)|, UnitAt(order, sec, p).unit;
            var raw := RawUnit(sec, u);
            && raw.At? && raw.pos == end && Shows(raw.regs, UnitEnd(order, s, p))
            && DecodedUnit(sec, u) == (if Named(order, s, p) then raw else Stopped(NoEntry))
            && UnitRows(sec, u) == UnitMatrix(order, s, p)
  {
    hide Machine.At, UnitAt, EncodeUnit, EncodeAll, RawRun, DecodedRun, DecodedRows, Reach, Matrix, Execute, InfoAt, Body;
    UnitRoundTrip(order, sec, p, s);
    var info, u := InfoAt(order, s, p), UnitAt(order, sec, p).unit;
    DefaultOf(order, s, p);
    assert Shows(Reset(info), Point(0, 1, 1, 0, s.defaultIsStmt != 0, false));
    ProgramDumped(sec, info, s.counts, u.tables, u.statements, Reset(info), Point(0, 1, 1, 0, s.defaultIsStmt != 0, false), s.code);
    RawUnitIs(sec, u);
    DecodedUnitIs(sec, u);
  }

  lemma DefaultOf(order: Order, s: Source, p: nat)
    ensures InfoAt(order, s, p).defaultIsStmt == s.defaultIsStmt
  {
  }

  /** The rows of all units, each from its own start. */
  function SourceRows(order: Order, sources: seq<Source>, p: nat): seq<seq<Row>>
    decreases |sources|
  {
    if sources == [] then []
    else [UnitMatrix(order, sources[0], p)] + SourceRows(order, sources[1..], p + |EncodeUnit(order, sources[0], p)|)
  }

  predicate AllNamed(order: Order, sources: seq<Source>, p: nat)
    decreases |sources|
  {
    sources != [] ==>
      Named(order, sources[0], p) && AllNamed(order, sources[1..], p + |EncodeUnit(order, sources[0], p)|)
  }

  lemma UnitNotEmpty(order: Order, s: Source, p: nat)
    ensures |EncodeUnit(order, s, p)| > 0
  {
  }

  /** Any section of units, encoded and dumped. The raw dump finds every unit, in order, and leaves it at its end.
      So does the decoded dump, and prints exactly the rows of every matrix, if the tables have the names it looks
      up; if not, it reads an entry that is not there. */
  lemma {:induction false} SectionRoundTrip(order: Order, sec: seq<byte>, p: nat, sources: seq<Source>)
    requires SectionFits(order, sources, p) && Machine.At(sec, p, EncodeSection(order, sources, p))
    requires p + |EncodeSection(order, sources, p)| == |sec|
    ensures var (runs, how) := RawSection(order, sec, p); how == Finished && |runs| == |sources|
    ensures var (runs, how) := DecodedSection(order, sec, p);
            && (AllNamed(order, sources, p) ==>
                  how == Finished && |runs| == |sources| && SectionRows(sec, runs) == SourceRows(order, sources, p))
            && (!AllNamed(order, sources, p) ==> how == Faulted(NoEntry))
    decreases |sources|
  {
    hide Machine.At, UnitAt, EncodeUnit, RawUnit, DecodedUnit, UnitRows, RawSection, DecodedSection, UnitFits, Named, UnitMatrix, Shows;
    RawSectionUnfold(order, sec, p);
    DecodedSectionUnfold(order, sec, p);
    if sources != [] {
      var s := sources[0];
      var next := p + |EncodeUnit(order, s, p)|;
      UnitNotEmpty(order, s, p);
      AtSplit(sec, p, EncodeUnit(order, s, p), EncodeSection(order, sources[1..], next));
      UnitPrinted(order, sec, p, s);
      SectionRoundTrip(order, sec, next, sources[1..]);
      if Named(order, s, p) {
        var runs := DecodedSection(order, sec, p).0;
        assert runs[1..] == DecodedSection(order, sec, next).0;
      }
    }
  }
}
