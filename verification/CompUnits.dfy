/** The two scans of .debug_info in process_debug_info (readelf-mini/dwarf.c; section 7.4 of DWARF 3): one
    counts the compilation units and sizes the debug_information array, one fills it.

    mem is the memory from the start of the section on; headers may be read past its end. */
module CompUnits {
  import opened Machine
  import opened ByteOrder

  function Bytes(mem: nat -> byte, p: nat, n: nat): seq<byte> { seq(n, k requires 0 <= k => mem(p + k)) }

  function Field(mem: nat -> byte, order: Order, p: nat, n: nat): nat { FieldValue(order, Bytes(mem, p, n)) }

  const ESCAPE := 0xffff_ffff

  // ----- the counting scan -----

  /** The unit length at p as the counting scan reads it; None when it reports the section corrupt. */
  function CountedLength(mem: nat -> byte, order: Order, p: nat): (r: Option<(nat, nat)>)
    ensures r.Some? ==> 0 < r.value.0 < TWO_64 / 2 && (r.value.1 == 4 || r.value.1 == 12)
  {
    var short := Field(mem, order, p, 4);
    if short == ESCAPE then
      var long := Field(mem, order, p + 4, 8);
      if long == 0 || long >= TWO_64 / 2 then None else Some((long, 12))
    else if 0xffff_fff0 <= short then None
    else if short == 0 || short >= TWO_64 / 2 then None
    else Some((short, 4))
  }

  /** The counting scan finds a unit corrupt exactly when its length is zero, one of the reserved values other than
      the escape, or, after the escape, zero or too large for a signed long. */
  lemma CorruptExactly(mem: nat -> byte, order: Order, p: nat)
    ensures var short, long := Field(mem, order, p, 4), Field(mem, order, p + 4, 8);
            CountedLength(mem, order, p).None? <==>
            short == 0 || 0xffff_fff0 <= short < 0xffff_ffff || (short == 0xffff_ffff && (long == 0 || long >= 0x8000_0000_0000_0000))
  {
    FieldValueDetermines(order, Bytes(mem, p, 4));
    Pow2Known();
  }

  /** The offsets of the units the counting scan steps through; None: corrupt. */
  function CountedUnits(mem: nat -> byte, order: Order, p: nat, size: nat): Option<seq<nat>>
    decreases size - p
  {
    if p >= size then Some([])
    else
      match CountedLength(mem, order, p)
      case None => None
      case Some((length, initial)) =>
        match CountedUnits(mem, order, p + length + initial, size)
        case None => None
        case Some(rest) => Some([p] + rest)
  }

  // ----- the filling scan -----

  /** The length as the second loop reads it, without the checks. */
  function UnitLength(mem: nat -> byte, order: Order, p: nat): (nat, nat)
  {
    var short := Field(mem, order, p, 4);
    if short == ESCAPE then (Field(mem, order, p + 4, 8), 12) else (short, 4)
  }

  datatype Unit = Unit(offset: nat, pointerSize: nat)

  /** The fields recorded for the unit at p: the address size follows the length, the version and the
      abbreviation offset, which is 8 bytes wide in the 64-bit format. */
  function UnitAt(mem: nat -> byte, order: Order, p: nat): Unit
  {
    var initial := UnitLength(mem, order, p).1;
    Unit(p, Field(mem, order, p + initial + 2 + (if initial == 12 then 8 else 4), 1))
  }

  /** The loop's end: past the section; broken off at a unit longer than the section; or left through a
      return from the entries of a unit. */
  datatype End = Finished | Broke | Returned

  predicate Oversize(mem: nat -> byte, order: Order, p: nat, size: nat)
  {
    var (length, initial) := UnitLength(mem, order, p);
    (p + length + initial) % TWO_64 > size
  }

  /** The units the second loop records and how it ends; diesOk tells of each unit whether its entries
      are walked to the end. */
  function FilledUnits(mem: nat -> byte, order: Order, p: nat, size: nat, diesOk: nat -> bool): (seq<Unit>, End)
    requires size < TWO_64 / 4
    decreases size - p
  {
    if p >= size then ([], Finished)
    else
      var unit := UnitAt(mem, order, p);
      if Oversize(mem, order, p, size) then ([unit], Broke)
      else if !diesOk(p) then ([unit], Returned)
      else
        var (length, initial) := UnitLength(mem, order, p);
        var (rest, end) := FilledUnits(mem, order, p + length + initial, size, diesOk);
        ([unit] + rest, end)
  }

  // ----- agreement -----

  lemma LengthsAgree(mem: nat -> byte, order: Order, p: nat)
    requires CountedLength(mem, order, p).Some?
    ensures UnitLength(mem, order, p) == CountedLength(mem, order, p).value
  {
  }

  lemma OversizeIsLast(mem: nat -> byte, order: Order, p: nat, size: nat)
    requires p < size < TWO_64 / 4 && CountedLength(mem, order, p).Some?
    ensures var (length, initial) := CountedLength(mem, order, p).value;
            Oversize(mem, order, p, size) <==> p + length + initial > size
  {
    var (length, initial) := CountedLength(mem, order, p).value;
    SmallMod(p + length + initial, TWO_64);
  }

  /** The units recorded lie at the counted offsets. */
  predicate SameOffsets(units: seq<Unit>, offsets: seq<nat>)
  {
    |units| <= |offsets| && forall k :: 0 <= k < |units| ==> units[k].offset == offsets[k]
  }

  /** The second loop records the counted units, in order and at the same offsets: all of them when it runs
      to the end or is broken off, so the break can only come at the last; a return leaves a prefix. */
  lemma {:induction false} ScansAgree(mem: nat -> byte, order: Order, p: nat, size: nat, diesOk: nat -> bool)
    requires size < TWO_64 / 4 && CountedUnits(mem, order, p, size).Some?
    ensures var (units, end) := FilledUnits(mem, order, p, size, diesOk);
            var offsets := CountedUnits(mem, order, p, size).value;
            && SameOffsets(units, offsets)
            && (end != Returned ==> |units| == |offsets|)
            && (end == Broke ==> units != [] && Oversize(mem, order, units[|units| - 1].offset, size))
    decreases size - p
  {
    hide Oversize, UnitAt, CountedLength, UnitLength;
    if p < size {
      LengthsAgree(mem, order, p);
      OversizeIsLast(mem, order, p, size);
      SelfOffset(mem, order, p);
      var (length, initial) := CountedLength(mem, order, p).value;
      var next := p + length + initial;
      if !Oversize(mem, order, p, size) && diesOk(p) {
        ScansAgree(mem, order, next, size, diesOk);
        var rest, counted := FilledUnits(mem, order, next, size, diesOk).0, CountedUnits(mem, order, next, size).value;
        var units, offsets := [UnitAt(mem, order, p)] + rest, [p] + counted;
        assert SameOffsets(rest, counted);
        assert forall k :: 0 < k < |units| ==> units[k] == rest[k - 1] && offsets[k] == counted[k - 1];
      }
    }
  }

  lemma SelfOffset(mem: nat -> byte, order: Order, p: nat)
    ensures UnitAt(mem, order, p).offset == p
  {
  }

  // ----- the scans as loops -----

  /** The counting loop. */
  method CountUnits(mem: nat -> byte, order: Order, size: nat) returns (count: Option<nat>)
    ensures count == match CountedUnits(mem, order, 0, size) case None => None case Some(units) => Some(|units|)
  {
    hide CountedLength;
    var p: nat, n: nat := 0, 0;
    while p < size
      invariant match CountedUnits(mem, order, p, size)
                case None => CountedUnits(mem, order, 0, size).None?
                case Some(rest) => CountedUnits(mem, order, 0, size).Some? && |CountedUnits(mem, order, 0, size).value| == n + |rest|
      decreases size - p
    {
      var length := CountedLength(mem, order, p);
      if length.None? { return None; }
      p := p + length.value.0 + length.value.1;
      n := n + 1;
    }
    return Some(n);
  }

  /** Both scans: the array is allocated for the counted units; every store is inside it, and unless the
      loop returns from within a unit, every entry has been stored exactly once when it is done. */
  method ProcessDebugInfo(mem: nat -> byte, order: Order, size: nat, diesOk: nat -> bool)
    returns (info: array?<Option<Unit>>, numUnits: nat, end: End)
    requires size < TWO_64 / 4
    ensures info == null <==> CountedUnits(mem, order, 0, size).None? || CountedUnits(mem, order, 0, size) == Some([])
    ensures info != null ==>
              var (units, how) := FilledUnits(mem, order, 0, size, diesOk);
              && fresh(info) && info.Length == numUnits == |CountedUnits(mem, order, 0, size).value| && end == how
              && |units| <= numUnits
              && (forall k :: 0 <= k < |units| ==> info[k] == Some(units[k]))
              && (forall k :: |units| <= k < numUnits ==> info[k] == None)
              && (end != Returned ==> |units| == numUnits)
  {
    hide CountedUnits, FilledUnits, UnitAt, Oversize, UnitLength;
    var count := CountUnits(mem, order, size);
    if count.None? || count.value == 0 { return null, 0, Returned; }
    numUnits := count.value;
    info := new Option<Unit>[numUnits](_ => None);
    ScansAgree(mem, order, 0, size, diesOk);
    ghost var (units, how) := FilledUnits(mem, order, 0, size, diesOk);
    var start: nat, unit: nat := 0, 0;
    end := Finished;
    assert units[0..] == units;
    while start < size
      invariant unit <= |units| && end == Finished
      invariant FilledUnits(mem, order, start, size, diesOk) == (units[unit..], how)
      invariant forall k :: 0 <= k < unit ==> info[k] == Some(units[k])
      invariant forall k :: unit <= k < numUnits ==> info[k] == None
      decreases size - start
    {
      var (length, initial) := UnitLength(mem, order, start);
      NextUnit(mem, order, start, size, diesOk, units, unit, how);
      info[unit] := Some(UnitAt(mem, order, start));
      unit := unit + 1;
      if Oversize(mem, order, start, size) {
        end := Broke;
        return;
      }
      if !diesOk(start) {
        end := Returned;
        return;
      }
      start := start + length + initial;
    }
    NoMoreUnits(mem, order, start, size, diesOk);
  }

  lemma NextUnit(mem: nat -> byte, order: Order, p: nat, size: nat, diesOk: nat -> bool, units: seq<Unit>, k: nat, how: End)
    requires p < size < TWO_64 / 4 && k <= |units|
    requires FilledUnits(mem, order, p, size, diesOk) == (units[k..], how)
    ensures k < |units| && units[k] == UnitAt(mem, order, p)
    ensures Oversize(mem, order, p, size) ==> k + 1 == |units| && how == Broke
    ensures !Oversize(mem, order, p, size) && !diesOk(p) ==> k + 1 == |units| && how == Returned
    ensures !Oversize(mem, order, p, size) && diesOk(p) ==>
              var (length, initial) := UnitLength(mem, order, p);
              FilledUnits(mem, order, p + length + initial, size, diesOk) == (units[k + 1..], how)
  {
    hide UnitAt, Oversize, UnitLength;
    var (rest, _) := FilledUnits(mem, order, p, size, diesOk);
    assert rest[0] == units[k] && rest[1..] == units[k + 1..];
  }

  lemma NoMoreUnits(mem: nat -> byte, order: Order, p: nat, size: nat, diesOk: nat -> bool)
    requires size <= p && size < TWO_64 / 4
    ensures FilledUnits(mem, order, p, size, diesOk) == ([], Finished)
  {
  }

  // ----- encoded units -----

  /** A compilation unit: its format, the fields of its header (section 7.5.1 of DWARF 3), the bytes after it. */
  datatype Source = Source(wide: bool, version: nat, abbrevs: nat, pointerSize: byte, dies: seq<byte>)

  function AfterLength(order: Order, s: Source): seq<byte>
  {
    FieldBytes(order, s.version, 2) + (FieldBytes(order, s.abbrevs, if s.wide then 8 else 4) + ([s.pointerSize] + s.dies))
  }

  function EncodeUnit(order: Order, s: Source): seq<byte>
  {
    var n := |AfterLength(order, s)|;
    (if s.wide then FieldBytes(order, 0xffff_ffff, 4) + FieldBytes(order, n, 8) else FieldBytes(order, n, 4))
    + AfterLength(order, s)
  }

  predicate Fits(order: Order, s: Source) { |AfterLength(order, s)| < (if s.wide then TWO_64 / 2 else 0xffff_fff0) }

  /** The bytes bs lie in memory at p. */
  predicate Lies(mem: nat -> byte, p: nat, bs: seq<byte>) { forall k :: 0 <= k < |bs| ==> mem(p + k) == bs[k] }

  lemma LiesSplit(mem: nat -> byte, p: nat, a: seq<byte>, b: seq<byte>)
    requires Lies(mem, p, a + b)
    ensures Lies(mem, p, a) && Lies(mem, p + |a|, b)
  {
    forall k | 0 <= k < |a| ensures mem(p + k) == a[k] { assert (a + b)[k] == a[k]; }
    forall k | 0 <= k < |b| ensures mem(p + |a| + k) == b[k] {
      assert mem(p + (|a| + k)) == (a + b)[|a| + k];
    }
  }

  lemma FieldLies(mem: nat -> byte, order: Order, p: nat, v: nat, n: nat)
    requires Lies(mem, p, FieldBytes(order, v, n)) && v < Pow2(8 * n)
    ensures Field(mem, order, p, n) == v
  {
    assert Bytes(mem, p, n) == FieldBytes(order, v, n);
    FieldRoundTrip(order, v, n);
    SmallMod(v, Pow2(8 * n));
  }

  /** The header of an encoded unit, in either format: both scans read its length, and the second its pointer size. */
  lemma UnitRoundTrip(mem: nat -> byte, order: Order, p: nat, s: Source)
    requires Fits(order, s) && Lies(mem, p, EncodeUnit(order, s))
    ensures var n, initial := |AfterLength(order, s)|, if s.wide then 12 else 4;
            && n + initial == |EncodeUnit(order, s)|
            && CountedLength(mem, order, p) == Some((n, initial)) && UnitLength(mem, order, p) == (n, initial)
            && UnitAt(mem, order, p) == Unit(p, s.pointerSize)
  {
    hide FieldBytes, Field, Pow2, Lies;
    Pow2Known();
    var after := AfterLength(order, s);
    var n := |after|;
    if s.wide {
      LiesSplit(mem, p, FieldBytes(order, 0xffff_ffff, 4) + FieldBytes(order, n, 8), after);
      LiesSplit(mem, p, FieldBytes(order, 0xffff_ffff, 4), FieldBytes(order, n, 8));
      FieldLies(mem, order, p, 0xffff_ffff, 4);
      FieldLies(mem, order, p + 4, n, 8);
      PointerLies(mem, order, p + 12, s);
    } else {
      LiesSplit(mem, p, FieldBytes(order, n, 4), after);
      FieldLies(mem, order, p, n, 4);
      PointerLies(mem, order, p + 4, s);
    }
  }

  lemma PointerLies(mem: nat -> byte, order: Order, p: nat, s: Source)
    requires Lies(mem, p, AfterLength(order, s))
    ensures Field(mem, order, p + 2 + (if s.wide then 8 else 4), 1) == s.pointerSize
    ensures |AfterLength(order, s)| > 0
  {
    var version, abbrevs := FieldBytes(order, s.version, 2), FieldBytes(order, s.abbrevs, if s.wide then 8 else 4);
    LiesSplit(mem, p, version, abbrevs + ([s.pointerSize] + s.dies));
    LiesSplit(mem, p + 2, abbrevs, [s.pointerSize] + s.dies);
    var q := p + 2 + |abbrevs|;
    LiesSplit(mem, q, [s.pointerSize], s.dies);
    assert Bytes(mem, q, 1) == [s.pointerSize] by { assert mem(q + 0) == [s.pointerSize][0]; }
    OneByteField(order, s.pointerSize);
  }

  lemma OneByteField(order: Order, b: byte)
    ensures FieldValue(order, [b]) == b
  {
    assert [b][1..] == [] && LittleEndian([b]) == b;
    assert Reverse([b]) == [b];
  }

  function EncodeUnits(order: Order, sources: seq<Source>): seq<byte>
  {
    if sources == [] then [] else EncodeUnit(order, sources[0]) + EncodeUnits(order, sources[1..])
  }

  /** What the second scan should record, from p on. */
  function Recorded(order: Order, sources: seq<Source>, p: nat): seq<Unit>
    decreases |sources|
  {
    if sources == [] then []
    else [Unit(p, sources[0].pointerSize)] + Recorded(order, sources[1..], p + |EncodeUnit(order, sources[0])|)
  }

  /** Any section of units: the counting scan counts them, and the filling scan, if no walk over entries returns
      early, records the offset and the pointer size of each. */
  lemma {:induction false} SectionRoundTrip(mem: nat -> byte, order: Order, p: nat, sources: seq<Source>, size: nat, diesOk: nat -> bool)
    requires (forall k :: 0 <= k < |sources| ==> Fits(order, sources[k])) && Lies(mem, p, EncodeUnits(order, sources))
    requires p + |EncodeUnits(order, sources)| == size < TWO_64 / 4 && forall q :: p <= q < size ==> diesOk(q)
    ensures CountedUnits(mem, order, p, size).Some? && |CountedUnits(mem, order, p, size).value| == |sources|
    ensures FilledUnits(mem, order, p, size, diesOk) == (Recorded(order, sources, p), Finished)
    decreases |sources|
  {
    hide Lies, UnitAt, UnitLength, CountedLength, EncodeUnit, AfterLength, Fits;
    if sources != [] {
      var s := sources[0];
      var next := p + |EncodeUnit(order, s)|;
      LiesSplit(mem, p, EncodeUnit(order, s), EncodeUnits(order, sources[1..]));
      UnitRoundTrip(mem, order, p, s);
      SectionRoundTrip(mem, order, next, sources[1..], size, diesOk);
      OversizeIsLast(mem, order, p, size);
    }
  }
}
