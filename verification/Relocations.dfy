/** Reading relocation entries and applying them to a section in place
    (slurp_rela_relocs, slurp_rel_relocs and apply_relocations of readelf-mini.c),
    for the i386 and x86-64 machines. */
module Relocations {
  import opened Machine
  import opened ByteOrder

  datatype Target = I386 | X8664

  /** What apply_relocations takes from the ELF headers. */
  datatype Context = Context(target: Target, is32: bool, order: Order, isRela: bool, symtab: seq<Sym>)

  datatype Sym = Sym(value: nat, symType: nat)

  datatype Reloc = Reloc(offset: nat, info: nat, addend: nat)

  const STT_SECTION := 3

  // ----- decoding r_info -----

  function RelocType(c: Context, info: nat): nat { if c.is32 then info % 256 else info % TWO_32 }

  function SymIndex(c: Context, info: nat): nat { if c.is32 then info / 256 else info / TWO_32 }

  predicate Is32BitAbs(t: Target, ty: nat) { match t case I386 => ty == 1 case X8664 => ty == 10 }

  predicate Is32BitPcrel(t: Target, ty: nat) { ty == 2 }

  predicate Is64BitAbs(t: Target, ty: nat) { t.X8664? && ty == 1 }

  predicate Is64BitPcrel(t: Target, ty: nat) { t.X8664? && ty == 24 }

  predicate IsNone(t: Target, ty: nat) { ty == 0 }

  /** The size of the field a relocation patches; 0 when it is skipped for its type.
      The 24-bit and 16-bit tables name neither machine. */
  function FieldSize(t: Target, ty: nat): nat
  {
    if IsNone(t, ty) then 0
    else if Is32BitAbs(t, ty) || Is32BitPcrel(t, ty) then 4
    else if Is64BitAbs(t, ty) || Is64BitPcrel(t, ty) then 8
    else 0
  }

  function Size(c: Context, r: Reloc): nat { FieldSize(c.target, RelocType(c, r.info)) }

  predicate Pcrel(c: Context, r: Reloc)
  {
    Is32BitPcrel(c.target, RelocType(c, r.info)) || Is64BitPcrel(c.target, RelocType(c, r.info))
  }

  /** The entries that the loop over a section of n bytes skips for their type or their offset, before it
      looks at the symbol, and those whose symbol index the symbol table can answer. The source indexes it
      unchecked. */
  predicate Resolvable(c: Context, n: nat, r: Reloc)
  {
    Size(c, r) != 0 && r.offset + Size(c, r) <= n ==> SymIndex(c, r.info) < |c.symtab|
  }

  predicate AllResolvable(c: Context, n: nat, rs: seq<Reloc>) { forall k :: 0 <= k < |rs| ==> Resolvable(c, n, rs[k]) }

  function Symbol(c: Context, r: Reloc): Sym
    requires SymIndex(c, r.info) < |c.symtab|
  {
    c.symtab[SymIndex(c, r.info)]
  }

  /** Neither the type, nor the bounds of a section of n bytes, nor the symbol's type make the loop skip r. */
  predicate Applies(c: Context, n: nat, r: Reloc)
    requires Resolvable(c, n, r)
  {
    && Size(c, r) != 0
    && r.offset + Size(c, r) <= n
    && (SymIndex(c, r.info) == 0 || Symbol(c, r).symType <= STT_SECTION)
  }

  // ----- one relocation -----

  /** The addend the loop uses: the entry's own, or for SHT_REL the bytes in place. */
  function Addend(c: Context, sec: seq<byte>, r: Reloc): nat
    requires Resolvable(c, |sec|, r) && Applies(c, |sec|, r)
  {
    if c.isRela then r.addend % TWO_64
    else FieldValue(c.order, sec[r.offset..r.offset + Size(c, r)])
  }

  function Stored(c: Context, sec: seq<byte>, r: Reloc): nat
    requires Resolvable(c, |sec|, r) && Applies(c, |sec|, r)
  {
    Sum64(Addend(c, sec, r), Symbol(c, r).value, Pcrel(c, r), r.offset)
  }

  /** The 64-bit sum, less the place when pc-relative. */
  function Sum64(addend: nat, sym: nat, pcrel: bool, place: nat): nat
  {
    var sum := (addend + sym) % TWO_64;
    if pcrel then (sum - place) % TWO_64 else sum
  }

  function ApplyOne(c: Context, sec: seq<byte>, r: Reloc): (res: seq<byte>)
    requires Resolvable(c, |sec|, r)
    ensures |res| == |sec|
  {
    if Applies(c, |sec|, r)
    then PutAt(sec, r.offset, FieldBytes(c.order, Stored(c, sec, r), Size(c, r)))
    else sec
  }

  function ApplyAll(c: Context, sec: seq<byte>, rs: seq<Reloc>): (res: seq<byte>)
    requires AllResolvable(c, |sec|, rs)
    ensures |res| == |sec|
  {
    if rs == [] then sec else ApplyOne(c, ApplyAll(c, sec, rs[..|rs| - 1]), rs[|rs| - 1])
  }

  /** The body of the relocation loop of apply_relocations; not ok when it reads past the symbol table. */
  method ApplyRelocation(c: Context, start: array<byte>, rp: Reloc) returns (ok: bool)
    modifies start
    ensures ok <==> Resolvable(c, start.Length, rp)
    ensures ok ==> start[..] == ApplyOne(c, old(start[..]), rp)
  {
    var ty := RelocType(c, rp.info);
    if IsNone(c.target, ty) { return true; }
    var size: nat := 0;
    if Is32BitAbs(c.target, ty) || Is32BitPcrel(c.target, ty) {
      size := 4;
    } else if Is64BitAbs(c.target, ty) || Is64BitPcrel(c.target, ty) {
      size := 8;
    } else {
      return true;
    }
    if rp.offset + size > start.Length { return true; }
    if SymIndex(c, rp.info) >= |c.symtab| { return false; }
    var sym := c.symtab[SymIndex(c, rp.info)];
    if SymIndex(c, rp.info) != 0 && sym.symType > STT_SECTION { return true; }
    assert Applies(c, start.Length, rp);
    var addend := 0;
    if c.isRela { addend := (addend + rp.addend) % TWO_64; }
    if !c.isRela {
      var inPlace := ByteGet(c.order, start[rp.offset..], size);
      assert start[rp.offset..][..size] == start[..][rp.offset..rp.offset + size];
      addend := addend + inPlace.value;
    }
    assert addend == Addend(c, start[..], rp);
    var value := (addend + sym.value) % TWO_64;
    if Is32BitPcrel(c.target, ty) || Is64BitPcrel(c.target, ty) {
      value := (value - rp.offset) % TWO_64;
    }
    assert value == Stored(c, start[..], rp);
    var _ := BytePut(c.order, start, rp.offset, value, size);
    return true;
  }

  /** The relocation loop of apply_relocations, patching the section's buffer: it stays inside the symbol
      table exactly when every entry it does not skip has its symbol there. */
  method ApplyRelocations(c: Context, start: array<byte>, relocs: seq<Reloc>) returns (ok: bool)
    modifies start
    ensures ok <==> AllResolvable(c, start.Length, relocs)
    ensures ok ==> start[..] == ApplyAll(c, old(start[..]), relocs)
  {
    for i := 0 to |relocs|
      invariant AllResolvable(c, start.Length, relocs[..i])
      invariant start[..] == ApplyAll(c, old(start[..]), relocs[..i])
    {
      assert relocs[..i + 1][..i] == relocs[..i];
      ok := ApplyRelocation(c, start, relocs[i]);
      if !ok { return; }
    }
    assert relocs[..|relocs|] == relocs;
    return true;
  }

  // ----- what a relocated site holds -----

  /** The ABI's formula over unbounded integers: S + A, less the place when pc-relative. */
  function Formula(c: Context, sec: seq<byte>, r: Reloc): int
    requires Resolvable(c, |sec|, r) && Applies(c, |sec|, r)
  {
    var a := if c.isRela then r.addend else FieldValue(c.order, sec[r.offset..r.offset + Size(c, r)]);
    Symbol(c, r).value + a - (if Pcrel(c, r) then r.offset else 0)
  }

  lemma SumWraps(a: nat, in64: nat, sym: nat, pcrel: bool, place: nat)
    requires in64 == a || in64 == a % TWO_64
    ensures Sum64(in64, sym, pcrel, place) == (sym + a - (if pcrel then place else 0)) % TWO_64
  {
    WrapSum(a, sym, TWO_64);
    WrapSum(a + sym, 0 - place, TWO_64);
  }

  lemma StoredIsFormula(c: Context, sec: seq<byte>, r: Reloc)
    requires Resolvable(c, |sec|, r) && Applies(c, |sec|, r)
    ensures Stored(c, sec, r) == Formula(c, sec, r) % TWO_64
  {
    var a := if c.isRela then r.addend else FieldValue(c.order, sec[r.offset..r.offset + Size(c, r)]);
    SumWraps(a, Addend(c, sec, r), Symbol(c, r).value, Pcrel(c, r), r.offset);
  }

  lemma WrapsTwice(x: int, size: nat)
    requires size == 4 || size == 8
    ensures x % TWO_64 % Pow2(8 * size) == x % Pow2(8 * size)
  {
    Pow2Known();
    if size == 4 {
      AddMultiple(x % TWO_64, TWO_32, TWO_32 * (x / TWO_64));
    }
  }

  predicate Covers(c: Context, n: nat, r: Reloc, i: int)
    requires Resolvable(c, n, r)
  {
    Applies(c, n, r) && r.offset <= i < r.offset + Size(c, r)
  }

  /** The site of r in the section sec reads as the low bytes of the formula over the section orig. */
  predicate Holds(c: Context, orig: seq<byte>, sec: seq<byte>, r: Reloc)
    requires Resolvable(c, |orig|, r) && |orig| == |sec|
  {
    Applies(c, |orig|, r) ==>
      FieldValue(c.order, sec[r.offset..r.offset + Size(c, r)]) == Formula(c, orig, r) % Pow2(8 * Size(c, r))
  }

  /** Two entries patch separate bytes (or one of them is skipped). */
  predicate Separate(c: Context, n: nat, r: Reloc, s: Reloc)
    requires Resolvable(c, n, r) && Resolvable(c, n, s)
  {
    Applies(c, n, r) && Applies(c, n, s) ==> r.offset + Size(c, r) <= s.offset || s.offset + Size(c, s) <= r.offset
  }

  predicate PairwiseSeparate(c: Context, n: nat, rs: seq<Reloc>)
    requires AllResolvable(c, n, rs)
  {
    forall j, k :: 0 <= j < k < |rs| ==> Separate(c, n, rs[j], rs[k])
  }

  lemma OneHolds(c: Context, orig: seq<byte>, sec: seq<byte>, r: Reloc)
    requires Resolvable(c, |orig|, r) && |orig| == |sec|
    requires Applies(c, |orig|, r) ==> sec[r.offset..r.offset + Size(c, r)] == orig[r.offset..r.offset + Size(c, r)]
    ensures Holds(c, orig, ApplyOne(c, sec, r), r)
  {
    if Applies(c, |orig|, r) {
      var n := Size(c, r);
      var v := Stored(c, sec, r);
      StoredIsFormula(c, sec, r);
      FieldRoundTrip(c.order, v, n);
      WrapsTwice(Formula(c, sec, r), n);
      assert ApplyOne(c, sec, r)[r.offset..r.offset + n] == FieldBytes(c.order, v, n);
    }
  }

  lemma StillHolds(c: Context, orig: seq<byte>, sec: seq<byte>, r: Reloc, s: Reloc)
    requires Resolvable(c, |orig|, r) && Resolvable(c, |orig|, s) && |orig| == |sec|
    requires Separate(c, |orig|, r, s) && Holds(c, orig, sec, r)
    ensures Holds(c, orig, ApplyOne(c, sec, s), r)
  {
    if Applies(c, |orig|, r) {
      var res := ApplyOne(c, sec, s);
      assert res[r.offset..r.offset + Size(c, r)] == sec[r.offset..r.offset + Size(c, r)];
    }
  }

  /** Bytes under no applied site are as they were, whatever the sites. */
  lemma {:induction false} FrameKept(c: Context, sec: seq<byte>, rs: seq<Reloc>, i: nat)
    requires AllResolvable(c, |sec|, rs) && i < |sec|
    requires forall k :: 0 <= k < |rs| ==> !Covers(c, |sec|, rs[k], i)
    ensures ApplyAll(c, sec, rs)[i] == sec[i]
  {
    if rs != [] {
      var m := |rs| - 1;
      forall k | 0 <= k < m ensures !Covers(c, |sec|, rs[..m][k], i) { assert rs[..m][k] == rs[k]; }
      FrameKept(c, sec, rs[..m], i);
      assert !Covers(c, |sec|, rs[m], i);
    }
  }

  /** The sites applied so far do not reach the site of an entry separate from them all. */
  lemma SiteStillOriginal(c: Context, sec: seq<byte>, rs: seq<Reloc>, r: Reloc)
    requires AllResolvable(c, |sec|, rs) && Resolvable(c, |sec|, r) && Applies(c, |sec|, r)
    requires forall k :: 0 <= k < |rs| ==> Separate(c, |sec|, rs[k], r)
    ensures ApplyAll(c, sec, rs)[r.offset..r.offset + Size(c, r)] == sec[r.offset..r.offset + Size(c, r)]
  {
    forall i | r.offset <= i < r.offset + Size(c, r) ensures ApplyAll(c, sec, rs)[i] == sec[i] {
      FrameKept(c, sec, rs, i);
    }
  }

  /** Applying relocations at pairwise separate sites: every applied site holds the low bytes of
      S + A, or S + A - P, over the original contents. */
  lemma {:induction false} SitesHold(c: Context, sec: seq<byte>, rs: seq<Reloc>)
    requires AllResolvable(c, |sec|, rs) && PairwiseSeparate(c, |sec|, rs)
    ensures forall k :: 0 <= k < |rs| ==> Holds(c, sec, ApplyAll(c, sec, rs), rs[k])
  {
    if rs != [] {
      var m := |rs| - 1;
      var init, last := rs[..m], rs[m];
      var mid, res := ApplyAll(c, sec, init), ApplyAll(c, sec, rs);
      assert forall k :: 0 <= k < m ==> init[k] == rs[k];
      SitesHold(c, sec, init);
      if Applies(c, |sec|, last) { SiteStillOriginal(c, sec, init, last); }
      OneHolds(c, sec, mid, last);
      forall k | 0 <= k < m ensures Holds(c, sec, res, rs[k]) {
        StillHolds(c, sec, mid, init[k], last);
      }
    }
  }

  // ----- order independence -----

  lemma {:induction false} TwoOccurrences(rs: seq<Reloc>, r: Reloc) returns (j: nat, k: nat)
    requires multiset(rs)[r] >= 2
    ensures j < k < |rs| && rs[j] == r == rs[k]
  {
    var m := |rs| - 1;
    assert rs == rs[..m] + [rs[m]];
    if rs[m] == r {
      assert multiset(rs[..m])[r] >= 1;
      j :| 0 <= j < m && rs[..m][j] == r;
      k := m;
    } else {
      j, k := TwoOccurrences(rs[..m], r);
    }
  }

  lemma {:induction false} RepeatCounts(rs: seq<Reloc>, j: nat, k: nat)
    requires j < k < |rs| && rs[j] == rs[k]
    ensures multiset(rs)[rs[j]] >= 2
  {
    assert rs == rs[..k] + [rs[k]] + rs[k + 1..];
    assert rs[..k][j] == rs[j];
    assert rs[j] in multiset(rs[..k]);
  }

  lemma SeparateForPermutation(c: Context, n: nat, rs: seq<Reloc>, qs: seq<Reloc>)
    requires AllResolvable(c, n, rs) && PairwiseSeparate(c, n, rs) && multiset(rs) == multiset(qs)
    ensures AllResolvable(c, n, qs) && PairwiseSeparate(c, n, qs)
  {
    forall k | 0 <= k < |qs| ensures Resolvable(c, n, qs[k]) { assert qs[k] in multiset(rs); }
    forall j, k | 0 <= j < k < |qs| ensures Separate(c, n, qs[j], qs[k]) {
      assert qs[j] in multiset(rs) && qs[k] in multiset(rs);
      if qs[j] == qs[k] {
        RepeatCounts(qs, j, k);
        var p, q := TwoOccurrences(rs, qs[j]);
        assert Separate(c, n, rs[p], rs[q]);
      } else {
        var p :| 0 <= p < |rs| && rs[p] == qs[j];
        var q :| 0 <= q < |rs| && rs[q] == qs[k];
        assert p < q ==> Separate(c, n, rs[p], rs[q]);
        assert q < p ==> Separate(c, n, rs[q], rs[p]);
      }
    }
  }

  /** A byte under the site of r is the same in any two sections whose site reads the same number. */
  lemma SameSite(c: Context, orig: seq<byte>, x: seq<byte>, y: seq<byte>, r: Reloc, i: nat)
    requires Resolvable(c, |orig|, r) && |x| == |y| == |orig| && Covers(c, |orig|, r, i)
    requires Holds(c, orig, x, r) && Holds(c, orig, y, r)
    ensures x[i] == y[i]
  {
    var n := Size(c, r);
    var fx, fy := x[r.offset..r.offset + n], y[r.offset..r.offset + n];
    FieldValueDetermines(c.order, fx);
    FieldValueDetermines(c.order, fy);
    assert fx[i - r.offset] == x[i] && fy[i - r.offset] == y[i];
  }

  /** Relocations at pairwise separate sites may be applied in any order. */
  lemma OrderIndependent(c: Context, sec: seq<byte>, rs: seq<Reloc>, qs: seq<Reloc>)
    requires AllResolvable(c, |sec|, rs) && PairwiseSeparate(c, |sec|, rs) && multiset(rs) == multiset(qs)
    ensures AllResolvable(c, |sec|, qs) && ApplyAll(c, sec, rs) == ApplyAll(c, sec, qs)
  {
    SeparateForPermutation(c, |sec|, rs, qs);
    SitesHold(c, sec, rs);
    SitesHold(c, sec, qs);
    var x, y := ApplyAll(c, sec, rs), ApplyAll(c, sec, qs);
    forall i | 0 <= i < |sec| ensures x[i] == y[i] {
      if k :| 0 <= k < |rs| && Covers(c, |sec|, rs[k], i) {
        assert rs[k] in multiset(qs);
        var q :| 0 <= q < |qs| && qs[q] == rs[k];
        SameSite(c, sec, x, y, rs[k], i);
      } else {
        forall q | 0 <= q < |qs| ensures !Covers(c, |sec|, qs[q], i) {
          assert qs[q] in multiset(rs);
        }
        FrameKept(c, sec, rs, i);
        FrameKept(c, sec, qs, i);
      }
    }
  }

  // ----- the external form of the entries -----

  /** The width of one field and the number of fields of an entry. */
  function Width(is32: bool): nat { if is32 then 4 else 8 }

  function EntrySize(is32: bool, isRela: bool): nat
  {
    if is32 then (if isRela then 12 else 8) else (if isRela then 24 else 16)
  }

  function ParseEntry(order: Order, is32: bool, isRela: bool, bs: seq<byte>): Reloc
    requires |bs| >= EntrySize(is32, isRela)
  {
    var w := Width(is32);
    Reloc(FieldValue(order, bs[..w]), FieldValue(order, bs[w..2 * w]),
          if isRela then FieldValue(order, bs[2 * w..3 * w]) else 0)
  }

  function ParseEntries(order: Order, is32: bool, isRela: bool, bs: seq<byte>): seq<Reloc>
  {
    var e := EntrySize(is32, isRela);
    if |bs| < e then [] else [ParseEntry(order, is32, isRela, bs)] + ParseEntries(order, is32, isRela, bs[e..])
  }

  lemma {:induction false} EntryCount(order: Order, is32: bool, isRela: bool, bs: seq<byte>)
    ensures |ParseEntries(order, is32, isRela, bs)| == |bs| / EntrySize(is32, isRela)
    decreases |bs|
  {
    var e := EntrySize(is32, isRela);
    if |bs| >= e {
      EntryCount(order, is32, isRela, bs[e..]);
      AddMultiple(|bs| - e, e, 1);
    } else {
      SmallMod(|bs|, e);
    }
  }

  lemma NextEntry(order: Order, is32: bool, isRela: bool, data: seq<byte>, p: nat, done: seq<Reloc>)
    requires p + EntrySize(is32, isRela) <= |data|
    ensures done + ParseEntries(order, is32, isRela, data[p..])
            == done + [EntryAt(order, is32, isRela, data, p)]
               + ParseEntries(order, is32, isRela, data[p + EntrySize(is32, isRela)..])
  {
    var e, w, rest := EntrySize(is32, isRela), Width(is32), data[p..];
    assert rest[e..] == data[p + e..];
    assert rest[w..2 * w] == data[p + w..][..w];
    if isRela { assert rest[2 * w..3 * w] == data[p + 2 * w..][..w]; }
    assert ParseEntry(order, is32, isRela, rest) == EntryAt(order, is32, isRela, data, p);
  }

  /** The same entry read with each field's own pointer. */
  function EntryAt(order: Order, is32: bool, isRela: bool, data: seq<byte>, p: nat): Reloc
    requires p + EntrySize(is32, isRela) <= |data|
  {
    var w := Width(is32);
    Reloc(FieldValue(order, data[p..][..w]), FieldValue(order, data[p + w..][..w]),
          if isRela then FieldValue(order, data[p + 2 * w..][..w]) else 0)
  }

  /** slurp_rela_relocs and slurp_rel_relocs: rel_size / sizeof entries, field by field. */
  method SlurpRelocs(order: Order, is32: bool, isRela: bool, data: seq<byte>) returns (relocs: seq<Reloc>)
    ensures relocs == ParseEntries(order, is32, isRela, data)
  {
    var e, w := EntrySize(is32, isRela), Width(is32);
    var n := |data| / e;
    EntryCount(order, is32, isRela, data);
    relocs := [];
    var p: nat := 0;
    for i := 0 to n
      invariant p <= |data| && |relocs| == i
      invariant relocs + ParseEntries(order, is32, isRela, data[p..]) == ParseEntries(order, is32, isRela, data)
    {
      assert |data[p..]| >= e;
      var offset := ByteGet(order, data[p..], w);
      var info := ByteGet(order, data[p + w..], w);
      var addend := Some(0);
      if isRela { addend := ByteGet(order, data[p + 2 * w..], w); }
      NextEntry(order, is32, isRela, data, p, relocs);
      relocs := relocs + [Reloc(offset.value, info.value, addend.value)];
      p := p + e;
    }
  }

  function EncodeEntry(order: Order, is32: bool, isRela: bool, r: Reloc): (bs: seq<byte>)
    ensures |bs| == EntrySize(is32, isRela)
  {
    var w := Width(is32);
    FieldBytes(order, r.offset, w) + FieldBytes(order, r.info, w)
    + (if isRela then FieldBytes(order, r.addend, w) else [])
  }

  function EncodeEntries(order: Order, is32: bool, isRela: bool, rs: seq<Reloc>): seq<byte>
  {
    if rs == [] then [] else EncodeEntry(order, is32, isRela, rs[0]) + EncodeEntries(order, is32, isRela, rs[1..])
  }

  /** The entries an external table can express: fields of the class's width, no addend in SHT_REL. */
  predicate Fits(is32: bool, isRela: bool, r: Reloc)
  {
    var top := if is32 then TWO_32 else TWO_64;
    r.offset < top && r.info < top && r.addend < top && (isRela || r.addend == 0)
  }

  lemma FieldFits(order: Order, w: nat, v: nat)
    requires (w == 4 && v < TWO_32) || (w == 8 && v < TWO_64)
    ensures FieldValue(order, FieldBytes(order, v, w)) == v
  {
    FieldRoundTrip(order, v, w);
    Pow2Known();
    SmallMod(v, if w == 4 then TWO_32 else TWO_64);
  }

  lemma EntrySlices(order: Order, is32: bool, isRela: bool, r: Reloc, rest: seq<byte>)
    ensures var w, bs := Width(is32), EncodeEntry(order, is32, isRela, r) + rest;
            bs[..w] == FieldBytes(order, r.offset, w)
            && bs[w..2 * w] == FieldBytes(order, r.info, w)
            && (isRela ==> bs[2 * w..3 * w] == FieldBytes(order, r.addend, w))
  {
    var w := Width(is32);
    var o, n := FieldBytes(order, r.offset, w), FieldBytes(order, r.info, w);
    if isRela {
      Slices(o, n, FieldBytes(order, r.addend, w) + rest, w);
      assert o + n + FieldBytes(order, r.addend, w) + rest == o + n + (FieldBytes(order, r.addend, w) + rest);
    } else {
      Slices(o, n, rest, w);
      assert o + n + [] + rest == o + n + rest;
    }
  }

  lemma Slices(o: seq<byte>, n: seq<byte>, rest: seq<byte>, w: nat)
    requires |o| == w == |n|
    ensures (o + n + rest)[..w] == o && (o + n + rest)[w..2 * w] == n
    ensures |rest| >= w ==> (o + n + rest)[2 * w..3 * w] == rest[..w]
  {
  }

  lemma EntryRoundTrip(order: Order, is32: bool, isRela: bool, r: Reloc, rest: seq<byte>)
    requires Fits(is32, isRela, r)
    ensures ParseEntry(order, is32, isRela, EncodeEntry(order, is32, isRela, r) + rest) == r
  {
    var w := Width(is32);
    var bs := EncodeEntry(order, is32, isRela, r) + rest;
    EntrySlices(order, is32, isRela, r, rest);
    FieldFits(order, w, r.offset);
    FieldFits(order, w, r.info);
    FieldFits(order, w, r.addend);
  }

  lemma PrependedEntry(order: Order, is32: bool, isRela: bool, r: Reloc, tail: seq<byte>)
    requires Fits(is32, isRela, r)
    ensures ParseEntries(order, is32, isRela, EncodeEntry(order, is32, isRela, r) + tail)
            == [r] + ParseEntries(order, is32, isRela, tail)
  {
    var head := EncodeEntry(order, is32, isRela, r);
    EntryRoundTrip(order, is32, isRela, r, tail);
    assert (head + tail)[|head|..] == tail;
  }

  /** Slurping the external form of any table gives the table back, in either class and byte order. */
  lemma {:induction false} TableRoundTrip(order: Order, is32: bool, isRela: bool, rs: seq<Reloc>)
    requires forall k :: 0 <= k < |rs| ==> Fits(is32, isRela, rs[k])
    ensures ParseEntries(order, is32, isRela, EncodeEntries(order, is32, isRela, rs)) == rs
  {
    if rs != [] {
      TableRoundTrip(order, is32, isRela, rs[1..]);
      PrependedEntry(order, is32, isRela, rs[0], EncodeEntries(order, is32, isRela, rs[1..]));
    }
  }

  // ----- entries as the ABI means them -----

  /** A relocation: the symbol and the type that r_info packs, where it applies, its addend. */
  datatype Entry = Entry(place: nat, symbol: nat, ty: nat, addend: nat)

  /** What a type asks for: nothing that debug sections use, the address S + A, or the distance S + A - P. */
  datatype Meaning = Skip | Absolute(width: nat) | Relative(width: nat)

  /** R_386_32 and R_386_PC32; R_X86_64_64, R_X86_64_PC32, R_X86_64_32 and R_X86_64_PC64. */
  function Abi(t: Target, ty: nat): Meaning
  {
    match t
    case I386 => if ty == 1 then Absolute(4) else if ty == 2 then Relative(4) else Skip
    case X8664 =>
      if ty == 1 then Absolute(8) else if ty == 2 then Relative(4) else if ty == 10 then Absolute(4)
      else if ty == 24 then Relative(8) else Skip
  }

  /** ELF32_R_INFO and ELF64_R_INFO */
  function Pack(is32: bool, e: Entry): Reloc
  {
    Reloc(e.place, if is32 then e.symbol * 256 + e.ty else e.symbol * 0x1_0000_0000 + e.ty, e.addend)
  }

  function PackAll(is32: bool, es: seq<Entry>): seq<Reloc> { seq(|es|, k requires 0 <= k < |es| => Pack(is32, es[k])) }

  predicate EntryFits(is32: bool, isRela: bool, e: Entry)
  {
    && e.ty < (if is32 then 256 else TWO_32) && e.symbol < (if is32 then 0x100_0000 else TWO_32)
    && e.place < (if is32 then TWO_32 else TWO_64) && e.addend < (if is32 then TWO_32 else TWO_64)
    && (isRela || e.addend == 0)
  }

  /** In a section of n bytes the entry is used: its type is known, its field lies inside. */
  predicate Wanted(c: Context, n: nat, e: Entry)
  {
    var m := Abi(c.target, e.ty);
    m != Skip && e.place + m.width <= n
  }

  predicate InSymtab(c: Context, n: nat, e: Entry) { Wanted(c, n, e) ==> e.symbol < |c.symtab| }

  /** And its symbol is none, or of a type below STT_FILE. */
  predicate Used(c: Context, n: nat, e: Entry)
    requires InSymtab(c, n, e)
  {
    Wanted(c, n, e) && (e.symbol == 0 || c.symtab[e.symbol].symType <= 3)
  }

  /** S + A, or S + A - P, over the section as it was. */
  function Value(c: Context, sec: seq<byte>, e: Entry): int
    requires Wanted(c, |sec|, e) && e.symbol < |c.symtab|
  {
    var w := Abi(c.target, e.ty).width;
    var a := if c.isRela then e.addend else FieldValue(c.order, sec[e.place..e.place + w]);
    c.symtab[e.symbol].value + a - (if Abi(c.target, e.ty).Relative? then e.place else 0)
  }

  /** Symbol and type come back out of r_info. */
  lemma InfoSplits(c: Context, e: Entry)
    requires EntryFits(c.is32, c.isRela, e)
    ensures RelocType(c, Pack(c.is32, e).info) == e.ty && SymIndex(c, Pack(c.is32, e).info) == e.symbol
    ensures Fits(c.is32, c.isRela, Pack(c.is32, e))
  {
    if c.is32 {
      DivModUnique(e.symbol * 256 + e.ty, 256, e.symbol, e.ty);
    } else {
      DivModUnique(e.symbol * TWO_32 + e.ty, TWO_32, e.symbol, e.ty);
    }
  }

  /** The loop sees each entry as the ABI means it. */
  lemma EntrySeen(c: Context, n: nat, e: Entry)
    requires EntryFits(c.is32, c.isRela, e)
    ensures var r := Pack(c.is32, e);
            && (Resolvable(c, n, r) <==> InSymtab(c, n, e))
            && (InSymtab(c, n, e) ==> (Applies(c, n, r) <==> Used(c, n, e)))
            && (Size(c, r) == match Abi(c.target, e.ty) case Skip => 0 case Absolute(w) => w case Relative(w) => w)
            && (Pcrel(c, r) <==> Abi(c.target, e.ty).Relative?)
  {
    InfoSplits(c, e);
  }

  predicate EntriesFit(c: Context, n: nat, es: seq<Entry>)
  {
    forall k :: 0 <= k < |es| ==> EntryFits(c.is32, c.isRela, es[k]) && InSymtab(c, n, es[k])
  }

  /** The fields of used entries do not overlap. */
  predicate Apart(c: Context, n: nat, d: Entry, e: Entry)
    requires InSymtab(c, n, d) && InSymtab(c, n, e)
  {
    Used(c, n, d) && Used(c, n, e) ==>
      d.place + Abi(c.target, d.ty).width <= e.place || e.place + Abi(c.target, e.ty).width <= d.place
  }

  predicate AllApart(c: Context, n: nat, es: seq<Entry>)
    requires EntriesFit(c, n, es)
  {
    forall j, k :: 0 <= j < k < |es| ==> Apart(c, n, es[j], es[k])
  }

  /** The table the loop is given. */
  function Slurped(c: Context, es: seq<Entry>): seq<Reloc>
  {
    ParseEntries(c.order, c.is32, c.isRela, EncodeEntries(c.order, c.is32, c.isRela, PackAll(c.is32, es)))
  }

  lemma SlurpedResolvable(c: Context, n: nat, es: seq<Entry>)
    requires EntriesFit(c, n, es)
    ensures Slurped(c, es) == PackAll(c.is32, es) && AllResolvable(c, n, Slurped(c, es))
  {
    var rs := PackAll(c.is32, es);
    forall k | 0 <= k < |rs| ensures Fits(c.is32, c.isRela, rs[k]) && Resolvable(c, n, rs[k]) {
      InfoSplits(c, es[k]);
      EntrySeen(c, n, es[k]);
    }
    TableRoundTrip(c.order, c.is32, c.isRela, rs);
  }

  /** The field of a used entry holds the low bytes of S + A or S + A - P over the original section. */
  predicate Relocated(c: Context, sec: seq<byte>, res: seq<byte>, e: Entry)
    requires InSymtab(c, |sec|, e) && |res| == |sec|
  {
    Used(c, |sec|, e) ==>
      var w := Abi(c.target, e.ty).width;
      FieldValue(c.order, res[e.place..e.place + w]) == Value(c, sec, e) % Pow2(8 * w)
  }

  /** A byte that no used entry reaches. */
  predicate Untouched(c: Context, n: nat, es: seq<Entry>, i: nat)
    requires EntriesFit(c, n, es)
  {
    forall k :: 0 <= k < |es| && Used(c, n, es[k]) ==> i < es[k].place || es[k].place + Abi(c.target, es[k].ty).width <= i
  }

  /** A section relocated by a table of entries, from the table's bytes on: with no two used fields overlapping,
      every used entry reads as the ABI says. */
  lemma SectionRelocated(c: Context, sec: seq<byte>, es: seq<Entry>)
    requires EntriesFit(c, |sec|, es) && AllApart(c, |sec|, es)
    ensures AllResolvable(c, |sec|, Slurped(c, es))
    ensures forall k :: 0 <= k < |es| ==> Relocated(c, sec, ApplyAll(c, sec, Slurped(c, es)), es[k])
  {
    hide Abi, Used, Applies, Size, Pcrel, Slurped, ApplyAll, Resolvable, InSymtab, Separate, Apart, Holds, Relocated, Pack, EntryFits;
    SlurpedResolvable(c, |sec|, es);
    var rs := Slurped(c, es);
    forall j, k | 0 <= j < k < |rs| ensures Separate(c, |sec|, rs[j], rs[k]) {
      assert Apart(c, |sec|, es[j], es[k]);
      SeparateEntries(c, |sec|, es[j], es[k]);
    }
    SitesHold(c, sec, rs);
    var res := ApplyAll(c, sec, rs);
    forall k | 0 <= k < |es| ensures Relocated(c, sec, res, es[k]) {
      assert Holds(c, sec, res, rs[k]);
      HoldsValue(c, sec, res, es[k]);
    }
  }

  /** Whether they overlap or not, bytes outside all used fields are unchanged. */
  lemma RestUnchanged(c: Context, sec: seq<byte>, es: seq<Entry>, i: nat)
    requires EntriesFit(c, |sec|, es) && i < |sec| && Untouched(c, |sec|, es, i)
    ensures AllResolvable(c, |sec|, Slurped(c, es)) && ApplyAll(c, sec, Slurped(c, es))[i] == sec[i]
  {
    hide Abi, Used, Applies, Size, Slurped, ApplyAll, Resolvable, InSymtab, Pack, EntryFits;
    SlurpedResolvable(c, |sec|, es);
    var rs := Slurped(c, es);
    forall k | 0 <= k < |rs| ensures !Covers(c, |sec|, rs[k], i) { EntryReaches(c, |sec|, es[k], i); }
    FrameKept(c, sec, rs, i);
  }

  lemma EntryReaches(c: Context, n: nat, e: Entry, i: nat)
    requires EntryFits(c.is32, c.isRela, e) && InSymtab(c, n, e)
    ensures var r := Pack(c.is32, e);
            Resolvable(c, n, r) && (Covers(c, n, r, i) <==> Used(c, n, e) && e.place <= i < e.place + Abi(c.target, e.ty).width)
  {
    EntrySeen(c, n, e);
  }

  lemma SeparateEntries(c: Context, n: nat, d: Entry, e: Entry)
    requires EntryFits(c.is32, c.isRela, d) && EntryFits(c.is32, c.isRela, e) && InSymtab(c, n, d) && InSymtab(c, n, e)
    requires Apart(c, n, d, e)
    ensures Resolvable(c, n, Pack(c.is32, d)) && Resolvable(c, n, Pack(c.is32, e))
    ensures Separate(c, n, Pack(c.is32, d), Pack(c.is32, e))
  {
    EntrySeen(c, n, d);
    EntrySeen(c, n, e);
  }

  lemma HoldsValue(c: Context, sec: seq<byte>, res: seq<byte>, e: Entry)
    requires EntryFits(c.is32, c.isRela, e) && InSymtab(c, |sec|, e) && |res| == |sec|
    requires Resolvable(c, |sec|, Pack(c.is32, e)) && Holds(c, sec, res, Pack(c.is32, e))
    ensures Relocated(c, sec, res, e)
  {
    EntrySeen(c, |sec|, e);
    InfoSplits(c, e);
  }
}
