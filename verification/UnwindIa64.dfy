/** The IA-64 unwind descriptor decoder (readelf-mini/unwind-ia64.c) and the loop of dump_ia64_unwind that
    drives it (readelf-mini.c). A descriptor is decoded by one of two tables, chosen by whether the latest
    region header opened a prologue or a body; a region's length also fixes the size of a P4 descriptor. */
module UnwindIa64 {
  import opened Machine
  import opened Leb128

  /** The static unw_rlen and the dump loop's in_body. */
  datatype Carried = Carried(inBody: nat, rlen: nat)

  /** A descriptor as decoded: its format, with the fields that the format's macro is given. The register of a P3,
      P7 or P8 is its number; a P7 for the frame has a size as well; Bad is an unknown code. */
  datatype Event =
    | R1(body: bool, rlen: nat)
    | R2(mask: nat, grsave: nat, rlen: nat)
    | R3(body: bool, rlen: nat)
    | P1(brmask: nat)
    | P2(brmask: nat, gr: nat)
    | P3(r: nat, dst: nat)
    | P4(slots: seq<nat>)
    | P5(grmask: nat, frmask: nat)
    | P6(gregs: bool, mask: nat)
    | P7(r: nat, t: nat)
    | P7Frame(t: nat, size: nat)
    | P8(r: nat, t: nat)
    | P9(grmask: nat, gr: nat)
    | P10(abi: nat, context: nat)
    | B1(copy: bool, lab: nat)
    | B2(ecount: nat, t: nat)
    | B3(t: nat, ecount: nat)
    | B4(copy: bool, lab: nat)
    | X1(sprel: bool, abreg: nat, t: nat, off: nat)
    | X2(x: nat, abreg: nat, ytreg: nat, t: nat)
    | X3(sprel: bool, qp: nat, abreg: nat, t: nat, off: nat)
    | X4(qp: nat, x: nat, abreg: nat, ytreg: nat, t: nat)
    | Bad(code: nat)

  datatype Decoded = Truncated | Next(dp: nat, carried: Carried, event: Event)

  // ----- operands -----

  /** After the code byte: some plain bytes and then some ULEB128 values; or a P4 mask. */
  datatype Shape = Operands(bytes: nat, lebs: nat) | Mask

  /** unw_decode_x1 to x4 */
  function ShapeX(n: nat): Shape
  {
    if n == 1 then Operands(1, 2) else if n == 2 then Operands(2, 1) else if n == 3 then Operands(2, 2) else Operands(3, 1)
  }

  /** unw_decode_p2_p5 */
  function ShapeP2P5(code: byte): Shape
  {
    if code / 16 % 2 == 0 then Operands(1, 0)
    else if code / 8 % 2 == 0 then Operands(1, 0)
    else if code % 8 == 0 then Mask
    else if code % 8 == 1 then Operands(3, 0)
    else Operands(0, 0)
  }

  /** unw_decode_p7_p10 */
  function ShapeP7P10(code: byte): Shape
  {
    if code / 16 % 2 == 0 then (if code % 16 == 0 then Operands(0, 2) else Operands(0, 1))
    else if code % 16 == 0 then Operands(1, 1)
    else if code % 16 == 1 then Operands(2, 0)
    else if code % 16 == 15 then Operands(2, 0)
    else if 9 <= code % 16 <= 12 then ShapeX(code % 16 - 8)
    else Operands(0, 0)
  }

  /** unw_decode_b3_x4 */
  function ShapeB3X4(code: byte): Shape
  {
    if code / 16 % 2 == 0 then Operands(0, 2)
    else if code % 8 == 0 then Operands(0, 1)
    else if code % 8 <= 4 then ShapeX(code % 8)
    else Operands(0, 0)
  }

  /** unw_decode_table[inside_body][code >> 5]; rows 0 to 3 are the region headers R1, R1, R2, R3. */
  function ShapeOf(inBody: nat, code: byte): Shape
    requires inBody <= 1
  {
    var row := code / 32;
    if row <= 1 then Operands(0, 0)
    else if row == 2 then Operands(1, 1)
    else if row == 3 then Operands(0, 1)
    else if inBody == 0 then
      if row == 4 then Operands(0, 0) else if row == 5 then ShapeP2P5(code) else if row == 6 then Operands(0, 0) else ShapeP7P10(code)
    else
      if row <= 5 then Operands(0, 0) else if row == 6 then Operands(0, 1) else ShapeB3X4(code)
  }

  // ----- fields -----

  /** unw_decode_x1 to x4 */
  function DescribeX(n: nat, bs: seq<byte>, vs: seq<nat>): Event
    requires 1 <= n <= 4 && ShapeX(n) == Operands(|bs|, |vs|)
  {
    if n == 1 then X1(bs[0] >= 128, bs[0] % 128, vs[0], vs[1])
    else if n == 2 then X2(bs[0] / 128 % 2, bs[0] % 128, bs[1], vs[0])
    else if n == 3 then X3(bs[0] >= 128, bs[0] % 64, bs[1] % 128, vs[0], vs[1])
    else X4(bs[0] % 64, bs[1] / 128 % 2, bs[1] % 128, bs[2], vs[0])
  }

  function Frmask(b1: nat, b2: nat, b3: nat): nat { b1 % 16 * 0x1_0000 + b2 * 256 + b3 }

  /** unw_decode_p2_p5, but for P4 */
  function DescribeP2P5(code: byte, bs: seq<byte>, vs: seq<nat>): Event
    requires ShapeP2P5(code) == Operands(|bs|, |vs|)
  {
    if code / 16 % 2 == 0 then P2(code % 16 * 2 + bs[0] / 128, bs[0] % 128)
    else if code / 8 % 2 == 0 then P3(code % 8 * 2 + bs[0] / 128, bs[0] % 128)
    else if code % 8 == 1 then P5(bs[0] / 16, Frmask(bs[0], bs[1], bs[2]))
    else Bad(code)
  }

  /** unw_decode_p7_p10 */
  function DescribeP7P10(code: byte, bs: seq<byte>, vs: seq<nat>): Event
    requires ShapeP7P10(code) == Operands(|bs|, |vs|)
  {
    if code / 16 % 2 == 0 then (if code % 16 == 0 then P7Frame(vs[0], vs[1]) else P7(code % 16, vs[0]))
    else if code % 16 == 0 then P8(bs[0], vs[0])
    else if code % 16 == 1 then P9(bs[0] % 16, bs[1] % 128)
    else if code % 16 == 15 then P10(bs[0], bs[1])
    else if 9 <= code % 16 <= 12 then DescribeX(code % 16 - 8, bs, vs)
    else Bad(code)
  }

  /** unw_decode_b3_x4 */
  function DescribeB3X4(code: byte, bs: seq<byte>, vs: seq<nat>): Event
    requires ShapeB3X4(code) == Operands(|bs|, |vs|)
  {
    if code / 16 % 2 == 0 then B3(vs[0], vs[1])
    else if code % 8 == 0 then B4(code / 8 % 2 == 1, vs[0])
    else if code % 8 <= 4 then DescribeX(code % 8, bs, vs)
    else Bad(code)
  }

  /** The descriptor with the code byte, the plain bytes and the ULEB128 values after it. */
  function Describe(inBody: nat, code: byte, bs: seq<byte>, vs: seq<nat>): Event
    requires inBody <= 1 && ShapeOf(inBody, code) == Operands(|bs|, |vs|)
  {
    var row := code / 32;
    if row <= 1 then R1(code / 32 % 2 == 1, code % 32)
    else if row == 2 then R2(code % 8 * 2 + bs[0] / 128, bs[0] % 128, vs[0])
    else if row == 3 then R3(code % 4 == 1, vs[0])
    else if inBody == 0 then
      if row == 4 then P1(code % 32)
      else if row == 5 then DescribeP2P5(code, bs, vs)
      else if row == 6 then P6(code / 16 % 2 == 1, code % 16)
      else DescribeP7P10(code, bs, vs)
    else
      if row <= 5 then B1(code / 32 % 2 == 1, code % 32)
      else if row == 6 then B2(code % 32, vs[0])
      else DescribeB3X4(code, bs, vs)
  }

  /** n ULEB128 values from p, and the position past them. */
  function ReadLebs(sec: seq<byte>, p: nat, n: nat): (r: Option<(seq<nat>, nat)>)
    ensures r.Some? ==> |r.value.0| == n && p <= r.value.1
    decreases n
  {
    if n == 0 then Some(([], p))
    else
      match ReadUnsigned(sec, p)
      case Overrun => None
      case Got(v, q) =>
        match ReadLebs(sec, q, n - 1)
        case None => None
        case Some((vs, e)) => Some(([v] + vs, e))
  }

  method DecodeLebs(sec: seq<byte>, p: nat, n: nat) returns (r: Option<(seq<nat>, nat)>)
    requires p <= |sec|
    ensures r == ReadLebs(sec, p, n)
  {
    hide ReadUnsigned;
    var values: seq<nat> := [];
    var q: nat := p;
    ghost var whole := ReadLebs(sec, p, n);
    if whole.Some? { assert values + whole.value.0 == whole.value.0; }
    while |values| < n
      invariant |values| <= n && q <= |sec|
      invariant ReadLebs(sec, p, n) == match ReadLebs(sec, q, n - |values|)
                  case None => None
                  case Some((vs, e)) => Some((values + vs, e))
      decreases n - |values|
    {
      var leb := UnwDecodeUleb128(sec, q);
      if leb.Overrun? { return None; }
      ghost var rest := ReadLebs(sec, leb.next, n - |values| - 1);
      if rest.Some? { assert values + ([leb.value] + rest.value.0) == values + [leb.value] + rest.value.0; }
      values := values + [leb.value];
      q := leb.next;
    }
    assert values + [] == values;
    return Some((values, q));
  }

  // ----- the P4 mask -----

  function CeilDiv4(n: nat): nat { (n + 3) / 4 }

  /** Slot n of a packed mask: two bits of byte n/4, the first slot in the highest bits. */
  function SlotIn(b: byte, n: nat): (s: nat)
    ensures s < 4
  {
    if n % 4 == 0 then b / 64 else if n % 4 == 1 then b / 16 % 4 else if n % 4 == 2 then b / 4 % 4 else b % 4
  }

  function Slots(sec: seq<byte>, p: nat, rlen: nat): (s: seq<nat>)
    requires p + CeilDiv4(rlen) <= |sec|
    ensures |s| == rlen
  {
    seq(rlen, n requires 0 <= n < rlen => SlotIn(sec[p + n / 4], n))
  }

  /** The loop of UNW_DEC_SPILL_MASK: a fresh byte every fourth instruction. It consumes exactly the
      bytes that rlen two-bit slots need. */
  method DecodeSpillMask(sec: seq<byte>, dp: nat, rlen: nat) returns (slots: seq<nat>, next: Option<nat>)
    ensures next == if dp + CeilDiv4(rlen) <= |sec| then Some(dp + CeilDiv4(rlen)) else None
    ensures next.Some? ==> slots == Slots(sec, dp, rlen)
  {
    var imaskp := dp;
    var mask: byte := 0;
    slots := [];
    for insn := 0 to rlen
      invariant |slots| == insn && imaskp == dp + CeilDiv4(insn)
      invariant insn > 0 ==> imaskp <= |sec|
      invariant insn % 4 != 0 ==> mask == sec[imaskp - 1]
      invariant forall n {:trigger slots[n]} :: 0 <= n < insn ==> dp + n / 4 < |sec| && slots[n] == SlotIn(sec[dp + n / 4], n)
    {
      if insn % 4 == 0 {
        if imaskp >= |sec| {
          MaskTooLong(dp, insn, rlen, |sec|);
          return slots, None;
        }
        mask := sec[imaskp];
        imaskp := imaskp + 1;
      }
      slots := slots + [SlotIn(mask, insn)];
    }
    if rlen == 0 && dp > |sec| { return slots, None; }
    return slots, Some(imaskp);
  }

  lemma MaskTooLong(dp: nat, insn: nat, rlen: nat, size: nat)
    requires insn % 4 == 0 && insn < rlen && dp + CeilDiv4(insn) >= size
    ensures dp + CeilDiv4(rlen) > size
  {
  }

  // ----- one descriptor -----

  /** The region a descriptor opens, if it is a header. */
  function Header(e: Event): (r: Option<Carried>)
  {
    match e
    case R1(body, rlen) => Some(Carried(if body then 1 else 0, rlen))
    case R2(_, _, rlen) => Some(Carried(0, rlen))
    case R3(body, rlen) => Some(Carried(if body then 1 else 0, rlen))
    case _ => None
  }

  /** What is carried past a descriptor: R1 to R3 open a region, everything else leaves it alone. */
  function Carry(c: Carried, e: Event): (r: Carried)
    ensures c.inBody <= 1 ==> r.inBody <= 1
  {
    match Header(e) case Some(region) => region case None => c
  }

  /** unw_decode on the descriptor at dp. */
  function Decode(sec: seq<byte>, dp: nat, c: Carried): (r: Decoded)
    requires c.inBody <= 1
    ensures r.Next? ==> dp < r.dp && r.carried.inBody <= 1
  {
    if dp >= |sec| then Truncated
    else
      var code := sec[dp];
      match ShapeOf(c.inBody, code)
      case Mask =>
        var end := dp + 1 + CeilDiv4(c.rlen);
        if end > |sec| then Truncated else Next(end, c, P4(Slots(sec, dp + 1, c.rlen)))
      case Operands(bytes, lebs) =>
        var p := dp + 1 + bytes;
        if p > |sec| then Truncated
        else
          match ReadLebs(sec, p, lebs)
          case None => Truncated
          case Some((values, end)) =>
            var e := Describe(c.inBody, code, sec[dp + 1..p], values);
            Next(end, Carry(c, e), e)
  }

  // ----- the dump loop -----

  /** The descriptors from dp to end, and whether the loop reached the end. */
  function Dump(sec: seq<byte>, dp: nat, end: nat, c: Carried): (r: (seq<Event>, Carried, bool))
    requires c.inBody <= 1
    ensures r.1.inBody <= 1
    decreases end - dp
  {
    if dp >= end then ([], c, true)
    else
      match Decode(sec, dp, c)
      case Truncated => ([], c, false)
      case Next(p, c', event) =>
        var (rest, last, ok) := Dump(sec, p, end, c');
        ([event] + rest, last, ok)
  }

  /** The region opened by the latest header of a stream. */
  function Latest(events: seq<Event>, c: Carried): Carried
  {
    if events == [] then c
    else
      match Header(events[|events| - 1])
      case Some(region) => region
      case None => Latest(events[..|events| - 1], c)
  }

  lemma {:induction false} LatestPrepend(e: Event, events: seq<Event>, c: Carried)
    ensures Latest([e] + events, c) == Latest(events, if Header(e).Some? then Header(e).value else c)
  {
    hide Header;
    var all := [e] + events;
    if events == [] {
      assert all[..0] == [];
    } else {
      var m := |events| - 1;
      LatestPrepend(e, events[..m], c);
      assert all[..m + 1] == [e] + events[..m];
      assert all[m + 1] == events[m];
    }
  }

  /** In every stream in_body and unw_rlen are those of the latest region header. */
  lemma {:induction false} CarriesLatestRegion(sec: seq<byte>, dp: nat, end: nat, c: Carried)
    requires c.inBody <= 1
    ensures Dump(sec, dp, end, c).1 == Latest(Dump(sec, dp, end, c).0, c)
    decreases end - dp
  {
    if dp < end && Decode(sec, dp, c).Next? {
      var r := Decode(sec, dp, c);
      HeaderCarries(sec, dp, c);
      CarriesLatestRegion(sec, r.dp, end, r.carried);
      LatestPrepend(r.event, Dump(sec, r.dp, end, r.carried).0, c);
    }
  }

  lemma HeaderCarries(sec: seq<byte>, dp: nat, c: Carried)
    requires c.inBody <= 1 && Decode(sec, dp, c).Next?
    ensures var r := Decode(sec, dp, c);
            r.carried == if Header(r.event).Some? then Header(r.event).value else c
  {
  }

  /** What any descriptor carries on, by its code byte. */
  lemma CarriesExactly(sec: seq<byte>, dp: nat, c: Carried)
    requires c.inBody <= 1 && Decode(sec, dp, c).Next?
    ensures dp < |sec|
    ensures var code, r := sec[dp], Decode(sec, dp, c);
            && (code < 0x20 ==> r.carried == Carried(0, code))
            && (0x20 <= code < 0x40 ==> r.carried == Carried(1, code - 0x20))
            && (0x40 <= code < 0x60 ==> r.carried.inBody == 0 && ReadUnsigned(sec, dp + 2) == Got(r.carried.rlen, r.dp))
            && (0x60 <= code < 0x80 ==>
                  r.carried.inBody == (if code % 4 == 1 then 1 else 0) && ReadUnsigned(sec, dp + 1) == Got(r.carried.rlen, r.dp))
            && (code >= 0x80 ==> r.carried == c)
  {
    hide ReadUnsigned, DescribeP2P5, DescribeP7P10, DescribeB3X4;
    var code := sec[dp];
    if code >= 0x80 { LaterRowsOpenNothing(sec, dp, c); }
    else if code >= 0x40 { OneLeb(sec, if code < 0x60 then dp + 2 else dp + 1); }
  }

  lemma OneLeb(sec: seq<byte>, p: nat)
    ensures ReadLebs(sec, p, 1) == match ReadUnsigned(sec, p) case Overrun => None case Got(v, q) => Some(([v], q))
  {
    hide ReadUnsigned;
    if ReadUnsigned(sec, p).Got? {
      var r := ReadUnsigned(sec, p);
      assert ReadLebs(sec, r.next, 0) == Some(([], r.next)) && [r.value] + [] == [r.value];
    }
  }

  lemma LaterRowsOpenNothing(sec: seq<byte>, dp: nat, c: Carried)
    requires c.inBody <= 1 && Decode(sec, dp, c).Next? && sec[dp] >= 0x80
    ensures Header(Decode(sec, dp, c).event) == None
  {
    hide ReadLebs, Slots;
  }

  /** unw_rlen is static: it survives from one table entry to the next, while in_body starts at 0. */
  class Unwinder {
    var rlen: nat
    var inBody: nat

    constructor ()
      ensures rlen == 0 && inBody == 0
    {
      rlen, inBody := 0, 0;
    }

    /** unw_decode */
    method UnwDecode(sec: seq<byte>, dp: nat) returns (r: Decoded)
      requires inBody <= 1
      modifies this
      ensures r == Decode(sec, dp, old(Carried(inBody, rlen)))
      ensures r.Next? ==> Carried(inBody, rlen) == r.carried
      ensures r.Truncated? ==> Carried(inBody, rlen) == old(Carried(inBody, rlen))
    {
      if dp >= |sec| { return Truncated; }
      var code := sec[dp];
      var shape := ShapeOf(inBody, code);
      if shape.Mask? {
        var slots, next := DecodeSpillMask(sec, dp + 1, rlen);
        if next.None? { return Truncated; }
        return Next(next.value, Carried(inBody, rlen), P4(slots));
      }
      var p := dp + 1 + shape.bytes;
      if p > |sec| { return Truncated; }
      var values := DecodeLebs(sec, p, shape.lebs);
      if values.None? { return Truncated; }
      var e := Describe(inBody, code, sec[dp + 1..p], values.value.0);
      var region := Carry(Carried(inBody, rlen), e);
      inBody, rlen := region.inBody, region.rlen;
      return Next(values.value.1, region, e);
    }

    /** One table entry of dump_ia64_unwind. */
    method DumpEntry(sec: seq<byte>, start: nat, end: nat) returns (events: seq<Event>, ok: bool)
      modifies this
      ensures (events, Carried(inBody, rlen), ok) == Dump(sec, start, end, Carried(0, old(rlen)))
    {
      inBody := 0;
      events := [];
      var dp := start;
      assert events + Dump(sec, dp, end, Carried(inBody, rlen)).0 == Dump(sec, dp, end, Carried(inBody, rlen)).0;
      while dp < end
        invariant inBody <= 1
        invariant var (rest, last, done) := Dump(sec, dp, end, Carried(inBody, rlen));
                  Dump(sec, start, end, Carried(0, old(rlen))) == (events + rest, last, done)
        decreases end - dp
      {
        var r := UnwDecode(sec, dp);
        if r.Truncated? {
          assert events + [] == events;
          return events, false;
        }
        ghost var rest := Dump(sec, r.dp, end, r.carried).0;
        assert events + ([r.event] + rest) == events + [r.event] + rest;
        events := events + [r.event];
        dp := r.dp;
      }
      assert events + [] == events;
      return events, true;
    }
  }

  // ----- encoding a stream -----

  function SlotOr0(slots: seq<nat>, i: nat): (s: nat)
    requires forall j :: 0 <= j < |slots| ==> slots[j] < 4
    ensures s < 4
  {
    if i < |slots| then slots[i] else 0
  }

  function PackByte(s0: nat, s1: nat, s2: nat, s3: nat): byte
    requires s0 < 4 && s1 < 4 && s2 < 4 && s3 < 4
  {
    64 * s0 + 16 * s1 + 4 * s2 + s3
  }

  lemma SlotsOfByte(s0: nat, s1: nat, s2: nat, s3: nat, n: nat)
    requires s0 < 4 && s1 < 4 && s2 < 4 && s3 < 4
    ensures SlotIn(PackByte(s0, s1, s2, s3), n) ==
            if n % 4 == 0 then s0 else if n % 4 == 1 then s1 else if n % 4 == 2 then s2 else s3
  {
    var b := PackByte(s0, s1, s2, s3);
    DivModUnique(b, 64, s0, 16 * s1 + 4 * s2 + s3);
    DivModUnique(b, 16, 4 * s0 + s1, 4 * s2 + s3);
    DivModUnique(b, 4, 16 * s0 + 4 * s1 + s2, s3);
    DivModUnique(4 * s0 + s1, 4, s0, s1);
    DivModUnique(16 * s0 + 4 * s1 + s2, 4, 4 * s0 + s1, s2);
  }

  function PackSlots(slots: seq<nat>): (bs: seq<byte>)
    requires forall j :: 0 <= j < |slots| ==> slots[j] < 4
    ensures |bs| == CeilDiv4(|slots|)
  {
    seq(CeilDiv4(|slots|), k requires 0 <= k =>
      PackByte(SlotOr0(slots, 4 * k), SlotOr0(slots, 4 * k + 1), SlotOr0(slots, 4 * k + 2), SlotOr0(slots, 4 * k + 3)))
  }

  function EncodeLebs(values: seq<nat>): seq<byte>
  {
    if values == [] then [] else EncodeUnsigned(values[0]) + EncodeLebs(values[1..])
  }

  /** What can be encoded while c is carried: region headers and X descriptors everywhere, P descriptors in a
      prologue and B descriptors in a body, with fields of their widths; a P4 has one slot for each instruction
      of its region. */
  predicate Suits(c: Carried, e: Event)
  {
    c.inBody <= 1 &&
    match e
    case R1(_, rlen) => rlen < 32
    case R2(mask, grsave, rlen) => mask < 16 && grsave < 128 && rlen < TWO_64
    case R3(_, rlen) => rlen < TWO_64
    case P1(brmask) => c.inBody == 0 && brmask < 32
    case P2(brmask, gr) => c.inBody == 0 && brmask < 32 && gr < 128
    case P3(r, dst) => c.inBody == 0 && r < 16 && dst < 128
    case P4(slots) => c.inBody == 0 && |slots| == c.rlen && forall j :: 0 <= j < |slots| ==> slots[j] < 4
    case P5(grmask, frmask) => c.inBody == 0 && grmask < 16 && frmask < 0x10_0000
    case P6(_, mask) => c.inBody == 0 && mask < 16
    case P7(r, t) => c.inBody == 0 && 0 < r < 16 && t < TWO_64
    case P7Frame(t, size) => c.inBody == 0 && t < TWO_64 && size < TWO_64
    case P8(r, t) => c.inBody == 0 && r < 256 && t < TWO_64
    case P9(grmask, gr) => c.inBody == 0 && grmask < 16 && gr < 128
    case P10(abi, context) => c.inBody == 0 && abi < 256 && context < 256
    case B1(_, lab) => c.inBody == 1 && lab < 32
    case B2(ecount, t) => c.inBody == 1 && ecount < 32 && t < TWO_64
    case B3(t, ecount) => c.inBody == 1 && t < TWO_64 && ecount < TWO_64
    case B4(_, lab) => c.inBody == 1 && lab < TWO_64
    case X1(_, abreg, t, off) => abreg < 128 && t < TWO_64 && off < TWO_64
    case X2(x, abreg, ytreg, t) => x < 2 && abreg < 128 && ytreg < 256 && t < TWO_64
    case X3(_, qp, abreg, t, off) => qp < 64 && abreg < 128 && t < TWO_64 && off < TWO_64
    case X4(qp, x, abreg, ytreg, t) => qp < 64 && x < 2 && abreg < 128 && ytreg < 256 && t < TWO_64
    case Bad(_) => false
  }

  function Bit(b: bool): nat { if b then 1 else 0 }

  /** The plain bytes of a format, the code byte first, and the ULEB128 values after them (the bit layouts of the
      IA-64 unwind descriptor formats). */
  function Layout(c: Carried, e: Event): (seq<byte>, seq<nat>)
    requires Suits(c, e) && !e.P4?
  {
    match e
    case R1(body, rlen) => ([0x20 * Bit(body) + rlen], [])
    case R2(mask, grsave, rlen) => ([0x40 + mask / 2, 0x80 * (mask % 2) + grsave], [rlen])
    case R3(body, rlen) => ([0x60 + Bit(body)], [rlen])
    case P1(brmask) => ([0x80 + brmask], [])
    case P2(brmask, gr) => ([0xa0 + brmask / 2, 0x80 * (brmask % 2) + gr], [])
    case P3(r, dst) => ([0xb0 + r / 2, 0x80 * (r % 2) + dst], [])
    case P5(grmask, frmask) => ([0xb9, 0x10 * grmask + frmask / 0x1_0000, frmask / 256 % 256, frmask % 256], [])
    case P6(gregs, mask) => ([0xc0 + 0x10 * Bit(gregs) + mask], [])
    case P7(r, t) => ([0xe0 + r], [t])
    case P7Frame(t, size) => ([0xe0], [t, size])
    case P8(r, t) => ([0xf0, r], [t])
    case P9(grmask, gr) => ([0xf1, grmask, gr], [])
    case P10(abi, context) => ([0xff, abi, context], [])
    case B1(copy, lab) => ([0x80 + 0x20 * Bit(copy) + lab], [])
    case B2(ecount, t) => ([0xc0 + ecount], [t])
    case B3(t, ecount) => ([0xe0], [t, ecount])
    case B4(copy, lab) => ([0xf0 + 8 * Bit(copy)], [lab])
    case X1(sprel, abreg, t, off) => ([0xf9, 0x80 * Bit(sprel) + abreg], [t, off])
    case X2(x, abreg, ytreg, t) => ([0xfa, 0x80 * x + abreg, ytreg], [t])
    case X3(sprel, qp, abreg, t, off) => ([0xfb, 0x80 * Bit(sprel) + qp, abreg], [t, off])
    case X4(qp, x, abreg, ytreg, t) => ([0xfc, qp, 0x80 * x + abreg, ytreg], [t])
  }

  function EncodeEvent(c: Carried, e: Event): (bs: seq<byte>)
    requires Suits(c, e)
    ensures bs != []
  {
    if e.P4? then [0xb8] + PackSlots(e.slots)
    else
      var (bytes, values) := Layout(c, e);
      bytes + EncodeLebs(values)
  }

  predicate AllSuit(c: Carried, events: seq<Event>)
    decreases |events|
  {
    events == [] || (Suits(c, events[0]) && AllSuit(Carry(c, events[0]), events[1..]))
  }

  function EncodeStream(c: Carried, events: seq<Event>): seq<byte>
    requires AllSuit(c, events)
    decreases |events|
  {
    if events == [] then [] else EncodeEvent(c, events[0]) + EncodeStream(Carry(c, events[0]), events[1..])
  }

  lemma SlotRoundTrip(sec: seq<byte>, p: nat, slots: seq<nat>, n: nat)
    requires forall j :: 0 <= j < |slots| ==> slots[j] < 4
    requires At(sec, p, PackSlots(slots)) && n < |slots|
    ensures SlotIn(sec[p + n / 4], n) == slots[n]
  {
    hide SlotIn, PackByte;
    var k := n / 4;
    var bs := PackSlots(slots);
    assert sec[p + k] == sec[p..p + |bs|][k] == bs[k];
    SlotsOfByte(SlotOr0(slots, 4 * k), SlotOr0(slots, 4 * k + 1), SlotOr0(slots, 4 * k + 2), SlotOr0(slots, 4 * k + 3), n);
    assert n == 4 * k + n % 4;
  }

  /** A packed mask unpacks to its slots. */
  lemma SlotsRoundTrip(sec: seq<byte>, p: nat, slots: seq<nat>)
    requires forall j :: 0 <= j < |slots| ==> slots[j] < 4
    requires At(sec, p, PackSlots(slots))
    ensures p + CeilDiv4(|slots|) <= |sec| && Slots(sec, p, |slots|) == slots
  {
    forall n | 0 <= n < |slots| ensures SlotIn(sec[p + n / 4], n) == slots[n] {
      SlotRoundTrip(sec, p, slots, n);
    }
  }

  lemma {:induction false} LebsRoundTrip(sec: seq<byte>, p: nat, values: seq<nat>)
    requires forall j :: 0 <= j < |values| ==> values[j] < TWO_64
    requires At(sec, p, EncodeLebs(values))
    ensures ReadLebs(sec, p, |values|) == Some((values, p + |EncodeLebs(values)|))
    decreases |values|
  {
    hide At, EncodeUnsigned, ReadUnsigned;
    if values != [] {
      var code, rest := EncodeUnsigned(values[0]), EncodeLebs(values[1..]);
      AtSplit(sec, p, code, rest);
      UnsignedRoundTrip(sec, p, values[0]);
      LebsRoundTrip(sec, p + |code|, values[1..]);
      assert [values[0]] + values[1..] == values;
    }
  }

  /** A layout decodes to its fields. */
  predicate Fitting(c: Carried, e: Event)
    requires Suits(c, e) && !e.P4?
  {
    var (bytes, values) := Layout(c, e);
    && (forall j :: 0 <= j < |values| ==> values[j] < TWO_64)
    && bytes != [] && ShapeOf(c.inBody, bytes[0]) == Operands(|bytes| - 1, |values|)
    && Describe(c.inBody, bytes[0], bytes[1..], values) == e
  }

  lemma FittingR(c: Carried, e: Event)
    requires Suits(c, e) && (e.R1? || e.R3?)
    ensures Fitting(c, e)
  {
  }

  lemma FittingR2(c: Carried, e: Event)
    requires Suits(c, e) && e.R2?
    ensures Fitting(c, e)
  {
    DivModUnique(0x80 * (e.mask % 2) + e.grsave, 0x80, e.mask % 2, e.grsave);
  }

  lemma FittingOneByte(c: Carried, e: Event)
    requires Suits(c, e) && (e.P1? || e.P6? || e.B1? || e.B2?)
    ensures Fitting(c, e)
  {
  }

  lemma FittingP2(c: Carried, e: Event)
    requires Suits(c, e) && (e.P2?)
    ensures Fitting(c, e)
  {
  }

  lemma FittingP3(c: Carried, e: Event)
    requires Suits(c, e) && (e.P3?)
    ensures Fitting(c, e)
  {
  }

  lemma FittingP5(c: Carried, e: Event)
    requires Suits(c, e) && e.P5?
    ensures Fitting(c, e)
  {
    hide Frmask;
    ThreeBytes(e.grmask, e.frmask);
  }

  lemma ThreeBytes(g: nat, v: nat)
    requires g < 16 && v < 0x10_0000
    ensures var b := 0x10 * g + v / 0x1_0000; 0 <= b < 256 && b / 16 == g && Frmask(b, v / 256 % 256, v % 256) == v
  {
    var h := v / 0x1_0000;
    DivModUnique(0x10 * g + h, 16, g, h);
  }

  lemma FittingP7P10(c: Carried, e: Event)
    requires Suits(c, e) && (e.P7? || e.P7Frame? || e.P8? || e.P9? || e.P10?)
    ensures Fitting(c, e)
  {
  }

  lemma FittingB(c: Carried, e: Event)
    requires Suits(c, e) && (e.B3? || e.B4?)
    ensures Fitting(c, e)
  {
  }

  lemma FittingX1X2(c: Carried, e: Event)
    requires Suits(c, e) && (e.X1? || e.X2?)
    ensures Fitting(c, e)
  {
  }

  lemma FittingX3X4(c: Carried, e: Event)
    requires Suits(c, e) && (e.X3? || e.X4?)
    ensures Fitting(c, e)
  {
  }

  lemma EveryFormatFits(c: Carried, e: Event)
    requires Suits(c, e) && !e.P4?
    ensures Fitting(c, e)
  {
    hide Suits, Fitting;
    if e.P2? { FittingP2(c, e); }
    else if e.P3? { FittingP3(c, e); }
    else if e.P5? { FittingP5(c, e); }
    else if e.P7? || e.P7Frame? || e.P8? || e.P9? || e.P10? { FittingP7P10(c, e); }
    else if e.B3? || e.B4? { FittingB(c, e); }
    else if e.X1? || e.X2? { FittingX1X2(c, e); }
    else if e.X3? || e.X4? { FittingX3X4(c, e); }
    else if e.R1? || e.R3? { FittingR(c, e); }
    else if e.R2? { FittingR2(c, e); }
    else { NotBad(c, e); FittingOneByte(c, e); }
  }

  lemma NotBad(c: Carried, e: Event)
    requires Suits(c, e)
    ensures !e.Bad?
  {
  }

  /** The codes no format has: 0xba to 0xbf, 0xf2 to 0xf8, 0xfd and 0xfe in a prologue, and those from 0xf0 on
      with low bits 5 to 7 in a body. */
  predicate NoFormat(inBody: nat, code: byte)
  {
    if inBody == 0 then 0xba <= code <= 0xbf || 0xf2 <= code <= 0xf8 || code == 0xfd || code == 0xfe
    else 0xf5 <= code <= 0xf7 || code >= 0xfd
  }

  /** They are reported, and one byte is skipped. */
  lemma BadCodes(sec: seq<byte>, dp: nat, c: Carried)
    requires c.inBody <= 1 && dp < |sec| && NoFormat(c.inBody, sec[dp])
    ensures Decode(sec, dp, c) == Next(dp + 1, c, Bad(sec[dp]))
  {
    assert ReadLebs(sec, dp + 1, 0) == Some(([], dp + 1));
  }

  /** The code with the bits its format ignores as the layouts have them. */
  function Usual(inBody: nat, code: byte): byte
  {
    if 0x40 <= code < 0x60 then 0x40 + code % 8
    else if 0x60 <= code < 0x80 then (if code % 4 == 1 then 0x61 else 0x60)
    else if inBody == 1 && 0xe0 <= code < 0xf0 then 0xe0
    else if inBody == 1 && 0xf1 <= code <= 0xf4 then code + 8
    else code
  }

  /** Ignored bits change nothing; so every code byte that has a format is decoded as a layout is. */
  lemma IgnoredBits(inBody: nat, code: byte, bs: seq<byte>, vs: seq<nat>)
    requires inBody <= 1
    ensures ShapeOf(inBody, code) == ShapeOf(inBody, Usual(inBody, code))
    ensures ShapeOf(inBody, code) == Operands(|bs|, |vs|) ==>
              Describe(inBody, code, bs, vs) == Describe(inBody, Usual(inBody, code), bs, vs)
  {
  }

  lemma PlainRoundTrip(sec: seq<byte>, p: nat, c: Carried, e: Event)
    requires Suits(c, e) && !e.P4? && At(sec, p, EncodeEvent(c, e))
    ensures Decode(sec, p, c) == Next(p + |EncodeEvent(c, e)|, Carry(c, e), e)
  {
    hide EncodeLebs, ReadLebs, ShapeOf, Carry, Describe, Layout, Suits;
    EveryFormatFits(c, e);
    var (bytes, values) := Layout(c, e);
    AtSplit(sec, p, bytes, EncodeLebs(values));
    assert sec[p..p + |bytes|] == bytes;
    assert sec[p] == bytes[0] && sec[p + 1..p + |bytes|] == bytes[1..];
    LebsRoundTrip(sec, p + |bytes|, values);
  }

  lemma MaskRoundTrip(sec: seq<byte>, p: nat, c: Carried, e: Event)
    requires Suits(c, e) && e.P4? && At(sec, p, EncodeEvent(c, e))
    ensures Decode(sec, p, c) == Next(p + |EncodeEvent(c, e)|, Carry(c, e), e)
  {
    hide Slots, PackSlots;
    AtSplit(sec, p, [0xb8], PackSlots(e.slots));
    AtByte(sec, p, 0xb8);
    SlotsRoundTrip(sec, p + 1, e.slots);
  }

  /** A region header, in either mode, is decoded as what it is and carries exactly its body flag and length. */
  lemma HeaderRoundTrip(sec: seq<byte>, p: nat, c: Carried, body: bool, rlen: nat, mask: nat, grsave: nat)
    requires c.inBody <= 1 && rlen < TWO_64 && mask < 16 && grsave < 128
    ensures rlen < 32 && At(sec, p, [(if body then 0x20 else 0) + rlen]) ==>
              Decode(sec, p, c) == Next(p + 1, Carried(if body then 1 else 0, rlen), R1(body, rlen))
    ensures At(sec, p, [0x40 + mask / 2, 0x80 * (mask % 2) + grsave] + EncodeUnsigned(rlen)) ==>
              Decode(sec, p, c) == Next(p + 2 + |EncodeUnsigned(rlen)|, Carried(0, rlen), R2(mask, grsave, rlen))
    ensures At(sec, p, [if body then 0x61 else 0x60] + EncodeUnsigned(rlen)) ==>
              Decode(sec, p, c) == Next(p + 1 + |EncodeUnsigned(rlen)|, Carried(if body then 1 else 0, rlen), R3(body, rlen))
  {
    hide Decode, At, EncodeUnsigned;
    NoLebs(rlen);
    var r1, r2, r3 := R1(body, rlen), R2(mask, grsave, rlen), R3(body, rlen);
    if rlen < 32 && At(sec, p, [(if body then 0x20 else 0) + rlen]) {
      assert [0x20 * Bit(body) + rlen] + [] == [(if body then 0x20 else 0) + rlen];
      PlainRoundTrip(sec, p, c, r1);
    }
    if At(sec, p, [0x40 + mask / 2, 0x80 * (mask % 2) + grsave] + EncodeUnsigned(rlen)) {
      PlainRoundTrip(sec, p, c, r2);
    }
    if At(sec, p, [if body then 0x61 else 0x60] + EncodeUnsigned(rlen)) {
      assert EncodeEvent(c, r3) == [if body then 0x61 else 0x60] + EncodeUnsigned(rlen);
      PlainRoundTrip(sec, p, c, r3);
    }
  }

  lemma NoLebs(v: nat)
    ensures EncodeLebs([]) == [] && EncodeLebs([v]) == EncodeUnsigned(v)
  {
    assert [v][1..] == [];
    assert EncodeUnsigned(v) + [] == EncodeUnsigned(v);
  }

  /** Every stream of descriptors, each meant for the region it stands in, is read back whole: the mode and
      the region length carried by the decoder are at every step the ones the descriptors were written for. */
  lemma {:induction false} StreamRoundTrip(sec: seq<byte>, p: nat, c: Carried, events: seq<Event>)
    requires c.inBody <= 1 && AllSuit(c, events) && At(sec, p, EncodeStream(c, events))
    ensures Dump(sec, p, p + |EncodeStream(c, events)|, c) == (events, Latest(events, c), true)
    decreases |events|
  {
    hide At, EncodeEvent, Decode, Carry;
    var end := p + |EncodeStream(c, events)|;
    if events != [] {
      var e, rest := events[0], events[1..];
      var code := EncodeEvent(c, e);
      var c' := Carry(c, e);
      AtSplit(sec, p, code, EncodeStream(c', rest));
      if e.P4? { MaskRoundTrip(sec, p, c, e); } else { PlainRoundTrip(sec, p, c, e); }
      StreamRoundTrip(sec, p + |code|, c', rest);
      assert [e] + rest == events;
    }
    CarriesLatestRegion(sec, p, end, c);
  }
}
