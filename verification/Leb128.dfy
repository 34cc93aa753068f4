/** The three LEB128 readers of readelf-mini: read_leb128 (dwarf.c), read_uleb128 (readelf-mini.c)
    and unw_decode_uleb128 (unwind-ia64.c), proved against the number a group string denotes
    (section 7.6 of DWARF 3), and against the canonical encoders.

    A reader that runs off the end of the data answers Overrun. */
module Leb128 {
  import opened Machine

  datatype Read = Overrun | Got(value: nat, next: nat)

  // ----- what a group string denotes -----

  /** Seven bits a byte, least significant group first, with no bound on the width. */
  function Unsigned(bs: seq<byte>): nat
  {
    if bs == [] then 0 else bs[0] % 128 + 128 * Unsigned(bs[1..])
  }

  /** The same in two's complement: bit 6 of the last byte is the sign. */
  function Signed(bs: seq<byte>): int
  {
    if bs != [] && bs[|bs| - 1] % 128 >= 64 then Unsigned(bs) - Pow2(7 * |bs|) else Unsigned(bs)
  }

  /** Every byte but the last has its continuation bit set. */
  predicate Terminated(bs: seq<byte>)
  {
    bs != [] && bs[|bs| - 1] < 128 && forall i :: 0 <= i < |bs| - 1 ==> bs[i] >= 128
  }

  /** One past the group string that starts at pos. */
  function End(data: seq<byte>, pos: int): (e: Option<nat>)
    ensures e.Some? ==> 0 <= pos < e.value <= |data| && Terminated(data[pos..e.value])
    ensures e.None? && 0 <= pos ==> forall i :: pos <= i < |data| ==> data[i] >= 128
    decreases |data| - pos
  {
    if pos < 0 || pos >= |data| then None
    else if data[pos] < 128 then Some(pos + 1)
    else End(data, pos + 1)
  }

  function ReadUnsigned(data: seq<byte>, pos: int): (r: Read)
    ensures r.Got? ==> 0 <= pos < r.next <= |data| && r.value < TWO_64
  {
    match End(data, pos)
    case None => Overrun
    case Some(e) => Got(Unsigned(data[pos..e]) % TWO_64, e)
  }

  /** The value is the signed number's image in an unsigned long. */
  function ReadSigned(data: seq<byte>, pos: int): (r: Read)
    ensures r.Got? ==> 0 <= pos < r.next <= |data| && r.value < TWO_64
  {
    match End(data, pos)
    case None => Overrun
    case Some(e) => Got(Signed(data[pos..e]) % TWO_64, e)
  }

  /** The terminator fixes the end: a terminated prefix is exactly what is read. */
  lemma {:induction false} EndOf(data: seq<byte>, pos: nat, e: nat)
    requires pos < e <= |data| && Terminated(data[pos..e])
    ensures End(data, pos) == Some(e)
    decreases e - pos
  {
    var bs := data[pos..e];
    if e > pos + 1 {
      assert bs[0] >= 128;
      assert data[pos + 1..e] == bs[1..];
      EndOf(data, pos + 1, e);
    } else {
      assert bs[|bs| - 1] == data[pos];
    }
  }

  // ----- facts about the denotation -----

  lemma {:induction false} UnsignedAppend(bs: seq<byte>, b: byte)
    ensures Unsigned(bs + [b]) == Unsigned(bs) + b % 128 * Pow2(7 * |bs|)
    ensures Unsigned(bs) < Pow2(7 * |bs|)
  {
    if bs == [] {
      assert [b][1..] == [];
    } else {
      UnsignedAppend(bs[1..], b);
      assert (bs + [b])[1..] == bs[1..] + [b];
      Pow2Known();
      Pow2Add(7, 7 * (|bs| - 1));
      MulAssociative(128, b % 128, Pow2(7 * (|bs| - 1)));
      MulAssociative(b % 128, 128, Pow2(7 * (|bs| - 1)));
      Distribute(128, Unsigned(bs[1..]), b % 128 * Pow2(7 * (|bs| - 1)));
    }
  }

  /** Or-ing a group into an accumulator of w bits, with the bits past the width lost. */
  lemma OrGroup(u: nat, g: nat, shift: nat, w: nat)
    requires u < Pow2(shift)
    ensures BitOr(u % Pow2(w), ShiftLeft(g, shift) % Pow2(w)) == (u + g * Pow2(shift)) % Pow2(w)
  {
    ShiftLeftIsProduct(g, shift);
    if shift >= w { OrGroupLost(u, g, shift, w); } else { OrGroupKept(u, g, shift, w); }
  }

  lemma OrGroupLost(u: nat, g: nat, shift: nat, w: nat)
    requires shift >= w
    ensures BitOr(u % Pow2(w), g * Pow2(shift) % Pow2(w)) == (u + g * Pow2(shift)) % Pow2(w)
  {
    var m, x := Pow2(w), Pow2(shift - w) * g;
    Pow2Add(w, shift - w);
    assert g * Pow2(shift) == m * x by { MulAssociative(m, Pow2(shift - w), g); }
    AddMultiple(0, m, x);
    AddMultiple(u, m, x);
    SmallMod(0, m);
    OrRight(u % m);
  }

  lemma OrGroupKept(u: nat, g: nat, shift: nat, w: nat)
    requires u < Pow2(shift) && shift < w
    ensures BitOr(u % Pow2(w), g * Pow2(shift) % Pow2(w)) == (u + g * Pow2(shift)) % Pow2(w)
  {
    var m, s, k := Pow2(w), Pow2(shift), Pow2(w - shift);
    Pow2Add(shift, w - shift);
    Pow2Monotone(shift, w);
    SmallMod(u, m);
    var h := g % k;
    GroupSplit(s, k, g);
    assert u + h * s < m by {
      MulMonotone(s, h, k - 1);
      Distribute(s, k, -1);
    }
    AddMultiple(h * s, m, g / k);
    SmallMod(h * s, m);
    AddMultiple(u + h * s, m, g / k);
    SmallMod(u + h * s, m);
    OrDisjoint(u, h, shift);
  }

  lemma GroupSplit(s: nat, k: nat, g: nat)
    requires k > 0
    ensures g * s == (s * k) * (g / k) + g % k * s
  {
    calc {
      g * s;
      s * (k * (g / k) + g % k);
      { Distribute(s, k * (g / k), g % k); }
      s * (k * (g / k)) + s * (g % k);
      { MulAssociative(s, k, g / k); }
      (s * k) * (g / k) + g % k * s;
    }
  }

  /** One round of a reader's loop, for either accumulator width. */
  lemma GroupRead(data: seq<byte>, pos: nat, p: nat)
    requires pos <= p < |data|
    ensures BitOr(Unsigned(data[pos..p]) % TWO_64, ShiftLeft(data[p] % 128, 7 * (p - pos)) % TWO_64)
            == Unsigned(data[pos..p + 1]) % TWO_64
    ensures BitOr(Unsigned(data[pos..p]) % TWO_32, ShiftLeft(data[p] % 128, 7 * (p - pos)) % TWO_32)
            == Unsigned(data[pos..p + 1]) % TWO_32
  {
    UnsignedAppend(data[pos..p], data[p]);
    Pow2Known();
    OrGroup(Unsigned(data[pos..p]), data[p] % 128, 7 * (p - pos), 64);
    OrGroup(Unsigned(data[pos..p]), data[p] % 128, 7 * (p - pos), 32);
    assert data[pos..p] + [data[p]] == data[pos..p + 1];
  }

  lemma {:induction false} OrRight(a: nat)
    ensures BitOr(a, 0) == a
  {
    if a > 0 { OrRight(a / 2); }
  }

  /** Or-ing in -1 << shift sign-extends: the result is u - 2^shift modulo 2^64. */
  lemma OrSign(u: nat, shift: nat)
    requires u < Pow2(shift) && shift < 64
    ensures BitOr(u % TWO_64, (0 - Pow2(shift)) % TWO_64) == (u - Pow2(shift)) % TWO_64
  {
    var s: int, k: int := Pow2(shift), Pow2(64 - shift);
    assert TWO_64 == s * k by { Pow2Known(); Pow2Add(shift, 64 - shift); }
    Pow2Monotone(1, 64 - shift);
    SignArithmetic(u, s, k, TWO_64);
    OrDisjoint(u, k - 1, shift);
  }

  lemma SignArithmetic(u: int, s: int, k: int, m: int)
    requires 0 <= u < s && 2 <= k && m == s * k
    ensures u % m == u && (0 - s) % m == (k - 1) * s && (u - s) % m == u + (k - 1) * s
  {
    MulMonotone(s, 2, k);
    Distribute(s, k, -1);
    SmallMod(u, m);
    NegativeMod(0 - s, m);
    NegativeMod(u - s, m);
  }

  /** Past the 64-bit width the sign correction vanishes modulo 2^64. */
  lemma SignPastWidth(u: nat, n: nat)
    requires 7 * n >= 64
    ensures (u - Pow2(7 * n)) % TWO_64 == u % TWO_64
  {
    var k: int := Pow2(7 * n - 64);
    Pow2Known();
    Pow2Add(64, 7 * n - 64);
    AddMultiple(u, TWO_64, 0 - k);
  }

  /** What the final or of read_leb128 makes of the unsigned value. */
  lemma SignExtended(bs: seq<byte>, shift: nat)
    requires bs != [] && shift == 7 * |bs|
    ensures shift < 64 && bs[|bs| - 1] % 128 >= 64
            ==> BitOr(Unsigned(bs) % TWO_64, (0 - Pow2(shift)) % TWO_64) == Signed(bs) % TWO_64
    ensures !(shift < 64 && bs[|bs| - 1] % 128 >= 64) ==> Signed(bs) % TWO_64 == Unsigned(bs) % TWO_64
  {
    if shift < 64 {
      UnsignedAppend(bs, 0);
      OrSign(Unsigned(bs), shift);
    } else {
      SignPastWidth(Unsigned(bs), |bs|);
    }
  }

  // ----- the readers -----

  /** read_leb128 (dwarf.c): an unsigned long accumulator, sign extension when asked. */
  method ReadLeb128(data: seq<byte>, pos: nat, sign: bool) returns (r: Read)
    requires pos <= |data|
    ensures r == if sign then ReadSigned(data, pos) else ReadUnsigned(data, pos)
  {
    hide BitOr, ShiftLeft, Pow2, Signed;
    var result: nat, shift: nat, p := 0, 0, pos;
    var more := true;
    var b: byte := 0;
    while more
      invariant pos <= p <= |data|
      invariant more ==> End(data, pos) == End(data, p)
      invariant !more ==> End(data, pos) == Some(p) && b == data[p - 1]
      invariant shift == 7 * (p - pos)
      invariant result == Unsigned(data[pos..p]) % TWO_64
      decreases |data| - p, more
    {
      if p == |data| { return Overrun; }
      b := data[p];
      GroupRead(data, pos, p);
      result := BitOr(result, ShiftLeft(b % 128, shift) % TWO_64);
      shift := shift + 7;
      p := p + 1;
      more := b >= 128;
    }
    ghost var bs := data[pos..p];
    assert bs[|bs| - 1] == b;
    SignExtended(bs, shift);
    if sign && shift < 64 && b % 128 >= 64 {
      result := BitOr(result, (0 - Pow2(shift)) % TWO_64);
    }
    return Got(result, p);
  }

  /** read_uleb128 (readelf-mini.c): the accumulator is an unsigned int. */
  method ReadUleb128(data: seq<byte>, pos: nat) returns (val: nat, len: nat, overrun: bool)
    requires pos <= |data|
    ensures overrun <==> End(data, pos).None?
    ensures !overrun ==> End(data, pos) == Some(pos + len) && val == Unsigned(data[pos..pos + len]) % TWO_32
  {
    hide BitOr, ShiftLeft, Pow2;
    var shift: nat, p := 0, pos;
    val, len, overrun := 0, 0, false;
    var more := true;
    while more
      invariant pos <= p <= |data| && len == p - pos && shift == 7 * (p - pos)
      invariant more ==> End(data, pos) == End(data, p)
      invariant !more ==> End(data, pos) == Some(p)
      invariant val == Unsigned(data[pos..p]) % TWO_32
      decreases |data| - p, more
    {
      if p == |data| { overrun := true; return; }
      var c := data[p];
      GroupRead(data, pos, p);
      p := p + 1;
      len := len + 1;
      val := BitOr(val, ShiftLeft(c % 128, shift) % TWO_32);
      shift := shift + 7;
      more := c >= 128;
    }
  }

  /** unw_decode_uleb128 (unwind-ia64.c): the test for the last byte precedes the shift step. */
  method UnwDecodeUleb128(data: seq<byte>, pos: nat) returns (r: Read)
    requires pos <= |data|
    ensures r == ReadUnsigned(data, pos)
  {
    var result: nat, shift: nat, bp := 0, 0, pos;
    while true
      invariant pos <= bp <= |data|
      invariant End(data, pos) == End(data, bp)
      invariant shift == 7 * (bp - pos)
      invariant result == Unsigned(data[pos..bp]) % TWO_64
      decreases |data| - bp
    {
      if bp == |data| { return Overrun; }
      var b := data[bp];
      GroupRead(data, pos, bp);
      bp := bp + 1;
      result := BitOr(result, ShiftLeft(b % 128, shift) % TWO_64);
      if b < 128 { return Got(result, bp); }
      shift := shift + 7;
    }
  }

  // ----- the canonical encoders -----

  function EncodeUnsigned(v: nat): (bs: seq<byte>)
    ensures Terminated(bs) && Unsigned(bs) == v
  {
    if v < 128 then [v]
    else
      var rest := EncodeUnsigned(v / 128);
      var bs := [v % 128 + 128] + rest;
      assert bs[1..] == rest;
      bs
  }

  function EncodeSigned(v: int): (bs: seq<byte>)
    ensures Terminated(bs)
    decreases if v < 0 then -v else v
  {
    if -64 <= v < 64 then [v % 128] else [v % 128 + 128] + EncodeSigned(v / 128)
  }

  lemma {:induction false} SignedOfEncoding(v: int)
    ensures Signed(EncodeSigned(v)) == v
    decreases if v < 0 then -v else v
  {
    if -64 <= v < 64 {
      SignedOne(v % 128);
    } else {
      SignedOfEncoding(v / 128);
      SignedCons(v % 128 + 128, EncodeSigned(v / 128));
    }
  }

  lemma SignedOne(b: byte)
    requires b < 128
    ensures Signed([b]) == if b < 64 then b else b - 128
  {
    assert [b][1..] == [];
    assert Unsigned([b]) == b;
    assert Pow2(7 * |[b]|) == Pow2(7);
    Pow2Known();
  }

  lemma SignedCons(b: byte, rest: seq<byte>)
    requires rest != []
    ensures Signed([b] + rest) == b % 128 + 128 * Signed(rest)
  {
    var bs := [b] + rest;
    assert bs[1..] == rest;
    assert bs[|bs| - 1] == rest[|rest| - 1];
    Pow2Known();
    Pow2Add(7, 7 * |rest|);
  }

  /** No group string for v is shorter than the canonical one. */
  lemma {:induction false} CanonicalIsShortest(v: nat, bs: seq<byte>)
    requires bs != [] && Unsigned(bs) == v
    ensures |EncodeUnsigned(v)| <= |bs|
  {
    if v >= 128 {
      assert Unsigned(bs[1..]) == v / 128 by { DivModUnique(v, 128, Unsigned(bs[1..]), bs[0] % 128); }
      CanonicalIsShortest(v / 128, bs[1..]);
    }
  }

  /** Decoding the canonical encoding of any 64-bit value, wherever it lies in the data, returns
      that value and the position just past the encoding. */
  lemma UnsignedRoundTrip(data: seq<byte>, p: nat, v: nat)
    requires v < TWO_64 && At(data, p, EncodeUnsigned(v))
    ensures ReadUnsigned(data, p) == Got(v, p + |EncodeUnsigned(v)|)
  {
    EndOf(data, p, p + |EncodeUnsigned(v)|);
    SmallMod(v, TWO_64);
  }

  /** The signed reader's result, read as a signed long. */
  function AsSigned64(x: nat): int
    requires x < TWO_64
  {
    if x < TWO_64 / 2 then x else x - TWO_64
  }

  lemma SignedRoundTrip(data: seq<byte>, p: nat, v: int)
    requires -(TWO_64 / 2) <= v < TWO_64 / 2 && At(data, p, EncodeSigned(v))
    ensures var r := ReadSigned(data, p);
            r.Got? && AsSigned64(r.value) == v && r.next == p + |EncodeSigned(v)|
  {
    EndOf(data, p, p + |EncodeSigned(v)|);
    SignedOfEncoding(v);
    if v < 0 { NegativeMod(v, TWO_64); } else { SmallMod(v, TWO_64); }
  }

  /** The three readers agree on the length of every terminated string, and for strings of at most
      five bytes the unsigned int of read_uleb128 is the low half of the unsigned long of the others. */
  lemma ReadersAgree(data: seq<byte>, pos: nat)
    requires End(data, pos).Some?
    ensures var e := End(data, pos).value;
            ReadUnsigned(data, pos).next == e
            && Unsigned(data[pos..e]) % TWO_32 == ReadUnsigned(data, pos).value % TWO_32
            && (e - pos <= 5 ==> ReadUnsigned(data, pos).value == Unsigned(data[pos..e]) < Pow2(35))
  {
    var e := End(data, pos).value;
    var u := Unsigned(data[pos..e]);
    DivDivMod(u);
    if e - pos <= 5 {
      UnsignedAppend(data[pos..e], 0);
      Pow2Monotone(7 * (e - pos), 35);
      Pow2Monotone(35, 64);
      Pow2Known();
      SmallMod(u, TWO_64);
    }
  }

  lemma DivDivMod(u: nat)
    ensures u % TWO_64 % TWO_32 == u % TWO_32
  {
    AddMultiple(u % TWO_64, TWO_32, TWO_32 * (u / TWO_64));
  }
}
