/** byte_get and byte_put in both byte orders (readelf-mini/dwarf.c and readelf-mini.c).
    A field is the run of bytes a pointer points at; the host's dwarf_vma and bfd_vma have 64 bits. */
module ByteOrder {
  import opened Machine

  datatype Order = Little | Big

  predicate KnownSize(size: int) { size == 1 || size == 2 || size == 3 || size == 4 || size == 8 }

  /** The reference meaning of a field: its bytes as one number. */
  function FieldValue(order: Order, bs: seq<byte>): nat
  {
    if order.Little? then LittleEndian(bs) else LittleEndian(Reverse(bs))
  }

  /** The reference inverse: the n bytes that hold v modulo 2^(8n). */
  function FieldBytes(order: Order, v: nat, n: nat): (bs: seq<byte>)
    ensures |bs| == n
  {
    if order.Little? then ToLittleEndian(v, n) else Reverse(ToLittleEndian(v, n))
  }

  lemma FieldRoundTrip(order: Order, v: nat, n: nat)
    ensures FieldValue(order, FieldBytes(order, v, n)) == v % Pow2(8 * n)
  {
    LittleEndianOfBytes(v, n);
    ReverseTwice(ToLittleEndian(v, n));
  }

  lemma FieldValueDetermines(order: Order, bs: seq<byte>)
    ensures FieldBytes(order, FieldValue(order, bs), |bs|) == bs
    ensures FieldValue(order, bs) < Pow2(8 * |bs|)
  {
    BytesOfLittleEndian(bs);
    BytesOfLittleEndian(Reverse(bs));
    ReverseTwice(bs);
  }

  // ----- byte_get -----

  lemma {:induction false} LittleEndianAppend(bs: seq<byte>, b: byte)
    ensures LittleEndian(bs + [b]) == LittleEndian(bs) + b * Pow2(8 * |bs|)
  {
    if bs == [] {
      assert [b][1..] == [];
    } else {
      var p := Pow2(8 * (|bs| - 1));
      LittleEndianAppend(bs[1..], b);
      assert (bs + [b])[1..] == bs[1..] + [b];
      NextByteOfPow2(|bs| - 1);
      MulAssociative(b, 256, p);
    }
  }

  /** One more byte or-ed in at its place extends the value read so far. */
  lemma OrNextByte(bs: seq<byte>, b: byte)
    ensures BitOr(LittleEndian(bs), ShiftLeft(b, 8 * |bs|)) == LittleEndian(bs + [b])
  {
    BytesOfLittleEndian(bs);
    OrDisjoint(LittleEndian(bs), b, 8 * |bs|);
    ShiftLeftIsProduct(b, 8 * |bs|);
    LittleEndianAppend(bs, b);
  }

  function Or2(b0: byte, b1: byte): nat { BitOr(b0, ShiftLeft(b1, 8)) }
  function Or3(b0: byte, b1: byte, b2: byte): nat { BitOr(Or2(b0, b1), ShiftLeft(b2, 16)) }
  function Or4(b0: byte, b1: byte, b2: byte, b3: byte): nat { BitOr(Or3(b0, b1, b2), ShiftLeft(b3, 24)) }
  function Or8(b0: byte, b1: byte, b2: byte, b3: byte, b4: byte, b5: byte, b6: byte, b7: byte): nat
  {
    BitOr(BitOr(BitOr(BitOr(Or4(b0, b1, b2, b3),
                            ShiftLeft(b4, 32)), ShiftLeft(b5, 40)), ShiftLeft(b6, 48)), ShiftLeft(b7, 56))
  }

  /** The bytes of f or-ed together, each at its place, are the value of f. */
  lemma OrIsValue(f: seq<byte>)
    ensures |f| == 1 ==> f[0] == LittleEndian(f)
    ensures |f| == 2 ==> Or2(f[0], f[1]) == LittleEndian(f)
    ensures |f| == 3 ==> Or3(f[0], f[1], f[2]) == LittleEndian(f)
    ensures |f| == 4 ==> Or4(f[0], f[1], f[2], f[3]) == LittleEndian(f)
    ensures |f| == 8 ==> Or8(f[0], f[1], f[2], f[3], f[4], f[5], f[6], f[7]) == LittleEndian(f)
  {
    assert f == f[..|f|];
    if |f| >= 1 { assert f[..1] == [] + [f[0]]; LittleEndianAppend([], f[0]); }
    if |f| >= 2 { OrNext(f, 1, f[0]); }
    if |f| >= 3 { OrNext(f, 2, Or2(f[0], f[1])); }
    if |f| >= 4 { OrNext(f, 3, Or3(f[0], f[1], f[2])); }
    if |f| == 8 { Or8IsValue(f, Or4(f[0], f[1], f[2], f[3])); }
  }

  lemma OrNext(f: seq<byte>, k: nat, acc: nat)
    requires k < |f| && acc == LittleEndian(f[..k])
    ensures BitOr(acc, ShiftLeft(f[k], 8 * k)) == LittleEndian(f[..k + 1])
  {
    OrNextByte(f[..k], f[k]);
    assert f[..k + 1] == f[..k] + [f[k]];
  }

  lemma Or8IsValue(f: seq<byte>, low: nat)
    requires |f| == 8 && low == Or4(f[0], f[1], f[2], f[3]) == LittleEndian(f[..4])
    ensures Or8(f[0], f[1], f[2], f[3], f[4], f[5], f[6], f[7]) == LittleEndian(f)
  {
    var v5 := BitOr(low, ShiftLeft(f[4], 32));
    OrNext(f, 4, low);
    var v6 := BitOr(v5, ShiftLeft(f[5], 40));
    OrNext(f, 5, v5);
    var v7 := BitOr(v6, ShiftLeft(f[6], 48));
    OrNext(f, 6, v6);
    OrNext(f, 7, v7);
    assert f == f[..8];
  }

  /** byte_get_little_endian; None is the abort for an unhandled size. */
  function ByteGetLittleEndian(f: seq<byte>, size: int): (r: Option<nat>)
    requires size <= |f|
    ensures r == if KnownSize(size) then Some(FieldValue(Little, f[..size])) else None
  {
    if size == 1 then
      OrIsValue(f[..1]);
      Some(f[0])
    else if size == 2 then
      OrIsValue(f[..2]);
      Some(Or2(f[0], f[1]))
    else if size == 3 then
      OrIsValue(f[..3]);
      Some(Or3(f[0], f[1], f[2]))
    else if size == 4 then
      OrIsValue(f[..4]);
      Some(Or4(f[0], f[1], f[2], f[3]))
    else if size == 8 then
      OrIsValue(f[..8]);
      Some(Or8(f[0], f[1], f[2], f[3], f[4], f[5], f[6], f[7]))
    else None
  }

  /** byte_get_big_endian */
  function ByteGetBigEndian(f: seq<byte>, size: int): (r: Option<nat>)
    requires size <= |f|
    ensures r == if KnownSize(size) then Some(FieldValue(Big, f[..size])) else None
  {
    if size == 1 then
      OrIsValue(Reverse(f[..1]));
      Some(f[0])
    else if size == 2 then
      OrIsValue(Reverse(f[..2]));
      Some(Or2(f[1], f[0]))
    else if size == 3 then
      OrIsValue(Reverse(f[..3]));
      Some(Or3(f[2], f[1], f[0]))
    else if size == 4 then
      OrIsValue(Reverse(f[..4]));
      Some(Or4(f[3], f[2], f[1], f[0]))
    else if size == 8 then
      OrIsValue(Reverse(f[..8]));
      Some(Or8(f[7], f[6], f[5], f[4], f[3], f[2], f[1], f[0]))
    else None
  }

  /** A call through the byte_get pointer, set by the ELF header's data encoding. */
  method ByteGet(order: Order, f: seq<byte>, size: int) returns (r: Option<nat>)
    requires size <= |f|
    ensures r == if KnownSize(size) then Some(FieldValue(order, f[..size])) else None
  {
    r := if order.Little? then ByteGetLittleEndian(f, size) else ByteGetBigEndian(f, size);
  }

  // ----- byte_put -----

  /** Byte i of v, counted from the least significant. */
  function ByteOf(v: nat, i: nat): byte { ShiftRight(v, 8 * i) % 256 }

  lemma {:induction false} ByteAt(v: nat, n: nat, i: nat)
    requires i < n
    ensures ToLittleEndian(v, n)[i] == ByteOf(v, i)
  {
    if i > 0 {
      ByteAt(v / 256, n - 1, i - 1);
      ByteOfRest(v, i - 1);
    }
  }

  lemma ByteOfRest(v: nat, i: nat)
    ensures ByteOf(v / 256, i) == ByteOf(v, i + 1)
  {
    Pow2Known();
    ShiftTwice(v, 8, 8 * i);
  }

  /** Field contents after the stores: nothing outside the field moves. */
  function PutAt(a: seq<byte>, off: nat, bs: seq<byte>): (r: seq<byte>)
    requires off + |bs| <= |a|
    ensures |r| == |a|
    ensures r[off..off + |bs|] == bs
    ensures forall i :: 0 <= i < |a| && !(off <= i < off + |bs|) ==> r[i] == a[i]
  {
    a[..off] + bs + a[off + |bs|..]
  }

  lemma PutNothing(mem: seq<byte>, off: nat)
    requires off <= |mem|
    ensures PutAt(mem, off, []) == mem
  {
  }

  lemma PutByte(mem: seq<byte>, off: nat, bs: seq<byte>, k: nat)
    requires off + |bs| <= |mem| && k < |mem|
    ensures PutAt(mem, off, bs)[k] == if off <= k < off + |bs| then bs[k - off] else mem[k]
  {
    var r := PutAt(mem, off, bs);
    if off <= k < off + |bs| { assert r[off..off + |bs|][k - off] == bs[k - off]; }
  }

  /** A buffer that holds the bytes of value in the field, and was left alone elsewhere. */
  lemma FieldStored(order: Order, before: seq<byte>, after: seq<byte>, off: nat, value: nat, size: nat)
    requires |before| == |after| && off + size <= |before|
    requires forall i {:trigger ByteOf(value, i)} :: 0 <= i < size ==>
               after[off + (if order.Little? then i else size - 1 - i)] == ByteOf(value, i)
    requires forall i :: 0 <= i < |after| && !(off <= i < off + size) ==> after[i] == before[i]
    ensures after == PutAt(before, off, FieldBytes(order, value, size))
  {
    var bs := FieldBytes(order, value, size);
    forall i | off <= i < off + size ensures after[i] == bs[i - off] {
      var k := if order.Little? then i - off else size - 1 - (i - off);
      ByteAt(value, size, k);
      assert after[off + (if order.Little? then k else size - 1 - k)] == ByteOf(value, k);
    }
    assert after[off..off + size] == bs;
    assert after == after[..off] + after[off..off + size] + after[off + size..];
    assert after[..off] == before[..off] && after[off + size..] == before[off + size..];
  }

  lemma ShiftsAsBytes(v: nat)
    ensures v % 256 == ByteOf(v, 0)
    ensures ShiftRight(v, 8) % 256 == ByteOf(v, 1)
    ensures ShiftRight(v, 16) % 256 == ByteOf(v, 2)
    ensures ShiftRight(v, 24) % 256 == ByteOf(v, 3)
    ensures ShiftRight(ShiftRight(v, 24), 8) % 256 == ByteOf(v, 4)
    ensures ShiftRight(ShiftRight(v, 24), 16) % 256 == ByteOf(v, 5)
    ensures ShiftRight(ShiftRight(v, 24), 24) % 256 == ByteOf(v, 6)
    ensures ShiftRight(ShiftRight(ShiftRight(v, 24), 24), 8) % 256 == ByteOf(v, 7)
  {
    ShiftTwice(v, 24, 8);
    ShiftTwice(v, 24, 16);
    ShiftTwice(v, 24, 24);
    ShiftTwice(v, 48, 8);
  }

  /** byte_put_little_endian: the switch falls through from the highest byte to byte 0. */
  method BytePutLittleEndian(a: array<byte>, off: nat, value: nat, size: nat) returns (ok: bool)
    requires off + size <= a.Length
    modifies a
    ensures ok == KnownSize(size)
    ensures a[..] == if ok then PutAt(old(a[..]), off, FieldBytes(Little, value, size)) else old(a[..])
  {
    if !KnownSize(size) { return false; }
    hide ByteOf, ShiftRight, FieldBytes, PutAt;
    ok := true;
    ShiftsAsBytes(value);
    if size == 8 {
      a[off + 7] := ShiftRight(ShiftRight(ShiftRight(value, 24), 24), 8) % 256;
      a[off + 6] := ShiftRight(ShiftRight(value, 24), 24) % 256;
      a[off + 5] := ShiftRight(ShiftRight(value, 24), 16) % 256;
      a[off + 4] := ShiftRight(ShiftRight(value, 24), 8) % 256;
    }
    if size == 8 || size == 4 { a[off + 3] := ShiftRight(value, 24) % 256; }
    if size >= 3 { a[off + 2] := ShiftRight(value, 16) % 256; }
    if size >= 2 { a[off + 1] := ShiftRight(value, 8) % 256; }
    a[off] := value % 256;
    FieldStored(Little, old(a[..]), a[..], off, value, size);
  }

  lemma ShiftsDown(v: nat)
    ensures v % 256 == ByteOf(v, 0)
    ensures ShiftRight(v, 8) % 256 == ByteOf(v, 1)
    ensures ShiftRight(ShiftRight(v, 8), 8) % 256 == ByteOf(v, 2)
    ensures ShiftRight(ShiftRight(ShiftRight(v, 8), 8), 8) % 256 == ByteOf(v, 3)
  {
    ShiftTwice(v, 8, 8);
    ShiftTwice(v, 16, 8);
  }

  /** The fall-through from byte n - 1 to byte 0, with value shifted down in between. */
  method PutBigTail(a: array<byte>, off: nat, value: nat, n: nat)
    requires 1 <= n <= 4 && off + n <= a.Length
    modifies a
    ensures forall i {:trigger ByteOf(value, i)} :: 0 <= i < n ==> a[off + (n - 1 - i)] == ByteOf(value, i)
    ensures forall i :: 0 <= i < a.Length && !(off <= i < off + n) ==> a[i] == old(a[i])
  {
    hide ByteOf, ShiftRight;
    ShiftsDown(value);
    var v := value;
    if n >= 4 {
      a[off + 3] := v % 256;
      v := ShiftRight(v, 8);
    }
    if n >= 3 {
      a[off + 2] := v % 256;
      v := ShiftRight(v, 8);
    }
    if n >= 2 {
      a[off + 1] := v % 256;
      v := ShiftRight(v, 8);
    }
    a[off] := v % 256;
  }

  lemma ByteOfHigh(v: nat, i: nat)
    ensures ByteOf(ShiftRight(ShiftRight(v, 16), 16), i) == ByteOf(v, i + 4)
  {
    ShiftTwice(v, 16, 16);
    ShiftTwice(v, 32, 8 * i);
  }

  /** The case of eight bytes: the low half in place, the high half through the four-byte cases. */
  method PutBigEight(a: array<byte>, off: nat, value: nat)
    requires off + 8 <= a.Length
    modifies a
    ensures forall i {:trigger ByteOf(value, i)} :: 0 <= i < 8 ==> a[off + (7 - i)] == ByteOf(value, i)
    ensures forall i :: 0 <= i < a.Length && !(off <= i < off + 8) ==> a[i] == old(a[i])
  {
    hide ByteOf, ShiftRight;
    ShiftsAsBytes(value);
    a[off + 7] := value % 256;
    a[off + 6] := ShiftRight(value, 8) % 256;
    a[off + 5] := ShiftRight(value, 16) % 256;
    a[off + 4] := ShiftRight(value, 24) % 256;
    var high := ShiftRight(ShiftRight(value, 16), 16);
    PutBigTail(a, off, high, 4);
    forall i: nat | i < 4 ensures ByteOf(high, i) == ByteOf(value, i + 4) { ByteOfHigh(value, i); }
    assert forall i {:trigger ByteOf(value, i)} :: 4 <= i < 8 ==> a[off + (7 - i)] == ByteOf(high, i - 4);
  }

  /** byte_put_big_endian: the high half of an 8-byte value goes through the 4-byte cases. */
  method BytePutBigEndian(a: array<byte>, off: nat, value: nat, size: nat) returns (ok: bool)
    requires off + size <= a.Length
    modifies a
    ensures ok == KnownSize(size)
    ensures a[..] == if ok then PutAt(old(a[..]), off, FieldBytes(Big, value, size)) else old(a[..])
  {
    if !KnownSize(size) { return false; }
    hide ByteOf, ShiftRight, FieldBytes, PutAt;
    ok := true;
    if size == 8 { PutBigEight(a, off, value); } else { PutBigTail(a, off, value, size); }
    FieldStored(Big, old(a[..]), a[..], off, value, size);
  }

  /** The byte_put pointer of the ELF header's data encoding. */
  method BytePut(order: Order, a: array<byte>, off: nat, value: nat, size: nat) returns (ok: bool)
    requires off + size <= a.Length
    modifies a
    ensures ok == KnownSize(size)
    ensures a[..] == if ok then PutAt(old(a[..]), off, FieldBytes(order, value, size)) else old(a[..])
  {
    match order
    case Little => ok := BytePutLittleEndian(a, off, value, size);
    case Big => ok := BytePutBigEndian(a, off, value, size);
  }

  /** What byte_put stores, byte_get of the same order and size reads back, modulo the field's width. */
  lemma PutThenGet(order: Order, a: seq<byte>, off: nat, value: nat, size: nat)
    requires KnownSize(size) && off + size <= |a|
    ensures var field := PutAt(a, off, FieldBytes(order, value, size))[off..];
            (if order.Little? then ByteGetLittleEndian(field, size) else ByteGetBigEndian(field, size))
            == Some(value % Pow2(8 * size))
  {
    var r := PutAt(a, off, FieldBytes(order, value, size));
    assert r[off..][..size] == r[off..off + size];
    FieldRoundTrip(order, value, size);
  }
}
