/** Fixed-width machine arithmetic shared by the models: bytes, powers of two, the bitwise
    operators of C on unsigned values, and byte strings as little-endian numbers. */
module Machine {

  type byte = x: int | 0 <= x < 256

  const TWO_31 := 0x8000_0000
  const TWO_32 := 0x1_0000_0000
  const TWO_64 := 0x1_0000_0000_0000_0000

  datatype Option<+T> = None | Some(value: T)

  lemma FirstAndRest<T>(s: seq<T>)
    requires s != []
    ensures [s[0]] + s[1..] == s
  {
  }

  // ----- powers of two -----

  function Pow2(n: nat): (p: nat)
    ensures p > 0
  {
    if n == 0 then 1 else 2 * Pow2(n - 1)
  }

  lemma {:induction false} Pow2Add(m: nat, n: nat)
    ensures Pow2(m + n) == Pow2(m) * Pow2(n)
  {
    if m > 0 {
      Pow2Add(m - 1, n);
      assert Pow2(m + n) == 2 * Pow2(m - 1 + n);
    }
  }

  lemma {:induction false} Pow2Monotone(m: nat, n: nat)
    requires m <= n
    ensures Pow2(m) <= Pow2(n)
  {
    if m < n { Pow2Monotone(m, n - 1); }
  }

  lemma Pow2Known()
    ensures Pow2(7) == 128 && Pow2(8) == 256
    ensures Pow2(16) == 0x1_0000 && Pow2(32) == TWO_32 && Pow2(64) == TWO_64
  {
    assert Pow2(4) == 16;
    Pow2Add(4, 4);
    Pow2Add(8, 8);
    Pow2Add(16, 16);
    Pow2Add(32, 32);
  }

  // ----- bitwise operators on unsigned values -----

  function BitOr(a: nat, b: nat): nat
    decreases a + b
  {
    if a == 0 && b == 0 then 0
    else 2 * BitOr(a / 2, b / 2) + (if a % 2 == 1 || b % 2 == 1 then 1 else 0)
  }

  function ShiftLeft(a: nat, n: nat): nat
    decreases n
  {
    if n == 0 then a else 2 * ShiftLeft(a, n - 1)
  }

  lemma {:induction false} ShiftLeftIsProduct(a: nat, n: nat)
    ensures ShiftLeft(a, n) == a * Pow2(n)
  {
    if n > 0 {
      ShiftLeftIsProduct(a, n - 1);
      MulAssociative(2, a, Pow2(n - 1));
      MulAssociative(a, 2, Pow2(n - 1));
    }
  }

  function ShiftRight(a: nat, n: nat): nat
  {
    QuotientNonNegative(a, Pow2(n));
    a / Pow2(n)
  }

  lemma QuotientNonNegative(a: nat, d: nat)
    requires d > 0
    ensures a / d >= 0
  {
    BelowOneMultiple(d, a / d);
  }

  lemma DivModUnique(a: int, d: int, q: int, r: int)
    requires d > 0 && 0 <= r < d && a == d * q + r
    ensures a / d == q && a % d == r
  {
    var k := a / d - q;
    assert d * k == r - a % d by { assert d * k == d * (a / d) - d * q; }
    BelowOneMultiple(d, k);
  }

  lemma BelowOneMultiple(d: int, k: int)
    requires 0 < d
    ensures k >= 1 ==> d * k >= d
    ensures k <= -1 ==> d * k <= -d
  {
  }

  lemma SmallMod(a: int, d: int)
    requires 0 <= a < d
    ensures a % d == a && a / d == 0
  {
    DivModUnique(a, d, 0, a);
  }

  lemma NegativeMod(a: int, d: int)
    requires -d <= a < 0
    ensures a % d == a + d
  {
    DivModUnique(a, d, -1, a + d);
  }

  /** Adding a multiple of the divisor moves the quotient and keeps the remainder. */
  lemma AddMultiple(a: int, d: int, k: int)
    requires d > 0
    ensures (a + d * k) / d == a / d + k && (a + d * k) % d == a % d
  {
    assert a + d * k == d * (a / d + k) + a % d;
    DivModUnique(a + d * k, d, a / d + k, a % d);
  }

  /** A wrapped term may be unwrapped inside a wrapped sum. */
  lemma WrapSum(x: int, y: int, d: int)
    requires d > 0
    ensures (x % d + y) % d == (x + y) % d
  {
    AddMultiple(x % d + y, d, x / d);
  }

  lemma MulAssociative(a: int, b: int, c: int)
    ensures a * (b * c) == (a * b) * c
  {
  }

  lemma Distribute(a: int, b: int, c: int)
    ensures a * (b + c) == a * b + a * c
  {
  }

  lemma MulMonotone(a: int, x: int, y: int)
    requires 0 <= a && x <= y
    ensures a * x <= a * y
  {
  }

  /** Dividing twice divides by the product. */
  lemma DivDiv(v: nat, p: nat, q: nat)
    requires p > 0 && q > 0
    ensures p * q > 0
    ensures v / p / q == v / (p * q)
  {
    var a, b := v / p / q, v / p % q;
    MulMonotone(p, b, q - 1);
    DivModUnique(v, p * q, a, p * b + v % p) by {
      calc {
        v;
        p * (v / p) + v % p;
        p * (q * a + b) + v % p;
        { Distribute(p, q * a, b); }
        p * (q * a) + p * b + v % p;
        { MulAssociative(p, q, a); }
        (p * q) * a + (p * b + v % p);
      }
      Distribute(p, q, -1);
    }
  }

  lemma ShiftTwice(v: nat, m: nat, n: nat)
    ensures ShiftRight(ShiftRight(v, m), n) == ShiftRight(v, m + n)
  {
    Pow2Add(m, n);
    DivDiv(v, Pow2(m), Pow2(n));
  }

  /** Or-ing a value below 2^n with a multiple of 2^n is addition. */
  lemma {:induction false} OrDisjoint(a: nat, b: nat, n: nat)
    requires a < Pow2(n)
    ensures BitOr(a, b * Pow2(n)) == a + b * Pow2(n)
    decreases n
  {
    if n == 0 {
      OrZero(b);
    } else {
      var p := Pow2(n - 1);
      var c := b * p;
      assert b * Pow2(n) == 2 * c;
      OrDisjoint(a / 2, b, n - 1);
      assert BitOr(a / 2, c) == a / 2 + c;
      if a == 0 && 2 * c == 0 {
      } else {
        assert BitOr(a, 2 * c) == 2 * BitOr(a / 2, c) + (if a % 2 == 1 || (2 * c) % 2 == 1 then 1 else 0);
      }
    }
  }

  lemma {:induction false} OrZero(b: nat)
    ensures BitOr(0, b) == b
  {
    if b > 0 { OrZero(b / 2); }
  }

  // ----- byte sequences as integers -----

  /** The bytes bs lie at offset p of data. */
  predicate At(data: seq<byte>, p: nat, bs: seq<byte>) { p + |bs| <= |data| && data[p..p + |bs|] == bs }

  lemma AtSplit(data: seq<byte>, p: nat, a: seq<byte>, b: seq<byte>)
    requires At(data, p, a + b)
    ensures At(data, p, a) && At(data, p + |a|, b)
  {
    var whole := data[p..p + |a + b|];
    assert data[p..p + |a|] == whole[..|a|];
    assert data[p + |a|..p + |a| + |b|] == whole[|a|..];
  }

  lemma AtByte(data: seq<byte>, p: nat, b: byte)
    requires At(data, p, [b])
    ensures p < |data| && data[p] == b
  {
    assert data[p] == data[p..p + 1][0];
  }

  lemma AtPlaced(before: seq<byte>, bs: seq<byte>, after: seq<byte>)
    ensures At(before + bs + after, |before|, bs)
  {
  }

  /** The value of a byte string with its least significant byte first. */
  function LittleEndian(bs: seq<byte>): (v: nat)
  {
    if bs == [] then 0 else bs[0] + 256 * LittleEndian(bs[1..])
  }

  /** The n low bytes of v, least significant first. */
  function ToLittleEndian(v: nat, n: nat): (bs: seq<byte>)
    ensures |bs| == n
  {
    if n == 0 then [] else [v % 256] + ToLittleEndian(v / 256, n - 1)
  }

  function Reverse<T>(s: seq<T>): (r: seq<T>)
    ensures |r| == |s|
    ensures forall i :: 0 <= i < |s| ==> r[i] == s[|s| - 1 - i]
  {
    if s == [] then [] else Reverse(s[1..]) + [s[0]]
  }

  lemma ReverseTwice<T>(s: seq<T>)
    ensures Reverse(Reverse(s)) == s
  {
  }

  lemma {:induction false} LittleEndianOfBytes(v: nat, n: nat)
    ensures LittleEndian(ToLittleEndian(v, n)) == v % Pow2(8 * n)
  {
    if n > 0 {
      LittleEndianOfBytes(v / 256, n - 1);
      assert ToLittleEndian(v, n)[1..] == ToLittleEndian(v / 256, n - 1);
      NextByteOfPow2(n - 1);
      LowByteSplit(v, Pow2(8 * (n - 1)));
    }
  }

  lemma LowByteSplit(v: nat, p: nat)
    requires p > 0
    ensures v % (256 * p) == v % 256 + 256 * (v / 256 % p)
  {
    var w := v / 256;
    var r := v % 256 + 256 * (w % p);
    assert v == (256 * p) * (w / p) + r by {
      assert w == p * (w / p) + w % p;
      MulAssociative(256, p, w / p);
    }
    DivModUnique(v, 256 * p, w / p, r);
  }

  lemma {:induction false} BytesOfLittleEndian(bs: seq<byte>)
    ensures ToLittleEndian(LittleEndian(bs), |bs|) == bs
    ensures LittleEndian(bs) < Pow2(8 * |bs|)
  {
    if bs != [] {
      var rest := bs[1..];
      BytesOfLittleEndian(rest);
      DivModUnique(LittleEndian(bs), 256, LittleEndian(rest), bs[0]);
      assert ToLittleEndian(LittleEndian(bs), |bs|) == [bs[0]] + rest;
      NextByteOfPow2(|rest|);
    }
  }

  lemma NextByteOfPow2(n: nat)
    ensures Pow2(8 * (n + 1)) == 256 * Pow2(8 * n)
  {
    Pow2Known();
    Pow2Add(8, 8 * n);
  }

  lemma {:induction false} LowBytes(v: nat, n: nat, m: nat)
    requires m <= n
    ensures ToLittleEndian(v, n)[..m] == ToLittleEndian(v, m)
  {
    if m > 0 {
      LowBytes(v / 256, n - 1, m - 1);
      assert ToLittleEndian(v, n)[..m] == [v % 256] + ToLittleEndian(v / 256, n - 1)[..m - 1];
    }
  }
}
