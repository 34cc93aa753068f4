/** print_xattr_val of strace-4.6/file.c: a value is read into the last quarter of a buffer and escaped to the
    front of the same buffer, so that the output grows towards the input still to be read. */
module XattrEscape {
  import opened Machine

  const BACKSLASH: byte := 92

  /** isprint in the C locale */
  predicate IsPrint(b: byte) { 32 <= b < 127 }

  function ToHex(n: nat): byte
    requires n < 16
  {
    if n < 10 then 48 + n else 87 + n
  }

  function EscapeByte(b: byte): (r: seq<byte>)
    ensures |r| == if IsPrint(b) then 1 else 4
  {
    if IsPrint(b) then [b] else [BACKSLASH, 120, ToHex(b / 16), ToHex(b % 16)]
  }

  function Escape(s: seq<byte>): (r: seq<byte>)
    ensures |s| <= |r| <= 4 * |s|
  {
    if s == [] then [] else Escape(s[..|s| - 1]) + EscapeByte(s[|s| - 1])
  }

  predicate SomePrintable(s: seq<byte>) { exists i :: 0 <= i < |s| && IsPrint(s[i]) }

  /** The trailing NUL is dropped, but only from a value with a printable byte. */
  function Quoted(s: seq<byte>): seq<byte>
  {
    if s != [] && s[|s| - 1] == 0 && SomePrintable(s) then Escape(s[..|s| - 1]) else Escape(s)
  }

  datatype Printed = Address | Text(text: seq<byte>)

  lemma {:induction false} FullWidth(s: seq<byte>)
    ensures |Escape(s)| == 4 * |s| <==> !SomePrintable(s)
  {
    if s != [] {
      var m := |s| - 1;
      FullWidth(s[..m]);
      assert SomePrintable(s) <==> SomePrintable(s[..m]) || IsPrint(s[m]) by {
        if SomePrintable(s[..m]) {
          var i :| 0 <= i < m && IsPrint(s[..m][i]);
          assert IsPrint(s[i]);
        }
        if SomePrintable(s) {
          var i :| 0 <= i < |s| && IsPrint(s[i]);
          assert i < m ==> IsPrint(s[..m][i]);
        }
      }
    }
  }

  lemma EscapeNext(s: seq<byte>, i: nat)
    requires i < |s|
    ensures Escape(s[..i + 1]) == Escape(s[..i]) + EscapeByte(s[i])
    ensures |Escape(s[..i])| <= 4 * i
  {
    assert s[..i + 1][..i] == s[..i];
  }

  /** The output so far, and the input from position i on still as it was read. */
  ghost predicate Halfway(buf: array<byte>, data: seq<byte>, out: nat, i: nat)
    reads buf
  {
    && buf.Length == 4 * |data| + 1 && i <= |data| && out <= 4 * i
    && buf[..out] == Escape(data[..i])
    && forall j :: i <= j < |data| ==> buf[3 * |data| + j] == data[j]
  }

  /** What the slot of an escaped byte holds: itself, unless its own escape ends there. */
  function Left(size: nat, b: byte, out: nat, i: nat): byte
  {
    if out == 3 * size + i + 1 && !IsPrint(b) then ToHex(b % 16) else b
  }

  /** One byte escaped in place: nothing unread is overwritten. The last byte is overwritten exactly when its
      escape ends at the end of the buffer. */
  method EscapeOne(buf: array<byte>, ghost data: seq<byte>, start: nat, i: nat) returns (out: nat)
    requires i < |data| && Halfway(buf, data, start, i)
    modifies buf
    ensures Halfway(buf, data, out, i + 1) && out == |Escape(data[..i + 1])|
    ensures buf[3 * |data| + i] == Left(|data|, data[i], out, i)
  {
    hide Escape;
    var size := (buf.Length - 1) / 4;
    var at := 3 * size + i;
    EscapeNext(data, i);
    ghost var before := buf[..start];
    out := start;
    if IsPrint(buf[at]) {
      buf[out] := buf[at];
      out := out + 1;
    } else {
      buf[out] := BACKSLASH;
      buf[out + 1] := 120;
      buf[out + 2] := ToHex(buf[at] / 16);
      buf[out + 3] := ToHex(buf[at] % 16);
      out := out + 4;
    }
    assert buf[..out] == before + EscapeByte(data[i]);
  }

  /** Finding a NUL in the last slot means a NUL was read last and some byte was printable; the four bytes
      taken back are then its escape. */
  lemma LastByte(data: seq<byte>)
    requires data != []
    ensures var e, last := Escape(data), data[|data| - 1];
            && (Left(|data|, last, |e|, |data| - 1) == 0 <==> last == 0 && SomePrintable(data))
            && (last == 0 ==> |e| >= 4)
            && Quoted(data) == if last == 0 && SomePrintable(data) then e[..|e| - 4] else e
  {
    FullWidth(data);
    var init := data[..|data| - 1];
    assert Escape(data)[..|Escape(init)|] == Escape(init);
  }

  /** The loop and the stripping of the NUL. */
  method EscapeInPlace(buf: array<byte>, ghost data: seq<byte>) returns (out: nat)
    requires buf.Length == 4 * |data| + 1 && forall j :: 0 <= j < |data| ==> buf[3 * |data| + j] == data[j]
    modifies buf
    ensures out < buf.Length && buf[..out] == Quoted(data) && buf[out] == 0
  {
    hide Escape, Quoted, Left;
    var size := (buf.Length - 1) / 4;
    out := 0;
    EscapeNone(data);
    for i := 0 to size
      invariant Halfway(buf, data, out, i) && out == |Escape(data[..i])|
      invariant i > 0 ==> buf[3 * size + i - 1] == Left(size, data[i - 1], out, i - 1)
    {
      out := EscapeOne(buf, data, out, i);
    }
    assert data[..size] == data;
    if size > 0 { LastByte(data); }
    ghost var escaped := buf[..out];
    if size > 0 && buf[4 * size - 1] == 0 {
      out := out - 4;
    }
    assert buf[..out] == escaped[..out];
    buf[out] := 0;
  }

  lemma EscapeNone(data: seq<byte>)
    ensures Escape(data[..0]) == [] && (data == [] ==> Quoted(data) == [])
  {
  }

  /** A granted capacity of at least size has not wrapped. */
  lemma NoWrap(size: nat)
    requires size <= (4 * size + 1) % TWO_64 < TWO_64 / 4
    ensures (4 * size + 1) % TWO_64 == 4 * size + 1
  {
  }

  /** The whole print: the buffer is allocated only when its size did not wrap, as long as the allocator
      never grants a quarter of the address space. */
  method PrintXattrVal(failed: bool, size: nat, granted: bool, moved: Option<seq<byte>>) returns (r: Printed)
    requires size < TWO_64 && (granted ==> (4 * size + 1) % TWO_64 < TWO_64 / 4)
    requires moved.Some? ==> |moved.value| == size
    ensures r.Address? <==> failed || !granted || (4 * size + 1) % TWO_64 < size || moved.None?
    ensures r.Text? ==> r.text == Quoted(moved.value)
  {
    if failed { return Address; }
    var capacity := (4 * size + 1) % TWO_64;
    if capacity < size || !granted || moved.None? { return Address; }
    NoWrap(size);
    var buf := new byte[4 * size + 1](_ => 0);
    var data := moved.value;
    forall k | 0 <= k < size { buf[3 * size + k] := data[k]; }
    var out := EscapeInPlace(buf, data);
    return Text(buf[..out]);
  }

  // ----- reading an escape back -----

  function FromHex(h: byte): int { if 48 <= h < 58 then h - 48 else if 97 <= h < 103 then h - 87 else -1 }

  /** The first byte of an escaped text, and how many characters it took. */
  function FirstByte(t: seq<byte>): (r: (byte, nat))
    requires t != []
    ensures 1 <= r.1 <= |t|
  {
    if |t| >= 4 && t[0] == BACKSLASH && t[1] == 120 && FromHex(t[2]) >= 0 && FromHex(t[3]) >= 0
    then (16 * FromHex(t[2]) + FromHex(t[3]), 4) else (t[0], 1)
  }

  function Unescape(t: seq<byte>): seq<byte>
    decreases |t|
  {
    if t == [] then [] else [FirstByte(t).0] + Unescape(t[FirstByte(t).1..])
  }

  lemma FirstOfEscape(b: byte, rest: seq<byte>)
    requires b != BACKSLASH
    ensures FirstByte(EscapeByte(b) + rest) == (b, |EscapeByte(b)|)
  {
    if !IsPrint(b) {
      assert FromHex(ToHex(b / 16)) == b / 16 && FromHex(ToHex(b % 16)) == b % 16;
    }
  }

  lemma {:induction false} EscapeCons(b: byte, s: seq<byte>)
    ensures Escape([b] + s) == EscapeByte(b) + Escape(s)
  {
    hide EscapeByte;
    var all := [b] + s;
    if s == [] {
      assert all[..0] == [] && [] + EscapeByte(b) == EscapeByte(b) + [];
    } else {
      var m := |s| - 1;
      assert all[..m + 1] == [b] + s[..m];
      EscapeCons(b, s[..m]);
    }
  }

  /** Values without a backslash can be read back from their escape. */
  lemma {:induction false} EscapeRoundTrip(s: seq<byte>)
    requires BACKSLASH !in s
    ensures Unescape(Escape(s)) == s
  {
    hide EscapeByte, FirstByte;
    if s != [] {
      var b, rest := s[0], s[1..];
      assert [b] + rest == s;
      EscapeCons(b, rest);
      FirstOfEscape(b, Escape(rest));
      EscapeRoundTrip(rest);
      assert (EscapeByte(b) + Escape(rest))[|EscapeByte(b)|..] == Escape(rest);
    }
  }

  /** A backslash is printed as it is, so a value can look like the escape of another. */
  lemma BackslashAmbiguous()
    ensures Escape([BACKSLASH, 120, 48, 48]) == Escape([0])
  {
    hide Escape;
    EscapeNone([]);
    EscapeCons(BACKSLASH, [120, 48, 48]);
    EscapeCons(120, [48, 48]);
    EscapeCons(48, [48]);
    EscapeCons(48, []);
    EscapeCons(0, []);
    assert [BACKSLASH] + [120, 48, 48] == [BACKSLASH, 120, 48, 48] && [120] + [48, 48] == [120, 48, 48];
    assert [48] + [48] == [48, 48] && [48] + [] == [48] && [0] + [] == [0];
  }

  /** A value is printed as it is exactly when it is text of the bytes 32 to 126. */
  lemma {:induction false} TextUnchanged(s: seq<byte>)
    ensures Escape(s) == s <==> forall i :: 0 <= i < |s| ==> 32 <= s[i] <= 126
  {
    if s != [] {
      var m := |s| - 1;
      TextUnchanged(s[..m]);
      if Escape(s) == s {
        assert |Escape(s[..m])| >= m;
        assert IsPrint(s[m]) && Escape(s)[..m] == Escape(s[..m]) && Escape(s[..m]) == s[..m];
      }
      if forall i :: 0 <= i < |s| ==> 32 <= s[i] <= 126 {
        assert Escape(s[..m]) == s[..m];
        assert s[..m] + [s[m]] == s;
      }
    }
  }

  const DIGITS := "0123456789abcdef"

  /** Any other byte is printed as a backslash, an x and its two lower-case hexadecimal digits. */
  lemma OthersAsHex(b: byte)
    requires b < 32 || b > 126
    ensures EscapeByte(b) == ['\\' as int, 'x' as int, DIGITS[b / 16] as int, DIGITS[b % 16] as int]
  {
  }
}
