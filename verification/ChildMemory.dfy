/** Writing into a traced process with ptrace (memcpy_to_child of strace-4.6/cde.c).
    PTRACE_PEEKDATA and PTRACE_POKEDATA move one long: 4 bytes on a 32-bit host, 8 on a 64-bit one. */
module ChildMemory {
  import opened Machine
  import opened ByteOrder

  /** PTRACE_POKEDATA of a long whose bytes, in memory order, are w. */
  method Poke(child: array<byte>, addr: nat, w: seq<byte>)
    requires addr + |w| <= child.Length
    modifies child
    ensures child[..] == PutAt(old(child[..]), addr, w)
  {
    forall j | 0 <= j < |w| { child[addr + j] := w[j]; }
    ghost var want := PutAt(old(child[..]), addr, w);
    forall k | addr <= k < addr + |w| ensures child[k] == want[k] {
      assert child[addr + (k - addr)] == w[k - addr];
      assert want[addr..addr + |w|][k - addr] == w[k - addr];
    }
    assert child[..] == want;
  }

  /** How many bytes of the source reach the child. The loop advances by sizeof(int) but pokes a
      long, so on a 64-bit host the last full poke spills up to four bytes past the request. */
  function Reach(size: nat, long: nat): nat
  {
    if long == 8 && size >= 4 then size / 4 * 4 + 4 else size
  }

  /** In terms of the loop: p bytes advanced, left of them to go. */
  lemma ReachOf(p: nat, left: nat, long: nat)
    requires p % 4 == 0 && left < 4 && (long == 4 || long == 8)
    ensures var written := if p == 0 then 0 else p - 4 + long;
            Reach(p + left, long) == if written > p + left then written else p + left
  {
  }

  lemma PutExtends(mem: seq<byte>, dst: nat, src: seq<byte>, a: nat, b: nat, c: nat)
    requires a <= b <= c <= |src| && dst + c <= |mem|
    ensures PutAt(PutAt(mem, dst, src[..b]), dst + a, src[a..c]) == PutAt(mem, dst, src[..c])
  {
    var x, y := PutAt(PutAt(mem, dst, src[..b]), dst + a, src[a..c]), PutAt(mem, dst, src[..c]);
    forall k | 0 <= k < |mem| ensures x[k] == y[k] {
      PutByte(mem, dst, src[..b], k);
      PutByte(PutAt(mem, dst, src[..b]), dst + a, src[a..c], k);
      PutByte(mem, dst, src[..c], k);
    }
  }

  /** How many bytes the copy reads or writes: the last one may only be part of a long peeked, or read from
      the source, for the sake of the ones before it. */
  function Touched(size: nat, long: nat): nat { if size == 0 then 0 else (size - 1) / 4 * 4 + long }

  /** memcpy_to_child: it gets through exactly when the source and the child have the bytes it touches, and then
      the child's memory has changed in exactly the reached bytes, which are the source's. */
  method MemcpyToChild(child: array<byte>, dst: nat, src: seq<byte>, size: nat, long: nat) returns (ok: bool)
    requires long == 4 || long == 8
    modifies child
    ensures ok <==> size == 0 || (Touched(size, long) <= |src| && dst + Touched(size, long) <= child.Length)
    ensures ok && size > 0 ==> child[..] == PutAt(old(child[..]), dst, src[..Reach(size, long)])
    ensures size == 0 ==> child[..] == old(child[..])
  {
    hide PutAt;
    if size == 0 { return true; }
    if dst > child.Length { return false; }
    var left: nat, p: nat := size, 0;
    ghost var written: nat := 0;
    PutNothing(child[..], dst);
    assert src[..0] == [];
    while left >= 4
      invariant p + left == size && p % 4 == 0
      invariant written == (if p == 0 then 0 else p - 4 + long) <= |src| && dst + written <= child.Length
      invariant child[..] == PutAt(old(child[..]), dst, src[..written])
    {
      if p + long > |src| || dst + p + long > child.Length { return false; }
      var w := src[p..p + long];
      PutExtends(old(child[..]), dst, src, p, written, p + long);
      Poke(child, dst + p, w);
      written := p + long;
      left := left - 4;
      p := p + 4;
    }
    ReachOf(p, left, long);
    if left > 0 {
      if p + long > |src| || dst + p + long > child.Length { return false; }
      assert child[..] == PutAt(old(child[..]), dst, src[..written]);
      CopyTail(child, dst, src, p, left, long, old(child[..]), written);
    }
    return true;
  }

  /** The cleanup of the last one to three bytes: peek, replace, poke back. */
  method CopyTail(child: array<byte>, dst: nat, src: seq<byte>, p: nat, left: nat, long: nat, ghost mem: seq<byte>, ghost written: nat)
    requires 0 < left < 4 && (long == 4 || long == 8) && p % 4 == 0
    requires p + long <= |src| && dst + p + long <= child.Length == |mem|
    requires written == if p == 0 then 0 else p - 4 + long
    requires child[..] == PutAt(mem, dst, src[..written])
    modifies child
    ensures child[..] == PutAt(mem, dst, src[..Reach(p + left, long)])
  {
    hide PutAt, Reach;
    ghost var now := child[..];
    var dw := child[dst + p..dst + p + long];
    var sw := src[p..p + long];
    dw := dw[0 := sw[0]];
    if left >= 2 { dw := dw[1 := sw[1]]; }
    if left >= 3 { dw := dw[2 := sw[2]]; }
    forall k | 0 <= k < long ensures dw[k] == if k < left then src[p + k] else now[dst + p + k] {
    }
    TailPoke(mem, dst, src, p, left, written, long, dw);
    Poke(child, dst + p, dw);
  }

  /** Poking back the peeked long with its first bytes replaced writes only those bytes. */
  lemma TailPoke(mem: seq<byte>, dst: nat, src: seq<byte>, p: nat, left: nat, written: nat, long: nat, dw: seq<byte>)
    requires 0 < left < 4 && (long == 4 || long == 8) && p % 4 == 0
    requires p + long <= |src| && dst + p + long <= |mem|
    requires written == if p == 0 then 0 else p - 4 + long
    requires |dw| == long && forall k :: 0 <= k < long ==>
               dw[k] == if k < left then src[p + k] else PutAt(mem, dst, src[..written])[dst + p + k]
    ensures PutAt(PutAt(mem, dst, src[..written]), dst + p, dw) == PutAt(mem, dst, src[..Reach(p + left, long)])
  {
    hide PutAt, Reach;
    var now := PutAt(mem, dst, src[..written]);
    var reach := Reach(p + left, long);
    ReachOf(p, left, long);
    var x, y := PutAt(now, dst + p, dw), PutAt(mem, dst, src[..reach]);
    forall k | 0 <= k < |mem| ensures x[k] == y[k] {
      PutByte(now, dst + p, dw, k);
      PutByte(mem, dst, src[..written], k);
      PutByte(mem, dst, src[..reach], k);
    }
  }

  /** What the caller asked for and what it did not: the first size bytes are the source's; with
      4-byte pokes nothing else changes, with 8-byte pokes nothing below dst or from dst + size + 4 on. */
  lemma CopyMeans(mem: seq<byte>, dst: nat, src: seq<byte>, size: nat, long: nat)
    requires (long == 4 || long == 8) && Touched(size, long) <= |src| && dst + Touched(size, long) <= |mem|
    ensures var after := PutAt(mem, dst, src[..Reach(size, long)]);
            && after[dst..dst + size] == src[..size]
            && (forall k :: 0 <= k < |mem| && (k < dst || k >= dst + size + 4) ==> after[k] == mem[k])
            && (long == 4 ==> forall k :: 0 <= k < |mem| && (k < dst || k >= dst + size) ==> after[k] == mem[k])
  {
    var after := PutAt(mem, dst, src[..Reach(size, long)]);
    forall k | 0 <= k < |mem| ensures after[k] == if dst <= k < dst + Reach(size, long) then src[k - dst] else mem[k] {
      PutByte(mem, dst, src[..Reach(size, long)], k);
    }
  }
}
