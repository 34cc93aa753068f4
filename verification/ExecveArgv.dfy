/** The argument vector CDE_begin_execve builds in the shared memory segment (strace-4.6/cde.c), so that
    the kernel runs the packaged dynamic linker in place of the traced program.

    The tracer writes through char** pointers of its own width, hostWord bytes, at offsets spaced by
    the target's word size: 8-byte stores 4 bytes apart when a 64-bit tracer follows a 32-bit target. */
module ExecveArgv {
  import opened Machine
  import opened ByteOrder
  import opened ChildMemory

  type CString = s: seq<byte> | 0 !in s

  datatype Widths = Widths(hostWord: nat, word: nat)

  predicate ValidWidths(w: Widths)
  {
    w == Widths(8, 8) || w == Widths(8, 4) || w == Widths(4, 4)
  }

  /** Byte offset of argv slot j. */
  function Slot(w: Widths, j: nat): nat { if w.word == 4 then 4 * j else 8 * j }

  function WordLimit(w: Widths): nat { if w.word == 4 then TWO_32 else TWO_64 }

  // ----- pointer stores -----

  /** The number in the target's word at p. */
  function Word(mem: seq<byte>, p: nat, w: Widths): nat
    requires p + w.word <= |mem|
  {
    LittleEndian(mem[p..p + w.word])
  }

  /** The words from raw on are ptrs. */
  predicate Words(mem: seq<byte>, raw: nat, w: Widths, ptrs: seq<nat>)
  {
    && raw + Slot(w, |ptrs|) <= |mem|
    && forall j :: 0 <= j < |ptrs| ==> raw + Slot(w, j) + w.word <= |mem| && Word(mem, raw + Slot(w, j), w) == ptrs[j]
  }

  /** A host-wide store leaves the pointer in the target's word. */
  lemma StoredWord(mem: seq<byte>, p: nat, w: Widths, v: nat)
    requires ValidWidths(w) && v < WordLimit(w) && p + w.hostWord <= |mem|
    ensures Word(PutAt(mem, p, ToLittleEndian(v, w.hostWord)), p, w) == v
  {
    var bs := ToLittleEndian(v, w.hostWord);
    var after := PutAt(mem, p, bs);
    assert after[p..p + w.word] == after[p..p + w.hostWord][..w.word];
    LowBytes(v, w.hostWord, w.word);
    LittleEndianOfBytes(v, w.word);
    Pow2Known();
    SmallMod(v, WordLimit(w));
  }

  /** Storing into slot n keeps the slots below it, whatever the store spills above. */
  lemma StoreKeepsLower(mem: seq<byte>, raw: nat, w: Widths, ptrs: seq<nat>, n: nat, v: nat)
    requires ValidWidths(w) && v < WordLimit(w) && n <= |ptrs| && Words(mem, raw, w, ptrs)
    requires raw + Slot(w, n) + w.hostWord <= |mem|
    ensures Words(PutAt(mem, raw + Slot(w, n), ToLittleEndian(v, w.hostWord)), raw, w, ptrs[..n] + [v])
  {
    hide PutAt, Word, LittleEndian, ToLittleEndian;
    var after := PutAt(mem, raw + Slot(w, n), ToLittleEndian(v, w.hostWord));
    StoredWord(mem, raw + Slot(w, n), w, v);
    forall j | 0 <= j < n ensures raw + Slot(w, j) + w.word <= |mem| && Word(after, raw + Slot(w, j), w) == ptrs[j] {
      var p := raw + Slot(w, j);
      assert p + w.word <= raw + Slot(w, n);
      SameWord(mem, after, p, w);
    }
  }

  lemma SameWord(a: seq<byte>, b: seq<byte>, p: nat, w: Widths)
    requires p + w.word <= |a| == |b| && forall k :: p <= k < p + w.word ==> a[k] == b[k]
    ensures Word(a, p, w) == Word(b, p, w)
  {
    assert a[p..p + w.word] == b[p..p + w.word];
  }

  /** In the other order the same two stores lose a pointer: on a 32-bit target the store into slot n
      overwrites slot n + 1 with the upper half of an 8-byte pointer, which is zero. */
  lemma DescendingLoses(mem: seq<byte>, raw: nat, n: nat, lower: nat, upper: nat)
    requires lower < TWO_32 && upper < TWO_32 && raw + 4 * n + 12 <= |mem|
    ensures var w := Widths(8, 4);
            var first := PutAt(mem, raw + Slot(w, n + 1), ToLittleEndian(upper, 8));
            Word(PutAt(first, raw + Slot(w, n), ToLittleEndian(lower, 8)), raw + Slot(w, n + 1), w) == 0
  {
    var w := Widths(8, 4);
    var p := raw + Slot(w, n);
    var first := PutAt(mem, raw + Slot(w, n + 1), ToLittleEndian(upper, 8));
    var after := PutAt(first, p, ToLittleEndian(lower, 8));
    assert after[p + 4..p + 8] == after[p..p + 8][4..];
    HighBytesZero(lower);
  }

  lemma HighBytesZero(v: nat)
    requires v < TWO_32
    ensures LittleEndian(ToLittleEndian(v, 8)[4..]) == 0
  {
    var b := ToLittleEndian(v, 8);
    LowBytes(v, 8, 4);
    LittleEndianOfBytes(v, 4);
    LittleEndianOfBytes(v, 8);
    Pow2Known();
    SmallMod(v, TWO_32);
    SmallMod(v, TWO_64);
    assert b == b[..4] + b[4..];
    LittleEndianConcat(b[..4], b[4..]);
  }

  lemma {:induction false} LittleEndianConcat(a: seq<byte>, b: seq<byte>)
    ensures LittleEndian(a + b) == LittleEndian(a) + Pow2(8 * |a|) * LittleEndian(b)
  {
    if a == [] {
      assert [] + b == b;
    } else {
      LittleEndianConcat(a[1..], b);
      assert (a + b)[1..] == a[1..] + b;
      NextByteOfPow2(|a| - 1);
      MulAssociative(256, Pow2(8 * (|a| - 1)), LittleEndian(b));
    }
  }

  /** The store into a slot of the vector at raw ends inside a segment of this size. */
  predicate SlotFits(size: nat, raw: nat, w: Widths, slot: nat) { raw + Slot(w, slot) + w.hostWord <= size }

  /** *(char**)(raw + slot) = v, a store of the tracer's own pointer width; not ok outside the segment. */
  method StorePointer(shm: array<byte>, raw: nat, slot: nat, v: nat, w: Widths, ghost ptrs: seq<nat>) returns (ok: bool)
    requires ValidWidths(w) && v < WordLimit(w) && slot <= |ptrs| && Words(shm[..], raw, w, ptrs)
    modifies shm
    ensures ok <==> SlotFits(shm.Length, raw, w, slot)
    ensures ok ==> shm[..raw] == old(shm[..raw]) && Words(shm[..], raw, w, ptrs[..slot] + [v])
  {
    if raw + Slot(w, slot) + w.hostWord > shm.Length { return false; }
    hide Words;
    ok := true;
    StoreKeepsLower(shm[..], raw, w, ptrs, slot, v);
    Poke(shm, raw + Slot(w, slot), ToLittleEndian(v, w.hostWord));
  }

  // ----- strings -----

  /** The strings one after another, each with its terminating NUL. */
  function Layout(strs: seq<CString>): seq<byte>
  {
    if strs == [] then [] else strs[0] + [0] + Layout(strs[1..])
  }

  function StartOf(strs: seq<CString>, k: nat): nat
    requires k <= |strs|
  {
    |Layout(strs[..k])|
  }

  lemma {:induction false} LayoutConcat(a: seq<CString>, b: seq<CString>)
    ensures Layout(a + b) == Layout(a) + Layout(b)
  {
    hide Layout;
    if a == [] {
      assert [] + b == b;
      NothingLaid(a);
      assert [] + Layout(b) == Layout(b);
    } else {
      LayoutConcat(a[1..], b);
      LayoutCons(a);
      LayoutCons(a + b);
      assert (a + b)[1..] == a[1..] + b;
      assert a[0] + [0] + (Layout(a[1..]) + Layout(b)) == a[0] + [0] + Layout(a[1..]) + Layout(b);
    }
  }

  lemma LayoutCons(strs: seq<CString>)
    requires strs != []
    ensures Layout(strs) == strs[0] + [0] + Layout(strs[1..])
  {
  }

  lemma NothingLaid(strs: seq<CString>)
    ensures strs[..0] == [] && Layout([]) == []
  {
  }

  lemma LayoutAppend(strs: seq<CString>, s: CString)
    ensures Layout(strs + [s]) == Layout(strs) + s + [0]
  {
    LayoutConcat(strs, [s]);
    assert [s][1..] == [];
  }

  lemma SplitAt(strs: seq<CString>, k: nat)
    requires k < |strs|
    ensures strs == strs[..k] + [strs[k]] + strs[k + 1..]
  {
  }

  /** The k-th string and its NUL lie at its start. */
  lemma StringAt(strs: seq<CString>, k: nat)
    requires k < |strs|
    ensures At(Layout(strs), StartOf(strs, k), strs[k] + [0])
  {
    hide At, Layout, StartOf;
    var a, rest := strs[..k], strs[k + 1..];
    SplitAt(strs, k);
    LayoutConcat(a + [strs[k]], rest);
    LayoutAppend(a, strs[k]);
    LaidTo(strs, k);
    AtPlaced(Layout(a), strs[k] + [0], Layout(rest));
    assert Layout(a) + strs[k] + [0] == Layout(a) + (strs[k] + [0]);
  }

  /** strcpy(base + off, s), where the strings copied so far fill the segment up to off; not ok when it goes
      past the segment. */
  method StrCpy(shm: array<byte>, off: nat, s: CString, ghost strs: seq<CString>) returns (ok: bool, next: nat)
    requires off == |Layout(strs)| <= shm.Length && Layout(strs) == shm[..off]
    modifies shm
    ensures ok <==> |Layout(strs + [s])| <= shm.Length
    ensures ok ==> next == |Layout(strs + [s])| && shm[..next] == Layout(strs + [s])
  {
    LayoutAppend(strs, s);
    next := off + |s| + 1;
    ok := next <= shm.Length;
    if !ok { return; }
    Poke(shm, off, s + [0]);
    assert shm[..next] == shm[..off] + shm[off..next];
    assert shm[off..next] == shm[..][off..off + |s + [0]|];
    assert shm[..off] == shm[..][..off];
  }

  // ----- strtok -----

  const SPACE: byte := 32

  /** Leading characters of s up to the first space. */
  function Token(s: seq<byte>): (t: seq<byte>)
    ensures t <= s && SPACE !in t && (|t| < |s| ==> s[|t|] == SPACE)
  {
    if s == [] || s[0] == SPACE then [] else [s[0]] + Token(s[1..])
  }

  /** strtok(s, " ") until NULL: the maximal space-free pieces. */
  function Tokens(s: CString): (ts: seq<CString>)
    ensures forall k :: 0 <= k < |ts| ==> ts[k] != [] && SPACE !in ts[k]
  {
    if s == [] then []
    else if s[0] == SPACE then Tokens(s[1..])
    else [Token(s)] + Tokens(s[|Token(s)|..])
  }

  function JoinSpaced(ts: seq<CString>): seq<byte>
  {
    if ts == [] then [] else ts[0] + [' ' as int] + JoinSpaced(ts[1..])
  }

  lemma {:induction false} TokenOf(t: seq<byte>, rest: seq<byte>)
    requires SPACE !in t
    ensures Token(t + [SPACE] + rest) == t
  {
    var s := t + [SPACE] + rest;
    if t != [] {
      TokenOf(t[1..], rest);
      assert s[1..] == t[1..] + [SPACE] + rest;
    }
  }

  /** Splitting a line of space-separated words gives the words back. */
  lemma {:induction false} TokensOfJoined(ts: seq<CString>)
    requires forall k :: 0 <= k < |ts| ==> ts[k] != [] && SPACE !in ts[k]
    ensures 0 !in JoinSpaced(ts) && Tokens(JoinSpaced(ts)) == ts
  {
    if ts != [] {
      var rest := JoinSpaced(ts[1..]);
      TokensOfJoined(ts[1..]);
      var s := ts[0] + [SPACE] + rest;
      TokenOf(ts[0], rest);
      assert s[|ts[0]|..] == [SPACE] + rest;
      assert ([SPACE] + rest)[1..] == rest;
      assert s[0] == ts[0][0] != SPACE;
    }
  }

  // ----- the child's own argument vector -----

  function ChildWord(mem: nat -> byte, a: nat, w: Widths): nat { LittleEndian(seq(w.word, j requires 0 <= j => mem(a + j))) }

  lemma ChildWordFits(mem: nat -> byte, a: nat, w: Widths)
    requires ValidWidths(w)
    ensures ChildWord(mem, a, w) < WordLimit(w)
  {
    BytesOfLittleEndian(seq(w.word, j requires 0 <= j => mem(a + j)));
    Pow2Known();
  }

  /** argv[1..] of the call being traced, up to its NULL. */
  predicate HasArgs(mem: nat -> byte, argv: nat, w: Widths, args: seq<nat>)
  {
    && (forall i :: 0 <= i < |args| ==> args[i] != 0 && ChildWord(mem, argv + Slot(w, i + 1), w) == args[i])
    && ChildWord(mem, argv + Slot(w, |args| + 1), w) == 0
  }

  /** The loop that copies argv[1..] and its NULL: entry i goes to slot i + shift. */
  method CopyChildArgs(shm: array<byte>, raw: nat, shift: nat, w: Widths, mem: nat -> byte, argv: nat, ghost args: seq<nat>, ghost ptrs: seq<nat>)
    returns (ok: bool)
    requires ValidWidths(w) && HasArgs(mem, argv, w, args)
    requires Words(shm[..], raw, w, ptrs) && |ptrs| == shift + 1 && raw <= shm.Length
    modifies shm
    ensures ok <==> SlotFits(shm.Length, raw, w, shift + |args| + 1)
    ensures ok ==> shm[..raw] == old(shm[..raw]) && Words(shm[..], raw, w, ptrs + args + [0])
  {
    hide Words, ChildWord;
    var i: nat := 1;
    assert ptrs + args[..0] == ptrs;
    while true
      invariant 1 <= i <= |args| + 1
      invariant shm[..raw] == old(shm[..raw])
      invariant Words(shm[..], raw, w, ptrs + args[..i - 1])
      decreases |args| + 1 - i
    {
      var curArg := ChildWord(mem, argv + Slot(w, i), w);
      ChildWordFits(mem, argv + Slot(w, i), w);
      assert i <= |args| ==> args[i - 1] == curArg;
      ghost var sofar := ptrs + args[..i - 1];
      ok := StorePointer(shm, raw, i + shift, curArg, w, sofar);
      if !ok { return; }
      assert sofar[..i + shift] == sofar;
      if curArg == 0 {
        assert i == |args| + 1;
        assert args[..i - 1] == args;
        break;
      }
      assert i <= |args| && curArg == args[i - 1];
      assert args[..i] == args[..i - 1] + [curArg];
      assert ptrs + args[..i] == sofar + [curArg];
      i := i + 1;
    }
  }

  // ----- the whole vector -----

  /** What a script's execve copies into the segment: the linker when it comes from the package, then the
      words of the interpreter line, the first of them redirected when it does not. */
  function ScriptStrings(useLinker: bool, ld: CString, redirected: CString, tokens: seq<CString>): seq<CString>
  {
    if useLinker then [ld] + tokens
    else if tokens == [] then [] else [redirected] + tokens[1..]
  }

  /** The child's addresses of the strings. */
  function Pointers(childshm: nat, strs: seq<CString>): seq<nat>
  {
    seq(|strs|, k requires 0 <= k < |strs| => childshm + StartOf(strs, k))
  }

  /** Room in the segment for the strings, the pointers up to the last slot, and the spill of its store. */
  predicate Room(size: nat, w: Widths, strs: seq<CString>, last: nat) { SlotFits(size, |Layout(strs)|, w, last) }

  /** The child can address the whole segment. */
  predicate Addressable(childshm: nat, size: nat, w: Widths)
  {
    0 < childshm < WordLimit(w) && childshm + size <= WordLimit(w)
  }

  lemma StartBound(strs: seq<CString>, k: nat)
    requires k <= |strs|
    ensures StartOf(strs, k) <= |Layout(strs)|
    ensures k < |strs| ==> StartOf(strs, k + 1) == StartOf(strs, k) + |strs[k]| + 1
  {
    assert strs == strs[..k] + strs[k..];
    LayoutConcat(strs[..k], strs[k..]);
    if k < |strs| {
      assert strs[..k + 1] == strs[..k] + [strs[k]];
      LayoutAppend(strs[..k], strs[k]);
    }
  }

  /** script_command_token_starts has room for so many words. */
  const MAX_TOKENS := 200

  /** The strcpy loop over the words of the interpreter line, with their starts: every start is stored inside
      the array exactly when there are no more words than it has entries, and every word inside the segment
      exactly when it has room for them. */
  method CopyTokens(shm: array<byte>, useLinker: bool, ld: CString, redirected: CString, tokens: seq<CString>)
    returns (ok: bool, starts: array<nat>, curLoc: nat)
    modifies shm
    ensures ok <==> |tokens| <= MAX_TOKENS && |Layout(ScriptStrings(useLinker, ld, redirected, tokens))| <= shm.Length
    ensures fresh(starts) && starts.Length == MAX_TOKENS
    ensures ok ==> var strs := ScriptStrings(useLinker, ld, redirected, tokens);
                   && curLoc == |Layout(strs)| && shm[..curLoc] == Layout(strs)
                   && forall k :: 0 <= k < |tokens| ==> starts[k] == StartOf(strs, k + (if useLinker then 1 else 0))
  {
    hide Layout, StartOf;
    ghost var strs := ScriptStrings(useLinker, ld, redirected, tokens);
    ghost var shift := if useLinker then 1 else 0;
    curLoc, starts := 0, new nat[200];
    StartZero(strs);
    NothingLaid(strs);
    if useLinker {
      StartBound(strs, 0);
      StartBound(strs, 1);
      assert strs[..1] == [] + [ld];
      LaidTo(strs, 1);
      ok, curLoc := StrCpy(shm, 0, ld, []);
      if !ok { return; }
    }
    for i := 0 to |tokens|
      invariant i <= MAX_TOKENS && curLoc == StartOf(strs, i + shift) <= shm.Length
      invariant shm[..curLoc] == Layout(strs[..i + shift])
      invariant forall k :: 0 <= k < i ==> starts[k] == StartOf(strs, k + shift)
    {
      ghost var j := i + shift;
      var start := curLoc;
      StartBound(strs, j);
      StartBound(strs, j + 1);
      assert strs[..j + 1] == strs[..j] + [strs[j]];
      LaidTo(strs, j);
      LaidTo(strs, j + 1);
      if i == 0 && !useLinker {
        ok, curLoc := StrCpy(shm, curLoc, redirected, strs[..j]);
      } else {
        ok, curLoc := StrCpy(shm, curLoc, tokens[i], strs[..j]);
      }
      if !ok { return; }
      if i >= starts.Length { return false, starts, curLoc; }
      starts[i] := start;
    }
    LaidTo(strs, |strs|);
    assert strs[..|strs|] == strs;
    ok := true;
  }

  lemma LaidTo(strs: seq<CString>, k: nat)
    requires k <= |strs|
    ensures StartOf(strs, k) == |Layout(strs[..k])|
  {
  }

  /** The pointers to the copied words: slot 0 first takes childshm, then word i goes to slot i + 1, or to
      slot i when there is no linker, which overwrites slot 0 with the same address. */
  method PointAtTokens(shm: array<byte>, raw: nat, childshm: nat, w: Widths, useLinker: bool, starts: seq<nat>, ghost strs: seq<CString>)
    returns (ok: bool)
    requires ValidWidths(w) && raw == |Layout(strs)| <= shm.Length && Addressable(childshm, shm.Length, w)
    requires |strs| == |starts| + (if useLinker then 1 else 0)
    requires forall k :: 0 <= k < |starts| ==> starts[k] == StartOf(strs, k + (if useLinker then 1 else 0))
    modifies shm
    ensures ok <==> SlotFits(shm.Length, raw, w, if strs == [] then 0 else |strs| - 1)
    ensures ok ==> shm[..raw] == old(shm[..raw]) && Words(shm[..], raw, w, Pointers(childshm, strs))
  {
    hide Words, StartOf, Layout;
    ghost var ptrs := Pointers(childshm, strs);
    PointersFit(shm.Length, childshm, w, strs);
    NoWords(shm[..], raw, w);
    ok := StorePointer(shm, raw, 0, childshm, w, []);
    if !ok { return; }
    assert [][..0] + [childshm] == [childshm];
    if |strs| > 0 { StartZero(strs); assert ptrs[..1] == [childshm]; }
    ghost var shift := if useLinker then 1 else 0;
    ghost var have: seq<nat> := [childshm];
    for i := 0 to |starts|
      invariant ok && SlotFits(shm.Length, raw, w, if i + shift == 0 then 0 else i + shift - 1)
      invariant shm[..raw] == old(shm[..raw])
      invariant Words(shm[..], raw, w, have) && i + shift <= |have|
      invariant have[..i + shift] == ptrs[..i + shift]
    {
      var slot := if useLinker then i + 1 else i;
      assert ptrs[slot] == childshm + starts[i];
      ok := StorePointer(shm, raw, slot, childshm + starts[i], w, have);
      if !ok { return; }
      NextPointer(have, ptrs, slot);
      have := have[..slot] + [ptrs[slot]];
    }
    assert ptrs[..|strs|] == ptrs;
    FewerWords(shm[..], raw, w, have, |strs|);
  }

  lemma NextPointer(have: seq<nat>, ptrs: seq<nat>, slot: nat)
    requires slot <= |have| && slot < |ptrs| && have[..slot] == ptrs[..slot]
    ensures (have[..slot] + [ptrs[slot]])[..slot + 1] == ptrs[..slot + 1]
  {
  }

  lemma StartZero(strs: seq<CString>)
    ensures StartOf(strs, 0) == 0
  {
    assert strs[..0] == [];
  }

  lemma PointersFit(size: nat, childshm: nat, w: Widths, strs: seq<CString>)
    requires ValidWidths(w) && |Layout(strs)| <= size && Addressable(childshm, size, w)
    ensures forall k :: 0 <= k < |strs| ==> Pointers(childshm, strs)[k] == childshm + StartOf(strs, k) < WordLimit(w)
  {
    forall k | 0 <= k < |strs| ensures Pointers(childshm, strs)[k] == childshm + StartOf(strs, k) < WordLimit(w) {
      StartBound(strs, k);
      StartBound(strs, k + 1);
    }
  }

  lemma NoWords(mem: seq<byte>, raw: nat, w: Widths)
    requires raw <= |mem|
    ensures Words(mem, raw, w, [])
  {
  }

  lemma FewerWords(mem: seq<byte>, raw: nat, w: Widths, ptrs: seq<nat>, n: nat)
    requires Words(mem, raw, w, ptrs) && n <= |ptrs|
    ensures Words(mem, raw, w, ptrs[..n])
  {
  }

  /** What a script's execve needs: no more words than starts, and room for strings and pointers. */
  predicate ScriptFits(size: nat, w: Widths, useLinker: bool, ld: CString, redirected: CString, script: CString, nargs: nat)
  {
    && |Tokens(script)| <= MAX_TOKENS
    && var strs := ScriptStrings(useLinker, ld, redirected, Tokens(script));
       Room(size, w, strs, |strs| + nargs + 1)
  }

  /** The script branch: strings, then the pointers to them, the original program name, argv[1..], NULL.
      Answers the offset of the new vector; not ok when the words overrun the array of their starts, or
      anything overruns the segment. */
  method BuildScriptArgv(shm: array<byte>, childshm: nat, w: Widths, useLinker: bool, ld: CString, redirected: CString,
                         script: CString, program: nat, mem: nat -> byte, argv: nat, ghost args: seq<nat>)
    returns (ok: bool, raw: nat)
    requires ValidWidths(w) && program < WordLimit(w) && HasArgs(mem, argv, w, args)
    requires Addressable(childshm, shm.Length, w)
    modifies shm
    ensures ok <==> ScriptFits(shm.Length, w, useLinker, ld, redirected, script, |args|)
    ensures ok ==> var strs := ScriptStrings(useLinker, ld, redirected, Tokens(script));
                   && raw == |Layout(strs)| && shm[..raw] == Layout(strs)
                   && Words(shm[..], raw, w, Pointers(childshm, strs) + [program] + args + [0])
  {
    hide Words, Layout, HasArgs;
    var tokens := Tokens(script);
    ghost var strs := ScriptStrings(useLinker, ld, redirected, tokens);
    var copied, starts, curLoc := CopyTokens(shm, useLinker, ld, redirected, tokens);
    ok, raw := copied, curLoc;
    if !ok { return; }
    ok := PointAtTokens(shm, raw, childshm, w, useLinker, starts[..|tokens|], strs);
    if !ok { return; }
    ghost var ptrs := Pointers(childshm, strs);
    var first := if useLinker then |tokens| + 1 else |tokens|;
    ok := StorePointer(shm, raw, first, program, w, ptrs);
    if !ok { return; }
    assert ptrs[..first] == ptrs;
    ok := CopyChildArgs(shm, raw, first, w, mem, argv, args, ptrs + [program]);
  }

  /** The dynamically linked branch: the linker, the program's path, argv[1..], NULL; not ok when anything
      overruns the segment. */
  method BuildBinaryArgv(shm: array<byte>, childshm: nat, w: Widths, ld: CString, path: CString,
                         mem: nat -> byte, argv: nat, ghost args: seq<nat>) returns (ok: bool, raw: nat)
    requires ValidWidths(w) && HasArgs(mem, argv, w, args) && Addressable(childshm, shm.Length, w)
    modifies shm
    ensures ok <==> Room(shm.Length, w, [ld, path], |args| + 2)
    ensures ok ==> raw == |Layout([ld, path])| && shm[..raw] == Layout([ld, path])
    ensures ok ==> Words(shm[..], raw, w, Pointers(childshm, [ld, path]) + args + [0])
  {
    hide Words, Layout, HasArgs;
    ghost var strs := [ld, path];
    TwoStarts(ld, path);
    raw := 0;
    var offset1;
    ok, offset1 := StrCpy(shm, 0, ld, []);
    assert [] + [ld] == [ld] && [ld] + [path] == strs;
    if !ok { return; }
    ok, raw := StrCpy(shm, offset1, path, [ld]);
    if !ok { return; }
    PointersFit(shm.Length, childshm, w, strs);
    ghost var ptrs := Pointers(childshm, strs);
    assert ptrs == [childshm, childshm + offset1];
    ok := PointAtTwo(shm, raw, w, childshm, childshm + offset1);
    if !ok { return; }
    ok := CopyChildArgs(shm, raw, 1, w, mem, argv, args, ptrs);
  }

  /** new_argv[0] and new_argv[1] of the dynamically linked branch. */
  method PointAtTwo(shm: array<byte>, raw: nat, w: Widths, p0: nat, p1: nat) returns (ok: bool)
    requires ValidWidths(w) && p0 < WordLimit(w) && p1 < WordLimit(w) && raw <= shm.Length
    modifies shm
    ensures ok <==> SlotFits(shm.Length, raw, w, 1)
    ensures ok ==> shm[..raw] == old(shm[..raw]) && Words(shm[..], raw, w, [p0, p1])
  {
    hide Words;
    NoWords(shm[..], raw, w);
    ok := StorePointer(shm, raw, 0, p0, w, []);
    if !ok { return; }
    assert [][..0] + [p0] == [p0];
    ok := StorePointer(shm, raw, 1, p1, w, [p0]);
    if !ok { return; }
    assert [p0][..1] + [p1] == [p0, p1];
  }

  lemma TwoStarts(ld: CString, path: CString)
    ensures Layout([]) == []
    ensures StartOf([ld, path], 0) == 0 && StartOf([ld, path], 1) == |Layout([ld])| == |ld| + 1
    ensures |Layout([ld, path])| == |ld| + |path| + 2
  {
    assert [ld, path][..0] == [];
    assert [ld, path][..1] == [] + [ld] == [ld];
    assert [ld, path] == [ld] + [path];
    LayoutAppend([], ld);
    LayoutAppend([ld], path);
  }

  // ----- what the kernel reads -----

  /** The child's memory with the segment attached at childshm. */
  function View(mem: nat -> byte, shm: seq<byte>, childshm: nat): nat -> byte
  {
    (a: nat) => if childshm <= a < childshm + |shm| then shm[a - childshm] else mem(a)
  }

  /** The C string s lies at address a. */
  predicate StringLies(mem: nat -> byte, a: nat, s: CString)
  {
    (forall i :: 0 <= i < |s| ==> mem(a + i) == s[i]) && mem(a + |s|) == 0
  }

  /** The NULL-terminated vector at address argv holds exactly these strings. */
  predicate VectorIs(mem: nat -> byte, argv: nat, w: Widths, strs: seq<CString>)
  {
    && ChildWord(mem, argv + Slot(w, |strs|), w) == 0
    && forall j :: 0 <= j < |strs| ==>
         var p := ChildWord(mem, argv + Slot(w, j), w); p != 0 && StringLies(mem, p, strs[j])
  }

  /** A string in the child's own memory that a segment of this size does not cover. */
  predicate Apart(mem: nat -> byte, childshm: nat, size: nat, p: nat, s: CString)
  {
    p != 0 && StringLies(mem, p, s) && (p + |s| < childshm || childshm + size <= p)
  }

  lemma WordSeen(mem: nat -> byte, shm: seq<byte>, childshm: nat, p: nat, w: Widths)
    requires p + w.word <= |shm|
    ensures ChildWord(View(mem, shm, childshm), childshm + p, w) == Word(shm, p, w)
  {
    var seen := View(mem, shm, childshm);
    assert seq(w.word, j requires 0 <= j => seen(childshm + p + j)) == shm[p..p + w.word];
  }

  lemma OwnStringSeen(mem: nat -> byte, shm: seq<byte>, childshm: nat, p: nat, s: CString)
    requires Apart(mem, childshm, |shm|, p, s)
    ensures StringLies(View(mem, shm, childshm), p, s)
  {
    forall i | 0 <= i < |s| ensures View(mem, shm, childshm)(p + i) == s[i] { assert mem(p + i) == s[i]; }
  }

  lemma LaidStringSeen(mem: nat -> byte, shm: seq<byte>, childshm: nat, strs: seq<CString>, k: nat)
    requires k < |strs| && |Layout(strs)| <= |shm| && shm[..|Layout(strs)|] == Layout(strs)
    ensures StringLies(View(mem, shm, childshm), childshm + StartOf(strs, k), strs[k])
  {
    hide Layout, StartOf;
    StringAt(strs, k);
    var p, s, laid := StartOf(strs, k), strs[k], Layout(strs);
    forall i | 0 <= i <= |s| ensures p + i < |shm| && shm[p + i] == (s + [0])[i] {
      assert laid[p..p + |s + [0]|][i] == laid[p + i];
      assert shm[..|laid|][p + i] == shm[p + i];
    }
    forall i | 0 <= i < |s| ensures View(mem, shm, childshm)(childshm + p + i) == s[i] {
      assert shm[p + i] == (s + [0])[i];
    }
    assert shm[p + |s|] == (s + [0])[|s|];
  }

  /** The vector execve reads in the child is the copied strings followed by the child's own: so the
      linker, the words of the interpreter line or the program's path, the program name, and argv[1..],
      for every word size, every number of arguments and every length of string. */
  lemma VectorSeen(mem: nat -> byte, shm: seq<byte>, childshm: nat, w: Widths, strs: seq<CString>, ownPtrs: seq<nat>, own: seq<CString>)
    requires ValidWidths(w) && 0 < childshm && |ownPtrs| == |own|
    requires |Layout(strs)| <= |shm| && shm[..|Layout(strs)|] == Layout(strs)
    requires Words(shm, |Layout(strs)|, w, Pointers(childshm, strs) + ownPtrs + [0])
    requires forall k :: 0 <= k < |own| ==> Apart(mem, childshm, |shm|, ownPtrs[k], own[k])
    ensures VectorIs(View(mem, shm, childshm), childshm + |Layout(strs)|, w, strs + own)
  {
    hide ChildWord, StringLies, Layout, StartOf, Word;
    var seen, raw := View(mem, shm, childshm), |Layout(strs)|;
    var ptrs := Pointers(childshm, strs) + ownPtrs + [0];
    forall j | 0 <= j < |ptrs| ensures ChildWord(seen, childshm + raw + Slot(w, j), w) == ptrs[j] {
      assert Word(shm, raw + Slot(w, j), w) == ptrs[j];
      WordSeen(mem, shm, childshm, raw + Slot(w, j), w);
    }
    assert ptrs[|strs + own|] == 0;
    forall j | 0 <= j < |strs + own|
      ensures var p := ChildWord(seen, childshm + raw + Slot(w, j), w); p != 0 && StringLies(seen, p, (strs + own)[j])
    {
      if j < |strs| {
        assert ptrs[j] == Pointers(childshm, strs)[j] == childshm + StartOf(strs, j);
        LaidStringSeen(mem, shm, childshm, strs, j);
      } else {
        assert ptrs[j] == ownPtrs[j - |strs|];
        OwnStringSeen(mem, shm, childshm, ownPtrs[j - |strs|], own[j - |strs|]);
      }
    }
  }

  /** A script: linker and interpreter words, then the script's own name and its arguments. */
  lemma ScriptVectorSeen(mem: nat -> byte, shm: seq<byte>, childshm: nat, w: Widths, useLinker: bool, ld: CString, redirected: CString,
                         script: CString, program: nat, args: seq<nat>, name: CString, own: seq<CString>)
    requires ValidWidths(w) && 0 < childshm && |args| == |own|
    requires var strs := ScriptStrings(useLinker, ld, redirected, Tokens(script));
             && |Layout(strs)| <= |shm| && shm[..|Layout(strs)|] == Layout(strs)
             && Words(shm, |Layout(strs)|, w, Pointers(childshm, strs) + [program] + args + [0])
    requires Apart(mem, childshm, |shm|, program, name)
    requires forall k :: 0 <= k < |own| ==> Apart(mem, childshm, |shm|, args[k], own[k])
    ensures var strs := ScriptStrings(useLinker, ld, redirected, Tokens(script));
            VectorIs(View(mem, shm, childshm), childshm + |Layout(strs)|, w, strs + [name] + own)
  {
    hide Words, VectorIs, Apart, Layout, Tokens;
    var strs := ScriptStrings(useLinker, ld, redirected, Tokens(script));
    assert Pointers(childshm, strs) + [program] + args + [0] == Pointers(childshm, strs) + ([program] + args) + [0];
    assert strs + [name] + own == strs + ([name] + own);
    VectorSeen(mem, shm, childshm, w, strs, [program] + args, [name] + own);
  }

  lemma FirstStringSeen(mem: nat -> byte, shm: seq<byte>, childshm: nat, strs: seq<CString>)
    requires strs != [] && |Layout(strs)| <= |shm| && shm[..|Layout(strs)|] == Layout(strs)
    ensures StringLies(View(mem, shm, childshm), childshm, strs[0])
  {
    LaidStringSeen(mem, shm, childshm, strs, 0);
    StartZero(strs);
  }

  /** A script's execve as the kernel gets it: the segment filled, and the two argument registers pointed at
      its start and at the new vector. The kernel then finds there the program to run, which is the first of
      the copied strings, and the whole vector. */
  method RewriteScriptExecve(shm: array<byte>, childshm: nat, w: Widths, useLinker: bool, ld: CString, redirected: CString,
                             script: CString, program: nat, mem: nat -> byte, argv: nat, ghost args: seq<nat>,
                             ghost name: CString, ghost own: seq<CString>) returns (ok: bool, path: nat, newArgv: nat)
    requires ValidWidths(w) && program < WordLimit(w) && HasArgs(mem, argv, w, args) && |args| == |own|
    requires Addressable(childshm, shm.Length, w)
    requires Apart(mem, childshm, shm.Length, program, name)
    requires forall k :: 0 <= k < |own| ==> Apart(mem, childshm, shm.Length, args[k], own[k])
    modifies shm
    ensures ok <==> ScriptFits(shm.Length, w, useLinker, ld, redirected, script, |args|)
    ensures ok ==> var strs, seen := ScriptStrings(useLinker, ld, redirected, Tokens(script)), View(mem, shm[..], childshm);
                   && (strs != [] ==> StringLies(seen, path, strs[0]))
                   && VectorIs(seen, newArgv, w, strs + [name] + own)
  {
    hide Words, VectorIs, Layout, Tokens, HasArgs, StringLies;
    var built, raw := BuildScriptArgv(shm, childshm, w, useLinker, ld, redirected, script, program, mem, argv, args);
    if !built { return false, 0, 0; }
    ghost var strs := ScriptStrings(useLinker, ld, redirected, Tokens(script));
    ScriptVectorSeen(mem, shm[..], childshm, w, useLinker, ld, redirected, script, program, args, name, own);
    if strs != [] { FirstStringSeen(mem, shm[..], childshm, strs); }
    return true, childshm, childshm + raw;
  }

  /** The execve of a dynamically linked program: the kernel runs the linker, on a vector of the linker, the
      program's path and argv[1..]. */
  method RewriteBinaryExecve(shm: array<byte>, childshm: nat, w: Widths, ld: CString, prog: CString,
                             mem: nat -> byte, argv: nat, ghost args: seq<nat>, ghost own: seq<CString>)
    returns (ok: bool, path: nat, newArgv: nat)
    requires ValidWidths(w) && HasArgs(mem, argv, w, args) && |args| == |own| && Addressable(childshm, shm.Length, w)
    requires forall k :: 0 <= k < |own| ==> Apart(mem, childshm, shm.Length, args[k], own[k])
    modifies shm
    ensures ok <==> Room(shm.Length, w, [ld, prog], |args| + 2)
    ensures ok ==> var seen := View(mem, shm[..], childshm);
                   StringLies(seen, path, ld) && VectorIs(seen, newArgv, w, [ld, prog] + own)
  {
    hide Words, VectorIs, Layout, HasArgs, StringLies;
    var built, raw := BuildBinaryArgv(shm, childshm, w, ld, prog, mem, argv, args);
    if !built { return false, 0, 0; }
    VectorSeen(mem, shm[..], childshm, w, [ld, prog], args, own);
    FirstStringSeen(mem, shm[..], childshm, [ld, prog]);
    return true, childshm, childshm + raw;
  }
}
