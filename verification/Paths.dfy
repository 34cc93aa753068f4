/** Path canonicalization (strace-4.6/okapi.c): the component stack of new_path_internal, the string made of
    it by path2str, and the containment test file_is_within_dir. */
module Paths {
  import opened Machine

  type Str = seq<byte>

  const SLASH: byte := 47
  const DOT: byte := 46

  predicate IsAbs(s: Str) { s != [] && s[0] == SLASH }

  // ----- what a path means -----

  /** strchr for a slash, from i on; the length if there is none. */
  function NextSlash(s: Str, i: nat): (k: nat)
    requires i <= |s|
    ensures i <= k <= |s| && (k < |s| ==> s[k] == SLASH) && SLASH !in s[i..k]
    decreases |s| - i
  {
    if i == |s| || s[i] == SLASH then i
    else
      var k := NextSlash(s, i + 1);
      assert s[i..k] == [s[i]] + s[i + 1..k];
      k
  }

  /** The pieces between slashes, from i on. */
  function Pieces(s: Str, i: nat): (ps: seq<Str>)
    requires i <= |s|
    ensures ps != []
    decreases |s| - i
  {
    var k := NextSlash(s, i);
    if k == |s| then [s[i..]] else [s[i..k]] + Pieces(s, k + 1)
  }

  /** One piece: empty and "." change nothing, ".." drops the last component if there is one. */
  function Push(stack: seq<Str>, piece: Str): seq<Str>
  {
    if piece == [] || piece == [DOT] then stack
    else if piece == [DOT, DOT] then (if stack == [] then [] else stack[..|stack| - 1])
    else stack + [piece]
  }

  function Resolve(stack: seq<Str>, pieces: seq<Str>): seq<Str>
    decreases |pieces|
  {
    if pieces == [] then stack else Resolve(Push(stack, pieces[0]), pieces[1..])
  }

  /** The components an absolute path names. */
  function Components(path: Str): seq<Str>
    requires IsAbs(path)
  {
    Resolve([], Pieces(path, 1))
  }

  function Join(comps: seq<Str>): Str
  {
    if comps == [] then [] else if |comps| == 1 then comps[0] else comps[0] + [SLASH] + Join(comps[1..])
  }

  function Show(comps: seq<Str>): Str { [SLASH] + Join(comps) }

  /** canonicalize_abspath */
  function Canonical(path: Str): Str
    requires IsAbs(path)
  {
    Show(Components(path))
  }

  /** canonicalize_path; a relative path needs an absolute base. */
  function CanonicalFrom(path: Str, base: Str): Str
    requires IsAbs(path) || IsAbs(base)
  {
    if IsAbs(path) then Canonical(path) else Canonical(base + [SLASH] + path)
  }

  /** A component that stays: not empty, not "." or "..", and without a slash. */
  predicate IsPlain(c: Str) { c != [] && c != [DOT] && c != [DOT, DOT] && SLASH !in c }

  predicate AllPlain(comps: seq<Str>) { forall i :: 0 <= i < |comps| ==> IsPlain(comps[i]) }

  // ----- canonical paths -----

  lemma {:induction false} PiecesHaveNoSlash(s: Str, i: nat)
    requires i <= |s|
    ensures forall j :: 0 <= j < |Pieces(s, i)| ==> SLASH !in Pieces(s, i)[j]
    decreases |s| - i
  {
    var k := NextSlash(s, i);
    if k == |s| {
      assert s[i..] == s[i..k];
    } else {
      PiecesHaveNoSlash(s, k + 1);
    }
  }

  lemma {:induction false} ResolveStaysPlain(stack: seq<Str>, pieces: seq<Str>)
    requires AllPlain(stack) && forall j :: 0 <= j < |pieces| ==> SLASH !in pieces[j]
    ensures AllPlain(Resolve(stack, pieces))
    decreases |pieces|
  {
    if pieces != [] { ResolveStaysPlain(Push(stack, pieces[0]), pieces[1..]); }
  }

  /** Every path resolves to plain components: no "..", however placed, survives or climbs above the root. */
  lemma ComponentsPlain(path: Str)
    requires IsAbs(path)
    ensures AllPlain(Components(path))
  {
    PiecesHaveNoSlash(path, 1);
    ResolveStaysPlain([], Pieces(path, 1));
  }

  lemma {:induction false} ResolvePlain(stack: seq<Str>, comps: seq<Str>)
    requires AllPlain(comps)
    ensures Resolve(stack, comps) == stack + comps
    decreases |comps|
  {
    if comps == [] {
      assert stack + [] == stack;
    } else {
      ResolvePlain(stack + [comps[0]], comps[1..]);
      assert stack + [comps[0]] + comps[1..] == stack + comps;
    }
  }

  lemma {:induction false} NextSlashIs(s: Str, i: nat, k: nat)
    requires i <= k <= |s| && (k < |s| ==> s[k] == SLASH) && SLASH !in s[i..k]
    ensures NextSlash(s, i) == k
    decreases k - i
  {
    if i < k {
      assert s[i] == s[i..k][0];
      assert s[i + 1..k] == s[i..k][1..];
      NextSlashIs(s, i + 1, k);
    }
  }

  lemma JoinSplit(before: Str, comps: seq<Str>)
    requires |comps| > 1
    ensures before + Join(comps) == before + comps[0] + [SLASH] + Join(comps[1..])
  {
  }

  lemma FirstPiece(before: Str, c: Str, after: Str)
    requires SLASH !in c && (after == [] || after[0] == SLASH)
    ensures var s := before + c + after;
            Pieces(s, |before|) == if after == [] then [c] else [c] + Pieces(s, |before + c| + 1)
  {
    hide NextSlash;
    var s, i, k := before + c + after, |before|, |before + c|;
    assert s[i..k] == c;
    NextSlashIs(s, i, k);
    if after == [] { assert s[i..] == s[i..k]; }
  }

  lemma {:induction false} PiecesOfJoin(before: Str, comps: seq<Str>)
    requires comps != [] && AllPlain(comps)
    ensures Pieces(before + Join(comps), |before|) == comps
    decreases |comps|
  {
    hide NextSlash, Pieces, Join;
    var c := comps[0];
    if |comps| == 1 {
      FirstPiece(before, c, []);
      assert Join(comps) == c by { JoinOne(comps); }
      assert before + c + [] == before + c;
    } else {
      var next, rest := before + c + [SLASH], Join(comps[1..]);
      JoinSplit(before, comps);
      PiecesOfJoin(next, comps[1..]);
      FirstPiece(before, c, [SLASH] + rest);
      assert before + c + ([SLASH] + rest) == next + rest;
      assert [c] + comps[1..] == comps;
    }
  }

  lemma JoinOne(comps: seq<Str>)
    requires |comps| == 1
    ensures Join(comps) == comps[0]
  {
  }

  lemma RootAlone()
    ensures Components([SLASH]) == []
  {
    var pieces: seq<Str> := [[]];
    assert [SLASH][1..] == [] && Pieces([SLASH], 1) == pieces;
    assert pieces[1..] == [];
  }

  /** Printing components and resolving the string gives the components back. */
  lemma ShowRoundTrip(comps: seq<Str>)
    requires AllPlain(comps)
    ensures Components(Show(comps)) == comps
  {
    hide Pieces, Resolve;
    if comps == [] {
      RootAlone();
      assert Show(comps) == [SLASH];
    } else {
      PiecesOfJoin([SLASH], comps);
      ResolvePlain([], comps);
    }
  }

  /** Canonical paths are absolute, canonicalizing them again changes nothing, and two paths have the same
      canonical string exactly when they name the same components. */
  lemma CanonicalFacts(path: Str, other: Str)
    requires IsAbs(path) && IsAbs(other)
    ensures IsAbs(Canonical(path)) && Canonical(Canonical(path)) == Canonical(path)
    ensures Canonical(path) == Canonical(other) <==> Components(path) == Components(other)
  {
    ComponentsPlain(path);
    ComponentsPlain(other);
    ShowRoundTrip(Components(path));
    ShowRoundTrip(Components(other));
  }

  lemma {:induction false} NextSlashConcat(x: Str, y: Str, i: nat)
    requires IsAbs(y) && i <= |x|
    ensures NextSlash(x + y, i) == NextSlash(x, i)
  {
    var k := NextSlash(x, i);
    assert (x + y)[i..k] == x[i..k];
    NextSlashIs(x + y, i, k);
  }

  lemma {:induction false} PiecesShift(x: Str, y: Str, j: nat)
    requires j <= |y|
    ensures Pieces(x + y, |x| + j) == Pieces(y, j)
    decreases |y| - j
  {
    hide NextSlash;
    var s, k := x + y, NextSlash(y, j);
    assert s[|x| + j..|x| + k] == y[j..k];
    NextSlashIs(s, |x| + j, |x| + k);
    if k < |y| { PiecesShift(x, y, k + 1); } else { assert s[|x| + j..] == y[j..]; }
  }

  lemma {:induction false} PiecesConcat(x: Str, y: Str, i: nat)
    requires IsAbs(y) && i <= |x|
    ensures Pieces(x + y, i) == Pieces(x, i) + Pieces(y, 1)
    decreases |x| - i
  {
    hide NextSlash, Pieces;
    var s, k := x + y, NextSlash(x, i);
    NextSlashConcat(x, y, i);
    PiecesUnfold(s, i);
    PiecesUnfold(x, i);
    assert s[i..k] == x[i..k];
    if k == |x| {
      PiecesShift(x, y, 1);
      assert x[i..] == x[i..k];
    } else {
      PiecesConcat(x, y, k + 1);
      assert [x[i..k]] + (Pieces(x, k + 1) + Pieces(y, 1)) == [x[i..k]] + Pieces(x, k + 1) + Pieces(y, 1);
    }
  }

  lemma PiecesUnfold(s: Str, i: nat)
    requires i <= |s|
    ensures var k := NextSlash(s, i);
            Pieces(s, i) == if k == |s| then [s[i..]] else [s[i..k]] + Pieces(s, k + 1)
  {
  }

  lemma {:induction false} ResolveConcat(stack: seq<Str>, a: seq<Str>, b: seq<Str>)
    ensures Resolve(stack, a + b) == Resolve(Resolve(stack, a), b)
    decreases |a|
  {
    if a == [] {
      assert [] + b == b;
    } else {
      assert (a + b)[1..] == a[1..] + b;
      ResolveConcat(Push(stack, a[0]), a[1..], b);
    }
  }

  /** Appending an absolute path resolves its pieces from where the first path ends. */
  lemma ComponentsConcat(x: Str, y: Str)
    requires IsAbs(x) && IsAbs(y)
    ensures Components(x + y) == Resolve(Components(x), Pieces(y, 1))
  {
    PiecesConcat(x, y, 1);
    ResolveConcat([], Pieces(x, 1), Pieces(y, 1));
  }

  /** A relative path is resolved from the components of its base. */
  lemma RelativeResolves(path: Str, base: Str)
    requires !IsAbs(path) && IsAbs(base)
    ensures CanonicalFrom(path, base) == Show(Resolve(Components(base), Pieces(path, 0)))
  {
    var y := [SLASH] + path;
    assert base + [SLASH] + path == base + y;
    ComponentsConcat(base, y);
    PiecesShift([SLASH], path, 0);
  }

  lemma OnePiece(piece: Str)
    requires SLASH !in piece
    ensures Pieces([SLASH] + piece, 1) == [piece]
  {
    FirstPiece([SLASH], piece, []);
    assert [SLASH] + piece + [] == [SLASH] + piece;
  }

  lemma OneMorePiece(path: Str, piece: Str)
    requires IsAbs(path) && SLASH !in piece
    ensures Components(path + [SLASH] + piece) == Push(Components(path), piece)
  {
    assert path + [SLASH] + piece == path + ([SLASH] + piece);
    ComponentsConcat(path, [SLASH] + piece);
    OnePiece(piece);
    assert [piece][1..] == [];
  }

  /** The laws that fix the components of every path: those of "/", and what one more piece adds. A name adds
      itself, nothing and "." add nothing, ".." takes the last component away and stays at "/". */
  lemma ComponentLaws(path: Str, name: Str)
    requires IsAbs(path) && IsPlain(name)
    ensures Components(['/' as int]) == []
    ensures Components(path + ['/' as int] + name) == Components(path) + [name]
    ensures Components(path + ['/' as int]) == Components(path)
    ensures Components(path + ['/' as int] + ['.' as int]) == Components(path)
    ensures var cs := Components(path);
            Components(path + ['/' as int] + ['.' as int, '.' as int]) == if cs == [] then [] else cs[..|cs| - 1]
  {
    hide Components;
    RootAlone();
    OneMorePiece(path, name);
    OneMorePiece(path, []);
    assert path + [SLASH] + [] == path + [SLASH];
    OneMorePiece(path, [46]);
    OneMorePiece(path, [46, 46]);
  }

  // ----- containment -----

  /** Every component followed by a slash. */
  function Slashed(comps: seq<Str>): Str
  {
    if comps == [] then [] else comps[0] + [SLASH] + Slashed(comps[1..])
  }

  /** The slash that file_is_within_dir tacks on to anything but "/". */
  function WithSlash(cano: Str): Str { if |cano| > 1 then cano + [SLASH] else cano }

  lemma {:induction false} SlashedIsJoin(comps: seq<Str>)
    requires comps != []
    ensures Slashed(comps) == Join(comps) + [SLASH]
  {
    if |comps| == 1 {
      assert comps[1..] == [];
      assert Slashed(comps) == comps[0] + [SLASH];
    } else {
      SlashedIsJoin(comps[1..]);
    }
  }

  lemma WithSlashIs(comps: seq<Str>)
    requires AllPlain(comps)
    ensures WithSlash(Show(comps)) == [SLASH] + Slashed(comps)
  {
    if comps != [] {
      SlashedIsJoin(comps);
      assert Join(comps) != [];
    }
  }

  lemma SameFirst(a: Str, b: Str, x: Str, y: Str)
    requires SLASH !in a && SLASH !in b
    ensures a + [SLASH] + x <= b + [SLASH] + y <==> a == b && x <= y
  {
    var l, r := a + [SLASH] + x, b + [SLASH] + y;
    assert r[0..|b|] == b;
    NextSlashIs(r, 0, |b|);
    if a == b && x <= y { assert r == l + y[|x|..]; }
    if l <= r {
      assert r[0..|a|] == l[0..|a|] == a && r[|a|] == l[|a|];
      NextSlashIs(r, 0, |a|);
      assert x == l[|a| + 1..] && y == r[|a| + 1..];
    }
  }

  lemma PrefixCons(a: seq<Str>, b: seq<Str>)
    requires a != [] && b != []
    ensures a <= b <==> a[0] == b[0] && a[1..] <= b[1..]
  {
    assert a == [a[0]] + a[1..] && b == [b[0]] + b[1..];
  }

  lemma {:induction false} SlashedPrefix(a: seq<Str>, b: seq<Str>)
    requires AllPlain(a) && AllPlain(b)
    ensures Slashed(a) <= Slashed(b) <==> a <= b
  {
    if a != [] && b != [] {
      SameFirst(a[0], b[0], Slashed(a[1..]), Slashed(b[1..]));
      SlashedPrefix(a[1..], b[1..]);
      PrefixCons(a, b);
    }
  }

  /** The string test decides containment of the named directories, component by component. */
  lemma WithinIsComponentPrefix(a: seq<Str>, b: seq<Str>)
    requires AllPlain(a) && AllPlain(b)
    ensures WithSlash(Show(a)) <= WithSlash(Show(b)) <==> a <= b
  {
    WithSlashIs(a);
    WithSlashIs(b);
    SlashedPrefix(a, b);
    var x, y := [SLASH] + Slashed(a), [SLASH] + Slashed(b);
    assert x[1..] == Slashed(a) && y[1..] == Slashed(b);
  }
}
