/** The component stack of strace-4.6/okapi.c as it is worked on in place: an array with a NULL after its
    last component, grown by doubling, with stackleft as the running account of free slots. */
module PathStacks {
  import opened Machine
  import opened Paths

  class PathStack {
    var stack: array<Option<Str>>
    var depth: nat

    /** Components first, then the NULL that delete_path and empty_path stop at. */
    ghost predicate Valid()
      reads this, stack
    {
      depth < stack.Length && stack[depth] == None && forall i :: 0 <= i < depth ==> stack[i].Some?
    }

    ghost function Comps(): (r: seq<Str>)
      requires Valid()
      reads this, stack
      ensures |r| == depth
    {
      seq(depth, i requires 0 <= i < depth reads this, stack requires Valid() => stack[i].value)
    }

    /** new_path */
    constructor ()
      ensures Valid() && fresh(stack) && depth == 0 && stack.Length == 1
    {
      stack := new Option<Str>[1](_ => None);
      depth := 0;
    }

    /** The realloc: twice the slots and one more. */
    method Grow() returns (left: nat)
      requires Valid()
      modifies this`stack
      ensures Valid() && fresh(stack) && Comps() == old(Comps())
      ensures left > 1 && left + depth + 1 <= stack.Length
      ensures stack.Length == 2 * old(stack.Length) + 1 && left == old(stack.Length) + 1
    {
      var n := stack.Length;
      var bigger := new Option<Str>[2 * n + 1];
      forall i | 0 <= i < n { bigger[i] := stack[i]; }
      stack := bigger;
      left := n + 1;
    }

    /** path_pop */
    method Pop()
      requires Valid()
      modifies this`depth, stack
      ensures Valid() && Comps() == if old(depth) == 0 then [] else old(Comps())[..old(depth) - 1]
    {
      if depth == 0 { return; }
      stack[depth - 1] := None;
      depth := depth - 1;
    }

    /** The branches on one piece of the path. Two slots are free on entry, so both writes stay inside. */
    method PushPiece(piece: Str, stackleft: nat) returns (left: nat)
      requires Valid() && stackleft > 1 && stackleft + depth + 1 <= stack.Length
      modifies this`depth, stack
      ensures Valid() && left + depth == stackleft + old(depth)
      ensures Comps() == Push(old(Comps()), piece)
    {
      left := stackleft;
      if piece == [] {
        stack[depth] := None;
      } else if piece == [DOT] {
        stack[depth] := None;
      } else if piece == [DOT, DOT] {
        if depth > 0 {
          Pop();
          left := left + 1;
        }
      } else {
        stack[depth] := Some(piece);
        depth := depth + 1;
        stack[depth] := None;
        left := left - 1;
      }
    }

    /** new_path_internal on an absolute path */
    method Fill(path: Str)
      requires Valid() && depth == 0 && stack.Length == 1 && IsAbs(path)
      modifies this, stack
      ensures Valid() && Comps() == Components(path)
    {
      hide Pieces, Resolve, NextSlash, Push;
      var stackleft: nat := stack.Length - depth - 1;
      var pos: nat := 1;
      ghost var first := stack;
      assert Comps() == [];
      while true
        invariant Valid() && pos <= |path| && stackleft + depth + 1 <= stack.Length
        invariant stack == first || fresh(stack)
        invariant Resolve(Comps(), Pieces(path, pos)) == Components(path)
        decreases |path| - pos
      {
        while stackleft <= 1
          invariant Valid() && stackleft + depth + 1 <= stack.Length
          invariant stack == first || fresh(stack)
          invariant Resolve(Comps(), Pieces(path, pos)) == Components(path)
          decreases 2 - stackleft
        {
          stackleft := Grow();
        }
        pos := SkipSlashes(path, pos, Comps());
        var p := FindSlash(path, pos);
        PieceTaken(Comps(), path, pos);
        stackleft := PushPiece(path[pos..p], stackleft);
        if p == |path| { return; }
        pos := p + 1;
      }
    }

    /** path2str: the first depth components, all of them if depth is out of range. The account of the
        buffer never runs out before the string does. */
    method Path2Str(upTo: int) returns (dest: Str)
      requires Valid()
      ensures var n := if upTo <= 0 || upTo > depth then depth else upTo;
              dest == Show(Comps()[..n])
    {
      hide Slashed, Join;
      var n := upTo;
      if n <= 0 || n > depth { n := depth; }
      ghost var comps := Comps()[..n];
      var destlen := 2;
      NothingSlashed();
      for i := 0 to n
        invariant destlen == 2 + |Slashed(comps[..i])|
      {
        SlashedNext(comps, i);
        destlen := destlen + |stack[i].value| + 1;
      }
      assert comps[..n] == comps == comps[0..];
      dest := [SLASH];
      destlen := destlen - 1;
      for i := 0 to n
        invariant dest == [SLASH] + if i < n then Slashed(comps[..i]) else Join(comps)
        invariant i < n ==> destlen == 1 + |Slashed(comps[i..])|
      {
        var c := stack[i].value;
        SlashedNext(comps, i);
        SlashedRest(comps, i);
        assert destlen >= |c| + 1;
        dest := dest + c;
        destlen := destlen - |c|;
        if i < n - 1 {
          assert destlen >= 2;
          dest := dest + [SLASH];
          destlen := destlen - 1;
        }
      }
    }
  }

  lemma NothingSlashed()
    ensures Slashed([]) == [] && Join([]) == []
  {
  }

  lemma SlashedRest(comps: seq<Str>, i: nat)
    requires i < |comps|
    ensures Slashed(comps[i..]) == comps[i] + [SLASH] + Slashed(comps[i + 1..])
  {
    assert comps[i..][1..] == comps[i + 1..];
  }

  lemma {:induction false} SlashedAppend(a: seq<Str>, b: seq<Str>)
    ensures Slashed(a + b) == Slashed(a) + Slashed(b)
  {
    if a == [] {
      assert a + b == b;
    } else {
      SlashedAppend(a[1..], b);
      assert (a + b)[1..] == a[1..] + b;
    }
  }

  /** One component on: what path2str has written, and at the last one the joined string. */
  lemma SlashedNext(comps: seq<Str>, i: nat)
    requires i < |comps|
    ensures Slashed(comps[..i + 1]) == Slashed(comps[..i]) + comps[i] + [SLASH]
    ensures i == |comps| - 1 ==> Join(comps) == Slashed(comps[..i]) + comps[i]
  {
    hide Slashed, Join;
    TakeNext(comps, i);
    SlashedAppend(comps[..i], [comps[i]]);
    SlashedOne(comps[i]);
    if i == |comps| - 1 {
      SlashedIsJoin(comps);
      SameBeforeSlash(Join(comps), Slashed(comps[..i]) + comps[i]);
    }
  }

  lemma TakeNext(comps: seq<Str>, i: nat)
    requires i < |comps|
    ensures comps[..i + 1] == comps[..i] + [comps[i]]
    ensures i == |comps| - 1 ==> comps[..i + 1] == comps
  {
  }

  lemma SlashedOne(c: Str)
    ensures Slashed([c]) == c + [SLASH]
  {
    assert [c][1..] == [];
  }

  lemma SameBeforeSlash(x: Str, y: Str)
    requires x + [SLASH] == y + [SLASH]
    ensures x == y
  {
    assert x == (x + [SLASH])[..|x|] && y == (y + [SLASH])[..|y|];
  }

  method SkipSlashes(path: Str, start: nat, ghost stack: seq<Str>) returns (pos: nat)
    requires start <= |path|
    ensures start <= pos <= |path| && (pos < |path| ==> path[pos] != SLASH)
    ensures Resolve(stack, Pieces(path, pos)) == Resolve(stack, Pieces(path, start))
  {
    hide Pieces, Resolve;
    pos := start;
    while pos < |path| && path[pos] == SLASH
      invariant start <= pos <= |path|
      invariant Resolve(stack, Pieces(path, pos)) == Resolve(stack, Pieces(path, start))
    {
      PieceTaken(stack, path, pos);
      pos := pos + 1;
    }
  }

  /** strchr */
  method FindSlash(path: Str, start: nat) returns (p: nat)
    requires start <= |path|
    ensures p == NextSlash(path, start)
  {
    p := start;
    while p < |path| && path[p] != SLASH
      invariant start <= p <= |path| && NextSlash(path, start) == NextSlash(path, p)
    {
      p := p + 1;
    }
  }

  lemma PieceTaken(stack: seq<Str>, path: Str, pos: nat)
    requires pos <= |path|
    ensures var p := NextSlash(path, pos);
            var next := Push(stack, path[pos..p]);
            Resolve(stack, Pieces(path, pos)) == if p == |path| then next else Resolve(next, Pieces(path, p + 1))
  {
    hide NextSlash, Pieces, Resolve, Push;
    var p := NextSlash(path, pos);
    PiecesUnfold(path, pos);
    if p == |path| {
      WholeRest(path, pos);
      ResolveCons(stack, path[pos..p], []);
    } else {
      ResolveCons(stack, path[pos..p], Pieces(path, p + 1));
    }
  }

  lemma WholeRest(path: Str, pos: nat)
    requires pos <= |path|
    ensures path[pos..] == path[pos..|path|]
  {
  }

  lemma ResolveCons(stack: seq<Str>, piece: Str, rest: seq<Str>)
    ensures Resolve(stack, [piece] + rest) == Resolve(Push(stack, piece), rest)
    ensures rest == [] ==> Resolve(stack, [piece]) == Push(stack, piece)
  {
    assert ([piece] + rest)[1..] == rest;
    if rest == [] { assert [piece] + rest == [piece]; }
  }

  /** canonicalize_path */
  method CanonicalizePath(path: Str, base: Str) returns (r: Str)
    requires IsAbs(path) || IsAbs(base)
    ensures r == CanonicalFrom(path, base)
  {
    var p := new PathStack();
    if IsAbs(path) { p.Fill(path); } else { p.Fill(base + [SLASH] + path); }
    r := p.Path2Str(0);
    assert p.Comps()[..p.depth] == p.Comps();
  }

  /** file_is_within_dir: true exactly for the directory itself and what lies below it. */
  method FileIsWithinDir(filename: Str, targetDir: Str, base: Str) returns (within: bool)
    requires IsAbs(targetDir) && (IsAbs(filename) || IsAbs(base))
    ensures within <==> Components(targetDir) <= Components(CanonicalFrom(filename, base))
  {
    var dir := CanonicalizePath(targetDir, base);
    var file := CanonicalizePath(filename, base);
    var full := if IsAbs(filename) then filename else base + [SLASH] + filename;
    ComponentsPlain(targetDir);
    ComponentsPlain(full);
    ShowRoundTrip(Components(full));
    WithinIsComponentPrefix(Components(targetDir), Components(full));
    var d := WithSlash(dir);
    var f := WithSlash(file);
    return |d| <= |f| && d == f[..|d|];
  }
}
