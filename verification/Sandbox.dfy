/** Paths in and out of cde-root (strace-4.6/cde.c): the working directory a program is told it has, the
    path that a file name is redirected to, and what keeps the two together. */
module Sandbox {
  import opened Machine
  import opened Paths

  /** The globals the mapping reads: cde_cderoot_dir, multi_repo_paths, cde_exec_from_outside_cderoot, and
      ignore_path, whose option lists are not modelled. */
  datatype Box = Box(root: Str, repos: seq<Str>, outside: bool, ignored: Str -> bool)

  // ----- the working directory -----

  datatype Cwd = Fatal | Told(dir: Str)

  /** extract_sandboxed_pwd */
  function ExtractPwd(box: Box, pwd: Str): Cwd
  {
    var within := box.root <= pwd;
    if box.ignored(pwd) && !within then Told(pwd)
    else if !within then
      if box.outside || RepoOf(box.repos, pwd).Some? then Told(pwd) else Fatal
    else if |pwd| == |box.root| then Told([SLASH])
    else Told(pwd[|box.root|..])
  }

  /** create_abspath_within_cderoot in exec mode; the source asserts that the path is absolute. */
  function CreateWithin(root: Str, path: Str): Str
    requires IsAbs(path)
  {
    if root <= path then path else root + path
  }

  /** Taking a path into the root and its directory out again gives the path back exactly when the path did
      not already start with the root string. */
  lemma ExtractAfterCreate(box: Box, path: Str)
    requires IsAbs(path) && IsAbs(box.root)
    ensures ExtractPwd(box, CreateWithin(box.root, path)) == Told(path) <==>
            !(box.root <= path) || (box.root == [SLASH] && path == [SLASH])
  {
    var root := box.root;
    if root <= path {
      assert |path[|root|..]| < |path|;
    } else {
      assert (root + path)[|root|..] == path;
    }
  }

  /** The other way round: a working directory below the root is found again exactly when what remains of
      it is not empty and does not itself start with the root string. */
  lemma CreateAfterExtract(box: Box, pwd: Str)
    requires IsAbs(box.root) && box.root <= pwd && (pwd == box.root || pwd[|box.root|] == SLASH)
    ensures var cwd := ExtractPwd(box, pwd);
            && cwd.Told? && IsAbs(cwd.dir)
            && (CreateWithin(box.root, cwd.dir) == pwd <==>
                if pwd == box.root then box.root == [SLASH] else !(box.root <= pwd[|box.root|..]))
  {
    var root := box.root;
    var rest := pwd[|root|..];
    assert pwd == root + rest;
    if pwd == root {
      if !(root <= [SLASH]) { assert |root + [SLASH]| > |pwd|; }
    } else if root <= rest {
      assert |rest| < |pwd|;
    }
  }

  lemma CreateIdempotent(root: Str, path: Str)
    requires IsAbs(path) && IsAbs(root)
    ensures IsAbs(CreateWithin(root, path))
    ensures CreateWithin(root, CreateWithin(root, path)) == CreateWithin(root, path)
    ensures root <= CreateWithin(root, path)
  {
    assert !(root <= path) ==> (root + path)[..|root|] == root;
  }

  // ----- redirection -----

  /** get_repo_path_id: the first repository whose path the given one starts with. */
  function RepoOf(repos: seq<Str>, path: Str): (r: Option<nat>)
    ensures r.Some? ==> r.value < |repos| && repos[r.value] <= path
    ensures r.Some? ==> forall i :: 0 <= i < r.value ==> !(repos[i] <= path)
    ensures r.None? ==> forall i :: 0 <= i < |repos| ==> !(repos[i] <= path)
  {
    if repos == [] then None
    else if repos[0] <= path then Some(0)
    else
      match RepoOf(repos[1..], path)
      case None => None
      case Some(i) => Some(i + 1)
  }

  method GetRepoPathId(repos: seq<Str>, path: Str) returns (id: int)
    ensures id == match RepoOf(repos, path) case Some(i) => i case None => -1
  {
    for i := 0 to |repos|
      invariant forall j :: 0 <= j < i ==> !(repos[j] <= path)
    {
      if |repos[i]| <= |path| && path[..|repos[i]|] == repos[i] { return i; }
    }
    return -1;
  }

  predicate EndsWith(s: Str, suffix: Str)
  {
    |suffix| <= |s| && s[|s| - |suffix|..] == suffix
  }

  const CDE: Str := [47, 99, 100, 101]
  const PTU: Str := [47, 112, 116, 117]
  const EXEC: Str := [45, 101, 120, 101, 99]

  /** is_cde_binary: /cde, /cde-exec, /ptu or /ptu-exec at the end */
  predicate IsCdeBinary(path: Str)
  {
    EndsWith(path, CDE) || EndsWith(path, CDE + EXEC) || EndsWith(path, PTU) || EndsWith(path, PTU + EXEC)
  }

  /** The last bytes of a path spell a name. */
  predicate EndsIn(path: Str, name: string)
  {
    |name| <= |path| && forall i :: 0 <= i < |name| ==> path[|path| - |name| + i] == name[i] as int
  }

  lemma EndsWithIs(path: Str, suffix: Str, name: string)
    requires |suffix| == |name| && forall i :: 0 <= i < |name| ==> suffix[i] == name[i] as int
    ensures EndsWith(path, suffix) <==> EndsIn(path, name)
  {
    if |name| <= |path| {
      var last := path[|path| - |name|..];
      assert forall i :: 0 <= i < |name| ==> last[i] == path[|path| - |name| + i];
      if EndsIn(path, name) { assert last == suffix; }
    }
  }

  /** The tracer's own binaries are the paths that end in one of four names. */
  lemma OwnBinaries(path: Str)
    ensures IsCdeBinary(path) <==>
            EndsIn(path, "/cde") || EndsIn(path, "/cde-exec") || EndsIn(path, "/ptu") || EndsIn(path, "/ptu-exec")
  {
    hide EndsWith, EndsIn;
    EndsWithIs(path, CDE, "/cde");
    EndsWithIs(path, CDE + EXEC, "/cde-exec");
    EndsWithIs(path, PTU, "/ptu");
    EndsWithIs(path, PTU + EXEC, "/ptu-exec");
  }

  datatype Redirection = Exit | Assertion | Unchanged | To(path: Str)

  /** redirect_filename_into_cderoot in exec mode: exit outside the sandbox, a failed assertion on a base
      that is not absolute, NULL for what is left alone. */
  function Redirect(box: Box, filename: Str, pwd: Str): Redirection
  {
    match ExtractPwd(box, pwd)
    case Fatal => Exit
    case Told(base) =>
      if !IsAbs(filename) && !IsAbs(base) then Assertion
      else
        var c := CanonicalFrom(filename, base);
        if RepoOf(box.repos, c).Some? then To(c)
        else if IsCdeBinary(c) || box.ignored(c) then Unchanged
        else To(CreateWithin(box.root, c))
  }

  /** What a file name means to the program: its canonical path from the directory it believes to be in. */
  ghost function Meant(box: Box, filename: Str, pwd: Str): Str
    requires Redirect(box, filename, pwd).To?
  {
    CanonicalFrom(filename, ExtractPwd(box, pwd).dir)
  }

  lemma CanonicalFromPlain(path: Str, base: Str)
    requires IsAbs(path) || IsAbs(base)
    ensures var c := CanonicalFrom(path, base);
            IsAbs(c) && AllPlain(Components(c)) && c == Show(Components(c))
  {
    var full := if IsAbs(path) then path else base + [SLASH] + path;
    ComponentsPlain(full);
    ShowRoundTrip(Components(full));
  }

  /** The program is told no directory: it is outside the root and every repository, where it may not be. */
  predicate Lost(box: Box, pwd: Str)
  {
    && !(box.root <= pwd) && !box.ignored(pwd) && !box.outside
    && forall i :: 0 <= i < |box.repos| ==> !(box.repos[i] <= pwd)
  }

  /** A name is redirected exactly when its canonical path is a repository's, or is neither one of the tracer's
      own binaries nor ignored; a repository's is left as it is, any other goes under the root unless it starts
      with the root string already. */
  lemma RedirectsExactly(box: Box, filename: Str, pwd: Str)
    ensures Redirect(box, filename, pwd) == Exit <==> Lost(box, pwd)
    ensures !Lost(box, pwd) ==>
              var base := ExtractPwd(box, pwd).dir;
              var r := Redirect(box, filename, pwd);
              && (r == Assertion <==> !IsAbs(filename) && !IsAbs(base))
              && (r != Assertion ==>
                    var c := CanonicalFrom(filename, base);
                    var repo := exists i :: 0 <= i < |box.repos| && box.repos[i] <= c;
                    && (r.To? <==> repo || !(IsCdeBinary(c) || box.ignored(c)))
                    && (r.To? && repo ==> r.path == c)
                    && (r.To? && !repo && box.root <= c ==> r.path == c)
                    && (r.To? && !repo && !(box.root <= c) ==> r.path == box.root + c))
  {
  }

  /** What the program is told: "/" at the root, the rest of the path below it, and the real directory where it is
      ignored, in a repository, or allowed outside. */
  lemma ToldExactly(box: Box, pwd: Str)
    requires !Lost(box, pwd)
    ensures var cwd := ExtractPwd(box, pwd);
            && cwd.Told?
            && (pwd == box.root ==> cwd.dir == [SLASH])
            && (box.root < pwd ==> box.root + cwd.dir == pwd)
            && (!(box.root <= pwd) ==> cwd.dir == pwd)
  {
  }

  /** Every redirected name that is not a repository's starts with the root string, wherever the program is
      and whatever name it gives. */
  lemma RedirectedStartsWithRoot(box: Box, filename: Str, pwd: Str)
    requires IsAbs(box.root) && Redirect(box, filename, pwd).To?
    ensures var r := Redirect(box, filename, pwd).path;
            IsAbs(r) && (RepoOf(box.repos, r).Some? || box.root <= r)
  {
    var base := ExtractPwd(box, pwd).dir;
    CanonicalFromPlain(filename, base);
    CreateIdempotent(box.root, CanonicalFrom(filename, base));
  }

  /** Whether a canonical path continues the root string in the middle of a component: the prefix test
      takes /x/cde-root2 for a path inside /x/cde-root. */
  predicate Straddles(root: Str, path: Str)
  {
    root < path && path[|root|] != SLASH
  }

  /** Below a canonical root other than "/", the string prefix means containment exactly when the path does
      not straddle it. */
  lemma PrefixMeansInside(a: seq<Str>, b: seq<Str>)
    requires AllPlain(a) && AllPlain(b) && a != [] && Show(a) <= Show(b)
    ensures a <= b <==> !Straddles(Show(a), Show(b))
  {
    WithinIsComponentPrefix(a, b);
    var x, y := Show(a), Show(b);
    assert |x| > 1;
    if x == y {
    } else if y[|x|] == SLASH {
      assert y == x + [SLASH] + y[|x| + 1..];
    }
  }

  /** With the root /r, the file /r2 is left where it is. */
  lemma SiblingLeftOutside()
    ensures var root, path := [SLASH, 114], [SLASH, 114, 50];
            && Straddles(root, path) && CreateWithin(root, path) == path
            && Components(root) == [[114]] && Components(path) == [[114, 50]]
  {
    var a: seq<Str>, b: seq<Str> := [[114]], [[114, 50]];
    assert Show(a) == [SLASH, 114] && Show(b) == [SLASH, 114, 50];
    ShowRoundTrip(a);
    ShowRoundTrip(b);
  }

  /** The redirected path of a non-repository name lies inside the root directory exactly when the meant path
      does not straddle the root string; and unless it starts with the root string, it names below the root
      the very components the program meant. */
  lemma RedirectedInside(box: Box, filename: Str, pwd: Str)
    requires Redirect(box, filename, pwd).To? && RepoOf(box.repos, Meant(box, filename, pwd)).None?
    requires IsAbs(box.root) && box.root == Canonical(box.root) && box.root != [SLASH]
    ensures var r, c := Redirect(box, filename, pwd).path, Meant(box, filename, pwd);
            && IsAbs(r) && IsAbs(c)
            && (Components(box.root) <= Components(r) <==> !Straddles(box.root, c))
            && (!(box.root <= c) ==> Components(r) == Components(box.root) + Components(c))
  {
    var root, c := box.root, Meant(box, filename, pwd);
    CanonicalFromPlain(filename, ExtractPwd(box, pwd).dir);
    CanonicalFromPlain(root, root);
    var a, b := Components(root), Components(c);
    assert a != [];
    if root <= c {
      PrefixMeansInside(a, b);
    } else {
      BelowRoot(root, c);
    }
  }

  lemma BelowRoot(root: Str, c: Str)
    requires IsAbs(root) && IsAbs(c) && AllPlain(Components(c)) && c == Show(Components(c))
    ensures Components(root + c) == Components(root) + Components(c)
  {
    ComponentsConcat(root, c);
    var cs := Components(c);
    if cs == [] {
      RootAlone();
      assert c == [SLASH];
      RootPieces();
    } else {
      PiecesOfJoin([SLASH], cs);
      ResolvePlain(Components(root), cs);
    }
  }

  lemma RootPieces()
    ensures forall stack :: Resolve(stack, Pieces([SLASH], 1)) == stack
  {
    var pieces: seq<Str> := [[]];
    assert [SLASH][1..] == [] && Pieces([SLASH], 1) == pieces && pieces[1..] == [];
  }

  /** A program in root + d that opens a relative name gets, below the root, the components that the name
      resolves to from d: "..", however often, ends at the sandbox's own root. */
  lemma RelativeStaysBelow(box: Box, d: Str, filename: Str)
    requires IsAbs(box.root) && box.root == Canonical(box.root) && box.root != [SLASH]
    requires IsAbs(d) && !IsAbs(filename)
    requires var r := Redirect(box, filename, box.root + d); r.To? && RepoOf(box.repos, Meant(box, filename, box.root + d)).None?
    requires !(box.root <= Meant(box, filename, box.root + d))
    ensures IsAbs(Redirect(box, filename, box.root + d).path)
    ensures Components(Redirect(box, filename, box.root + d).path) ==
            Components(box.root) + Resolve(Components(d), Pieces(filename, 0))
    ensures AllPlain(Resolve(Components(d), Pieces(filename, 0)))
  {
    var pwd := box.root + d;
    assert pwd[..|box.root|] == box.root && pwd[|box.root|..] == d;
    RedirectedInside(box, filename, pwd);
    RelativeResolves(filename, d);
    ComponentsPlain(d);
    PiecesHaveNoSlash(filename, 0);
    ResolveStaysPlain(Components(d), Pieces(filename, 0));
    ShowRoundTrip(Resolve(Components(d), Pieces(filename, 0)));
  }

  /** create_abspath_within_cderoot in a tracing run: the path is put below the package root, which may be
      given relative to the starting directory. */
  lemma TracedBelowRoot(root: Str, start: Str, path: Str)
    requires IsAbs(start) && IsAbs(path) && path == Canonical(path) && root != []
    ensures Components(CanonicalFrom(root + path, start)) == Components(CanonicalFrom(root, start)) + Components(path)
  {
    CanonicalFromPlain(path, start);
    var full := if IsAbs(root) then root else start + [SLASH] + root;
    BelowRoot(full, path);
    assert full + path == if IsAbs(root) then root + path else start + [SLASH] + (root + path);
    CanonicalFromPlain(root, start);
    CanonicalFromPlain(root + path, start);
    ComponentsPlain(full);
    ShowRoundTrip(Components(full));
    ComponentsPlain(full + path);
    ShowRoundTrip(Components(full + path));
  }
}
