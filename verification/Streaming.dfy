/** The streaming cache (strace-4.6/cde.c): a path is mirrored from the remote root the first time it is
    asked for, remembered in the trie, and logged, so that later sessions start from the log. */
module Streaming {
  import opened Machine
  import opened Paths
  import opened Sandbox
  import opened Tries

  const NEWLINE: byte := 10

  // ----- the log -----

  function LogOf(paths: seq<Str>): Str
  {
    if paths == [] then [] else paths[0] + [NEWLINE] + LogOf(paths[1..])
  }

  /** The first newline from i on; the length if there is none. */
  function LineEnd(file: Str, i: nat): (k: nat)
    requires i <= |file|
    ensures i <= k <= |file| && (k < |file| ==> file[k] == NEWLINE) && NEWLINE !in file[i..k]
    decreases |file| - i
  {
    if i == |file| || file[i] == NEWLINE then i
    else
      var k := LineEnd(file, i + 1);
      assert file[i..k] == [file[i]] + file[i + 1..k];
      k
  }

  /** The lines getline returns from i on, without their newlines; None when the last one has none, which
      the source asserts against. */
  function Lines(file: Str, i: nat): Option<seq<Str>>
    requires i <= |file|
    decreases |file| - i
  {
    if i == |file| then Some([])
    else
      var k := LineEnd(file, i);
      if k == |file| then None
      else
        match Lines(file, k + 1)
        case None => None
        case Some(rest) => Some([file[i..k]] + rest)
  }

  /** The paths a log seeds the trie with: its lines but the empty ones. */
  function Seeds(lines: seq<Str>): set<Str>
  {
    set p | p in lines && p != []
  }

  function SetOf(paths: seq<Str>): set<Str> { set p | p in paths }

  /** A path that comes back from the log as it went in. */
  predicate Loggable(p: Str) { p != [] && NEWLINE !in p && IsAscii(p) }

  predicate AllLoggable(paths: seq<Str>) { forall i :: 0 <= i < |paths| ==> Loggable(paths[i]) }

  predicate AllAscii(paths: seq<Str>) { forall i :: 0 <= i < |paths| ==> IsAscii(paths[i]) }

  // ----- sessions -----

  /** What a session knows, what it has mirrored so far, and the log file. */
  datatype Cache = Cache(known: set<Str>, mirrored: seq<Str>, log: Str)

  /** The paths a session is asked for, and whether the log could be opened for appending. */
  datatype Session = Session(paths: seq<Str>, logging: bool)

  /** One request. None: the trie cannot take the path, and the tracer stops. */
  function Touch(root: Str, logging: bool, c: Cache, path: Str): Option<Cache>
  {
    if root <= path then Some(c)
    else if !IsAscii(path) then None
    else if path in c.known then Some(c)
    else Some(Cache(c.known + {path}, c.mirrored + [path], if logging then c.log + path + [NEWLINE] else c.log))
  }

  function TouchAll(root: Str, logging: bool, c: Cache, paths: seq<Str>): Option<Cache>
    decreases |paths|
  {
    if paths == [] then Some(c)
    else
      match Touch(root, logging, c, paths[0])
      case None => None
      case Some(d) => TouchAll(root, logging, d, paths[1..])
  }

  /** A session starts with nothing mirrored and with what the log seeds; None when the log cannot be loaded. */
  function Start(log: Str): (r: Option<Cache>)
    ensures r.Some? ==> r.value.mirrored == [] && r.value.log == log
  {
    match Lines(log, 0)
    case None => None
    case Some(lines) =>
      if forall p :: p in Seeds(lines) ==> IsAscii(p) then Some(Cache(Seeds(lines), [], log)) else None
  }

  function OneSession(root: Str, log: Str, s: Session): Option<Cache>
  {
    match Start(log)
    case None => None
    case Some(c) => TouchAll(root, s.logging, c, s.paths)
  }

  /** Sessions one after the other: all that was mirrored, in order, and the log they leave. */
  function Sessions(root: Str, log: Str, runs: seq<Session>): Option<(seq<Str>, Str)>
    decreases |runs|
  {
    if runs == [] then Some(([], log))
    else
      match OneSession(root, log, runs[0])
      case None => None
      case Some(done) =>
        match Sessions(root, done.log, runs[1..])
        case None => None
        case Some((more, last)) => Some((done.mirrored + more, last))
  }

  // ----- the reference -----

  /** The requests for paths outside the root. */
  function Wanted(root: Str, paths: seq<Str>): seq<Str>
  {
    if paths == [] then []
    else if root <= paths[0] then Wanted(root, paths[1..])
    else [paths[0]] + Wanted(root, paths[1..])
  }

  /** The first occurrences of the paths that are not known. */
  function NewOnes(known: set<Str>, paths: seq<Str>): seq<Str>
    decreases |paths|
  {
    if paths == [] then []
    else if paths[0] in known then NewOnes(known, paths[1..])
    else [paths[0]] + NewOnes(known + {paths[0]}, paths[1..])
  }

  /** What is known to the session after one: the lines of what it logged, if it could log. */
  function KnownAfter(known: set<Str>, root: Str, s: Session): set<Str>
  {
    if s.logging then known + LoggedLines(NewOnes(known, Wanted(root, s.paths))) else known
  }

  /** The lines that logging some paths makes; a path with newlines makes several. */
  function LoggedLines(paths: seq<Str>): set<Str>
  {
    match Lines(LogOf(paths), 0) case None => {} case Some(lines) => Seeds(lines)
  }

  /** What sessions mirror, from what the first of them knows. */
  function Mirrors(known: set<Str>, root: Str, runs: seq<Session>): seq<Str>
    decreases |runs|
  {
    if runs == [] then []
    else NewOnes(known, Wanted(root, runs[0].paths)) + Mirrors(KnownAfter(known, root, runs[0]), root, runs[1..])
  }

  /** What they append to the log. */
  function Logged(known: set<Str>, root: Str, runs: seq<Session>): seq<Str>
    decreases |runs|
  {
    if runs == [] then []
    else
      (if runs[0].logging then NewOnes(known, Wanted(root, runs[0].paths)) else [])
      + Logged(KnownAfter(known, root, runs[0]), root, runs[1..])
  }

  /** All that sessions ask for. */
  function Asked(root: Str, runs: seq<Session>): set<Str>
  {
    if runs == [] then {} else SetOf(Wanted(root, runs[0].paths)) + Asked(root, runs[1..])
  }

  predicate NoRepeats(list: seq<Str>)
  {
    forall i, j :: 0 <= i < j < |list| ==> list[i] != list[j]
  }

  /** No path that an unlogged session had to mirror is asked for in a later one. */
  predicate NoneForgotten(known: set<Str>, root: Str, runs: seq<Session>)
    decreases |runs|
  {
    runs != [] ==>
      && (runs[0].logging || (SetOf(Wanted(root, runs[0].paths)) - known) !! Asked(root, runs[1..]))
      && NoneForgotten(KnownAfter(known, root, runs[0]), root, runs[1..])
  }

  // ----- reading the log back -----

  lemma {:induction false} LineEndIs(file: Str, i: nat, k: nat)
    requires i <= k <= |file| && (k < |file| ==> file[k] == NEWLINE) && NEWLINE !in file[i..k]
    ensures LineEnd(file, i) == k
    decreases k - i
  {
    if i < k {
      assert file[i] == file[i..k][0];
      assert file[i + 1..k] == file[i..k][1..];
      LineEndIs(file, i + 1, k);
    }
  }

  lemma LinesUnfold(file: Str, i: nat)
    requires i <= |file|
    ensures i == |file| ==> Lines(file, i) == Some([])
    ensures i < |file| && LineEnd(file, i) == |file| ==> Lines(file, i) == None
    ensures i < |file| && LineEnd(file, i) < |file| ==>
              Lines(file, i) == match Lines(file, LineEnd(file, i) + 1)
                case None => None
                case Some(rest) => Some([file[i..LineEnd(file, i)]] + rest)
  {
  }

  lemma {:induction false} LinesShift(a: Str, b: Str, j: nat)
    requires j <= |b|
    ensures Lines(a + b, |a| + j) == Lines(b, j)
    decreases |b| - j
  {
    hide LineEnd, Lines;
    LinesUnfold(b, j);
    LinesUnfold(a + b, |a| + j);
    if j < |b| {
      var k := LineEnd(b, j);
      assert (a + b)[|a| + j..|a| + k] == b[j..k];
      LineEndIs(a + b, |a| + j, |a| + k);
      if k < |b| { LinesShift(a, b, k + 1); }
    }
  }

  /** Appending to a whole file appends lines. */
  lemma {:induction false} LinesConcat(a: Str, b: Str, i: nat)
    requires i <= |a| && Lines(a, i).Some?
    ensures Lines(a + b, i) == match Lines(b, 0)
                                 case None => None
                                 case Some(more) => Some(Lines(a, i).value + more)
    decreases |a| - i
  {
    hide LineEnd, Lines;
    LinesUnfold(a, i);
    if i == |a| {
      LinesShift(a, b, 0);
      if Lines(b, 0).Some? { assert [] + Lines(b, 0).value == Lines(b, 0).value; }
    } else {
      var k := LineEnd(a, i);
      assert (a + b)[i..k] == a[i..k];
      LineEndIs(a + b, i, k);
      LinesUnfold(a + b, i);
      LinesConcat(a, b, k + 1);
      if Lines(b, 0).Some? {
        var rest, more := Lines(a, k + 1).value, Lines(b, 0).value;
        assert [a[i..k]] + (rest + more) == [a[i..k]] + rest + more;
      }
    }
  }

  lemma OneLine(p: Str)
    requires NEWLINE !in p
    ensures Lines(p + [NEWLINE], 0) == Some([p])
  {
    hide LineEnd, Lines;
    var file := p + [NEWLINE];
    assert file[0..|p|] == p;
    LineEndIs(file, 0, |p|);
    LinesUnfold(file, 0);
    LinesUnfold(file, |p| + 1);
    assert [file[0..|p|]] + [] == [p];
  }

  /** A log of newline-free paths reads back as those paths. */
  lemma {:induction false} LogRoundTrip(paths: seq<Str>)
    requires forall i :: 0 <= i < |paths| ==> NEWLINE !in paths[i]
    ensures Lines(LogOf(paths), 0) == Some(paths)
  {
    hide Lines;
    if paths == [] {
      LinesUnfold([], 0);
    } else {
      LogRoundTrip(paths[1..]);
      OneLine(paths[0]);
      LinesConcat(paths[0] + [NEWLINE], LogOf(paths[1..]), 0);
      FirstAndRest(paths);
    }
  }

  lemma {:induction false} LinesHaveNoNewline(file: Str, i: nat)
    requires i <= |file| && Lines(file, i).Some?
    ensures forall j :: 0 <= j < |Lines(file, i).value| ==> NEWLINE !in Lines(file, i).value[j]
    decreases |file| - i
  {
    if i < |file| { LinesHaveNoNewline(file, LineEnd(file, i) + 1); }
  }

  /** Reloading a log rebuilds the set of logged paths exactly when every one of them is loggable. */
  lemma ReloadExactly(paths: seq<Str>)
    ensures Start(LogOf(paths)).Some? && Start(LogOf(paths)).value.known == SetOf(paths) <==> AllLoggable(paths)
  {
    hide LogOf, Lines;
    if AllLoggable(paths) {
      LogRoundTrip(paths);
    } else if Start(LogOf(paths)).Some? {
      LinesHaveNoNewline(LogOf(paths), 0);
      var i :| 0 <= i < |paths| && !Loggable(paths[i]);
      assert paths[i] in SetOf(paths) && paths[i] !in Start(LogOf(paths)).value.known;
    }
  }

  /** What a log that was extended by some paths makes known: what it did before, and their lines. */
  lemma StartAfter(log: Str, paths: seq<Str>)
    requires Start(log).Some? && AllAscii(paths)
    ensures Start(log + LogOf(paths)) == Some(Cache(Start(log).value.known + LoggedLines(paths), [], log + LogOf(paths)))
  {
    hide LogOf, Lines;
    LogWhole(paths);
    LinesConcat(log, LogOf(paths), 0);
    var a, b := Lines(log, 0).value, Lines(LogOf(paths), 0).value;
    assert Seeds(a + b) == Seeds(a) + Seeds(b);
    forall p | p in Seeds(b) ensures IsAscii(p) { LinesAscii(LogOf(paths), 0, p); }
  }

  lemma {:induction false} LogWhole(paths: seq<Str>)
    ensures Lines(LogOf(paths), 0).Some?
    ensures AllAscii(paths) ==> IsAscii(LogOf(paths))
  {
    hide Lines;
    if paths == [] {
      LinesUnfold([], 0);
    } else {
      LogWhole(paths[1..]);
      WholeLines(paths[0]);
      LinesConcat(paths[0] + [NEWLINE], LogOf(paths[1..]), 0);
    }
  }

  /** Newline-free paths are the lines they make. */
  lemma LoggedLinesFree(paths: seq<Str>)
    requires AllLoggable(paths)
    ensures LoggedLines(paths) == SetOf(paths)
  {
    LogRoundTrip(paths);
  }

  /** A logged path with a newline is not known to the next session, on whatever log. */
  lemma NewlinePathForgotten(log: Str, p: Str)
    requires NEWLINE in p
    ensures Start(log + p + [NEWLINE]).Some? ==> p !in Start(log + p + [NEWLINE]).value.known
  {
    hide Lines;
    var file := log + p + [NEWLINE];
    if Lines(file, 0).Some? { LinesHaveNoNewline(file, 0); }
  }

  /** Worse, its pieces are: what stands after its last newline is then never mirrored. */
  lemma NewlinePathShadows(root: Str, log: Str, a: Str, b: Str, s: Session)
    requires Start(log).Some? && IsAscii(a) && Loggable(b)
    ensures var after := log + (a + [NEWLINE] + b) + [NEWLINE];
            Start(after).Some? && b in Start(after).value.known
            && (OneSession(root, after, s).Some? ==> b !in OneSession(root, after, s).value.mirrored)
  {
    hide Lines, TouchAll, Wanted, NewOnes;
    var x, y := a + [NEWLINE], b + [NEWLINE];
    var after := log + (a + [NEWLINE] + b) + [NEWLINE];
    assert after == log + (x + y);
    WholeLines(a);
    OneLine(b);
    LinesConcat(x, y, 0);
    LinesConcat(log, x + y, 0);
    var lines := Lines(x, 0).value;
    assert Lines(after, 0) == Some(Lines(log, 0).value + (lines + [b]));
    forall p | p in Seeds(Lines(log, 0).value + (lines + [b])) ensures IsAscii(p) {
      if p in lines { LinesAscii(x, 0, p); }
    }
    var c := Start(after).value;
    SessionExactly(root, s.logging, c, s.paths);
    NewOnesFacts(c.known, Wanted(root, s.paths));
  }

  /** Any text with a newline after it is whole lines. */
  lemma WholeLines(a: Str)
    ensures Lines(a + [NEWLINE], 0).Some?
  {
    WholeLinesFrom(a, 0);
  }

  lemma {:induction false} WholeLinesFrom(a: Str, i: nat)
    requires i <= |a| + 1
    ensures Lines(a + [NEWLINE], i).Some?
    decreases |a| + 1 - i
  {
    var file := a + [NEWLINE];
    if i <= |a| {
      var k := LineEnd(file, i);
      assert file[|a|] == NEWLINE;
      WholeLinesFrom(a, k + 1);
    }
  }

  lemma {:induction false} LinesAscii(file: Str, i: nat, p: Str)
    requires i <= |file| && IsAscii(file) && Lines(file, i).Some? && p in Lines(file, i).value
    ensures IsAscii(p)
    decreases |file| - i
  {
    if i < |file| {
      var k := LineEnd(file, i);
      if p != file[i..k] { LinesAscii(file, k + 1, p); }
    }
  }

  // ----- what sessions mirror -----

  lemma {:induction false} NewOnesFacts(known: set<Str>, paths: seq<Str>)
    ensures NoRepeats(NewOnes(known, paths))
    ensures SetOf(NewOnes(known, paths)) == SetOf(paths) - known
    decreases |paths|
  {
    if paths != [] {
      var p := paths[0];
      FirstAndRest(paths);
      NewOnesFacts(if p in known then known else known + {p}, paths[1..]);
      SetOfCons(p, paths[1..]);
      if p !in known { ConsNew(p, NewOnes(known + {p}, paths[1..])); }
    }
  }

  lemma SetOfCons(p: Str, rest: seq<Str>)
    ensures SetOf([p] + rest) == {p} + SetOf(rest)
  {
  }

  lemma ConsNew(p: Str, list: seq<Str>)
    requires NoRepeats(list) && p !in SetOf(list)
    ensures NoRepeats([p] + list) && SetOf([p] + list) == {p} + SetOf(list)
  {
  }

  /** A session, from any cache: it completes exactly when the paths it is asked for outside the root are
      ASCII; it then mirrors exactly the first occurrences of those it does not know, and logs them. */
  lemma {:induction false} SessionExactly(root: Str, logging: bool, c: Cache, paths: seq<Str>)
    ensures var wanted := Wanted(root, paths);
            var r, news := TouchAll(root, logging, c, paths), NewOnes(c.known, wanted);
            && (r.Some? <==> AllAscii(wanted))
            && (r.Some? ==> r == Some(Cache(c.known + SetOf(wanted), c.mirrored + news,
                                            if logging then c.log + LogOf(news) else c.log)))
    decreases |paths|
  {
    if paths == [] {
      assert c.known + SetOf([]) == c.known && c.mirrored + [] == c.mirrored && c.log + [] == c.log;
    } else {
      var p, rest := paths[0], paths[1..];
      var step := Touch(root, logging, c, p);
      if step.Some? {
        SessionExactly(root, logging, step.value, rest);
        if !(root <= p) {
          SetOfCons(p, Wanted(root, rest));
          AsciiCons(p, Wanted(root, rest));
          NewOnesCons(c.known, p, Wanted(root, rest));
          OneMore(c, step.value, p, NewOnes(step.value.known, Wanted(root, rest)), logging);
          assert step.value.known + SetOf(Wanted(root, rest)) == c.known + SetOf([p] + Wanted(root, rest));
          assert Wanted(root, paths) == [p] + Wanted(root, rest);
        }
      } else {
        AsciiCons(p, Wanted(root, rest));
      }
    }
  }

  lemma AsciiCons(p: Str, rest: seq<Str>)
    ensures AllAscii([p] + rest) <==> IsAscii(p) && AllAscii(rest)
  {
    if AllAscii([p] + rest) {
      assert ([p] + rest)[0] == p;
      forall i | 0 <= i < |rest| ensures IsAscii(rest[i]) { assert ([p] + rest)[i + 1] == rest[i]; }
    }
  }

  lemma NewOnesCons(known: set<Str>, p: Str, rest: seq<Str>)
    ensures NewOnes(known, [p] + rest) == if p in known then NewOnes(known, rest) else [p] + NewOnes(known + {p}, rest)
  {
    assert ([p] + rest)[1..] == rest;
  }

  lemma OneMore(c: Cache, d: Cache, p: Str, more: seq<Str>, logging: bool)
    requires d.mirrored == c.mirrored + (if p in c.known then [] else [p])
    requires d.log == c.log + (if p in c.known || !logging then [] else p + [NEWLINE])
    ensures p in c.known ==> d.mirrored + more == c.mirrored + more && d.log + LogOf(more) == c.log + LogOf(more)
    ensures p !in c.known ==> d.mirrored + more == c.mirrored + ([p] + more)
    ensures p !in c.known && logging ==> d.log + LogOf(more) == c.log + LogOf([p] + more)
  {
    assert ([p] + more)[1..] == more;
  }

  /** Sessions one after the other, on any log that loads: they complete exactly when all paths asked for
      outside the root are ASCII, and mirror and log what the reference says. */
  lemma {:induction false} SessionsExactly(root: Str, log: Str, runs: seq<Session>)
    requires Start(log).Some?
    ensures var r, known := Sessions(root, log, runs), Start(log).value.known;
            && (r.Some? <==> forall i :: 0 <= i < |runs| ==> AllAscii(Wanted(root, runs[i].paths)))
            && (r.Some? ==> r == Some((Mirrors(known, root, runs), log + LogOf(Logged(known, root, runs)))))
    decreases |runs|
  {
    hide LogOf, TouchAll, Start, NewOnes, Wanted, AllAscii, LoggedLines, SetOf;
    NoLog(log);
    if runs != [] {
      var s, c := runs[0], Start(log).value;
      SessionExactly(root, s.logging, c, s.paths);
      if AllAscii(Wanted(root, s.paths)) {
        var news := NewOnes(c.known, Wanted(root, s.paths));
        var logged := if s.logging then news else [];
        NewsAscii(c.known, Wanted(root, s.paths));
        StartAfter(log, logged);
        SessionsExactly(root, log + LogOf(logged), runs[1..]);
        LogConcat(log, logged, Logged(KnownAfter(c.known, root, s), root, runs[1..]));
        AsciiLater(root, runs);
        assert [] + news == news;
      } else {
        assert !AllAscii(Wanted(root, runs[0].paths));
      }
    }
  }

  lemma NoLog(log: Str)
    ensures log + LogOf([]) == log && AllAscii([]) && LoggedLines([]) == {}
  {
  }

  lemma NewsAscii(known: set<Str>, wanted: seq<Str>)
    requires AllAscii(wanted)
    ensures AllAscii(NewOnes(known, wanted))
  {
    var news := NewOnes(known, wanted);
    NewOnesFacts(known, wanted);
    forall i | 0 <= i < |news| ensures IsAscii(news[i]) { assert news[i] in SetOf(news); }
  }

  lemma {:induction false} LogConcat(log: Str, a: seq<Str>, b: seq<Str>)
    ensures log + LogOf(a) + LogOf(b) == log + LogOf(a + b)
    decreases |a|
  {
    if a == [] {
      assert [] + b == b;
    } else {
      var line := a[0] + [NEWLINE];
      LogConcat(log + line, a[1..], b);
      assert (a + b)[1..] == a[1..] + b;
      assert log + line + LogOf(a[1..]) == log + LogOf(a);
      assert log + line + LogOf(a[1..] + b) == log + (line + LogOf(a[1..] + b));
    }
  }

  lemma AsciiLater(root: Str, runs: seq<Session>)
    requires runs != [] && AllAscii(Wanted(root, runs[0].paths))
    ensures (forall i :: 0 <= i < |runs| ==> AllAscii(Wanted(root, runs[i].paths)))
            <==> forall i :: 0 <= i < |runs[1..]| ==> AllAscii(Wanted(root, runs[1..][i].paths))
  {
    hide AllAscii, Wanted;
    if forall i :: 0 <= i < |runs[1..]| ==> AllAscii(Wanted(root, runs[1..][i].paths)) {
      forall i | 0 <= i < |runs| ensures AllAscii(Wanted(root, runs[i].paths)) {
        if i > 0 { assert runs[1..][i - 1] == runs[i]; }
      }
    }
  }

  /** Paths that the log keeps apart. */
  predicate Kept(root: Str, runs: seq<Session>)
  {
    forall i :: 0 <= i < |runs| ==> AllLoggable(Wanted(root, runs[i].paths))
  }

  lemma KeptKnown(known: set<Str>, root: Str, runs: seq<Session>)
    requires runs != [] && Kept(root, runs)
    ensures Kept(root, runs[1..])
    ensures var s := runs[0];
            KnownAfter(known, root, s) == if s.logging then known + SetOf(Wanted(root, s.paths)) else known
  {
    hide NewOnes, Wanted, LoggedLines;
    var wanted := Wanted(root, runs[0].paths);
    var news := NewOnes(known, wanted);
    NewOnesFacts(known, wanted);
    assert AllLoggable(wanted);
    forall i | 0 <= i < |news| ensures Loggable(news[i]) { assert news[i] in SetOf(news); }
    LoggedLinesFree(news);
  }

  lemma {:induction false} MirrorsSet(known: set<Str>, root: Str, runs: seq<Session>)
    requires Kept(root, runs)
    ensures SetOf(Mirrors(known, root, runs)) == Asked(root, runs) - known
    decreases |runs|
  {
    hide NewOnes, Wanted, KnownAfter, Kept;
    if runs != [] {
      var s := runs[0];
      KeptKnown(known, root, runs);
      NewOnesFacts(known, Wanted(root, s.paths));
      MirrorsSet(KnownAfter(known, root, s), root, runs[1..]);
      SetOfConcat(NewOnes(known, Wanted(root, s.paths)), Mirrors(KnownAfter(known, root, s), root, runs[1..]));
    }
  }

  lemma SetOfConcat(a: seq<Str>, b: seq<Str>)
    ensures SetOf(a + b) == SetOf(a) + SetOf(b)
  {
  }

  lemma NoRepeatsConcat(a: seq<Str>, b: seq<Str>)
    ensures NoRepeats(a + b) <==> NoRepeats(a) && NoRepeats(b) && SetOf(a) !! SetOf(b)
  {
    var s := a + b;
    if NoRepeats(s) {
      forall i, j | 0 <= i < j < |b| ensures b[i] != b[j] { assert s[|a| + i] == b[i] && s[|a| + j] == b[j]; }
      forall i, j | 0 <= i < j < |a| ensures a[i] != a[j] { assert s[i] == a[i] && s[j] == a[j]; }
      forall i, j | 0 <= i < |a| && 0 <= j < |b| ensures a[i] != b[j] {
        assert s[i] == a[i] && s[|a| + j] == b[j];
      }
    }
    if NoRepeats(a) && NoRepeats(b) && SetOf(a) !! SetOf(b) {
      forall i, j | 0 <= i < j < |s| ensures s[i] != s[j] {
        if i < |a| <= j { assert a[i] in SetOf(a) && b[j - |a|] in SetOf(b); }
      }
    }
  }

  /** With paths that the log keeps apart, nothing is mirrored twice over all the sessions exactly when no
      path that an unlogged session had to mirror is asked for again; in particular when every session can
      log. */
  lemma {:induction false} MirroredOnceExactly(known: set<Str>, root: Str, runs: seq<Session>)
    requires Kept(root, runs)
    ensures NoRepeats(Mirrors(known, root, runs)) <==> NoneForgotten(known, root, runs)
    ensures (forall i :: 0 <= i < |runs| ==> runs[i].logging) ==> NoneForgotten(known, root, runs)
    decreases |runs|
  {
    hide NewOnes, Wanted, SetOf, NoRepeats, KnownAfter, Kept;
    if runs == [] {
      EmptyOnce();
    } else {
      var s, rest := runs[0], runs[1..];
      var wanted, later := Wanted(root, s.paths), KnownAfter(known, root, s);
      KeptKnown(known, root, runs);
      MirroredOnceExactly(later, root, rest);
      NewOnesFacts(known, wanted);
      MirrorsSet(later, root, rest);
      NoRepeatsConcat(NewOnes(known, wanted), Mirrors(later, root, rest));
    }
  }

  /** Some session asks for the path when it is not known. */
  predicate AskedUnknown(p: Str, known: set<Str>, root: Str, runs: seq<Session>)
    decreases |runs|
  {
    runs != [] &&
    (|| (p in SetOf(Wanted(root, runs[0].paths)) && p !in known)
     || AskedUnknown(p, KnownAfter(known, root, runs[0]), root, runs[1..]))
  }

  /** No path is asked for again, in a later session to which it is not known. */
  predicate NoneAskedAgain(known: set<Str>, root: Str, runs: seq<Session>)
    decreases |runs|
  {
    runs != [] ==>
      && (forall p :: p in SetOf(Wanted(root, runs[0].paths)) && p !in known ==>
            !AskedUnknown(p, KnownAfter(known, root, runs[0]), root, runs[1..]))
      && NoneAskedAgain(KnownAfter(known, root, runs[0]), root, runs[1..])
  }

  lemma {:induction false} MirrorsAsked(known: set<Str>, root: Str, runs: seq<Session>, p: Str)
    ensures p in SetOf(Mirrors(known, root, runs)) <==> AskedUnknown(p, known, root, runs)
    decreases |runs|
  {
    hide NewOnes, Wanted, KnownAfter;
    if runs != [] {
      var s := runs[0];
      NewOnesFacts(known, Wanted(root, s.paths));
      MirrorsAsked(KnownAfter(known, root, s), root, runs[1..], p);
      SetOfConcat(NewOnes(known, Wanted(root, s.paths)), Mirrors(KnownAfter(known, root, s), root, runs[1..]));
    }
  }

  /** For any paths and any sessions, nothing is mirrored twice exactly when no path is asked for again in a
      session to which the log has not made it known: because the session before could not log, or because
      the path has a newline. */
  lemma {:induction false} NothingTwiceExactly(known: set<Str>, root: Str, runs: seq<Session>)
    ensures NoRepeats(Mirrors(known, root, runs)) <==> NoneAskedAgain(known, root, runs)
    decreases |runs|
  {
    hide NewOnes, Wanted, SetOf, NoRepeats, KnownAfter, AskedUnknown;
    if runs == [] {
      EmptyOnce();
    } else {
      var s, rest := runs[0], runs[1..];
      var wanted, later := Wanted(root, s.paths), KnownAfter(known, root, s);
      NothingTwiceExactly(later, root, rest);
      NewOnesFacts(known, wanted);
      NoRepeatsConcat(NewOnes(known, wanted), Mirrors(later, root, rest));
      forall p ensures p in SetOf(Mirrors(later, root, rest)) <==> AskedUnknown(p, later, root, rest) {
        MirrorsAsked(later, root, rest, p);
      }
    }
  }

  /** All requests of all sessions for paths outside the root, in order. */
  function AllWanted(root: Str, runs: seq<Session>): seq<Str>
  {
    if runs == [] then [] else Wanted(root, runs[0].paths) + AllWanted(root, runs[1..])
  }

  lemma {:induction false} NewOnesConcat(known: set<Str>, a: seq<Str>, b: seq<Str>)
    ensures NewOnes(known, a + b) == NewOnes(known, a) + NewOnes(known + SetOf(a), b)
    decreases |a|
  {
    if a == [] {
      assert [] + b == b && known + SetOf([]) == known;
    } else {
      var p := a[0];
      var next := if p in known then known else known + {p};
      assert (a + b)[1..] == a[1..] + b;
      NewOnesConcat(next, a[1..], b);
      FirstAndRest(a);
      SetOfCons(p, a[1..]);
      assert next + SetOf(a[1..]) == known + SetOf(a);
    }
  }

  /** When every session can log, one mirrors what a single long session would. */
  lemma {:induction false} AsOneSession(known: set<Str>, root: Str, runs: seq<Session>)
    requires Kept(root, runs) && forall i :: 0 <= i < |runs| ==> runs[i].logging
    ensures Mirrors(known, root, runs) == NewOnes(known, AllWanted(root, runs)) == Logged(known, root, runs)
    decreases |runs|
  {
    hide NewOnes, Wanted, SetOf, KnownAfter, Kept;
    if runs == [] {
      NewOnesNone(known);
    } else {
      KeptKnown(known, root, runs);
      AsOneSession(KnownAfter(known, root, runs[0]), root, runs[1..]);
      NewOnesConcat(known, Wanted(root, runs[0].paths), AllWanted(root, runs[1..]));
    }
  }

  lemma NewOnesNone(known: set<Str>)
    ensures NewOnes(known, []) == []
  {
  }

  /** Sessions that can log, on any log that loads: what they mirror and log is the first occurrence of each
      unknown path, over all of them and in order, and none of it twice. */
  lemma SessionsMirrorOnce(root: Str, log: Str, runs: seq<Session>)
    requires Start(log).Some? && Kept(root, runs) && forall i :: 0 <= i < |runs| ==> runs[i].logging
    ensures var news := NewOnes(Start(log).value.known, AllWanted(root, runs));
            Sessions(root, log, runs) == Some((news, log + LogOf(news))) && NoRepeats(news)
  {
    hide LogOf, Sessions, Start, NewOnes, Wanted;
    SessionsExactly(root, log, runs);
    AsOneSession(Start(log).value.known, root, runs);
    NewOnesFacts(Start(log).value.known, AllWanted(root, runs));
    forall i | 0 <= i < |runs| ensures AllAscii(Wanted(root, runs[i].paths)) {
      assert AllLoggable(Wanted(root, runs[i].paths));
    }
  }

  lemma EmptyOnce()
    ensures NoRepeats([])
  {
  }

  // ----- the running tracer -----

  class Streamer {
    const trie: Trie
    const root: Str
    /** Whether the log could be opened for appending. */
    var logging: bool
    var mirrored: seq<Str>
    var log: Str

    ghost predicate Valid()
      reads this, trie, trie.repr
    {
      trie.Valid()
    }

    ghost function State(): Cache
      reads this, trie, trie.repr
      requires Valid()
    {
      Cache(trie.Contents(), mirrored, log)
    }

    constructor (root: Str, log: Str, canAppend: bool)
      ensures Valid() && fresh(trie) && fresh(trie.repr) && State() == Cache({}, [], log)
      ensures this.root == root && logging == canAppend
    {
      trie := new Trie();
      this.root, this.log, mirrored, logging := root, log, [], canAppend;
    }

    /** The reading loop of the streaming start: false when a line has no newline or is not ASCII. */
    method LoadLog() returns (ok: bool)
      requires Valid() && trie.Contents() == {}
      modifies trie, trie.repr
      ensures Valid()
      ensures ok <==> Lines(log, 0).Some? && forall p :: p in Seeds(Lines(log, 0).value) ==> IsAscii(p)
      ensures ok ==> trie.Contents() == Seeds(Lines(log, 0).value)
      ensures fresh(trie.repr - old(trie.repr))
    {
      hide LineEnd, Lines, Seeds, Trie.Valid, Trie.Contents, IsAscii;
      var i: nat := 0;
      NoSeeds();
      ghost var before: seq<Str> := [];
      ghost var whole := Lines(log, 0);
      if whole.Some? { assert before + whole.value == whole.value; }
      while i < |log|
        invariant Valid() && i <= |log| && fresh(trie.repr - old(trie.repr))
        invariant forall p :: p in Seeds(before) ==> IsAscii(p)
        invariant trie.Contents() == Seeds(before)
        invariant Lines(log, 0) == match Lines(log, i) case None => None case Some(rest) => Some(before + rest)
        decreases |log| - i
      {
        var k := GetLine(i);
        LinesUnfold(log, i);
        if k == |log| { return false; }
        var line := log[i..k];
        ghost var rest := Lines(log, k + 1);
        if rest.Some? { assert before + ([line] + rest.value) == before + [line] + rest.value; }
        SeedsNext(before, line);
        before := before + [line];
        if line != [] {
          var inserted := trie.Insert(line);
          if !inserted {
            if rest.Some? { SeedIn(before[..|before| - 1], line, rest.value); }
            return false;
          }
        }
        i := k + 1;
      }
      LinesUnfold(log, i);
      assert before + [] == before;
      return true;
    }

    method GetLine(start: nat) returns (k: nat)
      requires start <= |log|
      ensures k == LineEnd(log, start)
    {
      k := start;
      while k < |log| && log[k] != '\n' as int
        invariant start <= k <= |log| && LineEnd(log, start) == LineEnd(log, k)
      {
        k := k + 1;
      }
    }

    /** create_abspath_within_cderoot in exec mode with streaming on; None is a path the trie cannot take. */
    method CreateAbsPath(path: Str) returns (r: Option<Str>)
      requires Valid() && IsAbs(path)
      modifies this`mirrored, this`log, trie, trie.repr
      ensures Valid()
      ensures r.Some? <==> Touch(root, logging, old(State()), path).Some?
      ensures r.Some? ==> r.value == CreateWithin(root, path) && Some(State()) == Touch(root, logging, old(State()), path)
      ensures fresh(trie.repr - old(trie.repr))
    {
      if |root| <= |path| && path[..|root|] == root { return Some(path); }
      var hit := trie.Contains(path);
      if hit.None? { return None; }
      if !hit.value {
        mirrored := mirrored + [path];
        var inserted := trie.Insert(path);
        if !inserted { return None; }
        if logging { log := log + path + ['\n' as int]; }
      }
      return Some(root + path);
    }

    /** A session's requests, one after the other. */
    method Serve(paths: seq<Str>) returns (ok: bool)
      requires Valid() && forall k :: 0 <= k < |paths| ==> IsAbs(paths[k])
      modifies this`mirrored, this`log, trie, trie.repr
      ensures Valid()
      ensures ok <==> TouchAll(root, logging, old(State()), paths).Some?
      ensures ok ==> Some(State()) == TouchAll(root, logging, old(State()), paths)
    {
      hide Touch, Trie.Valid, Trie.Contents;
      ghost var start := State();
      for k := 0 to |paths|
        invariant Valid() && fresh(trie.repr - old(trie.repr))
        invariant TouchAll(root, logging, start, paths) == TouchAll(root, logging, State(), paths[k..])
      {
        assert paths[k..][1..] == paths[k + 1..];
        var within := CreateAbsPath(paths[k]);
        if within.None? { return false; }
      }
      return true;
    }
  }

  /** Sessions of the tracer itself, each starting from the log the one before left. */
  method RunSessions(root: Str, log: Str, runs: seq<Session>) returns (r: Option<(seq<Str>, Str)>)
    requires forall i, k :: 0 <= i < |runs| && 0 <= k < |runs[i].paths| ==> IsAbs(runs[i].paths[k])
    ensures r == Sessions(root, log, runs)
  {
    var mirrored: seq<Str>, file := [], log;
    ghost var all := Sessions(root, log, runs);
    if all.Some? { assert [] + all.value.0 == all.value.0; }
    for i := 0 to |runs|
      invariant all == match Sessions(root, file, runs[i..])
                  case None => None
                  case Some((more, last)) => Some((mirrored + more, last))
    {
      assert runs[i..][1..] == runs[i + 1..];
      var done := RunOne(root, file, runs[i]);
      if done.None? { return None; }
      ghost var later := Sessions(root, done.value.1, runs[i + 1..]);
      if later.Some? { assert mirrored + (done.value.0 + later.value.0) == mirrored + done.value.0 + later.value.0; }
      mirrored, file := mirrored + done.value.0, done.value.1;
    }
    assert mirrored + [] == mirrored;
    return Some((mirrored, file));
  }

  method RunOne(root: Str, log: Str, s: Session) returns (r: Option<(seq<Str>, Str)>)
    requires forall k :: 0 <= k < |s.paths| ==> IsAbs(s.paths[k])
    ensures r == match OneSession(root, log, s) case None => None case Some(c) => Some((c.mirrored, c.log))
  {
    var tracer := new Streamer(root, log, s.logging);
    var loaded := tracer.LoadLog();
    if !loaded { return None; }
    assert tracer.State() == Start(log).value;
    var ok := tracer.Serve(s.paths);
    if !ok { return None; }
    return Some((tracer.mirrored, tracer.log));
  }

  lemma NoSeeds()
    ensures Seeds([]) == {}
  {
  }

  lemma SeedIn(lines: seq<Str>, line: Str, rest: seq<Str>)
    requires line != []
    ensures line in Seeds(lines + [line] + rest)
  {
    assert (lines + [line] + rest)[|lines|] == line;
  }

  lemma SeedsNext(lines: seq<Str>, line: Str)
    ensures Seeds(lines + [line]) == Seeds(lines) + if line == [] then {} else {line}
  {
  }
}
