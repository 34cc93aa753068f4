/** The hash-table parts of process_symbol_table (readelf-mini/readelf-mini.c): how many .gnu.hash chain
    words are read, why every bucket walk then stops inside them, and the two bucket-length histograms. */
module HashTables {
  import opened Machine

  // ----- sizing the .gnu.hash chains -----

  /** The initial value of maxchain, which also stands for "no bucket seen". */
  const NO_CHAIN: nat := 0xffff_ffff

  /** maxchain after the bucket loop. */
  function Top(buckets: seq<nat>): nat
  {
    if buckets == [] then NO_CHAIN
    else
      var top, last := Top(buckets[..|buckets| - 1]), buckets[|buckets| - 1];
      if last != 0 && (top == NO_CHAIN || last > top) then last else top
  }

  /** The first index from off on whose word has its low bit set. */
  function FirstStop(words: seq<nat>, off: nat): (r: Option<nat>)
    ensures r.Some? ==> off <= r.value < |words| && words[r.value] % 2 == 1
    ensures r.Some? ==> forall k :: off <= k < r.value ==> words[k] % 2 == 0
    ensures r.None? ==> forall k :: off <= k < |words| ==> words[k] % 2 == 0
    decreases |words| - off
  {
    if off >= |words| then None else if words[off] % 2 == 1 then Some(off) else FirstStop(words, off + 1)
  }

  /** Give up on the whole symbol table, go on without a .gnu.hash, or ask for that many chain words. */
  datatype Sizing = GiveUp | NoTable | Chains(count: nat)

  predicate BelowFirst(buckets: seq<nat>, symidx: nat)
  {
    exists h :: 0 <= h < |buckets| && 0 < buckets[h] < symidx
  }

  /** Words are the file's 4-byte words from the first chain word on. The test of maxchain + 1 against 0
      cannot succeed, since maxchain counts words of the file. */
  method SizeChains(buckets: seq<nat>, symidx: nat, words: seq<nat>) returns (r: Sizing)
    ensures r.GiveUp? <==> BelowFirst(buckets, symidx)
    ensures r.Chains? ==> Top(buckets) != NO_CHAIN && symidx <= Top(buckets)
    ensures r.Chains? ==> FirstStop(words, Top(buckets) - symidx) == Some(r.count - 1)
    ensures r.NoTable? && Top(buckets) != NO_CHAIN ==> symidx <= Top(buckets)
    ensures r.NoTable? && Top(buckets) != NO_CHAIN ==> FirstStop(words, Top(buckets) - symidx) == None
  {
    var maxchain: nat := NO_CHAIN;
    for i := 0 to |buckets|
      invariant maxchain == Top(buckets[..i])
      invariant forall h :: 0 <= h < i ==> !(0 < buckets[h] < symidx)
      invariant maxchain != NO_CHAIN ==> symidx <= maxchain
    {
      assert buckets[..i + 1][..i] == buckets[..i];
      if buckets[i] != 0 {
        if buckets[i] < symidx { return GiveUp; }
        if maxchain == NO_CHAIN || buckets[i] > maxchain { maxchain := buckets[i]; }
      }
    }
    assert buckets[..|buckets|] == buckets;
    if maxchain == NO_CHAIN { return NoTable; }
    maxchain := maxchain - symidx;
    ghost var from := maxchain;
    while true
      invariant FirstStop(words, from) == FirstStop(words, maxchain)
      decreases |words| - maxchain
    {
      if maxchain >= |words| { return NoTable; }
      var nb := words[maxchain];
      maxchain := maxchain + 1;
      if nb % 2 != 0 { return Chains(maxchain); }
    }
  }

  /** Without the value 0xffffffff among the buckets, maxchain ends as their maximum. */
  lemma {:induction false} TopIsMaximum(buckets: seq<nat>)
    requires forall h :: 0 <= h < |buckets| ==> buckets[h] < NO_CHAIN
    ensures Top(buckets) == NO_CHAIN <==> forall h :: 0 <= h < |buckets| ==> buckets[h] == 0
    ensures Top(buckets) != NO_CHAIN ==> Top(buckets) in buckets
    ensures forall h :: 0 <= h < |buckets| ==> buckets[h] <= Top(buckets)
  {
    if buckets != [] {
      var m := |buckets| - 1;
      TopIsMaximum(buckets[..m]);
      assert forall h :: 0 <= h < m ==> buckets[..m][h] == buckets[h];
    }
  }

  /** A bucket holding 0xffffffff makes the loop forget every bucket before it. */
  lemma {:induction false} TopForgets(before: seq<nat>, after: seq<nat>)
    requires forall h :: 0 <= h < |before| ==> before[h] <= NO_CHAIN
    ensures Top(before + [0xffff_ffff] + after) == Top(after)
    decreases |after|
  {
    var all := before + [NO_CHAIN] + after;
    if after == [] {
      assert all[..|before|] == before;
      TopBounded(before);
    } else {
      var m := |after| - 1;
      TopForgets(before, after[..m]);
      assert all[..|all| - 1] == before + [NO_CHAIN] + after[..m];
    }
  }

  lemma {:induction false} TopBounded(buckets: seq<nat>)
    requires forall h :: 0 <= h < |buckets| ==> buckets[h] <= NO_CHAIN
    ensures Top(buckets) <= NO_CHAIN
  {
    if buckets != [] { TopBounded(buckets[..|buckets| - 1]); }
  }

  // ----- walking them -----

  /** get_dynamic_data takes the count as a 32-bit number. */
  function ChainArray(words: seq<nat>, count: nat): seq<nat>
    requires count <= |words|
  {
    words[..count % TWO_32]
  }

  /** Every walk stops inside the array. */
  predicate Covered(buckets: seq<nat>, symidx: nat, chains: seq<nat>)
  {
    forall h :: 0 <= h < |buckets| && buckets[h] != 0 ==>
      buckets[h] >= symidx && FirstStop(chains, buckets[h] - symidx).Some?
  }

  lemma StopInPrefix(words: seq<nat>, n: nat, off: nat)
    requires n <= |words|
    ensures FirstStop(words[..n], off) ==
            match FirstStop(words, off) case Some(k) => if k < n then Some(k) else None case None => None
  {
    var here, whole := FirstStop(words[..n], off), FirstStop(words, off);
    if here.Some? {
      assert words[here.value] % 2 == 1;
      assert whole.Some?;
    }
  }

  /** The exact condition under which every walk stops inside the words that were read: no bucket lies past
      the first stop from the top bucket on, and that many words can be counted in 32 bits. */
  lemma CoveredExactly(buckets: seq<nat>, symidx: nat, words: seq<nat>)
    requires !BelowFirst(buckets, symidx) && symidx <= Top(buckets) != NO_CHAIN
    requires FirstStop(words, Top(buckets) - symidx).Some?
    ensures var stop := FirstStop(words, Top(buckets) - symidx).value;
            Covered(buckets, symidx, ChainArray(words, stop + 1)) <==>
            stop + 1 < TWO_32 && forall h :: 0 <= h < |buckets| && buckets[h] != 0 ==> buckets[h] - symidx <= stop
  {
    hide FirstStop, Top, Covered, BelowFirst;
    var stop := FirstStop(words, Top(buckets) - symidx).value;
    if stop + 1 < TWO_32 {
      SmallMod(stop + 1, TWO_32);
      CoveredUpTo(buckets, symidx, words, stop);
    } else {
      TopUncovered(buckets, symidx, words, (stop + 1) % TWO_32);
    }
  }

  lemma CoveredUpTo(buckets: seq<nat>, symidx: nat, words: seq<nat>, stop: nat)
    requires !BelowFirst(buckets, symidx) && stop < |words| && words[stop] % 2 == 1
    ensures Covered(buckets, symidx, words[..stop + 1]) <==>
            forall h :: 0 <= h < |buckets| && buckets[h] != 0 ==> buckets[h] - symidx <= stop
  {
    hide FirstStop;
    forall h | 0 <= h < |buckets| && buckets[h] != 0
      ensures buckets[h] >= symidx
      ensures FirstStop(words[..stop + 1], buckets[h] - symidx).Some? <==> buckets[h] - symidx <= stop
    {
      assert !BelowFirst(buckets, symidx);
      StopBefore(words, stop, buckets[h] - symidx);
    }
  }

  lemma TopUncovered(buckets: seq<nat>, symidx: nat, words: seq<nat>, n: nat)
    requires symidx <= Top(buckets) != NO_CHAIN && n <= |words|
    requires FirstStop(words, Top(buckets) - symidx).Some? && n <= FirstStop(words, Top(buckets) - symidx).value
    ensures !Covered(buckets, symidx, words[..n])
  {
    hide FirstStop, Top;
    TopIsBucket(buckets);
    var t :| 0 <= t < |buckets| && buckets[t] == Top(buckets) && buckets[t] != 0;
    StopInPrefix(words, n, buckets[t] - symidx);
    assert FirstStop(words[..n], buckets[t] - symidx) == None;
  }

  /** A walk over the words up to a stop ends inside exactly when it starts there. */
  lemma StopBefore(words: seq<nat>, stop: nat, off: nat)
    requires stop < |words| && words[stop] % 2 == 1
    ensures FirstStop(words[..stop + 1], off).Some? <==> off <= stop
  {
    var r := FirstStop(words[..stop + 1], off);
    if off <= stop { assert words[..stop + 1][stop] % 2 == 1; }
  }

  lemma {:induction false} TopIsBucket(buckets: seq<nat>)
    requires Top(buckets) != NO_CHAIN
    ensures exists t :: 0 <= t < |buckets| && buckets[t] == Top(buckets) && buckets[t] != 0
  {
    var m := |buckets| - 1;
    if Top(buckets) == buckets[m] && buckets[m] != 0 {
    } else {
      TopIsBucket(buckets[..m]);
      var t :| 0 <= t < m && buckets[..m][t] == Top(buckets[..m]) && buckets[..m][t] != 0;
      assert buckets[t] == Top(buckets);
    }
  }

  /** No bucket holds 0xffffffff and the count fits 32 bits: every walk stops inside. */
  lemma OrdinaryTableCovered(buckets: seq<nat>, symidx: nat, words: seq<nat>)
    requires !BelowFirst(buckets, symidx) && symidx <= Top(buckets) != NO_CHAIN
    requires FirstStop(words, Top(buckets) - symidx).Some?
    requires forall h :: 0 <= h < |buckets| ==> buckets[h] < NO_CHAIN
    requires FirstStop(words, Top(buckets) - symidx).value + 1 < TWO_32
    ensures Covered(buckets, symidx, ChainArray(words, FirstStop(words, Top(buckets) - symidx).value + 1))
  {
    TopIsMaximum(buckets);
    CoveredExactly(buckets, symidx, words);
  }

  /** A bucket of 0xffffffff can leave earlier buckets outside the array. */
  lemma SentinelBucketUncovers()
    ensures var buckets, words := [3, 0xffff_ffff, 1], [1, 1, 1];
            && Top(buckets) == 1 && FirstStop(words, 0) == Some(0)
            && !Covered(buckets, 1, ChainArray(words, 1))
  {
    var buckets, words := [3, NO_CHAIN, 1], [1, 1, 1];
    TopForgets([3], [1]);
    assert [3] + [NO_CHAIN] + [1] == buckets;
    assert [1][..0] == [];
    CoveredExactly(buckets, 1, words);
    assert buckets[0] - 1 >= 1;
  }

  // ----- histograms -----

  function SumOf(xs: seq<nat>): nat
  {
    if xs == [] then 0 else SumOf(xs[..|xs| - 1]) + xs[|xs| - 1]
  }

  function CountOf(xs: seq<nat>, v: nat): nat
  {
    if xs == [] then 0 else CountOf(xs[..|xs| - 1], v) + if xs[|xs| - 1] == v then 1 else 0
  }

  predicate IsMaximum(xs: seq<nat>, m: nat)
  {
    (forall h :: 0 <= h < |xs| ==> xs[h] <= m) && (m == 0 || m in xs)
  }

  /** counts[i] buckets have i symbols, up to the longest bucket. */
  predicate IsHistogram(counts: seq<nat>, lens: seq<nat>)
  {
    |counts| > 0 && IsMaximum(lens, |counts| - 1) && forall i :: 0 <= i < |counts| ==> counts[i] == CountOf(lens, i)
  }

  /** Buckets shorter than k, and the symbols in them. */
  function Shorter(lens: seq<nat>, k: nat): nat
  {
    if lens == [] then 0 else Shorter(lens[..|lens| - 1], k) + if lens[|lens| - 1] < k then 1 else 0
  }

  function SymbolsIn(lens: seq<nat>, k: nat): nat
  {
    if lens == [] then 0 else SymbolsIn(lens[..|lens| - 1], k) + if lens[|lens| - 1] < k then lens[|lens| - 1] else 0
  }

  /** The sum of i * counts[i]. */
  function Weighted(counts: seq<nat>): nat
  {
    if counts == [] then 0 else Weighted(counts[..|counts| - 1]) + counts[|counts| - 1] * (|counts| - 1)
  }

  lemma TimesSuccessor(c: nat, k: nat)
    ensures (c + 1) * k == c * k + k
  {
  }

  lemma {:induction false} OneMoreLength(lens: seq<nat>, k: nat)
    ensures Shorter(lens, k + 1) == Shorter(lens, k) + CountOf(lens, k)
    ensures SymbolsIn(lens, k + 1) == SymbolsIn(lens, k) + CountOf(lens, k) * k
  {
    if lens != [] {
      var init := lens[..|lens| - 1];
      OneMoreLength(init, k);
      TimesSuccessor(CountOf(init, k), k);
    }
  }

  lemma {:induction false} NothingShorter(lens: seq<nat>)
    ensures Shorter(lens, 0) == 0 && SymbolsIn(lens, 0) == 0
  {
    if lens != [] { NothingShorter(lens[..|lens| - 1]); }
  }

  lemma {:induction false} EverythingShorter(lens: seq<nat>, m: nat)
    requires forall h :: 0 <= h < |lens| ==> lens[h] <= m
    ensures Shorter(lens, m + 1) == |lens| && SymbolsIn(lens, m + 1) == SumOf(lens)
  {
    if lens != [] { EverythingShorter(lens[..|lens| - 1], m); }
  }

  lemma {:induction false} RowsUpTo(counts: seq<nat>, lens: seq<nat>)
    requires forall i :: 0 <= i < |counts| ==> counts[i] == CountOf(lens, i)
    ensures SumOf(counts) == Shorter(lens, |counts|) && Weighted(counts) == SymbolsIn(lens, |counts|)
  {
    if counts == [] {
      NothingShorter(lens);
    } else {
      var m := |counts| - 1;
      RowsUpTo(counts[..m], lens);
      OneMoreLength(lens, m);
    }
  }

  /** The counts add up to the number of buckets, and weighted by length to the number of symbols. */
  lemma HistogramConserves(counts: seq<nat>, lens: seq<nat>)
    requires IsHistogram(counts, lens)
    ensures SumOf(counts) == |lens| && Weighted(counts) == SumOf(lens)
  {
    RowsUpTo(counts, lens);
    EverythingShorter(lens, |counts| - 1);
  }

  lemma CountOfNext(lens: seq<nat>, n: nat, v: nat)
    requires n < |lens|
    ensures CountOf(lens[..n + 1], v) == CountOf(lens[..n], v) + if lens[n] == v then 1 else 0
  {
    assert lens[..n + 1][..n] == lens[..n];
  }

  /** The loop that fills counts, the same in both histograms. */
  method CountLengths(lens: seq<nat>, maxlength: nat) returns (counts: array<nat>)
    requires IsMaximum(lens, maxlength)
    ensures IsHistogram(counts[..], lens) && counts.Length == maxlength + 1
  {
    counts := new nat[maxlength + 1](_ => 0);
    for hn := 0 to |lens|
      invariant forall i :: 0 <= i <= maxlength ==> counts[i] == CountOf(lens[..hn], i)
    {
      hide CountOf;
      forall i | 0 <= i <= maxlength
        ensures CountOf(lens[..hn + 1], i) == CountOf(lens[..hn], i) + if lens[hn] == i then 1 else 0
      {
        CountOfNext(lens, hn, i);
      }
      counts[lens[hn]] := counts[lens[hn]] + 1;
    }
    assert lens[..|lens|] == lens;
  }

  /** The nzero_counts column: coverage[i] symbols lie in buckets of length i or less. */
  method Coverage(counts: array<nat>, ghost lens: seq<nat>) returns (coverage: seq<nat>)
    requires IsHistogram(counts[..], lens)
    ensures |coverage| == counts.Length && coverage[|coverage| - 1] == SumOf(lens)
    ensures forall i :: 0 <= i < |coverage| ==> coverage[i] == SymbolsIn(lens, i + 1)
  {
    hide CountOf, SymbolsIn, SumOf, Shorter, IsMaximum;
    coverage := [0];
    var nzeroCounts := 0;
    assert counts[..][0] == CountOf(lens, 0);
    NothingShorter(lens);
    OneMoreLength(lens, 0);
    for i := 1 to counts.Length
      invariant |coverage| == i && nzeroCounts == SymbolsIn(lens, i) == coverage[i - 1]
      invariant forall j :: 0 <= j < i ==> coverage[j] == SymbolsIn(lens, j + 1)
    {
      OneMoreLength(lens, i);
      assert counts[i] == counts[..][i] == CountOf(lens, i);
      nzeroCounts := nzeroCounts + counts[i] * i;
      coverage := coverage + [nzeroCounts];
    }
    AllCovered(lens, counts.Length - 1);
  }

  lemma AllCovered(lens: seq<nat>, m: nat)
    requires IsMaximum(lens, m)
    ensures SymbolsIn(lens, m + 1) == SumOf(lens)
  {
    EverythingShorter(lens, m);
  }

  /** A .hash chain that stops after n symbols, at 0 or outside the chain array. */
  predicate LengthIs(chains: seq<nat>, si: nat, n: nat)
    decreases n
  {
    if n == 0 then !(0 < si < |chains|) else 0 < si < |chains| && LengthIs(chains, chains[si], n - 1)
  }

  /** The k-th symbol of a chain, if there are so many. */
  function Nth(chains: seq<nat>, si: nat, k: nat): Option<nat>
    decreases k
  {
    if !(0 < si < |chains|) then None else if k == 0 then Some(si) else Nth(chains, chains[si], k - 1)
  }

  /** The walk stops, and within as many steps as there are chain words. */
  predicate Stops(chains: seq<nat>, si: nat) { exists n :: 0 <= n <= |chains| && LengthIs(chains, si, n) }

  /** It comes to the same symbol twice, and within one step more. */
  predicate Revisits(chains: seq<nat>, si: nat)
  {
    exists i, j :: 0 <= i < j <= |chains| && Nth(chains, si, i).Some? && Nth(chains, si, i) == Nth(chains, si, j)
  }

  lemma {:induction false} LengthByNth(chains: seq<nat>, si: nat, n: nat)
    requires Nth(chains, si, n) == None && forall k :: 0 <= k < n ==> Nth(chains, si, k).Some?
    ensures LengthIs(chains, si, n)
    decreases n
  {
    if n > 0 {
      assert Nth(chains, si, 0).Some?;
      forall k | 0 <= k < n - 1 ensures Nth(chains, chains[si], k).Some? {
        assert Nth(chains, si, k + 1) == Nth(chains, chains[si], k);
      }
      LengthByNth(chains, chains[si], n - 1);
    }
  }

  /** From the k-th symbol of a chain of length n the walk goes on for n - k. */
  lemma {:induction false} LengthFrom(chains: seq<nat>, si: nat, n: nat, k: nat)
    requires LengthIs(chains, si, n) && Nth(chains, si, k).Some?
    ensures k < n && LengthIs(chains, Nth(chains, si, k).value, n - k)
    decreases k
  {
    if k > 0 { LengthFrom(chains, chains[si], n - 1, k - 1); }
  }

  lemma {:induction false} LengthUnique(chains: seq<nat>, si: nat, m: nat, n: nat)
    requires LengthIs(chains, si, m) && LengthIs(chains, si, n)
    ensures m == n
    decreases m
  {
    if m > 0 { LengthUnique(chains, chains[si], m - 1, n - 1); }
  }

  /** More numbers below n than n: two of them are the same. */
  lemma {:induction false} Pigeonhole(s: seq<nat>, n: nat) returns (i: nat, j: nat)
    requires |s| > n && forall k :: 0 <= k < |s| ==> s[k] < n
    ensures i < j < |s| && s[i] == s[j]
    decreases n
  {
    assert n > 0 by { assert s[0] < n; }
    if at :| 0 <= at < |s| && s[at] == n - 1 {
      if other :| 0 <= other < |s| && other != at && s[other] == n - 1 {
        i, j := if at < other then at else other, if at < other then other else at;
      } else {
        var rest := s[..at] + s[at + 1..];
        forall k | 0 <= k < |rest| ensures rest[k] < n - 1 { assert rest[k] == s[if k < at then k else k + 1]; }
        var a, b := Pigeonhole(rest, n - 1);
        i, j := if a < at then a else a + 1, if b < at then b else b + 1;
      }
    } else {
      i, j := Pigeonhole(s, n - 1);
    }
  }

  lemma NthInside(chains: seq<nat>, si: nat, k: nat)
    ensures Nth(chains, si, k).Some? ==> 0 < Nth(chains, si, k).value < |chains|
    decreases k
  {
  }

  /** A chain stops exactly when it does not come to a symbol twice. */
  lemma StopsExactly(chains: seq<nat>, si: nat)
    ensures Stops(chains, si) <==> !Revisits(chains, si)
  {
    if Stops(chains, si) && Revisits(chains, si) {
      var n :| 0 <= n <= |chains| && LengthIs(chains, si, n);
      var i, j :| 0 <= i < j <= |chains| && Nth(chains, si, i).Some? && Nth(chains, si, i) == Nth(chains, si, j);
      LengthFrom(chains, si, n, i);
      LengthFrom(chains, si, n, j);
      LengthUnique(chains, Nth(chains, si, i).value, n - i, n - j);
    }
    if !Stops(chains, si) {
      forall k | 0 <= k <= |chains| ensures Nth(chains, si, k).Some? { NotYetStopped(chains, si, k); }
      var visited := seq(|chains| + 1, k requires 0 <= k <= |chains| => Nth(chains, si, k).value);
      forall k | 0 <= k < |visited| ensures visited[k] < |chains| { NthInside(chains, si, k); }
      var i, j := Pigeonhole(visited, |chains|);
      assert Nth(chains, si, i) == Nth(chains, si, j);
    }
  }

  lemma {:induction false} NotYetStopped(chains: seq<nat>, si: nat, k: nat)
    requires !Stops(chains, si) && k <= |chains|
    ensures forall j :: 0 <= j <= k ==> Nth(chains, si, j).Some?
  {
    if k > 0 { NotYetStopped(chains, si, k - 1); }
    if Nth(chains, si, k) == None { LengthByNth(chains, si, k); }
  }

  /** No other chain ever stops: a chain that comes to a symbol twice goes on for ever. */
  lemma RevisitingNeverStops(chains: seq<nat>, si: nat, k: nat)
    requires Revisits(chains, si)
    ensures Nth(chains, si, k).Some? && !LengthIs(chains, si, k)
  {
    if n :| 0 <= n <= k && LengthIs(chains, si, n) {
      var i, j :| 0 <= i < j <= |chains| && Nth(chains, si, i).Some? && Nth(chains, si, i) == Nth(chains, si, j);
      LengthFrom(chains, si, n, i);
      LengthFrom(chains, si, n, j);
      LengthUnique(chains, Nth(chains, si, i).value, n - i, n - j);
    } else {
      NoLengthUpTo(chains, si, k);
    }
  }

  lemma {:induction false} NoLengthUpTo(chains: seq<nat>, si: nat, k: nat)
    requires forall n :: 0 <= n <= k ==> !LengthIs(chains, si, n)
    ensures forall j :: 0 <= j <= k ==> Nth(chains, si, j).Some?
  {
    if k > 0 { NoLengthUpTo(chains, si, k - 1); }
    if Nth(chains, si, k) == None { LengthByNth(chains, si, k); }
  }

  /** How many symbols each chain holds. */
  ghost function ChainLengths(buckets: seq<nat>, chains: seq<nat>): (lens: seq<nat>)
    requires forall h :: 0 <= h < |buckets| ==> Stops(chains, buckets[h])
    ensures |lens| == |buckets| && forall h :: 0 <= h < |buckets| ==> LengthIs(chains, buckets[h], lens[h])
  {
    if buckets == [] then []
    else
      assert Stops(chains, buckets[0]);
      var n :| 0 <= n <= |chains| && LengthIs(chains, buckets[0], n);
      [n] + ChainLengths(buckets[1..], chains)
  }

  /** The .hash histogram, on chains that stop: on any other the walk goes on for ever. */
  method HashHistogram(buckets: seq<nat>, chains: seq<nat>) returns (counts: array<nat>, nsyms: nat, coverage: seq<nat>)
    requires forall h :: 0 <= h < |buckets| ==> Stops(chains, buckets[h])
    ensures var lens := ChainLengths(buckets, chains);
            && IsHistogram(counts[..], lens) && nsyms == SumOf(lens)
            && |coverage| == counts.Length && coverage[|coverage| - 1] == nsyms
            && forall i :: 0 <= i < |coverage| ==> coverage[i] == SymbolsIn(lens, i + 1)
  {
    hide ChainLengths, SymbolsIn, IsHistogram, Stops, SumOf, IsMaximum;
    ghost var lens := ChainLengths(buckets, chains);
    var lengths := new nat[|buckets|](_ => 0);
    var maxlength := 0;
    nsyms := 0;
    NoneSoFar(lens);
    for hn := 0 to |buckets|
      invariant forall h :: 0 <= h < hn ==> lengths[h] == lens[h]
      invariant IsMaximum(lens[..hn], maxlength) && nsyms == SumOf(lens[..hn])
      invariant forall h :: hn <= h < |buckets| ==> lengths[h] == 0
    {
      ghost var most, total := maxlength, nsyms;
      var si: nat := buckets[hn];
      ghost var left: nat := lens[hn];
      while 0 < si < |chains|
        invariant LengthIs(chains, si, left) && lengths[hn] + left == lens[hn]
        invariant nsyms == total + lengths[hn]
        invariant forall h :: 0 <= h < hn ==> lengths[h] == lens[h]
        invariant maxlength == if lengths[hn] > most then lengths[hn] else most
        invariant forall h :: hn < h < |buckets| ==> lengths[h] == 0
        decreases left
      {
        nsyms := nsyms + 1;
        lengths[hn] := lengths[hn] + 1;
        if maxlength < lengths[hn] { maxlength := maxlength + 1; }
        si := chains[si];
        left := left - 1;
      }
      LongestSoFar(lens, hn, most, maxlength);
    }
    assert lens[..|buckets|] == lens == lengths[..];
    counts := CountLengths(lengths[..], maxlength);
    coverage := Coverage(counts, lens);
  }

  lemma LongestSoFar(lens: seq<nat>, n: nat, most: nat, longest: nat)
    requires n < |lens| && IsMaximum(lens[..n], most) && longest == if lens[n] > most then lens[n] else most
    ensures IsMaximum(lens[..n + 1], longest) && SumOf(lens[..n + 1]) == SumOf(lens[..n]) + lens[n]
  {
    assert lens[..n + 1] == lens[..n] + [lens[n]];
  }

  /** One walk; None when it leaves the array. */
  method WalkGnuChain(chains: seq<nat>, start: nat) returns (length: Option<nat>)
    ensures length == match FirstStop(chains, start) case None => None case Some(stop) => Some(stop + 1 - start)
  {
    var off, n := start, 1;
    while off < |chains| && chains[off] % 2 == 0
      invariant start <= off && n == off - start + 1 && FirstStop(chains, off) == FirstStop(chains, start)
      decreases |chains| - off
    {
      off := off + 1;
      n := n + 1;
    }
    if off >= |chains| { return None; }
    return Some(n);
  }

  /** How many symbols each walk visits. */
  function WalkLengths(buckets: seq<nat>, symidx: nat, chains: seq<nat>): (lens: seq<nat>)
    requires Covered(buckets, symidx, chains)
    ensures |lens| == |buckets|
    ensures forall h :: 0 <= h < |buckets| ==> (lens[h] == 0 <==> buckets[h] == 0)
    ensures forall h :: 0 <= h < |buckets| && buckets[h] != 0 ==>
              FirstStop(chains, buckets[h] - symidx) == Some(buckets[h] - symidx + lens[h] - 1)
  {
    seq(|buckets|, h requires 0 <= h < |buckets| =>
      if buckets[h] == 0 then 0 else FirstStop(chains, buckets[h] - symidx).value - (buckets[h] - symidx) + 1)
  }

  method GnuLengths(buckets: seq<nat>, symidx: nat, chains: seq<nat>)
    returns (ok: bool, lengths: array<nat>, maxlength: nat, nsyms: nat)
    ensures ok <==> Covered(buckets, symidx, chains)
    ensures ok ==> lengths[..] == WalkLengths(buckets, symidx, chains)
    ensures ok ==> IsMaximum(lengths[..], maxlength) && nsyms == SumOf(lengths[..])
  {
    hide FirstStop, SumOf, IsMaximum;
    lengths := new nat[|buckets|](_ => 0);
    maxlength, nsyms := 0, 0;
    ghost var lens := [];
    NoneSoFar(lens);
    for hn := 0 to |buckets|
      invariant |lens| == hn && IsMaximum(lens, maxlength) && nsyms == SumOf(lens)
      invariant forall h :: 0 <= h < hn ==> lengths[h] == lens[h]
      invariant forall h :: hn <= h < |buckets| ==> lengths[h] == 0
      invariant forall h :: 0 <= h < hn ==> IsWalk(buckets[h], symidx, chains, lens[h])
    {
      ghost var most := maxlength;
      if buckets[hn] != 0 {
        if buckets[hn] < symidx { return false, lengths, 0, 0; }
        var length := WalkGnuChain(chains, buckets[hn] - symidx);
        if length.None? { return false, lengths, 0, 0; }
        lengths[hn] := length.value;
        if length.value > maxlength { maxlength := length.value; }
        nsyms := nsyms + length.value;
      }
      ghost var longer := lens + [lengths[hn]];
      assert longer[..hn] == lens && longer[..hn + 1] == longer;
      LongestSoFar(longer, hn, most, maxlength);
      lens := longer;
    }
    assert Covered(buckets, symidx, chains);
    WalksAre(buckets, symidx, chains, lens);
    assert lens == lengths[..];
    ok := true;
  }

  /** A walk from the bucket visits so many symbols. */
  predicate IsWalk(bucket: nat, symidx: nat, chains: seq<nat>, n: nat)
  {
    if bucket == 0 then n == 0
    else bucket >= symidx && n > 0 && FirstStop(chains, bucket - symidx) == Some(bucket - symidx + n - 1)
  }

  lemma WalksAre(buckets: seq<nat>, symidx: nat, chains: seq<nat>, lens: seq<nat>)
    requires Covered(buckets, symidx, chains) && |lens| == |buckets|
    requires forall h :: 0 <= h < |lens| ==> IsWalk(buckets[h], symidx, chains, lens[h])
    ensures lens == WalkLengths(buckets, symidx, chains)
  {
    hide FirstStop;
    forall h | 0 <= h < |lens| ensures lens[h] == WalkLengths(buckets, symidx, chains)[h] {
      assert IsWalk(buckets[h], symidx, chains, lens[h]);
    }
  }

  lemma NoneSoFar(lens: seq<nat>)
    ensures IsMaximum(lens[..0], 0) && SumOf(lens[..0]) == 0
  {
  }

  /** The .gnu.hash histogram; its walks have no bound but the covering of the chain array, and leave the array
      exactly without it. */
  method GnuHashHistogram(buckets: seq<nat>, symidx: nat, chains: seq<nat>)
    returns (ok: bool, counts: array<nat>, nsyms: nat, coverage: seq<nat>)
    ensures ok <==> Covered(buckets, symidx, chains)
    ensures ok ==> var lens := WalkLengths(buckets, symidx, chains);
                   && IsHistogram(counts[..], lens) && nsyms == SumOf(lens)
                   && |coverage| == counts.Length && coverage[|coverage| - 1] == nsyms
                   && forall i :: 0 <= i < |coverage| ==> coverage[i] == SymbolsIn(lens, i + 1)
  {
    hide WalkLengths, SumOf, SymbolsIn, IsHistogram, IsMaximum, Covered;
    var fits, lengths, maxlength, symbols := GnuLengths(buckets, symidx, chains);
    ok, nsyms, coverage := fits, symbols, [];
    if !ok {
      counts := new nat[0];
      return;
    }
    counts := CountLengths(lengths[..], maxlength);
    coverage := Coverage(counts, WalkLengths(buckets, symidx, chains));
  }
}
