/** The pressure history the server keeps for the chart: sorted by time, bounded. */
module History {
  import opened Wrappers

  /** i is the insertion id; seqNo is present on samples read back from the device. */
  datatype Sample = Sample(i: nat, t: int, p: Option<int>, r: int, seqNo: Option<int>)

  predicate Precedes(a: Sample, b: Sample) {
    a.t < b.t || (a.t == b.t && a.i < b.i)
  }

  predicate Ordered(h: seq<Sample>) {
    forall j, k :: 0 <= j < k < |h| ==> Precedes(h[j], h[k])
  }

  /** Where a sample of time t goes: behind the last one that is not later. */
  function Spot(h: seq<Sample>, t: int): (pos: nat)
    ensures pos <= |h|
  {
    if h == [] || h[|h| - 1].t <= t then |h| else Spot(h[..|h| - 1], t)
  }

  function Insert(h: seq<Sample>, s: Sample): seq<Sample> {
    var pos := Spot(h, s.t);
    h[..pos] + [s] + h[pos..]
  }

  /** del h[:-n]: the last n elements, all of them when n is 0. */
  function Keep(h: seq<Sample>, n: nat): seq<Sample> {
    if n == 0 || |h| <= n then h else h[|h| - n..]
  }

  /** The store after the samples of log were added one by one. */
  function Hist(log: seq<Sample>, n: nat): seq<Sample> {
    if log == [] then [] else Keep(Insert(Hist(log[..|log| - 1], n), log[|log| - 1]), n)
  }

  /** Insertion ids count the samples ever added. */
  predicate Numbered(log: seq<Sample>) {
    forall k :: 0 <= k < |log| ==> log[k].i == k + 1
  }

  // ---- Ordered insertion -----------------------------------------------------

  lemma {:induction false} SpotSplits(h: seq<Sample>, t: int)
    requires Ordered(h)
    ensures forall k :: 0 <= k < Spot(h, t) ==> h[k].t <= t
    ensures forall k :: Spot(h, t) <= k < |h| ==> h[k].t > t
  {
    if h != [] && h[|h| - 1].t > t {
      SpotSplits(h[..|h| - 1], t);
    }
  }

  lemma InsertOrdered(h: seq<Sample>, s: Sample)
    requires Ordered(h) && forall x :: x in h && x.t == s.t ==> x.i < s.i
    ensures Ordered(Insert(h, s))
    ensures forall x :: x in Insert(h, s) <==> x in h || x == s
    ensures |Insert(h, s)| == |h| + 1
  {
    SpotSplits(h, s.t);
    InsertMembers(h, s);
    var pos := Spot(h, s.t);
    assert forall k :: 0 <= k < pos ==> h[k] in h && Precedes(h[k], s);
    assert h == h[..pos] + h[pos..];
    BetweenOrdered(h[..pos], s, h[pos..]);
  }

  lemma BetweenOrdered(a: seq<Sample>, s: Sample, b: seq<Sample>)
    requires Ordered(a + b) && (forall k :: 0 <= k < |a| ==> Precedes(a[k], s)) && forall k :: 0 <= k < |b| ==> Precedes(s, b[k])
    ensures Ordered(a + [s] + b)
  {
    var h, g := a + b, a + [s] + b;
    forall j, k | 0 <= j < k < |g| ensures Precedes(g[j], g[k]) {
      assert g[j] == if j < |a| then h[j] else if j == |a| then s else h[j - 1];
      assert g[k] == if k < |a| then h[k] else if k == |a| then s else h[k - 1];
    }
  }

  lemma InsertMembers(h: seq<Sample>, s: Sample)
    ensures forall x :: x in Insert(h, s) <==> x in h || x == s
  {
    assert h == h[..Spot(h, s.t)] + h[Spot(h, s.t)..];
  }

  /** Ordered lists of the same samples are the same list. */
  lemma {:induction false} OrderedUnique(g: seq<Sample>, h: seq<Sample>)
    requires Ordered(g) && Ordered(h) && forall x :: x in g <==> x in h
    ensures g == h
  {
    assert h != [] ==> h[0] in h;
    if g != [] {
      assert g[0] in h && h[0] in g;
      assert g[0] == h[0];
      forall x ensures x in g[1..] <==> x in h[1..] {
        assert g == [g[0]] + g[1..] && h == [h[0]] + h[1..];
        assert g[0] !in g[1..] && h[0] !in h[1..];
        assert x in g <==> x in h;
      }
      OrderedUnique(g[1..], h[1..]);
      assert g == [g[0]] + g[1..] && h == [h[0]] + h[1..];
    }
  }

  /** An ordered list ends with every ordered list of its samples that all others precede. */
  lemma TailGrows(g: seq<Sample>, k: nat, a: Sample)
    requires k <= |g|
    ensures (g + [a])[|g| - k..] == g[|g| - k..] + [a]
  {
  }

  lemma {:induction false} EndsWith(g: seq<Sample>, h: seq<Sample>)
    requires Ordered(g) && Ordered(h) && forall x :: x in h ==> x in g
    requires forall x, y :: x in g && x !in h && y in h ==> Precedes(x, y)
    ensures |h| <= |g| && g[|g| - |h|..] == h
  {
    if h != [] {
      assert h[|h| - 1] in g;
      var a := g[|g| - 1];
      SameLast(g, h);
      var g', h' := g[..|g| - 1], h[..|h| - 1];
      assert g == g' + [a] && h == h' + [a];
      LastAfter(g', a);
      LastAfter(h', a);
      assert forall x :: x in h' ==> x in h && x != a;
      EndsWith(g', h');
      TailGrows(g', |h'|, a);
    }
  }

  lemma SameLast(g: seq<Sample>, h: seq<Sample>)
    requires Ordered(g) && Ordered(h) && h != [] && forall x :: x in h ==> x in g
    requires forall x, y :: x in g && x !in h && y in h ==> Precedes(x, y)
    ensures g != [] && g[|g| - 1] == h[|h| - 1]
  {
    var b := h[|h| - 1];
    assert b in h && b in g;
    var a := g[|g| - 1];
    assert a in g;
    assert a != b ==> Precedes(b, a);
    assert a in h && a != b ==> Precedes(a, b);
  }

  lemma LastAfter(rest: seq<Sample>, s: Sample)
    requires Ordered(rest + [s])
    ensures Ordered(rest) && forall x :: x in rest ==> Precedes(x, s)
  {
    var all := rest + [s];
    assert forall j :: 0 <= j < |rest| ==> all[j] == rest[j];
    assert all[|rest|] == s;
  }

  // ---- Trimming after every insertion loses nothing --------------------------

  lemma {:induction false} SpotTail(h: seq<Sample>, m: nat, t: int)
    requires m <= |h|
    ensures Spot(h[m..], t) > 0 ==> Spot(h, t) == m + Spot(h[m..], t)
    ensures Spot(h[m..], t) == 0 ==> Spot(h, t) <= m
  {
    if m < |h| && h[|h| - 1].t > t {
      SpotTail(h[..|h| - 1], m, t);
      assert h[m..][..|h[m..]| - 1] == h[..|h| - 1][m..];
    }
  }

  lemma KeepInsert(h: seq<Sample>, s: Sample, n: nat)
    ensures Keep(Insert(Keep(h, n), s), n) == Keep(Insert(h, s), n)
  {
    if n != 0 && |h| > n {
      if Spot(h[|h| - n..], s.t) == 0 {
        InsertBelow(h, s, |h| - n);
      } else {
        InsertWithin(h, s, |h| - n);
      }
    }
  }

  lemma InsertBelow(h: seq<Sample>, s: Sample, m: nat)
    requires m <= |h| && Spot(h[m..], s.t) == 0
    ensures Insert(h[m..], s)[1..] == h[m..] == Insert(h, s)[m + 1..]
  {
    SpotTail(h, m, s.t);
    var pos := Spot(h, s.t);
    assert (h[..pos] + [s])[..pos + 1] == h[..pos] + [s];
    assert h[pos..][m - pos..] == h[m..];
  }

  lemma InsertWithin(h: seq<Sample>, s: Sample, m: nat)
    requires m <= |h| && Spot(h[m..], s.t) > 0
    ensures Insert(h[m..], s) == Insert(h, s)[m..]
  {
    SpotTail(h, m, s.t);
    var pos := Spot(h, s.t);
    assert h[m..][..pos - m] == h[..pos][m..] && h[m..][pos - m..] == h[pos..];
    DropFront(h[..pos], [s] + h[pos..], m);
    assert (h[..pos] + [s]) + h[pos..] == h[..pos] + ([s] + h[pos..]);
  }

  lemma DropFront(a: seq<Sample>, b: seq<Sample>, m: nat)
    requires m <= |a|
    ensures (a + b)[m..] == a[m..] + b
  {
  }

  lemma KeepTwice(h: seq<Sample>, n: nat)
    ensures Keep(Keep(h, n), n) == Keep(h, n)
  {
  }

  lemma {:induction false} HistIsTail(log: seq<Sample>, n: nat)
    ensures Hist(log, n) == Keep(Hist(log, 0), n)
  {
    if log != [] {
      var old', s := log[..|log| - 1], log[|log| - 1];
      HistIsTail(old', n);
      KeepInsert(Hist(old', 0), s, n);
    }
  }

  lemma {:induction false} FullOrdered(log: seq<Sample>)
    requires Numbered(log)
    ensures Ordered(Hist(log, 0)) && forall x :: x in Hist(log, 0) <==> x in log
    ensures |Hist(log, 0)| == |log|
  {
    if log != [] {
      var old', s := log[..|log| - 1], log[|log| - 1];
      FullOrdered(old');
      assert forall x :: x in old' ==> x.i < s.i;
      InsertOrdered(Hist(old', 0), s);
      assert log == old' + [s];
    }
  }

  /** The bounded store is exactly the last n of all samples ever added, in the
      order of time and insertion; any list of all samples in that order will do. */
  lemma StoreExact(log: seq<Sample>, n: nat, all: seq<Sample>)
    requires Numbered(log) && Ordered(all) && forall x :: x in all <==> x in log
    ensures Hist(log, n) == Keep(all, n)
  {
    HistIsTail(log, n);
    FullOrdered(log);
    OrderedUnique(Hist(log, 0), all);
  }

  lemma StoreShape(log: seq<Sample>, n: nat)
    requires Numbered(log)
    ensures Ordered(Hist(log, n)) && forall x :: x in Hist(log, n) ==> x in log
    ensures |Hist(log, n)| == if n == 0 || |log| <= n then |log| else n
    ensures forall x, y :: x in log && x !in Hist(log, n) && y in Hist(log, n) ==> Precedes(x, y)
  {
    var all := Hist(log, 0);
    FullOrdered(log);
    HistIsTail(log, n);
    var m := |all| - |Hist(log, n)|;
    assert Hist(log, n) == all[m..];
    assert forall j :: m <= j < |all| ==> all[j] == all[m..][j - m];
    forall x, y | x in log && x !in Hist(log, n) && y in Hist(log, n) ensures Precedes(x, y) {
      var j :| 0 <= j < |all| && all[j] == x;
      var k :| m <= k < |all| && all[k] == y;
    }
  }

  /** What has left the store, or never entered it, does not come back. */
  lemma {:induction false} NeverReturns(log: seq<Sample>, n: nat, k: nat, x: Sample)
    requires Numbered(log) && k <= |log| && x in Hist(log, n) && x in log[..k]
    ensures x in Hist(log[..k], n)
    decreases |log|
  {
    if k < |log| {
      var old', s := log[..|log| - 1], log[|log| - 1];
      assert log[..k] == old'[..k];
      assert x.i < s.i;
      InsertMembers(Hist(old', n), s);
      assert x in Insert(Hist(old', n), s);
      NeverReturns(old', n, k, x);
    } else {
      assert log[..k] == log;
    }
  }

  // ---- The store as a mutable list -------------------------------------------

  class DeviceHistory {
    const maxSamples: nat
    var histI: nat
    var hist: seq<Sample>
    ghost var log: seq<Sample>    // every sample ever added

    ghost predicate Valid()
      reads this
    {
      Numbered(log) && histI == |log| && hist == Hist(log, maxSamples)
    }

    constructor (maxSamples: nat)
      ensures Valid() && log == [] && this.maxSamples == maxSamples
    {
      this.maxSamples := maxSamples;
      histI, hist, log := 0, [], [];
    }

    method HistAdd(t: int, p: Option<int>, r: int, seqNo: Option<int>)
      requires Valid()
      modifies this
      ensures Valid()
      ensures log == old(log) + [Sample(old(histI) + 1, t, p, r, seqNo)]
    {
      histI := histI + 1;
      var sample := Sample(histI, t, p, r, seqNo);
      InsertSorted(sample);
      if maxSamples != 0 && |hist| > maxSamples {
        hist := hist[|hist| - maxSamples..];
      }
      log := log + [sample];
      assert log[..|log| - 1] == old(log);
    }

    method InsertSorted(s: Sample)
      modifies this`hist
      ensures hist == Insert(old(hist), s)
    {
      var pos := |hist|;
      assert hist[..pos] == hist;
      while pos > 0 && hist[pos - 1].t > s.t
        invariant 0 <= pos <= |hist| && Spot(hist[..pos], s.t) == Spot(hist, s.t)
      {
        assert hist[..pos][..pos - 1] == hist[..pos - 1];
        pos := pos - 1;
      }
      hist := hist[..pos] + [s] + hist[pos..];
    }
  }
}
