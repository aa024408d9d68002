/** The browser's copy of the history, kept up to date by incremental polls. */
module Mirror {
  import opened Wrappers
  import opened History

  const CLIENT_CAP: nat := 6000

  function NewerThan(hist: seq<Sample>, i: nat): seq<Sample> {
    if hist == [] then [] else (if hist[0].i > i then [hist[0]] else []) + NewerThan(hist[1..], i)
  }

  function LaterThan(hist: seq<Sample>, t: int): seq<Sample> {
    if hist == [] then [] else (if hist[0].t > t then [hist[0]] else []) + LaterThan(hist[1..], t)
  }

  /** GET /api/history: since_i wins over the older since filter; 0 means no filter. */
  function ApiHistory(hist: seq<Sample>, sinceI: nat, since: int): seq<Sample> {
    if sinceI != 0 then NewerThan(hist, sinceI) else if since != 0 then LaterThan(hist, since) else hist
  }

  datatype Client = Client(list: seq<Sample>, lastI: nat, seqs: set<int>)

  const EMPTY: Client := Client([], 0, {})

  /** One received sample; a device sample whose seq is known is dropped. */
  function Take(c: Client, s: Sample): Client {
    var last := if s.i > c.lastI then s.i else c.lastI;
    if s.seqNo.Some? && s.seqNo.value in c.seqs then Client(c.list, last, c.seqs)
    else Client(Insert(c.list, s), last, if s.seqNo.Some? then c.seqs + {s.seqNo.value} else c.seqs)
  }

  function TakeAll(c: Client, resp: seq<Sample>): Client {
    if resp == [] then c else Take(TakeAll(c, resp[..|resp| - 1]), resp[|resp| - 1])
  }

  function Poll(c: Client, resp: seq<Sample>): Client {
    var d := TakeAll(c, resp);
    d.(list := Keep(d.list, CLIENT_CAP))
  }

  predicate InLog(log: seq<Sample>, ks: seq<nat>) {
    forall j :: 0 <= j < |ks| ==> ks[j] <= |log|
  }

  /** The client after polls answered when the server had added ks[0], ks[1], ...
      samples of log; whatever else the server adds meanwhile makes no difference. */
  function After(log: seq<Sample>, n: nat, ks: seq<nat>): Client
    requires InLog(log, ks)
  {
    if ks == [] then EMPTY else
      var c := After(log, n, ks[..|ks| - 1]);
      Poll(c, Response(log, n, ks[|ks| - 1], c))
  }

  function Response(log: seq<Sample>, n: nat, k: nat, c: Client): seq<Sample>
    requires k <= |log|
  {
    ApiHistory(Hist(log[..k], n), c.lastI, 0)
  }

  /** The part of the store that the client is able to hold. */
  function Window(hist: seq<Sample>): seq<Sample> {
    Keep(hist, 6000)
  }

  predicate EndsIn(list: seq<Sample>, w: seq<Sample>) {
    |w| <= |list| && list[|list| - |w|..] == w
  }

  /** The client's list ends with the server's history (the newest 6000 of it). */
  predicate Mirrors(c: Client, hist: seq<Sample>) {
    EndsIn(c.list, Window(hist))
  }

  predicate Known(c: Client, s: Sample) {
    s.seqNo.Some? && s.seqNo.value in c.seqs
  }

  /** The samples of a response that the client drops because it knows their seq. */
  function DropsOf(c: Client, resp: seq<Sample>): set<Sample> {
    if resp == [] then {} else
      var rest, s := resp[..|resp| - 1], resp[|resp| - 1];
      DropsOf(c, rest) + if Known(TakeAll(c, rest), s) then {s} else {}
  }

  /** All the samples dropped so far. */
  function Dropped(log: seq<Sample>, n: nat, ks: seq<nat>): set<Sample>
    requires InLog(log, ks)
  {
    if ks == [] then {} else
      var c := After(log, n, ks[..|ks| - 1]);
      Dropped(log, n, ks[..|ks| - 1]) + DropsOf(c, Response(log, n, ks[|ks| - 1], c))
  }

  // ---- Responses -------------------------------------------------------------

  lemma {:induction false} NewerIs(hist: seq<Sample>, i: nat)
    requires Ordered(hist)
    ensures Ordered(NewerThan(hist, i))
    ensures forall x :: x in NewerThan(hist, i) <==> x in hist && x.i > i
  {
    if hist != [] {
      NewerIs(hist[1..], i);
      assert hist == [hist[0]] + hist[1..];
      var rest := NewerThan(hist[1..], i);
      assert forall j :: 0 <= j < |rest| ==> rest[j] in hist[1..];
    }
  }

  /** The older filter by time: what it returns is later than t, so a sample
      backfilled at or before t stays hidden from its clients. */
  lemma {:induction false} LaterIs(hist: seq<Sample>, t: int)
    requires Ordered(hist)
    ensures Ordered(LaterThan(hist, t))
    ensures forall x :: x in LaterThan(hist, t) <==> x in hist && x.t > t
  {
    if hist != [] {
      LaterIs(hist[1..], t);
      assert hist == [hist[0]] + hist[1..];
      var rest := LaterThan(hist[1..], t);
      assert forall j :: 0 <= j < |rest| ==> rest[j] in hist[1..];
    }
  }

  /** What a request gets, in order: with a since_i the samples of larger insertion id,
      whatever since is; without one those later than since; with neither all. */
  lemma ApiExact(hist: seq<Sample>, sinceI: nat, since: int)
    requires Ordered(hist)
    ensures Ordered(ApiHistory(hist, sinceI, since))
    ensures forall x :: x in ApiHistory(hist, sinceI, since) <==>
      x in hist && (sinceI > 0 ==> x.i > sinceI) && (sinceI == 0 && since != 0 ==> x.t > since)
  {
    NewerIs(hist, sinceI);
    LaterIs(hist, since);
  }

  lemma ResponseIs(hist: seq<Sample>, i: nat)
    requires Ordered(hist) && forall x :: x in hist ==> x.i > 0
    ensures Ordered(ApiHistory(hist, i, 0))
    ensures forall x :: x in ApiHistory(hist, i, 0) <==> x in hist && x.i > i
  {
    NewerIs(hist, i);
  }

  // ---- One poll --------------------------------------------------------------

  function SeqsOf(resp: seq<Sample>): set<int> {
    set s | s in resp && s.seqNo.Some? :: s.seqNo.value
  }

  /** What one poll adds, without the cap: the response but for what is dropped. */
  lemma {:induction false} TakeAllIs(c: Client, resp: seq<Sample>)
    requires Ordered(c.list) && Ordered(resp) && c.seqs <= SeqsOf(c.list)
    requires forall x, y :: x in c.list && y in resp ==> x.i < y.i
    ensures Ordered(TakeAll(c, resp).list)
    ensures forall x :: x in TakeAll(c, resp).list <==> x in c.list || (x in resp && x !in DropsOf(c, resp))
    ensures TakeAll(c, resp).seqs <= SeqsOf(TakeAll(c, resp).list)
    ensures forall x :: x in DropsOf(c, resp) ==> x in resp
  {
    if resp != [] {
      var rest, s := resp[..|resp| - 1], resp[|resp| - 1];
      assert resp == rest + [s];
      LastAfter(rest, s);
      TakeAllIs(c, rest);
      var d := TakeAll(c, rest);
      InsertOrdered(d.list, s);
      assert forall x :: x in rest ==> x != s;
      assert s !in c.list;
      SeqsGrow(d.list, Insert(d.list, s), s);
    }
  }

  lemma SeqsGrow(list: seq<Sample>, more: seq<Sample>, s: Sample)
    requires forall x :: x in more <==> x in list || x == s
    ensures SeqsOf(more) == SeqsOf(list) + if s.seqNo.Some? then {s.seqNo.value} else {}
  {
  }

  lemma {:induction false} LastIs(c: Client, resp: seq<Sample>)
    ensures TakeAll(c, resp).lastI >= c.lastI
    ensures forall x :: x in resp ==> x.i <= TakeAll(c, resp).lastI
    ensures TakeAll(c, resp).lastI == c.lastI || exists x :: x in resp && x.i == TakeAll(c, resp).lastI
  {
    if resp != [] {
      LastIs(c, resp[..|resp| - 1]);
      assert resp == resp[..|resp| - 1] + [resp[|resp| - 1]];
    }
  }

  /** Trimming the client's list before a poll makes no difference to the list after it. */
  lemma {:induction false} TrimEarlier(c: Client, resp: seq<Sample>, n: nat)
    ensures var d, e := TakeAll(c, resp), TakeAll(c.(list := Keep(c.list, n)), resp);
            Keep(e.list, n) == Keep(d.list, n) && e.lastI == d.lastI && e.seqs == d.seqs
    ensures DropsOf(c.(list := Keep(c.list, n)), resp) == DropsOf(c, resp)
  {
    if resp == [] {
      KeepTwice(c.list, n);
    } else {
      var rest, s := resp[..|resp| - 1], resp[|resp| - 1];
      TrimEarlier(c, rest, n);
      var d, e := TakeAll(c, rest), TakeAll(c.(list := Keep(c.list, n)), rest);
      KeepInsert(d.list, s, n);
      KeepInsert(e.list, s, n);
    }
  }

  /** The client without the cap. */
  function Untrimmed(log: seq<Sample>, n: nat, ks: seq<nat>): Client
    requires InLog(log, ks)
  {
    if ks == [] then EMPTY else
      var c := Untrimmed(log, n, ks[..|ks| - 1]);
      TakeAll(c, Response(log, n, ks[|ks| - 1], c))
  }

  lemma {:induction false} CapOnly(log: seq<Sample>, n: nat, ks: seq<nat>)
    requires InLog(log, ks)
    ensures var c := Untrimmed(log, n, ks);
            After(log, n, ks) == c.(list := Keep(c.list, CLIENT_CAP))
  {
    if ks != [] {
      var rest, k := ks[..|ks| - 1], ks[|ks| - 1];
      CapOnly(log, n, rest);
      var c := Untrimmed(log, n, rest);
      TrimEarlier(c, Response(log, n, k, c), CLIENT_CAP);
    }
  }

  // ---- All polls -------------------------------------------------------------

  predicate Instants(log: seq<Sample>, ks: seq<nat>) {
    InLog(log, ks) && forall i, j :: 0 <= i < j < |ks| ==> ks[i] <= ks[j]
  }

  /** Between polls, k being the instant of the last one: the untrimmed list is
      ordered, stems from log, and has all that the store held then, but for what
      was dropped. */
  ghost predicate Synced(c: Client, gone: set<Sample>, log: seq<Sample>, n: nat, k: nat)
    requires k <= |log|
  {
    && Ordered(c.list) && c.lastI <= k && c.seqs <= SeqsOf(c.list)
    && (forall x :: x in c.list ==> x in log[..k] && x.i <= c.lastI)
    && (forall x :: x in gone ==> x in log[..k] && x.i <= c.lastI && x !in c.list)
    && (forall x :: x in Hist(log[..k], n) ==> x in c.list || x in gone)
  }

  lemma Catches(c: Client, gone: set<Sample>, log: seq<Sample>, n: nat, k: nat, l: nat)
    requires Numbered(log) && k <= l <= |log| && Synced(c, gone, log, n, k)
    ensures var resp := Response(log, n, l, c);
            Synced(TakeAll(c, resp), gone + DropsOf(c, resp), log, n, l)
  {
    var resp := Response(log, n, l, c);
    NewOnes(c, gone, log, n, k, l);
    TakeAllIs(c, resp);
    LastIs(c, resp);
  }

  /** The response holds what the client lacks of the store and has not dropped. */
  lemma NewOnes(c: Client, gone: set<Sample>, log: seq<Sample>, n: nat, k: nat, l: nat)
    requires Numbered(log) && k <= l <= |log| && Synced(c, gone, log, n, k)
    ensures var resp := Response(log, n, l, c);
            && Ordered(resp)
            && (forall x :: x in resp ==> x in log[..l] && c.lastI < x.i <= l)
            && (forall x :: x in c.list || x in gone ==> x in log[..l])
            && (forall x :: x in Hist(log[..l], n) ==> x in c.list || x in gone || x in resp)
  {
    StoreShape(log[..l], n);
    ResponseIs(Hist(log[..l], n), c.lastI);
    InEarlier(log, k, l);
    forall x | x in Hist(log[..l], n) && x.i <= c.lastI ensures x in c.list || x in gone {
      AlreadyThere(c, gone, log, n, k, l, x);
    }
  }

  lemma InEarlier(log: seq<Sample>, k: nat, l: nat)
    requires Numbered(log) && k <= l <= |log|
    ensures forall x :: x in log[..k] <==> x in log[..l] && x.i <= k
  {
    forall x | x in log[..l] && x.i <= k ensures x in log[..k] {
      var j :| 0 <= j < l && log[j] == x;
      assert log[..k][j] == x;
    }
  }

  lemma AlreadyThere(c: Client, gone: set<Sample>, log: seq<Sample>, n: nat, k: nat, l: nat, x: Sample)
    requires Numbered(log) && k <= l <= |log| && Synced(c, gone, log, n, k)
    requires x in Hist(log[..l], n) && x.i <= c.lastI
    ensures x in c.list || x in gone
  {
    StoreShape(log[..l], n);
    InEarlier(log, k, l);
    assert log[..l][..k] == log[..k];
    NeverReturns(log[..l], n, k, x);
  }

  function LastInstant(ks: seq<nat>): nat {
    if ks == [] then 0 else ks[|ks| - 1]
  }

  lemma {:induction false} SyncedAfter(log: seq<Sample>, n: nat, ks: seq<nat>)
    requires Numbered(log) && Instants(log, ks)
    ensures Synced(Untrimmed(log, n, ks), Dropped(log, n, ks), log, n, LastInstant(ks))
  {
    if ks == [] {
      assert log[..0] == [];
    } else {
      var rest, k := ks[..|ks| - 1], ks[|ks| - 1];
      var c := Untrimmed(log, n, rest);
      SyncedAfter(log, n, rest);
      CapOnly(log, n, rest);
      TrimEarlier(c, Response(log, n, k, c), CLIENT_CAP);
      Catches(c, Dropped(log, n, rest), log, n, LastInstant(rest), k);
    }
  }

  lemma BeforeTail(h: seq<Sample>, m: nat, x: Sample, y: Sample)
    requires Ordered(h) && m <= |h| && x in h && x !in h[m..] && y in h[m..]
    ensures Precedes(x, y)
  {
    forall j | m <= j < |h| ensures h[j] in h[m..] {
      assert h[m..][j - m] == h[j];
    }
    var j :| 0 <= j < |h| && h[j] == x;
    var l :| 0 <= l < |h[m..]| && h[m..][l] == y;
  }

  lemma WindowShape(log: seq<Sample>, n: nat)
    requires Numbered(log)
    ensures Ordered(Window(Hist(log, n))) && forall x :: x in Window(Hist(log, n)) ==> x in Hist(log, n)
    ensures forall x, y :: x in log && x !in Window(Hist(log, n)) && y in Window(Hist(log, n)) ==> Precedes(x, y)
  {
    StoreShape(log, n);
    var hist := Hist(log, n);
    var w := Window(hist);
    var m := |hist| - |w|;
    assert w == hist[m..];
    assert forall j :: 0 <= j < |w| ==> w[j] == hist[m + j];
    forall x, y | x in log && x !in w && y in w ensures Precedes(x, y) {
      if x in hist {
        BeforeTail(hist, m, x, y);
      }
    }
  }

  /** A list that holds w but for what is gone ends in w, cut or not, if and only
      if nothing of w is gone. */
  lemma TailExact(list: seq<Sample>, gone: set<Sample>, w: seq<Sample>)
    requires Ordered(list) && Ordered(w) && |w| <= CLIENT_CAP
    requires forall x :: x in w ==> x in list || x in gone
    requires forall x :: x in gone ==> x !in list
    requires forall x, y :: x in list && x !in w && y in w ==> Precedes(x, y)
    ensures EndsIn(Keep(list, CLIENT_CAP), w) <==> forall x :: x in w ==> x !in gone
  {
    if forall x :: x in w ==> x !in gone {
      EndsWith(list, w);
      TailKept(list, w);
    }
    if EndsIn(Keep(list, CLIENT_CAP), w) {
      InTail(Keep(list, CLIENT_CAP), w);
      KeptFrom(list);
    }
  }

  lemma TailKept(list: seq<Sample>, w: seq<Sample>)
    requires |w| <= CLIENT_CAP && EndsIn(list, w)
    ensures EndsIn(Keep(list, CLIENT_CAP), w)
  {
    var kept := Keep(list, CLIENT_CAP);
    assert kept == list[|list| - |kept|..];
    assert kept[|kept| - |w|..] == list[|list| - |w|..];
  }

  lemma InTail(list: seq<Sample>, w: seq<Sample>)
    requires EndsIn(list, w)
    ensures forall x :: x in w ==> x in list
  {
    forall x | x in w ensures x in list {
      var j :| 0 <= j < |w| && w[j] == x;
      assert list[|list| - |w| + j] == x;
    }
  }

  lemma KeptFrom(list: seq<Sample>)
    ensures forall x :: x in Keep(list, CLIENT_CAP) ==> x in list
  {
  }

  /** Right after any poll the client's newest samples are exactly the server's, in
      order, if and only if no sample still there was dropped, in this poll or in
      any before it: for every store size and every sequence of polls. */
  lemma MirrorExact(log: seq<Sample>, n: nat, ks: seq<nat>)
    requires Numbered(log) && Instants(log, ks) && ks != []
    ensures var w := Window(Hist(log[..LastInstant(ks)], n));
            Mirrors(After(log, n, ks), Hist(log[..LastInstant(ks)], n)) <==> forall x :: x in w ==> x !in Dropped(log, n, ks)
  {
    var k, c := LastInstant(ks), Untrimmed(log, n, ks);
    SyncedAfter(log, n, ks);
    CapOnly(log, n, ks);
    WindowShape(log[..k], n);
    TailExact(c.list, Dropped(log, n, ks), Window(Hist(log[..k], n)));
  }

  // ---- What is dropped -------------------------------------------------------

  /** All the samples the polls have delivered, in order. */
  function Delivered(log: seq<Sample>, n: nat, ks: seq<nat>): seq<Sample>
    requires InLog(log, ks)
  {
    if ks == [] then [] else
      Delivered(log, n, ks[..|ks| - 1]) + Response(log, n, ks[|ks| - 1], After(log, n, ks[..|ks| - 1]))
  }

  /** A delivered sample before x has the seq of x. */
  predicate Repeats(d: seq<Sample>, x: Sample) {
    exists i, j :: 0 <= i < j < |d| && d[j] == x && x.seqNo.Some? && d[i].seqNo == x.seqNo
  }

  lemma RepeatsMore(d: seq<Sample>, s: Sample)
    ensures forall x :: Repeats(d + [s], x) <==> Repeats(d, x) || (x == s && s.seqNo.Some? && s.seqNo.value in SeqsOf(d))
  {
    var e := d + [s];
    forall x ensures Repeats(e, x) <==> Repeats(d, x) || (x == s && s.seqNo.Some? && s.seqNo.value in SeqsOf(d)) {
      if i, j :| 0 <= i < j < |d| && d[j] == x && x.seqNo.Some? && d[i].seqNo == x.seqNo {
        assert e[i] == d[i] && e[j] == x;
      }
      if x == s && s.seqNo.Some? && s.seqNo.value in SeqsOf(d) {
        var y :| y in d && y.seqNo == s.seqNo;
        var i :| 0 <= i < |d| && d[i] == y;
        assert e[i] == y && e[|d|] == x;
      }
      if i, j :| 0 <= i < j < |e| && e[j] == x && x.seqNo.Some? && e[i].seqNo == x.seqNo {
        assert e[i] in d;
      }
    }
  }

  lemma {:induction false} DropsRepeat(c: Client, gone: set<Sample>, d: seq<Sample>, resp: seq<Sample>)
    requires c.seqs == SeqsOf(d) && forall x :: x in gone <==> Repeats(d, x)
    ensures TakeAll(c, resp).seqs == SeqsOf(d + resp)
    ensures forall x :: x in gone + DropsOf(c, resp) <==> Repeats(d + resp, x)
  {
    if resp == [] {
      assert d + resp == d;
    } else {
      var rest, s := resp[..|resp| - 1], resp[|resp| - 1];
      DropsRepeat(c, gone, d, rest);
      assert d + resp == (d + rest) + [s];
      RepeatsMore(d + rest, s);
      SeqsGrow(d + rest, d + resp, s);
    }
  }

  /** The client drops exactly the samples whose seq an earlier delivered sample carried. */
  lemma {:induction false} DroppedIs(log: seq<Sample>, n: nat, ks: seq<nat>)
    requires InLog(log, ks)
    ensures After(log, n, ks).seqs == SeqsOf(Delivered(log, n, ks))
    ensures forall x :: x in Dropped(log, n, ks) <==> Repeats(Delivered(log, n, ks), x)
  {
    if ks != [] {
      var rest := ks[..|ks| - 1];
      var c := After(log, n, rest);
      DroppedIs(log, n, rest);
      DropsRepeat(c, Dropped(log, n, rest), Delivered(log, n, rest), Response(log, n, ks[|ks| - 1], c));
    }
  }

  /** So a client that has dropped nothing ends with exactly the server's history
      as it was when the poll was answered. */
  lemma MirrorsHistory(log: seq<Sample>, n: nat, ks: seq<nat>)
    requires Numbered(log) && Instants(log, ks) && ks != [] && Dropped(log, n, ks) == {}
    ensures Mirrors(After(log, n, ks), Hist(log[..LastInstant(ks)], n))
  {
    MirrorExact(log, n, ks);
  }

  /** The device samples have different seqs, as one boot of the device makes them. */
  predicate DistinctSeqs(log: seq<Sample>) {
    forall i, j :: 0 <= i < j < |log| && log[i].seqNo.Some? ==> log[i].seqNo != log[j].seqNo
  }

  lemma {:induction false} DistinctDropsNothing(log: seq<Sample>, n: nat, ks: seq<nat>)
    requires Numbered(log) && Instants(log, ks) && DistinctSeqs(log)
    ensures Dropped(log, n, ks) == {}
  {
    if ks != [] {
      var rest, k := ks[..|ks| - 1], ks[|ks| - 1];
      var c := Untrimmed(log, n, rest);
      var resp := Response(log, n, k, c);
      DistinctDropsNothing(log, n, rest);
      SyncedAfter(log, n, rest);
      CapOnly(log, n, rest);
      TrimEarlier(c, resp, CLIENT_CAP);
      NewOnes(c, {}, log, n, LastInstant(rest), k);
      NothingKnown(log, c, resp);
    }
  }

  lemma {:induction false} NothingKnown(log: seq<Sample>, c: Client, resp: seq<Sample>)
    requires DistinctSeqs(log) && Ordered(c.list) && Ordered(resp) && c.seqs <= SeqsOf(c.list)
    requires forall x :: x in c.list || x in resp ==> x in log
    requires forall x, y :: x in c.list && y in resp ==> x.i < y.i
    ensures DropsOf(c, resp) == {}
  {
    if resp != [] {
      var rest, s := resp[..|resp| - 1], resp[|resp| - 1];
      assert resp == rest + [s];
      LastAfter(rest, s);
      NothingKnown(log, c, rest);
      TakeAllIs(c, rest);
      var d := TakeAll(c, rest);
      if Known(d, s) {
        var y :| y in d.list && y.seqNo == s.seqNo;
        DistinctMembers(log, s, y);
      }
    }
  }

  lemma DistinctMembers(log: seq<Sample>, x: Sample, y: Sample)
    requires DistinctSeqs(log) && x in log && y in log && x != y && x.seqNo.Some?
    ensures x.seqNo != y.seqNo
  {
    var i :| 0 <= i < |log| && log[i] == x;
    var j :| 0 <= j < |log| && log[j] == y;
    assert i < j || j < i;
  }

  /** After a reboot the device counts from 1 again; the client, which does not
      forget the old seqs, then misses a sample b of the new boot whose seq it
      has seen on a sample a of the old one. */
  lemma RebootBreaksMirror(n: nat, a: Sample, b: Sample)
    requires n != 1 && a.i == 1 && b.i == 2 && a.t <= b.t
    requires a.seqNo.Some? && a.seqNo == b.seqNo
    ensures !Mirrors(After([a, b], n, [1, 2]), Hist([a, b], n))
  {
    var log, one: seq<nat>, two: seq<nat> := [a, b], [1], [1, 2];
    assert two[..1] == one && log[..2] == log;
    TwoStored(n, a, b);
    FirstPoll(n, a, b);
    SecondPoll(n, a, b);
    assert b in Window(Hist(log, n));
    MirrorExact(log, n, two);
  }

  lemma TwoStored(n: nat, a: Sample, b: Sample)
    requires n != 1 && a.t <= b.t
    ensures Hist([a], n) == [a] && Hist([a, b], n) == [a, b]
  {
    assert [a][..0] == [] && [a, b][..1] == [a];
    assert Insert([], a) == [a];
    assert Insert([a], b) == [a, b];
  }

  lemma FirstPoll(n: nat, a: Sample, b: Sample)
    requires n != 1 && a.i == 1 && a.t <= b.t && a.seqNo.Some?
    ensures After([a, b], n, [1]) == Client([a], 1, {a.seqNo.value})
  {
    var log, one: seq<nat> := [a, b], [1];
    TwoStored(n, a, b);
    assert one[..0] == [] && log[..1] == [a] && [a][..0] == [];
    assert Insert([], a) == [a];
    assert TakeAll(EMPTY, [a]) == Take(EMPTY, a);
    assert After(log, n, one) == Poll(EMPTY, Response(log, n, 1, EMPTY));
  }

  lemma SecondPoll(n: nat, a: Sample, b: Sample)
    requires n != 1 && a.i == 1 && b.i == 2 && a.t <= b.t && a.seqNo.Some? && a.seqNo == b.seqNo
    ensures b in Dropped([a, b], n, [1, 2])
  {
    var log, one: seq<nat>, two: seq<nat> := [a, b], [1], [1, 2];
    var c := After(log, n, one);
    TwoStored(n, a, b);
    FirstPoll(n, a, b);
    assert two[..1] == one && log[..2] == log;
    assert [a, b][1..] == [b] && [b][1..] == [];
    assert NewerThan([b], 1) == [b];
    assert Response(log, n, 2, c) == [b];
    assert [b][..0] == [];
    assert DropsOf(c, [b]) == {b};
  }

  // ---- The page's script -----------------------------------------------------

  class Page {
    var hist: seq<Sample>
    var histLastI: nat
    var histSeqs: set<int>

    function View(): Client
      reads this
    {
      Client(hist, histLastI, histSeqs)
    }

    constructor ()
      ensures View() == EMPTY
    {
      hist, histLastI, histSeqs := [], 0, {};
    }

    method InsertSorted(s: Sample)
      modifies this`hist
      ensures hist == Insert(old(hist), s)
    {
      var pos := |hist|;
      assert hist[..pos] == hist;
      while pos > 0 && hist[pos - 1].t > s.t
        invariant 0 <= pos <= |hist| && Spot(hist[..pos], s.t) == Spot(hist, s.t)
      {
        assert hist[..pos][..pos - 1] == hist[..pos - 1];
        pos := pos - 1;
      }
      hist := hist[..pos] + [s] + hist[pos..];
    }

    method PollHistory(samples: seq<Sample>)
      modifies this
      ensures View() == Poll(old(View()), samples)
    {
      var n := 0;
      while n < |samples|
        invariant 0 <= n <= |samples|
        invariant View() == TakeAll(old(View()), samples[..n])
      {
        var s := samples[n];
        assert samples[..n + 1][..n] == samples[..n];
        n := n + 1;
        if s.i > histLastI {
          histLastI := s.i;
        }
        if s.seqNo.Some? {
          if s.seqNo.value in histSeqs {
            continue;
          }
          histSeqs := histSeqs + {s.seqNo.value};
        }
        InsertSorted(s);
      }
      assert samples[..n] == samples;
      if |hist| > CLIENT_CAP {
        hist := hist[|hist| - CLIENT_CAP..];
      }
    }
  }
}
