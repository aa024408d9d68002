/** From the device's ring to the browser: what at-most-once reading gives the chart. */
module Chart {
  import opened Wrappers
  import opened History
  import opened HistoryPoll
  import Mirror

  /** The device seqs among the samples of the history, in the order they were added. */
  function SeqNos(log: seq<History.Sample>): seq<int> {
    if log == [] then [] else
      var s := log[|log| - 1];
      SeqNos(log[..|log| - 1]) + if s.seqNo.Some? then [s.seqNo.value] else []
  }

  function GotSeqs(trail: seq<Item>): seq<int> {
    if trail == [] then [] else
      var x := trail[|trail| - 1];
      GotSeqs(trail[..|trail| - 1]) + if x.Got? then [x.seqNo] else []
  }

  predicate Ascending(xs: seq<int>) {
    forall i, j :: 0 <= i < j < |xs| ==> xs[i] < xs[j]
  }

  /** Every batch adds to the history exactly the seqs it adds to the trail. */
  lemma {:induction false} PlacedSeqs(cursor: nat, b: Batch, rows: seq<Row>, i: nat, wallMs: int, relay: int)
    ensures SeqNos(Placed(cursor, b, rows, i, wallMs, relay)) == GotSeqs(NewRows(cursor, b.boot, rows))
  {
    if rows != [] {
      var init := rows[..|rows| - 1];
      PlacedSeqs(cursor, b, init, i, wallMs, relay);
      var p, q := Placed(cursor, b, init, i, wallMs, relay), NewRows(cursor, b.boot, init);
      if IsNew(EndCursor(cursor, init), rows[|rows| - 1]) {
        assert Placed(cursor, b, rows, i, wallMs, relay)[..|p|] == p;
        assert NewRows(cursor, b.boot, rows)[..|q|] == q;
      } else {
        assert Placed(cursor, b, rows, i, wallMs, relay) == p && NewRows(cursor, b.boot, rows) == q + [] == q;
      }
    }
  }

  lemma {:induction false} SeqNosConcat(a: seq<History.Sample>, b: seq<History.Sample>)
    ensures SeqNos(a + b) == SeqNos(a) + SeqNos(b)
  {
    if b == [] {
      assert a + b == a;
    } else {
      assert (a + b)[..|a + b| - 1] == a + b[..|b| - 1];
      SeqNosConcat(a, b[..|b| - 1]);
    }
  }

  lemma {:induction false} GotSeqsConcat(a: seq<Item>, b: seq<Item>)
    ensures GotSeqs(a + b) == GotSeqs(a) + GotSeqs(b)
  {
    if b == [] {
      assert a + b == a;
    } else {
      assert (a + b)[..|a + b| - 1] == a + b[..|b| - 1];
      GotSeqsConcat(a, b[..|b| - 1]);
    }
  }

  /** So the history and the trail stay in step when a batch is absorbed. */
  lemma AbsorbInStep(log: seq<History.Sample>, trail: seq<Item>, c: Cursor, b: Batch, wallMs: int, relay: int)
    requires SeqNos(log) == GotSeqs(trail)
    ensures SeqNos(log + Placed(Rebase(c, b).seqNo, b, b.rows, |log|, wallMs, relay)) == GotSeqs(trail + Ingest(c, b).1)
  {
    var k := Rebase(c, b).seqNo;
    var p := Placed(k, b, b.rows, |log|, wallMs, relay);
    PlacedSeqs(k, b, b.rows, |log|, wallMs, relay);
    SeqNosConcat(log, p);
    GotSeqsConcat(Announced(k, b), NewRows(k, b.boot, b.rows));
    GotSeqsConcat(trail, Ingest(c, b).1);
    assert GotSeqs(Announced(k, b)) == [];
  }

  lemma {:induction false} GotAscending(boots: seq<int>, trail: seq<Item>)
    requires Tiled(boots, trail) && forall x :: x in trail ==> x.boot == trail[0].boot
    ensures Ascending(GotSeqs(trail))
    ensures forall q :: q in GotSeqs(trail) ==> trail != [] && q <= Highest(Last(trail))
  {
    if trail != [] {
      var init, x := trail[..|trail| - 1], Last(trail);
      TiledInit(boots, trail);
      assert forall y :: y in init ==> y in trail;
      GotAscending(boots, init);
      assert x in trail;
      assert init != [] ==> Last(init) in trail;
      var before := GotSeqs(init);
      assert forall q :: q in before ==> q < Lowest(x);
      assert forall i :: 0 <= i < |before| ==> before[i] in before;
    }
  }

  lemma TiledInit(boots: seq<int>, trail: seq<Item>)
    requires Tiled(boots, trail) && trail != []
    ensures var init := trail[..|trail| - 1];
            Tiled(boots, init) && (init != [] ==> Follows(boots, Last(init), Last(trail)))
  {
    var init := trail[..|trail| - 1];
    forall i | 0 <= i < |trail| - 1 ensures Follows(boots, init[i], trail[i + 1]) {
      assert init[i] == trail[i];
    }
    forall i | 0 <= i < |init| - 1 ensures Follows(boots, init[i], init[i + 1]) {
      assert init[i + 1] == trail[i + 1];
    }
  }

  lemma {:induction false} AscendingDistinct(log: seq<History.Sample>)
    requires Ascending(SeqNos(log))
    ensures Mirror.DistinctSeqs(log)
    ensures forall s :: s in log && s.seqNo.Some? ==> s.seqNo.value in SeqNos(log)
  {
    if log != [] {
      var init, s := log[..|log| - 1], log[|log| - 1];
      assert SeqNos(init) == SeqNos(log)[..|SeqNos(init)|];
      AscendingDistinct(init);
      assert log == init + [s];
      if s.seqNo.Some? {
        assert SeqNos(log)[|SeqNos(init)|] == s.seqNo.value;
        forall i | 0 <= i < |init| && log[i].seqNo.Some? ensures log[i].seqNo != s.seqNo {
          assert init[i] in init;
          var k :| 0 <= k < |SeqNos(init)| && SeqNos(init)[k] == log[i].seqNo.value;
          assert SeqNos(log)[k] == SeqNos(init)[k];
        }
      }
    }
  }

  // ---- Device, server and browser in one run ---------------------------------

  /** ks says how many samples had been added when each poll of the browser was answered;
      made keeps what the device recorded in each boot, time and pressure of seq 1 first. */
  datatype Whole = Whole(sys: System, log: seq<History.Sample>, ks: seq<nat>, made: map<int, seq<(int, int)>>)

  datatype Happening =
    | Link(e: Event, wallMs: int, relay: int)                 // between device and server
    | Live(t: int, pressure: Option<int>, relay: int)         // a report adds its own sample
    | Browse                                                  // the browser polls

  function Next(w: Whole, h: Happening): Whole
    requires w.sys.dev.Valid()
  {
    match h
    case Link(e, wallMs, relay) =>
      var added :=
        if e.Receive? && w.sys.inflight.Some? then
          var b := w.sys.inflight.value;
          Placed(Rebase(w.sys.cur, b).seqNo, b, b.rows, |w.log|, wallMs, relay)
        else [];
      var sys := Step(w.sys, e);
      Whole(sys, w.log + added, w.ks, w.made[sys.dev.boot := sys.dev.data])
    case Live(t, pressure, relay) =>
      w.(log := w.log + [History.Sample(|w.log| + 1, t, pressure, relay, None)])
    case Browse => w.(ks := w.ks + [|w.log|])
  }

  function Play(boot: int, hs: seq<Happening>): (w: Whole)
    ensures w.sys.dev.Valid()
  {
    if hs == [] then Whole(Start(boot), [], [], map[boot := []]) else
      StepValid(Play(boot, hs[..|hs| - 1]), hs[|hs| - 1]);
      Next(Play(boot, hs[..|hs| - 1]), hs[|hs| - 1])
  }

  lemma StepValid(w: Whole, h: Happening)
    requires w.sys.dev.Valid()
    ensures Next(w, h).sys.dev.Valid()
  {
  }

  /** The history holds the seqs the link has delivered, under consecutive ids. */
  predicate InStep(log: seq<History.Sample>, trail: seq<Item>, ks: seq<nat>) {
    Numbered(log) && SeqNos(log) == GotSeqs(trail) && Mirror.Instants(log, ks)
  }

  /** These samples carry the ids that come after i. */
  predicate NumberedFrom(p: seq<History.Sample>, i: nat) {
    forall j :: 0 <= j < |p| ==> p[j].i == i + j + 1
  }

  lemma {:induction false} PlacedNumbered(cursor: nat, b: Batch, rows: seq<Row>, i: nat, wallMs: int, relay: int)
    ensures NumberedFrom(Placed(cursor, b, rows, i, wallMs, relay), i)
  {
    if rows != [] {
      var init, row := rows[..|rows| - 1], rows[|rows| - 1];
      PlacedNumbered(cursor, b, init, i, wallMs, relay);
      var before := Placed(cursor, b, init, i, wallMs, relay);
      assert Placed(cursor, b, rows, i, wallMs, relay)
          == before + PlacedRow(EndCursor(cursor, init), b, row, i + |before| + 1, wallMs, relay);
    }
  }

  lemma NumberedMore(log: seq<History.Sample>, p: seq<History.Sample>, ks: seq<nat>)
    requires Numbered(log) && NumberedFrom(p, |log|) && Mirror.Instants(log, ks)
    ensures Numbered(log + p) && Mirror.Instants(log + p, ks)
  {
  }

  lemma BatchInStep(log: seq<History.Sample>, trail: seq<Item>, ks: seq<nat>, c: Cursor, b: Batch, wallMs: int, relay: int)
    requires InStep(log, trail, ks)
    ensures InStep(log + Placed(Rebase(c, b).seqNo, b, b.rows, |log|, wallMs, relay), trail + Ingest(c, b).1, ks)
  {
    AbsorbInStep(log, trail, c, b, wallMs, relay);
    PlacedNumbered(Rebase(c, b).seqNo, b, b.rows, |log|, wallMs, relay);
    NumberedMore(log, Placed(Rebase(c, b).seqNo, b, b.rows, |log|, wallMs, relay), ks);
  }

  lemma LiveInStep(log: seq<History.Sample>, trail: seq<Item>, ks: seq<nat>, s: History.Sample)
    requires InStep(log, trail, ks) && s.i == |log| + 1 && s.seqNo.None?
    ensures InStep(log + [s], trail, ks)
  {
    assert (log + [s])[..|log|] == log;
    assert SeqNos(log + [s]) == SeqNos(log);
    NumberedMore(log, [s], ks);
  }

  lemma BrowseInStep(log: seq<History.Sample>, trail: seq<Item>, ks: seq<nat>)
    requires InStep(log, trail, ks)
    ensures InStep(log, trail, ks + [|log|])
  {
  }

  predicate Consistent(w: Whole) {
    InStep(w.log, w.sys.trail, w.ks)
  }

  lemma LinkConsistent(w: Whole, e: Event, wallMs: int, relay: int)
    requires w.sys.dev.Valid() && Consistent(w)
    ensures Consistent(Next(w, Link(e, wallMs, relay)))
  {
    if e.Receive? && w.sys.inflight.Some? {
      BatchInStep(w.log, w.sys.trail, w.ks, w.sys.cur, w.sys.inflight.value, wallMs, relay);
    } else {
      assert w.log + [] == w.log;
      assert Step(w.sys, e).trail == w.sys.trail;
    }
  }

  lemma NextConsistent(w: Whole, h: Happening)
    requires w.sys.dev.Valid() && Consistent(w)
    ensures Consistent(Next(w, h))
  {
    match h
    case Link(e, wallMs, relay) => LinkConsistent(w, e, wallMs, relay);
    case Live(t, pressure, relay) =>
      LiveInStep(w.log, w.sys.trail, w.ks, History.Sample(|w.log| + 1, t, pressure, relay, None));
    case Browse => BrowseInStep(w.log, w.sys.trail, w.ks);
  }

  lemma {:induction false} PlayConsistent(boot: int, hs: seq<Happening>)
    ensures Consistent(Play(boot, hs))
  {
    if hs != [] {
      PlayConsistent(boot, hs[..|hs| - 1]);
      NextConsistent(Play(boot, hs[..|hs| - 1]), hs[|hs| - 1]);
    }
  }

  lemma {:induction false} PlayInv(boot: int, hs: seq<Happening>)
    ensures Inv(Play(boot, hs).sys)
  {
    if hs == [] {
      RunInv(boot, []);
    } else {
      PlayInv(boot, hs[..|hs| - 1]);
      if hs[|hs| - 1].Link? {
        StepInv(Play(boot, hs[..|hs| - 1]).sys, hs[|hs| - 1].e);
      }
    }
  }

  /** In every run, over any number of boots: after a poll the browser is in step
      with the store if and only if no sample still in the store carries a seq that a
      sample delivered to the browser before it had carried. */
  lemma BrowserExact(boot: int, hs: seq<Happening>, n: nat)
    requires Play(boot, hs).ks != []
    ensures var w := Play(boot, hs);
            && Mirror.Instants(w.log, w.ks)
            && var hist := Hist(w.log[..Mirror.LastInstant(w.ks)], n);
               Mirror.Mirrors(Mirror.After(w.log, n, w.ks), hist)
               <==> forall x :: x in Mirror.Window(hist) ==> !Mirror.Repeats(Mirror.Delivered(w.log, n, w.ks), x)
  {
    PlayConsistent(boot, hs);
    Mirror.DroppedIs(Play(boot, hs).log, n, Play(boot, hs).ks);
    Mirror.MirrorExact(Play(boot, hs).log, n, Play(boot, hs).ks);
  }

  /** While the device stays in one boot, the browser is in step after every poll,
      whatever evictions, lost answers, reconnects and live samples the run has. */
  lemma OneBootMirrors(boot: int, hs: seq<Happening>, n: nat)
    requires Play(boot, hs).ks != [] && |Play(boot, hs).sys.boots| == 1
    ensures var w := Play(boot, hs);
            && Mirror.Instants(w.log, w.ks)
            && Mirror.Mirrors(Mirror.After(w.log, n, w.ks), Hist(w.log[..Mirror.LastInstant(w.ks)], n))
  {
    var w := Play(boot, hs);
    PlayConsistent(boot, hs);
    PlayInv(boot, hs);
    OneBootDistinct(w);
    Mirror.DistinctDropsNothing(w.log, n, w.ks);
    Mirror.MirrorsHistory(w.log, n, w.ks);
  }

  lemma OneBootDistinct(w: Whole)
    requires Inv(w.sys) && Consistent(w) && |w.sys.boots| == 1
    ensures Mirror.DistinctSeqs(w.log)
  {
    var s := w.sys;
    forall x | x in s.trail ensures x.boot == s.boots[0] {
      var i :| 0 <= i < |s.trail| && s.trail[i] == x;
      assert s.trail[i].boot in s.boots;
    }
    GotAscending(s.boots, s.trail);
    AscendingDistinct(w.log);
  }

  // ---- What the chart shows is what the device recorded ----------------------

  /** A row is the device's record of its seq. */
  predicate Genuine(made: seq<(int, int)>, row: Row) {
    && row.Row? && 1 <= row.seqNo <= |made|
    && row.tsMs == made[row.seqNo - 1].0 && row.mbar == made[row.seqNo - 1].1
  }

  predicate Recorded(w: Whole) {
    && w.sys.dev.boot in w.made && w.made[w.sys.dev.boot] == w.sys.dev.data
    && (w.sys.inflight.Some? ==>
          var b := w.sys.inflight.value;
          b.boot in w.made && forall i :: 0 <= i < |b.rows| ==> Genuine(w.made[b.boot], b.rows[i]))
  }

  lemma ServesGenuine(dev: Device, since: nat, nowMs: int)
    requires dev.Valid()
    ensures var b := dev.Serve(since, nowMs); forall i :: 0 <= i < |b.rows| ==> Genuine(dev.data, b.rows[i])
  {
  }

  lemma LinkRecorded(w: Whole, e: Event, wallMs: int, relay: int)
    requires Inv(w.sys) && Recorded(w)
    ensures Recorded(Next(w, Link(e, wallMs, relay)))
  {
    match e
    case Handle(nowMs) => ServesGenuine(w.sys.dev, w.sys.cur.seqNo, nowMs);
    case _ =>
  }

  lemma {:induction false} PlayRecorded(boot: int, hs: seq<Happening>)
    ensures Recorded(Play(boot, hs))
  {
    if hs != [] {
      PlayRecorded(boot, hs[..|hs| - 1]);
      PlayInv(boot, hs[..|hs| - 1]);
      if hs[|hs| - 1].Link? {
        LinkRecorded(Play(boot, hs[..|hs| - 1]), hs[|hs| - 1].e, hs[|hs| - 1].wallMs, hs[|hs| - 1].relay);
      }
    }
  }

  /** The sample shows the device's record of its seq, at the time the server's clock had
      when it was taken, if the device's clock agrees with the batch's. */
  predicate Shows(s: History.Sample, made: seq<(int, int)>, nowMs: int, wallMs: int, relay: int) {
    && s.seqNo.Some? && 1 <= s.seqNo.value <= |made| && s.r == relay
    && s.p == Some(made[s.seqNo.value - 1].1)
    && (made[s.seqNo.value - 1].0 <= nowMs ==> s.t + nowMs == wallMs + made[s.seqNo.value - 1].0)
    && (made[s.seqNo.value - 1].0 > nowMs ==> s.t == wallMs)
  }

  lemma {:induction false} PlacedShows(made: seq<(int, int)>, cursor: nat, b: Batch, rows: seq<Row>, lo: nat, i: nat, wallMs: int, relay: int)
    requires Consecutive(rows, lo) && cursor < lo && forall j :: 0 <= j < |rows| ==> Genuine(made, rows[j])
    ensures var p := Placed(cursor, b, rows, i, wallMs, relay);
            |p| == |rows| && forall j :: 0 <= j < |p| ==> Shows(p[j], made, b.nowMs, wallMs, relay) && p[j].seqNo == Some(lo + j)
  {
    if rows != [] {
      var init, row := rows[..|rows| - 1], rows[|rows| - 1];
      PlacedShows(made, cursor, b, init, lo, i, wallMs, relay);
      AllNew(cursor, b.boot, init, lo);
      assert Genuine(made, row);
    }
  }

  /** In every run, receiving a batch adds, for each seq it delivers, exactly one sample,
      and that shows what the device recorded: its pressure, and its time carried
      over to the server's clock, so that samples of a batch stay as far apart as
      the device took them. Nothing else changes in the history. */
  lemma BatchStored(boot: int, hs: seq<Happening>, wallMs: int, relay: int)
    requires Play(boot, hs).sys.inflight.Some?
    ensures var w, v := Play(boot, hs), Next(Play(boot, hs), Link(Receive, wallMs, relay));
            var b := w.sys.inflight.value;
            && |w.log| <= |v.log| && v.log[..|w.log|] == w.log
            && |w.sys.trail| <= |v.sys.trail| && v.sys.trail[..|w.sys.trail|] == w.sys.trail
            && b.boot in w.made
            && (forall j :: |w.log| <= j < |v.log| ==>
                  && Shows(v.log[j], w.made[b.boot], b.nowMs, wallMs, relay)
                  && Got(b.boot, v.log[j].seqNo.value) in v.sys.trail[|w.sys.trail|..])
            && (forall q :: Got(b.boot, q) in v.sys.trail[|w.sys.trail|..] ==>
                  exists j :: |w.log| <= j < |v.log| && v.log[j].seqNo == Some(q)
                    && forall l :: |w.log| <= l < |v.log| && l != j ==> v.log[l].seqNo != Some(q))
  {
    var w := Play(boot, hs);
    var b := w.sys.inflight.value;
    PlayInv(boot, hs);
    PlayRecorded(boot, hs);
    Arrival(w.sys);
    ResetExact(w.sys);
    var k, lo := Rebase(w.sys.cur, b).seqNo, BatchLo(w.sys, b);
    PlacedShows(w.made[b.boot], k, b, b.rows, lo, |w.log|, wallMs, relay);
    OneEach(w.log, Placed(k, b, b.rows, |w.log|, wallMs, relay), w.sys.trail, Announced(k, b), b.boot, lo, |b.rows|);
  }

  lemma OneEach(log: seq<History.Sample>, p: seq<History.Sample>, trail: seq<Item>, gap: seq<Item>, boot: int, lo: nat, n: nat)
    requires |p| == n && forall j :: 0 <= j < n ==> p[j].seqNo == Some(lo + j)
    requires forall x :: x in gap ==> x.Gap?
    ensures var all, items := log + p, (trail + (gap + Straight(boot, lo, n)))[|trail|..];
            && all[..|log|] == log && (trail + (gap + Straight(boot, lo, n)))[..|trail|] == trail
            && (forall j :: |log| <= j < |all| ==> all[j] == p[j - |log|] && Got(boot, all[j].seqNo.value) in items)
            && (forall q :: Got(boot, q) in items ==>
                  exists j :: |log| <= j < |all| && all[j].seqNo == Some(q)
                    && forall l :: |log| <= l < |all| && l != j ==> all[l].seqNo != Some(q))
  {
    var all, news := log + p, Straight(boot, lo, n);
    var items := (trail + (gap + news))[|trail|..];
    assert items == gap + news;
    assert forall k :: 0 <= k < |gap| ==> gap[k] in gap && items[k] == gap[k];
    forall j | |log| <= j < |all| ensures all[j] == p[j - |log|] && Got(boot, all[j].seqNo.value) in items {
      assert items[|gap| + (j - |log|)] == Got(boot, lo + (j - |log|));
    }
    forall q | Got(boot, q) in items
      ensures exists j :: |log| <= j < |all| && all[j].seqNo == Some(q)
                && forall l :: |log| <= l < |all| && l != j ==> all[l].seqNo != Some(q)
    {
      var i :| 0 <= i < |items| && items[i] == Got(boot, q);
      var j := |log| + (i - |gap|);
      assert all[j].seqNo == Some(q);
    }
  }
}
