/** The offline watchdog and its adaptive silence window; all times in ms. */
module Watchdog {

  const EVIDENCE_MS: int := 15000

  const POWER := "System_Power_Mode"
  const LINK := "Net_Link_State"

  /** The value shadow with the receive time of every datapoint, and the last sign of life. */
  datatype Shadow = Shadow(now: int, lastRx: int, dp: map<string, int>, ts: map<string, int>)

  predicate FreshNormal(s: Shadow, name: string) {
    name in s.dp && s.dp[name] == 0 && s.now - (if name in s.ts then s.ts[name] else 0) <= EVIDENCE_MS
  }

  /** The fast window needs fresh evidence of normal mode on both points. */
  function IdleTimeout(s: Shadow, fast: nat, slow: nat): nat {
    if FreshNormal(s, POWER) && FreshNormal(s, LINK) then fast else slow
  }

  predicate Fires(s: Shadow, fast: nat, slow: nat) {
    s.now - s.lastRx > IdleTimeout(s, fast, slow)
  }

  datatype Event =
    | Tick(ms: nat)
    | Receive                      // any message
    | Merge(dp: map<string, int>)  // its datapoints reach the shadow
    | Clear                        // the connect hook

  /** A merge happens at most lag ms after the last message; lag is 0 when
      dispatch takes no time, more when a waiting reader merges its answer later. */
  predicate Enabled(s: Shadow, lag: nat, e: Event) {
    e.Merge? ==> s.now - s.lastRx <= lag
  }

  function Stamps(names: set<string>, now: int): map<string, int> {
    map k | k in names :: now
  }

  function Step(s: Shadow, e: Event): Shadow {
    match e
    case Tick(ms) => s.(now := s.now + ms)
    case Receive => s.(lastRx := s.now)
    case Merge(dp) => s.(dp := s.dp + dp, ts := s.ts + Stamps(dp.Keys, s.now))
    case Clear => s.(dp := map[], ts := map[])
  }

  /** A session's watchdog starts with a fresh sign of life and an empty shadow. */
  function Start(t: int): Shadow {
    Shadow(t, t, map[], map[])
  }

  predicate CanRun(s: Shadow, lag: nat, es: seq<Event>)
    decreases |es|
  {
    es != [] ==> Enabled(s, lag, es[0]) && CanRun(Step(s, es[0]), lag, es[1..])
  }

  function Run(s: Shadow, es: seq<Event>): Shadow
    decreases |es|
  {
    if es == [] then s else Run(Step(s, es[0]), es[1..])
  }

  /** No evidence is stamped later than lag after the last sign of life. */
  predicate StampsOk(s: Shadow, lag: nat) {
    s.dp.Keys == s.ts.Keys && s.lastRx <= s.now && forall k :: k in s.ts ==> s.ts[k] <= s.lastRx + lag
  }

  lemma {:induction false} StampsKept(s: Shadow, lag: nat, es: seq<Event>)
    requires StampsOk(s, lag) && CanRun(s, lag, es)
    ensures StampsOk(Run(s, es), lag)
    decreases |es|
  {
    if es != [] {
      StampsKept(Step(s, es[0]), lag, es[1..]);
    }
  }

  /** Every firing has been silent for longer than the slow window. */
  ghost predicate NeverFalse(lag: nat, fast: nat, slow: nat) {
    forall t, es :: CanRun(Start(t), lag, es) && Fires(Run(Start(t), es), fast, slow) ==>
      Run(Start(t), es).now - Run(Start(t), es).lastRx > slow
  }

  lemma FiringIsSlow(lag: nat, fast: nat, slow: nat, t: int, es: seq<Event>)
    requires fast >= EVIDENCE_MS + lag || fast >= slow
    requires CanRun(Start(t), lag, es) && Fires(Run(Start(t), es), fast, slow)
    ensures Run(Start(t), es).now - Run(Start(t), es).lastRx > slow
  {
    StampsKept(Start(t), lag, es);
  }

  /** No switch of the reporting cadence makes the watchdog fire before the slow
      window is over, if and only if the fast window outlasts the evidence (or
      is no shorter than the slow one). */
  lemma NoFalseOffline(lag: nat, fast: nat, slow: nat)
    ensures NeverFalse(lag, fast, slow) <==> fast >= EVIDENCE_MS + lag || fast >= slow
  {
    if fast >= EVIDENCE_MS + lag || fast >= slow {
      forall t, es | CanRun(Start(t), lag, es) && Fires(Run(Start(t), es), fast, slow)
        ensures Run(Start(t), es).now - Run(Start(t), es).lastRx > slow
      {
        FiringIsSlow(lag, fast, slow, t, es);
      }
    } else {
      FalseAlarm(lag, fast, slow);
    }
  }

  /** One report of normal mode, merged as late as allowed, then silence just over the fast window. */
  lemma FalseAlarm(lag: nat, fast: nat, slow: nat)
    requires fast < EVIDENCE_MS + lag && fast < slow
    ensures !NeverFalse(lag, fast, slow)
  {
    var m: nat := if lag <= fast + 1 then lag else fast + 1;
    var dp := map[POWER := 0, LINK := 0];
    assert POWER != LINK by { assert POWER[0] != LINK[0]; }
    var s1 := Step(Start(0), Tick(m));
    var s2 := Step(s1, Merge(dp));
    var s3 := Step(s2, Tick(fast + 1 - m));
    Unfold(s2, lag, Tick(fast + 1 - m), []);
    Unfold(s1, lag, Merge(dp), [Tick(fast + 1 - m)] + []);
    Unfold(Start(0), lag, Tick(m), [Merge(dp)] + ([Tick(fast + 1 - m)] + []));
    assert Fires(s3, fast, slow) && s3.now - s3.lastRx <= slow;
  }

  lemma Unfold(s: Shadow, lag: nat, e: Event, rest: seq<Event>)
    ensures Run(s, [e] + rest) == Run(Step(s, e), rest)
    ensures CanRun(s, lag, [e] + rest) <==> Enabled(s, lag, e) && CanRun(Step(s, e), lag, rest)
  {
    assert ([e] + rest)[1..] == rest;
  }

  /** With the default windows and merges within 5 s of their message, the fast
      window never decides: an outage is noticed after 150 s, not 20 s. */
  lemma DefaultsAreSlow(lag: nat, t: int, es: seq<Event>)
    requires lag <= 5000 && CanRun(Start(t), lag, es) && Fires(Run(Start(t), es), 20000, 150000)
    ensures Run(Start(t), es).now - Run(Start(t), es).lastRx > 150000
  {
    FiringIsSlow(lag, 20000, 150000, t, es);
  }

  /** A silent device: the check at any time fires if and only if the slow window is over. */
  lemma SilentFires(s: Shadow, lag: nat, fast: nat, slow: nat, ms: nat)
    requires StampsOk(s, lag) && fast >= EVIDENCE_MS + lag && slow >= EVIDENCE_MS + lag
    ensures Fires(Step(s, Tick(ms)), fast, slow) <==> s.now + ms - s.lastRx > slow
  {
  }

  function Elapsed(es: seq<Event>): nat {
    if es == [] then 0 else (if es[0].Tick? then es[0].ms else 0) + Elapsed(es[1..])
  }

  // ---- The window and the silence in terms of what happened ------------------

  lemma {:induction false} RunThen(s: Shadow, es: seq<Event>, e: Event)
    ensures Run(s, es + [e]) == Step(Run(s, es), e)
    ensures Elapsed(es + [e]) == Elapsed(es) + if e.Tick? then e.ms else 0
    decreases |es|
  {
    if es == [] {
      assert [] + [e] == [e] && [e][1..] == [];
    } else {
      assert (es + [e])[1..] == es[1..] + [e];
      RunThen(Step(s, es[0]), es[1..], e);
    }
  }

  /** The time that passed after the i-th event. */
  function Since(es: seq<Event>, i: nat): nat
    requires i < |es|
  {
    Elapsed(es[i + 1..])
  }

  lemma SinceMore(es: seq<Event>, e: Event, i: nat)
    requires i <= |es|
    ensures Since(es + [e], i) == if i == |es| then 0 else Since(es, i) + if e.Tick? then e.ms else 0
  {
    if i == |es| {
      assert (es + [e])[i + 1..] == [];
    } else {
      assert (es + [e])[i + 1..] == es[i + 1..] + [e];
      RunThen(Start(0), es[i + 1..], e);
    }
  }

  /** The i-th event is the last one to merge this point, and no reset came after it. */
  predicate LastMerge(es: seq<Event>, name: string, i: nat) {
    && i < |es| && es[i].Merge? && name in es[i].dp
    && forall j :: i < j < |es| ==> !es[j].Clear? && !(es[j].Merge? && name in es[j].dp)
  }

  lemma LastMergeMore(es: seq<Event>, e: Event, name: string, i: nat)
    requires i <= |es|
    ensures LastMerge(es + [e], name, i) <==>
      if i == |es| then e.Merge? && name in e.dp
      else LastMerge(es, name, i) && !e.Clear? && !(e.Merge? && name in e.dp)
  {
    var more := es + [e];
    assert more[|es|] == e && forall j :: 0 <= j < |es| ==> more[j] == es[j];
  }

  /** What the shadow knows of a point: the value and the age of its last merge. */
  ghost predicate Knows(s: Shadow, es: seq<Event>, name: string) {
    && (name in s.dp <==> exists i: nat :: LastMerge(es, name, i))
    && (name in s.ts <==> name in s.dp)
    && forall i: nat :: LastMerge(es, name, i) ==>
         name in s.dp && s.dp[name] == es[i].dp[name] && name in s.ts && s.ts[name] == s.now - Since(es, i)
  }

  lemma KnowsMore(s: Shadow, es: seq<Event>, e: Event, name: string)
    requires Knows(s, es, name)
    ensures Knows(Step(s, e), es + [e], name)
  {
    var t, more := Step(s, e), es + [e];
    LastMergeMore(es, e, name, |es|);
    if i: nat :| LastMerge(es, name, i) {
      LastMergeMore(es, e, name, i);
    }
    forall i: nat | LastMerge(more, name, i)
      ensures name in t.dp && t.dp[name] == more[i].dp[name] && name in t.ts && t.ts[name] == t.now - Since(more, i)
    {
      LastMergeMore(es, e, name, i);
      SinceMore(es, e, i);
    }
  }

  lemma {:induction false} Known(t: int, es: seq<Event>, name: string)
    ensures Knows(Run(Start(t), es), es, name)
  {
    if es != [] {
      var init, e := es[..|es| - 1], es[|es| - 1];
      Known(t, init, name);
      KnowsMore(Run(Start(t), init), init, e, name);
      RunThen(Start(t), init, e);
      assert es == init + [e];
    }
  }

  /** The point was merged last with value 0, at most 15000 ms ago, and not reset since. */
  ghost predicate Vouched(es: seq<Event>, name: string) {
    exists i: nat :: LastMerge(es, name, i) && es[i].dp[name] == 0 && Since(es, i) <= 15000
  }

  /** In every run the window is the fast one if and only if both points vouch for
      normal mode; else it is the slow one. */
  lemma WindowExact(t: int, es: seq<Event>, fast: nat, slow: nat)
    ensures IdleTimeout(Run(Start(t), es), fast, slow)
         == if Vouched(es, "System_Power_Mode") && Vouched(es, "Net_Link_State") then fast else slow
  {
    FreshIs(t, es, "System_Power_Mode");
    FreshIs(t, es, "Net_Link_State");
  }

  lemma FreshIs(t: int, es: seq<Event>, name: string)
    ensures FreshNormal(Run(Start(t), es), name) <==> Vouched(es, name)
  {
    Known(t, es, name);
  }

  predicate LastReceive(es: seq<Event>, i: nat) {
    i < |es| && es[i].Receive? && forall j :: i < j < |es| ==> !es[j].Receive?
  }

  /** In every run the silence is the time since the last message, or since the session began. */
  lemma {:induction false} SilenceIs(t: int, es: seq<Event>)
    ensures var s := Run(Start(t), es);
            && (forall i: nat :: LastReceive(es, i) ==> s.now - s.lastRx == Since(es, i))
            && ((forall i :: 0 <= i < |es| ==> !es[i].Receive?) ==> s.now - s.lastRx == Elapsed(es))
  {
    if es != [] {
      var init, e := es[..|es| - 1], es[|es| - 1];
      var s := Run(Start(t), init);
      assert es == init + [e];
      SilenceIs(t, init);
      RunThen(Start(t), init, e);
      forall i: nat | LastReceive(es, i) ensures Step(s, e).now - Step(s, e).lastRx == Since(es, i) {
        SinceMore(init, e, i);
        if i < |init| {
          assert LastReceive(init, i) && !es[|init|].Receive?;
        }
      }
    }
  }

  /** What the k-th check of a session finds; between(k) happens before check k + 1. */
  function AtCheck(t: int, between: nat -> seq<Event>, k: nat): Shadow {
    if k == 0 then Start(t) else Run(AtCheck(t, between, k - 1), between(k - 1))
  }

  /** A run that can happen, with a check every intervalMs. */
  ghost predicate Regular(t: int, between: nat -> seq<Event>, lag: nat, intervalMs: nat) {
    forall k :: OneInterval(t, between, lag, intervalMs, k)
  }

  predicate OneInterval(t: int, between: nat -> seq<Event>, lag: nat, intervalMs: nat, k: nat) {
    CanRun(AtCheck(t, between, k), lag, between(k)) && Elapsed(between(k)) == intervalMs
  }

  /** From check quiet on, nothing arrives any more. */
  ghost predicate QuietFrom(between: nat -> seq<Event>, quiet: nat) {
    forall k :: k >= quiet ==> Quiet(between(k))
  }

  predicate Quiet(es: seq<Event>) {
    forall e :: e in es ==> !e.Receive?
  }

  /** What the events of one interval do to the clock and to the last sign of life. */
  lemma {:induction false} RunClock(s: Shadow, lag: nat, es: seq<Event>)
    requires StampsOk(s, lag) && CanRun(s, lag, es)
    ensures Run(s, es).now == s.now + Elapsed(es) && Run(s, es).lastRx >= s.lastRx
    ensures Quiet(es) ==> Run(s, es).lastRx == s.lastRx
    decreases |es|
  {
    if es != [] {
      assert StampsOk(Step(s, es[0]), lag);
      RunClock(Step(s, es[0]), lag, es[1..]);
      assert forall e :: e in es[1..] ==> e in es;
    }
  }

  lemma {:induction false} CheckStamps(t: int, between: nat -> seq<Event>, lag: nat, intervalMs: nat, k: nat)
    requires Regular(t, between, lag, intervalMs)
    ensures StampsOk(AtCheck(t, between, k), lag)
  {
    if k > 0 {
      CheckStamps(t, between, lag, intervalMs, k - 1);
      assert OneInterval(t, between, lag, intervalMs, k - 1);
      StampsKept(AtCheck(t, between, k - 1), lag, between(k - 1));
    }
  }

  lemma NextCheck(t: int, between: nat -> seq<Event>, lag: nat, intervalMs: nat, k: nat)
    requires Regular(t, between, lag, intervalMs)
    ensures var s, n := AtCheck(t, between, k), AtCheck(t, between, k + 1);
            && StampsOk(n, lag) && n.now == s.now + intervalMs && s.lastRx <= n.lastRx
            && (Quiet(between(k)) ==> n.lastRx == s.lastRx)
  {
    CheckStamps(t, between, lag, intervalMs, k);
    CheckStamps(t, between, lag, intervalMs, k + 1);
    assert OneInterval(t, between, lag, intervalMs, k);
    RunClock(AtCheck(t, between, k), lag, between(k));
  }

  /** The watchdog task of a session that starts at t, over any run of messages, merges
      and resets with a check per interval. It ends at the first check that finds
      the device silent for longer than the slow window, and within one interval
      after that window. The run falls quiet at some time, so that it does end. */
  method HeartbeatWatchdog(t: int, between: nat -> seq<Event>, lag: nat, fast: nat, slow: nat, intervalMs: nat, ghost quiet: nat)
    returns (k: nat)
    requires fast >= EVIDENCE_MS + lag && slow >= EVIDENCE_MS + lag && intervalMs > 0
    requires Regular(t, between, lag, intervalMs) && QuietFrom(between, quiet)
    ensures k >= 1
    ensures forall i :: 1 <= i < k ==> AtCheck(t, between, i).now - AtCheck(t, between, i).lastRx <= slow
    ensures var s := AtCheck(t, between, k); s.lastRx + slow < s.now <= s.lastRx + slow + intervalMs
  {
    k := 0;
    var s := Start(t);
    while true
      invariant s == AtCheck(t, between, k) && s.now - s.lastRx <= slow
      invariant forall i :: 0 <= i <= k ==> AtCheck(t, between, i).now - AtCheck(t, between, i).lastRx <= slow
      decreases if k < quiet then quiet - k else 0, slow + s.lastRx - s.now
    {
      NextCheck(t, between, lag, intervalMs, k);
      s := Run(s, between(k));
      k := k + 1;
      SilentFires(s, lag, fast, slow, 0);
      if Fires(s, fast, slow) {
        return;
      }
    }
  }

  lemma OneMore(ts: map<string, int>, done: set<string>, k: string, now: int)
    ensures (ts + Stamps(done, now))[k := now] == ts + Stamps(done + {k}, now)
  {
  }

  method StampAll(ts: map<string, int>, names: set<string>, now: int) returns (r: map<string, int>)
    ensures r == ts + Stamps(names, now)
  {
    r := ts;
    var left := names;
    while left != {}
      invariant left <= names && r == ts + Stamps(names - left, now)
      decreases left
    {
      var k :| k in left;
      OneMore(ts, names - left, k, now);
      assert names - (left - {k}) == (names - left) + {k};
      r := r[k := now];
      left := left - {k};
    }
    assert names - left == names;
  }

  class DeviceShadow {
    var dp: map<string, int>
    var ts: map<string, int>

    /** Merges the datapoints and stamps every one of them. */
    method DpMerge(received: map<string, int>, now: int)
      modifies this
      ensures dp == old(dp) + received && ts == old(ts) + Stamps(received.Keys, now)
    {
      dp := dp + received;
      ts := StampAll(ts, received.Keys, now);
    }

    method Clear()
      modifies this
      ensures dp == map[] && ts == map[]
    {
      dp, ts := map[], map[];
    }
  }
}
