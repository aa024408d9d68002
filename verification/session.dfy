/** One connection to a device: signing counter, request/response correlation, dispatch. */
module Session {
  import opened Json
  import opened Wrappers
  import opened Auth
  import opened Channel
  import opened Handshake
  import Decimal

  datatype Future = Waiting | Completed(msg: Message) | Cancelled

  /** What becomes of a received message. */
  datatype Route =
    | ToFuture(id: string)     // completes the request
    | Swallowed(id: string)    // the request is in flight but already settled
    | ToCallback(name: string)
    | Unhandled
    | Failed                   // an unhashable key raises

  function RouteOf(pending: map<string, Future>, callbacks: set<string>, msg: Message): Route {
    var irt := Get(msg, "in_reply_to");
    var name := TypeOf(msg);
    if !Falsy(irt) && !Hashable(irt) then Failed
    else if !Falsy(irt) && irt.Str? && irt.s in pending then
      if pending[irt.s].Waiting? then ToFuture(irt.s) else Swallowed(irt.s)
    else if !Hashable(name) then Failed
    else if name.Str? && name.s in callbacks then ToCallback(name.s)
    else Unhandled
  }

  function MsgId(n: nat): string {
    "s-" + Decimal.Show(n)
  }

  lemma MsgIdInjective(m: nat, n: nat)
    requires MsgId(m) == MsgId(n)
    ensures m == n
  {
    assert Decimal.Show(m) == MsgId(m)[2..] == MsgId(n)[2..] == Decimal.Show(n);
    Decimal.ShowInjective(m, n);
  }

  // ---- Correlation as a state machine ----------------------------------------

  datatype Fact =
    | Issued(id: string)
    | Routed(msg: Message, route: Route)
    | Expired(id: string)
    | Left(id: string, end: Future)   // the request returns or raises; its entry is gone

  datatype Corr = Corr(msgSeq: nat, pending: map<string, Future>, log: seq<Fact>)

  datatype Event =
    | Issue
    | Refuse                // the message cannot be signed: its id is spent, nothing is pending
    | Deliver(msg: Message)
    | Expire(id: string)    // the timeout cancels the future
    | Leave(id: string)     // the finally block, after completion, timeout or a failed send

  function Step(s: Corr, callbacks: set<string>, e: Event): Corr {
    match e
    case Issue =>
      var id := MsgId(s.msgSeq + 1);
      Corr(s.msgSeq + 1, s.pending[id := Waiting], s.log + [Issued(id)])
    case Refuse => Corr(s.msgSeq + 1, s.pending, s.log)
    case Deliver(msg) =>
      var r := RouteOf(s.pending, callbacks, msg);
      Corr(s.msgSeq, if r.ToFuture? then s.pending[r.id := Completed(msg)] else s.pending, s.log + [Routed(msg, r)])
    case Expire(id) =>
      if id in s.pending && s.pending[id].Waiting?
      then Corr(s.msgSeq, s.pending[id := Cancelled], s.log + [Expired(id)]) else s
    case Leave(id) =>
      if id in s.pending then Corr(s.msgSeq, s.pending - {id}, s.log + [Left(id, s.pending[id])]) else s
  }

  const INITIAL: Corr := Corr(0, map[], [])

  function Run(callbacks: set<string>, es: seq<Event>): Corr {
    if es == [] then INITIAL else Step(Run(callbacks, es[..|es| - 1]), callbacks, es[|es| - 1])
  }

  /** The request was issued and has not returned. */
  ghost predicate InFlight(log: seq<Fact>, id: string) {
    Issued(id) in log && forall f :: f in log && f.Left? ==> f.id != id
  }

  ghost predicate Answered(log: seq<Fact>, id: string, msg: Message) {
    Routed(msg, ToFuture(id)) in log
  }

  ghost predicate Settled(log: seq<Fact>, id: string) {
    Expired(id) in log || exists msg :: Answered(log, id, msg)
  }

  ghost predicate Names(msg: Message, id: string) {
    Get(msg, "in_reply_to") == Str(id)
  }

  /** The message names a request in flight. */
  ghost predicate NamesOne(past: seq<Fact>, msg: Message) {
    exists id :: Names(msg, id) && InFlight(past, id)
  }

  /** Its in_reply_to is looked up and cannot be. */
  predicate BadReply(msg: Message) {
    var irt := Get(msg, "in_reply_to");
    (irt.Arr? && irt.items != []) || (irt.Obj? && irt.members != map[])
  }

  /** The one way a message goes, given the facts before it. */
  ghost predicate Goes(callbacks: set<string>, past: seq<Fact>, msg: Message, r: Route) {
    var name := if "type" in msg then msg["type"] else Str("");
    && (forall id :: r == ToFuture(id) <==> Names(msg, id) && InFlight(past, id) && !Settled(past, id))
    && (forall id :: r == Swallowed(id) <==> Names(msg, id) && InFlight(past, id) && Settled(past, id))
    && (forall c :: r == ToCallback(c) <==> !BadReply(msg) && !NamesOne(past, msg) && name == Str(c) && c in callbacks)
    && (r == Unhandled <==>
          && !BadReply(msg) && !NamesOne(past, msg) && !name.Arr? && !name.Obj?
          && !(name.Str? && name.s in callbacks))
    && (r == Failed <==> BadReply(msg) || (!NamesOne(past, msg) && (name.Arr? || name.Obj?)))
  }

  /** What a fact may be, given the facts before it. */
  ghost predicate Justified(callbacks: set<string>, past: seq<Fact>, f: Fact) {
    match f
    case Issued(id) => Issued(id) !in past
    case Routed(msg, r) => Goes(callbacks, past, msg, r)
    case Expired(id) => InFlight(past, id) && !Settled(past, id)
    case Left(id, end) =>
      && InFlight(past, id)
      && (forall msg :: end == Completed(msg) <==> Answered(past, id, msg))
      && (end == Cancelled <==> Expired(id) in past)
  }

  ghost predicate AllJustified(callbacks: set<string>, log: seq<Fact>) {
    forall j :: 0 <= j < |log| ==> Justified(callbacks, log[..j], log[j])
  }

  /** pending is exactly the requests in flight, each with the state its history gives it. */
  ghost predicate PendingExact(s: Corr) {
    && (forall id :: id in s.pending <==> InFlight(s.log, id))
    && (forall id, msg :: id in s.pending ==> (s.pending[id] == Completed(msg) <==> Answered(s.log, id, msg)))
    && (forall id :: id in s.pending ==> (s.pending[id] == Cancelled <==> Expired(id) in s.log))
  }

  ghost predicate IdsCounted(s: Corr) {
    forall f :: f in s.log && f.Issued? ==> exists n: nat :: n <= s.msgSeq && f.id == MsgId(n)
  }

  ghost predicate Correlated(callbacks: set<string>, s: Corr) {
    PendingExact(s) && IdsCounted(s) && AllJustified(callbacks, s.log)
  }

  lemma Append(callbacks: set<string>, log: seq<Fact>, f: Fact)
    requires AllJustified(callbacks, log) && Justified(callbacks, log, f)
    ensures AllJustified(callbacks, log + [f])
  {
    var more := log + [f];
    assert more[..|log|] == log;
    forall j | 0 <= j < |log| ensures Justified(callbacks, more[..j], more[j]) {
      assert more[..j] == log[..j];
    }
  }

  lemma InMore(log: seq<Fact>, f: Fact)
    ensures forall g :: g in log + [f] <==> g in log || g == f
    ensures forall id :: InFlight(log + [f], id) <==>
      (InFlight(log, id) || (f == Issued(id) && forall g :: g in log && g.Left? ==> g.id != id)) && (f.Left? ==> f.id != id)
    ensures forall id, m :: Answered(log + [f], id, m) <==> Answered(log, id, m) || f == Routed(m, ToFuture(id))
  {
    assert forall g :: g in log + [f] <==> g in log || g == f;
  }

  lemma IdsCountedMore(s: Corr, t: Corr, f: Fact)
    requires IdsCounted(s) && t.log == s.log + [f] && s.msgSeq <= t.msgSeq
    requires f.Issued? ==> f.id == MsgId(t.msgSeq)
    ensures IdsCounted(t)
  {
    forall g | g in t.log && g.Issued? ensures exists n: nat :: n <= t.msgSeq && g.id == MsgId(n) {
      if g in s.log {
        var n: nat :| n <= s.msgSeq && g.id == MsgId(n);
      }
    }
  }

  lemma IssueFresh(s: Corr)
    requires IdsCounted(s)
    ensures Issued(MsgId(s.msgSeq + 1)) !in s.log
  {
    if Issued(MsgId(s.msgSeq + 1)) in s.log {
      var n: nat :| n <= s.msgSeq && MsgId(s.msgSeq + 1) == MsgId(n);
      MsgIdInjective(n, s.msgSeq + 1);
    }
  }

  lemma IssueKeeps(callbacks: set<string>, s: Corr)
    requires Correlated(callbacks, s)
    ensures Correlated(callbacks, Step(s, callbacks, Issue))
  {
    var id, t := MsgId(s.msgSeq + 1), Step(s, callbacks, Issue);
    IssueFresh(s);
    Append(callbacks, s.log, Issued(id));
    IdsCountedMore(s, t, Issued(id));
    NeverIssued(callbacks, s.log, id);
    InMore(s.log, Issued(id));
    assert PendingExact(t);
  }

  lemma RefuseKeeps(callbacks: set<string>, s: Corr)
    requires Correlated(callbacks, s)
    ensures Correlated(callbacks, Step(s, callbacks, Refuse))
  {
    var t := Step(s, callbacks, Refuse);
    forall f | f in t.log && f.Issued? ensures exists n: nat :: n <= t.msgSeq && f.id == MsgId(n) {
      var n: nat :| n <= s.msgSeq && f.id == MsgId(n);
      assert n <= t.msgSeq;
    }
  }

  /** Nothing happens to a request before it is issued. */
  lemma NeverIssued(callbacks: set<string>, log: seq<Fact>, id: string)
    requires AllJustified(callbacks, log) && Issued(id) !in log
    ensures forall f :: f in log && f.Left? ==> f.id != id
    ensures forall msg :: !Answered(log, id, msg)
    ensures Expired(id) !in log
  {
    forall f | f in log && (f.Left? || f.Expired? || (f.Routed? && f.route.ToFuture?))
      ensures (if f.Routed? then f.route.id else f.id) != id
    {
      var j :| 0 <= j < |log| && log[j] == f;
      assert Justified(callbacks, log[..j], log[j]);
      assert forall g :: g in log[..j] ==> g in log;
      if f.Routed? {
        assert Goes(callbacks, log[..j], f.msg, ToFuture(f.route.id));
      }
    }
  }

  lemma RouteJustified(callbacks: set<string>, s: Corr, msg: Message)
    requires PendingExact(s) && !InFlight(s.log, "")
    ensures Goes(callbacks, s.log, msg, RouteOf(s.pending, callbacks, msg))
  {
    var irt := Get(msg, "in_reply_to");
    if irt.Str? && irt.s in s.pending {
      assert Names(msg, irt.s) && NamesOne(s.log, msg);
      SettledIs(s, irt.s);
    } else {
      assert forall id :: Names(msg, id) ==> id !in s.pending;
      assert !NamesOne(s.log, msg);
    }
  }

  lemma SettledIs(s: Corr, id: string)
    requires PendingExact(s) && id in s.pending
    ensures Settled(s.log, id) <==> !s.pending[id].Waiting?
  {
    match s.pending[id]
    case Waiting => assert forall m :: !Answered(s.log, id, m);
    case Completed(m) => assert Answered(s.log, id, m);
    case Cancelled =>
  }

  lemma DeliverKeeps(callbacks: set<string>, s: Corr, msg: Message)
    requires Correlated(callbacks, s)
    ensures Correlated(callbacks, Step(s, callbacks, Deliver(msg)))
  {
    var t, r := Step(s, callbacks, Deliver(msg)), RouteOf(s.pending, callbacks, msg);
    EmptyNotInFlight(s);
    RouteJustified(callbacks, s, msg);
    Append(callbacks, s.log, Routed(msg, r));
    IdsCountedMore(s, t, Routed(msg, r));
    DeliverExact(s, msg, r);
  }

  lemma DeliverExact(s: Corr, msg: Message, r: Route)
    requires PendingExact(s) && (r.ToFuture? ==> r.id in s.pending && s.pending[r.id].Waiting?)
    ensures PendingExact(Corr(s.msgSeq, if r.ToFuture? then s.pending[r.id := Completed(msg)] else s.pending, s.log + [Routed(msg, r)]))
  {
    InMore(s.log, Routed(msg, r));
  }

  lemma EmptyNotInFlight(s: Corr)
    requires IdsCounted(s)
    ensures !InFlight(s.log, "")
  {
    assert forall n: nat :: |MsgId(n)| >= 2;
  }

  lemma ExpireKeeps(callbacks: set<string>, s: Corr, id: string)
    requires Correlated(callbacks, s)
    ensures Correlated(callbacks, Step(s, callbacks, Expire(id)))
  {
    var t := Step(s, callbacks, Expire(id));
    if t != s {
      assert Justified(callbacks, s.log, Expired(id)) by {
        assert forall m :: !Answered(s.log, id, m);
      }
      Append(callbacks, s.log, Expired(id));
      IdsCountedMore(s, t, Expired(id));
      ExpireExact(s, id);
    }
  }

  lemma ExpireExact(s: Corr, id: string)
    requires PendingExact(s) && id in s.pending && s.pending[id].Waiting?
    ensures PendingExact(Corr(s.msgSeq, s.pending[id := Cancelled], s.log + [Expired(id)]))
  {
    InMore(s.log, Expired(id));
  }

  lemma LeaveExact(s: Corr, id: string)
    requires PendingExact(s) && id in s.pending
    ensures PendingExact(Corr(s.msgSeq, s.pending - {id}, s.log + [Left(id, s.pending[id])]))
  {
    InMore(s.log, Left(id, s.pending[id]));
  }

  lemma LeaveKeeps(callbacks: set<string>, s: Corr, id: string)
    requires Correlated(callbacks, s)
    ensures Correlated(callbacks, Step(s, callbacks, Leave(id)))
  {
    var t := Step(s, callbacks, Leave(id));
    if t != s {
      var f := Left(id, s.pending[id]);
      assert Justified(callbacks, s.log, f);
      Append(callbacks, s.log, f);
      IdsCountedMore(s, t, f);
      LeaveExact(s, id);
    }
  }

  /** Every run: ids are fresh, only a message naming an unsettled request in
      flight completes it, and pending is exactly what is in flight. */
  lemma {:induction false} RunsCorrelated(callbacks: set<string>, es: seq<Event>)
    ensures Correlated(callbacks, Run(callbacks, es))
  {
    if es != [] {
      var s := Run(callbacks, es[..|es| - 1]);
      RunsCorrelated(callbacks, es[..|es| - 1]);
      match es[|es| - 1]
      case Issue => IssueKeeps(callbacks, s);
      case Refuse => RefuseKeeps(callbacks, s);
      case Deliver(msg) => DeliverKeeps(callbacks, s, msg);
      case Expire(id) => ExpireKeeps(callbacks, s, id);
      case Leave(id) => LeaveKeeps(callbacks, s, id);
    }
  }

  /** In every run, an id is issued once, settled at most once (completed or
      timed out, never both), never settled after it returned, and returns once. */
  lemma RequestsMatched(callbacks: set<string>, es: seq<Event>, i: nat, j: nat)
    requires i < j < |Run(callbacks, es).log|
    ensures var f, g := Run(callbacks, es).log[i], Run(callbacks, es).log[j];
            && (f.Issued? && g.Issued? ==> f.id != g.id)
            && (Settles(f) && Settles(g) ==> SettledId(f) != SettledId(g))
            && (f.Left? && Settles(g) ==> f.id != SettledId(g))
            && (f.Left? && g.Left? ==> f.id != g.id)
  {
    var log := Run(callbacks, es).log;
    RunsCorrelated(callbacks, es);
    var past := log[..j];
    assert past[i] == log[i] && log[i] in past;
    OncePerId(callbacks, past, log[i], log[j]);
  }

  lemma OncePerId(callbacks: set<string>, past: seq<Fact>, f: Fact, g: Fact)
    requires f in past && Justified(callbacks, past, g)
    ensures (f.Issued? && g.Issued? ==> f.id != g.id)
    ensures (Settles(f) && Settles(g) ==> SettledId(f) != SettledId(g))
    ensures (f.Left? && Settles(g) ==> f.id != SettledId(g))
    ensures (f.Left? && g.Left? ==> f.id != g.id)
  {
    if Settles(f) && f.Routed? {
      assert Answered(past, f.route.id, f.msg);
    }
  }

  /** In every run a received message takes the one way it must: to the unsettled
      request in flight that it names; swallowed if that request is settled; else to the
      callback registered for its type; unhandled if there is none; and it fails
      exactly on an in_reply_to or a type that is looked up and cannot be. */
  lemma RoutingExact(callbacks: set<string>, es: seq<Event>, j: nat)
    requires j < |Run(callbacks, es).log| && Run(callbacks, es).log[j].Routed?
    ensures var log := Run(callbacks, es).log;
            var past, msg, r := log[..j], log[j].msg, log[j].route;
            var name := if "type" in msg then msg["type"] else Str("");
            && (forall id :: r == ToFuture(id) <==> Names(msg, id) && InFlight(past, id) && !Settled(past, id))
            && (forall id :: r == Swallowed(id) <==> Names(msg, id) && InFlight(past, id) && Settled(past, id))
            && (forall c :: r == ToCallback(c) <==>
                  !BadReply(msg) && !NamesOne(past, msg) && name == Str(c) && c in callbacks)
            && (r == Unhandled <==>
                  && !BadReply(msg) && !NamesOne(past, msg) && !name.Arr? && !name.Obj?
                  && !(name.Str? && name.s in callbacks))
            && (r == Failed <==> BadReply(msg) || (!NamesOne(past, msg) && (name.Arr? || name.Obj?)))
  {
    RunsCorrelated(callbacks, es);
    assert Justified(callbacks, Run(callbacks, es).log[..j], Run(callbacks, es).log[j]);
  }

  /** In every run each event leaves the fact it should: a request is issued under a new
      id, a message routed once, an unsettled request in flight expires, one in
      flight returns; a request that could not be signed leaves none. */
  lemma EventFacts(callbacks: set<string>, es: seq<Event>, e: Event)
    ensures var s := Run(callbacks, es);
            var t := Step(s, callbacks, e);
            match e
            case Issue => t.log == s.log + [Issued("s-" + Decimal.Show(s.msgSeq + 1))] && t.msgSeq == s.msgSeq + 1
            case Refuse => t.log == s.log && t.msgSeq == s.msgSeq + 1
            case Deliver(msg) => exists r :: t.log == s.log + [Routed(msg, r)]
            case Expire(id) =>
              t.log == if InFlight(s.log, id) && !Settled(s.log, id) then s.log + [Expired(id)] else s.log
            case Leave(id) =>
              if InFlight(s.log, id) then exists end :: t.log == s.log + [Left(id, end)] else t.log == s.log
  {
    var s := Run(callbacks, es);
    RunsCorrelated(callbacks, es);
    match e
    case Deliver(msg) =>
      assert Step(s, callbacks, e).log == s.log + [Routed(msg, RouteOf(s.pending, callbacks, msg))];
    case Expire(id) => if id in s.pending { SettledIs(s, id); }
    case Leave(id) => if id in s.pending { assert Step(s, callbacks, e).log == s.log + [Left(id, s.pending[id])]; }
    case _ =>
  }

  /** A request returns a message only if that message names its id and arrived before, in flight. */
  lemma ReturnsItsAnswer(callbacks: set<string>, es: seq<Event>, j: nat, id: string, msg: Message)
    requires j < |Run(callbacks, es).log| && Run(callbacks, es).log[j] == Left(id, Completed(msg))
    ensures Names(msg, id)
    ensures exists k :: 0 <= k < j && Run(callbacks, es).log[k] == Routed(msg, ToFuture(id))
                     && InFlight(Run(callbacks, es).log[..k], id)
  {
    var log := Run(callbacks, es).log;
    RunsCorrelated(callbacks, es);
    var past := log[..j];
    assert Justified(callbacks, past, log[j]);
    assert Answered(past, id, msg);
    var k :| 0 <= k < |past| && past[k] == Routed(msg, ToFuture(id));
    assert log[k] == past[k];
    assert Justified(callbacks, log[..k], log[k]);
  }

  predicate Settles(f: Fact) {
    f.Expired? || (f.Routed? && f.route.ToFuture?)
  }

  function SettledId(f: Fact): string
    requires Settles(f)
  {
    if f.Expired? then f.id else f.route.id
  }

  // ---- The session object ----------------------------------------------------

  /** The messages of the "auth": "control" column: these are signed. */
  const CONTROL: set<string> :=
    {"ota_available", "ota_cancel", "dp_write", "command", "log_read", "log_read_prev", "log_ack_prev", "history_read"}

  class DeviceSession {
    const callbacks: set<string>
    const peer: Peer
    ghost const crypto: Crypto
    const replay: AntiReplay
    var clientNonce: Json
    var kid: Option<string>
    var authKey: Option<seq<int>>
    var negotiated: bool
    var s2cSeq: nat
    var msgSeq: nat
    var pending: map<string, Future>
    var lastRxMs: int
    ghost var log: seq<Fact>

    ghost function View(): Corr
      reads this
    {
      Corr(msgSeq, pending, log)
    }

    /** What this end puts into the tags of one direction. */
    function Ends(direction: string): Context
      reads this`kid, this`authKey, this`clientNonce
      requires kid.Some? && authKey.Some?
    {
      Context(authKey.value, kid.value, direction, peer.deviceId, peer.serverNonce, clientNonce)
    }

    constructor (callbacks: set<string>, peer: Peer, ghost crypto: Crypto, nowMs: int)
      ensures View() == INITIAL && s2cSeq == 0 && lastRxMs == nowMs
      ensures this.callbacks == callbacks && this.peer == peer && this.crypto == crypto
      ensures !negotiated && kid.None? && authKey.None? && fresh(replay) && replay.last == 0
    {
      this.callbacks := callbacks;
      this.peer := peer;
      this.crypto := crypto;
      replay := new AntiReplay();
      clientNonce, kid, authKey, negotiated := Null, None, None, false;
      s2cSeq, msgSeq, pending, lastRxMs := 0, 0, map[], nowMs;
      log := [];
    }

    /** Whether a message of this name can go out. */
    predicate Sendable(name: string, msg: Message)
      reads this`kid, this`authKey, this`clientNonce
    {
      name in CONTROL ==> kid.Some? && authKey.Some? && HasFields(Ends("s2c"), msg)
    }

    /** Signed messages are numbered 1, 2, 3, ...; the others leave the counter
        alone. A message that cannot be signed raises, its number being spent. */
    method SignIfNeeded(name: string, msg: Message) returns (ok: bool, ghost out: Message)
      modifies this`s2cSeq
      ensures ok <==> Sendable(name, msg)
      ensures s2cSeq == old(s2cSeq) + if name in CONTROL then 1 else 0
      ensures ok && name in CONTROL ==> Sign(crypto, Ends("s2c"), msg, s2cSeq) == Done(out)
      ensures !ok && kid.Some? && authKey.Some? ==> Sign(crypto, Ends("s2c"), msg, s2cSeq) == Raises
      ensures name !in CONTROL ==> out == msg
    {
      out := msg;
      ok := true;
      if name in CONTROL {
        s2cSeq := s2cSeq + 1;
        ok := kid.Some? && authKey.Some? && HasFields(Ends("s2c"), msg);
        if ok {
          out := Sign(crypto, Ends("s2c"), msg, s2cSeq).value;
        }
      }
    }

    /** hello and proof are the first two messages, if they come in time; verify is the MAC check. */
    method Greeted(hello: Option<Message>, proof: Option<Message>, verify: (Context, Message) -> Verdict)
      returns (greeting: Greeting)
      requires !negotiated && replay.last == 0
      requires forall x, msg :: verify(x, msg) == Verify(crypto, x, msg)
      modifies this`clientNonce, this`kid, this`authKey, this`negotiated, replay
      ensures greeting == Greet(crypto, peer, hello, proof)
      ensures negotiated <==> greeting == Negotiated
      ensures negotiated ==>
        && Choose(peer.keys, hello.value) == Done(kid) && kid.Some? && kid.value in peer.keys
        && authKey == Some(peer.keys[kid.value]) && clientNonce == Get(hello.value, "client_nonce")
        && Verify(crypto, Ends("c2s"), proof.value) == Ok
        && replay.last == SeqNumber(AuthField(proof.value, "seq")) > 0
    {
      if hello.None? { return Silent; }
      if Get(hello.value, "type") != Str("hello") { return NotHello; }
      clientNonce := Get(hello.value, "client_nonce");
      var chosen := Choose(peer.keys, hello.value);
      if chosen.Raises? { return Crashed; }
      if chosen.value.None? { return Refused; }
      ChosenIsKnown(peer.keys, hello.value);
      kid := chosen.value;
      authKey := Some(peer.keys[kid.value]);
      if proof.None? { return NoProof; }
      match verify(Ends("c2s"), proof.value)
      case Error => return Crashed;
      case Rejected(reason) => return ProofRejected(reason);
      case Ok =>
        var isNew := replay.Check(AuthField(proof.value, "seq"));
        if !isNew { return ProofRejected("replay"); }
        negotiated := true;
        return Negotiated;
    }

    /** The part of request up to the first await; build makes the message for an id. */
    method BeginRequest(name: string, build: string -> Message) returns (id: string, ok: bool, ghost out: Message)
      modifies this`msgSeq, this`s2cSeq, this`pending, this`log
      ensures id == MsgId(old(msgSeq) + 1) && (ok <==> Sendable(name, build(id)))
      ensures View() == Step(old(View()), callbacks, if ok then Issue else Refuse)
      ensures s2cSeq == old(s2cSeq) + if name in CONTROL then 1 else 0
      ensures ok && name in CONTROL ==> Sign(crypto, Ends("s2c"), build(id), s2cSeq) == Done(out)
      ensures name !in CONTROL ==> out == build(id)
    {
      msgSeq := msgSeq + 1;
      id := MsgId(msgSeq);
      ok, out := SignIfNeeded(name, build(id));
      if ok {
        pending := pending[id := Waiting];
        log := log + [Issued(id)];
      }
    }

    method Dispatch(msg: Message, nowMs: int) returns (route: Route)
      modifies this`pending, this`lastRxMs, this`log
      ensures View() == Step(old(View()), callbacks, Deliver(msg)) && lastRxMs == nowMs
      ensures route == RouteOf(old(pending), callbacks, msg)
    {
      lastRxMs := nowMs;
      var irt := Get(msg, "in_reply_to");
      var name := TypeOf(msg);
      if !Falsy(irt) && !Hashable(irt) {
        route := Failed;
      } else if !Falsy(irt) && irt.Str? && irt.s in pending {
        if pending[irt.s].Waiting? {
          pending := pending[irt.s := Completed(msg)];
          route := ToFuture(irt.s);
        } else {
          route := Swallowed(irt.s);
        }
      } else if !Hashable(name) {
        route := Failed;
      } else if name.Str? && name.s in callbacks {
        route := ToCallback(name.s);
      } else {
        route := Unhandled;
      }
      log := log + [Routed(msg, route)];
    }

    method Timeout(id: string)
      modifies this`pending, this`log
      ensures View() == Step(old(View()), callbacks, Expire(id))
    {
      if id in pending && pending[id].Waiting? {
        pending := pending[id := Cancelled];
        log := log + [Expired(id)];
      }
    }

    /** The finally block of request, with what the request then returns or raises. */
    method EndRequest(id: string) returns (end: Future)
      requires id in pending
      modifies this`pending, this`log
      ensures View() == Step(old(View()), callbacks, Leave(id)) && end == old(pending)[id]
    {
      end := pending[id];
      pending := pending - {id};
      log := log + [Left(id, end)];
    }
  }
}
