/** Which connection of a device is the current one, and when the device is reported offline. */
module Registry {

  datatype Phase = Handshaking | Connected | Ended

  datatype Handler = Handler(device: string, phase: Phase)

  /** Handlers are numbered in the order their connections were accepted. */
  datatype Registry = Registry(
    handlers: seq<Handler>,
    sessions: map<string, nat>,
    online: set<string>,
    replaced: seq<nat>,    // handlers popped by a newer connection
    offline: seq<nat>)     // handlers that ran the disconnect hook

  datatype Event =
    | Accept(device: string)
    | ConnectHook(h: nat)    // the handshake succeeded
    | End(h: nat)            // the finally block

  function Accepted(s: Registry, device: string): Registry {
    Registry(
      s.handlers + [Handler(device, Handshaking)],
      s.sessions[device := |s.handlers|],
      s.online,
      if device in s.sessions then s.replaced + [s.sessions[device]] else s.replaced,
      s.offline)
  }

  predicate Current(s: Registry, h: nat) {
    h < |s.handlers| && s.handlers[h].device in s.sessions && s.sessions[s.handlers[h].device] == h
  }

  function Step(s: Registry, e: Event): Registry {
    match e
    case Accept(device) => Accepted(s, device)
    case ConnectHook(h) =>
      if h < |s.handlers| && s.handlers[h].phase == Handshaking
      then s.(handlers := s.handlers[h := s.handlers[h].(phase := Connected)], online := s.online + {s.handlers[h].device})
      else s
    case End(h) =>
      if h >= |s.handlers| || s.handlers[h].phase == Ended then s
      else
        var t := s.(handlers := s.handlers[h := s.handlers[h].(phase := Ended)]);
        if Current(s, h)
        then t.(sessions := s.sessions - {s.handlers[h].device}, online := s.online - {s.handlers[h].device},
                offline := s.offline + [h])
        else t
  }

  const EMPTY: Registry := Registry([], map[], {}, [], [])

  function Run(es: seq<Event>): Registry {
    if es == [] then EMPTY else Step(Run(es[..|es| - 1]), es[|es| - 1])
  }

  // ---- What every interleaving keeps -----------------------------------------

  predicate IsLatest(s: Registry, device: string, h: nat) {
    && h < |s.handlers| && s.handlers[h].device == device
    && forall k :: h < k < |s.handlers| ==> s.handlers[k].device != device
  }

  /** The registered session is the latest accepted handler, unless that one has ended. */
  ghost predicate SessionsExact(s: Registry) {
    && (forall d :: d in s.sessions ==> IsLatest(s, d, s.sessions[d]) && s.handlers[s.sessions[d]].phase != Ended)
    && (forall h: nat :: h < |s.handlers| && IsLatest(s, s.handlers[h].device, h) && s.handlers[h].phase != Ended ==> Current(s, h))
  }

  predicate NoDuplicates(xs: seq<nat>) {
    forall i, j :: 0 <= i < j < |xs| ==> xs[i] != xs[j]
  }

  /** Each handler is current, replaced or reported offline: one of the three, once. */
  ghost predicate FatesExact(s: Registry) {
    && NoDuplicates(s.replaced) && NoDuplicates(s.offline)
    && (forall h :: h in s.replaced || h in s.offline ==> h < |s.handlers|)
    && (forall h: nat :: h < |s.handlers| ==>
         && (Current(s, h) || h in s.replaced || h in s.offline)
         && !(Current(s, h) && h in s.replaced)
         && !(Current(s, h) && h in s.offline)
         && !(h in s.replaced && h in s.offline))
    && (forall h :: h in s.offline ==> s.handlers[h].phase == Ended)
  }

  /** A device whose current handler has run its connect hook is online. */
  ghost predicate ConnectedOnline(s: Registry) {
    forall h: nat :: Current(s, h) && s.handlers[h].phase == Connected ==> s.handlers[h].device in s.online
  }

  ghost predicate Inv(s: Registry) {
    SessionsExact(s) && FatesExact(s) && ConnectedOnline(s)
  }

  lemma AcceptKeeps(s: Registry, device: string)
    requires Inv(s)
    ensures Inv(Step(s, Accept(device)))
  {
    AcceptSessions(s, device);
    AcceptFates(s, device);
    var t := Step(s, Accept(device));
    assert forall h: nat :: h < |s.handlers| ==> t.handlers[h] == s.handlers[h];
    assert forall h: nat :: h < |s.handlers| && Current(t, h) ==> Current(s, h);
  }

  lemma AcceptSessions(s: Registry, device: string)
    requires SessionsExact(s)
    ensures SessionsExact(Step(s, Accept(device)))
  {
    var t := Step(s, Accept(device));
    assert forall h: nat :: h < |s.handlers| ==> t.handlers[h] == s.handlers[h];
    forall h: nat | h < |t.handlers| && IsLatest(t, t.handlers[h].device, h) && t.handlers[h].phase != Ended
      ensures Current(t, h)
    {
      if h < |s.handlers| {
        assert t.handlers[|s.handlers|].device != t.handlers[h].device;
        assert IsLatest(s, s.handlers[h].device, h);
      }
    }
  }

  lemma AcceptFates(s: Registry, device: string)
    requires SessionsExact(s) && FatesExact(s)
    ensures FatesExact(Step(s, Accept(device)))
  {
    var t := Step(s, Accept(device));
    assert forall h: nat :: h < |s.handlers| ==> t.handlers[h] == s.handlers[h];
    assert forall h :: h in t.replaced <==> h in s.replaced || (device in s.sessions && h == s.sessions[device]);
    assert forall h: nat :: h < |s.handlers| ==> (Current(t, h) <==> Current(s, h) && s.handlers[h].device != device);
    if device in s.sessions {
      assert Current(s, s.sessions[device]);
    }
  }

  lemma ConnectKeeps(s: Registry, h: nat)
    requires Inv(s)
    ensures Inv(Step(s, ConnectHook(h)))
  {
    var t := Step(s, ConnectHook(h));
    assert |t.handlers| == |s.handlers|;
    assert forall k: nat :: k < |s.handlers| ==> t.handlers[k].device == s.handlers[k].device;
    assert forall k: nat :: Current(t, k) <==> Current(s, k);
    assert forall k: nat, d :: IsLatest(t, d, k) <==> IsLatest(s, d, k);
  }

  lemma EndKeeps(s: Registry, h: nat)
    requires Inv(s)
    ensures Inv(Step(s, End(h)))
  {
    var t := Step(s, End(h));
    if t != s {
      assert forall k: nat :: k < |s.handlers| ==> t.handlers[k].device == s.handlers[k].device;
      EndSessions(s, h);
      EndFates(s, h);
      assert forall k: nat :: Current(t, k) ==> Current(s, k) && k != h;
    }
  }

  lemma EndSessions(s: Registry, h: nat)
    requires SessionsExact(s)
    ensures SessionsExact(Step(s, End(h)))
  {
    var t := Step(s, End(h));
    assert |t.handlers| == |s.handlers|;
    assert forall k: nat :: k < |s.handlers| ==> t.handlers[k].device == s.handlers[k].device;
    assert forall k: nat, d :: IsLatest(t, d, k) <==> IsLatest(s, d, k);
    assert t != s ==> forall k: nat :: Current(t, k) <==> Current(s, k) && k != h;
  }

  lemma EndFates(s: Registry, h: nat)
    requires FatesExact(s) && h < |s.handlers| && s.handlers[h].phase != Ended
    ensures FatesExact(Step(s, End(h)))
  {
    var t := Step(s, End(h));
    assert |t.handlers| == |s.handlers|;
    assert forall k: nat :: k < |s.handlers| ==> t.handlers[k].device == s.handlers[k].device;
    assert forall k: nat :: Current(t, k) <==> Current(s, k) && k != h;
    assert forall k :: k in t.offline <==> k in s.offline || (Current(s, h) && k == h);
  }

  /** Every interleaving of any number of connections of any devices. */
  lemma {:induction false} RegistryInvariant(es: seq<Event>)
    ensures Inv(Run(es))
  {
    if es != [] {
      var s := Run(es[..|es| - 1]);
      RegistryInvariant(es[..|es| - 1]);
      match es[|es| - 1]
      case Accept(device) => AcceptKeeps(s, device);
      case ConnectHook(h) => ConnectKeeps(s, h);
      case End(h) => EndKeeps(s, h);
    }
  }

  /** In every state, a device goes online only by the connect hook of one of its handlers,
      and offline only when its registered handler ends and is reported offline. */
  lemma OnlineChanges(s: Registry, e: Event, device: string)
    ensures device !in s.online && device in Step(s, e).online <==>
      && device !in s.online && e.ConnectHook? && e.h < |s.handlers|
      && s.handlers[e.h].device == device && s.handlers[e.h].phase == Handshaking
    ensures device in s.online && device !in Step(s, e).online <==>
      && device in s.online && e.End? && e.h < |s.handlers| && s.handlers[e.h].phase != Ended
      && device in s.sessions && s.sessions[device] == e.h && s.handlers[e.h].device == device
    ensures device in s.online && device !in Step(s, e).online ==> Step(s, e).offline == s.offline + [e.h]
  {
  }

  // ---- When "online" means "registered" --------------------------------------

  predicate Sound(s: Registry) {
    forall d :: d in s.online ==> d in s.sessions
  }

  predicate AlwaysSound(es: seq<Event>) {
    Sound(Run(es)) && (es != [] ==> AlwaysSound(es[..|es| - 1]))
  }

  /** No connect hook runs for a device that has no registered session just then. */
  predicate NoOrphanHook(es: seq<Event>) {
    es != [] ==>
      var s, e := Run(es[..|es| - 1]), es[|es| - 1];
      && NoOrphanHook(es[..|es| - 1])
      && (e.ConnectHook? && e.h < |s.handlers| && s.handlers[e.h].phase == Handshaking ==> s.handlers[e.h].device in s.sessions)
  }

  /** A device shown online has a session throughout a run if and only if no
      replaced handler finishes its handshake after its replacement has ended. */
  lemma {:induction false} OnlineExact(es: seq<Event>)
    ensures AlwaysSound(es) <==> NoOrphanHook(es)
  {
    if es != [] {
      var s, e := Run(es[..|es| - 1]), es[|es| - 1];
      OnlineExact(es[..|es| - 1]);
      if e.ConnectHook? && e.h < |s.handlers| && s.handlers[e.h].phase == Handshaking {
        assert s.handlers[e.h].device in Step(s, e).online;
      }
    }
  }

  /** Such a run: the first connection of a device is still in its handshake when
      the second one replaces it and ends. */
  lemma OrphanHook(device: string)
    ensures var s := Run([Accept(device), Accept(device), End(1), ConnectHook(0)]);
            device in s.online && device !in s.sessions
  {
    var es := [Accept(device), Accept(device), End(1), ConnectHook(0)];
    assert es[..3] == [Accept(device), Accept(device), End(1)];
    assert es[..3][..2] == [Accept(device), Accept(device)];
    assert es[..3][..2][..1] == [Accept(device)];
    assert es[..3][..2][..1][..0] == [];
    var s1 := Step(EMPTY, Accept(device));
    assert Run([Accept(device)]) == s1;
    var s2 := Step(s1, Accept(device));
    assert Run(es[..3][..2]) == s2;
    var s3 := Step(s2, End(1));
    assert Run(es[..3]) == s3;
  }

  // ---- The server object -----------------------------------------------------

  class FountainServer {
    var handlers: seq<Handler>
    var sessions: map<string, nat>
    var online: set<string>
    ghost var replaced: seq<nat>
    ghost var offline: seq<nat>

    ghost function View(): Registry
      reads this
    {
      Registry(handlers, sessions, online, replaced, offline)
    }

    constructor ()
      ensures View() == EMPTY
    {
      handlers, sessions, online, replaced, offline := [], map[], {}, [], [];
    }

    /** The start of a connection handler: the newest connection wins. */
    method Begin(device: string) returns (h: nat)
      modifies this
      ensures View() == Step(old(View()), Accept(device)) && h == |old(handlers)|
    {
      if device in sessions {
        replaced := replaced + [sessions[device]];
        sessions := sessions - {device};
      }
      h := |handlers|;
      handlers := handlers + [Handler(device, Handshaking)];
      sessions := sessions[device := h];
    }

    method OnConnect(h: nat)
      requires h < |handlers| && handlers[h].phase == Handshaking
      modifies this
      ensures View() == Step(old(View()), ConnectHook(h))
    {
      handlers := handlers[h := handlers[h].(phase := Connected)];
      online := online + {handlers[h].device};
    }

    /** The finally block: only the current session reports offline. */
    method Finish(h: nat) returns (reported: bool)
      requires h < |handlers| && handlers[h].phase != Ended
      modifies this
      ensures View() == Step(old(View()), End(h)) && (reported <==> Current(old(View()), h))
    {
      var device := handlers[h].device;
      reported := device in sessions && sessions[device] == h;
      handlers := handlers[h := handlers[h].(phase := Ended)];
      if reported {
        sessions := sessions - {device};
        offline := offline + [h];
        online := online - {device};
      }
    }
  }
}
