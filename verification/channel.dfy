/** Signed messages over a hostile network: what the receiving end accepts. */
module Channel {
  import opened Json
  import opened Auth
  import Decimal

  /** The strictly increasing counter of one direction of one session. */
  class AntiReplay {
    var last: int

    constructor ()
      ensures last == 0
    {
      last := 0;
    }

    method Check(seqNo: Json) returns (ok: bool)
      modifies this
      ensures ok <==> Fresh(old(last), seqNo)
      ensures last == if ok then SeqNumber(seqNo) else old(last)
    {
      if !IsIntegral(seqNo) || SeqNumber(seqNo) <= last {
        return false;
      }
      last := SeqNumber(seqNo);
      return true;
    }
  }

  predicate Fresh(last: int, seqNo: Json) {
    IsIntegral(seqNo) && SeqNumber(seqNo) > last
  }

  /** The messages accepted of those delivered, in order: verified, then checked
      against the replay counter. An exception ends the receive loop. */
  ghost function Admitted(verdict: Message -> Verdict, last: int, wire: seq<Message>): seq<Message>
    decreases |wire|
  {
    if wire == [] then [] else
      match verdict(wire[0])
      case Error => []
      case Rejected(_) => Admitted(verdict, last, wire[1..])
      case Ok =>
        var n := AuthField(wire[0], "seq");
        if Fresh(last, n) then [wire[0]] + Admitted(verdict, SeqNumber(n), wire[1..])
        else Admitted(verdict, last, wire[1..])
  }

  ghost function Verifier(c: Crypto, x: Context): Message -> Verdict {
    m => Verify(c, x, m)
  }

  /** The k-th message the sender signs in a session carries sequence number k + 1. */
  ghost predicate Signable(c: Crypto, y: Context, sent: seq<Message>) {
    forall k: nat :: k < |sent| ==> Sign(c, y, sent[k], k + 1).Done?
  }

  ghost function Signed(c: Crypto, y: Context, sent: seq<Message>, k: nat): Message
    requires k < |sent| && Signable(c, y, sent)
  {
    Sign(c, y, sent[k], k + 1).value
  }

  ghost predicate CleanSession(c: Crypto, x: Context, y: Context, sent: seq<Message>) {
    forall k: nat :: k < |sent| ==> SignedCleanly(c, x, y, sent[k], k + 1)
  }

  /** One end of one session, with the messages it signed. */
  datatype Sender = Sender(ctx: Context, sent: seq<Message>)

  ghost predicate AllClean(c: Crypto, x: Context, senders: seq<Sender>) {
    forall z :: z in senders ==> Signable(c, z.ctx, z.sent) && CleanSession(c, x, z.ctx, z.sent)
  }

  ghost predicate MadeBy(c: Crypto, z: Sender, w: Message) {
    Signable(c, z.ctx, z.sent) && exists k: nat :: k < |z.sent| && MacText(c, w) == MacText(c, Signed(c, z.ctx, z.sent, k))
  }

  /** A tag that verifies was made by one of the senders, in whatever session and direction. */
  ghost predicate Unforged(c: Crypto, x: Context, senders: seq<Sender>, wire: seq<Message>) {
    forall w :: w in wire && Verify(c, x, w) == Ok ==> exists z :: z in senders && MadeBy(c, z, w)
  }

  /** The two contexts belong to one session: same key, device, direction and nonces. */
  predicate SameSession(x: Context, y: Context) {
    && x.key == y.key && x.kid == y.kid && x.direction == y.direction && x.deviceId == y.deviceId
    && x.serverNonce == y.serverNonce && OrEmpty(x.clientNonce) == OrEmpty(y.clientNonce)
  }

  predicate Increasing(idx: seq<nat>) {
    forall i, j :: 0 <= i < j < |idx| ==> idx[i] < idx[j]
  }

  /** w is the message sent[k] on every field the MAC covers, its seq an integer. */
  ghost predicate Genuine(c: Crypto, x: Context, y: Context, sent: seq<Message>, w: Message, k: nat) {
    && k < |sent|
    && AuthField(w, "seq") == Int(k + 1)
    && Agrees(c, x, w, Decimal.Show(k + 1), y, sent[k], Decimal.Show(k + 1))
  }

  ghost function Genuinely(c: Crypto, x: Context, y: Context, sent: seq<Message>): (Message, nat) -> bool {
    (w: Message, k: nat) => Genuine(c, x, y, sent, w, k)
  }

  /** got is sent[idx[0]], sent[idx[1]], ... */
  ghost predicate Picks(genuine: (Message, nat) -> bool, got: seq<Message>, idx: seq<nat>) {
    && |idx| == |got|
    && Increasing(idx)
    && forall i :: 0 <= i < |idx| ==> genuine(got[i], idx[i])
  }

  /** Whatever the network drops, repeats, reorders, alters or injects, messages of
      other sessions and of the other direction included, the accepted messages are
      a subsequence of those the peer signed in this session, none of them twice.
      Only the peer is in this session; last is where the counter stood. */
  lemma ReplaySafe(c: Crypto, x: Context, senders: seq<Sender>, peer: Sender, wire: seq<Message>, last: nat)
    requires Ideal(c) && peer in senders && AllClean(c, x, senders) && Unforged(c, x, senders, wire)
    requires forall z :: z in senders && SameSession(x, z.ctx) ==> z == peer
    ensures exists idx :: Picks(Genuinely(c, x, peer.ctx, peer.sent), Admitted(Verifier(c, x), last, wire), idx)
                       && forall i :: 0 <= i < |idx| ==> idx[i] >= last
  {
    var genuine := Genuinely(c, x, peer.ctx, peer.sent);
    forall i | 0 <= i < |wire| && Verifier(c, x)(wire[i]) == Ok
      ensures SomeGenuine(genuine, wire[i])
    {
      var w := wire[i];
      var z :| z in senders && MadeBy(c, z, w);
      ThisSession(c, x, z, w);
      SignedAs(c, x, peer.ctx, peer.sent, w);
    }
    var idx := PicksFrom(Verifier(c, x), genuine, last, wire);
  }

  lemma ThisSession(c: Crypto, x: Context, z: Sender, w: Message)
    requires Ideal(c) && MadeBy(c, z, w) && CleanSession(c, x, z.ctx, z.sent) && Verify(c, x, w) == Ok
    ensures SameSession(x, z.ctx)
  {
    var k := MadeAt(c, x, z, w);
    ThisContext(c, x, z.ctx, z.sent[k], k + 1, w);
  }

  lemma MadeAt(c: Crypto, x: Context, z: Sender, w: Message) returns (k: nat)
    requires MadeBy(c, z, w) && CleanSession(c, x, z.ctx, z.sent)
    ensures k < |z.sent| && SignedCleanly(c, x, z.ctx, z.sent[k], k + 1)
    ensures Sign(c, z.ctx, z.sent[k], k + 1).Done? && MacText(c, w) == MacText(c, Sign(c, z.ctx, z.sent[k], k + 1).value)
  {
    k :| k < |z.sent| && MacText(c, w) == MacText(c, Signed(c, z.ctx, z.sent, k));
  }

  lemma ThisContext(c: Crypto, x: Context, y: Context, src: Message, n: int, w: Message)
    requires Ideal(c) && SignedCleanly(c, x, y, src, n) && Verify(c, x, w) == Ok
    requires MacText(c, w) == MacText(c, Sign(c, y, src, n).value)
    ensures SameSession(x, y)
  {
    if !SameSession(x, y) {
      TagBoundToSession(c, x, w, y, src, n);
    }
  }

  ghost predicate SomeGenuine(genuine: (Message, nat) -> bool, w: Message) {
    exists k: nat :: AuthField(w, "seq") == Int(k + 1) && genuine(w, k)
  }

  lemma SignedAs(c: Crypto, x: Context, y: Context, sent: seq<Message>, w: Message)
    requires Ideal(c) && Signable(c, y, sent) && CleanSession(c, x, y, sent) && Verify(c, x, w) == Ok
    requires exists k: nat :: k < |sent| && MacText(c, w) == MacText(c, Signed(c, y, sent, k))
    ensures SomeGenuine(Genuinely(c, x, y, sent), w)
  {
    var k: nat :| k < |sent| && MacText(c, w) == MacText(c, Signed(c, y, sent, k));
    AcceptedSeq(c, x, w, y, sent[k], k + 1);
    VerifyExact(c, x, w, y, sent[k], k + 1);
    assert Genuinely(c, x, y, sent)(w, k);
  }

  /** An exception ends the receive loop: nothing behind it is accepted any more. */
  lemma {:induction false} NothingAfterError(verdict: Message -> Verdict, last: int, before: seq<Message>, w: Message, behind: seq<Message>)
    requires verdict(w) == Error
    ensures Admitted(verdict, last, before + ([w] + behind)) == Admitted(verdict, last, before)
    decreases |before|
  {
    var wire := before + ([w] + behind);
    AdmittedStep(verdict, last, wire);
    if before == [] {
      assert wire[0] == w;
    } else {
      AdmittedStep(verdict, last, before);
      assert wire[0] == before[0] && wire[1..] == before[1..] + ([w] + behind);
      NothingAfterError(verdict, last, before[1..], w, behind);
      var n := AuthField(wire[0], "seq");
      if verdict(wire[0]) == Ok && Fresh(last, n) {
        NothingAfterError(verdict, SeqNumber(n), before[1..], w, behind);
      }
    }
  }

  ghost predicate AllGenuine(verdict: Message -> Verdict, genuine: (Message, nat) -> bool, wire: seq<Message>) {
    forall i :: 0 <= i < |wire| ==> verdict(wire[i]) == Ok ==> SomeGenuine(genuine, wire[i])
  }

  /** What becomes of the first message. */
  lemma AdmittedStep(verdict: Message -> Verdict, last: int, wire: seq<Message>)
    requires wire != []
    ensures var n, rest := AuthField(wire[0], "seq"), wire[1..];
            Admitted(verdict, last, wire) ==
              if verdict(wire[0]) == Error then []
              else if verdict(wire[0]) == Ok && Fresh(last, n) then [wire[0]] + Admitted(verdict, SeqNumber(n), rest)
              else Admitted(verdict, last, rest)
  {
  }

  lemma {:induction false} PicksFrom(verdict: Message -> Verdict, genuine: (Message, nat) -> bool, last: nat, wire: seq<Message>)
    returns (idx: seq<nat>)
    requires AllGenuine(verdict, genuine, wire)
    ensures Picks(genuine, Admitted(verdict, last, wire), idx)
    ensures forall i :: 0 <= i < |idx| ==> idx[i] >= last
    decreases |wire|
  {
    idx := [];
    if wire != [] {
      AdmittedStep(verdict, last, wire);
      if verdict(wire[0]) == Ok && Fresh(last, AuthField(wire[0], "seq")) {
        assert SomeGenuine(genuine, wire[0]);
        var k: nat :| AuthField(wire[0], "seq") == Int(k + 1) && genuine(wire[0], k);
        var rest := PicksFrom(verdict, genuine, k + 1, wire[1..]);
        idx := [k] + rest;
        PicksCons(genuine, wire[0], k, Admitted(verdict, k + 1, wire[1..]), rest);
      } else if verdict(wire[0]) != Error {
        idx := PicksFrom(verdict, genuine, last, wire[1..]);
      }
    }
  }

  lemma PicksCons(genuine: (Message, nat) -> bool, w: Message, k: nat, got: seq<Message>, rest: seq<nat>)
    requires Picks(genuine, got, rest) && genuine(w, k) && forall i :: 0 <= i < |rest| ==> rest[i] > k
    ensures Picks(genuine, [w] + got, [k] + rest)
    ensures forall i :: 0 <= i < |[k] + rest| ==> ([k] + rest)[i] >= k
  {
  }

  // ---- Genuine deliveries ----------------------------------------------------

  predicate Below(idx: seq<nat>, n: nat) {
    forall i :: 0 <= i < |idx| ==> idx[i] < n
  }

  /** The network delivers the signed messages with these numbers, in this order. */
  ghost function Deliveries(c: Crypto, y: Context, sent: seq<Message>, idx: seq<nat>): seq<Message>
    requires Signable(c, y, sent) && Below(idx, |sent|)
  {
    seq(|idx|, i requires 0 <= i < |idx| => Signed(c, y, sent, idx[i]))
  }

  /** With genuine messages only, nothing delivered is refused if and only if they
      arrive in order without repetition and the first one is above the counter's
      last value; losses do no harm. */
  lemma InOrderAccepted(c: Crypto, y: Context, sent: seq<Message>, idx: seq<nat>, last: nat)
    requires Ideal(c) && Signable(c, y, sent) && Below(idx, |sent|)
    ensures var wire := Deliveries(c, y, sent, idx);
            Admitted(Verifier(c, y), last, wire) == wire <==> Increasing(idx) && (idx != [] ==> idx[0] >= last)
  {
    var wire, verdict := Deliveries(c, y, sent, idx), Verifier(c, y);
    forall i | 0 <= i < |idx|
      ensures verdict(wire[i]) == Ok && AuthField(wire[i], "seq") == Int(idx[i] + 1)
    {
      SignVerify(c, y, sent[idx[i]], idx[i] + 1);
    }
    InOrderFrom(verdict, last, wire, idx);
  }

  /** A counter that is not reset: after a session in which message number last was
      accepted, the first last messages of the next session are all refused. */
  lemma StaleCounter(c: Crypto, y: Context, sent: seq<Message>, last: nat)
    requires Ideal(c) && Signable(c, y, sent) && 0 < last <= |sent|
    ensures var first := seq(last, i requires 0 <= i < last => i);
            Below(first, |sent|) && Admitted(Verifier(c, y), last, Deliveries(c, y, sent, first)) == []
  {
    var first := seq(last, i requires 0 <= i < last => i);
    var wire, verdict := Deliveries(c, y, sent, first), Verifier(c, y);
    forall i | 0 <= i < |wire|
      ensures verdict(wire[i]) == Ok && !Fresh(last, AuthField(wire[i], "seq"))
    {
      SignVerify(c, y, sent[i], i + 1);
    }
    AllStale(verdict, last, wire);
  }

  lemma {:induction false} AllStale(verdict: Message -> Verdict, last: int, wire: seq<Message>)
    requires forall i :: 0 <= i < |wire| ==> verdict(wire[i]) == Ok && !Fresh(last, AuthField(wire[i], "seq"))
    ensures Admitted(verdict, last, wire) == []
    decreases |wire|
  {
    if wire != [] {
      assert verdict(wire[0]) == Ok;
      AllStale(verdict, last, wire[1..]);
    }
  }

  lemma {:induction false} InOrderFrom(verdict: Message -> Verdict, last: nat, wire: seq<Message>, idx: seq<nat>)
    requires |wire| == |idx|
    requires forall i :: 0 <= i < |idx| ==> verdict(wire[i]) == Ok && AuthField(wire[i], "seq") == Int(idx[i] + 1)
    ensures |Admitted(verdict, last, wire)| <= |wire|
    ensures Admitted(verdict, last, wire) == wire <==> Increasing(idx) && (idx != [] ==> idx[0] >= last)
    decreases |idx|
  {
    if idx != [] {
      var k, rest := idx[0], idx[1..];
      var next := if k >= last then k + 1 else last;
      assert verdict(wire[0]) == Ok && AuthField(wire[0], "seq") == Int(k + 1);
      InOrderFrom(verdict, next, wire[1..], rest);
      var got := Admitted(verdict, next, wire[1..]);
      assert Admitted(verdict, last, wire) == if k >= last then [wire[0]] + got else got;
      assert wire == [wire[0]] + wire[1..];
      assert k >= last ==> ([wire[0]] + got == wire <==> got == wire[1..]) by {
        assert ([wire[0]] + got)[1..] == got;
      }
      IncreasingCons(k, rest);
      assert idx == [k] + rest;
    }
  }

  lemma IncreasingCons(k: nat, rest: seq<nat>)
    ensures Increasing([k] + rest) <==> Increasing(rest) && (rest != [] ==> rest[0] >= k + 1)
  {
    var idx := [k] + rest;
    assert forall i :: 0 <= i < |rest| ==> rest[i] == idx[i + 1];
    if Increasing(idx) && rest != [] {
      assert idx[0] < idx[1];
    }
    if Increasing(rest) && (rest != [] ==> rest[0] >= k + 1) {
      assert forall i :: 0 <= i < |rest| ==> rest[0] <= rest[i];
    }
  }
}
