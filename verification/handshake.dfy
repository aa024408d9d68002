/** The opening of a session: key selection and the session proof. */
module Handshake {
  import opened Wrappers
  import opened Json
  import opened Auth
  import opened Channel
  import MacRecord
  import Decimal

  const SCHEME: string := "hmac-sha256"

  /** What the server knows before the device speaks. */
  datatype Peer = Peer(keys: map<string, seq<int>>, deviceId: string, serverNonce: string)

  datatype Greeting =
    | Silent                          // no hello in time
    | NotHello
    | Refused                         // auth_required
    | NoProof                         // no second message in time
    | ProofRejected(reason: string)
    | Negotiated
    | Crashed                         // an exception ends the handler

  /** The elements a for loop over (j or []) visits. */
  function Items(j: Json): Outcome<seq<Json>> {
    if Falsy(j) then Done([])
    else if j.Arr? then Done(j.items)
    else if j.Str? then Done(seq(|j.s|, i requires 0 <= i < |j.s| => Str([j.s[i]])))
    else Raises
  }

  predicate Within(t: string, s: string) {
    t <= s || (s != [] && Within(t, s[1..]))
  }

  /** SCHEME in (j or []) */
  function OffersScheme(j: Json): Outcome<bool> {
    if Falsy(j) then Done(false)
    else match j
      case Arr(elems) => Done(Str(SCHEME) in elems)
      case Obj(members) => Done(SCHEME in members)
      case Str(s) => Done(Within(SCHEME, s))
      case _ => Raises
  }

  /** The first key id offered by the device that the server knows. */
  function PickKid(keys: map<string, seq<int>>, offered: seq<Json>): Outcome<Option<string>> {
    if offered == [] then Done(None)
    else if !Hashable(offered[0]) then Raises
    else if offered[0].Str? && offered[0].s in keys then Done(Some(offered[0].s))
    else PickKid(keys, offered[1..])
  }

  function Choose(keys: map<string, seq<int>>, hello: Message): Outcome<Option<string>> {
    var offered, scheme := Items(Get(hello, "auth_kids")), OffersScheme(Get(hello, "auth_schemes"));
    if offered.Raises? || scheme.Raises? then Raises
    else
      var kid := PickKid(keys, offered.value);
      if kid.Raises? || scheme.value then kid else Done(None)
  }

  function ProofContext(p: Peer, kid: string, nonce: Json): Context
    requires kid in p.keys
  {
    Context(p.keys[kid], kid, "c2s", p.deviceId, p.serverNonce, nonce)
  }

  lemma {:induction false} PickIsKnown(keys: map<string, seq<int>>, offered: seq<Json>)
    ensures PickKid(keys, offered).Done? && PickKid(keys, offered).value.Some? ==>
      PickKid(keys, offered).value.value in keys
  {
    if offered != [] {
      PickIsKnown(keys, offered[1..]);
    }
  }

  predicate Known(keys: map<string, seq<int>>, j: Json) {
    j.Str? && j.s in keys
  }

  /** The choice is the offer k if and only if k is known and nothing before it
      is known or raises. */
  lemma {:induction false} PickIsFirst(keys: map<string, seq<int>>, offered: seq<Json>, kid: string)
    ensures PickKid(keys, offered) == Done(Some(kid)) <==>
      exists i :: 0 <= i < |offered| && offered[i] == Str(kid) && kid in keys
                  && forall j :: 0 <= j < i ==> Hashable(offered[j]) && !Known(keys, offered[j])
  {
    if offered != [] {
      var rest := offered[1..];
      PickIsFirst(keys, rest, kid);
      if i :| 0 <= i < |rest| && rest[i] == Str(kid) && kid in keys
              && forall j :: 0 <= j < i ==> Hashable(rest[j]) && !Known(keys, rest[j])
      {
        if Hashable(offered[0]) && !Known(keys, offered[0]) {
          assert offered[i + 1] == Str(kid);
          assert forall j :: 0 < j < i + 1 ==> offered[j] == rest[j - 1];
        }
      }
      if i :| 0 < i < |offered| && offered[i] == Str(kid) && kid in keys
              && forall j :: 0 <= j < i ==> Hashable(offered[j]) && !Known(keys, offered[j])
      {
        assert rest[i - 1] == Str(kid);
        assert forall j :: 0 <= j < i - 1 ==> rest[j] == offered[j + 1];
      }
    }
  }

  function Checked(verdict: Verdict, seqNo: Json): Greeting {
    match verdict
    case Error => Crashed
    case Rejected(reason) => ProofRejected(reason)
    case Ok => if Fresh(0, seqNo) then Negotiated else ProofRejected("replay")
  }

  ghost function Greet(c: Crypto, p: Peer, hello: Option<Message>, proof: Option<Message>): Greeting {
    if hello.None? then Silent
    else if Get(hello.value, "type") != Str("hello") then NotHello
    else
      var kid := Choose(p.keys, hello.value);
      if kid.Raises? then Crashed
      else if kid.value.None? then Refused
      else if proof.None? then NoProof
      else
        ChosenIsKnown(p.keys, hello.value);
        var x := ProofContext(p, kid.value.value, Get(hello.value, "client_nonce"));
        Checked(Verify(c, x, proof.value), AuthField(proof.value, "seq"))
  }

  lemma ChosenIsKnown(keys: map<string, seq<int>>, hello: Message)
    ensures Choose(keys, hello).Done? && Choose(keys, hello).value.Some? ==> Choose(keys, hello).value.value in keys
  {
    if Items(Get(hello, "auth_kids")).Done? {
      PickIsKnown(keys, Items(Get(hello, "auth_kids")).value);
    }
  }

  /** The hello of a device that holds one key. */
  predicate Greets(hello: Message, kid: string, nonce: string) {
    && Get(hello, "type") == Str("hello")
    && Get(hello, "auth_schemes") == Arr([Str(SCHEME)])
    && Get(hello, "auth_kids") == Arr([Str(kid)])
    && Get(hello, "client_nonce") == Str(nonce)
  }

  lemma ChoiceFor(keys: map<string, seq<int>>, hello: Message, kid: string, nonce: string)
    requires Greets(hello, kid, nonce)
    ensures Choose(keys, hello) == Done(if kid in keys then Some(kid) else None)
  {
    assert Str(SCHEME) in [Str(SCHEME)];
    var offered := [Str(kid)];
    assert PickKid(keys, offered[1..]) == Done(None);
    assert Items(Get(hello, "auth_kids")) == Done(offered);
    assert OffersScheme(Get(hello, "auth_schemes")) == Done(true);
  }

  /** How a hello with lists of key ids and schemes is answered: without the scheme, or
      without a known key id, with auth_required; else the session proof is awaited. */
  lemma Greetings(c: Crypto, p: Peer, hello: Message, kids: seq<string>, schemes: seq<Json>, proof: Option<Message>)
    requires Get(hello, "auth_kids") == Arr(seq(|kids|, i requires 0 <= i < |kids| => Str(kids[i])))
    requires Get(hello, "auth_schemes") == Arr(schemes)
    ensures Greet(c, p, None, proof) == Silent
    ensures Greet(c, p, Some(hello), proof) == NotHello <==> Get(hello, "type") != Str("hello")
    ensures Greet(c, p, Some(hello), proof) == Refused <==>
      && Get(hello, "type") == Str("hello")
      && (Str("hmac-sha256") !in schemes || forall k :: k in kids ==> k !in p.keys)
    ensures Greet(c, p, Some(hello), proof) == NoProof <==>
      && Get(hello, "type") == Str("hello") && proof.None?
      && Str("hmac-sha256") in schemes && exists k :: k in kids && k in p.keys
  {
    var offered := seq(|kids|, i requires 0 <= i < |kids| => Str(kids[i]));
    PickFromTexts(p.keys, offered);
    assert Items(Arr(offered)) == Done(offered);
    assert forall i :: 0 <= i < |kids| ==> offered[i].s == kids[i];
    assert (exists k :: k in kids && k in p.keys) <==> exists i :: 0 <= i < |offered| && Known(p.keys, offered[i]);
  }

  lemma {:induction false} WithinMeans(t: string, s: string)
    ensures Within(t, s) <==> exists i :: 0 <= i <= |s| && t <= s[i..]
  {
    assert s[0..] == s;
    if s != "" {
      WithinMeans(t, s[1..]);
      if i :| 0 <= i <= |s[1..]| && t <= s[1..][i..] {
        assert s[i + 1..] == s[1..][i..];
      }
      if i :| 0 < i <= |s| && t <= s[i..] {
        assert s[1..][i - 1..] == s[i..];
      }
    }
  }

  /** A text in place of a list: of the key ids its single characters are offered, and the
      scheme is offered wherever in the text it stands. */
  lemma TextOffers(keys: map<string, seq<int>>, kids: string, schemes: string)
    ensures Items(Str(kids)).Done? && |Items(Str(kids)).value| == |kids|
    ensures forall i :: 0 <= i < |kids| ==> Items(Str(kids)).value[i] == Str([kids[i]])
    ensures OffersScheme(Str(schemes)) == Done(exists i :: 0 <= i <= |schemes| && "hmac-sha256" <= schemes[i..])
  {
    WithinMeans(SCHEME, schemes);
  }

  lemma {:induction false} PickFromTexts(keys: map<string, seq<int>>, offered: seq<Json>)
    requires forall i :: 0 <= i < |offered| ==> offered[i].Str?
    ensures PickKid(keys, offered).Done?
    ensures PickKid(keys, offered).value.Some? <==> exists i :: 0 <= i < |offered| && Known(keys, offered[i])
  {
    if offered != [] {
      PickFromTexts(keys, offered[1..]);
      if i :| 0 < i < |offered| && Known(keys, offered[i]) {
        assert Known(keys, offered[1..][i - 1]);
      }
    }
  }

  /** A proof signed with another key than the server's, or with a body field changed on
      the way, is rejected with mac_mismatch; a genuine one numbered below 1 as a replay. */
  lemma BadProofs(c: Crypto, p: Peer, hello: Message, kid: string, nonce: string, key: seq<int>, src: Message, n: int,
                  name: string, j: Json)
    requires Ideal(c) && Greets(hello, kid, nonce) && kid in p.keys
    requires var y := Context(key, kid, "c2s", p.deviceId, p.serverNonce, Str(nonce)); SignedCleanly(c, y, y, src, n)
    requires name !in ["v", "type", "serial", "ts", "msg_id", "in_reply_to", "auth"] && (name !in src || src[name] != j)
    ensures var y := Context(key, kid, "c2s", p.deviceId, p.serverNonce, Str(nonce));
            var proof := Sign(c, y, src, n).value;
            && (p.keys[kid] != key ==> Greet(c, p, Some(hello), Some(proof)) == ProofRejected("mac_mismatch"))
            && (p.keys[kid] == key ==> Greet(c, p, Some(hello), Some(proof[name := j])) == ProofRejected("mac_mismatch"))
            && (p.keys[kid] == key && n < 1 ==> Greet(c, p, Some(hello), Some(proof)) == ProofRejected("replay"))
  {
    var y := Context(key, kid, "c2s", p.deviceId, p.serverNonce, Str(nonce));
    ChoiceFor(p.keys, hello, kid, nonce);
    MacRecord.SignedMessage(c, y, src, n);
    if p.keys[kid] != key {
      WrongKey(c, ProofContext(p, kid, Str(nonce)), y, src, n);
    } else {
      MacRecord.TamperedRejected(c, y, src, n, name, j);
      SignVerify(c, y, src, n);
      AcceptedSeq(c, y, Sign(c, y, src, n).value, y, src, n);
    }
  }

  lemma WrongKey(c: Crypto, x: Context, y: Context, src: Message, n: int)
    requires Ideal(c) && x.key != y.key && x == y.(key := x.key) && SignedCleanly(c, x, y, src, n)
    ensures Verify(c, x, Sign(c, y, src, n).value) == Rejected("mac_mismatch")
  {
    var tag := Tag(c, y, src, Decimal.Show(n)).value;
    var proof := Sign(c, y, src, n).value;
    SignedFields(c, y, src, n, tag);
    AuthFields(c, proof, y.kid, n, tag);
    VerifyExact(c, x, proof, y, src, n);
    assert HasFields(x, proof);
  }

  /** A device that signs the session proof is let in if and only if it holds the key
      the server has for its key id and numbers the proof from 1 up: a device that
      goes on counting over several connections is let in as well. */
  lemma ProofShowsKey(c: Crypto, p: Peer, hello: Message, kid: string, nonce: string, key: seq<int>, src: Message, n: int)
    requires Ideal(c) && Greets(hello, kid, nonce)
    requires var y := Context(key, kid, "c2s", p.deviceId, p.serverNonce, Str(nonce)); SignedCleanly(c, y, y, src, n)
    ensures var y := Context(key, kid, "c2s", p.deviceId, p.serverNonce, Str(nonce));
            Greet(c, p, Some(hello), Some(Sign(c, y, src, n).value)) == Negotiated
            <==> kid in p.keys && p.keys[kid] == key && n >= 1
  {
    var y := Context(key, kid, "c2s", p.deviceId, p.serverNonce, Str(nonce));
    var proof := Sign(c, y, src, n).value;
    ChoiceFor(p.keys, hello, kid, nonce);
    if kid in p.keys {
      var x := ProofContext(p, kid, Str(nonce));
      SignVerify(c, y, src, n);
      VerifyExact(c, x, proof, y, src, n);
      AcceptedSeq(c, y, proof, y, src, n);
    }
  }

  /** The server's end of the session once it has chosen a key for hello. */
  function ServerEnd(p: Peer, hello: Message): Context
    requires Choose(p.keys, hello).Done? && Choose(p.keys, hello).value.Some?
  {
    ChosenIsKnown(p.keys, hello);
    ProofContext(p, Choose(p.keys, hello).value.value, Get(hello, "client_nonce"))
  }

  lemma NegotiatedMeans(c: Crypto, p: Peer, hello: Message, proof: Message)
    requires Greet(c, p, Some(hello), Some(proof)) == Negotiated
    ensures Choose(p.keys, hello).Done? && Choose(p.keys, hello).value.Some?
    ensures Verify(c, ServerEnd(p, hello), proof) == Ok && Fresh(0, AuthField(proof, "seq"))
  {
  }

  /** Whatever the device says, a session opens on a tag only if the tag was made
      with the server's key for this very session: this device, both nonces. */
  lemma ProofBound(c: Crypto, p: Peer, hello: Message, proof: Message, y: Context, src: Message, n: int)
    requires Ideal(c) && Greet(c, p, Some(hello), Some(proof)) == Negotiated
    requires SignedCleanly(c, ServerEnd(p, hello), y, src, n)
    requires MacText(c, proof) == MacText(c, Sign(c, y, src, n).value)
    ensures y.kid in p.keys && p.keys[y.kid] == y.key
    ensures y.direction == "c2s" && y.deviceId == p.deviceId && y.serverNonce == p.serverNonce
    ensures OrEmpty(y.clientNonce) == OrEmpty(Get(hello, "client_nonce"))
    ensures n >= 1 && Body(proof) == Body(src)
  {
    NegotiatedMeans(c, p, hello, proof);
    ChosenIsKnown(p.keys, hello);
    var x := ServerEnd(p, hello);
    VerifyExact(c, x, proof, y, src, n);
    AcceptedSeq(c, x, proof, y, src, n);
  }
}
