/** Message authentication: canonical body, MAC input, sign and verify. */
module Auth {
  import opened Json
  import JsonReader
  import Utf8
  import Decimal

  /** A message as a wire dict: envelope and body fields at the top level. */
  type Message = map<string, Json>

  /** A Python call either returns or raises. */
  datatype Outcome<+T> = Done(value: T) | Raises

  /** SHA-256 (as hex) and the truncated HMAC (as base64) are ideal functions;
      show is str() on a list or a dict. */
  datatype Crypto = Crypto(
    hash: seq<int> -> string,
    mac: (seq<int>, seq<int>) -> string,
    show: Json -> string)

  const US: char := '\U{001F}'
  const US_BYTE: int := 0x1F

  predicate UsFree(s: string) {
    US !in s
  }

  predicate Ascii(s: string) {
    forall c :: c in s ==> c as int < 0x80
  }

  ghost predicate Ideal(c: Crypto) {
    && (forall a, b :: c.hash(a) == c.hash(b) ==> a == b)
    && (forall a :: UsFree(c.hash(a)))
    && (forall k, a, l, b :: c.mac(k, a) == c.mac(l, b) ==> k == l && a == b)
    && (forall k, a :: Ascii(c.mac(k, a)))
  }

  // ---- Canonical body --------------------------------------------------------

  const ENVELOPE_FIELDS: set<string> := {"v", "type", "serial", "ts", "msg_id", "in_reply_to", "auth"}

  function Body(msg: Message): map<string, Json> {
    msg - ENVELOPE_FIELDS
  }

  ghost function CanonicalBody(msg: Message): seq<int> {
    Utf8.Encode(Dump(ByCodePoint, Obj(Body(msg))))
  }

  /** The canonical body is a canonical form: the same bytes if and only if the
      same non-envelope fields, as unordered maps at every depth. */
  lemma CanonicalBodyExact(m: Message, n: Message)
    ensures CanonicalBody(m) == CanonicalBody(n) <==> Body(m) == Body(n)
  {
    if CanonicalBody(m) == CanonicalBody(n) {
      Utf8.Injective(Dump(ByCodePoint, Obj(Body(m))), Dump(ByCodePoint, Obj(Body(n))));
      JsonReader.DumpInjective(ByCodePoint, Obj(Body(m)), Obj(Body(n)));
    }
  }

  // ---- The fields of the MAC input -------------------------------------------

  /** str(j) */
  function PyStr(c: Crypto, j: Json): string {
    match j
    case Null => "None"
    case Bool(b) => if b then "True" else "False"
    case Int(n) => Decimal.Show(n)
    case Str(s) => s
    case _ => c.show(j)
  }

  predicate Falsy(j: Json) {
    j == Null || j == Bool(false) || j == Int(0) || j == Str("") || j == Arr([]) || j == Obj(map[])
  }

  /** msg.get(name) */
  function Get(msg: Message, name: string): Json {
    if name in msg then msg[name] else Null
  }

  /** msg.get("type", "") */
  function TypeOf(msg: Message): Json {
    if "type" in msg then msg["type"] else Str("")
  }

  /** Whether j can be looked up in a dict. */
  predicate Hashable(j: Json) {
    !j.Arr? && !j.Obj?
  }

  /** (j or "").encode: only a text can be encoded. */
  function OrEmpty(j: Json): Outcome<string> {
    if Falsy(j) then Done("") else if j.Str? then Done(j.s) else Raises
  }

  /** What the two ends of a session know besides the message. */
  datatype Context = Context(
    key: seq<int>,
    kid: string,
    direction: string,
    deviceId: string,
    serverNonce: string,
    clientNonce: Json)

  /** All fields are there and can be encoded. */
  predicate HasFields(x: Context, msg: Message) {
    && "v" in msg && "ts" in msg && "type" in msg && msg["type"].Str?
    && OrEmpty(Get(msg, "serial")).Done? && OrEmpty(Get(msg, "msg_id")).Done?
    && OrEmpty(Get(msg, "in_reply_to")).Done? && OrEmpty(x.clientNonce).Done?
  }

  /** The first twelve fields. */
  function Header(c: Crypto, x: Context, msg: Message, seqNo: string): Outcome<seq<string>> {
    if !HasFields(x, msg) then Raises
    else Done([
      PyStr(c, msg["v"]), msg["type"].s, x.direction, x.deviceId, OrEmpty(Get(msg, "serial")).value,
      PyStr(c, msg["ts"]), OrEmpty(Get(msg, "msg_id")).value, OrEmpty(Get(msg, "in_reply_to")).value, x.kid, seqNo,
      x.serverNonce, OrEmpty(x.clientNonce).value])
  }

  function Join(fs: seq<string>): seq<int> {
    if fs == [] then []
    else if |fs| == 1 then Utf8.Encode(fs[0])
    else Utf8.Encode(fs[0]) + ([US_BYTE] + Join(fs[1..]))
  }

  ghost function MacInput(c: Crypto, x: Context, msg: Message, seqNo: string): Outcome<seq<int>> {
    var h := Header(c, x, msg, seqNo);
    if h.Raises? then Raises else Done(Join(h.value + [c.hash(CanonicalBody(msg))]))
  }

  ghost function Tag(c: Crypto, x: Context, msg: Message, seqNo: string): Outcome<string> {
    var raw := MacInput(c, x, msg, seqNo);
    if raw.Raises? then Raises else Done(c.mac(x.key, raw.value))
  }

  function AuthObject(kid: string, n: int, tag: string): Json {
    Obj(map["kid" := Str(kid), "seq" := Int(n), "mac" := Str(tag)])
  }

  /** Sets msg["auth"]. */
  ghost function Sign(c: Crypto, x: Context, msg: Message, n: int): Outcome<Message> {
    var tag := Tag(c, x, msg, Decimal.Show(n));
    if tag.Raises? then Raises
    else Done(msg["auth" := AuthObject(x.kid, n, tag.value)])
  }

  datatype Verdict = Ok | Rejected(reason: string) | Error

  function AuthField(msg: Message, name: string): Json {
    if Get(msg, "auth").Obj? then Get(Get(msg, "auth").members, name) else Null
  }

  /** str(auth.get("mac", "")) */
  function MacText(c: Crypto, msg: Message): string {
    if Get(msg, "auth").Obj? && "mac" !in Get(msg, "auth").members then "" else PyStr(c, AuthField(msg, "mac"))
  }

  /** isinstance(seq, int): a bool is an int. */
  predicate IsIntegral(j: Json) {
    j.Int? || j.Bool?
  }

  function SeqNumber(j: Json): int
    requires IsIntegral(j)
  {
    if j.Int? then j.n else if j.b then 1 else 0
  }

  /** hmac.compare_digest raises on text that is not ASCII. */
  ghost function Verify(c: Crypto, x: Context, msg: Message): Verdict {
    if !Get(msg, "auth").Obj? then Rejected("missing_auth")
    else if AuthField(msg, "kid") != Str(x.kid) then Rejected("kid_mismatch")
    else if !IsIntegral(AuthField(msg, "seq")) then Rejected("bad_seq")
    else
      var tag := Tag(c, x, msg, PyStr(c, AuthField(msg, "seq")));
      if tag.Raises? || !Ascii(MacText(c, msg)) then Error
      else if tag.value != MacText(c, msg) then Rejected("mac_mismatch")
      else Ok
  }

  // ---- The joined record splits in only one way ------------------------------

  lemma {:induction false} EncodeUsFree(s: string)
    ensures Utf8.Count(Utf8.Encode(s), US_BYTE) == 0 <==> UsFree(s)
  {
    if s != [] {
      var b := Utf8.EncodeChar(s[0]);
      Utf8.CountConcat(b, Utf8.Encode(s[1..]), US_BYTE);
      EncodeUsFree(s[1..]);
      CharUsFree(s[0]);
      assert s == [s[0]] + s[1..];
    }
  }

  lemma CharUsFree(ch: char)
    ensures Utf8.Count(Utf8.EncodeChar(ch), US_BYTE) == if ch == US then 1 else 0
  {
    var b := Utf8.EncodeChar(ch);
    if |b| == 1 {
      assert b[1..] == [];
    } else if |b| == 2 {
      assert b == [b[0]] + ([b[1]] + []);
      Utf8.CountConcat([b[0]], [b[1]], US_BYTE);
    } else if |b| == 3 {
      assert b == [b[0]] + ([b[1]] + [b[2]]);
      Utf8.CountConcat([b[0]], [b[1]] + [b[2]], US_BYTE);
      Utf8.CountConcat([b[1]], [b[2]], US_BYTE);
    } else {
      assert b == [b[0]] + ([b[1]] + ([b[2]] + [b[3]]));
      Utf8.CountConcat([b[0]], [b[1]] + ([b[2]] + [b[3]]), US_BYTE);
      Utf8.CountConcat([b[1]], [b[2]] + [b[3]], US_BYTE);
      Utf8.CountConcat([b[2]], [b[3]], US_BYTE);
    }
  }

  /** How many separators the fields hold. */
  function Separators(fs: seq<string>): nat {
    if fs == [] then 0 else Utf8.Count(Utf8.Encode(fs[0]), US_BYTE) + Separators(fs[1..])
  }

  /** A joined record holds one separator per gap and those of its fields. */
  lemma {:induction false} JoinCount(fs: seq<string>)
    requires fs != []
    ensures Utf8.Count(Join(fs), US_BYTE) == |fs| - 1 + Separators(fs)
  {
    if |fs| > 1 {
      JoinCount(fs[1..]);
      var rest := Join(fs[1..]);
      Utf8.CountConcat(Utf8.Encode(fs[0]), [US_BYTE] + rest, US_BYTE);
      assert ([US_BYTE] + rest)[1..] == rest;
    }
  }

  /** Each field is the other record's or holds no separator. */
  predicate SharedOrFree(fs: seq<string>, gs: seq<string>)
    requires |fs| == |gs|
  {
    forall i :: 0 <= i < |fs| ==> fs[i] == gs[i] || UsFree(fs[i])
  }

  /** Such a record holds the fewest separators, and as few only if the other one is such a record too. */
  lemma {:induction false} FewestSeparators(fs: seq<string>, gs: seq<string>)
    requires |fs| == |gs| && SharedOrFree(fs, gs)
    ensures Separators(fs) <= Separators(gs)
    ensures Separators(fs) == Separators(gs) ==> SharedOrFree(gs, fs)
  {
    if fs != [] {
      EncodeUsFree(fs[0]);
      EncodeUsFree(gs[0]);
      assert forall i :: 0 <= i < |fs| - 1 ==> fs[1..][i] == fs[i + 1] && gs[1..][i] == gs[i + 1];
      FewestSeparators(fs[1..], gs[1..]);
      if Separators(fs) == Separators(gs) {
        forall i | 0 < i < |fs| ensures gs[i] == fs[i] || UsFree(gs[i]) {
          assert gs[1..][i - 1] == gs[i];
        }
      }
    }
  }

  lemma {:induction false} FirstSeparator(a: seq<int>, b: seq<int>, r: seq<int>, q: seq<int>)
    requires Utf8.Count(a, US_BYTE) == 0 && Utf8.Count(b, US_BYTE) == 0
    requires a + ([US_BYTE] + r) == b + ([US_BYTE] + q)
    ensures a == b && r == q
  {
    SeparatorStep(a, r);
    SeparatorStep(b, q);
    if a != [] && b != [] {
      FirstSeparator(a[1..], b[1..], r, q);
      assert a == [a[0]] + a[1..] && b == [b[0]] + b[1..];
    }
  }

  lemma SeparatorStep(a: seq<int>, r: seq<int>)
    requires Utf8.Count(a, US_BYTE) == 0
    ensures a == [] ==> (a + ([US_BYTE] + r))[0] == US_BYTE && (a + ([US_BYTE] + r))[1..] == r
    ensures a != [] ==> (a + ([US_BYTE] + r))[0] == a[0] != US_BYTE && (a + ([US_BYTE] + r))[1..] == a[1..] + ([US_BYTE] + r)
  {
  }

  /** Where the fields of one record are the other's or free of separators, the joined
      text splits in only one way; nothing is asked of the other record. */
  lemma JoinSplit(fs: seq<string>, gs: seq<string>)
    requires |fs| == |gs| && fs != [] && SharedOrFree(fs, gs) && Join(fs) == Join(gs)
    ensures fs == gs
  {
    JoinCount(fs);
    JoinCount(gs);
    FewestSeparators(fs, gs);
    JoinAligned(fs, gs);
  }

  lemma {:induction false} JoinAligned(fs: seq<string>, gs: seq<string>)
    requires |fs| == |gs| && fs != [] && SharedOrFree(fs, gs) && SharedOrFree(gs, fs) && Join(fs) == Join(gs)
    ensures fs == gs
  {
    if |fs| == 1 {
      Utf8.Injective(fs[0], gs[0]);
    } else {
      SameFirst(fs, gs);
      assert forall i :: 0 <= i < |fs| - 1 ==> fs[1..][i] == fs[i + 1] && gs[1..][i] == gs[i + 1];
      JoinAligned(fs[1..], gs[1..]);
    }
    assert fs == [fs[0]] + fs[1..] && gs == [gs[0]] + gs[1..];
  }

  lemma SameFirst(fs: seq<string>, gs: seq<string>)
    requires |fs| > 1 && |gs| > 1 && Join(fs) == Join(gs)
    requires fs[0] == gs[0] || (UsFree(fs[0]) && UsFree(gs[0]))
    ensures fs[0] == gs[0] && Join(fs[1..]) == Join(gs[1..])
  {
    var x, y := Utf8.Encode(fs[0]), Utf8.Encode(gs[0]);
    var r, q := [US_BYTE] + Join(fs[1..]), [US_BYTE] + Join(gs[1..]);
    if fs[0] == gs[0] {
      assert (x + r)[|x|..] == r && (y + q)[|y|..] == q;
      assert r[1..] == Join(fs[1..]) && q[1..] == Join(gs[1..]);
    } else {
      EncodeUsFree(fs[0]);
      EncodeUsFree(gs[0]);
      FirstSeparator(x, y, Join(fs[1..]), Join(gs[1..]));
      Utf8.Injective(fs[0], gs[0]);
    }
  }

  // ---- What verify accepts ---------------------------------------------------

  /** msg, checked in context x with sequence text s, is the message src signed
      in context y with sequence text t, on every field the MAC covers. */
  ghost predicate Agrees(c: Crypto, x: Context, msg: Message, s: string, y: Context, src: Message, t: string)
  {
    && Header(c, x, msg, s).Done? && Header(c, y, src, t).Done?
    && PyStr(c, msg["v"]) == PyStr(c, src["v"])
    && msg["type"] == src["type"]
    && x.direction == y.direction
    && x.deviceId == y.deviceId
    && OrEmpty(Get(msg, "serial")) == OrEmpty(Get(src, "serial"))
    && PyStr(c, msg["ts"]) == PyStr(c, src["ts"])
    && OrEmpty(Get(msg, "msg_id")) == OrEmpty(Get(src, "msg_id"))
    && OrEmpty(Get(msg, "in_reply_to")) == OrEmpty(Get(src, "in_reply_to"))
    && x.kid == y.kid
    && s == t
    && x.serverNonce == y.serverNonce
    && OrEmpty(x.clientNonce) == OrEmpty(y.clientNonce)
    && Body(msg) == Body(src)
  }

  /** The six fields a message brings along. */
  predicate TextsUsFree(h: seq<string>)
    requires |h| == 12
  {
    UsFree(h[0]) && UsFree(h[1]) && UsFree(h[4]) && UsFree(h[5]) && UsFree(h[6]) && UsFree(h[7])
  }

  /** The fields an end of the session supplies itself: those in which y differs
      from x hold no separator. */
  predicate OwnFieldsClear(x: Context, y: Context) {
    && (x.direction == y.direction || UsFree(y.direction))
    && (x.deviceId == y.deviceId || UsFree(y.deviceId))
    && (x.kid == y.kid || UsFree(y.kid))
    && (x.serverNonce == y.serverNonce || UsFree(y.serverNonce))
    && (OrEmpty(x.clientNonce) == OrEmpty(y.clientNonce)
        || (OrEmpty(y.clientNonce).Done? && UsFree(OrEmpty(y.clientNonce).value)))
  }

  /** src, signed in context y, brings no separator along, nor does y where it differs from x. */
  predicate SignedCleanly(c: Crypto, x: Context, y: Context, src: Message, n: int) {
    var h := Header(c, y, src, Decimal.Show(n));
    h.Done? && TextsUsFree(h.value) && OwnFieldsClear(x, y)
  }

  lemma HeaderFields(h: seq<string>, g: seq<string>, a: string, b: string)
    requires |h| == |g| && h + [a] == g + [b]
    ensures h == g && a == b
  {
    assert h == (h + [a])[..|h|] && g == (g + [b])[..|g|];
    assert (h + [a])[|h|] == a && (g + [b])[|g|] == b;
  }

  lemma TagExact(c: Crypto, x: Context, msg: Message, s: string, y: Context, src: Message, n: int)
    requires Ideal(c) && SignedCleanly(c, x, y, src, n) && Header(c, x, msg, s).Done?
    ensures Tag(c, x, msg, s) == Tag(c, y, src, Decimal.Show(n))
       <==> x.key == y.key && Agrees(c, x, msg, s, y, src, Decimal.Show(n))
  {
    var t := Decimal.Show(n);
    var h, g := Header(c, x, msg, s).value, Header(c, y, src, t).value;
    var a, b := c.hash(CanonicalBody(msg)), c.hash(CanonicalBody(src));
    CanonicalBodyExact(msg, src);
    if Tag(c, x, msg, s) == Tag(c, y, src, t) {
      assert Join(g + [b]) == Join(h + [a]);
      FieldsClear(c, x, msg, s, y, src, n, a, b);
      JoinSplit(g + [b], h + [a]);
      HeaderFields(h, g, a, b);
      HeaderAgrees(c, x, msg, s, y, src, t);
    }
    if x.key == y.key && Agrees(c, x, msg, s, y, src, t) {
      assert h == g;
    }
  }

  lemma FieldsClear(c: Crypto, x: Context, msg: Message, s: string, y: Context, src: Message, n: int, a: string, b: string)
    requires SignedCleanly(c, x, y, src, n) && Header(c, x, msg, s).Done? && UsFree(b)
    ensures SharedOrFree(Header(c, y, src, Decimal.Show(n)).value + [b], Header(c, x, msg, s).value + [a])
  {
    OwnFields(c, x, msg, s);
    OwnFields(c, y, src, Decimal.Show(n));
    ShowUsFree(n);
  }

  lemma HeaderAgrees(c: Crypto, x: Context, msg: Message, s: string, y: Context, src: Message, t: string)
    requires Header(c, x, msg, s).Done? && Header(c, y, src, t).Done?
    requires Header(c, x, msg, s).value == Header(c, y, src, t).value && Body(msg) == Body(src)
    ensures Agrees(c, x, msg, s, y, src, t)
  {
    var h, g := Header(c, x, msg, s).value, Header(c, y, src, t).value;
    assert h[0] == g[0] && h[1] == g[1] && h[2] == g[2] && h[3] == g[3] && h[4] == g[4] && h[5] == g[5];
    assert h[6] == g[6] && h[7] == g[7] && h[8] == g[8] && h[9] == g[9] && h[10] == g[10] && h[11] == g[11];
  }

  /** A message carrying the tag of a signed one is accepted if and only if it
      names the expected kid and an integral seq and agrees with the signed one
      on all thirteen fields, under the same key. Nothing is assumed of the
      received message: separators inside its fields do not help it. */
  lemma VerifyExact(c: Crypto, x: Context, msg: Message, y: Context, src: Message, n: int)
    requires Ideal(c) && SignedCleanly(c, x, y, src, n)
    requires MacText(c, msg) == MacText(c, Sign(c, y, src, n).value)
    ensures Verify(c, x, msg) == Ok
       <==> && Get(msg, "auth").Obj?
            && AuthField(msg, "kid") == Str(x.kid)
            && IsIntegral(AuthField(msg, "seq"))
            && x.key == y.key
            && Agrees(c, x, msg, PyStr(c, AuthField(msg, "seq")), y, src, Decimal.Show(n))
  {
    var s := PyStr(c, AuthField(msg, "seq"));
    var tag := Tag(c, y, src, Decimal.Show(n)).value;
    assert MacText(c, Sign(c, y, src, n).value) == tag;
    if Header(c, x, msg, s).Done? {
      TagExact(c, x, msg, s, y, src, n);
    }
  }

  /** An accepted message carries the very sequence number that was signed, as an integer. */
  lemma AcceptedSeq(c: Crypto, x: Context, msg: Message, y: Context, src: Message, n: int)
    requires Ideal(c) && SignedCleanly(c, x, y, src, n)
    requires MacText(c, msg) == MacText(c, Sign(c, y, src, n).value) && Verify(c, x, msg) == Ok
    ensures AuthField(msg, "seq") == Int(n)
  {
    VerifyExact(c, x, msg, y, src, n);
    var j := AuthField(msg, "seq");
    Decimal.ShowShape(n, "");
    assert Decimal.Show(n) + "" == Decimal.Show(n);
    if j.Int? {
      Decimal.ShowInjective(j.n, n);
    }
  }

  /** What was signed is accepted in the same context. */
  lemma SignVerify(c: Crypto, x: Context, msg: Message, n: int)
    requires Ideal(c)
    ensures Sign(c, x, msg, n).Raises? <==> Header(c, x, msg, Decimal.Show(n)).Raises?
    ensures Sign(c, x, msg, n).Done? ==> Verify(c, x, Sign(c, x, msg, n).value) == Ok
  {
    if Sign(c, x, msg, n).Done? {
      var signed := Sign(c, x, msg, n).value;
      SameTag(c, x, msg, Decimal.Show(n), signed["auth"]);
      SignedAuth(c, x, msg, n, signed);
    }
  }

  /** The auth field is not an input of the tag. */
  lemma SameTag(c: Crypto, x: Context, msg: Message, s: string, auth: Json)
    ensures Tag(c, x, msg["auth" := auth], s) == Tag(c, x, msg, s)
  {
    assert Body(msg["auth" := auth]) == Body(msg);
    assert Header(c, x, msg["auth" := auth], s) == Header(c, x, msg, s);
  }

  /** A tag is bound to its direction, device, session nonces, key and kid: it
      is worthless for a reflected message or in another session. */
  lemma TagBoundToSession(c: Crypto, x: Context, msg: Message, y: Context, src: Message, n: int)
    requires Ideal(c) && SignedCleanly(c, x, y, src, n)
    requires MacText(c, msg) == MacText(c, Sign(c, y, src, n).value)
    requires x.key != y.key || x.kid != y.kid || x.direction != y.direction || x.deviceId != y.deviceId
          || x.serverNonce != y.serverNonce || OrEmpty(x.clientNonce) != OrEmpty(y.clientNonce)
    ensures Verify(c, x, msg) != Ok
  {
    VerifyExact(c, x, msg, y, src, n);
  }

  // ---- Exactness needs the separators out of the fields ----------------------

  lemma {:induction false} EncodeConcat(s: string, t: string)
    ensures Utf8.Encode(s + t) == Utf8.Encode(s) + Utf8.Encode(t)
  {
    if s == [] {
      assert s + t == t;
    } else {
      assert (s + t)[1..] == s[1..] + t;
      EncodeConcat(s[1..], t);
    }
  }

  lemma EncodeWithUs(p: string, q: string)
    ensures Utf8.Encode(p + [US] + q) == Utf8.Encode(p) + ([US_BYTE] + Utf8.Encode(q))
  {
    EncodeConcat(p, [US] + q);
    assert p + [US] + q == p + ([US] + q);
    assert ([US] + q)[1..] == q;
  }

  lemma JoinTwo(a: string, b: string, post: seq<string>)
    requires post != []
    ensures Join([a, b] + post) == Utf8.Encode(a) + ([US_BYTE] + (Utf8.Encode(b) + ([US_BYTE] + Join(post))))
  {
    assert ([a, b] + post)[1..] == [b] + post;
    assert ([b] + post)[1..] == post;
  }

  lemma Reassociate(p: seq<int>, q: seq<int>, w: seq<int>, u: seq<int>, j: seq<int>)
    ensures (p + (u + q)) + (u + (w + (u + j))) == p + (u + ((q + (u + w)) + (u + j)))
  {
  }

  /** A separator inside a field can change places with the one behind the field. */
  lemma {:induction false} SeparatorShift(pre: seq<string>, p: string, q: string, w: string, post: seq<string>)
    requires post != []
    ensures Join(pre + ([p + [US] + q, w] + post)) == Join(pre + ([p, q + [US] + w] + post))
  {
    var a, b := [p + [US] + q, w] + post, [p, q + [US] + w] + post;
    if pre == [] {
      assert pre + a == a && pre + b == b;
      JoinTwo(p + [US] + q, w, post);
      JoinTwo(p, q + [US] + w, post);
      EncodeWithUs(p, q);
      EncodeWithUs(q, w);
      Reassociate(Utf8.Encode(p), Utf8.Encode(q), Utf8.Encode(w), [US_BYTE], Join(post));
    } else {
      assert (pre + a)[1..] == pre[1..] + a && (pre + b)[1..] == pre[1..] + b;
      SeparatorShift(pre[1..], p, q, w, post);
    }
  }

  function FirstUs(s: string): (i: nat)
    requires !UsFree(s)
    ensures i < |s| && s[i] == US
  {
    if s[0] == US then 0 else 1 + FirstUs(s[1..])
  }

  /** Two neighbouring fields with the separator moved between them. */
  function Moved(a: string, b: string): (string, string)
    requires !UsFree(a) || !UsFree(b)
  {
    if !UsFree(a) then (a[..FirstUs(a)], a[FirstUs(a) + 1..] + [US] + b)
    else (a + [US] + b[..FirstUs(b)], b[FirstUs(b) + 1..])
  }

  lemma MovedSame(pre: seq<string>, a: string, b: string, post: seq<string>)
    requires post != [] && (!UsFree(a) || !UsFree(b))
    ensures Moved(a, b).0 != a
    ensures Join(pre + ([a, b] + post)) == Join(pre + ([Moved(a, b).0, Moved(a, b).1] + post))
  {
    if !UsFree(a) {
      var i := FirstUs(a);
      assert a == a[..i] + [US] + a[i + 1..];
      SeparatorShift(pre, a[..i], a[i + 1..], b, post);
    } else {
      var i := FirstUs(b);
      assert b == b[..i] + [US] + b[i + 1..];
      SeparatorShift(pre, a, b[..i], b[i + 1..], post);
    }
  }

  /** The header with the separator moved out of field i or field i + 1. */
  function MovedHeader(h: seq<string>, i: nat): seq<string>
    requires i + 1 < |h| && (!UsFree(h[i]) || !UsFree(h[i + 1]))
  {
    h[i := Moved(h[i], h[i + 1]).0][i + 1 := Moved(h[i], h[i + 1]).1]
  }

  lemma MovedHeaderSame(h: seq<string>, i: nat, last: string)
    requires i + 1 < |h| && (!UsFree(h[i]) || !UsFree(h[i + 1]))
    ensures MovedHeader(h, i) != h
    ensures Join(MovedHeader(h, i) + [last]) == Join(h + [last])
  {
    var m, post := MovedHeader(h, i), h[i + 2..] + [last];
    MovedSame(h[..i], h[i], h[i + 1], post);
    assert m[i] != h[i];
    PairInHeader(h, i, last);
    PairInHeader(m, i, last);
    assert m[..i] == h[..i] && m[i + 2..] == h[i + 2..];
  }

  lemma PairInHeader(h: seq<string>, i: nat, last: string)
    requires i + 1 < |h|
    ensures h + [last] == h[..i] + ([h[i], h[i + 1]] + (h[i + 2..] + [last]))
  {
  }

  /** msg with its six envelope texts replaced. */
  function Retext(msg: Message, h: seq<string>): Message
    requires |h| == 12
  {
    msg["v" := Str(h[0])]["type" := Str(h[1])]["serial" := Str(h[4])]["ts" := Str(h[5])]
       ["msg_id" := Str(h[6])]["in_reply_to" := Str(h[7])]
  }

  ghost predicate TagIsExact(c: Crypto, x: Context, src: Message, n: int)
    requires Sign(c, x, src, n).Done?
  {
    forall msg :: MacText(c, msg) == MacText(c, Sign(c, x, src, n).value) && Verify(c, x, msg) == Ok
              ==> Agrees(c, x, msg, PyStr(c, AuthField(msg, "seq")), x, src, Decimal.Show(n))
  }

  /** In any session whatever, the tag of a message admits that message only if and
      only if none of the texts the message brings along holds a separator. */
  lemma TagExactIffUsFree(c: Crypto, x: Context, src: Message, n: int)
    requires Ideal(c) && Sign(c, x, src, n).Done?
    ensures TagIsExact(c, x, src, n) <==> TextsUsFree(Header(c, x, src, Decimal.Show(n)).value)
  {
    if TextsUsFree(Header(c, x, src, Decimal.Show(n)).value) {
      CleanIsExact(c, x, src, n);
    } else {
      DirtyIsInexact(c, x, src, n);
    }
  }

  lemma DirtyIsInexact(c: Crypto, x: Context, src: Message, n: int)
    requires Ideal(c) && Sign(c, x, src, n).Done? && !TextsUsFree(Header(c, x, src, Decimal.Show(n)).value)
    ensures !TagIsExact(c, x, src, n)
  {
    var h := Header(c, x, src, Decimal.Show(n)).value;
    var i := DirtyPair(h);
    MovedHeaderSame(h, i, c.hash(CanonicalBody(src)));
    MovedOwnFields(h, i);
    OtherMessage(c, x, src, n, MovedHeader(h, i));
  }

  lemma MovedOwnFields(h: seq<string>, i: nat)
    requires |h| == 12 && (i == 0 || i == 4 || i == 6) && (!UsFree(h[i]) || !UsFree(h[i + 1]))
    ensures |MovedHeader(h, i)| == 12 && SameOwnFields(MovedHeader(h, i), h)
  {
  }

  lemma CleanIsExact(c: Crypto, x: Context, src: Message, n: int)
    requires Ideal(c) && SignedCleanly(c, x, x, src, n)
    ensures TagIsExact(c, x, src, n)
  {
    forall msg | MacText(c, msg) == MacText(c, Sign(c, x, src, n).value) && Verify(c, x, msg) == Ok
      ensures Agrees(c, x, msg, PyStr(c, AuthField(msg, "seq")), x, src, Decimal.Show(n))
    {
      VerifyExact(c, x, msg, x, src, n);
    }
  }

  lemma ShowUsFree(n: int)
    ensures UsFree(Decimal.Show(n))
  {
    Decimal.DigitsRead(Decimal.Magnitude(n));
    var d := Decimal.Digits(Decimal.Magnitude(n));
    assert forall ch :: ch in d ==> ch != US;
  }

  lemma DirtyPair(h: seq<string>) returns (i: nat)
    requires |h| == 12 && !TextsUsFree(h)
    ensures i == 0 || i == 4 || i == 6
    ensures !UsFree(h[i]) || !UsFree(h[i + 1])
  {
    i := if !UsFree(h[0]) || !UsFree(h[1]) then 0 else if !UsFree(h[4]) || !UsFree(h[5]) then 4 else 6;
  }

  /** The fields a message cannot choose. */
  lemma OwnFields(c: Crypto, x: Context, msg: Message, s: string)
    requires Header(c, x, msg, s).Done?
    ensures var h := Header(c, x, msg, s).value;
            && |h| == 12 && h[2] == x.direction && h[3] == x.deviceId && h[8] == x.kid
            && h[9] == s && h[10] == x.serverNonce && h[11] == OrEmpty(x.clientNonce).value
  {
  }

  /** Another header with the same joined record makes another message the tag admits. */
  lemma OtherMessage(c: Crypto, x: Context, src: Message, n: int, m: seq<string>)
    requires Ideal(c) && Sign(c, x, src, n).Done? && |m| == 12
    requires var h := Header(c, x, src, Decimal.Show(n)).value;
             && m != h && SameOwnFields(m, h)
             && Join(m + [c.hash(CanonicalBody(src))]) == Join(h + [c.hash(CanonicalBody(src))])
    ensures !TagIsExact(c, x, src, n)
  {
    var t := Decimal.Show(n);
    var auth := Sign(c, x, src, n).value["auth"];
    var other := Retext(src, m)["auth" := auth];
    RetextHeader(c, x, src, n, m, auth, other);
    RetextBody(src, m, auth);
    SignedAuth(c, x, src, n, other);
    if Agrees(c, x, other, t, x, src, t) {
      AgreesHeader(c, x, other, t, x, src, t);
    }
    Admits(c, x, src, n, other);
  }

  lemma Admits(c: Crypto, x: Context, src: Message, n: int, other: Message)
    requires Sign(c, x, src, n).Done? && MacText(c, other) == MacText(c, Sign(c, x, src, n).value)
    requires Verify(c, x, other) == Ok && AuthField(other, "seq") == Int(n)
    requires !Agrees(c, x, other, Decimal.Show(n), x, src, Decimal.Show(n))
    ensures !TagIsExact(c, x, src, n)
  {
    assert PyStr(c, AuthField(other, "seq")) == Decimal.Show(n);
  }

  predicate SameOwnFields(m: seq<string>, h: seq<string>)
    requires |m| == 12 && |h| == 12
  {
    m[2] == h[2] && m[3] == h[3] && m[8] == h[8] && m[9] == h[9] && m[10] == h[10] && m[11] == h[11]
  }

  lemma RetextBody(src: Message, m: seq<string>, auth: Json)
    requires |m| == 12
    ensures Body(Retext(src, m)["auth" := auth]) == Body(src)
  {
  }

  lemma SignedAuth(c: Crypto, x: Context, src: Message, n: int, other: Message)
    requires Ideal(c) && Sign(c, x, src, n).Done?
    requires "auth" in other && other["auth"] == Sign(c, x, src, n).value["auth"]
    requires Tag(c, x, other, Decimal.Show(n)) == Tag(c, x, src, Decimal.Show(n))
    ensures MacText(c, other) == MacText(c, Sign(c, x, src, n).value)
    ensures AuthField(other, "seq") == Int(n) && Verify(c, x, other) == Ok
  {
    var tag := Tag(c, x, src, Decimal.Show(n)).value;
    SignedFields(c, x, src, n, tag);
    AuthFields(c, other, x.kid, n, tag);
    AuthFields(c, Sign(c, x, src, n).value, x.kid, n, tag);
  }

  lemma AuthFields(c: Crypto, msg: Message, kid: string, n: int, tag: string)
    requires Get(msg, "auth") == AuthObject(kid, n, tag)
    ensures AuthField(msg, "kid") == Str(kid) && MacText(c, msg) == tag
    ensures AuthField(msg, "seq") == Int(n) && PyStr(c, AuthField(msg, "seq")) == Decimal.Show(n)
  {
  }

  lemma SignedFields(c: Crypto, x: Context, src: Message, n: int, tag: string)
    requires Ideal(c) && Tag(c, x, src, Decimal.Show(n)) == Done(tag)
    ensures Sign(c, x, src, n) == Done(src["auth" := AuthObject(x.kid, n, tag)])
    ensures Ascii(tag)
  {
  }

  lemma AgreesHeader(c: Crypto, x: Context, msg: Message, s: string, y: Context, src: Message, t: string)
    requires Agrees(c, x, msg, s, y, src, t)
    ensures Header(c, x, msg, s).value == Header(c, y, src, t).value
  {
  }

  lemma RetextHeader(c: Crypto, x: Context, src: Message, n: int, m: seq<string>, auth: Json, other: Message)
    requires Header(c, x, src, Decimal.Show(n)).Done? && |m| == 12
    requires SameOwnFields(m, Header(c, x, src, Decimal.Show(n)).value)
    requires other == Retext(src, m)["auth" := auth]
    ensures Header(c, x, other, Decimal.Show(n)) == Done(m)
  {
    assert Header(c, x, other, Decimal.Show(n)).Done?;
    var g := Header(c, x, other, Decimal.Show(n)).value;
    assert g[0] == m[0] && g[1] == m[1] && g[4] == m[4] && g[5] == m[5] && g[6] == m[6] && g[7] == m[7];
    assert g == m;
  }
}
