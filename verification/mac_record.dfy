/** The MAC record field by field: which position each part of a message has, what the
    bytes say when they are read back, and what a change to a message does to its tag. */
module MacRecord {
  import opened Wrappers
  import opened Json
  import opened Auth
  import Decimal
  import Utf8
  import JsonReader
  import Lex

  // ---- Positions -------------------------------------------------------------

  lemma OneChanged(h: seq<string>, g: seq<string>, i: nat, t: string)
    requires |h| == 12 && |g| == 12 && i < 12 && g[i] == t
    requires (i == 0 || g[0] == h[0]) && (i == 1 || g[1] == h[1]) && (i == 2 || g[2] == h[2]) && (i == 3 || g[3] == h[3])
    requires (i == 4 || g[4] == h[4]) && (i == 5 || g[5] == h[5]) && (i == 6 || g[6] == h[6]) && (i == 7 || g[7] == h[7])
    requires (i == 8 || g[8] == h[8]) && (i == 9 || g[9] == h[9]) && (i == 10 || g[10] == h[10]) && (i == 11 || g[11] == h[11])
    ensures g == h[i := t]
  {
  }

  /** Setting one of its six fields to a text changes exactly one position of the record. */
  lemma MessagePositions(c: Crypto, x: Context, msg: Message, s: string, t: string)
    requires HasFields(x, msg) && t != ""
    ensures |Header(c, x, msg, s).value| == 12
    ensures Header(c, x, msg["v" := Str(t)], s) == Done(Header(c, x, msg, s).value[0 := t])
    ensures Header(c, x, msg["type" := Str(t)], s) == Done(Header(c, x, msg, s).value[1 := t])
    ensures Header(c, x, msg["serial" := Str(t)], s) == Done(Header(c, x, msg, s).value[4 := t])
    ensures Header(c, x, msg["ts" := Str(t)], s) == Done(Header(c, x, msg, s).value[5 := t])
    ensures Header(c, x, msg["msg_id" := Str(t)], s) == Done(Header(c, x, msg, s).value[6 := t])
    ensures Header(c, x, msg["in_reply_to" := Str(t)], s) == Done(Header(c, x, msg, s).value[7 := t])
  {
    MessagePosition(c, x, msg, s, "v", 0, t);
    MessagePosition(c, x, msg, s, "type", 1, t);
    MessagePosition(c, x, msg, s, "serial", 4, t);
    MessagePosition(c, x, msg, s, "ts", 5, t);
    MessagePosition(c, x, msg, s, "msg_id", 6, t);
    MessagePosition(c, x, msg, s, "in_reply_to", 7, t);
  }

  lemma MessagePosition(c: Crypto, x: Context, msg: Message, s: string, name: string, i: nat, t: string)
    requires HasFields(x, msg) && t != ""
    requires (name == "v" && i == 0) || (name == "type" && i == 1) || (name == "serial" && i == 4)
          || (name == "ts" && i == 5) || (name == "msg_id" && i == 6) || (name == "in_reply_to" && i == 7)
    ensures |Header(c, x, msg, s).value| == 12
    ensures Header(c, x, msg[name := Str(t)], s) == Done(Header(c, x, msg, s).value[i := t])
  {
    TextFits(x, msg, name, t);
    Others(c, x, msg, s, name, Str(t));
    OneChanged(Header(c, x, msg, s).value, Header(c, x, msg[name := Str(t)], s).value, i, t);
  }

  lemma TextFits(x: Context, msg: Message, name: string, t: string)
    requires HasFields(x, msg)
    ensures HasFields(x, msg[name := Str(t)])
  {
    assert forall k :: k != name ==> Get(msg[name := Str(t)], k) == Get(msg, k);
    assert Get(msg[name := Str(t)], name) == Str(t);
  }

  lemma Others(c: Crypto, x: Context, msg: Message, s: string, name: string, j: Json)
    requires HasFields(x, msg) && HasFields(x, msg[name := j])
    ensures var h, g := Header(c, x, msg, s).value, Header(c, x, msg[name := j], s).value;
            && |h| == 12 && |g| == 12
            && g[2] == h[2] && g[3] == h[3] && g[8] == h[8] && g[9] == h[9] && g[10] == h[10] && g[11] == h[11]
            && g[0] == (if name == "v" then PyStr(c, j) else h[0])
            && (name != "type" ==> g[1] == h[1])
            && (name == "type" ==> j.Str? && g[1] == j.s)
            && g[4] == (if name == "serial" then OrEmpty(j).value else h[4])
            && g[5] == (if name == "ts" then PyStr(c, j) else h[5])
            && g[6] == (if name == "msg_id" then OrEmpty(j).value else h[6])
            && g[7] == (if name == "in_reply_to" then OrEmpty(j).value else h[7])
  {
    var m := msg[name := j];
    assert forall k :: k != name ==> Get(m, k) == Get(msg, k);
    assert Get(m, name) == j;
  }

  /** So does setting what the ends of a session supply themselves. */
  lemma OwnPositions(c: Crypto, x: Context, msg: Message, s: string, t: string)
    requires HasFields(x, msg) && t != ""
    ensures |Header(c, x, msg, s).value| == 12
    ensures Header(c, x.(direction := t), msg, s) == Done(Header(c, x, msg, s).value[2 := t])
    ensures Header(c, x.(deviceId := t), msg, s) == Done(Header(c, x, msg, s).value[3 := t])
    ensures Header(c, x.(kid := t), msg, s) == Done(Header(c, x, msg, s).value[8 := t])
    ensures Header(c, x, msg, t) == Done(Header(c, x, msg, s).value[9 := t])
    ensures Header(c, x.(serverNonce := t), msg, s) == Done(Header(c, x, msg, s).value[10 := t])
    ensures Header(c, x.(clientNonce := Str(t)), msg, s) == Done(Header(c, x, msg, s).value[11 := t])
  {
    OwnPosition(c, x, x.(direction := t), msg, s, s, 2, t);
    OwnPosition(c, x, x.(deviceId := t), msg, s, s, 3, t);
    OwnPosition(c, x, x.(kid := t), msg, s, s, 8, t);
    OwnPosition(c, x, x, msg, s, t, 9, t);
    OwnPosition(c, x, x.(serverNonce := t), msg, s, s, 10, t);
    OwnPosition(c, x, x.(clientNonce := Str(t)), msg, s, s, 11, t);
  }

  lemma OwnPosition(c: Crypto, x: Context, y: Context, msg: Message, s: string, n: string, i: nat, t: string)
    requires HasFields(x, msg) && OrEmpty(y.clientNonce).Done? && i in [2, 3, 8, 9, 10, 11]
    requires (i == 2 ==> y.direction == t) && (i != 2 ==> y.direction == x.direction)
    requires (i == 3 ==> y.deviceId == t) && (i != 3 ==> y.deviceId == x.deviceId)
    requires (i == 8 ==> y.kid == t) && (i != 8 ==> y.kid == x.kid)
    requires (i == 9 ==> n == t) && (i != 9 ==> n == s)
    requires (i == 10 ==> y.serverNonce == t) && (i != 10 ==> y.serverNonce == x.serverNonce)
    requires (i == 11 ==> OrEmpty(y.clientNonce) == Done(t)) && (i != 11 ==> y.clientNonce == x.clientNonce)
    ensures |Header(c, x, msg, s).value| == 12
    ensures Header(c, y, msg, n) == Done(Header(c, x, msg, s).value[i := t])
  {
    OwnFields(c, x, msg, s);
    OwnFields(c, y, msg, n);
    var h, g := Header(c, x, msg, s).value, Header(c, y, msg, n).value;
    assert h[0] == g[0] && h[1] == g[1] && h[4] == g[4] && h[5] == g[5] && h[6] == g[6] && h[7] == g[7];
    OneChanged(h, g, i, t);
  }

  /** What values that are no text become: str() of v and ts, "" for an optional field
      that is empty in any way, an exception for any other value of such a field. */
  lemma OtherValues(c: Crypto, x: Context, msg: Message, s: string, n: int, j: Json)
    requires HasFields(x, msg)
    ensures Header(c, x, msg["v" := Int(n)], s).value[0] == Decimal.Show(n)
    ensures Header(c, x, msg["ts" := Int(n)], s).value[5] == Decimal.Show(n)
    ensures Header(c, x, msg["v" := Null], s).value[0] == "None"
    ensures Header(c, x, msg["v" := Bool(true)], s).value[0] == "True"
    ensures Header(c, x, msg["v" := Bool(false)], s).value[0] == "False"
    ensures j in [Null, Bool(false), Int(0), Str(""), Arr([]), Obj(map[])] ==>
              Header(c, x, msg["serial" := j], s) == Done(Header(c, x, msg, s).value[4 := ""])
    ensures Header(c, x, msg["serial" := j], s).Raises? <==>
              !j.Str? && j !in [Null, Bool(false), Int(0), Str(""), Arr([]), Obj(map[])]
  {
    Others(c, x, msg, s, "v", Int(n));
    Others(c, x, msg, s, "ts", Int(n));
    Others(c, x, msg, s, "v", Null);
    Others(c, x, msg, s, "v", Bool(true));
    Others(c, x, msg, s, "v", Bool(false));
    SerialOf(c, x, msg, s, j);
  }

  lemma SerialOf(c: Crypto, x: Context, msg: Message, s: string, j: Json)
    requires HasFields(x, msg)
    ensures Header(c, x, msg["serial" := j], s).Raises? <==>
              !j.Str? && j !in [Null, Bool(false), Int(0), Str(""), Arr([]), Obj(map[])]
    ensures j in [Null, Bool(false), Int(0), Str(""), Arr([]), Obj(map[])] ==>
              Header(c, x, msg["serial" := j], s) == Done(Header(c, x, msg, s).value[4 := ""])
  {
    var m := msg["serial" := j];
    assert forall k :: k != "serial" ==> Get(m, k) == Get(msg, k);
    assert HasFields(x, m) <==> OrEmpty(j).Done?;
    if HasFields(x, m) {
      Others(c, x, msg, s, "serial", j);
      OneChanged(Header(c, x, msg, s).value, Header(c, x, m, s).value, 4, OrEmpty(j).value);
    }
  }

  // ---- The bytes read back ---------------------------------------------------

  /** The parts between the characters U+001F. */
  function Parts(s: string): (ps: seq<string>)
    ensures ps != []
  {
    if s == "" then [""] else
      var rest := Parts(s[1..]);
      if s[0] == US then [""] + rest else [[s[0]] + rest[0]] + rest[1..]
  }

  function JoinText(fs: seq<string>): string {
    if fs == [] then "" else if |fs| == 1 then fs[0] else fs[0] + ([US] + JoinText(fs[1..]))
  }

  lemma {:induction false} JoinIsText(fs: seq<string>)
    ensures Join(fs) == Utf8.Encode(JoinText(fs))
  {
    if |fs| > 1 {
      JoinIsText(fs[1..]);
      var rest := JoinText(fs[1..]);
      EncodeConcat(fs[0], [US] + rest);
      assert ([US] + rest)[1..] == rest;
      assert Utf8.Encode([US] + rest) == [US_BYTE] + Utf8.Encode(rest);
    }
  }

  lemma {:induction false} PartsOf(f: string, r: string)
    requires UsFree(f)
    ensures Parts(f + r) == [f + Parts(r)[0]] + Parts(r)[1..]
  {
    var ps := Parts(r);
    assert ps == [ps[0]] + ps[1..];
    if f == "" {
      assert f + r == r && f + ps[0] == ps[0];
    } else {
      assert (f + r)[0] == f[0] && (f + r)[1..] == f[1..] + r;
      PartsOf(f[1..], r);
      assert [f[0]] + (f[1..] + ps[0]) == f + ps[0];
    }
  }

  lemma {:induction false} PartsOfJoin(fs: seq<string>)
    requires fs != [] && forall f :: f in fs ==> UsFree(f)
    ensures Parts(JoinText(fs)) == fs
  {
    assert fs[0] in fs;
    if |fs| == 1 {
      PartsOf(fs[0], "");
      assert fs[0] + "" == fs[0];
    } else {
      var rest := JoinText(fs[1..]);
      assert forall f :: f in fs[1..] ==> f in fs;
      PartsOfJoin(fs[1..]);
      assert ([US] + rest)[1..] == rest;
      assert Parts([US] + rest) == [""] + fs[1..];
      PartsOf(fs[0], [US] + rest);
      assert fs[0] + "" == fs[0];
      assert fs == [fs[0]] + fs[1..];
    }
  }

  /** The MAC input, decoded and cut at U+001F, gives the twelve fields and the hash of
      the body, in this order, whenever no field holds that character. */
  lemma RecordRead(c: Crypto, x: Context, msg: Message, s: string)
    requires Ideal(c) && HasFields(x, msg) && forall f :: f in Header(c, x, msg, s).value ==> UsFree(f)
    ensures var text := Utf8.Decode(MacInput(c, x, msg, s).value);
            text.Some? && Parts(text.value) == Header(c, x, msg, s).value + [c.hash(CanonicalBody(msg))]
  {
    var fs := Header(c, x, msg, s).value + [c.hash(CanonicalBody(msg))];
    JoinIsText(fs);
    Utf8.DecodeEncode(JoinText(fs));
    PartsOfJoin(fs);
  }

  // ---- Changes to a message --------------------------------------------------

  /** Changing any field but the envelope's changes the tag, whatever the fields hold. */
  lemma BodyFieldCounts(c: Crypto, x: Context, msg: Message, s: string, name: string, j: Json)
    requires Ideal(c) && HasFields(x, msg)
    requires name !in ["v", "type", "serial", "ts", "msg_id", "in_reply_to", "auth"]
    requires name !in msg || msg[name] != j
    ensures Tag(c, x, msg[name := j], s) != Tag(c, x, msg, s)
  {
    var m := msg[name := j];
    var h := Header(c, x, msg, s).value;
    SameHeader(c, x, msg, s, name, j);
    BodyDiffers(msg, name, j);
    CanonicalBodyExact(m, msg);
    HashCounts(h, c.hash(CanonicalBody(m)), c.hash(CanonicalBody(msg)));
  }

  lemma SameHeader(c: Crypto, x: Context, msg: Message, s: string, name: string, j: Json)
    requires name !in ["v", "type", "serial", "ts", "msg_id", "in_reply_to"]
    ensures Header(c, x, msg[name := j], s) == Header(c, x, msg, s)
  {
    assert forall k :: k != name ==> Get(msg[name := j], k) == Get(msg, k);
  }

  lemma BodyDiffers(msg: Message, name: string, j: Json)
    requires name !in ["v", "type", "serial", "ts", "msg_id", "in_reply_to", "auth"]
    requires name !in msg || msg[name] != j
    ensures Body(msg[name := j]) != Body(msg)
  {
    var m := msg[name := j];
    assert name in Body(m) && Body(m)[name] == j;
  }

  lemma HashCounts(h: seq<string>, a: string, b: string)
    requires a != b && UsFree(a)
    ensures Join(h + [a]) != Join(h + [b])
  {
    assert (h + [a])[|h|] == a && (h + [b])[|h|] == b;
    if Join(h + [a]) == Join(h + [b]) {
      JoinSplit(h + [a], h + [b]);
    }
  }

  /** The auth object and the order of the fields do not enter it. */
  lemma AuthDoesNotCount(c: Crypto, x: Context, msg: Message, s: string, j: Json)
    ensures Tag(c, x, msg["auth" := j], s) == Tag(c, x, msg, s)
  {
    SameTag(c, x, msg, s, j);
  }

  /** Signing adds the auth object, with these three members, and changes nothing else. */
  lemma SignedMessage(c: Crypto, x: Context, msg: Message, n: int)
    requires HasFields(x, msg)
    ensures var tag := c.mac(x.key, MacInput(c, x, msg, Decimal.Show(n)).value);
            Sign(c, x, msg, n) == Done(msg["auth" := Obj(map["kid" := Str(x.kid), "seq" := Int(n), "mac" := Str(tag)])])
  {
  }

  /** A signed message with a body field changed on the way is rejected with mac_mismatch. */
  lemma TamperedRejected(c: Crypto, x: Context, msg: Message, n: int, name: string, j: Json)
    requires Ideal(c) && HasFields(x, msg)
    requires name !in ["v", "type", "serial", "ts", "msg_id", "in_reply_to", "auth"]
    requires name !in msg || msg[name] != j
    ensures Verify(c, x, Sign(c, x, msg, n).value[name := j]) == Rejected("mac_mismatch")
  {
    var t := Decimal.Show(n);
    var tag := Tag(c, x, msg, t).value;
    var signed := Sign(c, x, msg, n).value;
    var got := signed[name := j];
    SignedFields(c, x, msg, n, tag);
    SameHeader(c, x, signed, t, name, j);
    SameHeader(c, x, msg, t, "auth", signed["auth"]);
    AuthFields(c, got, x.kid, n, tag);
    AuthDoesNotCount(c, x, msg, t, signed["auth"]);
    BodyFieldCounts(c, x, signed, t, name, j);
    MismatchRejected(c, x, got, n, tag);
  }

  lemma MismatchRejected(c: Crypto, x: Context, msg: Message, n: int, tag: string)
    requires Get(msg, "auth") == AuthObject(x.kid, n, tag) && Ascii(tag)
    requires Tag(c, x, msg, Decimal.Show(n)).Done? && Tag(c, x, msg, Decimal.Show(n)).value != tag
    ensures Verify(c, x, msg) == Rejected("mac_mismatch")
  {
    AuthFields(c, msg, x.kid, n, tag);
  }

  /** Every refusal and the exception, and when it is given: the latter on fields that cannot
      be encoded and on a mac that is not ASCII. */
  lemma Verdicts(c: Crypto, x: Context, msg: Message)
    ensures Verify(c, x, msg) == Rejected("missing_auth") <==> "auth" !in msg || !msg["auth"].Obj?
    ensures Verify(c, x, msg) == Rejected("kid_mismatch") <==>
      "auth" in msg && msg["auth"].Obj? && !("kid" in msg["auth"].members && msg["auth"].members["kid"] == Str(x.kid))
    ensures Verify(c, x, msg) == Rejected("bad_seq") <==>
      && "auth" in msg && msg["auth"].Obj? && "kid" in msg["auth"].members && msg["auth"].members["kid"] == Str(x.kid)
      && !("seq" in msg["auth"].members && (msg["auth"].members["seq"].Int? || msg["auth"].members["seq"].Bool?))
    ensures Verify(c, x, msg) == Error <==>
      && "auth" in msg && msg["auth"].Obj? && "kid" in msg["auth"].members && msg["auth"].members["kid"] == Str(x.kid)
      && "seq" in msg["auth"].members && (msg["auth"].members["seq"].Int? || msg["auth"].members["seq"].Bool?)
      && (!HasFields(x, msg) || exists ch :: ch in MacText(c, msg) && ch as int >= 0x80)
    ensures "auth" in msg && msg["auth"].Obj? && "mac" !in msg["auth"].members ==> MacText(c, msg) == ""
  {
  }

  /** The canonical bytes, decoded and read, are all fields but the envelope's in
      ascending order of their names, and nothing is behind them. */
  lemma CanonicalBodyRead(msg: Message)
    ensures var text := Utf8.Decode(CanonicalBody(msg));
            && text.Some? && JsonReader.ReadValue(text.value).Some?
            && var tree := JsonReader.ReadValue(text.value).value.0;
               && JsonReader.ReadValue(text.value).value.1 == ""
               && JsonReader.ValueOf(tree) == Obj(Body(msg))
               && tree.Record? && forall i, k :: 0 <= i < k < |tree.fields| ==>
                    Lex.Less(CodePoints(tree.fields[i].0), CodePoints(tree.fields[k].0))
  {
    var text := Dump(ByCodePoint, Obj(Body(msg)));
    Utf8.DecodeEncode(text);
    JsonReader.DumpRead(ByCodePoint, Obj(Body(msg)), "");
    assert text + "" == text;
    FieldsOf(ByCodePoint, Body(msg));
  }
}
