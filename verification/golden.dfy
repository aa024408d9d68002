/** Fixed points of the wire format: the golden vector and the string sample of RFC 8785. */
module Golden {
  import opened Json
  import opened Auth
  import Decimal

  /** The golden vector's message, at any time and under any number. */
  function Command(ts: int): Message {
    map["v" := Int(2), "type" := Str("command"), "ts" := Int(ts), "msg_id" := Str("cmd-7"),
        "command" := Str("set_state"), "target_state" := Str("On")]
  }

  /** The order of the fields of the MAC input. */
  lemma FieldOrder(c: Crypto, key: seq<int>, ts: int, seqNo: string)
    ensures var x := Context(key, "1", "s2c", "esp32-a1b2c3d4e5f6", "9f3aK2pL0xQ7sV4nB1dC8g==", Str("Yt8m1Q5fT3oQh2bJ0a9w7w=="));
            Header(c, x, Command(ts), seqNo) == Done([
              "2", "command", "s2c", "esp32-a1b2c3d4e5f6", "", Decimal.Show(ts), "cmd-7", "", "1", seqNo,
              "9f3aK2pL0xQ7sV4nB1dC8g==", "Yt8m1Q5fT3oQh2bJ0a9w7w=="])
  {
    var msg := Command(ts);
    assert msg["v"] == Int(2) && msg["type"] == Str("command") && msg["ts"] == Int(ts);
    assert Get(msg, "msg_id") == Str("cmd-7");
    assert Get(msg, "serial") == Null && Get(msg, "in_reply_to") == Null;
  }

  // ---- The body --------------------------------------------------------------

  /** Two names whose first characters differ are sorted by these. */
  lemma TwoNames(ks: set<string>, a: string, b: string)
    requires a != [] && b != [] && a[0] < b[0] && forall k :: k in ks <==> k == a || k == b
    ensures SortNames(ByCodePoint, ks) == [a, b]
  {
    assert SortKey(ByCodePoint, a)[0] < SortKey(ByCodePoint, b)[0];
    assert Before(ByCodePoint, a, b);
    SortedUnique(ByCodePoint, SortNames(ByCodePoint, ks), [a, b]);
  }

  predicate Plain(s: string) {
    forall i :: 0 <= i < |s| ==> s[i] as int >= 0x20 && s[i] != '"' && s[i] != '\\'
  }

  lemma {:induction false} EscapePlain(s: string)
    requires Plain(s)
    ensures Escape(s) == s
  {
    if s != [] {
      EscapePlain(s[1..]);
      assert s == [s[0]] + s[1..];
    }
  }

  lemma PlainField(name: string, text: string)
    requires Plain(name)
    requires Plain(text)
    ensures PrintField((name, Leaf(Str(text)))) == ("\"" + (name + "\"")) + (":" + ("\"" + (text + "\"")))
  {
    EscapePlain(name);
    EscapePlain(text);
  }

  lemma TwoFields(j: Json, m: map<string, Json>, a: string, b: string)
    requires j == Obj(m) && SortNames(ByCodePoint, m.Keys) == [a, b]
    requires a in m && b in m && m[a].Str? && m[b].Str?
    ensures Dump(ByCodePoint, j) == "{" + ((PrintField((a, Leaf(m[a]))) + ("," + PrintField((b, Leaf(m[b]))))) + "}")
  {
    var f, g := (a, Leaf(m[a])), (b, Leaf(m[b]));
    assert Arrange(ByCodePoint, j) == Record([f, g]);
    assert [f, g][1..] == [g];
    assert PrintFields([f, g]) == PrintField(f) + ("," + PrintField(g));
    assert Print(Record([f, g])) == "{" + (PrintFields([f, g]) + "}");
  }

  lemma GoldenBody(ts: int)
    ensures Dump(ByCodePoint, Obj(Body(Command(ts)))) 
         == "{" + (((("\"" + ("command" + "\"")) + (":" + ("\"" + ("set_state" + "\""))))
                    + ("," + (("\"" + ("target_state" + "\"")) + (":" + ("\"" + ("On" + "\"")))))) + "}")
  {
    var m := Body(Command(ts));
    assert m == map["command" := Str("set_state"), "target_state" := Str("On")];
    TwoNames(m.Keys, "command", "target_state");
    TwoFields(Obj(m), m, "command", "target_state");
    PlainNames();
    PlainField("command", "set_state");
    PlainField("target_state", "On");
  }

  lemma PlainNames()
    ensures Plain("command") && Plain("set_state") && Plain("target_state") && Plain("On")
  {
  }

  // ---- Strings ---------------------------------------------------------------

  lemma {:induction false} EscapeConcat(s: string, t: string)
    ensures Escape(s + t) == Escape(s) + Escape(t)
  {
    if s == [] {
      assert s + t == t;
    } else {
      assert (s + t)[1..] == s[1..] + t;
      EscapeConcat(s[1..], t);
    }
  }

  /** The sample of section 3.2.2.2, with any two plain texts p and q in it: what is
      escaped, and how. */
  lemma StringSample(p: string, q: string)
    requires Plain(p) && Plain(q)
    ensures Escape(p + ("\U{000F}\n" + (q + "\"\\\\\"/"))) == p + ("\\u000f\\n" + (q + "\\\"\\\\\\\\\\\"/"))
  {
    EscapePlain(p);
    EscapePlain(q);
    Controls();
    Marks();
    EscapeConcat(p, "\U{000F}\n" + (q + "\"\\\\\"/"));
    EscapeConcat("\U{000F}\n", q + "\"\\\\\"/");
    EscapeConcat(q, "\"\\\\\"/");
  }

  lemma Controls()
    ensures Escape("\U{000F}\n") == "\\u000f\\n"
  {
    assert "\U{000F}\n"[1..] == "\n" && "\n"[1..] == "";
    assert Escape("\n") == "\\n";
  }

  lemma Marks()
    ensures Escape("\"\\\\\"/") == "\\\"\\\\\\\\\\\"/"
  {
    EscapeConcat("\"\\", "\\\"/");
    assert "\"\\" + "\\\"/" == "\"\\\\\"/";
    assert "\"\\"[1..] == "\\" && "\\"[1..] == "";
    assert Escape("\"\\") == "\\\"\\\\";
    assert "\\\"/"[1..] == "\"/" && "\"/"[1..] == "/" && "/"[1..] == "";
    assert Escape("\"/") == "\\\"/";
    assert Escape("\\\"/") == "\\\\\\\"/";
  }
}
