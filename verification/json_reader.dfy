/** Reading JSON (RFC 8259) from its text, and the canonical text read back. */
module JsonReader {
  import opened Wrappers
  import opened Json
  import Decimal
  import Utf8

  // ---- The reader: grammar only, without insignificant whitespace and fractions ---

  /** The value of a hexadecimal digit, -1 for any other character. */
  function HexValue(c: char): int {
    if '0' <= c <= '9' then c as int - '0' as int
    else if 'a' <= c <= 'f' then c as int - 'a' as int + 10
    else if 'A' <= c <= 'F' then c as int - 'A' as int + 10
    else -1
  }

  /** The code unit of four hexadecimal digits at the front, -1 where there are none. */
  function Hex4(s: string): int {
    if |s| < 4 || HexValue(s[0]) < 0 || HexValue(s[1]) < 0 || HexValue(s[2]) < 0 || HexValue(s[3]) < 0 then -1
    else ((HexValue(s[0]) * 16 + HexValue(s[1])) * 16 + HexValue(s[2])) * 16 + HexValue(s[3])
  }

  /** What follows a backslash and u: one code unit, or two that make a surrogate pair. */
  function ReadUnits(s: string): (r: Option<(char, string)>)
    ensures r.Some? ==> |r.value.1| < |s|
  {
    var u := Hex4(s);
    if u < 0 then None
    else if Utf8.Scalar(u) then Some((u as char, s[4..]))
    else if u >= 0xDC00 || |s| < 10 || s[4] != '\\' || s[5] != 'u' then None
    else
      var v := Hex4(s[6..]);
      if v < 0xDC00 || v >= 0xE000 then None
      else Some(((0x10000 + (u - 0xD800) * 0x400 + (v - 0xDC00)) as char, s[10..]))
  }

  /** One character inside a string, as it stands or escaped. */
  function ReadChar(s: string): (r: Option<(char, string)>)
    ensures r.Some? ==> |r.value.1| < |s|
  {
    if s == "" || s[0] == '"' || s[0] as int < 0x20 then None
    else if s[0] != '\\' then Some((s[0], s[1..]))
    else if |s| < 2 then None
    else match s[1]
      case '"' => Some(('"', s[2..]))
      case '\\' => Some(('\\', s[2..]))
      case '/' => Some(('/', s[2..]))
      case 'b' => Some(('\U{0008}', s[2..]))
      case 'f' => Some(('\U{000C}', s[2..]))
      case 'n' => Some(('\U{000A}', s[2..]))
      case 'r' => Some(('\U{000D}', s[2..]))
      case 't' => Some(('\U{0009}', s[2..]))
      case 'u' => ReadUnits(s[2..])
      case _ => None
  }

  /** The rest of a string behind its opening quote. */
  function ReadString(s: string): (r: Option<(string, string)>)
    ensures r.Some? ==> |r.value.1| < |s|
    decreases |s|
  {
    if s == "" then None
    else if s[0] == '"' then Some(("", s[1..]))
    else
      var c := ReadChar(s);
      if c.None? then None
      else
        var rest := ReadString(c.value.1);
        if rest.None? then None else Some(([c.value.0] + rest.value.0, rest.value.1))
  }

  function ReadInt(s: string): (r: Option<(Tree, string)>)
    ensures r.Some? ==> |r.value.1| < |s|
  {
    var t := if s != "" && s[0] == '-' then s[1..] else s;
    var n := Decimal.DigitRun(t);
    if n == 0 || (n > 1 && t[0] == '0') then None
    else if n < |t| && (t[n] == '.' || t[n] == 'e' || t[n] == 'E') then None
    else Some((Leaf(Int(if |t| < |s| then -Decimal.Value(t[..n]) else Decimal.Value(t[..n]))), t[n..]))
  }

  function ReadWord(s: string, word: string, v: Json): (r: Option<(Tree, string)>)
    requires word != ""
    ensures r.Some? ==> |r.value.1| < |s|
  {
    if word <= s then Some((Leaf(v), s[|word|..])) else None
  }

  /** One value at the front, its members in the order they stand in, and what follows it. */
  function ReadValue(s: string): (r: Option<(Tree, string)>)
    ensures r.Some? ==> |r.value.1| < |s|
    decreases |s|, 0
  {
    if s == "" then None
    else match s[0]
      case 'n' => ReadWord(s, "null", Null)
      case 't' => ReadWord(s, "true", Bool(true))
      case 'f' => ReadWord(s, "false", Bool(false))
      case '"' =>
        var t := ReadString(s[1..]);
        if t.None? then None else Some((Leaf(Str(t.value.0)), t.value.1))
      case '[' => ReadArray(s[1..])
      case '{' => ReadObject(s[1..])
      case _ => ReadInt(s)
  }

  /** An array behind its opening bracket. */
  function ReadArray(s: string): (r: Option<(Tree, string)>)
    ensures r.Some? ==> |r.value.1| < |s|
    decreases |s|, 2
  {
    if s != "" && s[0] == ']' then Some((List([]), s[1..]))
    else
      var t := ReadItems(s);
      if t.None? then None else Some((List(t.value.0), t.value.1))
  }

  /** An object behind its opening brace. */
  function ReadObject(s: string): (r: Option<(Tree, string)>)
    ensures r.Some? ==> |r.value.1| < |s|
    decreases |s|, 2
  {
    if s != "" && s[0] == '}' then Some((Record([]), s[1..]))
    else
      var t := ReadMembers(s);
      if t.None? then None else Some((Record(t.value.0), t.value.1))
  }

  /** The items of an array, and its closing bracket. */
  function ReadItems(s: string): (r: Option<(seq<Tree>, string)>)
    ensures r.Some? ==> |r.value.1| < |s|
    decreases |s|, 1
  {
    var v := ReadValue(s);
    if v.None? || v.value.1 == "" then None
    else if v.value.1[0] == ']' then Some(([v.value.0], v.value.1[1..]))
    else if v.value.1[0] != ',' then None
    else
      var rest := ReadItems(v.value.1[1..]);
      if rest.None? then None else Some(([v.value.0] + rest.value.0, rest.value.1))
  }

  /** The members of an object, and its closing brace. */
  function ReadMembers(s: string): (r: Option<(seq<(string, Tree)>, string)>)
    ensures r.Some? ==> |r.value.1| < |s|
    decreases |s|, 1
  {
    if s == "" || s[0] != '"' then None
    else
      var name := ReadString(s[1..]);
      if name.None? || name.value.1 == "" || name.value.1[0] != ':' then None
      else
        var v := ReadValue(name.value.1[1..]);
        if v.None? || v.value.1 == "" then None
        else if v.value.1[0] == '}' then Some(([(name.value.0, v.value.0)], v.value.1[1..]))
        else if v.value.1[0] != ',' then None
        else
          var rest := ReadMembers(v.value.1[1..]);
          if rest.None? then None else Some(([(name.value.0, v.value.0)] + rest.value.0, rest.value.1))
  }

  /** The value of a tree; of members of one name the last counts. */
  function ValueOf(t: Tree): Json
    decreases t, 0
  {
    match t
    case Leaf(v) => v
    case List(xs) => Arr(ValuesOf(xs))
    case Record(fs) => Obj(MembersOf(fs))
  }

  function ValuesOf(xs: seq<Tree>): seq<Json>
    decreases xs, 1
  {
    if xs == [] then [] else [ValueOf(xs[0])] + ValuesOf(xs[1..])
  }

  function MembersOf(fs: seq<(string, Tree)>): map<string, Json>
    decreases fs, 1
  {
    if fs == [] then map[] else map[fs[0].0 := FieldValue(fs[0])] + MembersOf(fs[1..])
  }

  function FieldValue(f: (string, Tree)): Json
    decreases f, 1
  {
    ValueOf(f.1)
  }

  // ---- Strings and numbers read back -----------------------------------------

  lemma HexDigitValue(d: nat)
    requires d < 16
    ensures HexValue(HexDigit(d)) == d
  {
  }

  lemma ReadEscaped(c: char, x: string)
    ensures ReadChar(EscapeChar(c) + x) == Some((c, x))
  {
    var e := EscapeChar(c);
    EscapeCharLead(c);
    assert (e + x)[|e|..] == x;
    assert forall i :: 0 <= i < |e| ==> (e + x)[i] == e[i];
    if |e| == 6 {
      HexDigitValue(c as int / 16);
      HexDigitValue(c as int % 16);
      var t := (e + x)[2..];
      assert t[0] == '0' && t[1] == '0' && t[2] == HexDigit(c as int / 16) && t[3] == HexDigit(c as int % 16);
      assert t[4..] == x;
    }
  }

  lemma {:induction false} ReadEscapes(t: string, r: string)
    ensures ReadString(Escape(t) + ("\"" + r)) == Some((t, r))
  {
    var x := "\"" + r;
    EscapeStep(t, x);
    if t == "" {
      assert x[1..] == r;
    } else {
      var rest := Escape(t[1..]) + x;
      ReadEscaped(t[0], rest);
      EscapeCharLead(t[0]);
      assert (EscapeChar(t[0]) + rest)[0] == EscapeChar(t[0])[0];
      ReadEscapes(t[1..], r);
      assert t == [t[0]] + t[1..];
    }
  }

  lemma ReadQuoted(t: string, r: string)
    ensures (Quote(t) + r)[0] == '"' && ReadString((Quote(t) + r)[1..]) == Some((t, r))
  {
    QuoteStep(t, r);
    ReadEscapes(t, r);
  }

  /** No digit and no fraction follows. */
  predicate EndsNumber(r: string) {
    r == "" || (!Decimal.IsDigit(r[0]) && r[0] != '.' && r[0] != 'e' && r[0] != 'E')
  }

  lemma ReadShown(n: int, r: string)
    requires EndsNumber(r)
    ensures ReadInt(Decimal.Show(n) + r) == Some((Leaf(Int(n)), r))
  {
    var m := Decimal.Magnitude(n);
    var d := Decimal.Digits(m);
    var s := Decimal.Show(n) + r;
    Decimal.ShowShape(n, r);
    Decimal.DigitsRead(m);
    Decimal.NoLeadingZero(m);
    Decimal.RunOfDigits(d, r);
    var t := if n < 0 then s[1..] else s;
    assert t == d + r;
    assert t[..|d|] == d && t[|d|..] == r;
    assert t[0] == d[0];
    if m == 0 { assert |d| == 1; }
  }

  // ---- Values read back ------------------------------------------------------

  lemma ReadLeaf(v: Json, r: string)
    requires !v.Arr? && !v.Obj? && EndsNumber(r)
    ensures ReadValue(PrintLeaf(v) + r) == Some((Leaf(v), r))
  {
    var s := PrintLeaf(v) + r;
    assert s[|PrintLeaf(v)|..] == r && PrintLeaf(v) <= s;
    match v
    case Int(n) =>
      ReadShown(n, r);
      Decimal.ShowShape(n, r);
    case Str(t) => ReadQuoted(t, r);
    case _ =>
  }

  /** A printed tree, with anything behind it that ends a number, reads as that very
      tree, and what is behind it is left. */
  lemma {:induction false} ReadTree(t: Tree, r: string)
    requires WellFormed(t) && EndsNumber(r)
    ensures ReadValue(Print(t) + r) == Some((t, r))
    decreases t, 0
  {
    match t
    case Leaf(v) => ReadLeaf(v, r);
    case List(xs) =>
      if xs != [] { ReadElems(xs, r); }
      ListRead(xs, r);
    case Record(fs) =>
      if fs != [] { ReadFields(fs, r); }
      RecordRead(fs, r);
  }

  lemma Opens(x: string)
    ensures ReadValue("[" + x) == ReadArray(x) && ReadValue("{" + x) == ReadObject(x)
  {
    assert ("[" + x)[1..] == x && ("{" + x)[1..] == x;
  }

  lemma ListText(xs: seq<Tree>, r: string)
    requires forall x :: x in xs ==> WellFormed(x)
    ensures var x := PrintElems(xs) + ("]" + r);
            && Print(List(xs)) + r == "[" + x && x != ""
            && (if xs == [] then x[0] == ']' && x[1..] == r else x[0] != ']')
  {
    if xs != [] {
      assert xs[0] in xs;
      NoBracket(xs[0]);
    }
  }

  lemma ListRead(xs: seq<Tree>, r: string)
    requires forall x :: x in xs ==> WellFormed(x)
    requires xs != [] ==> ReadItems(PrintElems(xs) + ("]" + r)) == Some((xs, r))
    ensures ReadValue(Print(List(xs)) + r) == Some((List(xs), r))
  {
    ListText(xs, r);
    Opens(PrintElems(xs) + ("]" + r));
  }

  lemma RecordText(fs: seq<(string, Tree)>, r: string)
    ensures var x := PrintFields(fs) + ("}" + r);
            && Print(Record(fs)) + r == "{" + x && x != ""
            && (if fs == [] then x[0] == '}' && x[1..] == r else x[0] != '}')
  {
    if fs != [] {
      assert PrintField(fs[0])[0] == '"';
      assert PrintFields(fs)[0] == '"';
    }
  }

  lemma RecordRead(fs: seq<(string, Tree)>, r: string)
    requires fs != [] ==> ReadMembers(PrintFields(fs) + ("}" + r)) == Some((fs, r))
    ensures ReadValue(Print(Record(fs)) + r) == Some((Record(fs), r))
  {
    RecordText(fs, r);
    Opens(PrintFields(fs) + ("}" + r));
  }

  lemma NoBracket(t: Tree)
    requires WellFormed(t)
    ensures Print(t) != "" && Print(t)[0] != ']'
  {
    if t.Leaf? && t.value.Int? {
      Decimal.ShowShape(t.value.n, "");
      assert Decimal.Show(t.value.n) + "" == Decimal.Show(t.value.n);
    }
  }

  function ElemsTail(xs: seq<Tree>, r: string): string
    requires xs != []
  {
    if |xs| == 1 then "]" + r else "," + (PrintElems(xs[1..]) + ("]" + r))
  }

  function FieldsTail(fs: seq<(string, Tree)>, r: string): string
    requires fs != []
  {
    if |fs| == 1 then "}" + r else "," + (PrintFields(fs[1..]) + ("}" + r))
  }

  lemma ElemsText(xs: seq<Tree>, r: string)
    requires xs != []
    ensures PrintElems(xs) + ("]" + r) == Print(xs[0]) + ElemsTail(xs, r)
    ensures EndsNumber(ElemsTail(xs, r))
    ensures |xs| > 1 ==> ElemsTail(xs, r)[0] == ',' && ElemsTail(xs, r)[1..] == PrintElems(xs[1..]) + ("]" + r)
  {
  }

  lemma FieldsText(fs: seq<(string, Tree)>, r: string)
    requires fs != []
    ensures PrintFields(fs) + ("}" + r) == PrintField(fs[0]) + FieldsTail(fs, r)
    ensures EndsNumber(FieldsTail(fs, r))
    ensures |fs| > 1 ==> FieldsTail(fs, r)[0] == ',' && FieldsTail(fs, r)[1..] == PrintFields(fs[1..]) + ("}" + r)
  {
  }

  lemma ItemsStep(s: string, v: Tree, tail: string, vs: seq<Tree>, r: string)
    requires ReadValue(s) == Some((v, tail))
    requires if vs == [] then tail == "]" + r else tail != "" && tail[0] == ',' && ReadItems(tail[1..]) == Some((vs, r))
    ensures ReadItems(s) == Some(([v] + vs, r))
  {
    if vs == [] {
      assert tail[1..] == r && [v] + vs == [v];
    }
  }

  lemma MembersStep(s: string, f: (string, Tree), x: string, tail: string, fs: seq<(string, Tree)>, r: string)
    requires s != "" && s[0] == '"' && ReadString(s[1..]) == Some((f.0, ":" + x)) && ReadValue(x) == Some((f.1, tail))
    requires if fs == [] then tail == "}" + r else tail != "" && tail[0] == ',' && ReadMembers(tail[1..]) == Some((fs, r))
    ensures ReadMembers(s) == Some(([f] + fs, r))
  {
    assert (":" + x)[1..] == x;
    if fs == [] {
      assert tail[1..] == r && [f] + fs == [f];
    }
  }

  lemma {:induction false} ReadElems(xs: seq<Tree>, r: string)
    requires xs != [] && forall x :: x in xs ==> WellFormed(x)
    ensures ReadItems(PrintElems(xs) + ("]" + r)) == Some((xs, r))
    decreases xs, 1
  {
    assert xs[0] in xs;
    var tail := ElemsTail(xs, r);
    ElemsText(xs, r);
    ReadTree(xs[0], tail);
    if |xs| == 1 {
      assert xs == [xs[0]];
    } else {
      assert forall x :: x in xs[1..] ==> x in xs;
      ReadElems(xs[1..], r);
      assert xs == [xs[0]] + xs[1..];
    }
    ItemsStep(Print(xs[0]) + tail, xs[0], tail, xs[1..], r);
  }

  lemma {:induction false} ReadFields(fs: seq<(string, Tree)>, r: string)
    requires fs != [] && forall f :: f in fs ==> WellFormed(f.1)
    ensures ReadMembers(PrintFields(fs) + ("}" + r)) == Some((fs, r))
    decreases fs, 1
  {
    assert fs[0] in fs;
    var tail := FieldsTail(fs, r);
    FieldsText(fs, r);
    ReadField(fs[0], tail);
    if |fs| == 1 {
      assert fs == [fs[0]];
    } else {
      assert forall f :: f in fs[1..] ==> f in fs;
      ReadFields(fs[1..], r);
      assert fs == [fs[0]] + fs[1..];
    }
    MembersStep(PrintField(fs[0]) + tail, fs[0], Print(fs[0].1) + tail, tail, fs[1..], r);
  }

  /** A member is a name and, behind a colon, a value. */
  lemma {:induction false} ReadField(f: (string, Tree), tail: string)
    requires WellFormed(f.1) && EndsNumber(tail)
    ensures var s := PrintField(f) + tail;
            && s != "" && s[0] == '"' && ReadString(s[1..]) == Some((f.0, ":" + (Print(f.1) + tail)))
    ensures ReadValue(Print(f.1) + tail) == Some((f.1, tail))
    decreases f, 0
  {
    var after := ":" + (Print(f.1) + tail);
    assert PrintField(f) + tail == Quote(f.0) + after;
    ReadQuoted(f.0, after);
    ReadTree(f.1, tail);
  }

  lemma {:induction false} ArrangedValue(o: KeyOrder, j: Json)
    ensures ValueOf(Arrange(o, j)) == j
  {
    match j
    case Arr(xs) =>
      var ts := Arrange(o, j).elems;
      forall i | 0 <= i < |xs| ensures ValueOf(ts[i]) == xs[i] {
        ArrangedValue(o, xs[i]);
      }
      ElemsValues(ts, xs);
    case Obj(m) =>
      forall k | k in m ensures ValueOf(Arrange(o, m[k])) == m[k] {
        ArrangedValue(o, m[k]);
      }
      MembersBack(o, m);
    case _ =>
  }

  lemma MembersBack(o: KeyOrder, m: map<string, Json>)
    requires forall k :: k in m ==> ValueOf(Arrange(o, m[k])) == m[k]
    ensures MembersOf(Arrange(o, Obj(m)).fields) == m
  {
    var fs, ks := Arrange(o, Obj(m)).fields, SortNames(o, m.Keys);
    FieldsOf(o, m);
    assert forall i :: 0 <= i < |ks| ==> fs[i].0 == ks[i] && ValueOf(fs[i].1) == m[ks[i]];
    assert forall k :: k in m ==> k in ks;
    NamedMembers(fs, ks, m);
  }

  lemma NamedMembers(fs: seq<(string, Tree)>, ks: seq<string>, m: map<string, Json>)
    requires |fs| == |ks| && forall i :: 0 <= i < |ks| ==> ks[i] in m && fs[i].0 == ks[i] && ValueOf(fs[i].1) == m[ks[i]]
    requires forall k :: k in m ==> k in ks
    ensures MembersOf(fs) == m
  {
    FieldsValues(fs, m);
    forall k | k in m ensures k in MembersOf(fs) {
      var i :| 0 <= i < |ks| && ks[i] == k;
      assert fs[i].0 == k;
    }
  }

  lemma {:induction false} ElemsValues(ts: seq<Tree>, xs: seq<Json>)
    requires |ts| == |xs| && forall i :: 0 <= i < |xs| ==> ValueOf(ts[i]) == xs[i]
    ensures ValuesOf(ts) == xs
  {
    if ts != [] {
      ElemsValues(ts[1..], xs[1..]);
    }
  }

  lemma {:induction false} FieldsValues(fs: seq<(string, Tree)>, m: map<string, Json>)
    requires forall i :: 0 <= i < |fs| ==> fs[i].0 in m && ValueOf(fs[i].1) == m[fs[i].0]
    ensures forall k :: k in MembersOf(fs) <==> exists i :: 0 <= i < |fs| && fs[i].0 == k
    ensures forall k :: k in MembersOf(fs) ==> k in m && MembersOf(fs)[k] == m[k]
  {
    if fs != [] {
      FieldsValues(fs[1..], m);
      forall k ensures k in MembersOf(fs) <==> exists i :: 0 <= i < |fs| && fs[i].0 == k {
        if i :| 0 < i < |fs| && fs[i].0 == k {
          assert fs[1..][i - 1].0 == k;
        }
        if k in MembersOf(fs[1..]) {
          var i :| 0 <= i < |fs[1..]| && fs[1..][i].0 == k;
          assert fs[i + 1].0 == k;
        }
      }
    }
  }

  /** So printed trees in front of anything that ends a number split in only one way. */
  lemma TreeSplit(t: Tree, u: Tree, r: string, q: string)
    requires WellFormed(t) && WellFormed(u) && EndsNumber(r) && EndsNumber(q) && Print(t) + r == Print(u) + q
    ensures t == u && r == q
  {
    ReadTree(t, r);
    ReadTree(u, q);
  }

  /** The text of a value of any depth, in either member order and in front of anything
      that does not prolong a number, reads as that very value, its members in that order. */
  lemma DumpRead(o: KeyOrder, j: Json, r: string)
    requires EndsNumber(r)
    ensures ReadValue(Dump(o, j) + r) == Some((Arrange(o, j), r))
    ensures ValueOf(Arrange(o, j)) == j
  {
    ArrangeWellFormed(o, j);
    ArrangedValue(o, j);
    ReadTree(Arrange(o, j), r);
  }

  /** Equal text means equal value, with no assumption on depth, names or contents. */
  lemma DumpInjective(o: KeyOrder, a: Json, b: Json)
    requires Dump(o, a) == Dump(o, b)
    ensures a == b
  {
    DumpRead(o, a, "");
    DumpRead(o, b, "");
  }
}
