/** The canonical body of a message: JSON printed with sorted member names, no
    white space and minimal escaping. */
module Json {
  import Lex
  import Decimal

  /** A value as Python's json module represents it; an object is an unordered
      map, so equality of values is equality as maps at every depth. */
  datatype Json =
    | Null
    | Bool(b: bool)
    | Int(n: int)
    | Str(s: string)
    | Arr(items: seq<Json>)
    | Obj(members: map<string, Json>)

  // ---- Order of member names -------------------------------------------------

  datatype KeyOrder =
    | ByCodePoint   // Python's order on str, used by sort_keys
    | ByUtf16       // RFC 8785 section 3.2.3

  function CodePoints(s: string): seq<int> {
    if s == [] then [] else [s[0] as int] + CodePoints(s[1..])
  }

  predicate Astral(c: char) {
    c as int >= 0x10000
  }

  function CharUnits(c: char): seq<int> {
    if Astral(c)
    then [0xD800 + (c as int - 0x10000) / 0x400, 0xDC00 + (c as int - 0x10000) % 0x400]
    else [c as int]
  }

  function Utf16(s: string): seq<int> {
    if s == [] then [] else CharUnits(s[0]) + Utf16(s[1..])
  }

  function SortKey(o: KeyOrder, s: string): seq<int> {
    match o
    case ByCodePoint => CodePoints(s)
    case ByUtf16 => Utf16(s)
  }

  predicate Before(o: KeyOrder, a: string, b: string) {
    Lex.Less(SortKey(o, a), SortKey(o, b))
  }

  lemma {:induction false} SortKeyInjective(o: KeyOrder, a: string, b: string)
    requires SortKey(o, a) == SortKey(o, b)
    ensures a == b
  {
    if a != [] && b != [] {
      var ka, kb := SortKey(o, a), SortKey(o, b);
      var ra, rb := SortKey(o, a[1..]), SortKey(o, b[1..]);
      if o == ByCodePoint {
        assert ka[1..] == ra && kb[1..] == rb;
      } else {
        var ua, ub := CharUnits(a[0]), CharUnits(b[0]);
        assert ua[0] == ka[0] == kb[0] == ub[0];
        assert |ua| == |ub|;
        assert ua == ka[..|ua|] == kb[..|ub|] == ub;
        assert ra == ka[|ua|..] == kb[|ub|..] == rb;
      }
      SortKeyInjective(o, a[1..], b[1..]);
      assert a[0] == b[0];
      assert a == [a[0]] + a[1..] && b == [b[0]] + b[1..];
    }
  }

  ghost predicate Sorted(o: KeyOrder, ks: seq<string>) {
    forall i, j :: 0 <= i < j < |ks| ==> Before(o, ks[i], ks[j])
  }

  ghost predicate IsLeast(o: KeyOrder, k: string, ks: set<string>) {
    k in ks && forall x :: x in ks && x != k ==> Before(o, k, x)
  }

  lemma {:induction false} LeastExists(o: KeyOrder, ks: set<string>)
    requires ks != {}
    ensures exists k :: IsLeast(o, k, ks)
    decreases |ks|
  {
    var x :| x in ks;
    var rest := ks - {x};
    if rest == {} {
      assert ks == {x};
      assert IsLeast(o, x, ks);
    } else {
      LeastExists(o, rest);
      var m :| IsLeast(o, m, rest);
      var k := if Before(o, x, m) then x else m;
      forall y | y in ks && y != k
        ensures Before(o, k, y)
      {
        if k == x {
          if y != m { assert y in rest; Lex.Transitive(SortKey(o, x), SortKey(o, m), SortKey(o, y)); }
        } else if y == x {
          Lex.Total(SortKey(o, x), SortKey(o, m));
          if SortKey(o, x) == SortKey(o, m) { SortKeyInjective(o, x, m); }
        }
      }
      assert IsLeast(o, k, ks);
    }
  }

  ghost function Least(o: KeyOrder, ks: set<string>): (k: string)
    requires ks != {}
    ensures IsLeast(o, k, ks)
  {
    LeastExists(o, ks);
    var k :| IsLeast(o, k, ks);
    k
  }

  /** sorted(ks): each name once, ascending. */
  ghost function SortNames(o: KeyOrder, ks: set<string>): (r: seq<string>)
    ensures forall k :: k in r <==> k in ks
    ensures Sorted(o, r)
    decreases |ks|
  {
    if ks == {} then [] else
      var k := Least(o, ks);
      var r := SortNames(o, ks - {k});
      assert forall x :: x in [k] + r <==> x == k || x in r;
      assert forall i :: 0 <= i < |r| ==> r[i] in r && Before(o, k, r[i]);
      [k] + r
  }

  /** Ascending lists of the same names are the same list. */
  lemma {:induction false} SortedUnique(o: KeyOrder, xs: seq<string>, ys: seq<string>)
    requires Sorted(o, xs) && Sorted(o, ys)
    requires forall k :: k in xs <==> k in ys
    ensures xs == ys
  {
    assert ys != [] ==> ys[0] in ys;
    if xs != [] {
      assert xs[0] in ys;
      assert ys[0] in xs;
      if xs[0] != ys[0] {
        Lex.Asymmetric(SortKey(o, xs[0]), SortKey(o, ys[0]));
        assert false;
      }
      Lex.Irreflexive(SortKey(o, xs[0]));
      forall k
        ensures k in xs[1..] <==> k in ys[1..]
      {
        assert xs == [xs[0]] + xs[1..] && ys == [ys[0]] + ys[1..];
        assert k in xs <==> k in ys;
        assert xs[0] !in xs[1..];
        assert ys[0] !in ys[1..];
      }
      SortedUnique(o, xs[1..], ys[1..]);
      assert xs == [xs[0]] + xs[1..] && ys == [ys[0]] + ys[1..];
    }
  }

  // ---- Printing --------------------------------------------------------------

  /** A value with the member order fixed. */
  datatype Tree =
    | Leaf(value: Json)             // anything but an array or an object
    | List(elems: seq<Tree>)
    | Record(fields: seq<(string, Tree)>)

  ghost function Arrange(o: KeyOrder, j: Json): Tree {
    match j
    case Arr(xs) => List(seq(|xs|, i requires 0 <= i < |xs| => Arrange(o, xs[i])))
    case Obj(m) =>
      var ks := SortNames(o, m.Keys);
      Record(seq(|ks|, i requires 0 <= i < |ks| =>
        assert ks[i] in ks;
        (ks[i], Arrange(o, m[ks[i]]))))
    case _ => Leaf(j)
  }

  function HexDigit(d: nat): char
    requires d < 16
  {
    if d < 10 then '0' + d as char else 'a' + (d - 10) as char
  }

  /** RFC 8785 section 3.2.2.2; json.dumps with ensure_ascii=False. */
  function EscapeChar(c: char): string {
    if c == '"' then "\\\""
    else if c == '\\' then "\\\\"
    else if c == '\n' then "\\n"
    else if c == '\r' then "\\r"
    else if c == '\t' then "\\t"
    else if c == '\U{0008}' then "\\b"
    else if c == '\U{000C}' then "\\f"
    else if c as int < 0x20 then "\\u00" + [HexDigit(c as int / 16), HexDigit(c as int % 16)]
    else [c]
  }

  function Escape(s: string): string {
    if s == [] then [] else EscapeChar(s[0]) + Escape(s[1..])
  }

  function Quote(s: string): string {
    "\"" + (Escape(s) + "\"")
  }

  ghost predicate WellFormed(t: Tree) {
    match t
    case Leaf(v) => !v.Arr? && !v.Obj?
    case List(xs) => forall x :: x in xs ==> WellFormed(x)
    case Record(fs) => forall f :: f in fs ==> WellFormed(f.1)
  }

  function PrintLeaf(v: Json): string {
    match v
    case Null => "null"
    case Bool(b) => if b then "true" else "false"
    case Int(n) => Decimal.Show(n)
    case Str(s) => Quote(s)
    case _ => ""
  }

  function Print(t: Tree): string
    decreases t, 0
  {
    match t
    case Leaf(v) => PrintLeaf(v)
    case List(xs) => "[" + (PrintElems(xs) + "]")
    case Record(fs) => "{" + (PrintFields(fs) + "}")
  }

  function PrintElems(xs: seq<Tree>): string
    decreases xs, 1
  {
    if xs == [] then ""
    else if |xs| == 1 then Print(xs[0])
    else Print(xs[0]) + ("," + PrintElems(xs[1..]))
  }

  function PrintField(f: (string, Tree)): string
    decreases f, 1
  {
    Quote(f.0) + (":" + Print(f.1))
  }

  function PrintFields(fs: seq<(string, Tree)>): string
    decreases fs, 2
  {
    if fs == [] then ""
    else if |fs| == 1 then PrintField(fs[0])
    else PrintField(fs[0]) + ("," + PrintFields(fs[1..]))
  }

  // ---- The shape of the text -------------------------------------------------

  lemma EscapeCharLead(c: char)
    ensures EscapeChar(c) != "" && EscapeChar(c)[0] != '"'
    ensures |EscapeChar(c)| == if EscapeChar(c)[0] != '\\' then 1 else if EscapeChar(c)[1] == 'u' then 6 else 2
  {
  }

  lemma EscapeStep(s: string, x: string)
    ensures s == [] ==> Escape(s) + x == x
    ensures s != [] ==> Escape(s) + x == EscapeChar(s[0]) + (Escape(s[1..]) + x)
    ensures s != [] ==> (Escape(s) + x)[0] != '"'
  {
    if s != [] {
      EscapeCharLead(s[0]);
      var c, e := EscapeChar(s[0]), Escape(s[1..]);
      assert (c + e) + x == c + (e + x);
    }
  }

  lemma QuoteStep(s: string, r: string)
    ensures (Quote(s) + r)[1..] == Escape(s) + ("\"" + r)
  {
  }

  lemma {:induction false} ArrangeWellFormed(o: KeyOrder, j: Json)
    ensures WellFormed(Arrange(o, j))
  {
    match j
    case Arr(xs) =>
      forall i | 0 <= i < |xs| ensures WellFormed(Arrange(o, xs[i])) {
        ArrangeWellFormed(o, xs[i]);
      }
    case Obj(m) =>
      forall k | k in m ensures WellFormed(Arrange(o, m[k])) {
        ArrangeWellFormed(o, m[k]);
      }
    case _ =>
  }

  lemma FieldsOf(o: KeyOrder, m: map<string, Json>)
    ensures var fs, ks := Arrange(o, Obj(m)).fields, SortNames(o, m.Keys);
            |fs| == |ks| && forall i :: 0 <= i < |ks| ==> ks[i] in m && fs[i] == (ks[i], Arrange(o, m[ks[i]]))
  {
    var ks := SortNames(o, m.Keys);
    assert forall i :: 0 <= i < |ks| ==> ks[i] in ks;
  }

  /** json.dumps(j, sort_keys=True, separators=(",", ":"), ensure_ascii=False) when o is ByCodePoint. */
  ghost function Dump(o: KeyOrder, j: Json): string {
    Print(Arrange(o, j))
  }
}
