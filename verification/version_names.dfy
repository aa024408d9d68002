/** What parse_version finds in file names. */
module VersionNames {
  import opened Wrappers
  import opened Versions
  import Decimal

  /** v rendered with dots, as in a release's file name. */
  function Render(v: seq<nat>): string
    requires v != []
  {
    if |v| == 1 then Decimal.Digits(v[0]) else Decimal.Digits(v[0]) + ("." + Render(v[1..]))
  }

  predicate DotsAndDigits(s: string) {
    forall i :: 0 <= i < |s| ==> s[i] == '.' || Decimal.IsDigit(s[i])
  }

  // ---- Scanning --------------------------------------------------------------

  lemma RenderLead(v: seq<nat>)
    requires v != []
    ensures Render(v) != [] && Decimal.IsDigit(Render(v)[0])
  {
    Decimal.DigitsRead(v[0]);
  }

  /** r cannot prolong a version in front of it. */
  predicate Ends(r: string) {
    r == [] || (r[0] != '.' && !Decimal.IsDigit(r[0]))
  }

  lemma OneGroup(d: string, r: string, k: nat)
    requires k > 0 && d != [] && Decimal.AllDigits(d) && (r == [] || !Decimal.IsDigit(r[0]))
    ensures Groups("." + (d + r), k) == 1 + |d| + Groups(r, k - 1)
  {
    var s := "." + (d + r);
    Decimal.RunOfDigits(d, r);
    assert s[1..] == d + r && s[1] == d[0];
    assert s[1 + |d|..] == r;
  }

  lemma RenderStep(v: seq<nat>, r: string)
    requires |v| >= 2
    ensures Render(v) + r == Decimal.Digits(v[0]) + ("." + (Render(v[1..]) + r))
    ensures |Render(v)| == |Decimal.Digits(v[0])| + 1 + |Render(v[1..])|
  {
  }

  /** n characters of groups at the front of s, as the scan finds them. */
  predicate Scans(s: string, k: nat, n: nat) {
    Groups(s, k) == n
  }

  lemma LastGroup(n: nat, r: string, k: nat)
    requires k > 0 && Ends(r)
    ensures Scans("." + (Decimal.Digits(n) + r), k, 1 + |Decimal.Digits(n)|)
  {
    Decimal.DigitsRead(n);
    OneGroup(Decimal.Digits(n), r, k);
  }

  lemma MoreGroups(n: nat, rest: string, m: nat, k: nat)
    requires k > 0 && Scans("." + rest, k - 1, m)
    ensures Scans("." + (Decimal.Digits(n) + ("." + rest)), k, 1 + |Decimal.Digits(n)| + m)
  {
    Decimal.DigitsRead(n);
    OneGroup(Decimal.Digits(n), "." + rest, k);
  }

  lemma {:induction false} GroupsOfRender(v: seq<nat>, r: string, k: nat)
    requires v != [] && |v| <= k && Ends(r)
    ensures Scans("." + (Render(v) + r), k, 1 + |Render(v)|)
    decreases k
  {
    if |v| == 1 {
      LastGroup(v[0], r, k);
    } else {
      RenderStep(v, r);
      GroupsOfRender(v[1..], r, k - 1);
      MoreGroups(v[0], Render(v[1..]) + r, 1 + |Render(v[1..])|, k);
    }
  }

  lemma MatchOf(d: string, r: string)
    requires Decimal.AllDigits(d) && (r == [] || !Decimal.IsDigit(r[0]))
    ensures MatchLen(d + r) == |d| + Groups(r, 3)
  {
    Decimal.RunOfDigits(d, r);
    assert (d + r)[|d|..] == r;
  }

  lemma MatchOfRender(v: seq<nat>, r: string)
    requires 1 <= |v| <= 4 && Ends(r)
    ensures MatchLen(Render(v) + r) == |Render(v)|
  {
    var d := Decimal.Digits(v[0]);
    Decimal.DigitsRead(v[0]);
    if |v| == 1 {
      MatchOf(d, r);
    } else {
      var rest := "." + (Render(v[1..]) + r);
      RenderStep(v, r);
      MatchOf(d, rest);
      GroupsOfRender(v[1..], r, 3);
    }
  }

  /** A rendered version is one whole match. */
  lemma FindAllLead(v: seq<nat>, r: string)
    requires 1 <= |v| <= 4 && Ends(r)
    ensures FindAll(Render(v) + r) == [Render(v)] + FindAll(r)
  {
    var s := Render(v) + r;
    RenderLead(v);
    MatchOfRender(v, r);
    assert s[0] == Render(v)[0];
    assert s[..|Render(v)|] == Render(v) && s[|Render(v)|..] == r;
  }

  /** The prefix cannot run into what follows it. */
  predicate Separates(prefix: string) {
    prefix == [] || (prefix[|prefix| - 1] != '.' && !Decimal.IsDigit(prefix[|prefix| - 1]))
  }

  lemma {:induction false} RunStays(p: string, r: string)
    requires p != [] && !Decimal.IsDigit(p[|p| - 1])
    ensures Decimal.DigitRun(p + r) == Decimal.DigitRun(p) < |p|
  {
    assert (p + r)[0] == p[0];
    if Decimal.IsDigit(p[0]) {
      assert (p + r)[1..] == p[1..] + r;
      RunStays(p[1..], r);
    }
  }

  lemma {:induction false} GroupsStay(p: string, r: string, k: nat)
    requires p != [] && Separates(p)
    ensures Groups(p + r, k) == Groups(p, k) < |p|
    decreases k
  {
    assert (p + r)[0] == p[0];
    assert |p| >= 2 ==> (p + r)[1] == p[1];
    if k > 0 && |p| >= 2 && p[0] == '.' && Decimal.IsDigit(p[1]) {
      assert (p + r)[1..] == p[1..] + r;
      RunStays(p[1..], r);
      var n := 1 + Decimal.DigitRun(p[1..]);
      assert (p + r)[n..] == p[n..] + r;
      GroupsStay(p[n..], r, k - 1);
    }
  }

  lemma MatchStays(p: string, r: string)
    requires p != [] && Separates(p)
    ensures MatchLen(p + r) == MatchLen(p) < |p|
  {
    var d := Decimal.DigitRun(p);
    RunStays(p, r);
    assert (p + r)[d..] == p[d..] + r;
    GroupsStay(p[d..], r, 3);
  }

  lemma TakeMatch(s: string)
    requires s != [] && Decimal.IsDigit(s[0])
    ensures FindAll(s) == [s[..MatchLen(s)]] + FindAll(s[MatchLen(s)..])
  {
  }

  /** The matches in a separating prefix are the same whatever follows. */
  lemma {:induction false} FindAllAppend(p: string, r: string)
    requires Separates(p)
    ensures FindAll(p + r) == FindAll(p) + FindAll(r)
    decreases |p|
  {
    if p == [] {
      assert p + r == r;
    } else if Decimal.IsDigit(p[0]) {
      var n := MatchLen(p);
      MatchStays(p, r);
      TakeMatch(p);
      TakeMatch(p + r);
      assert (p + r)[..n] == p[..n] && (p + r)[n..] == p[n..] + r;
      FindAllAppend(p[n..], r);
    } else {
      assert (p + r)[1..] == p[1..] + r;
      FindAllAppend(p[1..], r);
    }
  }

  lemma FindAllRender(prefix: string, v: seq<nat>)
    requires Separates(prefix) && 1 <= |v| <= 4
    ensures FindAll(prefix + Render(v)) == FindAll(prefix) + [Render(v)]
  {
    FindAllLead(v, "");
    assert Render(v) + "" == Render(v);
    FindAllAppend(prefix, Render(v));
  }

  // ---- Reading the parts back ------------------------------------------------

  lemma {:induction false} OnlyDigitsOf(d: string)
    requires Decimal.AllDigits(d)
    ensures OnlyDigits(d) == d
  {
    if d != [] {
      OnlyDigitsOf(d[..|d| - 1]);
      assert d == d[..|d| - 1] + [d[|d| - 1]];
    }
  }

  lemma NothingToStrip(d: string)
    requires Decimal.AllDigits(d)
    ensures StripLeft(d) == d && StripRight(d) == d
  {
  }

  lemma PartOfRun(d: string)
    requires d != [] && Decimal.AllDigits(d)
    ensures PartValue(d) == Decimal.Value(d)
  {
    OnlyDigitsOf(d);
    NothingToStrip(d);
    assert Decimal.IsDigit(d[0]) && Decimal.IsDigit(d[|d| - 1]);
    assert IsNumeral(d);
  }

  lemma PartOfDigits(n: nat)
    ensures PartValue(Decimal.Digits(n)) == n
  {
    var d := Decimal.Digits(n);
    Decimal.DigitsRead(n);
    PartOfRun(d);
  }

  lemma {:induction false} SplitDigits(d: string, r: string)
    requires Decimal.AllDigits(d)
    ensures SplitDots(d + r) == [d + SplitDots(r)[0]] + SplitDots(r)[1..]
  {
    var s := SplitDots(r);
    assert s == [s[0]] + s[1..];
    if d == [] {
      assert d + r == r && d + s[0] == s[0];
    } else {
      assert (d + r)[0] == d[0] && (d + r)[1..] == d[1..] + r;
      SplitDigits(d[1..], r);
      assert [d[0]] + (d[1..] + s[0]) == d + s[0];
    }
  }

  lemma {:induction false} ValuesConcat(ps: seq<string>, qs: seq<string>)
    ensures Values(ps + qs) == Values(ps) + Values(qs)
  {
    if qs == [] {
      assert ps + qs == ps;
    } else {
      var all, init, q := ps + qs, qs[..|qs| - 1], qs[|qs| - 1];
      assert all[..|all| - 1] == ps + init && all[|all| - 1] == q;
      ValuesConcat(ps, init);
      assert Values(all) == Values(ps + init) + [PartValue(q)];
    }
  }

  lemma {:induction false} TupleOfRender(v: seq<nat>)
    requires v != []
    ensures VersionTuple(Render(v)) == v
  {
    var d := Decimal.Digits(v[0]);
    Decimal.DigitsRead(v[0]);
    PartOfDigits(v[0]);
    if |v| == 1 {
      SplitDigits(d, []);
      assert d + [] == d;
      assert Values([d]) == [PartValue(d)] by { assert [d][..0] == []; }
    } else {
      var rest := Render(v[1..]);
      SplitDigits(d, "." + rest);
      assert ("." + rest)[1..] == rest;
      assert SplitDots("." + rest) == [""] + SplitDots(rest);
      assert SplitDots(Render(v)) == [d] + SplitDots(rest) by { assert d + "" == d; }
      ValuesConcat([d], SplitDots(rest));
      assert Values([d]) == [PartValue(d)] by { assert [d][..0] == []; }
      TupleOfRender(v[1..]);
    }
  }

  lemma DottedRender(v: seq<nat>)
    requires v != []
    ensures '.' in Render(v) <==> |v| >= 2
  {
    Decimal.DigitsRead(v[0]);
    if |v| >= 2 {
      assert Render(v)[|Decimal.Digits(v[0])|] == '.';
    }
  }

  /** A version of two to four fields behind any separating prefix is read back
      exactly, whatever other numbers the prefix holds. */
  lemma VersionRoundTrip(prefix: string, v: seq<nat>)
    requires Separates(prefix) && 2 <= |v| <= 4
    ensures ParseVersion(prefix + Render(v)) == Some(Render(v))
    ensures VersionTuple(ParseVersion(prefix + Render(v)).value) == v
  {
    FindAllRender(prefix, v);
    DottedRender(v);
    TupleOfRender(v);
    var ms := FindAll(prefix + Render(v));
    assert ms[..|ms| - 1] == FindAll(prefix);
  }

  /** A version of one field is read back if and only if the prefix holds no dotted number. */
  lemma SingleFieldExact(prefix: string, n: nat)
    requires Separates(prefix)
    ensures ParseVersion(prefix + Decimal.Digits(n)) == Some(Decimal.Digits(n)) <==> Dotted(FindAll(prefix)) == []
  {
    FindAllRender(prefix, [n]);
    DottedRender([n]);
    var ms := FindAll(prefix + Decimal.Digits(n));
    assert ms[..|ms| - 1] == FindAll(prefix);
    DottedOnly(FindAll(prefix));
  }

  lemma {:induction false} DottedOnly(ms: seq<string>)
    ensures forall m :: m in Dotted(ms) ==> '.' in m && m in ms
  {
    if ms != [] {
      DottedOnly(ms[..|ms| - 1]);
      assert ms == ms[..|ms| - 1] + [ms[|ms| - 1]];
    }
  }

  lemma {:induction false} DottedConcat(ms: seq<string>, ns: seq<string>)
    ensures Dotted(ms + ns) == Dotted(ms) + Dotted(ns)
  {
    if ns == [] {
      assert ms + ns == ms;
    } else {
      assert (ms + ns)[..|ms + ns| - 1] == ms + ns[..|ns| - 1];
      DottedConcat(ms, ns[..|ns| - 1]);
    }
  }

  /** Whatever the name: where it holds a dotted number, the first one is its
      version if and only if the last one reads the same. */
  lemma FirstDottedIff(name: string)
    requires Dotted(FindAll(name)) != []
    ensures var ds := Dotted(FindAll(name));
            ParseVersion(name) == Some(ds[0]) <==> ds[0] == ds[|ds| - 1]
  {
    assert FindAll(name) != [];
  }

  /** Between two dotted versions anything may stand that touches neither, more
      versions included, and behind the second one any ending without dotted
      numbers: the first one is the version if and only if it equals the last. */
  lemma FirstDottedExact(p: string, v: seq<nat>, q: string, w: seq<nat>, r: string)
    requires Separates(p) && Dotted(FindAll(p)) == []
    requires 2 <= |v| <= 4 && 2 <= |w| <= 4 && q != "" && Ends(q) && Separates(q)
    requires Ends(r) && Dotted(FindAll(r)) == []
    ensures var name := p + (Render(v) + (q + (Render(w) + r)));
            && Dotted(FindAll(name)) != [] && Dotted(FindAll(name))[0] == Render(v)
            && ParseVersion(name) == Some(Render(w))
            && (ParseVersion(name) == Some(Render(v)) <==> v == w)
  {
    var last := Render(w) + r;
    var name := p + (Render(v) + (q + last));
    FindAllLead(w, r);
    FindAllAppend(q, last);
    FindAllLead(v, q + last);
    FindAllAppend(p, Render(v) + (q + last));
    DottedRender(v);
    DottedRender(w);
    LastOfDotted(FindAll(q), Render(w), FindAll(r));
    FirstOfDotted(FindAll(p), Render(v), FindAll(q) + ([Render(w)] + FindAll(r)));
    FirstDottedIff(name);
    TupleOfRender(v);
    TupleOfRender(w);
  }

  lemma FirstOfDotted(ms: seq<string>, m: string, ns: seq<string>)
    requires Dotted(ms) == [] && '.' in m
    ensures Dotted(ms + ([m] + ns)) == [m] + Dotted(ns)
  {
    DottedConcat(ms, [m] + ns);
    DottedConcat([m], ns);
    OneDotted(m);
  }

  lemma LastOfDotted(ms: seq<string>, m: string, ns: seq<string>)
    requires Dotted(ns) == [] && '.' in m
    ensures Dotted(ms + ([m] + ns)) == Dotted(ms) + [m]
  {
    DottedConcat(ms, [m] + ns);
    DottedConcat([m], ns);
    OneDotted(m);
  }

  /** Two different versions with a hyphen between: the first dotted number is not the version. */
  lemma LastDottedWins(v: seq<nat>, w: seq<nat>)
    requires 2 <= |v| <= 4 && 2 <= |w| <= 4 && v != w
    ensures var name := Render(v) + ("-" + Render(w));
            && Dotted(FindAll(name)) != [] && Dotted(FindAll(name))[0] == Render(v)
            && ParseVersion(name) == Some(Render(w)) != Some(Render(v))
  {
    FirstDottedExact("", v, "-", w, "");
    assert Render(w) + "" == Render(w);
    assert "" + (Render(v) + ("-" + Render(w))) == Render(v) + ("-" + Render(w));
  }

  lemma OneDotted(m: string)
    requires '.' in m
    ensures Dotted([m]) == [m]
  {
    assert [m][..0] == [];
  }

  // ---- At most four fields, and parts that are no plain numbers --------------

  /** With as many groups as it may have, a version ends at the next dot. */
  lemma {:induction false} GroupsFull(v: seq<nat>, r: string, k: nat)
    requires v != [] && |v| == k && (r == [] || !Decimal.IsDigit(r[0]))
    ensures Scans("." + (Render(v) + r), k, 1 + |Render(v)|)
    decreases k
  {
    if |v| == 1 {
      Decimal.DigitsRead(v[0]);
      OneGroup(Decimal.Digits(v[0]), r, k);
    } else {
      RenderStep(v, r);
      GroupsFull(v[1..], r, k - 1);
      MoreGroups(v[0], Render(v[1..]) + r, 1 + |Render(v[1..])|, k);
    }
  }

  lemma FourMatch(v: seq<nat>, d: string)
    requires |v| == 4
    ensures MatchLen(Render(v) + ("." + d)) == |Render(v)|
  {
    Decimal.DigitsRead(v[0]);
    RenderStep(v, "." + d);
    MatchOf(Decimal.Digits(v[0]), "." + (Render(v[1..]) + ("." + d)));
    GroupsFull(v[1..], "." + d, 3);
  }

  lemma FourFound(v: seq<nat>, w: nat)
    requires |v| == 4
    ensures FindAll(Render(v) + ("." + Decimal.Digits(w))) == [Render(v), Decimal.Digits(w)]
  {
    var d, s := Decimal.Digits(w), Render(v) + ("." + Decimal.Digits(w));
    RenderLead(v);
    FourMatch(v, d);
    assert s[0] == Render(v)[0];
    TakeMatch(s);
    assert s[..|Render(v)|] == Render(v) && s[|Render(v)|..] == "." + d;
    LeadingDot(d);
    FindAllLead([w], "");
    assert Render([w]) + "" == d;
  }

  /** Of a version with five fields the first four are found. */
  lemma FourFields(v: seq<nat>, w: nat)
    requires |v| == 4
    ensures ParseVersion(Render(v) + ("." + Decimal.Digits(w))) == Some(Render(v))
  {
    var d := Decimal.Digits(w);
    FourFound(v, w);
    DottedRender(v);
    DottedRender([w]);
    DottedConcat([Render(v)], [d]);
    OneDotted(Render(v));
    assert [d][..0] == [] && Dotted([d]) == [];
    assert [Render(v), d] == [Render(v)] + [d];
  }

  lemma LeadingDot(d: string)
    ensures FindAll("." + d) == FindAll(d)
  {
    assert ("." + d)[1..] == d;
  }

  /** A part that holds any character but digits, signs, underscores and whitespace counts 0. */
  lemma NoNumber(p: string, c: char)
    requires c in p && !Decimal.IsDigit(c) && c != '_' && c != '+' && c != '-' && !IsSpace(c)
    ensures PartValue(p) == 0
  {
    StripKeeps(p, c);
    var s := StripRight(StripLeft(p));
    assert c in s;
    if s[0] == '+' || s[0] == '-' {
      assert s == [s[0]] + s[1..];
      NotNumeral(s[1..], c);
    } else {
      NotNumeral(s, c);
    }
  }

  lemma NumeralChars(s: string)
    requires IsNumeral(s)
    ensures forall i :: 0 <= i < |s| ==> Decimal.IsDigit(s[i]) || s[i] == '_'
  {
    forall i | 0 <= i < |s| ensures Decimal.IsDigit(s[i]) || s[i] == '_' {
      if 0 < i < |s| - 1 {
        assert InNumeral(s, i);
      }
    }
  }

  lemma NotNumeral(s: string, c: char)
    requires c in s && !Decimal.IsDigit(c) && c != '_'
    ensures !IsNumeral(s)
  {
    if IsNumeral(s) {
      NumeralChars(s);
    }
  }

  lemma {:induction false} StripLeftKeeps(p: string, c: char)
    requires c in p && !IsSpace(c)
    ensures c in StripLeft(p)
    decreases |p|
  {
    if IsSpace(p[0]) {
      assert p == [p[0]] + p[1..];
      StripLeftKeeps(p[1..], c);
    }
  }

  lemma {:induction false} StripRightKeeps(p: string, c: char)
    requires c in p && !IsSpace(c)
    ensures c in StripRight(p)
    decreases |p|
  {
    if IsSpace(p[|p| - 1]) {
      assert p == p[..|p| - 1] + [p[|p| - 1]];
      StripRightKeeps(p[..|p| - 1], c);
    }
  }

  lemma StripKeeps(p: string, c: char)
    requires c in p && !IsSpace(c)
    ensures c in StripRight(StripLeft(p))
  {
    StripLeftKeeps(p, c);
    StripRightKeeps(StripLeft(p), c);
  }

  /** The other forms int() reads: a sign, one underscore between digits, whitespace
      around; an empty part counts 0. */
  lemma OtherNumbers(d: string, e: string, space: char)
    requires Decimal.AllDigits(d) && Decimal.AllDigits(e) && d != "" && e != ""
    requires space in [' ', '\t', '\n', '\r', '\U{000B}', '\U{000C}', '\U{001C}', '\U{001D}', '\U{001E}', '\U{001F}']
    ensures PartValue("") == 0
    ensures PartValue(['-'] + d) == -Decimal.Value(d) && PartValue(['+'] + d) == Decimal.Value(d)
    ensures PartValue(d + ("_" + e)) == Decimal.Value(d + e)
    ensures PartValue([space] + (d + [space])) == Decimal.Value(d)
  {
    Signed('-', d);
    Signed('+', d);
    Underscored(d, e);
    SpaceIs(space);
    Spaced(d, space);
  }

  lemma SpaceIs(c: char)
    ensures IsSpace(c) <==>
      c in [' ', '\t', '\n', '\r', '\U{000B}', '\U{000C}', '\U{001C}', '\U{001D}', '\U{001E}', '\U{001F}']
  {
  }

  lemma PartPlain(p: string, body: string)
    requires StripRight(StripLeft(p)) == body && IsNumeral(body)
    ensures PartValue(p) == Decimal.Value(OnlyDigits(body))
  {
  }

  lemma PartSigned(p: string, sign: char, body: string)
    requires StripRight(StripLeft(p)) == [sign] + body && IsNumeral(body) && (sign == '-' || sign == '+')
    ensures PartValue(p) == if sign == '-' then -Decimal.Value(OnlyDigits(body)) else Decimal.Value(OnlyDigits(body))
  {
    assert ([sign] + body)[1..] == body;
  }

  lemma NotStripped(s: string)
    requires s != "" && !IsSpace(s[0]) && !IsSpace(s[|s| - 1])
    ensures StripRight(StripLeft(s)) == s
  {
  }

  lemma DigitsNumeral(d: string)
    requires Decimal.AllDigits(d) && d != ""
    ensures IsNumeral(d) && OnlyDigits(d) == d
  {
    OnlyDigitsOf(d);
    assert Decimal.IsDigit(d[0]) && Decimal.IsDigit(d[|d| - 1]);
  }

  lemma Signed(sign: char, d: string)
    requires (sign == '-' || sign == '+') && Decimal.AllDigits(d) && d != ""
    ensures PartValue([sign] + d) == if sign == '-' then -Decimal.Value(d) else Decimal.Value(d)
  {
    DigitsNumeral(d);
    assert ([sign] + d)[|d|] == d[|d| - 1] && Decimal.IsDigit(d[|d| - 1]);
    assert !IsSpace('-') && !IsSpace('+');
    NotStripped([sign] + d);
    PartSigned([sign] + d, sign, d);
  }

  lemma {:induction false} OnlyDigitsConcat(a: string, b: string)
    ensures OnlyDigits(a + b) == OnlyDigits(a) + OnlyDigits(b)
  {
    if b == "" {
      assert a + b == a;
    } else {
      assert (a + b)[..|a + b| - 1] == a + b[..|b| - 1];
      OnlyDigitsConcat(a, b[..|b| - 1]);
    }
  }

  lemma UnderscoredNumeral(d: string, e: string)
    requires Decimal.AllDigits(d) && Decimal.AllDigits(e) && d != "" && e != ""
    ensures var s := d + ("_" + e); IsNumeral(s) && !IsSpace(s[0]) && !IsSpace(s[|s| - 1])
  {
    var s := d + ("_" + e);
    assert s[|d|] == '_';
    assert forall i :: 0 <= i < |d| ==> s[i] == d[i] && Decimal.IsDigit(s[i]);
    assert forall i :: |d| < i < |s| ==> s[i] == e[i - |d| - 1] && Decimal.IsDigit(s[i]);
  }

  lemma Underscored(d: string, e: string)
    requires Decimal.AllDigits(d) && Decimal.AllDigits(e) && d != "" && e != ""
    ensures PartValue(d + ("_" + e)) == Decimal.Value(d + e)
  {
    var s := d + ("_" + e);
    UnderscoredNumeral(d, e);
    NotStripped(s);
    PartPlain(s, s);
    UnderscoredDigits(d, e);
  }

  lemma UnderscoredDigits(d: string, e: string)
    requires Decimal.AllDigits(d) && Decimal.AllDigits(e)
    ensures OnlyDigits(d + ("_" + e)) == d + e
  {
    OnlyDigitsConcat(d, "_" + e);
    OnlyDigitsConcat("_", e);
    OnlyDigitsOf(d);
    OnlyDigitsOf(e);
    NoDigits("_");
    assert "" + e == e;
  }

  lemma NoDigits(s: string)
    requires |s| == 1 && !Decimal.IsDigit(s[0])
    ensures OnlyDigits(s) == ""
  {
    assert s[..0] == "";
  }

  lemma Spaced(d: string, space: char)
    requires Decimal.AllDigits(d) && d != "" && IsSpace(space)
    ensures PartValue([space] + (d + [space])) == Decimal.Value(d)
  {
    DigitsNumeral(d);
    StripBoth(d, space);
    PartPlain([space] + (d + [space]), d);
  }

  lemma StripBoth(d: string, space: char)
    requires Decimal.AllDigits(d) && d != "" && IsSpace(space)
    ensures StripRight(StripLeft([space] + (d + [space]))) == d
  {
    var s, t := [space] + (d + [space]), d + [space];
    assert s[1..] == t && t[0] == d[0] && Decimal.IsDigit(d[0]);
    assert StripLeft(s) == StripLeft(t);
    assert StripLeft(t) == t;
    assert t[..|d|] == d;
    NothingToStrip(d);
  }

  // ---- Versions found in names are tuples of naturals ------------------------

  lemma {:induction false} RunIsDigits(s: string)
    ensures Decimal.AllDigits(s[..Decimal.DigitRun(s)])
  {
    if s != [] && Decimal.IsDigit(s[0]) {
      RunIsDigits(s[1..]);
      assert forall i :: 0 < i < Decimal.DigitRun(s) ==> s[i] == s[1..][i - 1];
    }
  }

  lemma {:induction false} GroupsAreDotsAndDigits(s: string, k: nat)
    ensures DotsAndDigits(s[..Groups(s, k)])
    decreases k
  {
    if k > 0 && |s| >= 2 && s[0] == '.' && Decimal.IsDigit(s[1]) {
      var n := 1 + Decimal.DigitRun(s[1..]);
      RunIsDigits(s[1..]);
      GroupsAreDotsAndDigits(s[n..], k - 1);
      var g := Groups(s, k);
      forall i | 0 <= i < g ensures s[i] == '.' || Decimal.IsDigit(s[i]) {
        if 0 < i < n {
          assert s[i] == s[1..][i - 1];
        } else if i >= n {
          assert s[i] == s[n..][i - n];
        }
      }
    }
  }

  lemma MatchIsDotsAndDigits(s: string)
    ensures DotsAndDigits(s[..MatchLen(s)])
  {
    var d := Decimal.DigitRun(s);
    RunIsDigits(s);
    GroupsAreDotsAndDigits(s[d..], 3);
    forall i | 0 <= i < MatchLen(s) ensures s[i] == '.' || Decimal.IsDigit(s[i]) {
      assert i >= d ==> s[i] == s[d..][i - d];
      assert i < d ==> s[i] == s[..d][i];
    }
  }

  lemma {:induction false} MatchesAreDotsAndDigits(s: string)
    ensures forall m :: m in FindAll(s) ==> DotsAndDigits(m) && m != ""
    decreases |s|
  {
    if s != [] {
      if Decimal.IsDigit(s[0]) {
        MatchIsDotsAndDigits(s);
        MatchesAreDotsAndDigits(s[MatchLen(s)..]);
      } else {
        MatchesAreDotsAndDigits(s[1..]);
      }
    }
  }

  lemma {:induction false} PartsAreDigits(s: string)
    requires DotsAndDigits(s)
    ensures forall p :: p in SplitDots(s) ==> Decimal.AllDigits(p)
  {
    if s != [] {
      PartsAreDigits(s[1..]);
      var rest := SplitDots(s[1..]);
      assert rest[0] in rest;
      assert forall p :: p in rest[1..] ==> p in rest;
    }
  }

  lemma {:induction false} ValueNatural(d: string)
    requires Decimal.AllDigits(d)
    ensures Decimal.Value(d) >= 0
  {
    if d != [] {
      ValueNatural(d[..|d| - 1]);
    }
  }

  lemma {:induction false} ValuesNatural(ps: seq<string>)
    requires forall p :: p in ps ==> Decimal.AllDigits(p)
    ensures Natural(Values(ps))
  {
    if ps != [] {
      var p := ps[|ps| - 1];
      ValuesNatural(ps[..|ps| - 1]);
      assert p in ps;
      OnlyDigitsOf(p);
      ValueNatural(p);
      NothingToStrip(p);
    }
  }

  lemma ParsedNatural(name: string)
    requires ParseVersion(name).Some?
    ensures ParseVersion(name).value != "" && Natural(VersionTuple(ParseVersion(name).value))
  {
    var ver := ParseVersion(name).value;
    MatchesAreDotsAndDigits(name);
    DottedOnly(FindAll(name));
    var ds := Dotted(FindAll(name));
    assert ds != [] ==> ds[|ds| - 1] in ds;
    PartsAreDigits(ver);
    ValuesNatural(SplitDots(ver));
  }
}
