/** Where the member order of the canonical text is the one of RFC 8785, and where not. */
module Jcs {
  import opened Json
  import opened JsonReader
  import Lex

  /** At their first difference one name has a character above U+FFFF and the
      other one between U+E000 and U+FFFF. */
  predicate Crossing(a: string, b: string) {
    && a != []
    && b != []
    && (a[0] == b[0] ==> Crossing(a[1..], b[1..]))
    && (a[0] != b[0] ==> Astral(a[0]) != Astral(b[0]) && (if Astral(a[0]) then b[0] else a[0]) as int >= 0xE000)
  }

  /** The two orders disagree on exactly the crossing pairs. */
  lemma {:induction false} OrdersDiffer(a: string, b: string)
    ensures Before(ByUtf16, a, b) != Before(ByCodePoint, a, b) <==> Crossing(a, b)
  {
    if a != [] && b != [] {
      if a[0] == b[0] {
        OrdersDiffer(a[1..], b[1..]);
        Lex.DropPrefix(CharUnits(a[0]), Utf16(a[1..]), Utf16(b[1..]));
        Lex.DropPrefix([a[0] as int], CodePoints(a[1..]), CodePoints(b[1..]));
      } else {
        UnitsOrder(a[0], b[0], Utf16(a[1..]), Utf16(b[1..]));
      }
    }
  }

  /** Different characters are ordered alike by code point and by units, unless
      exactly one is above U+FFFF and the other above the surrogates. */
  lemma UnitsOrder(c: char, d: char, x: seq<int>, y: seq<int>)
    requires c != d
    ensures Lex.Less(CharUnits(c) + x, CharUnits(d) + y)
       <==> (c < d) != (Astral(c) != Astral(d) && (if Astral(c) then d else c) as int >= 0xE000)
  {
    var u, v := CharUnits(c), CharUnits(d);
    assert (u + x)[0] == u[0] && (v + y)[0] == v[0];
    if Astral(c) && Astral(d) {
      var i, j := c as int - 0x10000, d as int - 0x10000;
      assert (u + x)[1..][0] == u[1] && (v + y)[1..][0] == v[1];
      assert i < j <==> i / 0x400 < j / 0x400 || (i / 0x400 == j / 0x400 && i % 0x400 < j % 0x400);
    }
  }

  /** No object anywhere in the value has two crossing member names. */
  ghost predicate NoCrossing(j: Json) {
    match j
    case Arr(xs) => forall x :: x in xs ==> NoCrossing(x)
    case Obj(m) =>
      NamesUncrossed(m) && forall k :: k in m ==> NoCrossing(m[k])
    case _ => true
  }

  ghost predicate NamesUncrossed(m: map<string, Json>) {
    forall k, l :: k in m && l in m ==> !Crossing(k, l)
  }

  /** In an ascending list, one name is before another if and only if it stands before it. */
  lemma BeforeInList(o: KeyOrder, xs: seq<string>, k: string, l: string)
    requires Sorted(o, xs) && k in xs && l in xs
    ensures Before(o, k, l) <==> exists i, j :: 0 <= i < j < |xs| && xs[i] == k && xs[j] == l
  {
    var i :| 0 <= i < |xs| && xs[i] == k;
    var j :| 0 <= j < |xs| && xs[j] == l;
    if Before(o, k, l) && j <= i {
      if j == i { Lex.Irreflexive(SortKey(o, k)); } else { Lex.Asymmetric(SortKey(o, k), SortKey(o, l)); }
      assert false;
    }
  }

  lemma NamesAgree(ks: set<string>)
    requires forall k, l :: k in ks && l in ks ==> !Crossing(k, l)
    ensures SortNames(ByUtf16, ks) == SortNames(ByCodePoint, ks)
  {
    Resorted(SortNames(ByUtf16, ks));
    SortedUnique(ByCodePoint, SortNames(ByUtf16, ks), SortNames(ByCodePoint, ks));
  }

  lemma NamesDiffer(ks: set<string>, k: string, l: string)
    requires k in ks && l in ks && Crossing(k, l)
    ensures SortNames(ByUtf16, ks) != SortNames(ByCodePoint, ks)
  {
    if SortNames(ByUtf16, ks) == SortNames(ByCodePoint, ks) {
      SortedBothWays(SortNames(ByUtf16, ks), k, l);
    }
  }

  lemma SortedBothWays(xs: seq<string>, k: string, l: string)
    requires Sorted(ByUtf16, xs) && Sorted(ByCodePoint, xs) && k in xs && l in xs
    ensures !Crossing(k, l)
  {
    OrdersDiffer(k, l);
    BeforeInList(ByUtf16, xs, k, l);
    BeforeInList(ByCodePoint, xs, k, l);
  }

  lemma Resorted(xs: seq<string>)
    requires Sorted(ByUtf16, xs)
    requires forall k, l :: k in xs && l in xs ==> !Crossing(k, l)
    ensures Sorted(ByCodePoint, xs)
  {
    forall i, j | 0 <= i < j < |xs| ensures Before(ByCodePoint, xs[i], xs[j]) {
      OrdersDiffer(xs[i], xs[j]);
    }
  }

  lemma {:induction false} ArrangeAgree(j: Json)
    ensures Arrange(ByCodePoint, j) == Arrange(ByUtf16, j) <==> NoCrossing(j)
  {
    match j
    case Arr(xs) =>
      forall x | x in xs
        ensures ArrangedAlike(x) <==> NoCrossing(x)
      {
        ArrangeAgree(x);
      }
      ElemsAgree(xs);
      assert NoCrossing(j) <==> forall x :: x in xs ==> NoCrossing(x);
    case Obj(m) =>
      forall k | k in m
        ensures ArrangedAlike(m[k]) <==> NoCrossing(m[k])
      {
        ArrangeAgree(m[k]);
      }
      if NamesUncrossed(m) && forall k :: k in m ==> ArrangedAlike(m[k]) { FieldsAgree(m); }
      FieldsDisagree(m);
      assert NoCrossing(j) <==> NamesUncrossed(m) && forall k :: k in m ==> NoCrossing(m[k]);
    case _ =>
  }

  ghost predicate ArrangedAlike(j: Json) {
    Arrange(ByCodePoint, j) == Arrange(ByUtf16, j)
  }

  lemma ElemsAgree(xs: seq<Json>)
    ensures ArrangedAlike(Arr(xs)) <==> forall x :: x in xs ==> ArrangedAlike(x)
  {
    var c, u := Arrange(ByCodePoint, Arr(xs)).elems, Arrange(ByUtf16, Arr(xs)).elems;
    assert |c| == |u| == |xs|;
    assert forall i :: 0 <= i < |xs| ==> (c[i] == u[i] <==> ArrangedAlike(xs[i]));
    if forall x :: x in xs ==> ArrangedAlike(x) {
      assert forall i :: 0 <= i < |xs| ==> xs[i] in xs;
      assert c == u;
    }
  }

  lemma FieldsAgree(m: map<string, Json>)
    requires NamesUncrossed(m) && forall k :: k in m ==> ArrangedAlike(m[k])
    ensures ArrangedAlike(Obj(m))
  {
    NamesAgree(m.Keys);
    FieldsOf(ByCodePoint, m);
    FieldsOf(ByUtf16, m);
    assert Arrange(ByCodePoint, Obj(m)).fields == Arrange(ByUtf16, Obj(m)).fields;
  }

  lemma FieldsDisagree(m: map<string, Json>)
    ensures ArrangedAlike(Obj(m)) ==> NamesUncrossed(m) && forall k :: k in m ==> ArrangedAlike(m[k])
  {
    var c, u := SortNames(ByCodePoint, m.Keys), SortNames(ByUtf16, m.Keys);
    FieldsOf(ByCodePoint, m);
    FieldsOf(ByUtf16, m);
    if ArrangedAlike(Obj(m)) {
      var fs := Arrange(ByCodePoint, Obj(m)).fields;
      assert forall i :: 0 <= i < |c| ==> c[i] == fs[i].0 == u[i];
      assert c == u;
      forall k | k in m ensures ArrangedAlike(m[k]) {
        assert k in c;
        var i :| 0 <= i < |c| && c[i] == k;
        assert fs[i].1 == Arrange(ByCodePoint, m[k]) == Arrange(ByUtf16, m[k]);
      }
      forall k, l | k in m && l in m ensures !Crossing(k, l) {
        if Crossing(k, l) { NamesDiffer(m.Keys, k, l); }
      }
    }
  }

  /** The text equals the one with RFC 8785's member order if and only if no
      object has two crossing names. */
  lemma JcsMemberOrder(j: Json)
    ensures Dump(ByCodePoint, j) == Dump(ByUtf16, j) <==> NoCrossing(j)
  {
    ArrangeAgree(j);
    ArrangeWellFormed(ByCodePoint, j);
    ArrangeWellFormed(ByUtf16, j);
    if Dump(ByCodePoint, j) == Dump(ByUtf16, j) {
      assert Dump(ByCodePoint, j) + "" == Dump(ByUtf16, j) + "";
      TreeSplit(Arrange(ByCodePoint, j), Arrange(ByUtf16, j), "", "");
    }
  }

  /** U+FB33 and U+1F600: the example of RFC 8785 section 3.2.3, on which the code departs from it. */
  lemma JcsOrderDeparture()
    ensures var j := Obj(map["\U{FB33}" := Int(1), "\U{1F600}" := Int(2)]);
            Dump(ByCodePoint, j) != Dump(ByUtf16, j)
  {
    var m := map["\U{FB33}" := Int(1), "\U{1F600}" := Int(2)];
    assert "\U{FB33}" in m && "\U{1F600}" in m;
    assert Crossing("\U{FB33}", "\U{1F600}");
    JcsMemberOrder(Obj(m));
  }
}
