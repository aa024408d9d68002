/** Firmware versions: found in file names, compared as tuples, sorted, offered. */
module Versions {
  import opened Wrappers
  import Decimal
  import Lex

  // ---- Finding the version in a file name ------------------------------------

  /** Length of up to k groups of a dot and digits at the front. */
  function Groups(s: string, k: nat): (n: nat)
    ensures n <= |s|
  {
    if k > 0 && |s| >= 2 && s[0] == '.' && Decimal.IsDigit(s[1])
    then
      var n := 1 + Decimal.DigitRun(s[1..]);
      n + Groups(s[n..], k - 1)
    else 0
  }

  /** Length of the match of \\d+(?:\\.\\d+){0,3} at the front; every part of it is greedy. */
  function MatchLen(s: string): (n: nat)
    ensures n <= |s| && (s != [] && Decimal.IsDigit(s[0]) ==> n > 0)
  {
    Decimal.DigitRun(s) + Groups(s[Decimal.DigitRun(s)..], 3)
  }

  /** re.findall: the matches from left to right, without overlap. */
  function FindAll(s: string): seq<string>
    decreases |s|
  {
    if s == [] then []
    else if Decimal.IsDigit(s[0]) then [s[..MatchLen(s)]] + FindAll(s[MatchLen(s)..])
    else FindAll(s[1..])
  }

  function Dotted(ms: seq<string>): seq<string> {
    if ms == [] then [] else
      Dotted(ms[..|ms| - 1]) + if '.' in ms[|ms| - 1] then [ms[|ms| - 1]] else []
  }

  /** The last dotted match, or else the last match. */
  function ParseVersion(name: string): Option<string> {
    var ms := FindAll(name);
    var ds := Dotted(ms);
    if ms == [] then None else if ds != [] then Some(ds[|ds| - 1]) else Some(ms[|ms| - 1])
  }

  // ---- Versions as tuples ----------------------------------------------------

  /** s.split(".") */
  function SplitDots(s: string): (ps: seq<string>)
    ensures ps != []
  {
    if s == [] then [""] else
      var rest := SplitDots(s[1..]);
      if s[0] == '.' then [""] + rest else [[s[0]] + rest[0]] + rest[1..]
  }

  predicate IsSpace(c: char) {
    c == ' ' || 9 <= c as int <= 13 || 28 <= c as int <= 31
  }

  function StripLeft(s: string): string {
    if s != [] && IsSpace(s[0]) then StripLeft(s[1..]) else s
  }

  function StripRight(s: string): string {
    if s != [] && IsSpace(s[|s| - 1]) then StripRight(s[..|s| - 1]) else s
  }

  /** Inside a numeral: a digit, or a single underscore between two digits. */
  predicate InNumeral(s: string, i: nat)
    requires 0 < i < |s| - 1
  {
    Decimal.IsDigit(s[i]) || (s[i] == '_' && Decimal.IsDigit(s[i - 1]) && Decimal.IsDigit(s[i + 1]))
  }

  /** Digits, single underscores allowed between two of them. */
  predicate IsNumeral(s: string) {
    && s != [] && Decimal.IsDigit(s[0]) && Decimal.IsDigit(s[|s| - 1])
    && forall i :: 0 < i < |s| - 1 ==> InNumeral(s, i)
  }

  function OnlyDigits(s: string): string {
    if s == [] then [] else OnlyDigits(s[..|s| - 1]) + if Decimal.IsDigit(s[|s| - 1]) then [s[|s| - 1]] else []
  }

  /** int(p), or 0 where it raises ValueError. */
  function PartValue(p: string): int {
    var s := StripRight(StripLeft(p));
    var signed := s != [] && (s[0] == '+' || s[0] == '-');
    var body := if signed then s[1..] else s;
    if !IsNumeral(body) then 0
    else if signed && s[0] == '-' then -Decimal.Value(OnlyDigits(body))
    else Decimal.Value(OnlyDigits(body))
  }

  function Values(ps: seq<string>): seq<int> {
    if ps == [] then [] else Values(ps[..|ps| - 1]) + [PartValue(ps[|ps| - 1])]
  }

  function VersionTuple(ver: string): seq<int> {
    Values(SplitDots(ver))
  }

  method ComputeVersionTuple(ver: string) returns (parts: seq<int>)
    ensures parts == VersionTuple(ver)
  {
    var ps := SplitDots(ver);
    parts := [];
    for i := 0 to |ps|
      invariant parts == Values(ps[..i])
    {
      assert ps[..i + 1][..i] == ps[..i];
      parts := parts + [PartValue(ps[i])];
    }
    assert ps[..|ps|] == ps;
  }

  function Zeros(n: nat): seq<int> {
    seq(n, _ => 0)
  }

  /** t filled up with zeros to n fields. */
  function Pad(t: seq<int>, n: nat): seq<int>
    decreases n - |t|
  {
    if |t| < n then Pad(t + [0], n) else t
  }

  lemma {:induction false} PadIs(t: seq<int>, n: nat)
    ensures Pad(t, n) == if |t| < n then t + Zeros(n - |t|) else t
    decreases n - |t|
  {
    if |t| < n {
      PadIs(t + [0], n);
      assert [0] + Zeros(n - |t| - 1) == Zeros(n - |t|);
    }
  }

  /** a < b field by field, the shorter one padded with zeros. */
  predicate PaddedLess(a: seq<int>, b: seq<int>) {
    var n := if |a| < |b| then |b| else |a|;
    Lex.Less(Pad(a, n), Pad(b, n))
  }

  predicate VersionGt(a: string, b: string) {
    PaddedLess(VersionTuple(b), VersionTuple(a))
  }

  // ---- The two orders --------------------------------------------------------

  lemma {:induction false} SameTail(a: seq<int>, b: seq<int>, z: seq<int>)
    requires |a| == |b|
    ensures Lex.Less(a + z, b + z) == Lex.Less(a, b)
  {
    if a == [] {
      assert a + z == z && b + z == z;
      Lex.Irreflexive(z);
    } else {
      assert (a + z)[1..] == a[1..] + z && (b + z)[1..] == b[1..] + z;
      SameTail(a[1..], b[1..], z);
    }
  }

  /** The padding length does not matter, so padded comparison is comparison at any common length. */
  lemma PadMore(a: seq<int>, b: seq<int>, n: nat)
    requires |a| <= n && |b| <= n
    ensures PaddedLess(a, b) == Lex.Less(Pad(a, n), Pad(b, n))
  {
    var m := if |a| < |b| then |b| else |a|;
    var z := Zeros(n - m);
    PadIs(a, m);
    PadIs(b, m);
    PadIs(a, n);
    PadIs(b, n);
    assert Pad(a, n) == Pad(a, m) + z && Pad(b, n) == Pad(b, m) + z;
    SameTail(Pad(a, m), Pad(b, m), z);
  }

  function Longest(a: nat, b: nat, c: nat): nat {
    if a >= b && a >= c then a else if b >= c then b else c
  }

  lemma PaddedTransitive(a: seq<int>, b: seq<int>, c: seq<int>)
    requires PaddedLess(a, b) && PaddedLess(b, c)
    ensures PaddedLess(a, c)
  {
    var n := Longest(|a|, |b|, |c|);
    PadMore(a, b, n);
    PadMore(b, c, n);
    PadMore(a, c, n);
    Lex.Transitive(Pad(a, n), Pad(b, n), Pad(c, n));
  }

  /** If a is below c, then b is above a or below c. */
  lemma PaddedSplits(a: seq<int>, b: seq<int>, c: seq<int>)
    requires PaddedLess(a, c)
    ensures PaddedLess(a, b) || PaddedLess(b, c)
  {
    var n := Longest(|a|, |b|, |c|);
    PadMore(a, b, n);
    PadMore(b, c, n);
    PadMore(a, c, n);
    Lex.Total(Pad(a, n), Pad(b, n));
    if Lex.Less(Pad(b, n), Pad(a, n)) {
      Lex.Transitive(Pad(b, n), Pad(a, n), Pad(c, n));
    }
  }

  lemma PaddedIrreflexive(a: seq<int>)
    ensures !PaddedLess(a, a)
  {
    Lex.Irreflexive(Pad(a, |a|));
  }

  /** The i-th field, 0 where there is none. */
  function Field(t: seq<int>, i: nat): int {
    if i < |t| then t[i] else 0
  }

  /** One version is newer than another if and only if, at the first field in which they
      differ, its field is larger, missing fields counting 0. */
  lemma NewerMeans(a: string, b: string)
    ensures var v, w := VersionTuple(a), VersionTuple(b);
            VersionGt(a, b) <==> exists i: nat :: Field(v, i) > Field(w, i) && forall j: nat :: j < i ==> Field(v, j) == Field(w, j)
  {
    PaddedMeans(VersionTuple(b), VersionTuple(a));
  }

  lemma PaddedMeans(a: seq<int>, b: seq<int>)
    ensures PaddedLess(a, b) <==>
      exists i: nat :: Field(b, i) > Field(a, i) && forall j: nat :: j < i ==> Field(b, j) == Field(a, j)
  {
    var n := if |a| < |b| then |b| else |a|;
    var x, y := Pad(a, n), Pad(b, n);
    PadIs(a, n);
    PadIs(b, n);
    Lex.FirstDifference(x, y);
    assert forall i: nat :: i < n ==> x[i] == Field(a, i) && y[i] == Field(b, i);
    assert forall i: nat :: i >= n ==> Field(a, i) == 0 && Field(b, i) == 0;
    if i :| 0 <= i < |x| && x[i] < y[i] && forall j :: 0 <= j < i ==> x[j] == y[j] {
      assert Field(b, i) > Field(a, i);
      forall j: nat | j < i ensures Field(b, j) == Field(a, j) {
        assert x[j] == y[j];
      }
    }
    if i: nat :| Field(b, i) > Field(a, i) && forall j: nat :: j < i ==> Field(b, j) == Field(a, j) {
      assert i < n && x[i] < y[i];
      forall j | 0 <= j < i ensures x[j] == y[j] {
        assert Field(b, j) == Field(a, j);
      }
    }
  }

  predicate Natural(t: seq<int>) {
    forall i :: 0 <= i < |t| ==> t[i] >= 0
  }

  /** What is above a tuple of naturals in the padded order is above it in the sort order too. */
  lemma {:induction false} PaddedIsPlain(a: seq<int>, b: seq<int>)
    requires Natural(a) && PaddedLess(a, b)
    ensures Lex.Less(a, b)
  {
    var n := if |a| < |b| then |b| else |a|;
    PadIs(a, n);
    PadIs(b, n);
    if a == [] {
      Lex.Irreflexive(Zeros(n));
    } else if b == [] {
      assert Pad(b, n) == Zeros(n);
      NotBelowZeros(a);
    } else if a[0] == b[0] {
      var x, y := Pad(a, n), Pad(b, n);
      PadIs(a[1..], n - 1);
      PadIs(b[1..], n - 1);
      assert x[1..] == Pad(a[1..], n - 1) && y[1..] == Pad(b[1..], n - 1);
      PaddedIsPlain(a[1..], b[1..]);
    }
  }

  lemma {:induction false} NotBelowZeros(a: seq<int>)
    requires Natural(a)
    ensures !Lex.Less(a, Zeros(|a|))
  {
    if a != [] {
      assert Zeros(|a|)[1..] == Zeros(|a[1..]|);
      NotBelowZeros(a[1..]);
    }
  }
}
