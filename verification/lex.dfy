/** Lexicographic order on integer sequences: Python's order on tuples and,
    applied to code points or UTF-16 units, its order on strings. */
module Lex {

  /** a < b: a proper prefix is smaller, otherwise the first difference decides. */
  predicate Less(a: seq<int>, b: seq<int>) {
    b != [] && (a == [] || a[0] < b[0] || (a[0] == b[0] && Less(a[1..], b[1..])))
  }

  lemma Irreflexive(a: seq<int>)
    ensures !Less(a, a)
  {
  }

  lemma {:induction false} Asymmetric(a: seq<int>, b: seq<int>)
    requires Less(a, b)
    ensures !Less(b, a)
  {
    if a != [] && a[0] == b[0] {
      Asymmetric(a[1..], b[1..]);
    }
  }

  lemma {:induction false} Total(a: seq<int>, b: seq<int>)
    ensures a == b || Less(a, b) || Less(b, a)
  {
    if a != [] && b != [] && a[0] == b[0] {
      Total(a[1..], b[1..]);
      assert a == [a[0]] + a[1..] && b == [b[0]] + b[1..];
    }
  }

  lemma {:induction false} Transitive(a: seq<int>, b: seq<int>, c: seq<int>)
    requires Less(a, b) && Less(b, c)
    ensures Less(a, c)
  {
    if a != [] && a[0] == b[0] == c[0] {
      Transitive(a[1..], b[1..], c[1..]);
    }
  }

  /** A common prefix does not matter. */
  lemma {:induction false} DropPrefix(p: seq<int>, a: seq<int>, b: seq<int>)
    ensures Less(p + a, p + b) == Less(a, b)
  {
    if p == [] {
      assert p + a == a && p + b == b;
    } else {
      assert (p + a)[1..] == p[1..] + a && (p + b)[1..] == p[1..] + b;
      DropPrefix(p[1..], a, b);
    }
  }

  /** Between sequences of one length the first difference decides. */
  lemma {:induction false} FirstDifference(a: seq<int>, b: seq<int>)
    requires |a| == |b|
    ensures Less(a, b) <==> exists i :: 0 <= i < |a| && a[i] < b[i] && forall j :: 0 <= j < i ==> a[j] == b[j]
  {
    if a != [] {
      var x, y := a[1..], b[1..];
      FirstDifference(x, y);
      if i :| 0 <= i < |x| && x[i] < y[i] && forall j :: 0 <= j < i ==> x[j] == y[j] {
        if a[0] == b[0] {
          assert a[i + 1] < b[i + 1] && forall j :: 0 < j < i + 1 ==> a[j] == x[j - 1] && b[j] == y[j - 1];
        }
      }
      if i :| 0 < i < |a| && a[i] < b[i] && forall j :: 0 <= j < i ==> a[j] == b[j] {
        assert x[i - 1] < y[i - 1] && forall j :: 0 <= j < i - 1 ==> x[j] == a[j + 1] && y[j] == b[j + 1];
      }
    }
  }
}
