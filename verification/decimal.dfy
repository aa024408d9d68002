/** Decimal rendering of integers, as Python's str(int) and json.dumps print them. */
module Decimal {

  predicate IsDigit(c: char) {
    '0' <= c <= '9'
  }

  ghost predicate AllDigits(s: string) {
    forall i :: 0 <= i < |s| ==> IsDigit(s[i])
  }

  function Digits(n: nat): string {
    if n < 10 then ['0' + n as char] else Digits(n / 10) + ['0' + (n % 10) as char]
  }

  /** str(i) */
  function Show(i: int): string {
    if i < 0 then "-" + Digits(-i) else Digits(i)
  }

  /** The number a digit string denotes. */
  function Value(s: string): int {
    if s == [] then 0 else 10 * Value(s[..|s| - 1]) + (s[|s| - 1] as int - '0' as int)
  }

  lemma {:induction false} DigitsRead(n: nat)
    ensures Digits(n) != [] && AllDigits(Digits(n)) && Value(Digits(n)) == n
  {
    if n >= 10 {
      DigitsRead(n / 10);
      assert Digits(n)[..|Digits(n)| - 1] == Digits(n / 10);
    }
  }

  /** A maximal run of digits splits off in only one way. */
  lemma RunSplit(x: string, y: string, r: string, q: string)
    requires AllDigits(x) && AllDigits(y) && x + r == y + q
    requires (r == [] || !IsDigit(r[0])) && (q == [] || !IsDigit(q[0]))
    ensures x == y && r == q
  {
    RunOfDigits(x, r);
    RunOfDigits(y, q);
    assert x == (x + r)[..|x|] && r == (x + r)[|x|..];
    assert y == (y + q)[..|y|] && q == (y + q)[|y|..];
  }

  /** A printed integer splits off in only one way from text that does not go on with a digit. */
  lemma ShowSplit(a: int, b: int, r: string, q: string)
    requires Show(a) + r == Show(b) + q
    requires (r == [] || !IsDigit(r[0])) && (q == [] || !IsDigit(q[0]))
    ensures a == b && r == q
  {
    var m, n := Magnitude(a), Magnitude(b);
    ShowShape(a, r);
    ShowShape(b, q);
    DigitsRead(m);
    DigitsRead(n);
    RunSplit(Digits(m), Digits(n), r, q);
  }

  function Magnitude(a: int): nat {
    if a < 0 then -a else a
  }

  /** The sign shows in the first character; the digits of the magnitude follow. */
  lemma ShowShape(a: int, r: string)
    ensures Show(a) + r != []
    ensures a < 0 ==> (Show(a) + r)[0] == '-' && (Show(a) + r)[1..] == Digits(Magnitude(a)) + r
    ensures a >= 0 ==> IsDigit((Show(a) + r)[0]) && Show(a) + r == Digits(Magnitude(a)) + r
  {
    var d := Digits(Magnitude(a));
    DigitsRead(Magnitude(a));
    if a < 0 {
      assert Show(a) + r == "-" + (d + r);
    } else {
      assert (d + r)[0] == d[0];
    }
  }

  lemma ShowInjective(a: int, b: int)
    requires Show(a) == Show(b)
    ensures a == b
  {
    assert Show(a) + "" == Show(b) + "";
    ShowSplit(a, b, "", "");
  }

  // ---- Reading ---------------------------------------------------------------

  /** Length of the run of digits at the front. */
  function DigitRun(s: string): (n: nat)
    ensures n <= |s|
  {
    if s != [] && IsDigit(s[0]) then 1 + DigitRun(s[1..]) else 0
  }

  /** A run of digits ends where the digits end. */
  lemma {:induction false} RunOfDigits(d: string, r: string)
    requires AllDigits(d) && (r == [] || !IsDigit(r[0]))
    ensures DigitRun(d + r) == |d|
  {
    if d == [] {
      assert d + r == r;
    } else {
      assert (d + r)[1..] == d[1..] + r;
      RunOfDigits(d[1..], r);
    }
  }

  /** No digits but "0" start with 0. */
  lemma {:induction false} NoLeadingZero(n: nat)
    ensures Digits(n) != [] && (n > 0 ==> Digits(n)[0] != '0')
  {
    if n >= 10 {
      NoLeadingZero(n / 10);
    }
  }
}
