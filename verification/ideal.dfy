/** The assumption about the hash and the MAC can be met: here are two functions that meet it. */
module IdealCrypto {
  import opened Auth
  import Decimal

  /** The numbers, each followed by a comma. */
  function Listed(a: seq<int>): string {
    if a == [] then "" else Decimal.Show(a[0]) + ("," + Listed(a[1..]))
  }

  /** A list ends where something that is no number follows. */
  lemma {:induction false} ListedSplit(a: seq<int>, b: seq<int>, r: string, q: string)
    requires Listed(a) + (";" + r) == Listed(b) + (";" + q)
    ensures a == b && r == q
  {
    ListedStep(a, r);
    ListedStep(b, q);
    if a != [] && b != [] {
      Decimal.ShowSplit(a[0], b[0], "," + (Listed(a[1..]) + (";" + r)), "," + (Listed(b[1..]) + (";" + q)));
      assert ("," + (Listed(a[1..]) + (";" + r)))[1..] == Listed(a[1..]) + (";" + r);
      assert ("," + (Listed(b[1..]) + (";" + q)))[1..] == Listed(b[1..]) + (";" + q);
      ListedSplit(a[1..], b[1..], r, q);
      assert a == [a[0]] + a[1..] && b == [b[0]] + b[1..];
    } else if a == [] && b == [] {
      assert (";" + r)[1..] == r && (";" + q)[1..] == q;
    }
  }

  lemma ListedStep(a: seq<int>, r: string)
    ensures a == [] ==> Listed(a) + (";" + r) == ";" + r
    ensures a != [] ==>
      Listed(a) + (";" + r) == Decimal.Show(a[0]) + ("," + (Listed(a[1..]) + (";" + r)))
    ensures a != [] ==> (Listed(a) + (";" + r))[0] != ';'
  {
    if a != [] {
      var rest := "," + (Listed(a[1..]) + (";" + r));
      Regroup(Decimal.Show(a[0]), ",", Listed(a[1..]), ";" + r);
      Decimal.ShowShape(a[0], rest);
    }
  }

  lemma Regroup(x: string, y: string, z: string, r: string)
    ensures (x + (y + z)) + r == x + (y + (z + r))
  {
  }

  predicate Plain(s: string) {
    forall i :: 0 <= i < |s| ==> s[i] == ',' || s[i] == ';' || s[i] == '-' || Decimal.IsDigit(s[i])
  }

  lemma {:induction false} ListedPlain(a: seq<int>)
    ensures Plain(Listed(a))
  {
    if a != [] {
      Decimal.DigitsRead(Decimal.Magnitude(a[0]));
      ListedPlain(a[1..]);
    }
  }

  lemma PlainIs(s: string)
    requires Plain(s)
    ensures UsFree(s) && Ascii(s)
  {
  }

  function Hash(a: seq<int>): string {
    Listed(a) + ";"
  }

  function Mac(k: seq<int>, a: seq<int>): string {
    Listed(k) + (";" + Hash(a))
  }

  lemma HashExact(a: seq<int>, b: seq<int>)
    requires Hash(a) == Hash(b)
    ensures a == b
  {
    assert ";" + "" == ";";
    ListedSplit(a, b, "", "");
  }

  lemma MacExact(k: seq<int>, a: seq<int>, l: seq<int>, b: seq<int>)
    requires Mac(k, a) == Mac(l, b)
    ensures k == l && a == b
  {
    ListedSplit(k, l, Hash(a), Hash(b));
    HashExact(a, b);
  }

  lemma IdealIsPossible()
    ensures exists c :: Ideal(c)
  {
    var c := Crypto(Hash, Mac, _ => "");
    forall a, b | c.hash(a) == c.hash(b) ensures a == b {
      HashExact(a, b);
    }
    forall k, a, l, b | c.mac(k, a) == c.mac(l, b) ensures k == l && a == b {
      MacExact(k, a, l, b);
    }
    forall a ensures UsFree(c.hash(a)) {
      ListedPlain(a);
      PlainIs(c.hash(a));
    }
    forall k, a ensures Ascii(c.mac(k, a)) {
      ListedPlain(k);
      ListedPlain(a);
      PlainIs(c.mac(k, a));
    }
    assert Ideal(c);
  }
}
