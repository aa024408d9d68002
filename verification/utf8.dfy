/** UTF-8 (RFC 3629 section 3). A Dafny char is a Unicode scalar value, so every
    string can be encoded. */
module Utf8 {
  import opened Wrappers

  function EncodeChar(ch: char): seq<int> {
    var c := ch as int;
    if c < 0x80 then [c]
    else if c < 0x800 then [0xC0 + c / 64, 0x80 + c % 64]
    else if c < 0x10000 then [0xE0 + c / 4096, 0x80 + c / 64 % 64, 0x80 + c % 64]
    else [0xF0 + c / 262144, 0x80 + c / 4096 % 64, 0x80 + c / 64 % 64, 0x80 + c % 64]
  }

  /** s.encode("utf-8") */
  function Encode(s: string): seq<int> {
    if s == [] then [] else EncodeChar(s[0]) + Encode(s[1..])
  }

  /** A byte below 0x80 occurs in the encoding exactly as often as its character does in the text. */
  function Count(bytes: seq<int>, b: int): nat {
    if bytes == [] then 0 else (if bytes[0] == b then 1 else 0) + Count(bytes[1..], b)
  }

  lemma {:induction false} CountConcat(x: seq<int>, y: seq<int>, b: int)
    ensures Count(x + y, b) == Count(x, b) + Count(y, b)
  {
    if x == [] {
      assert x + y == y;
    } else {
      assert (x + y)[1..] == x[1..] + y;
      CountConcat(x[1..], y, b);
    }
  }

  // ---- Decoding --------------------------------------------------------------

  predicate Scalar(c: int) {
    0 <= c < 0xD800 || 0xE000 <= c < 0x110000
  }

  /** The six bits of a continuation byte, -1 for any other. */
  function Six(b: int): int {
    if 0x80 <= b < 0xC0 then b - 0x80 else -1
  }

  /** The code of the first character and the number of its bytes, by the first byte's range. */
  function FirstCode(b: seq<int>): Option<(int, nat)> {
    if b == [] then None
    else if 0 <= b[0] < 0x80 then Some((b[0], 1))
    else if 0xC0 <= b[0] < 0xE0 && |b| >= 2 && Six(b[1]) >= 0 then
      Some(((b[0] - 0xC0) * 64 + Six(b[1]), 2))
    else if 0xE0 <= b[0] < 0xF0 && |b| >= 3 && Six(b[1]) >= 0 && Six(b[2]) >= 0 then
      Some((((b[0] - 0xE0) * 64 + Six(b[1])) * 64 + Six(b[2]), 3))
    else if 0xF0 <= b[0] < 0xF8 && |b| >= 4 && Six(b[1]) >= 0 && Six(b[2]) >= 0 && Six(b[3]) >= 0 then
      Some(((((b[0] - 0xF0) * 64 + Six(b[1])) * 64 + Six(b[2])) * 64 + Six(b[3]), 4))
    else None
  }

  /** The shortest form is the only one allowed. */
  function LeastCode(bytes: nat): int {
    if bytes == 1 then 0 else if bytes == 2 then 0x80 else if bytes == 3 then 0x800 else 0x10000
  }

  function Decode(b: seq<int>): Option<string> {
    if b == [] then Some("") else
      var first := FirstCode(b);
      if first.None? || first.value.1 == 0 || first.value.1 > |b| then None
      else if !Scalar(first.value.0) || first.value.0 < LeastCode(first.value.1) then None
      else
        var rest := Decode(b[first.value.1..]);
        if rest.None? then None else Some([first.value.0 as char] + rest.value)
  }

  lemma FirstOfEncoded(ch: char, r: seq<int>)
    ensures FirstCode(EncodeChar(ch) + r) == Some((ch as int, |EncodeChar(ch)|))
    ensures ch as int >= LeastCode(|EncodeChar(ch)|)
  {
    var c, b := ch as int, EncodeChar(ch);
    assert forall i :: 0 <= i < |b| ==> (b + r)[i] == b[i];
    if |b| == 3 {
      assert c / 64 / 64 == c / 4096;
    } else if |b| == 4 {
      assert c / 64 / 64 == c / 4096 && c / 4096 / 64 == c / 262144;
    }
  }

  /** Decoding gives back what was encoded. */
  lemma {:induction false} DecodeEncode(s: string)
    ensures Decode(Encode(s)) == Some(s)
  {
    if s != [] {
      var b, r := EncodeChar(s[0]), Encode(s[1..]);
      FirstOfEncoded(s[0], r);
      assert (b + r)[|b|..] == r;
      DecodeEncode(s[1..]);
      assert s == [s[0]] + s[1..];
    }
  }

  lemma Injective(s: string, t: string)
    requires Encode(s) == Encode(t)
    ensures s == t
  {
    DecodeEncode(s);
    DecodeEncode(t);
  }
}
