/** The UTF-8 encoding of RFC 3629, which turns JSON text into the bytes that are signed. */
module Utf8 {

  type byte = x: int | 0 <= x < 256

  function EncodeChar(c: char): (r: seq<byte>)
    ensures r != []
  {
    var n := c as int;
    if n < 0x80 then [n]
    else if n < 0x800 then [0xC0 + n / 64, 0x80 + n % 64]
    else if n < 0x1_0000 then [0xE0 + n / 64 / 64, 0x80 + n / 64 % 64, 0x80 + n % 64]
    else [0xF0 + n / 64 / 64 / 64, 0x80 + n / 64 / 64 % 64, 0x80 + n / 64 % 64, 0x80 + n % 64]
  }

  function Encode(s: string): (r: seq<byte>)
    ensures s != [] ==> r != []
  {
    if s == [] then [] else EncodeChar(s[0]) + Encode(s[1..])
  }

  function Above(b: byte, base: int): int {
    b - base
  }

  /** The lead byte tells the length, and the low bits of all bytes are the scalar: the table in section 3
      of RFC 3629. */
  lemma EncodeCharLayout(c: char)
    ensures var r, n := EncodeChar(c), c as int;
            && (|r| == 1 ==> r[0] < 0x80 && n == r[0])
            && (|r| == 2 ==> 0xC2 <= r[0] < 0xE0 && n == Above(r[0], 0xC0) * 0x40 + Above(r[1], 0x80))
            && (|r| == 3 ==> 0xE0 <= r[0] < 0xF0 && n == Above(r[0], 0xE0) * 0x1000 + Above(r[1], 0x80) * 0x40 + Above(r[2], 0x80))
            && (|r| == 4 ==> 0xF0 <= r[0] < 0xF5
                             && n == Above(r[0], 0xF0) * 0x4_0000 + Above(r[1], 0x80) * 0x1000 + Above(r[2], 0x80) * 0x40 + Above(r[3], 0x80))
            && (|r| == 3 ==> n >= 0x800) && (|r| == 4 ==> n >= 0x1_0000)
            && 1 <= |r| <= 4 && forall i :: 0 < i < |r| ==> 0x80 <= r[i] < 0xC0
  {
  }

  /** The code is prefix-free: equal streams start with the same character. */
  lemma CharPrefixFree(c: char, d: char, r: seq<byte>, q: seq<byte>)
    requires EncodeChar(c) + r == EncodeChar(d) + q
    ensures c == d && r == q
  {
    var x, y := EncodeChar(c), EncodeChar(d);
    var s := x + r;
    assert s[0] == x[0] == y[0];
    assert |x| == |y|;
    assert s[..|x|] == x && s[..|x|] == y;
    assert s[|x|..] == r && s[|x|..] == q;
    SameBytes(c, d);
  }

  lemma SameBytes(c: char, d: char)
    requires EncodeChar(c) == EncodeChar(d)
    ensures c == d
  {
    var x, y := EncodeChar(c), EncodeChar(d);
    assert |x| == |y| && x[0] == y[0];
    if |x| == 2 {
      assert x[1] == y[1];
    } else if |x| == 3 {
      assert x[1] == y[1] && x[2] == y[2];
    } else if |x| == 4 {
      assert x[1] == y[1] && x[2] == y[2] && x[3] == y[3];
    }
  }

  lemma {:induction false} EncodeInjective(s: string, t: string)
    requires Encode(s) == Encode(t)
    ensures s == t
    decreases |s|
  {
    if s != [] && t != [] {
      CharPrefixFree(s[0], t[0], Encode(s[1..]), Encode(t[1..]));
      EncodeInjective(s[1..], t[1..]);
      assert s == [s[0]] + s[1..] && t == [t[0]] + t[1..];
    }
  }
}
