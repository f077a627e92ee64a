/** Bytes, hexadecimal digits and UTF-8. */
module Bytes {
  import opened Text

  type Byte = n: int | 0 <= n < 256

  /** A hexadecimal digit; `ten` is the letter for ten. */
  function Digit(ten: char, d: nat): char
    requires d < 16 && (ten == 'a' || ten == 'A')
  {
    if d < 10 then ('0' as int + d) as char else (ten as int + d - 10) as char
  }

  function DigitValue(c: char): Option<nat> {
    if '0' <= c <= '9' then Some(c as int - '0' as int)
    else if 'a' <= c <= 'f' then Some(c as int - 'a' as int + 10)
    else if 'A' <= c <= 'F' then Some(c as int - 'A' as int + 10)
    else None
  }

  lemma DigitRoundTrip(ten: char, d: nat)
    requires d < 16 && (ten == 'a' || ten == 'A')
    ensures DigitValue(Digit(ten, d)) == Some(d)
  {
  }

  /** UTF-8 encoding of one scalar value */
  function Utf8(c: char): seq<Byte> {
    var n := c as int;
    if n < 0x80 then [n]
    else if n < 0x800 then [0xC0 + n / 64, 0x80 + n % 64]
    else if n < 0x10000 then [0xE0 + n / 4096, 0x80 + n / 64 % 64, 0x80 + n % 64]
    else [0xF0 + n / 262144, 0x80 + n / 4096 % 64, 0x80 + n / 64 % 64, 0x80 + n % 64]
  }

  function Utf8Text(s: string): seq<Byte> {
    if s == [] then [] else Utf8(s[0]) + Utf8Text(s[1..])
  }

  /** The number a UTF-8 sequence stands for, given the bytes from its first one on */
  function Utf8Value(bs: seq<int>): int
    requires bs != []
  {
    if bs[0] < 0x80 then bs[0]
    else if bs[0] < 0xE0 && |bs| >= 2 then (bs[0] - 0xC0) * 64 + (bs[1] - 0x80)
    else if bs[0] < 0xF0 && |bs| >= 3 then (bs[0] - 0xE0) * 4096 + (bs[1] - 0x80) * 64 + (bs[2] - 0x80)
    else if |bs| >= 4 then (bs[0] - 0xF0) * 262144 + (bs[1] - 0x80) * 4096 + (bs[2] - 0x80) * 64 + (bs[3] - 0x80)
    else -1
  }

  /** The first bytes of a text tell its first character. */
  lemma Utf8FirstChar(c: char, rest: seq<Byte>)
    ensures Utf8Value(Utf8(c) + rest) == c as int
  {
    Sextets(c as int);
    var bs, u := Utf8(c) + rest, Utf8(c);
    assert bs[0] == u[0] && (|u| > 1 ==> bs[1] == u[1]) && (|u| > 2 ==> bs[2] == u[2]) && (|u| > 3 ==> bs[3] == u[3]);
  }

  lemma Sextets(n: nat)
    ensures n == n / 64 * 64 + n % 64
    ensures n == n / 4096 * 4096 + n / 64 % 64 * 64 + n % 64
    ensures n == n / 262144 * 262144 + n / 4096 % 64 * 4096 + n / 64 % 64 * 64 + n % 64
  {
    var a, b := n / 64, n / 4096;
    assert n == 64 * a + n % 64;
    DivTwice(n, 64, 64);
    assert a == 64 * b + a % 64;
    DivTwice(n, 4096, 64);
    assert b == 64 * (n / 262144) + b % 64;
  }

  lemma DivTwice(n: nat, d: nat, e: nat)
    requires (d == 64 || d == 4096) && e == 64
    ensures n / d / e == n / (d * e)
  {
  }

  lemma {:induction false} Utf8TextInjective(s: string, t: string)
    requires Utf8Text(s) == Utf8Text(t)
    ensures s == t
  {
    if s != [] && t != [] {
      Utf8FirstChar(s[0], Utf8Text(s[1..]));
      Utf8FirstChar(t[0], Utf8Text(t[1..]));
      hide Utf8, Utf8Value;
      assert s[0] == t[0];
      var n := |Utf8(s[0])|;
      assert Utf8Text(s)[n..] == Utf8Text(s[1..]) && Utf8Text(t)[n..] == Utf8Text(t[1..]);
      Utf8TextInjective(s[1..], t[1..]);
      assert s == [s[0]] + s[1..] && t == [t[0]] + t[1..];
    }
  }
}
