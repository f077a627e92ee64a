/** url.PathEscape (RFC 3986 sections 2.1 and 3.3). */
module PathEscape {
  import opened Text
  import opened Bytes

  predicate Unreserved(c: char) { IsAlnum(c) || c in "-_.~$&+=:@" }

  /** One byte, percent-encoded */
  function Triplet(b: Byte): string { ['%', Digit('A', b / 16), Digit('A', b % 16)] }

  function EscapeBytes(bs: seq<Byte>): string {
    if bs == [] then []
    else Triplet(bs[0]) + EscapeBytes(bs[1..])
  }

  function EscapeChar(c: char): string {
    if Unreserved(c) then [c] else EscapeBytes(Utf8(c))
  }

  function Escape(s: string): string {
    if s == [] then [] else EscapeChar(s[0]) + Escape(s[1..])
  }

  /** Percent-decoding (RFC 3986 section 2.1) */
  function Unescape(t: string): Option<seq<Byte>> {
    if t == [] then Some([])
    else if t[0] != '%' then
      if t[0] as int < 128 then Prepend(t[0] as int, Unescape(t[1..])) else None
    else if |t| < 3 || DigitValue(t[1]).None? || DigitValue(t[2]).None? then None
    else
      var b := DigitValue(t[1]).value * 16 + DigitValue(t[2]).value;
      if b < 256 then Prepend(b, Unescape(t[3..])) else None
  }

  function Prepend(b: Byte, r: Option<seq<Byte>>): Option<seq<Byte>> {
    match r case Some(bs) => Some([b] + bs) case None => None
  }

  function PrependAll(bs: seq<Byte>, r: Option<seq<Byte>>): Option<seq<Byte>> {
    match r case Some(cs) => Some(bs + cs) case None => None
  }

  lemma UnescapeTriplet(b: Byte, rest: string)
    ensures Unescape(Triplet(b) + rest) == Prepend(b, Unescape(rest))
  {
    var t := Triplet(b) + rest;
    DigitRoundTrip('A', b / 16);
    DigitRoundTrip('A', b % 16);
    assert t[3..] == rest;
    assert b / 16 * 16 + b % 16 == b;
  }

  lemma EscapeBytesCons(bs: seq<Byte>, t: string)
    requires bs != []
    ensures EscapeBytes(bs) + t == Triplet(bs[0]) + (EscapeBytes(bs[1..]) + t)
  {
    hide Digit;
  }

  lemma PrependAllCons(b: Byte, bs: seq<Byte>, r: Option<seq<Byte>>)
    ensures Prepend(b, PrependAll(bs, r)) == PrependAll([b] + bs, r)
    ensures PrependAll([], r) == r
  {
    if r.Some? {
      assert [b] + (bs + r.value) == [b] + bs + r.value;
      assert [] + r.value == r.value;
    }
  }

  lemma {:induction false} UnescapeBytes(bs: seq<Byte>, t: string)
    ensures Unescape(EscapeBytes(bs) + t) == PrependAll(bs, Unescape(t))
  {
    hide Unescape, Digit, PrependAll, Prepend;
    if bs == [] {
      assert EscapeBytes(bs) + t == t;
      PrependAllCons(0, [], Unescape(t));
    } else {
      EscapeBytesCons(bs, t);
      UnescapeTriplet(bs[0], EscapeBytes(bs[1..]) + t);
      UnescapeBytes(bs[1..], t);
      PrependAllCons(bs[0], bs[1..], Unescape(t));
      hide *;
      assert [bs[0]] + bs[1..] == bs;
    }
  }

  /** Percent-decoding an escaped text gives the UTF-8 bytes of the text. */
  lemma {:induction false} EscapeRoundTrip(s: string)
    ensures Unescape(Escape(s)) == Some(Utf8Text(s))
  {
    if s != [] {
      EscapeRoundTrip(s[1..]);
      if Unreserved(s[0]) {
        UnescapePlain(s[0], Escape(s[1..]));
      } else {
        hide Unescape, EscapeBytes;
        UnescapeBytes(Utf8(s[0]), Escape(s[1..]));
      }
    }
  }

  /** Different texts are escaped differently. */
  lemma EscapeInjective(s: string, t: string)
    requires Escape(s) == Escape(t)
    ensures s == t
  {
    hide Escape, Unescape, Utf8Text;
    EscapeRoundTrip(s);
    EscapeRoundTrip(t);
    Utf8TextInjective(s, t);
  }

  lemma UnescapePlain(c: char, t: string)
    requires Unreserved(c)
    ensures Utf8(c) == [c as int] && Unescape([c] + t) == Prepend(c as int, Unescape(t))
  {
    assert ([c] + t)[1..] == t;
  }

  predicate SafeChar(c: char) { Unreserved(c) || c == '%' }

  predicate Safe(t: string) { forall i :: 0 <= i < |t| ==> SafeChar(t[i]) }

  lemma {:induction false} EscapeBytesSafe(bs: seq<Byte>)
    ensures Safe(EscapeBytes(bs))
    ensures EscapeBytes(bs) == [] <==> bs == []
  {
    if bs != [] {
      EscapeBytesSafe(bs[1..]);
    }
  }

  lemma SafeConcat(s: string, t: string)
    requires Safe(s) && Safe(t)
    ensures Safe(s + t)
  {
  }

  lemma {:induction false} EscapeIsSafe(s: string)
    ensures Safe(Escape(s))
    ensures Escape(s) == [] <==> s == []
  {
    if s != [] {
      EscapeIsSafe(s[1..]);
      EscapeBytesSafe(Utf8(s[0]));
      SafeConcat(EscapeChar(s[0]), Escape(s[1..]));
    }
  }

  /** An escaped text cannot end a path segment or open a query or a placeholder, and it is
      empty only for the empty text. */
  lemma EscapeKeepsStructure(s: string)
    ensures '/' !in Escape(s) && '?' !in Escape(s) && '{' !in Escape(s) && '}' !in Escape(s)
    ensures Escape(s) == [] <==> s == []
  {
    hide Escape;
    EscapeIsSafe(s);
  }

  /** What stands for itself in a path segment */
  predicate Plain(c: char) {
    'a' <= c <= 'z' || 'A' <= c <= 'Z' || '0' <= c <= '9' || c in "-_.~$&+=:@"
  }

  const HEX := "0123456789ABCDEF"

  /** Bytes as triplets, written out */
  function Triplets(bs: seq<Byte>): string {
    if bs == [] then "" else ['%', HEX[bs[0] / 16], HEX[bs[0] % 16]] + Triplets(bs[1..])
  }

  lemma {:induction false} BytesAreTriplets(bs: seq<Byte>)
    ensures EscapeBytes(bs) == Triplets(bs)
  {
    if bs != [] {
      HexDigit(bs[0] / 16);
      HexDigit(bs[0] % 16);
      BytesAreTriplets(bs[1..]);
    }
  }

  lemma HexDigit(d: nat)
    requires d < 16
    ensures Digit('A', d) == HEX[d]
  {
  }

  lemma PlainExactly(c: char)
    ensures Unreserved(c) <==> Plain(c)
  {
  }

  /** One character: itself, or the triplets of its bytes */
  lemma EscapeOne(c: char)
    ensures EscapeChar(c) == if Plain(c) then [c] else Triplets(Utf8(c))
  {
    PlainExactly(c);
    BytesAreTriplets(Utf8(c));
    hide Plain, Unreserved, Triplets, EscapeBytes, Utf8;
  }

  lemma EscapeCons(c: char, t: string)
    ensures Escape([c] + t) == EscapeChar(c) + Escape(t)
  {
    hide EscapeChar;
    assert ([c] + t)[1..] == t;
  }

  lemma {:induction false} EscapeConcat(s: string, t: string)
    ensures Escape(s + t) == Escape(s) + Escape(t)
  {
    hide *;
    if s == "" {
      assert s + t == t;
      EscapeNothing();
    } else {
      EscapeConcat(s[1..], t);
      assert s == [s[0]] + s[1..] && s + t == [s[0]] + (s[1..] + t);
      EscapeCons(s[0], s[1..]);
      EscapeCons(s[0], s[1..] + t);
    }
  }

  /** An escaped text is, character by character, the letters, digits and marks that stand for
      themselves, and the upper-case triplets of the UTF-8 bytes of everything else. */
  lemma EscapedExactly(s: string, c: char, t: string)
    ensures Escape("") == ""
    ensures Escape(s + [c] + t) == Escape(s) + (if Plain(c) then [c] else Triplets(Utf8(c))) + Escape(t)
  {
    EscapeOne(c);
    EscapeCons(c, "");
    hide *;
    EscapeConcat(s + [c], t);
    EscapeConcat(s, [c]);
    EscapeNothing();
    assert [c] + "" == [c];
  }

  lemma EscapeNothing()
    ensures Escape("") == ""
  {
  }

  /** Nothing but plain characters, percent signs and hexadecimal digits is left in an escaped text. */
  lemma EscapedAlphabet(s: string)
    ensures forall i :: 0 <= i < |Escape(s)| ==> Plain(Escape(s)[i]) || Escape(s)[i] == '%'
  {
    EscapeIsSafe(s);
    forall i | 0 <= i < |Escape(s)| ensures Plain(Escape(s)[i]) || Escape(s)[i] == '%' {
      PlainExactly(Escape(s)[i]);
      hide Escape, Plain, Unreserved;
      assert SafeChar(Escape(s)[i]);
    }
  }
}
