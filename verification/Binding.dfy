/** The binding hash of a decision: SHA-256 over the text
    hex(inputs) `|` hex(facts) `|` decimal(policy version) (internal/policy/service.go). */
module Binding {
  import opened Text
  import opened Bytes

  /** `%x` on bytes */
  function Hex(bs: seq<Byte>): string {
    if bs == [] then [] else [Digit('a', bs[0] / 16), Digit('a', bs[0] % 16)] + Hex(bs[1..])
  }

  function UnHex(s: string): Option<seq<Byte>> {
    if s == [] then Some([])
    else if |s| == 1 || DigitValue(s[0]).None? || DigitValue(s[1]).None? then None
    else
      var b := DigitValue(s[0]).value * 16 + DigitValue(s[1]).value;
      var rest := UnHex(s[2..]);
      if b < 256 && rest.Some? then Some([b] + rest.value) else None
  }

  function DecimalNat(n: nat): string {
    if n < 10 then [Digit('a', n)] else DecimalNat(n / 10) + [Digit('a', n % 10)]
  }

  /** `%d` */
  function Decimal(n: int): string { if n < 0 then ['-'] + DecimalNat(-n) else DecimalNat(n) }

  function NatValue(s: string): nat {
    if s == [] then 0 else NatValue(s[..|s| - 1]) * 10 + DigitValue(s[|s| - 1]).GetOr(0)
  }

  function IntValue(s: string): int {
    if s != [] && s[0] == '-' then -(NatValue(s[1..]) as int) else NatValue(s)
  }

  function Preimage(inputs: seq<Byte>, facts: seq<Byte>, version: int): string {
    Hex(inputs) + ['|'] + Hex(facts) + ['|'] + Decimal(version)
  }

  /** Reading the text back */
  function Parse(s: string): Option<(seq<Byte>, seq<Byte>, int)> {
    var parts := Split('|', s);
    if |parts| != 3 || UnHex(parts[0]).None? || UnHex(parts[1]).None? then None
    else Some((UnHex(parts[0]).value, UnHex(parts[1]).value, IntValue(parts[2])))
  }

  predicate NoBar(s: string) { '|' !in s }

  lemma {:induction false} HexRoundTrip(bs: seq<Byte>)
    ensures UnHex(Hex(bs)) == Some(bs)
    ensures NoBar(Hex(bs))
    ensures bs != [] ==> Hex(bs) != ""
  {
    if bs != [] {
      HexRoundTrip(bs[1..]);
      DigitRoundTrip('a', bs[0] / 16);
      DigitRoundTrip('a', bs[0] % 16);
      var s := Hex(bs);
      assert s[2..] == Hex(bs[1..]);
      assert bs[0] / 16 * 16 + bs[0] % 16 == bs[0];
      assert s[0] == Digit('a', bs[0] / 16) && s[1] == Digit('a', bs[0] % 16);
      assert bs == [bs[0]] + bs[1..];
    }
  }

  lemma {:induction false} DecimalNatRoundTrip(n: nat)
    ensures NatValue(DecimalNat(n)) == n
    ensures DecimalNat(n) != [] && DecimalNat(n)[0] != '-' && NoBar(DecimalNat(n))
  {
    if n < 10 {
      DigitRoundTrip('a', n);
      assert [Digit('a', n)][..0] == [];
    } else {
      DecimalNatRoundTrip(n / 10);
      DigitRoundTrip('a', n % 10);
      var s := DecimalNat(n);
      assert s[..|s| - 1] == DecimalNat(n / 10);
    }
  }

  lemma DecimalRoundTrip(n: int)
    ensures IntValue(Decimal(n)) == n && NoBar(Decimal(n))
  {
    DecimalNatRoundTrip(if n < 0 then -n else n);
    if n < 0 {
      assert Decimal(n)[1..] == DecimalNat(-n);
    }
  }

  /** The hashed text determines the bytes of the inputs, the bytes of the facts and the
      version, for all byte strings and all integers. */
  lemma PreimageRoundTrip(inputs: seq<Byte>, facts: seq<Byte>, version: int)
    ensures Parse(Preimage(inputs, facts, version)) == Some((inputs, facts, version))
  {
    hide Hex, UnHex, Decimal, IntValue, Split;
    HexRoundTrip(inputs);
    HexRoundTrip(facts);
    DecimalRoundTrip(version);
    var tail := Hex(facts) + ['|'] + Decimal(version);
    assert Preimage(inputs, facts, version) == Hex(inputs) + ['|'] + tail;
    SplitAtFirst('|', Hex(inputs), tail);
    SplitAtFirst('|', Hex(facts), Decimal(version));
    SplitAlone('|', Decimal(version));
  }

  type Sha = string -> seq<Byte>

  /** SHA-256 as the design relies on it: a digest is never empty, and no two texts collide.  Its
      length is not fixed here, since digests of one length could not be free of collisions. */
  ghost predicate IdealHash(sha: Sha) {
    && (forall s: string :: sha(s) != [])
    && (forall s: string, t: string :: sha(s) == sha(t) ==> s == t)
  }

  function BindingHash(sha: Sha, inputs: seq<Byte>, facts: seq<Byte>, version: int): string {
    Hex(sha(Preimage(inputs, facts, version)))
  }

  /** Equal hashes mean equal inputs, facts and version; and a stored hash is never empty. */
  lemma HashBinds(sha: Sha, i1: seq<Byte>, f1: seq<Byte>, v1: int, i2: seq<Byte>, f2: seq<Byte>, v2: int)
    requires IdealHash(sha)
    ensures BindingHash(sha, i1, f1, v1) == BindingHash(sha, i2, f2, v2) <==> i1 == i2 && f1 == f2 && v1 == v2
    ensures BindingHash(sha, i1, f1, v1) != ""
  {
    hide Hex, UnHex, Preimage, Parse;
    var s, t := Preimage(i1, f1, v1), Preimage(i2, f2, v2);
    HexRoundTrip(sha(s));
    HexRoundTrip(sha(t));
    PreimageRoundTrip(i1, f1, v1);
    PreimageRoundTrip(i2, f2, v2);
  }

  // ---------------------------------------------------------------- the assumption can be met

  /** Three bytes for each character and one to end with */
  function Spread(s: string): seq<Byte> {
    if s == [] then [0] else ThreeBytes(s[0] as int) + Spread(s[1..])
  }

  function ThreeBytes(n: int): (bs: seq<Byte>)
    requires 0 <= n < 0x110000
    ensures |bs| == 3 && n == (bs[0] as int) * 65536 + (bs[1] as int) * 256 + bs[2] as int
  {
    assert n / 65536 < 256;
    [n / 65536, n / 256 % 256, n % 256]
  }

  lemma {:induction false} SpreadInjective(s: string, t: string)
    requires Spread(s) == Spread(t)
    ensures s == t
  {
    SpreadLength(s);
    SpreadLength(t);
    if s != [] {
      var a, b := Spread(s), Spread(t);
      assert a[3..] == Spread(s[1..]) && b[3..] == Spread(t[1..]);
      SpreadInjective(s[1..], t[1..]);
      assert ThreeBytes(s[0] as int) == a[..3] == b[..3] == ThreeBytes(t[0] as int);
      assert s == [s[0]] + s[1..] && t == [t[0]] + t[1..];
    }
  }

  lemma {:induction false} SpreadLength(s: string)
    ensures |Spread(s)| == 3 * |s| + 1
  {
    if s != [] {
      SpreadLength(s[1..]);
    }
  }

  /** Some function is an ideal hash, so what is proved from the assumption is not empty. */
  lemma IdealHashIsPossible()
    ensures IdealHash(Spread)
  {
    forall s: string, t: string | Spread(s) == Spread(t) ensures s == t {
      SpreadInjective(s, t);
    }
  }
}
