/** Action keys.  The manifest prints `<namespace>.<short>` from a connector kind and
    an operation path (internal/manifest/service.go); the orchestrator parses that key
    and searches the operation rows (internal/orchestrator/service.go). */
module Naming {
  import opened Text

  // ---------------------------------------------------------------- regex passes

  /** A place where `([a-z0-9])([A-Z])` matches. */
  predicate Boundary(a: char, b: char) { (IsLower(a) || IsDigit(a)) && IsUpper(b) }

  predicate HasCamel(s: string) {
    exists i :: 0 <= i < |s| - 1 && Boundary(s[i], s[i + 1])
  }

  predicate NotAlnum(c: char) { !IsAlnum(c) }

  predicate IsHyphen(c: char) { c == '-' }

  /** capRe.ReplaceAllString(s, `$1-$2`): leftmost matches, none overlapping the last one */
  function CamelScan(s: string): string {
    if |s| < 2 then s
    else if Boundary(s[0], s[1]) then [s[0], '-', s[1]] + CamelScan(s[2..])
    else [s[0]] + CamelScan(s[1..])
  }

  /** `[^a-zA-Z0-9]+` replaced by a hyphen */
  function HyphenRuns(s: string): string
    decreases |s|
  {
    if s == [] then []
    else if IsAlnum(s[0]) then [s[0]] + HyphenRuns(s[1..])
    else ['-'] + HyphenRuns(TrimLeft(NotAlnum, s[1..]))
  }

  /** `-+` replaced by a hyphen */
  function CollapseHyphens(s: string): string
    decreases |s|
  {
    if s == [] then []
    else if s[0] != '-' then [s[0]] + CollapseHyphens(s[1..])
    else ['-'] + CollapseHyphens(TrimLeft(IsHyphen, s[1..]))
  }

  // ---------------------------------------------------------------- the two normalisers

  /** `slug` of the orchestrator */
  function Slug(s0: string): string {
    var s := TrimSpace(s0);
    if s == "" then s
    else
      var s := CamelScan(s);
      var s := HyphenRuns(s);
      var s := Lower(Trim(IsHyphen, s));
      CollapseHyphens(s)
  }

  /** The manifest's inline normalisation of a connector kind */
  function ManifestKind(kind: string): string {
    var kind := CamelScan(kind);
    var kind := HyphenRuns(kind);
    var kind := Lower(Trim(IsHyphen, kind));
    CollapseHyphens(kind)
  }

  /** The normalisation of one path segment inside `deriveName` */
  function NameSegment(s: string): string {
    Trim(IsHyphen, Lower(HyphenRuns(s)))
  }

  // ---------------------------------------------------------------- a one-pass reference

  /** What the passes amount to: the ASCII letters and digits of the text in order, a
      hyphen between two of them when other characters lie between (`gap`) or, with
      `camel`, when they form a camel-case boundary.  `prev` is the last one kept. */
  function OnePass(camel: bool, prev: Option<char>, gap: bool, s: string): string
    decreases |s|
  {
    if s == [] then []
    else if !IsAlnum(s[0]) then OnePass(camel, prev, true, s[1..])
    else
      var tail := [s[0]] + OnePass(camel, Some(s[0]), false, s[1..]);
      if prev.Some? && (gap || (camel && Boundary(prev.value, s[0]))) then ['-'] + tail else tail
  }

  /** A hyphen at every camel-case boundary, found by looking at each adjacent pair. */
  function CamelEverywhere(prev: Option<char>, s: string): string
    decreases |s|
  {
    if s == [] then []
    else
      var tail := [s[0]] + CamelEverywhere(Some(s[0]), s[1..]);
      if prev.Some? && Boundary(prev.value, s[0]) then ['-'] + tail else tail
  }

  /** The scan that never overlaps its matches still reaches every boundary. */
  lemma {:induction false} CamelScanHitsEveryBoundary(s: string)
    ensures CamelScan(s) == CamelEverywhere(None, s)
    decreases |s|
  {
    if |s| == 1 {
      assert CamelEverywhere(Some(s[0]), s[1..]) == [];
    } else if |s| >= 2 {
      CamelScanHitsEveryBoundary(s[1..]);
      CamelFromUpper(s[0], s[1..]);
      if Boundary(s[0], s[1]) {
        CamelScanHitsEveryBoundary(s[2..]);
        CamelFromUpper(s[1], s[2..]);
        assert s[1..][1..] == s[2..];
      }
    }
  }

  lemma CamelFromUpper(p: char, s: string)
    ensures s == [] || !Boundary(p, s[0]) ==> CamelEverywhere(Some(p), s) == CamelEverywhere(None, s)
    ensures s != [] && Boundary(p, s[0]) ==> CamelEverywhere(Some(p), s) == ['-'] + CamelEverywhere(None, s)
  {
  }

  /** Splitting at boundaries first and then squeezing is squeezing with `camel` on. */
  lemma {:induction false} CamelThenSqueeze(prev: Option<char>, gap: bool, s: string)
    ensures OnePass(true, prev, gap, s)
         == OnePass(false, prev, gap, CamelEverywhere(if gap then None else prev, s))
    decreases |s|
  {
    if s != [] {
      var adjacent := if gap then None else prev;
      var tail := [s[0]] + CamelEverywhere(Some(s[0]), s[1..]);
      assert tail[1..] == CamelEverywhere(Some(s[0]), s[1..]);
      if !IsAlnum(s[0]) {
        CamelThenSqueeze(prev, true, s[1..]);
        CamelFromUpper(s[0], s[1..]);
        assert CamelEverywhere(adjacent, s) == tail;
      } else {
        CamelThenSqueeze(Some(s[0]), false, s[1..]);
        if adjacent.Some? && Boundary(adjacent.value, s[0]) {
          assert (['-'] + tail)[1..] == tail;
          assert OnePass(false, prev, false, ['-'] + tail) == OnePass(false, prev, true, tail);
        }
      }
    }
  }

  lemma TrimRightCons(c: char, t: string)
    requires c != '-'
    ensures TrimRight(IsHyphen, [c] + t) == [c] + TrimRight(IsHyphen, t)
    decreases |t|
  {
    if t != [] {
      assert ([c] + t)[..|t|] == [c] + t[..|t| - 1];
      if t[|t| - 1] == '-' {
        TrimRightCons(c, t[..|t| - 1]);
      }
    } else {
      assert [c] + t == [c];
      assert TrimRight(IsHyphen, [c]) == [c];
    }
  }

  lemma TrimRightHyphenCons(c: char, t: string)
    requires c != '-'
    ensures TrimRight(IsHyphen, ['-'] + ([c] + t)) == ['-'] + ([c] + TrimRight(IsHyphen, t))
    decreases |t|
  {
    var whole := ['-'] + ([c] + t);
    if t != [] {
      assert whole[..|whole| - 1] == ['-'] + ([c] + t[..|t| - 1]);
      if t[|t| - 1] == '-' {
        TrimRightHyphenCons(c, t[..|t| - 1]);
      }
    } else {
      assert TrimRight(IsHyphen, whole) == whole;
    }
  }

  lemma {:induction false} SkipRun(camel: bool, prev: Option<char>, s: string)
    ensures OnePass(camel, prev, true, s) == OnePass(camel, prev, true, TrimLeft(NotAlnum, s))
  {
    if s != [] && NotAlnum(s[0]) {
      SkipRun(camel, prev, s[1..]);
    }
  }

  lemma {:induction false} SqueezeAfter(p: char, s: string)
    ensures OnePass(false, Some(p), false, s) == TrimRight(IsHyphen, HyphenRuns(s))
    decreases |s|
  {
    if s == [] {
    } else if IsAlnum(s[0]) {
      SqueezeAfter(s[0], s[1..]);
      TrimRightCons(s[0], HyphenRuns(s[1..]));
    } else {
      var r := TrimLeft(NotAlnum, s[1..]);
      SkipRun(false, Some(p), s[1..]);
      if r == [] {
        assert HyphenRuns(s) == ['-'];
        assert TrimRight(IsHyphen, ['-']) == TrimRight(IsHyphen, []);
      } else {
        SqueezeAfter(r[0], r[1..]);
        TrimRightHyphenCons(r[0], HyphenRuns(r[1..]));
      }
    }
  }

  lemma TrimLeftCons(c: char, t: string)
    ensures TrimLeft(IsHyphen, [c] + t) == if c == '-' then TrimLeft(IsHyphen, t) else [c] + t
  {
    assert ([c] + t)[1..] == t;
  }

  /** Hyphenating runs and trimming is the one pass without camel-case splitting. */
  lemma {:induction false} SqueezeFromStart(s: string)
    ensures OnePass(false, None, false, s) == Trim(IsHyphen, HyphenRuns(s))
    decreases |s|
  {
    if s == [] {
    } else if IsAlnum(s[0]) {
      var h := HyphenRuns(s[1..]);
      SqueezeAfter(s[0], s[1..]);
      TrimLeftCons(s[0], h);
      TrimRightCons(s[0], h);
    } else {
      var r := TrimLeft(NotAlnum, s[1..]);
      SkipRun(false, None, s[1..]);
      GapAtStart(false, r);
      SqueezeFromStart(r);
      TrimLeftCons('-', HyphenRuns(r));
    }
  }

  lemma {:induction false} GapAtStart(camel: bool, s: string)
    ensures OnePass(camel, None, true, s) == OnePass(camel, None, false, s)
  {
  }

  // ---------------------------------------------------------------- normal form

  /** Characters kept by the one pass; every hyphen is followed by a letter or digit. */
  predicate Hyphenated(t: string) {
    && (forall i :: 0 <= i < |t| ==> t[i] == '-' || IsAlnum(t[i]))
    && (forall i :: 0 <= i < |t| && t[i] == '-' ==> i + 1 < |t| && t[i + 1] != '-')
  }

  /** Empty, or runs of `[a-z0-9]` joined by single hyphens. */
  predicate IsSlug(t: string) {
    && Hyphenated(t)
    && (forall i :: 0 <= i < |t| ==> !IsUpper(t[i]))
    && (t != [] ==> t[0] != '-')
  }

  lemma {:induction false} OnePassHyphenated(camel: bool, prev: Option<char>, gap: bool, s: string)
    ensures var t := OnePass(camel, prev, gap, s);
            Hyphenated(t) && (prev.None? && t != [] ==> t[0] != '-')
            && (t == [] <==> forall i :: 0 <= i < |s| ==> !IsAlnum(s[i]))
    decreases |s|
  {
    if s != [] {
      if IsAlnum(s[0]) {
        OnePassHyphenated(camel, Some(s[0]), false, s[1..]);
      } else {
        OnePassHyphenated(camel, prev, true, s[1..]);
        assert s == [s[0]] + s[1..];
      }
    }
  }

  lemma {:induction false} CollapseIsIdentity(t: string)
    requires Hyphenated(t)
    ensures CollapseHyphens(t) == t
    decreases |t|
  {
    if t != [] {
      assert Hyphenated(t[1..]) by {
        assert forall i :: 0 <= i < |t| - 1 ==> t[1..][i] == t[i + 1];
      }
      CollapseIsIdentity(t[1..]);
      assert t == [t[0]] + t[1..];
      if t[0] == '-' {
        assert t[1] != '-';
        assert TrimLeft(IsHyphen, t[1..]) == t[1..];
      }
    }
  }

  /** The two trims of the pipeline, spelled once: lower-casing commutes with trimming. */
  lemma {:induction false} LowerTrimRight(s: string)
    ensures TrimRight(IsHyphen, Lower(s)) == Lower(TrimRight(IsHyphen, s))
  {
    if s != [] && s[|s| - 1] == '-' {
      LowerTrimRight(s[..|s| - 1]);
      assert Lower(s)[..|s| - 1] == Lower(s[..|s| - 1]);
    }
  }

  lemma {:induction false} LowerTrimLeft(s: string)
    ensures TrimLeft(IsHyphen, Lower(s)) == Lower(TrimLeft(IsHyphen, s))
  {
    if s != [] && s[0] == '-' {
      LowerTrimLeft(s[1..]);
      assert Lower(s)[1..] == Lower(s[1..]);
    }
  }

  lemma LowerKeepsHyphenated(t: string)
    requires Hyphenated(t) && (t != [] ==> t[0] != '-')
    ensures IsSlug(Lower(t))
  {
    var u := Lower(t);
    assert forall i :: 0 <= i < |t| ==> u[i] == LowerChar(t[i]);
  }

  /** The manifest's passes in one: its `-+` pass changes nothing. */
  lemma {:induction false} ManifestKindIsOnePass(kind: string)
    ensures ManifestKind(kind) == Lower(OnePass(true, None, false, kind))
    ensures ManifestKind(kind) == Lower(Trim(IsHyphen, HyphenRuns(CamelScan(kind))))
    ensures IsSlug(ManifestKind(kind))
  {
    CamelScanHitsEveryBoundary(kind);
    CamelThenSqueeze(None, false, kind);
    SqueezeFromStart(CamelScan(kind));
    var t := OnePass(true, None, false, kind);
    assert t == Trim(IsHyphen, HyphenRuns(CamelScan(kind)));
    OnePassHyphenated(true, None, false, kind);
    LowerKeepsHyphenated(t);
    CollapseIsIdentity(Lower(t));
  }

  lemma {:induction false} DropTrailing(camel: bool, prev: Option<char>, gap: bool, s: string, w: char)
    requires !IsAlnum(w)
    ensures OnePass(camel, prev, gap, s + [w]) == OnePass(camel, prev, gap, s)
    decreases |s|
  {
    if s == [] {
      assert s + [w] == [w];
    } else {
      assert (s + [w])[1..] == s[1..] + [w];
      DropTrailing(camel, if IsAlnum(s[0]) then Some(s[0]) else prev, !IsAlnum(s[0]), s[1..], w);
    }
  }

  lemma SpaceIsNotAlnum(c: char)
    ensures IsSpace(c) ==> !IsAlnum(c)
  {
  }

  lemma {:induction false} SpaceLeft(s: string)
    ensures OnePass(true, None, false, TrimLeft(IsSpace, s)) == OnePass(true, None, false, s)
  {
    hide IsSpace;
    if s != [] && IsSpace(s[0]) {
      SpaceLeft(s[1..]);
      GapAtStart(true, s[1..]);
      SpaceIsNotAlnum(s[0]);
    }
  }

  lemma {:induction false} SpaceRight(s: string)
    ensures OnePass(true, None, false, TrimRight(IsSpace, s)) == OnePass(true, None, false, s)
  {
    if s != [] && IsSpace(s[|s| - 1]) {
      SpaceRight(s[..|s| - 1]);
      DropTrailing(true, None, false, s[..|s| - 1], s[|s| - 1]);
      assert s == s[..|s| - 1] + [s[|s| - 1]];
    }
  }

  lemma SlugTrimsFirst(s: string)
    ensures Slug(s) == ManifestKind(TrimSpace(s))
  {
    hide TrimSpace;
    assert CamelScan("") == "" && HyphenRuns("") == "";
    assert TrimLeft(IsHyphen, "") == "" && TrimRight(IsHyphen, "") == "";
    assert Lower("") == "" && CollapseHyphens("") == "";
  }

  /** The orchestrator's five passes and the manifest's four agree on every text, their
      result is in normal form, and it is the lower-cased one pass. */
  lemma {:induction false} SlugEqualsManifestKind(s: string)
    ensures Slug(s) == ManifestKind(s) == Lower(OnePass(true, None, false, s))
    ensures IsSlug(Slug(s))
    ensures Slug(s) == "" <==> forall i :: 0 <= i < |s| ==> !IsAlnum(s[i])
  {
    hide Slug, ManifestKind, CamelScan, HyphenRuns, CollapseHyphens, TrimLeft, TrimRight, IsSpace, IsSlug;
    SlugTrimsFirst(s);
    SpaceLeft(s);
    SpaceRight(TrimLeft(IsSpace, s));
    ManifestKindIsOnePass(s);
    ManifestKindIsOnePass(TrimSpace(s));
    OnePassHyphenated(true, None, false, s);
    assert |Lower(OnePass(true, None, false, s))| == |OnePass(true, None, false, s)|;
  }

  lemma {:induction false} OnePassFixesTail(p: char, t: string)
    requires Hyphenated(t) && forall i :: 0 <= i < |t| ==> !IsUpper(t[i])
    ensures OnePass(true, Some(p), false, t) == t
    decreases |t|
  {
    if t != [] {
      if t[0] == '-' {
        assert t[1] != '-';
        HyphenatedSuffix(t, 2);
        OnePassFixesTail(t[1], t[2..]);
        assert t[1..][1..] == t[2..];
        assert t == ['-'] + ([t[1]] + t[2..]);
      } else {
        HyphenatedSuffix(t, 1);
        OnePassFixesTail(t[0], t[1..]);
        assert t == [t[0]] + t[1..];
      }
    }
  }

  lemma HyphenatedSuffix(t: string, k: nat)
    requires Hyphenated(t) && k <= |t| && forall i :: 0 <= i < |t| ==> !IsUpper(t[i])
    ensures Hyphenated(t[k..]) && forall i :: 0 <= i < |t| - k ==> !IsUpper(t[k..][i])
  {
    var u := t[k..];
    forall i | 0 <= i < |u|
      ensures u[i] == '-' || IsAlnum(u[i])
      ensures u[i] == '-' ==> i + 1 < |u| && u[i + 1] != '-'
    {
      assert u[i] == t[k + i];
      if i + 1 < |u| { assert u[i + 1] == t[k + i + 1]; }
    }
  }

  lemma OnePassFixesNormalForms(t: string)
    requires IsSlug(t)
    ensures OnePass(true, None, false, t) == t
  {
    if t != [] {
      HyphenatedSuffix(t, 1);
      OnePassFixesTail(t[0], t[1..]);
      assert t == [t[0]] + t[1..];
    }
  }

  /** A text in normal form is its own slug. */
  lemma SlugFixesNormalForms(t: string)
    requires IsSlug(t)
    ensures Slug(t) == t
  {
    SlugEqualsManifestKind(t);
    OnePassFixesNormalForms(t);
    assert forall i :: 0 <= i < |t| ==> LowerChar(t[i]) == t[i];
    assert Lower(t) == t;
  }

  lemma {:induction false} SlugIdempotent(s: string)
    ensures Slug(Slug(s)) == Slug(s)
  {
    SlugEqualsManifestKind(s);
    SlugFixesNormalForms(Slug(s));
  }

  // ---------------------------------------------------------------- words

  predicate InWord(c: char) { 'a' <= c <= 'z' || 'A' <= c <= 'Z' || '0' <= c <= '9' }

  /** A small letter or digit before a capital */
  predicate Hump(a: char, b: char) { ('a' <= a <= 'z' || '0' <= a <= '9') && 'A' <= b <= 'Z' }

  /** Words, each with the gap that follows it */
  function Woven(words: seq<string>, gaps: seq<string>): string
    requires |words| == |gaps|
  {
    if words == [] then "" else words[0] + (gaps[0] + Woven(words[1..], gaps[1..]))
  }

  predicate IsWordAt(camel: bool, w: string) {
    && w != "" && (forall i :: 0 <= i < |w| ==> InWord(w[i]))
    && (camel ==> forall i :: 0 <= i < |w| - 1 ==> !Hump(w[i], w[i + 1]))
  }

  predicate IsGap(g: string) { forall i :: 0 <= i < |g| ==> !InWord(g[i]) }

  /** Words of letters and digits.  Other characters lie between two of them, or nothing where, with
      `camel`, a capital follows a small letter or digit; inside a word none does. */
  predicate AreWords(camel: bool, words: seq<string>, gaps: seq<string>) {
    && |words| == |gaps|
    && (forall i :: 0 <= i < |words| ==> IsWordAt(camel, words[i]) && IsGap(gaps[i]))
    && (forall i :: 0 <= i < |words| - 1 ==>
          gaps[i] != "" || (camel && Hump(words[i][|words[i]| - 1], words[i + 1][0])))
  }

  lemma {:induction false} PassGap(camel: bool, prev: Option<char>, gap: bool, g: string, rest: string)
    requires IsGap(g)
    ensures OnePass(camel, prev, gap, g + rest) == OnePass(camel, prev, gap || g != "", rest)
    decreases |g|
  {
    if g == "" {
      assert g + rest == rest;
    } else {
      assert (g + rest)[1..] == g[1..] + rest && !InWord(g[0]);
      PassGap(camel, prev, true, g[1..], rest);
    }
  }

  /** The hyphen that goes before a kept character */
  function HyphenBefore(camel: bool, prev: Option<char>, gap: bool, c: char): string {
    if prev.Some? && (gap || (camel && Hump(prev.value, c))) then "-" else ""
  }

  lemma PassLetter(camel: bool, prev: Option<char>, gap: bool, c: char, t: string)
    requires InWord(c)
    ensures OnePass(camel, prev, gap, [c] + t)
         == HyphenBefore(camel, prev, gap, c) + ([c] + OnePass(camel, Some(c), false, t))
  {
    assert ([c] + t)[1..] == t;
  }

  lemma {:induction false} PassWord(camel: bool, prev: Option<char>, gap: bool, w: string, rest: string)
    requires IsWordAt(camel, w)
    ensures OnePass(camel, prev, gap, w + rest)
         == HyphenBefore(camel, prev, gap, w[0]) + (w + OnePass(camel, Some(w[|w| - 1]), false, rest))
    decreases |w|
  {
    hide OnePass, HyphenBefore, InWord, Hump;
    var c := w[0];
    assert InWord(c);
    PassLetter(camel, prev, gap, c, w[1..] + rest);
    assert w + rest == [c] + (w[1..] + rest);
    if |w| == 1 {
      assert w == [c] && w[1..] + rest == rest;
    } else {
      assert IsWordAt(camel, w[1..]);
      PassWord(camel, Some(c), false, w[1..], rest);
      NoHyphenInside(camel, w);
      hide *;
      assert w == [c] + w[1..];
    }
  }

  lemma NoHyphenInside(camel: bool, w: string)
    requires IsWordAt(camel, w) && |w| > 1
    ensures forall s: string :: HyphenBefore(camel, Some(w[0]), false, w[1]) + s == s
  {
    assert camel ==> !Hump(w[0], w[1]);
  }

  lemma {:induction false} PassWords(camel: bool, prev: Option<char>, gap: bool, words: seq<string>, gaps: seq<string>)
    requires |words| == |gaps| && AreWords(camel, words, gaps)
    requires prev.Some? && words != [] ==> gap || (camel && Hump(prev.value, words[0][0]))
    ensures OnePass(camel, prev, gap, Woven(words, gaps))
         == if words == [] then "" else (if prev.Some? then "-" else "") + Join('-', words)
    decreases |words|
  {
    hide IsWordAt, IsGap, Hump, OnePass, AreWords, HyphenBefore;
    if words == [] {
      NothingKept(camel, prev, gap);
    } else {
      var w, rest := words[0], Woven(words[1..], gaps[1..]);
      WordsAfter(camel, words, gaps);
      PassWord(camel, prev, gap, w, gaps[0] + rest);
      PassGap(camel, Some(w[|w| - 1]), false, gaps[0], rest);
      PassWords(camel, Some(w[|w| - 1]), gaps[0] != "", words[1..], gaps[1..]);
      HyphenIsDue(camel, prev, gap, w[0]);
      JoinStep(words);
    }
  }

  lemma HyphenIsDue(camel: bool, prev: Option<char>, gap: bool, c: char)
    requires prev.Some? ==> gap || (camel && Hump(prev.value, c))
    ensures HyphenBefore(camel, prev, gap, c) == if prev.Some? then "-" else ""
  {
  }

  lemma NothingKept(camel: bool, prev: Option<char>, gap: bool)
    ensures OnePass(camel, prev, gap, "") == ""
  {
  }

  lemma JoinStep(words: seq<string>)
    requires words != []
    ensures Join('-', words)
         == words[0] + if words[1..] == [] then "" else "-" + Join('-', words[1..])
  {
    assert words[0] + ['-'] + Join('-', words[1..]) == words[0] + ("-" + Join('-', words[1..]));
  }

  lemma WordsAfter(camel: bool, words: seq<string>, gaps: seq<string>)
    requires AreWords(camel, words, gaps) && words != []
    ensures AreWords(camel, words[1..], gaps[1..])
    ensures IsWordAt(camel, words[0]) && IsGap(gaps[0]) && words[0] != "" && (|words| > 1 ==> words[1] != "")
    ensures |words| > 1 ==> gaps[0] != "" || (camel && Hump(words[0][|words[0]| - 1], words[1..][0][0]))
  {
    forall i | 0 <= i < |words| - 2
      ensures gaps[1..][i] != "" || (camel && Hump(words[1..][i][|words[1..][i]| - 1], words[1..][i + 1][0])) {
      assert words[1..][i] == words[i + 1] && words[1..][i + 1] == words[i + 2];
    }
    assert |words| > 1 ==> words[1..][0] == words[0 + 1];
  }

  /** The slug of any text: its words, lower-cased and joined by hyphens. */
  lemma {:induction false} SlugJoinsWords(start: string, words: seq<string>, gaps: seq<string>)
    requires |words| == |gaps| && IsGap(start) && AreWords(true, words, gaps)
    ensures Slug(start + Woven(words, gaps)) == Lower(Join('-', words))
  {
    hide *;
    SlugEqualsManifestKind(start + Woven(words, gaps));
    PassText(true, start, words, gaps);
  }

  lemma PassText(camel: bool, start: string, words: seq<string>, gaps: seq<string>)
    requires |words| == |gaps| && IsGap(start) && AreWords(camel, words, gaps)
    ensures OnePass(camel, None, false, start + Woven(words, gaps)) == Join('-', words)
  {
    hide OnePass, Join, IsGap, AreWords, Woven;
    PassGap(camel, None, false, start, Woven(words, gaps));
    PassWords(camel, None, start != "", words, gaps);
    NoWords();
    assert "" + Join('-', words) == Join('-', words);
  }

  /** The segment normaliser of the manifest: the same of words that no capital ends. */
  lemma {:induction false} NameJoinsWords(start: string, words: seq<string>, gaps: seq<string>)
    requires |words| == |gaps| && IsGap(start) && AreWords(false, words, gaps)
    ensures NameSegment(start + Woven(words, gaps)) == Lower(Join('-', words))
  {
    hide *;
    NameSegmentIsOnePass(start + Woven(words, gaps));
    PassText(false, start, words, gaps);
  }

  /** Every text is made of words and gaps. */
  lemma {:induction false} EveryTextIsWords(camel: bool, s: string)
    returns (start: string, words: seq<string>, gaps: seq<string>)
    ensures |words| == |gaps| && IsGap(start) && AreWords(camel, words, gaps) && s == start + Woven(words, gaps)
  {
    start, words, gaps := "", [], [];
    if s != "" {
      start, words, gaps := EveryTextIsWords(camel, s[1..]);
      var c, rest := s[0], Woven(words, gaps);
      assert s == [c] + (start + rest);
      if !InWord(c) {
        start := [c] + start;
      } else if start == "" && words != [] && !(camel && Hump(c, words[0][0])) {
        GrowFirst(camel, c, words, gaps);
        words := words[0 := [c] + words[0]];
      } else {
        AddFirst(camel, c, start, words, gaps);
        words, gaps, start := [[c]] + words, [start] + gaps, "";
      }
    }
  }

  lemma GrowFirst(camel: bool, c: char, words: seq<string>, gaps: seq<string>)
    requires AreWords(camel, words, gaps) && words != [] && InWord(c) && !(camel && Hump(c, words[0][0]))
    ensures var ws := words[0 := [c] + words[0]];
            AreWords(camel, ws, gaps) && Woven(ws, gaps) == [c] + Woven(words, gaps)
  {
    var w := [c] + words[0];
    var ws := words[0 := w];
    assert IsWordAt(camel, words[0]) && ws[1..] == words[1..] && w[|w| - 1] == words[0][|words[0]| - 1];
    assert IsWordAt(camel, w) by {
      assert forall i :: 0 < i < |w| ==> w[i] == words[0][i - 1];
    }
    hide IsWordAt, IsGap, Hump;
    forall i | 0 <= i < |ws| - 1
      ensures gaps[i] != "" || (camel && Hump(ws[i][|ws[i]| - 1], ws[i + 1][0])) {
      GapAt(camel, words, gaps, i);
    }
  }

  lemma GapAt(camel: bool, words: seq<string>, gaps: seq<string>, i: nat)
    requires AreWords(camel, words, gaps) && i + 1 < |words|
    ensures words[i] != "" && words[i + 1] != ""
    ensures gaps[i] != "" || (camel && Hump(words[i][|words[i]| - 1], words[i + 1][0]))
  {
    assert IsWordAt(camel, words[i]) && IsWordAt(camel, words[i + 1]);
  }

  lemma AddFirst(camel: bool, c: char, gap: string, words: seq<string>, gaps: seq<string>)
    requires AreWords(camel, words, gaps) && InWord(c) && IsGap(gap)
    requires words != [] ==> gap != "" || (camel && Hump(c, words[0][0]))
    ensures AreWords(camel, [[c]] + words, [gap] + gaps)
    ensures Woven([[c]] + words, [gap] + gaps) == [c] + (gap + Woven(words, gaps))
  {
    var ws, gs := [[c]] + words, [gap] + gaps;
    assert IsWordAt(camel, [c]) && ws[1..] == words && gs[1..] == gaps;
    hide IsWordAt, IsGap, Hump;
    forall i | 0 <= i < |ws| - 1
      ensures gs[i] != "" || (camel && Hump(ws[i][|ws[i]| - 1], ws[i + 1][0])) {
      if i > 0 {
        assert ws[i] == words[i - 1] && ws[i + 1] == words[i] && gs[i] == gaps[i - 1];
        GapAt(camel, words, gaps, i - 1);
      }
    }
  }

  lemma NameSegmentIsOnePass(s: string)
    ensures NameSegment(s) == Lower(OnePass(false, None, false, s))
  {
    hide HyphenRuns, TrimLeft, TrimRight, Lower, OnePass;
    LowerTrimLeft(HyphenRuns(s));
    LowerTrimRight(TrimLeft(IsHyphen, HyphenRuns(s)));
    SqueezeFromStart(s);
  }

  lemma NoWords()
    ensures Join('-', []) == ""
  {
  }
}
