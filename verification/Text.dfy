/** Character classes and the string helpers of Go's `strings` package that the
    repository calls.  A string is a sequence of Unicode scalar values. */
module Text {

  datatype Option<+T> = None | Some(value: T) {
    function GetOr(default: T): T { if Some? then value else default }
  }

  predicate IsLower(c: char) { 'a' <= c <= 'z' }

  predicate IsUpper(c: char) { 'A' <= c <= 'Z' }

  predicate IsDigit(c: char) { '0' <= c <= '9' }

  predicate IsAlnum(c: char) { IsLower(c) || IsUpper(c) || IsDigit(c) }

  /** `[a-zA-Z0-9_]` */
  predicate IsWord(c: char) { IsAlnum(c) || c == '_' }

  predicate IsSlash(c: char) { c == '/' }

  /** unicode.IsSpace */
  predicate IsSpace(c: char) {
    var n := c as int;
    9 <= n <= 13 || n == 0x20 || n == 0x85 || n == 0xA0 || n == 0x1680 || 0x2000 <= n <= 0x200A
    || n == 0x2028 || n == 0x2029 || n == 0x202F || n == 0x205F || n == 0x3000
  }

  function LowerChar(c: char): char {
    if IsUpper(c) then (c as int + 32) as char else c
  }

  /** strings.ToLower on text whose letters are ASCII */
  function Lower(s: string): string {
    seq(|s|, i requires 0 <= i < |s| => LowerChar(s[i]))
  }

  /** Each capital becomes the small letter at its place in the alphabet; everything else stays. */
  lemma LowerExactly(s: string)
    ensures |Lower(s)| == |s|
    ensures forall i :: 0 <= i < |s| && 'A' <= s[i] <= 'Z' ==>
              'a' <= Lower(s)[i] <= 'z' && Lower(s)[i] as int - 'a' as int == s[i] as int - 'A' as int
    ensures forall i :: 0 <= i < |s| && !('A' <= s[i] <= 'Z') ==> Lower(s)[i] == s[i]
  {
  }

  function TrimLeft(p: char -> bool, s: string): (r: string)
    ensures |r| <= |s|
    ensures r != [] ==> !p(r[0])
  {
    if s != [] && p(s[0]) then TrimLeft(p, s[1..]) else s
  }

  function TrimRight(p: char -> bool, s: string): (r: string)
    ensures |r| <= |s|
    ensures r != [] ==> !p(r[|r| - 1])
  {
    if s != [] && p(s[|s| - 1]) then TrimRight(p, s[..|s| - 1]) else s
  }

  /** What is left is a suffix, and what was dropped is all of the class. */
  lemma {:induction false} TrimLeftCuts(p: char -> bool, s: string)
    ensures var n := |s| - |TrimLeft(p, s)|;
            TrimLeft(p, s) == s[n..] && forall i :: 0 <= i < n ==> p(s[i])
  {
    if s != [] && p(s[0]) {
      TrimLeftCuts(p, s[1..]);
      var n := |s| - |TrimLeft(p, s)|;
      hide TrimLeft;
      assert s[1..][n - 1..] == s[n..];
      assert forall i :: 1 <= i < n ==> s[i] == s[1..][i - 1];
    }
  }

  /** What is left is a prefix, and what was dropped is all of the class. */
  lemma {:induction false} TrimRightCuts(p: char -> bool, s: string)
    ensures var n := |TrimRight(p, s)|;
            TrimRight(p, s) == s[..n] && forall i :: n <= i < |s| ==> p(s[i])
  {
    if s != [] && p(s[|s| - 1]) {
      TrimRightCuts(p, s[..|s| - 1]);
      var n := |TrimRight(p, s)|;
      hide TrimRight;
      assert s[..|s| - 1][..n] == s[..n];
    }
  }

  function Trim(p: char -> bool, s: string): string {
    TrimRight(p, TrimLeft(p, s))
  }

  /** strings.TrimSpace */
  function TrimSpace(s: string): string { Trim(IsSpace, s) }

  /** Trimming takes away the characters of the class on both sides and nothing else. */
  lemma {:induction false} TrimStrips(p: char -> bool, pre: string, mid: string, post: string)
    requires forall i :: 0 <= i < |pre| ==> p(pre[i])
    requires forall i :: 0 <= i < |post| ==> p(post[i])
    requires mid != "" ==> !p(mid[0]) && !p(mid[|mid| - 1])
    ensures Trim(p, pre + mid + post) == mid
  {
    StripLeft(p, pre, mid + post);
    assert pre + mid + post == pre + (mid + post);
    if mid == "" {
      assert mid + post == post + "";
      StripLeft(p, post, "");
      assert post + "" == post;
    } else {
      assert TrimLeft(p, mid + post) == mid + post;
      StripRight(p, mid, post);
    }
  }

  lemma {:induction false} StripLeft(p: char -> bool, pre: string, s: string)
    requires forall i :: 0 <= i < |pre| ==> p(pre[i])
    ensures TrimLeft(p, pre + s) == TrimLeft(p, s)
  {
    if pre == "" {
      assert pre + s == s;
    } else {
      assert (pre + s)[1..] == pre[1..] + s;
      StripLeft(p, pre[1..], s);
    }
  }

  lemma {:induction false} StripRight(p: char -> bool, s: string, post: string)
    requires forall i :: 0 <= i < |post| ==> p(post[i])
    ensures TrimRight(p, s + post) == TrimRight(p, s)
  {
    if post == "" {
      assert s + post == s;
    } else {
      assert (s + post)[..|s + post| - 1] == s + post[..|post| - 1];
      StripRight(p, s, post[..|post| - 1]);
    }
  }

  /** Trimming leaves nothing exactly of a text that is all of the class. */
  lemma {:induction false} TrimEmptyIff(p: char -> bool, s: string)
    ensures Trim(p, s) == "" <==> forall i :: 0 <= i < |s| ==> p(s[i])
  {
    TrimLeftCuts(p, s);
    TrimRightCuts(p, TrimLeft(p, s));
    var l := TrimLeft(p, s);
    var n := |s| - |l|;
    hide TrimLeft, TrimRight;
    if Trim(p, s) == "" {
      assert l == "" && n == |s|;
    } else {
      assert !p(l[0]) && l[0] == s[n];
    }
  }

  /** The characters of unicode.IsSpace, written out */
  const SPACES := "\t\n\U{0B}\U{0C}\r \U{85}\U{A0}\U{1680}\U{2000}\U{2001}\U{2002}\U{2003}\U{2004}\U{2005}\U{2006}"
                  + "\U{2007}\U{2008}\U{2009}\U{200A}\U{2028}\U{2029}\U{202F}\U{205F}\U{3000}"

  lemma {:induction false} TrimSpaceStrips(pre: string, mid: string, post: string)
    requires (forall c :: c in pre ==> c in SPACES) && (forall c :: c in post ==> c in SPACES)
    requires mid != "" ==> mid[0] !in SPACES && mid[|mid| - 1] !in SPACES
    ensures TrimSpace(pre + mid + post) == mid
  {
    assert forall c :: IsSpace(c) <==> c in SPACES;
    hide IsSpace, Trim;
    TrimStrips(IsSpace, pre, mid, post);
  }

  lemma BlankIff(s: string)
    ensures TrimSpace(s) == "" <==> forall i :: 0 <= i < |s| ==> s[i] in SPACES
  {
    assert forall c :: IsSpace(c) <==> c in SPACES;
    hide IsSpace, Trim;
    TrimEmptyIff(IsSpace, s);
  }

  /** strings.Index for a single character; |s| when it does not occur */
  function IndexOf(c: char, s: string): (i: nat)
    ensures i <= |s|
    ensures i < |s| ==> s[i] == c
    ensures forall j :: 0 <= j < i ==> s[j] != c
  {
    if s == [] || s[0] == c then 0 else 1 + IndexOf(c, s[1..])
  }

  /** strings.Split on a single character */
  function Split(c: char, s: string): (parts: seq<string>)
    ensures |parts| >= 1
    ensures forall k :: 0 <= k < |parts| ==> c !in parts[k]
    decreases |s|
  {
    var i := IndexOf(c, s);
    if i == |s| then [s] else [s[..i]] + Split(c, s[i + 1..])
  }

  lemma SplitAlone(c: char, a: string)
    requires c !in a
    ensures Split(c, a) == [a]
  {
  }

  lemma SplitAtFirst(c: char, a: string, rest: string)
    requires c !in a
    ensures Split(c, a + [c] + rest) == [a] + Split(c, rest)
  {
    var s := a + [c] + rest;
    assert s[|a|] == c && forall j :: 0 <= j < |a| ==> s[j] == a[j];
    assert IndexOf(c, s) == |a|;
    assert s[..|a|] == a && s[|a| + 1..] == rest;
  }

  function Join(c: char, parts: seq<string>): string {
    if parts == [] then "" else if |parts| == 1 then parts[0]
    else parts[0] + [c] + Join(c, parts[1..])
  }

  lemma {:induction false} SplitJoin(c: char, parts: seq<string>)
    requires parts != [] && forall k :: 0 <= k < |parts| ==> c !in parts[k]
    ensures Split(c, Join(c, parts)) == parts
  {
    hide Split;
    var rest := parts[1..];
    assert parts == [parts[0]] + rest;
    if rest == [] {
      SplitAlone(c, parts[0]);
    } else {
      assert forall k :: 0 <= k < |rest| ==> rest[k] == parts[k + 1];
      SplitJoin(c, rest);
      SplitAtFirst(c, parts[0], Join(c, rest));
    }
  }

  function Count(c: char, s: string): nat {
    if s == [] then 0 else (if s[0] == c then 1 else 0) + Count(c, s[1..])
  }

  lemma {:induction false} CountConcat(c: char, s: string, t: string)
    ensures Count(c, s + t) == Count(c, s) + Count(c, t)
  {
    if s == [] {
      assert s + t == t;
    } else {
      assert (s + t)[1..] == s[1..] + t;
      CountConcat(c, s[1..], t);
    }
  }

  lemma {:induction false} CountZero(c: char, s: string)
    ensures Count(c, s) == 0 <==> c !in s
  {
    if s != [] {
      CountZero(c, s[1..]);
      assert s == [s[0]] + s[1..];
    }
  }
}
