/** Expansion of `{{ a.b.c }}` from nested inputs: the `resolve` closure of
    internal/orchestrator/service.go. */
module Template {
  import opened Text
  import opened Json
  import opened Scan

  /** `\s` */
  predicate IsBlank(c: char) { c == ' ' || c == '\t' || c == '\n' || c == '\r' || c as int == 12 }

  /** `[a-zA-Z0-9_\.]` */
  predicate IsKeyChar(c: char) { IsWord(c) || c == '.' }

  predicate KeyText(s: string) { s != [] && forall i :: 0 <= i < |s| ==> IsKeyChar(s[i]) }

  /** Where the run of characters in `p` that starts at `i` ends */
  function End(p: char -> bool, s: string, i: nat): (j: nat)
    requires i <= |s|
    ensures i <= j <= |s| && (j < |s| ==> !p(s[j]))
    ensures forall k :: i <= k < j ==> p(s[k])
    decreases |s| - i
  {
    if i < |s| && p(s[i]) then End(p, s, i + 1) else i
  }

  /** `\{\{\s*([a-zA-Z0-9_\.]+)\s*\}\}` at the start of the text.  The three character
      classes are disjoint, so each greedy part can only stop where it does here. */
  function SlotAt(s: string): Option<Hit> {
    if |s| < 2 || s[0] != '{' || s[1] != '{' then None
    else
      var a := End(IsBlank, s, 2);
      var b := End(IsKeyChar, s, a);
      var c := End(IsBlank, s, b);
      if a < b && c + 2 <= |s| && s[c] == '}' && s[c + 1] == '}' then Some(Hit(c + 2, s[a..b])) else None
  }

  /** The expression itself: braces, blanks up to `a`, a key up to `b`, blanks up to `c`, braces. */
  predicate IsSlot(s: string, a: nat, b: nat, c: nat) {
    && 2 <= a < b <= c && c + 2 <= |s|
    && s[0] == s[1] == '{' && s[c] == s[c + 1] == '}'
    && (forall k :: 2 <= k < a ==> InBlanks(s[k]))
    && (forall k :: a <= k < b ==> InKey(s[k]))
    && (forall k :: b <= k < c ==> InBlanks(s[k]))
  }

  predicate InBlanks(c: char) { c == ' ' || c == '\t' || c == '\n' || c == '\r' || c == '\U{0C}' }

  predicate InKey(c: char) { 'a' <= c <= 'z' || 'A' <= c <= 'Z' || '0' <= c <= '9' || c == '_' || c == '.' }

  lemma InClasses()
    ensures forall c :: (IsBlank(c) <==> InBlanks(c)) && (IsKeyChar(c) <==> InKey(c))
  {
  }

  lemma {:induction false} EndIs(p: char -> bool, s: string, i: nat, j: nat)
    requires i <= j < |s| && (forall k :: i <= k < j ==> p(s[k])) && !p(s[j])
    ensures End(p, s, i) == j
    decreases j - i
  {
    if i < j {
      EndIs(p, s, i + 1, j);
    }
  }

  /** The scan finds a slot exactly when the text starts with one, and there is only one way. */
  lemma SlotFound(s: string, a: nat, b: nat, c: nat)
    requires IsSlot(s, a, b, c)
    ensures SlotAt(s) == Some(Hit(c + 2, s[a..b]))
  {
    EndIs(IsBlank, s, 2, a);
    EndIs(IsKeyChar, s, a, b);
    EndIs(IsBlank, s, b, c);
  }

  lemma SlotParts(s: string) returns (a: nat, b: nat, c: nat)
    requires SlotAt(s).Some?
    ensures IsSlot(s, a, b, c) && SlotAt(s) == Some(Hit(c + 2, s[a..b]))
  {
    a := End(IsBlank, s, 2);
    b := End(IsKeyChar, s, a);
    c := End(IsBlank, s, b);
  }

  /** Following a path of field names down nested objects; null when a field is missing
      or the value on the way is not an object. */
  function Walk(cur: Json, path: seq<string>): Json
    decreases |path|
  {
    if path == [] then cur
    else if cur.JObj? then Walk(if path[0] in cur.fields then cur.fields[path[0]] else JNull, path[1..])
    else JNull
  }

  lemma {:induction false} WalkNothing(path: seq<string>)
    ensures Walk(JNull, path) == JNull
  {
  }

  lemma WalkStep(cur: Json, key: string, path: seq<string>)
    ensures Walk(cur, []) == cur
    ensures Walk(cur, [key] + path)
         == if cur.JObj? && key in cur.fields then Walk(cur.fields[key], path) else JNull
  {
    assert ([key] + path)[1..] == path;
    WalkNothing(path);
  }

  /** The loop of the closure, with its early exit */
  method LookupPath(input: Json, key: string) returns (cur: Json)
    ensures cur == Walk(input, Split('.', key))
  {
    hide Split;
    var segs := Split('.', key);
    cur := input;
    var i := 0;
    while i < |segs|
      invariant 0 <= i <= |segs|
      invariant Walk(input, segs) == Walk(cur, segs[i..])
    {
      assert segs[i..][0] == segs[i] && segs[i..][1..] == segs[i + 1..];
      if cur.JObj? {
        cur := if segs[i] in cur.fields then cur.fields[segs[i]] else JNull;
      } else {
        cur := JNull;
        WalkNothing(segs[i + 1..]);
        break;
      }
      i := i + 1;
    }
  }

  function Lookup(show: Printer, input: Json, key: string): string {
    var cur := Walk(input, Split('.', key));
    if cur.JNull? then "" else show(cur)
  }

  predicate HasDoubleBrace(s: string) {
    exists i :: 0 <= i < |s| - 1 && s[i] == '{' && s[i + 1] == '{'
  }

  /** The replacement callback: the matched text is matched again for its group. */
  function Replacement(show: Printer, input: Json, raw: string): string {
    match SlotAt(raw) case Some(h) => Lookup(show, input, h.name) case None => ""
  }

  lemma SlotAtProper()
    ensures Proper(SlotAt)
  {
  }

  /** `resolve` */
  function Resolve(show: Printer, input: Json, v: Json): string {
    var s := show(v);
    if !HasDoubleBrace(s) then s
    else SlotAtProper(); ReplaceAll(SlotAt, raw => Replacement(show, input, raw), s)
  }

  /** Matching a matched text again finds the same key. */
  lemma Rematch(s: string, t: string)
    requires SlotAt(s).Some? && t <= s && |t| == SlotAt(s).value.len
    ensures SlotAt(t) == SlotAt(s)
  {
    hide SlotAt;
    var a, b, c := SlotParts(s);
    assert s[a..b] == t[a..b];
    SlotFound(t, a, b, c);
  }

  lemma HitRematch(p: Piece)
    requires IsHit(SlotAt, p)
    ensures SlotAt(p.raw) == Some(Hit(|p.raw|, p.name))
  {
    hide SlotAt;
    var t :| p.raw <= t && SlotAt(t) == Some(Hit(|p.raw|, p.name));
    Rematch(t, p.raw);
  }

  lemma {:induction false} NoSlotNoChange(f: string -> string, s: string)
    requires !HasDoubleBrace(s) && Proper(SlotAt)
    ensures ReplaceAll(SlotAt, f, s) == s
    decreases |s|
  {
    if s != [] {
      assert SlotAt(s).None?;
      assert !HasDoubleBrace(s[1..]) by {
        assert forall i :: 0 <= i < |s| - 1 ==> s[1..][i] == s[i + 1];
      }
      NoSlotNoChange(f, s[1..]);
      assert s == [s[0]] + s[1..];
    }
  }

  /** What each slot stands for */
  function Values(show: Printer, input: Json): Piece -> string {
    (p: Piece) => if p.Slot? then Lookup(show, input, p.name) else ""
  }

  /** `resolve` is one pass: the printed text cut into literal characters and slots, each
      slot replaced by the value found for its key.  What a value contains is never
      looked at again. */
  lemma {:induction false} ResolveIsOnePass(show: Printer, input: Json, v: Json)
    ensures Proper(SlotAt)
    ensures Spell(Pieces(SlotAt, show(v))) == show(v)
    ensures Resolve(show, input, v) == Render(Values(show, input), Pieces(SlotAt, show(v)))
  {
    SlotAtProper();
    hide SlotAt;
    var s := show(v);
    var f := raw => Replacement(show, input, raw);
    var g := Values(show, input);
    PiecesSpellText(SlotAt, s);
    var ps := Pieces(SlotAt, s);
    forall i | 0 <= i < |ps| && ps[i].Slot? ensures g(ps[i]) == f(ps[i].raw) {
      HitRematch(ps[i]);
    }
    ReplaceAllRenders(SlotAt, f, g, s);
    if !HasDoubleBrace(s) {
      NoSlotNoChange(f, s);
    }
  }

  /** An expression for a key, with blanks around it */
  ghost predicate IsExpr(p: Part) {
    p.Expr? && exists pre: string, post: string :: IsExprWith(p.raw, pre, p.name, post)
  }

  predicate IsExprWith(raw: string, pre: string, key: string, post: string) {
    && raw == "{{" + pre + key + post + "}}" && key != ""
    && (forall i :: 0 <= i < |pre| ==> InBlanks(pre[i])) && (forall i :: 0 <= i < |post| ==> InBlanks(post[i]))
    && (forall i :: 0 <= i < |key| ==> InKey(key[i]))
  }

  lemma ExprFound(raw: string, pre: string, key: string, post: string, t: string)
    requires IsExprWith(raw, pre, key, post)
    ensures SlotAt(raw + t) == Some(Hit(|raw|, key))
  {
    hide SlotAt, InBlanks, InKey;
    var s := raw + t;
    var a, b := 2 + |pre|, 2 + |pre| + |key|;
    var c := b + |post|;
    assert forall k :: 2 <= k < a ==> s[k] == pre[k - 2];
    assert forall k :: a <= k < b ==> s[k] == key[k - a];
    assert forall k :: b <= k < c ==> s[k] == post[k - b];
    SlotFound(s, a, b, c);
    assert s[a..b] == key;
  }

  lemma ExprParses(p: Part)
    requires IsExpr(p)
    ensures Parsable(SlotAt, p)
  {
    var pre: string, post: string :| IsExprWith(p.raw, pre, p.name, post);
    assert p.raw != "";
    hide SlotAt, IsExprWith;
    forall t: string ensures SlotAt(p.raw + t) == Some(Hit(|p.raw|, p.name)) {
      ExprFound(p.raw, pre, p.name, post, t);
    }
  }

  /** A template text with expressions for keys expands to the same text with, for each key, what the
      input has there. */
  lemma {:induction false} WrittenExpands(show: Printer, input: Json, parts: seq<Part>)
    requires PrintsText(show)
    requires forall i :: 0 <= i < |parts| ==> if parts[i].Expr? then IsExpr(parts[i]) else '{' !in parts[i].text
    ensures Resolve(show, input, JStr(Written(parts))) == Replaced(key => Lookup(show, input, key), parts)
  {
    hide SlotAt, Lookup, Resolve, IsExpr;
    forall i | 0 <= i < |parts| ensures Parsable(SlotAt, parts[i]) {
      if parts[i].Expr? {
        ExprParses(parts[i]);
      }
    }
    ResolveIsOnePass(show, input, JStr(Written(parts)));
    WrittenRenders(SlotAt, Values(show, input), key => Lookup(show, input, key), parts);
  }

  /** What the input has for a key: the printed field of that name, nothing when it is missing or null;
      for a dotted key, what the named field has for the rest; and nothing when the input is no object. */
  lemma {:induction false} LookupReads(show: Printer, input: Json, key: string, rest: string)
    requires '.' !in key
    ensures Lookup(show, input, key)
         == if input.JObj? && key in input.fields && input.fields[key] != JNull then show(input.fields[key]) else ""
    ensures Lookup(show, input, key + "." + rest)
         == if input.JObj? && key in input.fields then Lookup(show, input.fields[key], rest) else ""
  {
    SplitAlone('.', key);
    SplitAtFirst('.', key, rest);
    WalkNothing(Split('.', rest));
    hide Split;
    var tail := Split('.', rest);
    assert ([key] + tail)[1..] == tail && [key][1..] == [];
    WalkStep(input, key, []);
    WalkStep(input, key, tail);
  }
}
