/** Path-parameter substitution of `Execute` (internal/orchestrator/service.go). */
module Url {
  import opened Text
  import opened Json
  import opened Scan
  import opened PathEscape
  import opened Template

  /** `\{([a-zA-Z0-9_]+)\}` at the start of the text */
  function BraceAt(s: string): Option<Hit> {
    if s == [] || s[0] != '{' then None
    else
      var b := End(IsWord, s, 1);
      if 1 < b < |s| && s[b] == '}' then Some(Hit(b + 1, s[1..b])) else None
  }

  lemma BraceAtProper()
    ensures Proper(BraceAt)
  {
  }

  predicate InName(c: char) { 'a' <= c <= 'z' || 'A' <= c <= 'Z' || '0' <= c <= '9' || c == '_' }

  /** A name in braces is found at the start of a text, whatever follows it. */
  lemma BraceFound(name: string, t: string)
    requires name != "" && forall i :: 0 <= i < |name| ==> InName(name[i])
    ensures BraceAt("{" + name + "}" + t) == Some(Hit(|name| + 2, name))
  {
    var s := "{" + name + "}" + t;
    forall k | 1 <= k < |name| + 1 ensures IsWord(s[k]) {
      assert s[k] == name[k - 1] && InName(name[k - 1]);
    }
    EndIs(IsWord, s, 1, |name| + 1);
    assert s[1..|name| + 1] == name;
  }

  /** And nothing else is found there. */
  lemma BraceParts(s: string) returns (name: string, t: string)
    requires BraceAt(s).Some?
    ensures s == "{" + name + "}" + t && name != "" && forall i :: 0 <= i < |name| ==> InName(name[i])
    ensures BraceAt(s) == Some(Hit(|name| + 2, name))
  {
    var b := End(IsWord, s, 1);
    name, t := s[1..b], s[b + 1..];
    forall i | 0 <= i < |name| ensures InName(name[i]) {
      assert name[i] == s[i + 1] && IsWord(s[i + 1]);
    }
  }

  predicate IsBrace(c: char) { c == '{' || c == '}' }

  /** The replacement callback; a placeholder without a value stays as it is. */
  function Filled(show: Printer, params: map<string, Json>, input: Json, raw: string): string {
    var name := Trim(IsBrace, raw);
    if name in params then
      var val := Escape(Resolve(show, input, params[name]));
      if val == "" then raw else val
    else raw
  }

  datatype Outcome = Ready(url: string) | Unresolved(url: string)

  function PathParams(tmpl: Json): Option<map<string, Json>> {
    if tmpl.JObj? && "path_params" in tmpl.fields && tmpl.fields["path_params"].JObj?
    then Some(tmpl.fields["path_params"].fields) else None
  }

  /** The URL before its query is attached, or the early failure */
  function TargetURL(show: Printer, base: string, path: string, tmpl: Json, input: Json): Outcome {
    var full := TrimRight(IsSlash, base) + path;
    BraceAtProper();
    var full := match PathParams(tmpl)
      case Some(params) => ReplaceAll(BraceAt, raw => Filled(show, params, input, raw), full)
      case None => full;
    if '{' in full then Unresolved(full) else Ready(full)
  }

  // ---------------------------------------------------------------- what it means

  /** The text a placeholder stands for; empty when it is not mapped. */
  function ValueFor(show: Printer, tmpl: Json, input: Json, name: string): string {
    match PathParams(tmpl)
    case Some(params) => if name in params then Resolve(show, input, params[name]) else ""
    case None => ""
  }

  function FillPiece(show: Printer, tmpl: Json, input: Json): Piece -> string {
    (p: Piece) =>
      if !p.Slot? then ""
      else if ValueFor(show, tmpl, input, p.name) == "" then p.raw
      else Escape(ValueFor(show, tmpl, input, p.name))
  }

  /** Every placeholder replaced by the percent-encoding of its value */
  function Encoded(show: Printer, tmpl: Json, input: Json): Piece -> string {
    (p: Piece) => if p.Slot? then Escape(ValueFor(show, tmpl, input, p.name)) else ""
  }

  lemma HitShape(p: Piece)
    requires IsHit(BraceAt, p)
    ensures p.raw == ['{'] + p.name + ['}'] && p.name != [] && forall i :: 0 <= i < |p.name| ==> IsWord(p.name[i])
  {
    var t :| p.raw <= t && BraceAt(t) == Some(Hit(|p.raw|, p.name));
    var b := End(IsWord, t, 1);
    assert p.raw == t[..b + 1];
  }

  lemma TrimBraces(name: string)
    requires name != [] && !IsBrace(name[0]) && !IsBrace(name[|name| - 1])
    ensures Trim(IsBrace, ['{'] + name + ['}']) == name
  {
    var raw := ['{'] + name + ['}'];
    assert raw[1..] == name + ['}'];
    assert TrimLeft(IsBrace, raw) == name + ['}'];
    assert (name + ['}'])[..|name|] == name;
    assert TrimRight(IsBrace, name + ['}']) == TrimRight(IsBrace, name);
  }

  lemma {:induction false} FillMatches(show: Printer, tmpl: Json, input: Json, p: Piece)
    requires p.Slot? && IsHit(BraceAt, p)
    ensures FillPiece(show, tmpl, input)(p)
         == match PathParams(tmpl) case Some(params) => Filled(show, params, input, p.raw) case None => p.raw
  {
    hide BraceAt, IsHit, Trim, Resolve;
    HitShape(p);
    assert IsWord(p.name[0]) && IsWord(p.name[|p.name| - 1]);
    TrimBraces(p.name);
    EscapeKeepsStructure(ValueFor(show, tmpl, input, p.name));
  }

  lemma {:induction false} RenderHas(c: char, g: Piece -> string, ps: seq<Piece>)
    ensures c in Render(g, ps) <==>
            exists i :: 0 <= i < |ps| && (ps[i] == Lit(c) || (ps[i].Slot? && c in g(ps[i])))
  {
    if ps != [] {
      RenderHas(c, g, ps[1..]);
      assert c in Render(g, ps) <==> c in RenderPiece(g, ps[0]) || c in Render(g, ps[1..]);
      assert forall i :: 0 <= i < |ps| - 1 ==> ps[1..][i] == ps[i + 1];
      if i :| 0 <= i < |ps| && (ps[i] == Lit(c) || (ps[i].Slot? && c in g(ps[i]))) {
        if i > 0 { assert ps[1..][i - 1] == ps[i]; }
      }
    }
  }

  lemma {:induction false} RenderCount(c: char, f: Piece -> string, g: Piece -> string, ps: seq<Piece>)
    requires forall i :: 0 <= i < |ps| && ps[i].Slot? ==> c !in f(ps[i]) && c !in g(ps[i])
    ensures Count(c, Render(f, ps)) == Count(c, Render(g, ps))
  {
    if ps != [] {
      assert forall i :: 0 <= i < |ps| - 1 ==> ps[1..][i] == ps[i + 1];
      RenderCount(c, f, g, ps[1..]);
      CountConcat(c, RenderPiece(f, ps[0]), Render(f, ps[1..]));
      CountConcat(c, RenderPiece(g, ps[0]), Render(g, ps[1..]));
      if ps[0].Slot? {
        CountZero(c, f(ps[0]));
        CountZero(c, g(ps[0]));
      }
    }
  }

  /** A placeholder that is unmapped or empty, or an opening brace outside a placeholder */
  predicate Open(show: Printer, tmpl: Json, input: Json, p: Piece) {
    p == Lit('{') || (p.Slot? && ValueFor(show, tmpl, input, p.name) == "")
  }

  predicate Unbound(show: Printer, tmpl: Json, input: Json, ps: seq<Piece>) {
    exists i :: 0 <= i < |ps| && Open(show, tmpl, input, ps[i])
  }

  lemma SubstitutionRenders(show: Printer, base: string, path: string, tmpl: Json, input: Json)
    ensures Proper(BraceAt)
    ensures var full := TrimRight(IsSlash, base) + path;
            && Spell(Pieces(BraceAt, full)) == full
            && TargetURL(show, base, path, tmpl, input).url
               == Render(FillPiece(show, tmpl, input), Pieces(BraceAt, full))
  {
    BraceAtProper();
    hide BraceAt, Filled, FillPiece, IsHit, TrimRight, Pieces, ReplaceAll, Render;
    var full := TrimRight(IsSlash, base) + path;
    var ps := Pieces(BraceAt, full);
    var g := FillPiece(show, tmpl, input);
    PiecesSpellText(BraceAt, full);
    forall i | 0 <= i < |ps| && ps[i].Slot?
      ensures g(ps[i]) == match PathParams(tmpl)
                        case Some(params) => Filled(show, params, input, ps[i].raw) case None => ps[i].raw
    {
      FillMatches(show, tmpl, input, ps[i]);
    }
    match PathParams(tmpl) {
      case Some(params) => ReplaceAllRenders(BraceAt, raw => Filled(show, params, input, raw), g, full);
      case None => RenderAgrees(g, Raw(), ps);
    }
  }

  /** A filled placeholder holds a brace only when it has no value, and never a separator. */
  lemma FilledPiece(show: Printer, tmpl: Json, input: Json, p: Piece)
    requires p.Slot? && IsHit(BraceAt, p)
    ensures '{' in FillPiece(show, tmpl, input)(p) <==> ValueFor(show, tmpl, input, p.name) == ""
    ensures '/' !in FillPiece(show, tmpl, input)(p) && '?' !in FillPiece(show, tmpl, input)(p)
    ensures '/' !in p.raw && '?' !in p.raw
  {
    hide ValueFor, Escape, BraceAt;
    HitShape(p);
    assert p.raw[0] == '{';
    EscapeKeepsStructure(ValueFor(show, tmpl, input, p.name));
  }

  /** Substitution keeps the structure of the URL.  It is refused exactly when an opening
      brace is outside a placeholder or some placeholder has no value; otherwise every
      placeholder is replaced by the encoding of its value, all other text survives in
      order, and no path separator or query mark is gained or lost. */
  lemma {:induction false} SubstitutionKeepsStructure(show: Printer, base: string, path: string,
      tmpl: Json, input: Json)
    ensures Proper(BraceAt)
    ensures var full := TrimRight(IsSlash, base) + path;
            var ps := Pieces(BraceAt, full);
            var out := TargetURL(show, base, path, tmpl, input);
            && (out.Unresolved? <==> Unbound(show, tmpl, input, ps))
            && (out.Ready? ==> out.url == Render(Encoded(show, tmpl, input), ps))
            && Count('/', out.url) == Count('/', full)
            && Count('?', out.url) == Count('?', full)
  {
    BraceAtProper();
    hide BraceAt, TrimRight, Pieces, Render, ValueFor, Escape, IsHit, FillPiece, Count;
    SubstitutionRenders(show, base, path, tmpl, input);
    var full := TrimRight(IsSlash, base) + path;
    var ps := Pieces(BraceAt, full);
    var g := FillPiece(show, tmpl, input);
    PiecesSpellText(BraceAt, full);
    forall i | 0 <= i < |ps| && ps[i].Slot?
      ensures '{' in g(ps[i]) <==> ValueFor(show, tmpl, input, ps[i].name) == ""
      ensures '/' !in g(ps[i]) && '?' !in g(ps[i]) && '/' !in ps[i].raw && '?' !in ps[i].raw
    {
      FilledPiece(show, tmpl, input, ps[i]);
    }
    RenderHas('{', g, ps);
    RenderCount('/', g, Raw(), ps);
    RenderCount('?', g, Raw(), ps);
    BoundRendering(show, tmpl, input, ps);
  }

  /** A placeholder as it is written */
  predicate IsPlaceholder(p: Part) {
    p.Expr? && p.raw == "{" + p.name + "}" && p.name != "" && forall i :: 0 <= i < |p.name| ==> InName(p.name[i])
  }

  lemma PlaceholderParses(p: Part)
    requires IsPlaceholder(p)
    ensures Parsable(BraceAt, p)
  {
    hide BraceAt, InName;
    forall t: string ensures BraceAt(p.raw + t) == Some(Hit(|p.raw|, p.name)) {
      BraceFound(p.name, t);
    }
  }

  /** `b` is the text without the slashes it ends in. */
  predicate WithoutSlashes(text: string, b: string) {
    && b <= text && (forall i :: |b| <= i < |text| ==> text[i] == '/')
    && (b != "" ==> b[|b| - 1] != '/')
  }

  /** A path as it is written, after a base without braces: the request is sent exactly when the template
      maps every placeholder to something that does not resolve to nothing, and then to the base without
      its last slashes followed by the path, with the encoding of what it resolves to in place of each
      placeholder. */
  lemma {:induction false} WrittenPathFills(show: Printer, base: string, b: string, parts: seq<Part>, tmpl: Json,
                                            input: Json)
    requires '{' !in base && WithoutSlashes(base, b)
    requires forall i :: 0 <= i < |parts| ==>
               if parts[i].Expr? then IsPlaceholder(parts[i]) else '{' !in parts[i].text
    requires tmpl.JObj? && "path_params" in tmpl.fields && tmpl.fields["path_params"].JObj?
    ensures var params := tmpl.fields["path_params"].fields;
            var value := name => if name in params then Resolve(show, input, params[name]) else "";
            var out := TargetURL(show, base, Written(parts), tmpl, input);
            && (out.Ready? <==> forall i :: 0 <= i < |parts| && parts[i].Expr? ==> value(parts[i].name) != "")
            && (out.Ready? ==> out.url == b + Replaced(name => Escape(value(name)), parts))
  {
    BraceAtProper();
    hide BraceAt, IsPlaceholder, Resolve, Escape, TargetURL, TrimRight, Pieces, Render, Unbound, Replaced, Written;
    var params := tmpl.fields["path_params"].fields;
    var value := name => if name in params then Resolve(show, input, params[name]) else "";
    var all := [Plain(b)] + parts;
    forall i | 0 <= i < |all| ensures Parsable(BraceAt, all[i]) {
      if all[i].Expr? {
        PlaceholderParses(all[i]);
      }
    }
    assert forall name :: value(name) == ValueFor(show, tmpl, input, name);
    SlashesTrimmed(base, b);
    AfterPlain(name => Escape(value(name)), b, parts);
    WrittenRenders(BraceAt, Encoded(show, tmpl, input), name => Escape(value(name)), all);
    SubstitutionKeepsStructure(show, base, Written(parts), tmpl, input);
    UnboundIff(show, tmpl, input, Pieces(BraceAt, Written(all)));
    ExprsOf(parts, value);
  }

  lemma AfterPlain(f: string -> string, b: string, parts: seq<Part>)
    ensures Written([Plain(b)] + parts) == b + Written(parts)
    ensures Replaced(f, [Plain(b)] + parts) == b + Replaced(f, parts)
  {
    assert ([Plain(b)] + parts)[1..] == parts;
  }

  lemma ExprsOf(parts: seq<Part>, value: string -> string)
    ensures (exists raw, name :: Expr(raw, name) in parts && value(name) == "") <==>
            exists i :: 0 <= i < |parts| && parts[i].Expr? && value(parts[i].name) == ""
  {
    if i :| 0 <= i < |parts| && parts[i].Expr? && value(parts[i].name) == "" {
      assert Expr(parts[i].raw, parts[i].name) in parts;
    }
  }

  lemma UnboundIff(show: Printer, tmpl: Json, input: Json, ps: seq<Piece>)
    ensures Unbound(show, tmpl, input, ps) <==>
            Lit('{') in ps || exists raw, name :: Slot(raw, name) in ps && ValueFor(show, tmpl, input, name) == ""
  {
    hide ValueFor;
    if i :| 0 <= i < |ps| && Open(show, tmpl, input, ps[i]) {
      assert ps[i] in ps;
    }
    if Lit('{') in ps {
      var i :| 0 <= i < |ps| && ps[i] == Lit('{');
      assert Open(show, tmpl, input, ps[i]);
    }
    if raw, name :| Slot(raw, name) in ps && ValueFor(show, tmpl, input, name) == "" {
      var i :| 0 <= i < |ps| && ps[i] == Slot(raw, name);
      assert Open(show, tmpl, input, ps[i]);
    }
  }

  lemma SlashesTrimmed(base: string, b: string)
    requires WithoutSlashes(base, b)
    ensures TrimRight(IsSlash, base) == b && ('{' !in base ==> '{' !in b)
  {
    StripRight(IsSlash, b, base[|b|..]);
    assert base == b + base[|b|..];
  }

  lemma BoundRendering(show: Printer, tmpl: Json, input: Json, ps: seq<Piece>)
    ensures !Unbound(show, tmpl, input, ps) ==>
              Render(FillPiece(show, tmpl, input), ps) == Render(Encoded(show, tmpl, input), ps)
  {
    hide ValueFor, Escape;
    if !Unbound(show, tmpl, input, ps) {
      RenderAgrees(FillPiece(show, tmpl, input), Encoded(show, tmpl, input), ps);
    }
  }
}
