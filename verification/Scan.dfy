/** A regular-expression scan: leftmost matches, each starting after the last one ended.
    A matcher looks for a match at the very start of a text. */
module Scan {
  import opened Text

  datatype Hit = Hit(len: nat, name: string)

  type Matcher = string -> Option<Hit>

  /** A match is never empty and starts with an opening brace. */
  ghost predicate Proper(m: Matcher) {
    forall s: string :: m(s).Some? ==> 0 < m(s).value.len <= |s| && s[0] == '{'
  }

  /** A text cut into the matches and the single characters between them. */
  datatype Piece = Lit(c: char) | Slot(raw: string, name: string)

  /** How far one step of the scan goes, and the piece it yields */
  function Step(m: Matcher, s: string): (k: nat)
    requires Proper(m) && s != []
    ensures 0 < k <= |s|
  {
    if m(s).Some? then m(s).value.len else 1
  }

  function Head(m: Matcher, s: string): Piece
    requires Proper(m) && s != []
  {
    if m(s).Some? then Slot(s[..Step(m, s)], m(s).value.name) else Lit(s[0])
  }

  function Pieces(m: Matcher, s: string): seq<Piece>
    requires Proper(m)
    decreases |s|
  {
    if s == [] then [] else [Head(m, s)] + Pieces(m, s[Step(m, s)..])
  }

  /** ReplaceAllStringFunc: `f` gets the matched text. */
  function ReplaceAll(m: Matcher, f: string -> string, s: string): string
    requires Proper(m)
    decreases |s|
  {
    if s == [] then []
    else if m(s).Some? then f(s[..Step(m, s)]) + ReplaceAll(m, f, s[Step(m, s)..])
    else [s[0]] + ReplaceAll(m, f, s[1..])
  }

  function RenderPiece(f: Piece -> string, p: Piece): string {
    match p case Lit(c) => [c] case Slot(_, _) => f(p)
  }

  /** Literal characters as they are, slots as `f` says. */
  function Render(f: Piece -> string, ps: seq<Piece>): string {
    if ps == [] then [] else RenderPiece(f, ps[0]) + Render(f, ps[1..])
  }

  /** A slot as it was written */
  function Raw(): Piece -> string { (p: Piece) => if p.Slot? then p.raw else "" }

  function Spell(ps: seq<Piece>): string { Render(Raw(), ps) }

  function Names(ps: seq<Piece>): seq<string> {
    if ps == [] then [] else (if ps[0].Slot? then [ps[0].name] else []) + Names(ps[1..])
  }

  lemma RenderCons(f: Piece -> string, p: Piece, ps: seq<Piece>)
    ensures Render(f, [p] + ps) == RenderPiece(f, p) + Render(f, ps)
  {
    assert ([p] + ps)[1..] == ps;
  }

  lemma PiecesCons(m: Matcher, s: string)
    requires Proper(m)
    ensures s == [] ==> Pieces(m, s) == []
    ensures s != [] ==> Pieces(m, s) == [Head(m, s)] + Pieces(m, s[Step(m, s)..])
  {
  }

  lemma RenderNothing(f: Piece -> string)
    ensures Render(f, []) == []
  {
  }

  /** The slots of a text are matches of the scanner, and nothing of the text is lost. */
  lemma {:induction false} PiecesSpellText(m: Matcher, s: string)
    requires Proper(m)
    ensures Spell(Pieces(m, s)) == s
    ensures forall i :: 0 <= i < |Pieces(m, s)| && Pieces(m, s)[i].Slot? ==> IsHit(m, Pieces(m, s)[i])
    decreases |s|
  {
    hide Pieces, Render, Head, Step, Proper, IsHit, RenderPiece;
    PiecesCons(m, s);
    if s == [] {
      RenderNothing(Raw());
    } else {
      var k := Step(m, s);
      var rest := s[k..];
      PiecesSpellText(m, rest);
      HeadSpells(m, s);
      RenderCons(Raw(), Head(m, s), Pieces(m, rest));
      assert s == s[..k] + rest;
      HitsCons(m, Head(m, s), Pieces(m, rest));
    }
  }

  lemma HitsCons(m: Matcher, p: Piece, ps: seq<Piece>)
    requires p.Slot? ==> IsHit(m, p)
    requires forall i :: 0 <= i < |ps| && ps[i].Slot? ==> IsHit(m, ps[i])
    ensures forall i :: 0 <= i < |[p] + ps| && ([p] + ps)[i].Slot? ==> IsHit(m, ([p] + ps)[i])
  {
    hide IsHit;
  }

  lemma HeadSpells(m: Matcher, s: string)
    requires Proper(m) && s != []
    ensures RenderPiece(Raw(), Head(m, s)) == s[..Step(m, s)]
    ensures Head(m, s).Slot? ==> IsHit(m, Head(m, s))
  {
    if m(s).Some? {
      var p := Head(m, s);
      assert p.raw <= s && m(s) == Some(Hit(|p.raw|, p.name));
    }
  }

  /** Some text starting with the slot's characters makes the matcher report that slot. */
  ghost predicate IsHit(m: Matcher, p: Piece) {
    p.Slot? && exists t: string :: p.raw <= t && m(t) == Some(Hit(|p.raw|, p.name))
  }

  /** A replacement is a rendering of the pieces: what a slot is replaced by is never
      scanned again, whatever characters it holds. */
  lemma {:induction false} ReplaceAllRenders(m: Matcher, f: string -> string, g: Piece -> string, s: string)
    requires Proper(m)
    requires forall i :: 0 <= i < |Pieces(m, s)| && Pieces(m, s)[i].Slot?
               ==> g(Pieces(m, s)[i]) == f(Pieces(m, s)[i].raw)
    ensures ReplaceAll(m, f, s) == Render(g, Pieces(m, s))
    decreases |s|
  {
    if s != [] {
      var ps := Pieces(m, s);
      var rest := s[Step(m, s)..];
      assert ps[0] == Head(m, s) && ps[1..] == Pieces(m, rest);
      forall i | 0 <= i < |ps[1..]| && ps[1..][i].Slot? ensures g(ps[1..][i]) == f(ps[1..][i].raw) {
        assert ps[1..][i] == ps[i + 1];
      }
      ReplaceAllRenders(m, f, g, rest);
    }
  }

  lemma {:induction false} RenderAgrees(f: Piece -> string, g: Piece -> string, ps: seq<Piece>)
    requires forall i :: 0 <= i < |ps| && ps[i].Slot? ==> f(ps[i]) == g(ps[i])
    ensures Render(f, ps) == Render(g, ps)
  {
    if ps != [] {
      assert forall i :: 0 <= i < |ps[1..]| ==> ps[1..][i] == ps[i + 1];
      RenderAgrees(f, g, ps[1..]);
    }
  }

  function Lits(s: string): seq<Piece> {
    if s == [] then [] else [Lit(s[0])] + Lits(s[1..])
  }

  /** Text without an opening brace is all literal. */
  lemma {:induction false} LiteralPrefix(m: Matcher, s: string, t: string)
    requires Proper(m) && '{' !in s
    ensures Pieces(m, s + t) == Lits(s) + Pieces(m, t)
    decreases |s|
  {
    hide Pieces;
    if s == [] {
      assert s + t == t;
      assert Lits(s) + Pieces(m, t) == Pieces(m, t);
    } else {
      LiteralPrefix(m, s[1..], t);
      LiteralHead(m, s + t);
      assert (s + t)[1..] == s[1..] + t;
      assert Lits(s) + Pieces(m, t) == [Lit(s[0])] + (Lits(s[1..]) + Pieces(m, t));
    }
  }

  lemma LiteralHead(m: Matcher, s: string)
    requires Proper(m) && s != [] && s[0] != '{'
    ensures Pieces(m, s) == [Lit(s[0])] + Pieces(m, s[1..])
  {
    assert m(s).None?;
  }

  lemma LitsCons(s: string, ps: seq<Piece>)
    ensures s == [] ==> Lits(s) + ps == ps
    ensures s != [] ==> Lits(s) + ps == [Lit(s[0])] + (Lits(s[1..]) + ps)
  {
  }

  lemma ConsConcat(s: string, x: string)
    ensures s == [] ==> s + x == x
    ensures s != [] ==> s + x == [s[0]] + (s[1..] + x)
  {
  }

  lemma {:induction false} RenderLiterals(f: Piece -> string, s: string, ps: seq<Piece>)
    ensures Render(f, Lits(s) + ps) == s + Render(f, ps)
    decreases |s|
  {
    hide Render, Lits;
    LitsCons(s, ps);
    ConsConcat(s, Render(f, ps));
    if s != [] {
      RenderLiterals(f, s[1..], ps);
      RenderCons(f, Lit(s[0]), Lits(s[1..]) + ps);
    }
  }

  lemma {:induction false} NamesAreSlots(ps: seq<Piece>)
    ensures forall i :: 0 <= i < |ps| && ps[i].Slot? ==> ps[i].name in Names(ps)
    ensures forall n :: n in Names(ps) ==> exists i :: 0 <= i < |ps| && ps[i].Slot? && ps[i].name == n
  {
    if ps != [] {
      NamesAreSlots(ps[1..]);
      forall i | 0 <= i < |ps| && ps[i].Slot? ensures ps[i].name in Names(ps) {
        if i > 0 { assert ps[1..][i - 1] == ps[i]; }
      }
      forall n | n in Names(ps) ensures exists i :: 0 <= i < |ps| && ps[i].Slot? && ps[i].name == n {
        if n in Names(ps[1..]) {
          var i :| 0 <= i < |ps[1..]| && ps[1..][i].Slot? && ps[1..][i].name == n;
          assert ps[i + 1] == ps[1..][i];
        }
      }
    }
  }

  // ---------------------------------------------------------------- texts as they are written

  /** A text as its author wrote it: plain parts, and expressions that stand for something */
  datatype Part = Plain(text: string) | Expr(raw: string, name: string)

  function Written(parts: seq<Part>): string {
    if parts == [] then []
    else (match parts[0] case Plain(t) => t case Expr(raw, _) => raw) + Written(parts[1..])
  }

  /** The same text with every expression replaced */
  function Replaced(f: string -> string, parts: seq<Part>): string {
    if parts == [] then []
    else (match parts[0] case Plain(t) => t case Expr(_, name) => f(name)) + Replaced(f, parts[1..])
  }

  /** A plain part has no opening brace, and an expression is one to the scanner, whatever follows it. */
  ghost predicate Parsable(m: Matcher, p: Part) {
    match p
    case Plain(t) => '{' !in t
    case Expr(raw, name) => raw != "" && forall t: string :: m(raw + t) == Some(Hit(|raw|, name))
  }

  lemma ExprPieces(m: Matcher, raw: string, name: string, rest: string)
    requires Proper(m) && raw != "" && m(raw + rest) == Some(Hit(|raw|, name))
    ensures Pieces(m, raw + rest) == [Slot(raw, name)] + Pieces(m, rest)
  {
    var s := raw + rest;
    assert s[..|raw|] == raw && s[|raw|..] == rest;
  }

  /** Scanning a written text finds its expressions, and rendering it replaces them. */
  lemma {:induction false} WrittenRenders(m: Matcher, g: Piece -> string, f: string -> string, parts: seq<Part>)
    requires Proper(m) && forall i :: 0 <= i < |parts| ==> Parsable(m, parts[i])
    requires forall raw, name :: g(Slot(raw, name)) == f(name)
    ensures Render(g, Pieces(m, Written(parts))) == Replaced(f, parts)
    ensures forall raw, name :: Slot(raw, name) in Pieces(m, Written(parts)) <==> Expr(raw, name) in parts
    ensures Lit('{') !in Pieces(m, Written(parts))
  {
    if parts != [] {
      var rest := parts[1..];
      assert Parsable(m, parts[0]);
      assert forall i :: 0 <= i < |rest| ==> rest[i] == parts[i + 1];
      WrittenRenders(m, g, f, rest);
      hide Pieces, Render, Lits, Proper;
      var tail := Pieces(m, Written(rest));
      match parts[0] {
        case Plain(t) =>
          LiteralPrefix(m, t, Written(rest));
          RenderLiterals(g, t, tail);
          LitsAreLiteral(t);
        case Expr(raw, name) =>
          ExprPieces(m, raw, name, Written(rest));
          RenderCons(g, Slot(raw, name), tail);
      }
    }
  }

  lemma {:induction false} LitsAreLiteral(s: string)
    requires '{' !in s
    ensures forall p :: p in Lits(s) ==> p.Lit? && p != Lit('{')
  {
    if s != [] {
      LitsAreLiteral(s[1..]);
    }
  }
}
