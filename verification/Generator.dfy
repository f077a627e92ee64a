/** The request-template generator of the admin console
    (apps/admin-ui/app/connectors/[id]/actions/page.tsx), and its agreement with the
    orchestrator that later expands the template. */
module Generator {
  import opened Text
  import opened Json
  import opened Scan
  import opened PathEscape
  import opened Template
  import opened Url

  datatype Location = InQuery | InPath | InHeader | InBody | Unset

  /** An absent optional text is the empty one; both are falsy. */
  datatype Param = Param(name: string, inputKey: string, location: Location, target: string)

  datatype Op = Op(path: string, params: seq<Param>)

  datatype Tmpl = Tmpl(headers: map<string, string>, query: map<string, string>,
                       body: map<string, string>, pathParams: map<string, string>)

  function Source(p: Param): string { if p.inputKey != "" then p.inputKey else p.name }

  function Target(p: Param): string { if p.target != "" then p.target else p.name }

  predicate Live(p: Param) { Source(p) != "" && Target(p) != "" }

  /** A parameter without a location goes to the query. */
  function Place(p: Param): Location { if p.location == Unset then InQuery else p.location }

  function Braced(src: string): string { "{{" + src + "}}" }

  predicate Binds(p: Param, loc: Location, k: string) { Live(p) && Place(p) == loc && Target(p) == k }

  /** The source of the last parameter that writes key `k` at `loc` */
  function LastFor(params: seq<Param>, loc: Location, k: string): Option<string> {
    if params == [] then None
    else
      var n := |params| - 1;
      if Binds(params[n], loc, k) then Some(Source(params[n])) else LastFor(params[..n], loc, k)
  }

  /** The parameter at `i` writes key `k`, and none after it does. */
  predicate LastWriter(params: seq<Param>, loc: Location, k: string, i: int) {
    0 <= i < |params| && Binds(params[i], loc, k) && forall j :: i < j < |params| ==> !Binds(params[j], loc, k)
  }

  lemma {:induction false} LastForMeaning(params: seq<Param>, loc: Location, k: string) returns (i: int)
    ensures LastFor(params, loc, k).None? ==> forall j :: 0 <= j < |params| ==> !Binds(params[j], loc, k)
    ensures LastFor(params, loc, k).Some? ==>
              LastWriter(params, loc, k, i) && LastFor(params, loc, k).value == Source(params[i])
  {
    hide Binds, Source;
    i := |params| - 1;
    if params != [] && !Binds(params[i], loc, k) {
      var n := i;
      i := LastForMeaning(params[..n], loc, k);
      assert forall j :: 0 <= j < n ==> params[..n][j] == params[j];
      forall j | 0 <= j < |params| && LastFor(params, loc, k).None? ensures !Binds(params[j], loc, k) {
        assert j < n ==> params[..n][j] == params[j];
      }
    }
  }

  /** What the writes of all parameters leave at `loc` */
  function Bindings(params: seq<Param>, loc: Location): map<string, string> {
    if params == [] then map[]
    else
      var n := |params| - 1;
      var m := Bindings(params[..n], loc);
      if Live(params[n]) && Place(params[n]) == loc then m[Target(params[n]) := Braced(Source(params[n]))] else m
  }

  /** A key is bound exactly when some live parameter writes it, and to the last one's source. */
  lemma {:induction false} BindingsMeaning(params: seq<Param>, loc: Location, k: string)
    ensures k in Bindings(params, loc) <==> LastFor(params, loc, k).Some?
    ensures k in Bindings(params, loc) ==> Bindings(params, loc)[k] == Braced(LastFor(params, loc, k).value)
  {
    hide Live, Place, Source, Target, Braced;
    if params != [] {
      BindingsMeaning(params[..|params| - 1], loc, k);
    }
  }

  /** A path placeholder's input: that of its last parameter, else the one of the same name. */
  function SourceFor(params: seq<Param>, k: string): string { LastFor(params, InPath, k).GetOr(k) }

  function Placeholders(path: string): seq<string> {
    BraceAtProper(); Names(Pieces(BraceAt, path))
  }

  function WithDefaults(m: map<string, string>, names: seq<string>): map<string, string> {
    map k | k in m.Keys + (set n | n in names) :: if k in m then m[k] else Braced(k)
  }

  function Generated(op: Op): Tmpl {
    Tmpl(Bindings(op.params, InHeader), Bindings(op.params, InQuery), Bindings(op.params, InBody),
         WithDefaults(Bindings(op.params, InPath), Placeholders(op.path)))
  }

  /** The parameter goes to `loc`, the query when it has no location, under its target or else its name,
      and has an input key or a name to read. */
  predicate Writes(p: Param, loc: Location, k: string) {
    && k != "" && k == (if p.target == "" then p.name else p.target)
    && (p.inputKey != "" || p.name != "")
    && (p.location == loc || (p.location == Unset && loc == InQuery))
  }

  function At(t: Tmpl, loc: Location): map<string, string> {
    match loc
    case InPath => t.pathParams
    case InHeader => t.headers
    case InBody => t.body
    case _ => t.query
  }

  /** The generated template: under each key of each location the input that the last parameter written
      there reads; in the path also each placeholder that no parameter is for, reading the input of its
      own name; and nothing else. */
  lemma {:induction false} TemplateBinds(op: Op, loc: Location, k: string)
    requires loc != Unset
    ensures forall i :: 0 <= i < |op.params| && Writes(op.params[i], loc, k)
                        && (forall j :: i < j < |op.params| ==> !Writes(op.params[j], loc, k)) ==>
              var p, m := op.params[i], At(Generated(op), loc);
              k in m && m[k] == "{{" + (if p.inputKey == "" then p.name else p.inputKey) + "}}"
    ensures (forall i :: 0 <= i < |op.params| ==> !Writes(op.params[i], loc, k)) ==>
              var m := At(Generated(op), loc);
              && (k in m <==> loc == InPath && k in Placeholders(op.path))
              && (k in m ==> m[k] == "{{" + k + "}}")
  {
    hide Placeholders, Bindings, LastFor;
    BindingsMeaning(op.params, loc, k);
    var last := LastForMeaning(op.params, loc, k);
    assert forall i :: 0 <= i < |op.params| ==> (Writes(op.params[i], loc, k) <==> Binds(op.params[i], loc, k));
    hide Binds, Writes;
  }

  // ---------------------------------------------------------------- the helpers' loops

  lemma NamesStep(s: string)
    requires Proper(BraceAt) && s != []
    ensures Names(Pieces(BraceAt, s))
         == (if BraceAt(s).Some? then [BraceAt(s).value.name] else []) + Names(Pieces(BraceAt, s[Step(BraceAt, s)..]))
  {
    assert Pieces(BraceAt, s)[1..] == Pieces(BraceAt, s[Step(BraceAt, s)..]);
  }

  method ExtractPlaceholders(path: string) returns (out: seq<string>)
    ensures out == Placeholders(path)
  {
    BraceAtProper();
    hide BraceAt, Pieces, Names;
    out := [];
    var lastIndex := 0;
    assert path[0..] == path;
    while lastIndex < |path|
      invariant lastIndex <= |path|
      invariant out + Names(Pieces(BraceAt, path[lastIndex..])) == Placeholders(path)
    {
      var rest := path[lastIndex..];
      NamesStep(rest);
      assert rest[Step(BraceAt, rest)..] == path[lastIndex + Step(BraceAt, rest)..];
      match BraceAt(rest) {
        case Some(h) =>
          out := out + [h.name];
          lastIndex := lastIndex + h.len;
        case None =>
          lastIndex := lastIndex + 1;
      }
    }
    assert path[lastIndex..] == [];
    NoNames();
  }

  lemma NoNames()
    requires Proper(BraceAt)
    ensures Names(Pieces(BraceAt, [])) == []
  {
  }

  lemma BindingStep(params: seq<Param>, i: nat, loc: Location)
    requires i < |params|
    ensures Bindings(params[..i + 1], loc)
         == if Live(params[i]) && Place(params[i]) == loc
            then Bindings(params[..i], loc)[Target(params[i]) := Braced(Source(params[i]))]
            else Bindings(params[..i], loc)
  {
    assert params[..i + 1][..i] == params[..i];
  }

  lemma DefaultStep(m: map<string, string>, names: seq<string>, j: nat)
    requires j < |names|
    ensures WithDefaults(m, names[..j + 1])
         == if names[j] in WithDefaults(m, names[..j]) then WithDefaults(m, names[..j])
            else WithDefaults(m, names[..j])[names[j] := Braced(names[j])]
  {
    assert names[..j + 1] == names[..j] + [names[j]];
  }

  method BuildRequestTemplate(op: Op) returns (t: Tmpl)
    ensures t == Generated(op)
  {
    hide Placeholders, Bindings, Live, Place, Source, Target, Braced, WithDefaults;
    t := Tmpl(map[], map[], map[], map[]);
    NoBindings(op.params);
    var i := 0;
    while i < |op.params|
      invariant 0 <= i <= |op.params|
      invariant t == Tmpl(Bindings(op.params[..i], InHeader), Bindings(op.params[..i], InQuery),
                          Bindings(op.params[..i], InBody), Bindings(op.params[..i], InPath))
    {
      var p := op.params[i];
      BindingStep(op.params, i, InHeader);
      BindingStep(op.params, i, InQuery);
      BindingStep(op.params, i, InBody);
      BindingStep(op.params, i, InPath);
      if Live(p) {
        var val := Braced(Source(p));
        match Place(p) {
          case InPath => t := t.(pathParams := t.pathParams[Target(p) := val]);
          case InHeader => t := t.(headers := t.headers[Target(p) := val]);
          case InBody => t := t.(body := t.body[Target(p) := val]);
          case InQuery => t := t.(query := t.query[Target(p) := val]);
          case Unset => PlaceIsSet(p);
        }
      }
      i := i + 1;
    }
    assert op.params[..i] == op.params;
    var names := ExtractPlaceholders(op.path);
    ghost var written := t.pathParams;
    NoDefaults(written);
    assert names[..0] == [];
    var j := 0;
    while j < |names|
      invariant 0 <= j <= |names|
      invariant t == Generated(op).(pathParams := WithDefaults(written, names[..j]))
    {
      DefaultStep(written, names, j);
      if names[j] !in t.pathParams {
        t := t.(pathParams := t.pathParams[names[j] := Braced(names[j])]);
      }
      j := j + 1;
    }
    assert names[..j] == names;
  }

  lemma NoBindings(params: seq<Param>)
    ensures forall loc: Location :: Bindings(params[..0], loc) == map[]
  {
  }

  lemma NoDefaults(m: map<string, string>)
    ensures WithDefaults(m, []) == m
  {
  }

  lemma PlaceIsSet(p: Param)
    ensures Place(p) != Unset
  {
  }

  // ---------------------------------------------------------------- what `{{src}}` expands to

  predicate NoBraces(s: string) { forall i :: 0 <= i < |s| ==> !IsBrace(s[i]) }

  /** The source without its outer blanks */
  function KeyOf(src: string): string { Trim(IsBlank, src) }

  lemma TrimBounds(p: char -> bool, s: string) returns (a: nat, b: nat)
    ensures a <= b <= |s| && Trim(p, s) == s[a..b]
    ensures forall i :: 0 <= i < a || b <= i < |s| ==> p(s[i])
    ensures a < b ==> !p(s[a]) && !p(s[b - 1])
  {
    hide TrimLeft, TrimRight;
    var l := TrimLeft(p, s);
    var t := TrimRight(p, l);
    assert Trim(p, s) == t;
    hide Trim;
    TrimLeftCuts(p, s);
    TrimRightCuts(p, l);
    a := |s| - |l|;
    b := a + |t|;
    SliceOfSuffix(p, s, a, l, |t|);
  }

  lemma SliceOfSuffix(p: char -> bool, s: string, a: nat, l: string, n: nat)
    requires a <= |s| && l == s[a..] && n <= |l| && forall i :: n <= i < |l| ==> p(l[i])
    ensures l[..n] == s[a..a + n] && forall i :: a + n <= i < |s| ==> p(s[i])
  {
    forall i | a + n <= i < |s| ensures p(s[i]) {
      assert s[i] == l[i - a];
    }
  }

  lemma TrimNothing(p: char -> bool, s: string)
    requires s != [] && !p(s[0]) && !p(s[|s| - 1])
    ensures Trim(p, s) == s
  {
  }

  /** Where the key of a source begins and ends: blanks on both sides, none at its own ends */
  lemma KeyBounds(src: string) returns (a: nat, b: nat)
    ensures a <= b <= |src| && KeyOf(src) == src[a..b]
    ensures forall i :: 0 <= i < a || b <= i < |src| ==> IsBlank(src[i])
    ensures a < b ==> !IsBlank(src[a]) && !IsBlank(src[b - 1])
  {
    hide IsBlank, Trim;
    a, b := TrimBounds(IsBlank, src);
  }

  lemma BracedIndex(src: string)
    ensures var s := Braced(src);
            && |s| == |src| + 4 && s[0] == s[1] == '{' && s[|src| + 2] == s[|src| + 3] == '}'
            && s[2..|src| + 2] == src
            && forall k :: 2 <= k < |src| + 2 ==> s[k] == src[k - 2]
  {
  }

  /** `{{src}}` is a slot exactly when `src` is a key with blanks around it. */
  lemma BracedSlot(src: string)
    requires NoBraces(src)
    ensures SlotAt(Braced(src)) == if KeyText(KeyOf(src)) then Some(Hit(|src| + 4, KeyOf(src))) else None
  {
    hide SlotAt, Braced, KeyOf;
    BracedIndex(src);
    if KeyText(KeyOf(src)) {
      BracedKeyIsSlot(src);
    } else if SlotAt(Braced(src)).Some? {
      var a, b, c := SlotParts(Braced(src));
      BracedSlotIsKey(src, a, b, c);
    }
  }

  lemma BracedKeyIsSlot(src: string)
    requires KeyText(KeyOf(src))
    ensures SlotAt(Braced(src)) == Some(Hit(|src| + 4, KeyOf(src)))
  {
    hide SlotAt, Braced, KeyOf, IsBlank, IsKeyChar;
    BracedIndex(src);
    var s := Braced(src);
    var a, b := KeyBounds(src);
    assert a < b;
    forall k | 2 <= k < |src| + 2
      ensures k < a + 2 || b + 2 <= k ==> IsBlank(s[k])
      ensures a + 2 <= k < b + 2 ==> IsKeyChar(s[k])
    {
      assert s[k] == src[k - 2];
      if a + 2 <= k < b + 2 {
        assert src[k - 2] == KeyOf(src)[k - 2 - a];
      }
    }
    InClasses();
    SlotFound(s, a + 2, b + 2, |src| + 2);
    assert s[a + 2..b + 2] == src[a..b];
  }

  lemma BracedSlotIsKey(src: string, a: nat, b: nat, c: nat)
    requires NoBraces(src) && IsSlot(Braced(src), a, b, c)
    ensures KeyText(KeyOf(src))
  {
    hide Braced, KeyOf;
    BracedIndex(src);
    var s := Braced(src);
    assert c == |src| + 2;
    var i, j := KeyBounds(src);
    assert s[a] == src[a - 2] && IsKeyChar(s[a]) && i <= a - 2 < j;
    assert s[i + 2] == src[i] && s[j + 1] == src[j - 1];
    assert a <= i + 2 && j + 1 < b;
    assert forall k :: i <= k < j ==> src[k] == s[k + 2];
  }

  lemma BracedPieces(src: string)
    requires NoBraces(src) && Proper(SlotAt)
    ensures Pieces(SlotAt, Braced(src))
         == if KeyText(KeyOf(src)) then [Slot(Braced(src), KeyOf(src))] else Lits(Braced(src))
  {
    hide SlotAt, KeyText, KeyOf, Braced, NoBraces, Proper, Pieces, Lits;
    BracedSlot(src);
    BracedIndex(src);
    var s := Braced(src);
    PiecesCons(SlotAt, s);
    PiecesCons(SlotAt, []);
    if KeyText(KeyOf(src)) {
      assert s[..|s|] == s && s[|s|..] == [];
    } else {
      NoSlotAllLiteral(src);
    }
  }

  lemma BracedShape(src: string)
    requires NoBraces(src)
    ensures var rest := src + "}}";
            Braced(src) == ['{'] + (['{'] + rest) && '{' !in rest && rest[0] != '{'
  {
    assert forall i :: 0 <= i < |src| ==> src[i] != '{';
  }

  lemma LitsOfCons(c: char, s: string)
    ensures Lits([c] + s) == [Lit(c)] + Lits(s)
  {
    assert ([c] + s)[1..] == s;
  }

  lemma MissIsLiteral(c: char, s: string)
    requires Proper(SlotAt) && SlotAt([c] + s).None?
    ensures Pieces(SlotAt, [c] + s) == [Lit(c)] + Pieces(SlotAt, s)
  {
    hide SlotAt;
    assert ([c] + s)[1..] == s;
  }

  lemma NoSlotAllLiteral(src: string)
    requires NoBraces(src) && Proper(SlotAt) && SlotAt(Braced(src)).None?
    ensures Pieces(SlotAt, Braced(src)) == Lits(Braced(src))
  {
    hide SlotAt, Proper, Pieces, Lits, Braced, NoBraces;
    var rest := src + "}}";
    var inner := ['{'] + rest;
    BracedShape(src);
    MissIsLiteral('{', inner);
    LitsOfCons('{', inner);
    LitsOfCons('{', rest);
    OneBraceIsLiteral(rest);
    LiteralPrefix(SlotAt, rest, []);
    PiecesCons(SlotAt, []);
    assert rest + [] == rest && Lits(rest) + [] == Lits(rest);
  }

  lemma OneBraceIsLiteral(rest: string)
    requires Proper(SlotAt) && rest != [] && rest[0] != '{'
    ensures Pieces(SlotAt, ['{'] + rest) == [Lit('{')] + Pieces(SlotAt, rest)
  {
    assert SlotAt(['{'] + rest).None?;
    MissIsLiteral('{', rest);
  }

  /** What a generated binding stands for.  A source without braces reads the input it names when it is
      a key, blanks around it aside, and is otherwise passed on as it stands, braces and all.  A source
      with braces of its own moves the slots, and is expanded piece by piece. */
  function Expansion(show: Printer, input: Json, src: string): string {
    if !NoBraces(src) then SlotAtProper(); Render(Values(show, input), Pieces(SlotAt, Braced(src)))
    else if KeyText(KeyOf(src)) then Lookup(show, input, KeyOf(src))
    else Braced(src)
  }

  lemma ResolveBraced(show: Printer, input: Json, src: string)
    requires PrintsText(show)
    ensures Resolve(show, input, JStr(Braced(src))) == Expansion(show, input, src)
  {
    hide Resolve, Lookup, SlotAt, Pieces, KeyText, KeyOf, Braced, NoBraces, Render;
    ResolveIsOnePass(show, input, JStr(Braced(src)));
    if NoBraces(src) {
      BracedPieces(src);
      if KeyText(KeyOf(src)) {
        RenderOne(Values(show, input), Slot(Braced(src), KeyOf(src)));
      } else {
        RenderLiterals(Values(show, input), Braced(src), []);
        assert Lits(Braced(src)) + [] == Lits(Braced(src));
        RenderNothing(Values(show, input));
        assert Braced(src) + [] == Braced(src);
      }
    }
  }

  lemma RenderOne(f: Piece -> string, p: Piece)
    requires p.Slot?
    ensures Render(f, [p]) == f(p)
  {
    assert Render(f, [p]) == f(p) + Render(f, [p][1..]);
  }

  // ---------------------------------------------------------------- generator and executor agree

  function TextObject(m: map<string, string>): Json { JObj(map k | k in m :: JStr(m[k])) }

  /** The template as the orchestrator decodes it from the operation row */
  function AsJson(t: Tmpl): Json {
    JObj(map["headers" := TextObject(t.headers), "query" := TextObject(t.query),
             "body" := TextObject(t.body), "path_params" := TextObject(t.pathParams)])
  }

  /** The parameters or the default bind this placeholder. */
  predicate IsBound(op: Op, k: string) {
    LastFor(op.params, InPath, k).Some? || k in Placeholders(op.path)
  }

  /** What a placeholder of the URL stands for under the operation's own template */
  function InputFor(show: Printer, input: Json, op: Op, k: string): string {
    if IsBound(op, k) then Expansion(show, input, SourceFor(op.params, k)) else ""
  }

  /** The generated template maps exactly the bound placeholders, among them all of the path, each to
      its source. */
  lemma {:induction false} PlaceholderBound(op: Op, k: string)
    ensures k in Generated(op).pathParams <==> IsBound(op, k)
    ensures k in Generated(op).pathParams ==> Generated(op).pathParams[k] == Braced(SourceFor(op.params, k))
    ensures k in Placeholders(op.path) ==> k in Generated(op).pathParams
  {
    hide Braced, Placeholders, Bindings, LastFor;
    BindingsMeaning(op.params, InPath, k);
  }

  /** What the orchestrator puts into a placeholder of a generated template */
  lemma {:induction false} GeneratedValue(show: Printer, input: Json, op: Op, k: string)
    requires PrintsText(show)
    ensures ValueFor(show, AsJson(Generated(op)), input, k) == InputFor(show, input, op, k)
  {
    hide Resolve, Expansion, Placeholders, Generated, SourceFor, Braced, IsBound;
    PlaceholderBound(op, k);
    ResolveBraced(show, input, SourceFor(op.params, k));
  }

  /** Every placeholder filled with the encoding of what it stands for */
  function FromInputs(show: Printer, input: Json, op: Op): Piece -> string {
    (p: Piece) => if p.Slot? then Escape(InputFor(show, input, op, p.name)) else ""
  }

  /** Generator and executor agree.  With the template generated for an operation the orchestrator
      refuses a request exactly when base and path have a stray brace, or some placeholder is not
      bound or stands for the empty text; otherwise it sends it to base and path with what each
      placeholder stands for, encoded, in its slot. */
  lemma {:induction false} GeneratedTemplateRuns(show: Printer, base: string, op: Op, input: Json)
    requires PrintsText(show)
    ensures Proper(BraceAt)
    ensures var ps := Pieces(BraceAt, TrimRight(IsSlash, base) + op.path);
            var out := TargetURL(show, base, op.path, AsJson(Generated(op)), input);
            && (out.Unresolved? <==>
                  || Lit('{') in ps
                  || exists k :: k in Names(ps) && InputFor(show, input, op, k) == "")
            && (out.Ready? ==> out.url == Render(FromInputs(show, input, op), ps))
  {
    BraceAtProper();
    hide BraceAt, TrimRight, Pieces, Render, ValueFor, InputFor, Generated, TargetURL, AsJson, Encoded, FromInputs;
    var tmpl := AsJson(Generated(op));
    var ps := Pieces(BraceAt, TrimRight(IsSlash, base) + op.path);
    SubstitutionKeepsStructure(show, base, op.path, tmpl, input);
    forall i | 0 <= i < |ps| && ps[i].Slot?
      ensures ValueFor(show, tmpl, input, ps[i].name) == InputFor(show, input, op, ps[i].name)
    {
      GeneratedValue(show, input, op, ps[i].name);
    }
    hide Unbound;
    UnboundByName(show, tmpl, input, op, ps);
    SameFilling(show, tmpl, input, op, ps);
  }

  lemma KeyIsItsOwnKey(s: string)
    requires KeyText(s)
    ensures NoBraces(s) && KeyOf(s) == s
  {
    assert IsKeyChar(s[0]) && IsKeyChar(s[|s| - 1]);
    hide Trim;
    TrimNothing(IsBlank, s);
  }

  /** When base and path have no stray brace, the sources are keys and each names an input that is not
      empty, a generated template never leaves unresolved path parameters, and the inputs' encoded
      texts are in the slots. */
  lemma {:induction false} GeneratedTemplateResolves(show: Printer, base: string, op: Op, input: Json)
    requires PrintsText(show) && '{' !in base && Proper(BraceAt)
    requires Lit('{') !in Pieces(BraceAt, op.path)
    requires forall k :: k in Placeholders(op.path) ==>
               KeyText(SourceFor(op.params, k)) && Lookup(show, input, SourceFor(op.params, k)) != ""
    ensures var fill := (p: Piece) =>
              if p.Slot? then Escape(Lookup(show, input, SourceFor(op.params, p.name))) else "";
            TargetURL(show, base, op.path, AsJson(Generated(op)), input)
            == Ready(TrimRight(IsSlash, base) + Render(fill, Pieces(BraceAt, op.path)))
  {
    hide BraceAt, TrimRight, Pieces, Render, Lookup, Escape, Generated, SourceFor, TargetURL, AsJson, KeyText, NoBraces,
      KeyOf, LastFor;
    var b, ps := TrimRight(IsSlash, base), Pieces(BraceAt, op.path);
    var fill := (p: Piece) => if p.Slot? then Escape(Lookup(show, input, SourceFor(op.params, p.name))) else "";
    TrimRightCuts(IsSlash, base);
    assert b == base[..|b|];
    LiteralPrefix(BraceAt, b, op.path);
    GeneratedTemplateRuns(show, base, op, input);
    NamesAreSlots(ps);
    forall k | k in Placeholders(op.path)
      ensures InputFor(show, input, op, k) == Lookup(show, input, SourceFor(op.params, k)) != ""
    {
      KeyIsItsOwnKey(SourceFor(op.params, k));
    }
    hide InputFor;
    LitsHaveNoNames(b, ps);
    hide Names, Lits;
    RenderLiterals(FromInputs(show, input, op), b, ps);
    RenderAgrees(FromInputs(show, input, op), fill, ps);
  }

  lemma {:induction false} LitsHaveNoNames(b: string, ps: seq<Piece>)
    requires '{' !in b
    ensures Names(Lits(b) + ps) == Names(ps)
    ensures Lit('{') in Lits(b) + ps <==> Lit('{') in ps
  {
    if b == [] {
      assert Lits(b) + ps == ps;
    } else {
      LitsHaveNoNames(b[1..], ps);
      var rest := Lits(b[1..]) + ps;
      assert Lits(b) + ps == [Lit(b[0])] + rest && ([Lit(b[0])] + rest)[1..] == rest;
    }
  }

  lemma SameFilling(show: Printer, tmpl: Json, input: Json, op: Op, ps: seq<Piece>)
    requires forall i :: 0 <= i < |ps| && ps[i].Slot? ==>
               ValueFor(show, tmpl, input, ps[i].name) == InputFor(show, input, op, ps[i].name)
    ensures Render(Encoded(show, tmpl, input), ps) == Render(FromInputs(show, input, op), ps)
  {
    hide ValueFor, InputFor, Escape;
    RenderAgrees(Encoded(show, tmpl, input), FromInputs(show, input, op), ps);
  }

  lemma {:induction false} UnboundByName(show: Printer, tmpl: Json, input: Json, op: Op, ps: seq<Piece>)
    requires forall i :: 0 <= i < |ps| && ps[i].Slot? ==>
               ValueFor(show, tmpl, input, ps[i].name) == InputFor(show, input, op, ps[i].name)
    ensures Unbound(show, tmpl, input, ps) <==>
              Lit('{') in ps || exists k :: k in Names(ps) && InputFor(show, input, op, k) == ""
  {
    hide ValueFor, InputFor, Names;
    NamesAreSlots(ps);
    if Lit('{') in ps {
      var i :| 0 <= i < |ps| && ps[i] == Lit('{');
      assert Open(show, tmpl, input, ps[i]);
    }
    if k :| k in Names(ps) && InputFor(show, input, op, k) == "" {
      var i :| 0 <= i < |ps| && ps[i].Slot? && ps[i].name == k;
      assert Open(show, tmpl, input, ps[i]);
    }
    if Unbound(show, tmpl, input, ps) {
      var i :| 0 <= i < |ps| && Open(show, tmpl, input, ps[i]);
      assert ps[i].Slot? ==> ps[i].name in Names(ps);
    }
  }
}
