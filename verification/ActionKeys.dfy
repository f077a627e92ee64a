/** From an operation row to its action key and back. */
module ActionKeys {
  import opened Text
  import opened Naming

  // ---------------------------------------------------------------- segment choice

  /** What a path's short name is taken from. */
  datatype Choice = Root | Segment(text: string) | Generic

  /** No parameter braces, not the version marker, and something to name it by. */
  predicate Nameable(seg: string) {
    '{' !in seg && '}' !in seg && seg != "v1" && exists i :: 0 <= i < |seg| && IsAlnum(seg[i])
  }

  /** The last nameable segment. */
  function LastNameable(segs: seq<string>): (c: Choice)
    ensures c.Segment? ==> exists i ::
      0 <= i < |segs| && segs[i] == c.text && Nameable(segs[i]) && forall j :: i < j < |segs| ==> !Nameable(segs[j])
    ensures !c.Segment? ==> c.Generic? && forall j :: 0 <= j < |segs| ==> !Nameable(segs[j])
  {
    if segs == [] then Generic
    else if Nameable(segs[|segs| - 1]) then Segment(segs[|segs| - 1])
    else LastNameable(segs[..|segs| - 1])
  }

  /** The path without its query and its outer slashes. */
  function Bare(p: string): string {
    Trim(IsSlash, Split('?', p)[0])
  }

  function Chosen(p: string): (c: Choice)
    ensures c.Segment? ==> Nameable(c.text)
  {
    if Bare(p) == "" then Root else LastNameable(Split('/', Bare(p)))
  }

  function NameOf(c: Choice): string {
    match c case Root => "root" case Generic => "action" case Segment(s) => NameSegment(s)
  }

  function ShortOf(c: Choice): string {
    match c case Root => "root" case Generic => "action" case Segment(s) => Slug(s)
  }

  /** The segments of a path, whatever slashes surround it and whatever query follows, decide what it
      is named by; a path without segments is the root. */
  lemma {:induction false} PathNames(pre: string, segs: seq<string>, post: string, query: string)
    requires (forall i :: 0 <= i < |pre| ==> pre[i] == '/') && (forall i :: 0 <= i < |post| ==> post[i] == '/')
    requires query == "" || query[0] == '?'
    requires forall k :: 0 <= k < |segs| ==> '/' !in segs[k] && '?' !in segs[k]
    requires segs != [] ==> segs[0] != "" && segs[|segs| - 1] != ""
    ensures Chosen(pre + Join('/', segs) + post + query) == if segs == [] then Root else LastNameable(segs)
    ensures forall k :: 0 <= k < |segs| ==>
              (Nameable(segs[k]) <==> '{' !in segs[k] && '}' !in segs[k] && segs[k] != "v1"
                                      && exists i :: 0 <= i < |segs[k]| && InWord(segs[k][i]))
  {
    assert forall k :: 0 <= k < |segs| ==> forall i :: 0 <= i < |segs[k]| ==> (IsAlnum(segs[k][i]) <==> InWord(segs[k][i]));
    hide LastNameable, Split, Trim, Join, IsAlnum, InWord;
    var path := pre + Join('/', segs) + post;
    JoinHolds(segs);
    assert '?' !in path;
    BeforeQuery(path, query);
    TrimStrips(IsSlash, pre, Join('/', segs), post);
    if segs != [] {
      SplitJoin('/', segs);
    }
  }

  lemma BeforeQuery(path: string, query: string)
    requires '?' !in path && (query == "" || query[0] == '?')
    ensures Split('?', path + query)[0] == path
  {
    hide Split;
    SplitAlone('?', path);
    if query == "" {
      assert path + query == path;
    } else {
      assert path + query == path + ['?'] + query[1..];
      SplitAtFirst('?', path, query[1..]);
    }
  }

  lemma {:induction false} JoinHolds(segs: seq<string>)
    requires forall k :: 0 <= k < |segs| ==> '/' !in segs[k] && '?' !in segs[k]
    ensures '?' !in Join('/', segs)
    ensures segs == [] ==> Join('/', segs) == ""
    ensures segs != [] && segs[0] != "" ==> var j := Join('/', segs); j != "" && j[0] != '/'
    ensures segs != [] && segs[|segs| - 1] != "" ==> var j := Join('/', segs); j != "" && j[|j| - 1] != '/'
  {
    if |segs| > 1 {
      JoinHolds(segs[1..]);
    }
  }

  // ---------------------------------------------------------------- comparing the two names

  function Camels(prev: Option<char>, s: string): nat
    decreases |s|
  {
    if s == [] then 0
    else (if prev.Some? && Boundary(prev.value, s[0]) then 1 else 0) + Camels(Some(s[0]), s[1..])
  }

  lemma {:induction false} CamelsCounted(prev: Option<char>, s: string)
    ensures Camels(prev, s) == 0 <==>
            !HasCamel(s) && !(prev.Some? && s != [] && Boundary(prev.value, s[0]))
    decreases |s|
  {
    if s != [] {
      CamelsCounted(Some(s[0]), s[1..]);
      if HasCamel(s[1..]) {
        var i :| 0 <= i < |s[1..]| - 1 && Boundary(s[1..][i], s[1..][i + 1]);
        assert Boundary(s[i + 1], s[i + 2]);
      }
      if HasCamel(s) && !Boundary(s[0], s[1]) {
        var i :| 0 <= i < |s| - 1 && Boundary(s[i], s[i + 1]);
        assert Boundary(s[1..][i - 1], s[1..][i]);
      }
    }
  }

  /** Splitting at camel-case boundaries adds exactly one hyphen for each of them. */
  lemma {:induction false} CamelsAddHyphens(prev: Option<char>, gap: bool, s: string)
    ensures var camels := Camels(if gap then None else prev, s);
            && |OnePass(true, prev, gap, s)| <= |OnePass(false, prev, gap, s)| + camels
            && (camels == 0 ==> OnePass(true, prev, gap, s) == OnePass(false, prev, gap, s))
            && (gap || prev.Some? || s == [] || IsAlnum(s[0]) ==>
                  |OnePass(true, prev, gap, s)| == |OnePass(false, prev, gap, s)| + camels)
    decreases |s|
  {
    if s != [] {
      if IsAlnum(s[0]) {
        CamelsAddHyphens(Some(s[0]), false, s[1..]);
      } else {
        CamelsAddHyphens(prev, true, s[1..]);
        assert Camels(Some(s[0]), s[1..]) == Camels(None, s[1..]) by {
          assert s[1..] != [] ==> !Boundary(s[0], s[1..][0]);
        }
      }
    }
  }

  lemma {:induction false} SegmentNames(s: string)
    ensures NameSegment(s) == Lower(OnePass(false, None, false, s))
    ensures IsSlug(NameSegment(s))
    ensures Slug(s) == Lower(OnePass(true, None, false, s))
    ensures NameSegment(s) == "" <==> Slug(s) == ""
    ensures Slug(s) != "" <==> exists i :: 0 <= i < |s| && IsAlnum(s[i])
    ensures NameSegment(s) == Slug(s) <==> !HasCamel(s)
  {
    NameSegmentIsOnePass(s);
    OnePassHyphenated(false, None, false, s);
    LowerKeepsHyphenated(OnePass(false, None, false, s));
    SlugEqualsManifestKind(s);
    OnePassHyphenated(true, None, false, s);
    CamelsAddHyphens(None, false, s);
    CamelsCounted(None, s);
    LengthsDiffer(s);
  }

  lemma LengthsDiffer(s: string)
    ensures |OnePass(true, None, false, s)| == |OnePass(false, None, false, s)| + Camels(None, s)
  {
    GapAtStart(true, s);
    GapAtStart(false, s);
    CamelsAddHyphens(None, true, s);
  }

  // ---------------------------------------------------------------- the derivation loops

  predicate Skipped(seg: string) { '{' in seg || '}' in seg || seg == "v1" }

  /** A loop step: the segment is taken exactly when it is nameable. */
  lemma {:induction false} LoopStep(segs: seq<string>, i: nat)
    requires i < |segs|
    ensures !Skipped(segs[i]) && NameSegment(segs[i]) != "" <==> Nameable(segs[i])
    ensures !Skipped(segs[i]) && Slug(segs[i]) != "" <==> Nameable(segs[i])
    ensures LastNameable(segs[..i + 1]) == if Nameable(segs[i]) then Segment(segs[i]) else LastNameable(segs[..i])
  {
    hide Slug, NameSegment, HasCamel, IsSlug;
    SegmentNames(segs[i]);
    assert segs[..i + 1][..i] == segs[..i];
  }

  lemma NothingBeforeStart(segs: seq<string>)
    ensures LastNameable(segs[..0]) == Generic
  {
  }

  /** `deriveName` of the manifest */
  method DeriveName(path: string) returns (name: string)
    ensures name == NameOf(Chosen(path))
    ensures match Chosen(path)
            case Root => name == "root"
            case Generic => name == "action"
            case Segment(s) => name == NameSegment(s)
  {
    hide Slug, HyphenRuns, Lower, Nameable, LastNameable, Split, Trim, Skipped;
    var p := Split('?', path)[0];
    p := Trim(IsSlash, p);
    if p == "" {
      return "root";
    }
    var segs := Split('/', p);
    var i := |segs| - 1;
    assert segs[..|segs|] == segs;
    while i >= 0
      invariant -1 <= i < |segs|
      invariant LastNameable(segs) == LastNameable(segs[..i + 1])
    {
      LoopStep(segs, i);
      if !Skipped(segs[i]) {
        var s := Lower(HyphenRuns(segs[i]));
        s := Trim(IsHyphen, s);
        if s != "" {
          return s;
        }
      }
      i := i - 1;
    }
    NothingBeforeStart(segs);
    return "action";
  }

  /** `deriveShort` of the orchestrator */
  method DeriveShort(path: string) returns (short: string)
    ensures short == ShortOf(Chosen(path))
    ensures match Chosen(path)
            case Root => short == "root"
            case Generic => short == "action"
            case Segment(s) => short == Slug(s)
  {
    hide Slug, NameSegment, Nameable, LastNameable, Split, Trim, Skipped;
    var p := Split('?', path)[0];
    p := Trim(IsSlash, p);
    if p == "" {
      return "root";
    }
    var segs := Split('/', p);
    var i := |segs| - 1;
    assert segs[..|segs|] == segs;
    while i >= 0
      invariant -1 <= i < |segs|
      invariant LastNameable(segs) == LastNameable(segs[..i + 1])
    {
      LoopStep(segs, i);
      if !Skipped(segs[i]) {
        var s := Slug(segs[i]);
        if s != "" {
          return s;
        }
      }
      i := i - 1;
    }
    NothingBeforeStart(segs);
    return "action";
  }

  predicate CamelFree(c: Choice) { c.Segment? ==> !HasCamel(c.text) }

  /** The two derivations look at the same segment of every path, and give the same
      name exactly when that segment has no camel-case boundary. */
  lemma {:induction false} NamesAgreeIffNoCamel(path: string)
    ensures NameOf(Chosen(path)) == ShortOf(Chosen(path)) <==> CamelFree(Chosen(path))
  {
    if Chosen(path).Segment? {
      SegmentNames(Chosen(path).text);
    }
  }

  // ---------------------------------------------------------------- printing and parsing keys

  /** The key that `BuildManifest` gives an operation. */
  function ManifestKey(tenantNs: string, kind: Option<string>, path: string): string {
    var namespace := if kind.Some? && kind.value != "" && ManifestKind(kind.value) != ""
                     then ManifestKind(kind.value) else tenantNs;
    namespace + "." + NameOf(Chosen(path))
  }

  /** The namespace and short name that `Execute` reads off a key. */
  function SplitKey(key: string): (string, string) {
    var i := IndexOf('.', key);
    if i < |key| then (key[..i], if i + 1 < |key| then key[i + 1..] else "") else (key, "")
  }

  /** The parts on both sides of the first dot; a key without a dot is all namespace. */
  lemma SplitPrinted(a: string, b: string)
    requires '.' !in a
    ensures SplitKey(a + "." + b) == (a, b)
    ensures SplitKey(a) == (a, "")
  {
    var key := a + "." + b;
    assert key[|a|] == '.';
    assert forall j :: 0 <= j < |a| ==> key[j] == a[j];
    assert IndexOf('.', key) == |a|;
    assert key[..|a|] == a && key[|a| + 1..] == b;
  }

  lemma SlugHasNoDot(t: string)
    requires IsSlug(t)
    ensures '.' !in t
  {
  }

  lemma {:induction false} NameNonEmpty(c: Choice)
    requires c.Segment? ==> Nameable(c.text)
    ensures NameOf(c) != "" && ShortOf(c) != ""
  {
    if c.Segment? {
      SegmentNames(c.text);
    }
  }

  /** Splitting a manifest key at its first dot gives back exactly what was printed. */
  lemma {:induction false} KeyRoundTrip(tenantNs: string, kind: string, path: string)
    requires Slug(kind) != ""
    ensures SplitKey(ManifestKey(tenantNs, Some(kind), path)) == (Slug(kind), NameOf(Chosen(path)))
  {
    hide Slug, ManifestKind, Chosen, NameOf, IsSlug, SplitKey;
    SlugEqualsManifestKind(kind);
    SlugHasNoDot(Slug(kind));
    NameNonEmpty(Chosen(path));
    SplitPrinted(Slug(kind), NameOf(Chosen(path)));
  }

  /** A kind that is missing or has no letter or digit leaves the tenant's namespace in the key, and
      splitting gives it back exactly when it has no dot of its own. */
  lemma {:induction false} TenantKeyRoundTrip(tenantNs: string, kind: Option<string>, path: string)
    requires kind.Some? ==> Slug(kind.value) == ""
    ensures ManifestKey(tenantNs, kind, path) == tenantNs + "." + NameOf(Chosen(path))
    ensures SplitKey(ManifestKey(tenantNs, kind, path)) == (tenantNs, NameOf(Chosen(path))) <==> '.' !in tenantNs
  {
    hide Slug, ManifestKind, Chosen, NameOf, IsSlug, IndexOf;
    if kind.Some? {
      SlugEqualsManifestKind(kind.value);
    }
    SplitPrinted(SplitKey(ManifestKey(tenantNs, kind, path)).0, "");
    if '.' !in tenantNs {
      SplitPrinted(tenantNs, NameOf(Chosen(path)));
    }
  }

  // ---------------------------------------------------------------- searching the rows

  datatype OpRow = OpRow(baseURL: string, method_: string, path: string, tmpl: string, kind: string, title: string)

  /** A row of the result set; scanning one can fail, and the loop then skips it. */
  datatype Fetched = Scanned(row: OpRow) | ScanFailed

  predicate InNamespace(f: Fetched, ns: string) {
    f.Scanned? && (Slug(f.row.kind) == ns || Slug(f.row.title) == ns)
  }

  predicate Exact(f: Fetched, ns: string, short: string) {
    InNamespace(f, ns) && ShortOf(Chosen(f.row.path)) == short
  }

  function First(p: Fetched -> bool, rows: seq<Fetched>): (r: Option<nat>)
    ensures r.Some? ==> r.value < |rows| && p(rows[r.value]) && forall j :: 0 <= j < r.value ==> !p(rows[j])
    ensures r.None? ==> forall j :: 0 <= j < |rows| ==> !p(rows[j])
  {
    if rows == [] then None
    else if p(rows[0]) then Some(0)
    else match First(p, rows[1..]) case None => None case Some(i) => Some(i + 1)
  }

  /** The first exact match, else the first row of the namespace, else none. */
  function Selected(rows: seq<Fetched>, ns: string, short: string): Option<nat> {
    var exact := First(f => Exact(f, ns, short), rows);
    if exact.Some? then exact else First(f => InNamespace(f, ns), rows)
  }

  /** The fields `Execute` holds after its search; empty strings when nothing was found. */
  datatype Target = Target(baseURL: string, method_: string, path: string, tmpl: string)

  function TargetOf(rows: seq<Fetched>, sel: Option<nat>): Target
    requires sel.Some? ==> sel.value < |rows| && rows[sel.value].Scanned?
  {
    if sel.None? then Target("", "", "", "")
    else var r := rows[sel.value].row; Target(r.baseURL, r.method_, r.path, r.tmpl)
  }

  /** What the loop knows of the rows before `i`: no exact match, and `sel` is the first
      row of the namespace if there is one. */
  predicate Searched(rows: seq<Fetched>, ns: string, short: string, i: nat, sel: Option<nat>) {
    && i <= |rows|
    && (forall j :: 0 <= j < i ==> !Exact(rows[j], ns, short))
    && (sel.None? ==> forall j :: 0 <= j < i ==> !InNamespace(rows[j], ns))
    && (sel.Some? ==> sel.value < i && InNamespace(rows[sel.value], ns)
                      && forall j :: 0 <= j < sel.value ==> !InNamespace(rows[j], ns))
  }

  lemma SearchEnds(rows: seq<Fetched>, ns: string, short: string, i: nat, sel: Option<nat>)
    requires Searched(rows, ns, short, i, sel)
    ensures i == |rows| ==> Selected(rows, ns, short) == sel
    ensures i < |rows| && Exact(rows[i], ns, short) ==> Selected(rows, ns, short) == Some(i)
  {
    hide Exact, InNamespace;
  }

  /** The search loop of `Execute` */
  method SelectOperation(rows: seq<Fetched>, actionKey: string) returns (t: Target)
    ensures var (ns, short) := SplitKey(actionKey);
            t == TargetOf(rows, Selected(rows, ns, short))
    ensures var (ns, short) := SplitKey(actionKey);
            match Selected(rows, ns, short)
            case None => t.baseURL == "" && t.method_ == "" && t.path == "" && t.tmpl == ""
            case Some(i) => && i < |rows| && rows[i].Scanned?
                            && t.baseURL == rows[i].row.baseURL && t.method_ == rows[i].row.method_
                            && t.path == rows[i].row.path && t.tmpl == rows[i].row.tmpl
  {
    hide Slug, ShortOf, Chosen, Selected, SplitKey;
    var (ns, short) := SplitKey(actionKey);
    t := Target("", "", "", "");
    var fallbackSet := false;
    ghost var sel: Option<nat> := None;
    var i := 0;
    while i < |rows|
      invariant Searched(rows, ns, short, i, sel)
      invariant fallbackSet == sel.Some?
      invariant t == TargetOf(rows, sel)
    {
      SearchEnds(rows, ns, short, i, sel);
      if rows[i].Scanned? {
        var row := rows[i].row;
        var kSlug, tSlug := Slug(row.kind), Slug(row.title);
        if kSlug == ns || tSlug == ns {
          var candShort := DeriveShort(row.path);
          if candShort == short || !fallbackSet {
            t := Target(row.baseURL, row.method_, row.path, row.tmpl);
            if candShort == short {
              return;
            }
            fallbackSet, sel := true, Some(i);
          }
        }
      }
      i := i + 1;
    }
    SearchEnds(rows, ns, short, i, sel);
  }

  /** A row is found exactly when some scanned one has a kind or a title that slugs to the namespace.
      It is the first of those that also goes by the short name, or, when none does, the first of those. */
  lemma SelectedExactly(rows: seq<Fetched>, ns: string, short: string)
    ensures Selected(rows, ns, short).Some? <==>
            exists j :: 0 <= j < |rows| && rows[j].Scanned?
                        && (Slug(rows[j].row.kind) == ns || Slug(rows[j].row.title) == ns)
    ensures Selected(rows, ns, short).Some? ==>
              var i := Selected(rows, ns, short).value;
              && i < |rows| && rows[i].Scanned?
              && (Slug(rows[i].row.kind) == ns || Slug(rows[i].row.title) == ns)
              && (forall j ::
                    && 0 <= j < (if ShortOf(Chosen(rows[i].row.path)) == short then i else |rows|)
                    && rows[j].Scanned? && (Slug(rows[j].row.kind) == ns || Slug(rows[j].row.title) == ns)
                    ==> ShortOf(Chosen(rows[j].row.path)) != short)
              && (ShortOf(Chosen(rows[i].row.path)) != short ==>
                    forall j :: 0 <= j < i && rows[j].Scanned? ==>
                      Slug(rows[j].row.kind) != ns && Slug(rows[j].row.title) != ns)
  {
    hide Slug, ShortOf, Chosen;
  }

  /** A row that the key of `row` could mean: one whose kind or title slugs to its namespace, and that
      is searched for under its name */
  predicate Answers(f: Fetched, row: OpRow) {
    && f.Scanned? && (Slug(f.row.kind) == Slug(row.kind) || Slug(f.row.title) == Slug(row.kind))
    && ShortOf(Chosen(f.row.path)) == NameOf(Chosen(row.path))
  }

  /** The key of a row's connector title and short name finds a row of that title or kind and that
      short name, the first one: the row itself when no earlier one goes by both. */
  lemma {:induction false} TitleKeyFindsRow(rows: seq<Fetched>, i: nat)
    requires i < |rows| && rows[i].Scanned? && Slug(rows[i].row.title) != ""
    ensures var title, name := Slug(rows[i].row.title), ShortOf(Chosen(rows[i].row.path));
            var (ns, short) := SplitKey(title + "." + name);
            var sel := Selected(rows, ns, short);
            && ns == title && short == name && sel.Some? && sel.value <= i
            && (sel == Some(i) <==>
                  forall j :: 0 <= j < i && rows[j].Scanned? && ShortOf(Chosen(rows[j].row.path)) == name ==>
                    Slug(rows[j].row.kind) != title && Slug(rows[j].row.title) != title)
  {
    hide Slug, ShortOf, Chosen, SplitKey, Selected, IsSlug;
    var title, name := Slug(rows[i].row.title), ShortOf(Chosen(rows[i].row.path));
    SlugEqualsManifestKind(rows[i].row.title);
    SlugHasNoDot(title);
    SplitPrinted(title, name);
    hide ManifestKind, Lower, OnePass;
    SelectedExactly(rows, title, name);
  }

  /** The key of a row leads back to that row exactly when either its segment has no camel-case
      boundary and no earlier row of the namespace goes by the same short name, or it has one, no
      row of the namespace happens to go by the printed name, and it is the namespace's first. */
  lemma {:induction false} OwnKeyFindsRow(rows: seq<Fetched>, i: nat, tenantNs: string)
    requires i < |rows| && rows[i].Scanned? && Slug(rows[i].row.kind) != ""
    ensures var row := rows[i].row;
            var (ns, short) := SplitKey(ManifestKey(tenantNs, Some(row.kind), row.path));
            && (Exact(rows[i], ns, short) <==> CamelFree(Chosen(row.path)))
            && (Selected(rows, ns, short) == Some(i) <==>
                  if CamelFree(Chosen(row.path)) then forall j :: 0 <= j < i ==> !Answers(rows[j], row)
                  else && (forall j :: 0 <= j < |rows| ==> !Answers(rows[j], row))
                       && (forall j :: 0 <= j < i ==> !InNamespace(rows[j], ns)))
  {
    hide Slug, ManifestKind, Chosen, NameOf, ShortOf, SplitKey, ManifestKey, CamelFree;
    var row := rows[i].row;
    KeyRoundTrip(tenantNs, row.kind, row.path);
    NamesAgreeIffNoCamel(row.path);
    var (ns, short) := SplitKey(ManifestKey(tenantNs, Some(row.kind), row.path));
    assert InNamespace(rows[i], ns);
    assert forall j :: 0 <= j < |rows| ==> (Answers(rows[j], row) <==> Exact(rows[j], ns, short));
    assert forall j :: 0 <= j < |rows| && Exact(rows[j], ns, short) ==> InNamespace(rows[j], ns);
    hide Exact, InNamespace, Answers;
  }

  /** Without a camel-case boundary the search always ends on an exact match, never on the fallback. */
  lemma {:induction false} CamelFreeKeyIsExact(rows: seq<Fetched>, i: nat, tenantNs: string)
    requires i < |rows| && rows[i].Scanned? && Slug(rows[i].row.kind) != ""
    requires CamelFree(Chosen(rows[i].row.path))
    ensures var row := rows[i].row;
            var (ns, short) := SplitKey(ManifestKey(tenantNs, Some(row.kind), row.path));
            var sel := Selected(rows, ns, short);
            && sel.Some? && sel.value <= i && Answers(rows[sel.value], row)
            && forall j :: 0 <= j < sel.value ==> !Answers(rows[j], row)
  {
    hide Slug, ManifestKind, Chosen, NameOf, ShortOf, SplitKey, ManifestKey, CamelFree;
    var row := rows[i].row;
    KeyRoundTrip(tenantNs, row.kind, row.path);
    NamesAgreeIffNoCamel(row.path);
    var (ns, short) := SplitKey(ManifestKey(tenantNs, Some(row.kind), row.path));
    assert forall j :: 0 <= j < |rows| ==> (Answers(rows[j], row) <==> Exact(rows[j], ns, short));
    assert Exact(rows[i], ns, short);
    hide Exact, InNamespace, Answers;
  }

  /** Two operations of one connector on one path share a key, and it selects the first. */
  lemma {:induction false} SharedKeyRunsFirst()
    ensures var row := OpRow("", "GET", "x", "", "k", "");
            var rows := [Scanned(row), Scanned(row.(method_ := "POST"))];
            var (ns, short) := SplitKey(ManifestKey("t", Some("k"), "x"));
            CamelFree(Chosen("x")) && Selected(rows, ns, short) == Some(0)
  {
    hide Slug, NameSegment, Chosen, SplitKey, ManifestKey, Selected, HasCamel;
    var row := OpRow("", "GET", "x", "", "k", "");
    var rows := [Scanned(row), Scanned(row.(method_ := "POST"))];
    assert IsAlnum("x"[0]);
    OneSegment("x");
    assert !HasCamel("x") by { NoCamelInOne("x"); }
    SlugFixesNormalForms("k");
    OwnKeyFindsRow(rows, 0, "t");
  }

  lemma NoCamelInOne(s: string)
    requires |s| == 1
    ensures !HasCamel(s)
  {
  }

  /** A row whose segment has a camel-case boundary is not an exact match for its own key:
      unless some row happens to be one, `Execute` runs the first row of the namespace. */
  lemma {:induction false} CamelKeyFallsBack(rows: seq<Fetched>, i: nat, tenantNs: string)
    requires i < |rows| && rows[i].Scanned? && Slug(rows[i].row.kind) != ""
    requires !CamelFree(Chosen(rows[i].row.path))
    requires forall j :: 0 <= j < |rows| && InNamespace(rows[j], Slug(rows[i].row.kind)) ==>
               ShortOf(Chosen(rows[j].row.path)) != NameOf(Chosen(rows[i].row.path))
    ensures var row := rows[i].row;
            var (ns, short) := SplitKey(ManifestKey(tenantNs, Some(row.kind), row.path));
            var sel := Selected(rows, ns, short);
            sel.Some? && sel.value <= i && InNamespace(rows[sel.value], Slug(row.kind))
            && forall j :: 0 <= j < sel.value ==> !InNamespace(rows[j], Slug(row.kind))
  {
    hide Slug, ManifestKind, Chosen, NameOf, ShortOf, SplitKey, ManifestKey;
    KeyRoundTrip(tenantNs, rows[i].row.kind, rows[i].row.path);
  }

  /** Two operations of one connector for which the second one's own key runs the first. */
  lemma {:induction false} CamelKeyRunsAnotherOperation()
    ensures var row := OpRow("", "POST", "aB", "", "k", "");
            var rows := [Scanned(row.(path := "x")), Scanned(row)];
            var (ns, short) := SplitKey(ManifestKey("t", Some("k"), "aB"));
            Selected(rows, ns, short) == Some(0)
  {
    hide Slug, NameSegment, Chosen, SplitKey, ManifestKey, Selected;
    var row := OpRow("", "POST", "aB", "", "k", "");
    var rows := [Scanned(row.(path := "x")), Scanned(row)];
    assert HasCamel("aB") by {
      assert Boundary("aB"[0], "aB"[1]);
    }
    OneSegment("aB");
    assert IsAlnum("x"[0]);
    OneSegment("x");
    SlugFixesNormalForms("k");
    SlugFixesNormalForms("x");
    SegmentNames("aB");
    NameOfTwo();
    CamelKeyFallsBack(rows, 1, "t");
    assert InNamespace(rows[0], "k");
  }

  lemma OneSegment(s: string)
    requires Nameable(s) && '/' !in s && '?' !in s
    ensures Chosen(s) == Segment(s)
  {
    assert IndexOf('?', s) == |s| && IndexOf('/', s) == |s|;
    assert Split('?', s) == [s];
    assert TrimLeft(IsSlash, s) == s;
    assert TrimRight(IsSlash, s) == s;
    assert Split('/', s) == [s];
  }

  lemma {:induction false} NameOfTwo()
    ensures |NameSegment("aB")| == 2
  {
    hide NameSegment, Slug, HasCamel, IsSlug;
    SegmentNames("aB");
    assert OnePass(false, None, false, "aB") == ['a'] + OnePass(false, Some('a'), false, "B") by {
      assert "aB"[1..] == "B";
    }
    assert OnePass(false, Some('a'), false, "B") == ['B'] + OnePass(false, Some('B'), false, "") by {
      assert "B"[1..] == "";
    }
  }
}
