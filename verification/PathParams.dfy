/** The console's editing of path parameters: `ensurePathParams` and `setPathParam`
    (apps/admin-ui/app/connectors/[id]/actions/page.tsx), and what an edit does to the template
    generated afterwards. */
module PathParams {
  import opened Text
  import opened Generator

  predicate Fits(p: Param, k: string) { p.location == InPath && Target(p) == k }

  function FirstFit(params: seq<Param>, k: string): (r: Option<nat>)
    ensures r.Some? ==> r.value < |params| && Fits(params[r.value], k)
    ensures r.Some? ==> forall j :: 0 <= j < r.value ==> !Fits(params[j], k)
    ensures r.None? ==> forall j :: 0 <= j < |params| ==> !Fits(params[j], k)
  {
    if params == [] then None
    else if Fits(params[0], k) then Some(0)
    else match FirstFit(params[1..], k) case None => None case Some(i) => Some(i + 1)
  }

  function Added(params: seq<Param>, names: seq<string>): seq<Param> {
    if names == [] then params
    else
      var before := Added(params, names[..|names| - 1]);
      var k := names[|names| - 1];
      if FirstFit(before, k).None? then before + [Param(k, k, InPath, k)] else before
  }

  /** Some parameter is for this placeholder. */
  predicate HasParam(params: seq<Param>, k: string) {
    exists i :: 0 <= i < |params| && Fits(params[i], k)
  }

  /** Adding keeps the old parameters in front, gives every name a parameter, and adds one only for a
      name that had none. */
  lemma {:induction false} AddedMeaning(params: seq<Param>, names: seq<string>)
    ensures params <= Added(params, names)
    ensures forall k :: k in names ==> HasParam(Added(params, names), k)
    ensures forall i :: |params| <= i < |Added(params, names)| ==>
              AddedFor(params, names, Added(params, names)[i])
    ensures forall i, j :: |params| <= i < j < |Added(params, names)| ==>
              Added(params, names)[i] != Added(params, names)[j]
  {
    hide FirstFit;
    if names != [] {
      var init, k := names[..|names| - 1], names[|names| - 1];
      AddedMeaning(params, init);
      assert names == init + [k];
      var before, after := Added(params, init), Added(params, names);
      assert before <= after;
      forall n | n in names ensures HasParam(after, n) {
        if n in init {
          var i :| 0 <= i < |before| && Fits(before[i], n);
          assert after[i] == before[i];
        } else if FirstFit(before, k).None? {
          assert Fits(after[|before|], k);
        }
      }
      if FirstFit(before, k).None? {
        var q := Param(k, k, InPath, k);
        assert !HasParam(params, k) by {
          assert forall i :: 0 <= i < |params| ==> params[i] == before[i];
        }
        assert AddedFor(params, names, q);
        assert forall i :: 0 <= i < |before| ==> before[i] != q;
      }
    }
  }

  /** A parameter as the console adds it, for a name without one */
  predicate AddedFor(params: seq<Param>, names: seq<string>, p: Param) {
    p.name in names && p == Param(p.name, p.name, InPath, p.name) && !HasParam(params, p.name)
  }

  method EnsurePathParams(op: Op) returns (next: Op)
    ensures next == op.(params := Added(op.params, Placeholders(op.path)))
    ensures op.params <= next.params
    ensures forall k :: k in Placeholders(op.path) ==> HasParam(next.params, k)
    ensures forall i :: |op.params| <= i < |next.params| ==>
              AddedFor(op.params, Placeholders(op.path), next.params[i])
  {
    AddedMeaning(op.params, Placeholders(op.path));
    var placeholders := ExtractPlaceholders(op.path);
    hide Placeholders, FirstFit;
    if placeholders == [] {
      return op;
    }
    var params := op.params;
    var i := 0;
    while i < |placeholders|
      invariant 0 <= i <= |placeholders|
      invariant params == Added(op.params, placeholders[..i])
    {
      var k := placeholders[i];
      assert placeholders[..i + 1][..i] == placeholders[..i];
      var idx := FirstFit(params, k);
      if idx.None? {
        params := params + [Param(k, k, InPath, k)];
      }
      i := i + 1;
    }
    assert placeholders[..i] == placeholders;
    next := op.(params := params);
  }

  lemma LastForAppend(params: seq<Param>, p: Param, loc: Location, k: string)
    ensures LastFor(params + [p], loc, k) == if Binds(p, loc, k) then Some(Source(p)) else LastFor(params, loc, k)
  {
    assert (params + [p])[..|params|] == params;
  }

  lemma FitsCoversBinds(params: seq<Param>, k: string)
    requires FirstFit(params, k).None?
    ensures LastFor(params, InPath, k).None?
  {
    var _ := LastForMeaning(params, InPath, k);
    assert forall i :: 0 <= i < |params| && Binds(params[i], InPath, k) ==> Fits(params[i], k);
  }

  /** Adding the missing path parameters changes no source: the generator would have
      defaulted each of them to the same input. */
  lemma {:induction false} AddingKeepsSources(params: seq<Param>, names: seq<string>, k: string)
    ensures SourceFor(Added(params, names), k) == SourceFor(params, k)
    ensures forall loc: Location :: loc != InPath ==> LastFor(Added(params, names), loc, k) == LastFor(params, loc, k)
  {
    hide FirstFit;
    if names != [] {
      AddingKeepsSources(params, names[..|names| - 1], k);
      var before, n := Added(params, names[..|names| - 1]), names[|names| - 1];
      var p := Param(n, n, InPath, n);
      if FirstFit(before, n).None? {
        forall loc: Location
          ensures LastFor(before + [p], loc, k)
               == if Binds(p, loc, k) then Some(Source(p)) else LastFor(before, loc, k)
        {
          LastForAppend(before, p, loc, k);
        }
        FitsCoversBinds(before, n);
      }
    }
  }

  /** The fields that an edit of a parameter names */
  datatype Patch = Patch(name: Option<string>, inputKey: Option<string>, location: Option<Location>,
                         target: Option<string>)

  function Patched(p: Param, patch: Patch): Param {
    Param(patch.name.GetOr(p.name), patch.inputKey.GetOr(p.inputKey), patch.location.GetOr(p.location),
          patch.target.GetOr(p.target))
  }

  /** The parameter that an edit of placeholder `k` changes, or starts from */
  function Edited(op: Op, k: string): Param {
    match FirstFit(op.params, k)
    case Some(i) => op.params[i]
    case None => Param(k, k, InPath, k)
  }

  function SetPathParam(op: Op, k: string, patch: Patch): Op {
    var q := Patched(Edited(op, k), patch);
    match FirstFit(op.params, k)
    case Some(i) => op.(params := op.params[i := q])
    case None => op.(params := op.params + [q])
  }

  predicate WritesAfter(params: seq<Param>, i: nat, k: string) {
    exists j :: i < j < |params| && Binds(params[j], InPath, k)
  }

  /** A parameter after the first one for this placeholder that the generator also writes */
  predicate Shadowed(params: seq<Param>, k: string) {
    var first := FirstFit(params, k);
    first.Some? && WritesAfter(params, first.value, k)
  }

  /** What any edit does to the placeholder it is made for.  The console edits the first parameter of
      the placeholder while the generator takes the last one, so the edit has no effect when a later
      one exists; otherwise the placeholder reads the edited parameter's source, or the input of its
      own name when the edited parameter no longer writes it. */
  lemma EditedSource(op: Op, k: string, patch: Patch)
    ensures var p := Edited(op, k);
            var q := Param(if patch.name.Some? then patch.name.value else p.name,
                           if patch.inputKey.Some? then patch.inputKey.value else p.inputKey,
                           if patch.location.Some? then patch.location.value else p.location,
                           if patch.target.Some? then patch.target.value else p.target);
            SourceFor(SetPathParam(op, k, patch).params, k)
            == if Shadowed(op.params, k) then SourceFor(op.params, k)
               else if Writes(q, InPath, k) then (if q.inputKey == "" then q.name else q.inputKey)
               else k
  {
    hide FirstFit;
    var q := Patched(Edited(op, k), patch);
    match FirstFit(op.params, k) {
      case None =>
        LastForAppend(op.params, q, InPath, k);
        FitsCoversBinds(op.params, k);
      case Some(i) =>
        NoneBefore(op.params, i, k);
        assert op.params[i := q][..i] == op.params[..i];
        SuffixDecides(op.params, op.params[i := q], i, k);
    }
  }

  /** An edit of the input key: the placeholder reads the new key, or, when the key is cleared, the
      input of the parameter's name or else of its own; no other placeholder is affected. */
  lemma SettingInputKey(op: Op, k: string, key: string)
    requires k != ""
    ensures var next := SetPathParam(op, k, Patch(None, Some(key), None, None)).params;
            var name := Edited(op, k).name;
            && SourceFor(next, k) == (if Shadowed(op.params, k) then SourceFor(op.params, k)
                                      else if key != "" then key else if name != "" then name else k)
            && forall other :: other != k ==> SourceFor(next, other) == SourceFor(op.params, other)
  {
    hide FirstFit;
    var patch := Patch(None, Some(key), None, None);
    EditedSource(op, k, patch);
    var p, q := Edited(op, k), Patched(Edited(op, k), patch);
    assert Fits(p, k) && Fits(q, k);
    forall other | other != k
      ensures SourceFor(SetPathParam(op, k, patch).params, other) == SourceFor(op.params, other) {
      match FirstFit(op.params, k) {
        case None => LastForAppend(op.params, q, InPath, other);
        case Some(i) => SameElsewhere(op.params, i, q, other);
      }
    }
  }

  /** Two parameters for one placeholder: setting its input key changes nothing. */
  lemma ShadowedEditHasNoEffect()
    ensures var p := Param("id", "a", InPath, "id");
            var op := Op("/x/{id}", [p, p.(inputKey := "b")]);
            SourceFor(SetPathParam(op, "id", Patch(None, Some("c"), None, None)).params, "id") == "b"
  {
    var p := Param("id", "a", InPath, "id");
    var op := Op("/x/{id}", [p, p.(inputKey := "b")]);
    assert Fits(op.params[0], "id") && Binds(op.params[1], InPath, "id");
    assert FirstFit(op.params, "id") == Some(0);
    hide FirstFit;
    EditedSource(op, "id", Patch(None, Some("c"), None, None));
  }

  lemma {:induction false} NoneBefore(params: seq<Param>, i: nat, k: string)
    requires FirstFit(params, k) == Some(i)
    ensures LastFor(params[..i], InPath, k).None?
  {
    hide FirstFit;
    var _ := LastForMeaning(params[..i], InPath, k);
  }

  lemma {:induction false} SameElsewhere(params: seq<Param>, i: nat, q: Param, k: string)
    requires i < |params| && !Binds(params[i], InPath, k) && !Binds(q, InPath, k)
    ensures LastFor(params[i := q], InPath, k) == LastFor(params, InPath, k)
  {
    hide Binds, Source;
    var n := |params| - 1;
    if i < n {
      assert params[i := q][..n] == params[..n][i := q];
      SameElsewhere(params[..n], i, q, k);
    } else {
      assert params[i := q][..n] == params[..n];
    }
  }

  /** Past position `i` both lists are the same, so a later writer decides alike in both. */
  lemma {:induction false} SuffixDecides(ps: seq<Param>, qs: seq<Param>, i: nat, k: string)
    requires |ps| == |qs| && i < |ps|
    requires forall j :: i < j < |ps| ==> ps[j] == qs[j]
    ensures LastFor(qs, InPath, k)
         == if WritesAfter(ps, i, k) then LastFor(ps, InPath, k)
            else if Binds(qs[i], InPath, k) then Some(Source(qs[i])) else LastFor(qs[..i], InPath, k)
    decreases |ps|
  {
    hide Binds, Source;
    var n := |ps| - 1;
    if n > i {
      if Binds(ps[n], InPath, k) {
        assert WritesAfter(ps, i, k);
      } else {
        WritersBefore(ps, i, n, k);
        hide WritesAfter;
        assert forall j :: i < j < n ==> ps[..n][j] == qs[..n][j];
        SuffixDecides(ps[..n], qs[..n], i, k);
        assert qs[..n][..i] == qs[..i];
      }
    }
  }

  lemma WritersBefore(ps: seq<Param>, i: nat, n: nat, k: string)
    requires i < n == |ps| - 1 && !Binds(ps[n], InPath, k)
    ensures WritesAfter(ps, i, k) <==> WritesAfter(ps[..n], i, k)
  {
    hide Binds;
    if j :| i < j < |ps| && Binds(ps[j], InPath, k) {
      assert ps[..n][j] == ps[j];
    }
  }
}
