/** The version table of a tenant's policies (internal/adminapi/handlers_policies.go,
    db/migrations/0004_action_policies.sql). */
module PolicyVersions {
  import opened Text

  datatype Status = Draft | Published | Archived

  datatype Row = Row(action: string, version: int, code: string, status: Status)

  const INT4_MAX := 0x7FFF_FFFF

  /** A value that fits the INT column */
  predicate Fits(v: int) { -INT4_MAX - 1 <= v <= INT4_MAX }

  predicate Has(rows: seq<Row>, a: string, v: int) {
    exists i :: 0 <= i < |rows| && rows[i].action == a && rows[i].version == v
  }

  /** MAX(version) of an action */
  function MaxVersion(rows: seq<Row>, a: string): (r: Option<int>)
    ensures r.None? <==> forall i :: 0 <= i < |rows| ==> rows[i].action != a
    ensures r.Some? ==> forall i :: 0 <= i < |rows| && rows[i].action == a ==> rows[i].version <= r.value
    ensures r.Some? ==> Has(rows, a, r.value)
  {
    if rows == [] then None
    else
      var n := |rows| - 1;
      var rest := MaxVersion(rows[..n], a);
      assert forall i :: 0 <= i < n ==> rows[..n][i] == rows[i];
      if rows[n].action != a || (rest.Some? && rest.value >= rows[n].version) then rest else Some(rows[n].version)
  }

  /** The number a draft gets when the caller names none.  Reading MAX(version)+1 fails when the
      query fails and when the sum does not fit the column; the number is then 1. */
  function NextVersion(rows: seq<Row>, a: string, readable: bool): int {
    var max := MaxVersion(rows, a);
    var ver := if !readable || (max.Some? && max.value == INT4_MAX) then 0
               else if max.None? then 1 else max.value + 1;
    if ver == 0 then 1 else ver
  }

  /** INSERT ... ON CONFLICT (tenant_id, action_key, version) DO UPDATE */
  function Upsert(rows: seq<Row>, r: Row): seq<Row> {
    if rows == [] then [r]
    else if rows[0].action == r.action && rows[0].version == r.version then [r] + rows[1..]
    else [rows[0]] + Upsert(rows[1..], r)
  }

  /** UPDATE ... SET status = CASE WHEN version = v THEN 'published' ELSE 'archived' END */
  function PublishRow(r: Row, a: string, v: int): Row {
    if r.action != a then r else r.(status := if r.version == v then Published else Archived)
  }

  function PublishRows(rows: seq<Row>, a: string, v: int): seq<Row> {
    seq(|rows|, i requires 0 <= i < |rows| => PublishRow(rows[i], a, v))
  }

  // ---------------------------------------------------------------- the handlers

  datatype Call =
    | Create(action: string, requested: Option<int>, code: string, compiles: bool, readable: bool)
    | Publish(action: string, version: int)

  predicate Accepted(c: Call) {
    c.Create? && TrimSpace(c.code) != "" && TrimSpace(c.action) != "" && c.compiles
  }

  function Numbered(rows: seq<Row>, c: Call): int
    requires c.Create?
  {
    if c.requested.Some? then c.requested.value else NextVersion(rows, c.action, c.readable)
  }

  /** The table after a call that no other comes between; a version that does not fit the column is a
      database error. */
  function Apply(rows: seq<Row>, c: Call): seq<Row> {
    match c
    case Create(a, _, code, _, _) =>
      if Accepted(c) && Fits(Numbered(rows, c)) then Upsert(rows, Row(a, Numbered(rows, c), code, Draft)) else rows
    case Publish(a, v) =>
      if TrimSpace(a) == "" || !Fits(v) then rows else PublishRows(rows, TrimSpace(a), v)
  }

  lemma NoRowsNoChange(rows: seq<Row>, a: string, v: int)
    requires MaxVersion(rows, a).None?
    ensures PublishRows(rows, a, v) == rows
  {
  }

  // ---------------------------------------------------------------- what every run keeps

  predicate Unique(rows: seq<Row>) {
    forall i, j :: 0 <= i < j < |rows| ==> rows[i].action != rows[j].action || rows[i].version != rows[j].version
  }

  predicate OnePublished(rows: seq<Row>) {
    forall i, j :: 0 <= i < j < |rows| && rows[i].status == Published && rows[j].status == Published ==>
      rows[i].action != rows[j].action
  }

  predicate Sound(r: Row) {
    Fits(r.version) && TrimSpace(r.code) != "" && (r.status == Published ==> TrimSpace(r.action) == r.action)
  }

  predicate Inv(rows: seq<Row>) {
    Unique(rows) && OnePublished(rows) && forall i :: 0 <= i < |rows| ==> Sound(rows[i])
  }

  lemma {:induction false} UpsertHas(rows: seq<Row>, r: Row)
    ensures r in Upsert(rows, r) && Has(Upsert(rows, r), r.action, r.version)
  {
    if rows == [] {
      assert [r][0] == r;
    } else if rows[0].action == r.action && rows[0].version == r.version {
      assert ([r] + rows[1..])[0] == r;
    } else {
      UpsertHas(rows[1..], r);
      var up := Upsert(rows[1..], r);
      var i :| 0 <= i < |up| && up[i] == r;
      assert ([rows[0]] + up)[i + 1] == r;
    }
  }

  predicate KeyOf(r: Row, a: string, v: int) { r.action == a && r.version == v }

  /** Upserting replaces the row at `k`, the first with that key, or appends when there is none. */
  lemma {:induction false} UpsertRows(rows: seq<Row>, r: Row) returns (k: nat)
    ensures k <= |rows| && forall i :: 0 <= i < k ==> !KeyOf(rows[i], r.action, r.version)
    ensures k < |rows| ==> KeyOf(rows[k], r.action, r.version) && Upsert(rows, r) == rows[k := r]
    ensures k == |rows| ==> Upsert(rows, r) == rows + [r]
  {
    k := 0;
    if rows != [] && !KeyOf(rows[0], r.action, r.version) {
      k := UpsertRows(rows[1..], r);
      var up := Upsert(rows[1..], r);
      assert Upsert(rows, r) == [rows[0]] + up;
      hide Upsert, KeyOf;
      forall i | 0 <= i < k + 1 ensures !KeyOf(rows[i], r.action, r.version) {
        assert i > 0 ==> rows[i] == rows[1..][i - 1];
      }
      if k < |rows| - 1 {
        assert [rows[0]] + rows[1..][k := r] == rows[k + 1 := r];
        assert rows[1..][k] == rows[k + 1];
      } else {
        assert [rows[0]] + (rows[1..] + [r]) == rows + [r];
      }
      k := k + 1;
    } else if rows != [] {
      assert [r] + rows[1..] == rows[0 := r];
    }
  }

  lemma UpsertKeys(rows: seq<Row>, r: Row, a: string, n: int)
    requires Inv(rows)
    ensures Has(Upsert(rows, r), a, n) <==> Has(rows, a, n) || (a == r.action && n == r.version)
  {
    hide Sound, Upsert;
    var k := UpsertRows(rows, r);
    var up := Upsert(rows, r);
    if k < |rows| {
      assert forall i :: 0 <= i < |rows| ==> up[i].action == rows[i].action && up[i].version == rows[i].version;
    } else {
      assert up[|rows|] == r && forall i :: 0 <= i < |rows| ==> up[i] == rows[i];
    }
  }

  lemma TrimmedAgain(s: string)
    ensures TrimSpace(TrimSpace(s)) == TrimSpace(s)
  {
    var l := TrimLeft(IsSpace, s);
    TrimRightCuts(IsSpace, l);
    assert TrimSpace(s) != [] ==> TrimSpace(s)[0] == l[0];
  }

  lemma {:induction false} PublishKeepsInv(rows: seq<Row>, a: string, v: int)
    requires Inv(rows) && TrimSpace(a) == a
    ensures Inv(PublishRows(rows, a, v))
  {
    hide TrimSpace, Fits;
    var out := PublishRows(rows, a, v);
    assert forall i :: 0 <= i < |rows| ==> out[i] == PublishRow(rows[i], a, v);
    forall i | 0 <= i < |out| ensures Sound(out[i]) {
      assert Sound(rows[i]);
    }
    forall i, j | 0 <= i < j < |out| && out[i].status == Published && out[j].status == Published
      ensures out[i].action != out[j].action
    {
    }
  }

  lemma {:induction false} UpsertKeepsInv(rows: seq<Row>, r: Row)
    requires Inv(rows) && Sound(r) && r.status == Draft
    ensures Inv(Upsert(rows, r))
  {
    hide Sound;
    var k := UpsertRows(rows, r);
  }

  lemma {:induction false} ApplyKeepsInv(rows: seq<Row>, c: Call)
    requires Inv(rows)
    ensures Inv(Apply(rows, c))
  {
    hide Inv, Upsert, PublishRows, TrimSpace;
    match c {
      case Create(a, _, code, _, _) =>
        if Accepted(c) && Fits(Numbered(rows, c)) {
          UpsertKeepsInv(rows, Row(a, Numbered(rows, c), code, Draft));
        }
      case Publish(a, v) =>
        if TrimSpace(a) != "" && Fits(v) {
          TrimmedAgain(a);
          PublishKeepsInv(rows, TrimSpace(a), v);
        }
    }
  }

  /** The next number is one more than the greatest version of the action, and 1 when it has none, when
      the number cannot be read or does not fit the column, or when it would be 0. */
  lemma NextExactly(rows: seq<Row>, a: string, readable: bool)
    ensures !readable || (forall i :: 0 <= i < |rows| ==> rows[i].action != a) ==> NextVersion(rows, a, readable) == 1
    ensures readable ==>
              forall i :: 0 <= i < |rows| && rows[i].action == a
                          && (forall j :: 0 <= j < |rows| && rows[j].action == a ==> rows[j].version <= rows[i].version) ==>
                var greatest := rows[i].version;
                NextVersion(rows, a, readable) == if greatest == 0x7FFF_FFFF || greatest == -1 then 1 else greatest + 1
  {
    hide MaxVersion;
    var max := MaxVersion(rows, a);
    if max.Some? {
      var j :| 0 <= j < |rows| && rows[j].action == a && rows[j].version == max.value;
    }
  }

  /** A create is refused for a blank key or code, for code that does not compile and for a number beyond
      the column, and then changes nothing.  Otherwise the row of its key and number is a draft with its
      code, at the place of the row that had them or at the end; no other row is touched. */
  lemma CreateIsExact(rows: seq<Row>, c: Call) returns (k: nat)
    requires c.Create?
    ensures var out := Apply(rows, c);
            var n := if c.requested.Some? then c.requested.value else NextVersion(rows, c.action, c.readable);
            if || (forall i :: 0 <= i < |c.code| ==> c.code[i] in SPACES)
               || (forall i :: 0 <= i < |c.action| ==> c.action[i] in SPACES)
               || !c.compiles || !(-0x8000_0000 <= n <= 0x7FFF_FFFF)
            then out == rows
            else
              && k <= |rows| && |out| == (if k == |rows| then |rows| + 1 else |rows|)
              && out[k] == Row(c.action, n, c.code, Draft)
              && (forall i :: 0 <= i < |rows| && i != k ==> out[i] == rows[i])
              && (k < |rows| ==> rows[k].action == c.action && rows[k].version == n)
              && (k == |rows| ==> forall i :: 0 <= i < |rows| ==> rows[i].action != c.action || rows[i].version != n)
  {
    BlankIff(c.code);
    BlankIff(c.action);
    hide TrimSpace, NextVersion, Upsert, SPACES;
    k := 0;
    if Accepted(c) && Fits(Numbered(rows, c)) {
      k := UpsertRows(rows, Row(c.action, Numbered(rows, c), c.code, Draft));
    }
  }

  /** A publish is refused for a blank key or a version beyond the column and then changes nothing.
      Otherwise the named version is the published one if it existed, and the action has none if it
      did not; the action's other versions are archived, and other columns and other actions are not
      touched. */
  lemma PublishIsExact(rows: seq<Row>, key: string, v: int)
    ensures var a, out := TrimSpace(key), Apply(rows, Publish(key, v));
            if a == "" || !(-0x8000_0000 <= v <= 0x7FFF_FFFF) then out == rows
            else
              && |out| == |rows|
              && (forall i :: 0 <= i < |rows| && rows[i].action != a ==> out[i] == rows[i])
              && (forall i :: 0 <= i < |rows| && rows[i].action == a ==>
                    && out[i].(status := rows[i].status) == rows[i]
                    && out[i].status == if rows[i].version == v then Published else Archived)
              && (Active(out, a).Some? <==> Has(rows, a, v))
              && (Has(rows, a, v) ==> Active(out, a).value.version == v)
  {
    hide TrimSpace;
    var a, out := TrimSpace(key), Apply(rows, Publish(key, v));
    if a != "" && Fits(v) {
      assert forall i :: 0 <= i < |rows| ==> out[i] == PublishRow(rows[i], a, v);
      if Has(rows, a, v) {
        var i :| 0 <= i < |rows| && rows[i].action == a && rows[i].version == v;
        assert out[i].status == Published;
        var j :| 0 <= j < |out| && out[j] == Active(out, a).value;
      }
    }
  }

  /** The number an automatic draft gets is that of an existing version exactly when the next number
      could not be read, or does not fit the column, and version 1 exists. */
  lemma NumberTakenWhenRead(rows: seq<Row>, a: string, readable: bool)
    requires Inv(rows)
    ensures Has(rows, a, NextVersion(rows, a, readable)) <==>
            Has(rows, a, 1) && (!readable || Has(rows, a, INT4_MAX))
  {
    var max := MaxVersion(rows, a);
    if Has(rows, a, INT4_MAX) {
      var i :| 0 <= i < |rows| && rows[i].action == a && rows[i].version == INT4_MAX;
      var j :| 0 <= j < |rows| && rows[j].action == a && rows[j].version == max.value;
      assert Sound(rows[j]);
    }
  }

  // ---------------------------------------------------------------- the active policy

  /** status='published' ORDER BY version DESC LIMIT 1 */
  function Active(rows: seq<Row>, a: string): (r: Option<Row>)
    ensures r.Some? ==> r.value in rows && r.value.action == a && r.value.status == Published
    ensures r.None? <==> forall i :: 0 <= i < |rows| ==> !(rows[i].action == a && rows[i].status == Published)
    ensures r.Some? ==> forall i :: 0 <= i < |rows| && rows[i].action == a && rows[i].status == Published ==>
              rows[i].version <= r.value.version
  {
    if rows == [] then None
    else
      var n := |rows| - 1;
      var rest := Active(rows[..n], a);
      assert forall i :: 0 <= i < n ==> rows[..n][i] == rows[i];
      if rows[n].action != a || rows[n].status != Published || (rest.Some? && rest.value.version >= rows[n].version)
      then rest else Some(rows[n])
  }

  lemma OnlyPublishedIsActive(rows: seq<Row>, i: nat)
    requires OnePublished(rows) && i < |rows| && rows[i].status == Published
    ensures Active(rows, rows[i].action) == Some(rows[i])
  {
    var j :| 0 <= j < |rows| && rows[j] == Active(rows, rows[i].action).value;
  }

  /** A draft takes the place of the version with its number, and so removes the active policy of
      its action exactly when that version is the active one; every other action keeps its own. */
  lemma DraftDropsActiveIff(rows: seq<Row>, draft: Row, a: string)
    requires Inv(rows) && draft.status == Draft
    ensures var before := Active(rows, a);
            var dropped := a == draft.action && before.Some? && before.value.version == draft.version;
            Active(Upsert(rows, draft), a) == if dropped then None else before
  {
    hide Sound, Upsert, Active;
    var k := UpsertRows(rows, draft);
    if k < |rows| {
      ReplacedByDraft(rows, k, draft, a);
    } else {
      AppendedDraft(rows, draft, a);
    }
  }

  /** The same of a create that no other call comes between. */
  lemma CreateDropsActiveIff(rows: seq<Row>, c: Call, a: string)
    requires Inv(rows) && c.Create?
    ensures var before := Active(rows, a);
            var dropped := && Accepted(c) && Fits(Numbered(rows, c)) && a == c.action
                           && before.Some? && before.value.version == Numbered(rows, c);
            Active(Apply(rows, c), a) == if dropped then None else before
  {
    hide TrimSpace, Fits, Inv, Numbered, Upsert, Active;
    if Accepted(c) && Fits(Numbered(rows, c)) {
      DraftDropsActiveIff(rows, Row(c.action, Numbered(rows, c), c.code, Draft), a);
    }
  }

  lemma AppendedDraft(rows: seq<Row>, draft: Row, a: string)
    requires draft.status == Draft && !Has(rows, draft.action, draft.version)
    ensures Active(rows + [draft], a) == Active(rows, a)
    ensures Active(rows, a).Some? && draft.action == a ==> Active(rows, a).value.version != draft.version
  {
    assert (rows + [draft])[..|rows|] == rows;
    if Active(rows, a).Some? {
      var i :| 0 <= i < |rows| && rows[i] == Active(rows, a).value;
    }
  }

  lemma ReplacedByDraft(rows: seq<Row>, k: nat, draft: Row, a: string)
    requires Unique(rows) && OnePublished(rows) && k < |rows| && draft.status == Draft
    requires rows[k].action == draft.action && rows[k].version == draft.version
    ensures var before := Active(rows, a);
            Active(rows[k := draft], a)
            == if a == draft.action && before.Some? && before.value.version == draft.version then None else before
  {
    var out := rows[k := draft];
    assert OnePublished(out);
    var before := Active(rows, a);
    if before.Some? {
      var i :| 0 <= i < |rows| && rows[i] == before.value;
      if i != k {
        assert out[i] == rows[i];
        OnlyPublishedIsActive(out, i);
      }
    }
  }

  /** When creates run one at a time, a draft without a number of its own removes the active policy
      exactly when that is version 1 and the next number could not be read, or does not fit the
      column. */
  lemma OneAtATimeDropsActiveIff(rows: seq<Row>, c: Call)
    requires Inv(rows) && Accepted(c) && c.requested.None? && Active(rows, c.action).Some?
    ensures Active(Apply(rows, c), c.action).None? <==>
            && Active(rows, c.action).value.version == 1
            && (!c.readable || Has(rows, c.action, INT4_MAX))
  {
    var r := Active(rows, c.action).value;
    hide TrimSpace, Active;
    CreateDropsActiveIff(rows, c, c.action);
    NumberTakenWhenRead(rows, c.action, c.readable);
    var i :| 0 <= i < |rows| && rows[i] == r;
    assert Has(rows, c.action, r.version);
    NextIsOneOrNew(rows, c.action, c.readable);
  }

  lemma NextIsOneOrNew(rows: seq<Row>, a: string, readable: bool)
    requires Inv(rows)
    ensures var n := NextVersion(rows, a, readable); Fits(n) && (n == 1 || !Has(rows, a, n))
    ensures !readable || Has(rows, a, INT4_MAX) ==> NextVersion(rows, a, readable) == 1
  {
    var max := MaxVersion(rows, a);
    if max.Some? {
      var j :| 0 <= j < |rows| && rows[j].action == a && rows[j].version == max.value;
      assert Sound(rows[j]);
    }
  }

  /** Version 1 is published; a draft whose number could not be read overwrites it, and no policy is
      active any more. */
  lemma UnreadableNumberDropsPolicy()
    ensures var c := Create("k", None, "m", true, true);
            var live := CreatedAndPublished([], c);
            && Active(live, "k") == Some(Row("k", 1, "m", Published))
            && Active(Apply(live, c.(readable := false)), "k").None?
  {
    OneLetter('k');
    FirstDraft("k");
    var c := Create("k", None, "m", true, true);
    var live := CreatedAndPublished([], c);
    assert live == Apply(Apply([], c), Publish("k", 1));
    hide *;
    PublishedDraftActive([], c);
    ApplyKeepsInv([], c);
    ApplyKeepsInv(Apply([], c), Publish("k", 1));
    OneAtATimeDropsActiveIff(live, c.(readable := false));
  }

  /** The first draft of an action */
  lemma FirstDraft(a: string)
    requires TrimSpace(a) != ""
    ensures var c := Create(a, None, "m", true, true);
            && Inv([]) && Accepted(c) && Accepted(c.(readable := false))
            && Numbered([], c) == 1 && Fits(1) && Has(Apply([], c), a, 1)
  {
    OneLetter('m');
    hide TrimSpace;
    UpsertHas([], Row(a, 1, "m", Draft));
  }

  lemma OneLetter(c: char)
    requires !IsSpace(c)
    ensures TrimSpace([c]) == [c] && TrimSpace([' ', c]) == [c]
  {
    assert IsSpace(' ');
    hide IsSpace;
    assert [' ', c][1..] == [c];
    assert TrimLeft(IsSpace, [c]) == [c];
    assert TrimLeft(IsSpace, [' ', c]) == TrimLeft(IsSpace, [c]);
    assert TrimRight(IsSpace, [c]) == [c];
  }

  /** Publishing trims the key it is given and creating does not, so a key with outer blanks has no
      active policy. */
  lemma PaddedKeyInactive(rows: seq<Row>, a: string)
    requires Inv(rows) && TrimSpace(a) != a
    ensures Active(rows, a).None?
  {
    hide TrimSpace, Active, Fits;
    assert forall i :: 0 <= i < |rows| ==> Sound(rows[i]);
  }

  /** The table after creating a draft and publishing the number it got, under the key it was
      created with */
  function CreatedAndPublished(rows: seq<Row>, c: Call): seq<Row>
    requires c.Create?
  {
    Apply(Apply(rows, c), Publish(c.action, Numbered(rows, c)))
  }

  /** A draft that is created and then published under its own key becomes the active policy exactly
      when the key has no outer blanks. */
  lemma PublishedDraftActiveIff(rows: seq<Row>, c: Call)
    requires Inv(rows) && Accepted(c) && Fits(Numbered(rows, c))
    ensures var active := Active(CreatedAndPublished(rows, c), c.action);
            && (active.Some? <==> TrimSpace(c.action) == c.action)
            && (active.Some? ==> active.value == Row(c.action, Numbered(rows, c), c.code, Published))
  {
    hide TrimSpace, Fits, Inv, Numbered, Active, Apply;
    if TrimSpace(c.action) == c.action {
      PublishedDraftActive(rows, c);
    } else {
      ApplyKeepsInv(rows, c);
      ApplyKeepsInv(Apply(rows, c), Publish(c.action, Numbered(rows, c)));
      PaddedKeyInactive(CreatedAndPublished(rows, c), c.action);
    }
  }

  lemma PublishedDraftActive(rows: seq<Row>, c: Call)
    requires Inv(rows) && Accepted(c) && Fits(Numbered(rows, c)) && TrimSpace(c.action) == c.action
    ensures Active(CreatedAndPublished(rows, c), c.action)
         == Some(Row(c.action, Numbered(rows, c), c.code, Published))
  {
    var v := Numbered(rows, c);
    var draft := Row(c.action, v, c.code, Draft);
    var mid := Apply(rows, c);
    assert mid == Upsert(rows, draft) && c.action != "";
    hide Apply, Numbered, TrimSpace, Fits, Upsert, Active, MaxVersion, Sound;
    ApplyKeepsInv(rows, c);
    UpsertHas(rows, draft);
    PublishIsExact(mid, c.action, v);
    DraftIsStored(mid, draft, Apply(mid, Publish(c.action, v)));
  }

  /** The published row keeps the code of the draft that was stored last. */
  lemma DraftIsStored(mid: seq<Row>, draft: Row, out: seq<Row>)
    requires Unique(mid) && draft in mid && |out| == |mid|
    requires forall i :: 0 <= i < |mid| && mid[i].action != draft.action ==> out[i] == mid[i]
    requires forall i :: 0 <= i < |mid| && mid[i].action == draft.action ==> out[i].(status := mid[i].status) == mid[i]
    requires var r := Active(out, draft.action); r.Some? && r.value.version == draft.version
    ensures Active(out, draft.action).value == draft.(status := Published)
  {
    var r := Active(out, draft.action).value;
    hide Active;
    var i :| 0 <= i < |mid| && mid[i] == draft;
    var j :| 0 <= j < |out| && out[j] == r;
    assert mid[j].action == draft.action;
  }

  /** A key with outer blanks: its draft is stored, published and still not active. */
  lemma PaddedDraftStaysInactive()
    ensures var c := Create(" k", None, "m", true, true);
            Has(Apply([], c), " k", 1) && Active(CreatedAndPublished([], c), " k").None?
  {
    OneLetter('k');
    FirstDraft(" k");
    hide *;
    PublishedDraftActiveIff([], Create(" k", None, "m", true, true));
  }
}
