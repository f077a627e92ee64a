/** The version table under concurrent handlers (internal/adminapi/handlers_policies.go).  A create
    settles its number in one statement and inserts its draft in another, so that other creates and
    publishes can come between; a publish is one statement. */
module PolicySteps {
  import opened Text
  import opened PolicyVersions

  /** A create that has its number and has not inserted its draft */
  datatype Pending = Pending(action: string, code: string, version: int)

  datatype Table = Table(rows: seq<Row>, pending: map<nat, Pending>)

  datatype Event =
    | SettleNumber(req: nat, call: Call)
    | InsertDraft(req: nat, stored: bool)
    | PublishVersion(key: string, version: int)

  const EMPTY := Table([], map[])

  /** What the insert of a draft leaves */
  function Inserted(rows: seq<Row>, p: Pending): seq<Row> {
    if Fits(p.version) then Upsert(rows, Row(p.action, p.version, p.code, Draft)) else rows
  }

  /** The table after a step; a request that is refused, or has nothing pending, changes nothing. */
  function Step(t: Table, e: Event): Table {
    match e
    case SettleNumber(req, c) =>
      if Accepted(c) && req !in t.pending
      then t.(pending := t.pending[req := Pending(c.action, c.code, Numbered(t.rows, c))]) else t
    case InsertDraft(req, stored) =>
      if req !in t.pending then t
      else Table(if stored then Inserted(t.rows, t.pending[req]) else t.rows, t.pending - {req})
    case PublishVersion(key, v) => t.(rows := Apply(t.rows, Publish(key, v)))
  }

  function Run(t: Table, es: seq<Event>): Table
    decreases |es|
  {
    if es == [] then t else Run(Step(t, es[0]), es[1..])
  }

  // ---------------------------------------------------------------- what every run keeps

  ghost predicate TableInv(t: Table) {
    Inv(t.rows) && forall req :: req in t.pending ==> TrimSpace(t.pending[req].code) != ""
  }

  lemma InsertKeepsInv(rows: seq<Row>, p: Pending)
    requires Inv(rows) && TrimSpace(p.code) != ""
    ensures Inv(Inserted(rows, p))
  {
    hide Inv, TrimSpace, Upsert;
    if Fits(p.version) {
      UpsertKeepsInv(rows, Row(p.action, p.version, p.code, Draft));
    }
  }

  lemma StepKeepsInv(t: Table, e: Event)
    requires TableInv(t)
    ensures TableInv(Step(t, e))
  {
    hide Inv, TrimSpace, Inserted, Apply, Numbered;
    match e {
      case SettleNumber(_, _) =>
      case InsertDraft(req, stored) =>
        if req in t.pending && stored {
          InsertKeepsInv(t.rows, t.pending[req]);
        }
      case PublishVersion(key, v) => ApplyKeepsInv(t.rows, Publish(key, v));
    }
  }

  lemma {:induction false} RunKeepsInv(t: Table, es: seq<Event>)
    requires TableInv(t)
    ensures TableInv(Run(t, es))
    decreases |es|
  {
    hide TableInv, Step;
    if es != [] {
      StepKeepsInv(t, es[0]);
      RunKeepsInv(Step(t, es[0]), es[1..]);
    }
  }

  /** From the empty table, every interleaving of creates and publishes keeps version numbers unique
      and at most one published version per action, published under a key without outer blanks. */
  lemma EveryRunKeepsInv(es: seq<Event>)
    ensures Inv(Run(EMPTY, es).rows)
  {
    assert TableInv(EMPTY);
    hide Inv, Run;
    RunKeepsInv(EMPTY, es);
  }

  /** In every run the active policy is the only published row of its action. */
  lemma ActiveIsUnique(es: seq<Event>, i: nat)
    requires i < |Run(EMPTY, es).rows| && Run(EMPTY, es).rows[i].status == Published
    ensures var r := Run(EMPTY, es).rows[i];
            Active(Run(EMPTY, es).rows, r.action) == Some(r) && TrimSpace(r.code) != ""
  {
    hide TrimSpace, Run, Fits, Active;
    EveryRunKeepsInv(es);
    assert Sound(Run(EMPTY, es).rows[i]);
    OnlyPublishedIsActive(Run(EMPTY, es).rows, i);
  }

  /** No run gives an active policy to a key with outer blanks. */
  lemma BlankPaddedKeyNeverActive(es: seq<Event>, a: string)
    requires TrimSpace(a) != a
    ensures Active(Run(EMPTY, es).rows, a).None?
  {
    hide TrimSpace, Run, Inv, Active;
    EveryRunKeepsInv(es);
    PaddedKeyInactive(Run(EMPTY, es).rows, a);
  }

  /** A create that nothing comes between is the call as a whole. */
  lemma CreateIsItsSteps(t: Table, req: nat, c: Call)
    requires c.Create? && req !in t.pending
    ensures Step(Step(t, SettleNumber(req, c)), InsertDraft(req, true)) == t.(rows := Apply(t.rows, c))
  {
    hide TrimSpace, Upsert, Numbered, Fits;
    var p := Pending(c.action, c.code, Numbered(t.rows, c));
    assert t.pending[req := p] - {req} == t.pending;
  }

  // ---------------------------------------------------------------- drafts that overwrite

  /** An insert removes the active policy of an action exactly when its draft is stored, is for that
      action, and carries the number of the version that is active at the insert, however long ago the
      number was settled; otherwise every action keeps its active policy. */
  lemma InsertDropsActiveIff(t: Table, req: nat, stored: bool, a: string)
    requires TableInv(t) && req in t.pending
    ensures var p, before := t.pending[req], Active(t.rows, a);
            var dropped := && stored && Fits(p.version) && a == p.action
                           && before.Some? && before.value.version == p.version;
            Active(Step(t, InsertDraft(req, stored)).rows, a) == if dropped then None else before
  {
    var p := t.pending[req];
    hide TrimSpace, Active, Upsert, Inv;
    if stored && Fits(p.version) {
      hide Fits;
      DraftDropsActiveIff(t.rows, Row(p.action, p.version, p.code, Draft), a);
    }
  }

  /** This step stores a draft with this number. */
  predicate Stores(t: Table, e: Event, a: string, v: int) {
    && e.InsertDraft? && e.stored && e.req in t.pending
    && t.pending[e.req].action == a && t.pending[e.req].version == v && Fits(v)
  }

  /** Some step of the run does. */
  predicate StoresWithin(t: Table, es: seq<Event>, a: string, v: int)
    decreases |es|
  {
    es != [] && (Stores(t, es[0], a, v) || StoresWithin(Step(t, es[0]), es[1..], a, v))
  }

  lemma {:induction false} PublishKeepsKeys(rows: seq<Row>, key: string, v: int, a: string, n: int)
    ensures Has(Apply(rows, Publish(key, v)), a, n) <==> Has(rows, a, n)
  {
    hide TrimSpace, Fits;
    var out := Apply(rows, Publish(key, v));
    assert |out| == |rows|;
    assert forall i :: 0 <= i < |rows| ==> out[i].action == rows[i].action && out[i].version == rows[i].version;
  }

  lemma InsertKeys(t: Table, e: Event, a: string, n: int)
    requires TableInv(t) && e.InsertDraft?
    ensures Has(Step(t, e).rows, a, n) <==> Has(t.rows, a, n) || Stores(t, e, a, n)
  {
    hide TrimSpace, Upsert, Inv, Has;
    if e.req in t.pending && e.stored {
      var p := t.pending[e.req];
      if Fits(p.version) {
        UpsertKeys(t.rows, Row(p.action, p.version, p.code, Draft), a, n);
      }
    }
  }

  lemma StepKeys(t: Table, e: Event, a: string, n: int)
    requires TableInv(t)
    ensures Has(Step(t, e).rows, a, n) <==> Has(t.rows, a, n) || Stores(t, e, a, n)
  {
    if e.InsertDraft? {
      InsertKeys(t, e, a, n);
    } else if e.PublishVersion? {
      PublishKeepsKeys(t.rows, e.key, e.version, a, n);
    }
  }

  lemma {:induction false} RunKeys(t: Table, es: seq<Event>, a: string, n: int)
    requires TableInv(t)
    ensures Has(Run(t, es).rows, a, n) <==> Has(t.rows, a, n) || StoresWithin(t, es, a, n)
    decreases |es|
  {
    hide Step, TableInv, Has, Stores;
    if es != [] {
      StepKeys(t, es[0], a, n);
      StepKeepsInv(t, es[0]);
      RunKeys(Step(t, es[0]), es[1..], a, n);
    }
  }

  /** No step of these inserts for this request. */
  predicate Waits(es: seq<Event>, req: nat) {
    forall i :: 0 <= i < |es| && es[i].InsertDraft? ==> es[i].req != req
  }

  lemma {:induction false} WaitingKeepsPending(t: Table, es: seq<Event>, req: nat)
    requires req in t.pending && Waits(es, req)
    ensures req in Run(t, es).pending && Run(t, es).pending[req] == t.pending[req]
    decreases |es|
  {
    if es != [] {
      StepWaits(t, es[0], req);
      assert Waits(es[1..], req) by {
        assert forall i :: 0 <= i < |es| - 1 ==> es[1..][i] == es[i + 1];
      }
      hide Step;
      WaitingKeepsPending(Step(t, es[0]), es[1..], req);
    }
  }

  lemma StepWaits(t: Table, e: Event, req: nat)
    requires req in t.pending && (e.InsertDraft? ==> e.req != req)
    ensures req in Step(t, e).pending && Step(t, e).pending[req] == t.pending[req]
  {
    hide TrimSpace, Numbered, Apply, Inserted;
  }

  /** A draft without a number of its own, settled in `t` and about to be inserted after the steps
      `es`, overwrites an existing version exactly when its number was already taken when it was
      settled, because the next one could not be read or does not fit the column and version 1 exists,
      or one of those steps stored a draft with the same number. */
  lemma AutomaticDraftOverwritesIff(t: Table, req: nat, c: Call, es: seq<Event>)
    requires TableInv(t) && req !in t.pending && Accepted(c) && c.requested.None? && Waits(es, req)
    ensures var settled := Step(t, SettleNumber(req, c));
            var n := NextVersion(t.rows, c.action, c.readable);
            var at := Run(settled, es);
            && req in at.pending && at.pending[req] == Pending(c.action, c.code, n)
            && (Has(at.rows, c.action, n) <==>
                  || (Has(t.rows, c.action, 1) && (!c.readable || Has(t.rows, c.action, INT4_MAX)))
                  || StoresWithin(settled, es, c.action, n))
  {
    var settled := Step(t, SettleNumber(req, c));
    var n := NextVersion(t.rows, c.action, c.readable);
    assert settled.rows == t.rows && settled.pending[req] == Pending(c.action, c.code, n);
    StepKeepsInv(t, SettleNumber(req, c));
    NumberTakenWhenRead(t.rows, c.action, c.readable);
    hide Step, Run, Has, NextVersion, StoresWithin, Waits, Inv;
    WaitingKeepsPending(settled, es, req);
    RunKeys(settled, es, c.action, n);
  }

  /** Two creates of one action settle on the same number; one is inserted and published. */
  function StaleSteps(c: Call, n: int): seq<Event>
    requires c.Create?
  {
    [SettleNumber(0, c), SettleNumber(1, c), InsertDraft(1, true), PublishVersion(c.action, n)]
  }

  /** Whatever the table, the insert of the other then removes the policy that was just published, with
      a number that was free when it was read. */
  lemma StaleNumberDropsPolicy(rows: seq<Row>, c: Call)
    requires Inv(rows) && Accepted(c) && c.requested.None? && c.readable && TrimSpace(c.action) == c.action
    requires !Has(rows, c.action, INT4_MAX)
    ensures var n := NextVersion(rows, c.action, true);
            var t := Run(Table(rows, map[]), StaleSteps(c, n));
            && !Has(rows, c.action, n)
            && Active(t.rows, c.action) == Some(Row(c.action, n, c.code, Published))
            && Active(Step(t, InsertDraft(0, true)).rows, c.action).None?
  {
    var n := NextVersion(rows, c.action, true);
    NextIsOneOrNew(rows, c.action, true);
    NumberTakenWhenRead(rows, c.action, true);
    StaleRun(rows, c);
    var t := Run(Table(rows, map[]), StaleSteps(c, n));
    PublishedDraftActive(rows, c);
    ApplyKeepsInv(rows, c);
    ApplyKeepsInv(Apply(rows, c), Publish(c.action, n));
    assert TableInv(t);
    hide *;
    InsertDropsActiveIff(t, 0, true, c.action);
  }

  lemma StaleRun(rows: seq<Row>, c: Call)
    requires Accepted(c) && c.requested.None? && c.readable
    ensures var n := NextVersion(rows, c.action, true);
            Run(Table(rows, map[]), StaleSteps(c, n))
            == Table(CreatedAndPublished(rows, c), map[0 := Pending(c.action, c.code, n)])
  {
    var n := NextVersion(rows, c.action, true);
    var p := Pending(c.action, c.code, n);
    hide NextVersion, Upsert, TrimSpace, Fits;
    var t1 := Step(Table(rows, map[]), SettleNumber(0, c));
    assert t1 == Table(rows, map[0 := p]);
    var t2 := Step(t1, SettleNumber(1, c));
    var t3 := Step(t2, InsertDraft(1, true));
    CreateIsItsSteps(t1, 1, c);
    assert t3 == Table(Apply(rows, c), map[0 := p]);
    var t4 := Step(t3, PublishVersion(c.action, n));
    hide Step, Apply;
    var es := StaleSteps(c, n);
    assert es[1..][0] == SettleNumber(1, c) && es[1..][1..][0] == InsertDraft(1, true);
    assert es[1..][1..][1..] == [PublishVersion(c.action, n)] && es[1..][1..][1..][1..] == [];
    assert Run(t4, []) == t4;
    assert Run(t3, es[1..][1..][1..]) == t4;
    assert Run(t2, es[1..][1..]) == t4;
    assert Run(t1, es[1..]) == t4;
  }

  // ---------------------------------------------------------------- one handler at a time

  datatype Reply = BadRequest | DbError | NotFound | Done(version: int)

  class VersionTable {
    var rows: seq<Row>
    ghost var pending: map<nat, Pending>

    ghost function State(): Table
      reads this
    {
      Table(rows, pending)
    }

    constructor ()
      ensures State() == EMPTY
    {
      rows, pending := [], map[];
    }

    /** The handler is its two steps in sequence. */
    method CreatePolicyVersion(ghost req: nat, action: string, version: Option<int>, code: string, compiles: bool,
                               readable: bool)
      returns (r: Reply)
      requires req !in pending
      modifies this
      ensures var call := Create(action, version, code, compiles, readable);
              State() == Step(Step(old(State()), SettleNumber(req, call)), InsertDraft(req, true))
      ensures r.Done? ==> Has(rows, action, r.version) && (version.Some? ==> r.version == version.value)
      ensures !r.Done? ==> rows == old(rows)
      ensures var n := if version.Some? then version.value else NextVersion(old(rows), action, readable);
              r == if TrimSpace(code) == "" || TrimSpace(action) == "" || !compiles then BadRequest
                   else if -0x8000_0000 <= n <= 0x7FFF_FFFF then Done(n) else DbError
    {
      CreateIsItsSteps(State(), req, Create(action, version, code, compiles, readable));
      hide TrimSpace, Fits, MaxVersion, Upsert, Has, Step;
      if TrimSpace(code) == "" || TrimSpace(action) == "" || !compiles {
        return BadRequest;
      }
      var ver := 0;
      if version.Some? {
        ver := version.value;
      } else {
        var max := MaxVersion(rows, action);
        if readable && !(max.Some? && max.value == INT4_MAX) {
          ver := if max.None? then 1 else max.value + 1;
        }
        if ver == 0 {
          ver := 1;
        }
      }
      if !Fits(ver) {
        return DbError;
      }
      UpsertHas(rows, Row(action, ver, code, Draft));
      rows := Upsert(rows, Row(action, ver, code, Draft));
      return Done(ver);
    }

    method PublishPolicyVersion(action: string, version: int) returns (r: Reply)
      modifies this
      ensures State() == Step(old(State()), PublishVersion(action, version))
      ensures !r.Done? ==> rows == old(rows)
      ensures r.Done? <==>
              TrimSpace(action) != "" && Fits(version) && MaxVersion(old(rows), TrimSpace(action)).Some?
      ensures r.DbError? <==> TrimSpace(action) != "" && !Fits(version)
    {
      hide TrimSpace, Fits;
      var actionKey := TrimSpace(action);
      if actionKey == "" {
        return BadRequest;
      }
      if !Fits(version) {
        return DbError;
      }
      var affected := MaxVersion(rows, actionKey).Some?;
      rows := PublishRows(rows, actionKey, version);
      if !affected {
        NoRowsNoChange(old(rows), actionKey, version);
        return NotFound;
      }
      return Done(version);
    }
  }
}
