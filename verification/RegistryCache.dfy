/** `Registry.LoadOperations` (pkg/connectors/registry.go) with any number of concurrent loaders.
    The lock is released between the check and the store, so loaders of one tenant overlap and a
    slow one can overwrite a newer entry.  Times are in nanoseconds. */
module RegistryCache {
  import opened Text
  import opened Clock

  const TTL := 30 * SECOND

  datatype Operation = Operation(verb: string, path: string, kind: Option<string>)

  datatype Entry = Entry(loadedAt: int, operations: seq<Operation>)

  /** A loader that missed the cache, and one that has its rows but has not stored them */
  datatype Loader = Missed(tenant: string) | Loaded(tenant: string, operations: seq<Operation>, readAt: int)

  datatype State = State(db: map<string, seq<Operation>>, byTenant: map<string, Entry>,
                         clock: int, loaders: map<nat, Loader>)

  datatype Event =
    | Tick(to: int)
    | Write(tenant: string, operations: seq<Operation>)
    | CheckCache(l: nat, tenant: string)
    | Query(l: nat)
    | QueryFails(l: nat)
    | Store(l: nat)

  /** What the database holds for a tenant */
  function Held(s: State, t: string): seq<Operation> { if t in s.db then s.db[t] else [] }

  predicate Hit(s: State, t: string) { t in s.byTenant && s.clock - s.byTenant[t].loadedAt < TTL }

  predicate Enabled(s: State, e: Event) {
    match e
    case Tick(to) => to >= s.clock
    case Write(_, _) => true
    case CheckCache(l, _) => l !in s.loaders
    case Query(l) => l in s.loaders && s.loaders[l].Missed?
    case QueryFails(l) => l in s.loaders && s.loaders[l].Missed?
    case Store(l) => l in s.loaders && s.loaders[l].Loaded?
  }

  function Step(s: State, e: Event): State
    requires Enabled(s, e)
  {
    match e
    case Tick(to) => s.(clock := to)
    case Write(t, ops) => s.(db := s.db[t := ops])
    case CheckCache(l, t) => if Hit(s, t) then s else s.(loaders := s.loaders[l := Missed(t)])
    case Query(l) =>
      var t := s.loaders[l].tenant;
      s.(loaders := s.loaders[l := Loaded(t, Held(s, t), s.clock)])
    case QueryFails(l) => s.(loaders := s.loaders - {l})
    case Store(l) =>
      var p := s.loaders[l];
      s.(loaders := s.loaders - {l}, byTenant := s.byTenant[p.tenant := Entry(s.clock, p.operations)])
  }

  /** What a step returns to its caller: the tenant asked for and the list */
  function Returned(s: State, e: Event): Option<(string, seq<Operation>)>
    requires Enabled(s, e)
  {
    match e
    case CheckCache(_, t) => if Hit(s, t) then Some((t, s.byTenant[t].operations)) else None
    case Store(l) => Some((s.loaders[l].tenant, s.loaders[l].operations))
    case _ => None
  }

  predicate Initial(s: State) { s.byTenant == map[] && s.loaders == map[] }

  ghost predicate IsRun(es: seq<Event>, ss: seq<State>) {
    && |ss| == |es| + 1 && Initial(ss[0])
    && (forall i :: 0 <= i < |es| ==> Enabled(ss[i], es[i]))
    && (forall i :: 0 <= i < |es| ==> ss[i + 1] == Step(ss[i], es[i]))
  }

  /** No loader takes longer than `d` from its read to its store. */
  ghost predicate Prompt(es: seq<Event>, ss: seq<State>, d: nat) {
    && |ss| == |es| + 1
    && forall i :: 0 <= i < |es| && es[i].Store? && es[i].l in ss[i].loaders && ss[i].loaders[es[i].l].Loaded? ==>
         ss[i].clock - ss[i].loaders[es[i].l].readAt <= d
  }

  /** At some instant from `from` on, before step `n`, the database held this list. */
  ghost predicate HeldSince(ss: seq<State>, n: nat, t: string, ops: seq<Operation>, from: int) {
    exists j :: 0 <= j <= n && HeldAt(ss, j, t, ops, from)
  }

  predicate HeldAt(ss: seq<State>, j: nat, t: string, ops: seq<Operation>, from: int) {
    j < |ss| && Held(ss[j], t) == ops && ss[j].clock >= from
  }

  /** The rows of a loader were the table's when it read them. */
  ghost predicate LoadersOk(ss: seq<State>, n: nat)
    requires n < |ss|
  {
    forall l :: l in ss[n].loaders && ss[n].loaders[l].Loaded? ==>
      var p := ss[n].loaders[l]; HeldSince(ss, n, p.tenant, p.operations, p.readAt)
  }

  /** An entry was the table's at most `d` before it was stored. */
  ghost predicate EntriesOk(ss: seq<State>, n: nat, d: nat)
    requires n < |ss|
  {
    forall t :: t in ss[n].byTenant ==>
      HeldSince(ss, n, t, ss[n].byTenant[t].operations, ss[n].byTenant[t].loadedAt - d)
  }

  lemma HeldLonger(ss: seq<State>, n: nat, m: nat, t: string, ops: seq<Operation>, from: int, since: int)
    requires HeldSince(ss, n, t, ops, from) && n <= m && since <= from
    ensures HeldSince(ss, m, t, ops, since)
  {
    var j :| 0 <= j <= n && HeldAt(ss, j, t, ops, from);
    assert HeldAt(ss, j, t, ops, since);
  }

  /** What a step does to loaders with rows and to entries */
  lemma StepEffect(s: State, e: Event)
    requires Enabled(s, e)
    ensures var s' := Step(s, e);
            && (forall l :: l in s'.loaders && s'.loaders[l].Loaded? ==>
                  || (l in s.loaders && s.loaders[l] == s'.loaders[l])
                  || (s'.loaders[l] == Loaded(s'.loaders[l].tenant, Held(s, s'.loaders[l].tenant), s.clock)))
            && (forall t :: t in s'.byTenant ==>
                  || (t in s.byTenant && s.byTenant[t] == s'.byTenant[t])
                  || (e.Store? && e.l in s.loaders && s.loaders[e.l].Loaded? && s.loaders[e.l].tenant == t
                      && s'.byTenant[t] == Entry(s.clock, s.loaders[e.l].operations)))
  {
  }

  lemma StepKeepsLoaders(ss: seq<State>, n: nat, e: Event)
    requires n + 1 < |ss| && Enabled(ss[n], e) && ss[n + 1] == Step(ss[n], e) && LoadersOk(ss, n)
    ensures LoadersOk(ss, n + 1)
  {
    var s, s' := ss[n], ss[n + 1];
    StepEffect(s, e);
    hide Step, Enabled, HeldSince, Held;
    forall l | l in s'.loaders && s'.loaders[l].Loaded?
      ensures var p := s'.loaders[l]; HeldSince(ss, n + 1, p.tenant, p.operations, p.readAt)
    {
      var p := s'.loaders[l];
      if !(l in s.loaders && s.loaders[l] == p) {
        HeldNow(ss, n, p.tenant);
      }
      HeldLonger(ss, n, n + 1, p.tenant, p.operations, p.readAt, p.readAt);
    }
  }

  lemma StepKeepsEntries(ss: seq<State>, n: nat, e: Event, d: nat)
    requires n + 1 < |ss| && Enabled(ss[n], e) && ss[n + 1] == Step(ss[n], e) && LoadersOk(ss, n) && EntriesOk(ss, n, d)
    requires e.Store? ==> ss[n].clock - ss[n].loaders[e.l].readAt <= d
    ensures EntriesOk(ss, n + 1, d)
  {
    var s, s' := ss[n], ss[n + 1];
    StepEffect(s, e);
    hide Step, Enabled, HeldSince, Held;
    forall t | t in s'.byTenant
      ensures HeldSince(ss, n + 1, t, s'.byTenant[t].operations, s'.byTenant[t].loadedAt - d)
    {
      var x := s'.byTenant[t];
      if t in s.byTenant && s.byTenant[t] == x {
        HeldLonger(ss, n, n + 1, t, x.operations, x.loadedAt - d, x.loadedAt - d);
      } else {
        HeldLonger(ss, n, n + 1, t, x.operations, s.loaders[e.l].readAt, x.loadedAt - d);
      }
    }
  }

  lemma HeldNow(ss: seq<State>, n: nat, t: string)
    requires n < |ss|
    ensures HeldSince(ss, n, t, Held(ss[n], t), ss[n].clock)
  {
    assert HeldAt(ss, n, t, Held(ss[n], t), ss[n].clock);
  }

  lemma {:induction false} InvAlways(es: seq<Event>, ss: seq<State>, n: nat, d: nat)
    requires IsRun(es, ss) && Prompt(es, ss, d) && n < |ss|
    ensures LoadersOk(ss, n) && EntriesOk(ss, n, d)
  {
    if n > 0 {
      InvAlways(es, ss, n - 1, d);
      assert Enabled(ss[n - 1], es[n - 1]) && ss[n - 1 + 1] == Step(ss[n - 1], es[n - 1]);
      hide LoadersOk, EntriesOk, Step;
      StepKeepsLoaders(ss, n - 1, es[n - 1]);
      StepKeepsEntries(ss, n - 1, es[n - 1], d);
    }
  }

  /** Every list returned for a tenant is one the database held for that same tenant at some
      instant later than now minus 30 seconds and the longest read-to-store delay. */
  lemma ReturnedIsRecent(es: seq<Event>, ss: seq<State>, n: nat, d: nat)
    requires IsRun(es, ss) && Prompt(es, ss, d) && n < |es| && Returned(ss[n], es[n]).Some?
    ensures var (t, ops) := Returned(ss[n], es[n]).value;
            exists j :: 0 <= j <= n && Held(ss[j], t) == ops && ss[n].clock - ss[j].clock < 30_000_000_000 + d
  {
    InvAlways(es, ss, n, d);
    assert Enabled(ss[n], es[n]);
    var s, e := ss[n], es[n];
    var (t, ops) := Returned(s, e).value;
    hide IsRun, Step, HeldSince;
    match e {
      case CheckCache(_, _) => HeldLonger(ss, n, n, t, ops, s.byTenant[t].loadedAt - d, s.clock - (TTL + d) + 1);
      case Store(l) => HeldLonger(ss, n, n, t, ops, s.loaders[l].readAt, s.clock - (TTL + d) + 1);
      case _ =>
    }
  }

  /** Only a store changes the cache, and only the entry of the tenant its loader read: a failed
      query changes nothing. */
  lemma OnlyStoreChangesCache(s: State, e: Event, t: string)
    requires Enabled(s, e) && !(e.Store? && s.loaders[e.l].tenant == t)
    ensures t in Step(s, e).byTenant <==> t in s.byTenant
    ensures t in s.byTenant ==> Step(s, e).byTenant[t] == s.byTenant[t]
  {
  }

  // ---------------------------------------------------------------- the bound is sharp

  /** A loader reads, the table changes, and the loader stores as late as the delay permits; a
      caller at the last instant of the entry's life still gets the old list. */
  function SlowLoader(d: nat, ops: seq<Operation>): seq<Event> {
    [CheckCache(0, "t"), Query(0), Write("t", ops), Tick(d), Store(0), Tick(d + TTL - 1), CheckCache(1, "t")]
  }

  function SlowStates(d: nat, ops: seq<Operation>): seq<State> {
    var s0 := State(map[], map[], 0, map[]);
    var s1 := s0.(loaders := map[0 := Missed("t")]);
    var s2 := s1.(loaders := map[0 := Loaded("t", [], 0)]);
    var s3 := s2.(db := map["t" := ops]);
    var s4 := s3.(clock := d);
    var s5 := s4.(loaders := map[], byTenant := map["t" := Entry(d, [])]);
    var s6 := s5.(clock := d + TTL - 1);
    [s0, s1, s2, s3, s4, s5, s6, s6]
  }

  /** For every delay the bound is reached: there is a run in which a caller gets a list that the
      database held at no later instant than the bound allows. */
  lemma BoundIsReached(d: nat, ops: seq<Operation>)
    requires ops != []
    ensures var es, ss := SlowLoader(d, ops), SlowStates(d, ops);
            && IsRun(es, ss) && Prompt(es, ss, d)
            && Returned(ss[6], es[6]) == Some(("t", []))
            && (forall j :: 0 <= j <= 6 && Held(ss[j], "t") == [] ==>
                  ss[6].clock - ss[j].clock >= 30_000_000_000 + d - 1)
  {
    var es, ss := SlowLoader(d, ops), SlowStates(d, ops);
    assert ss[2].loaders - {0} == map[];
    forall i | 0 <= i < |es| ensures Enabled(ss[i], es[i]) && ss[i + 1] == Step(ss[i], es[i]) {
      assert i == 0 || i == 1 || i == 2 || i == 3 || i == 4 || i == 5 || i == 6;
    }
    forall j | 0 <= j <= 6 ensures !HeldAt(ss, j, "t", [], 1) {
      assert j == 0 || j == 1 || j == 2 || j == 3 || j == 4 || j == 5 || j == 6;
    }
  }

  // ---------------------------------------------------------------- one loader alone

  /** The event if it can happen, nothing otherwise */
  function Then(s: State, e: Event): State { if Enabled(s, e) then Step(s, e) else s }

  /** The steps of one loader, which looks at the cache and reads at `now` and stores at `later`; steps
      that it does not come to cannot happen. */
  function LoadSteps(s: State, l: nat, t: string, now: int, readable: bool, later: int): State {
    var s := Then(Then(s, Tick(now)), CheckCache(l, t));
    var s := Then(s, if readable then Query(l) else QueryFails(l));
    Then(Then(s, Tick(later)), Store(l))
  }

  predicate HitAt(s: State, t: string, now: int) { t in s.byTenant && now - s.byTenant[t].loadedAt < TTL }

  lemma SoloLoad(s: State, l: nat, t: string, now: int, readable: bool, later: int)
    requires s.loaders == map[] && s.clock <= now <= later
    ensures LoadSteps(s, l, t, now, readable, later)
         == if !HitAt(s, t, now) && readable
            then s.(clock := later, byTenant := s.byTenant[t := Entry(later, Held(s, t))])
            else s.(clock := later)
  {
    var s1 := Then(Then(s, Tick(now)), CheckCache(l, t));
    if HitAt(s, t, now) {
      assert s1 == s.(clock := now);
    } else {
      assert s1 == s.(clock := now, loaders := map[l := Missed(t)]);
      assert s1.loaders - {l} == map[];
      if readable {
        var s2 := Then(Then(s1, Query(l)), Tick(later));
        assert s2 == s.(clock := later, loaders := map[l := Loaded(t, Held(s, t), now)]);
        assert s2.loaders - {l} == map[];
      }
    }
  }

  class Registry {
    const db: map<string, seq<Operation>>
    var byTenant: map<string, Entry>
    ghost var clock: int

    /** The registry between two calls */
    ghost function Alone(): State
      reads this
    {
      State(db, byTenant, clock, map[])
    }

    constructor (db: map<string, seq<Operation>>, ghost now: int)
      ensures Initial(Alone()) && this.db == db
    {
      this.db := db;
      byTenant := map[];
      clock := now;
    }

    /** `LoadOperations` by a single loader is the sequence of its steps.  As long as every entry is
        what the database holds, so is every list returned, and a call keeps it so. */
    method LoadOperations(ghost l: nat, tenant: string, now: int, readable: bool, later: int)
      returns (r: Option<seq<Operation>>)
      requires clock <= now <= later
      modifies this
      ensures Alone() == LoadSteps(old(Alone()), l, tenant, now, readable, later)
      ensures r.None? ==> !readable && byTenant == old(byTenant)
      ensures old(Current(Alone())) ==> Current(Alone()) && (r.Some? ==> r.value == Held(Alone(), tenant))
    {
      SoloLoad(Alone(), l, tenant, now, readable, later);
      hide LoadSteps, Then, Step, Enabled;
      clock := later;
      if tenant in byTenant && now - byTenant[tenant].loadedAt < TTL {
        return Some(byTenant[tenant].operations);
      }
      if !readable {
        return None;
      }
      var rows := if tenant in db then db[tenant] else [];
      var ops: seq<Operation> := [];
      for i := 0 to |rows|
        invariant ops == rows[..i] && byTenant == old(byTenant) && clock == later
      {
        ops := ops + [rows[i]];
      }
      assert ops == rows == Held(Alone(), tenant);
      byTenant := byTenant[tenant := Entry(later, ops)];
      return Some(ops);
    }
  }

  /** Every entry is what the database holds. */
  ghost predicate Current(s: State) {
    forall t :: t in s.byTenant ==> s.byTenant[t].operations == Held(s, t)
  }
}
