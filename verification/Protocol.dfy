/** The two-phase decision protocol (internal/policy/http.go) as a state machine over the tables
    of one tenant and a clock.  The handlers are not atomic: their steps interleave with those
    of other requests, with policy drafts and publishes, with edits of resolvers and mappings,
    and with the passing of time. */
module Protocol {
  import opened Text
  import opened Json
  import opened Binding
  import opened Decisions
  import F = Facts
  import P = PolicyVersions
  import T = PolicySteps

  // ---------------------------------------------------------------- state

  /** The admin console's test route stores decisions too. */
  datatype Route = PreflightRoute | TestRoute

  /** How far a request has come.  A fact resolution loads the resolvers and the mappings of the
      action by two statements; `rs` is what the first one gave, none when it failed. */
  datatype Phase =
    | Loading(route: Route, action: string, inputs: Json, rs: Option<seq<F.Resolver>>)
    | Resolved(route: Route, action: string, inputs: Json, facts: Json)
    | Evaluated(route: Route, decision: Decision)
    | Checked(id: string, action: string, inputs: Json, row: Row, at: int)
    | Reloading(id: string, action: string, inputs: Json, row: Row, at: int, rs: Option<seq<F.Resolver>>)
    | Bound(id: string, action: string, inputs: Json, row: Row, at: int, facts: Json)

  /** A call of the orchestrator by the `/execute` route: `at` is when expiry was checked. */
  datatype Execution = Execution(req: nat, id: string, action: string, inputs: Json, facts: Json, at: int)

  datatype State = State(
    policies: T.Table,
    resolvers: set<(string, F.Resolver)>,
    mappings: set<(string, F.Mapping)>,
    decisions: map<string, Row>,
    clock: int,
    requests: map<nat, Phase>,
    ran: seq<Execution>)

  function ResolversOf(s: State, a: string): set<F.Resolver> { set p | p in s.resolvers && p.0 == a :: p.1 }

  function MappingsOf(s: State, a: string): set<F.Mapping> { set p | p in s.mappings && p.0 == a :: p.1 }

  // ---------------------------------------------------------------- steps

  /** The action's resolver rows in some order, unless the statement failed */
  predicate ReadsResolvers(s: State, a: string, rs: Option<seq<F.Resolver>>) {
    rs.Some? ==> F.Elements(rs.value) == ResolversOf(s, a)
  }

  predicate ReadsMappings(s: State, a: string, ms: Option<seq<F.Mapping>>) {
    ms.Some? ==> F.Elements(ms.value) == MappingsOf(s, a)
  }

  /** The facts from what the two statements gave; null when one of them failed */
  function FactsFrom(lib: Lib, now: int, inputs: Json, rs: Option<seq<F.Resolver>>, ms: Option<seq<F.Mapping>>): Json {
    if rs.Some? && ms.Some? then F.Resolved(lib.facts, rs.value, ms.value, inputs, now) else JNull
  }

  datatype Event =
    | Tick(to: int)
    | EditFacts(resolvers: set<(string, F.Resolver)>, mappings: set<(string, F.Mapping)>)
    | Admin(event: T.Event)
    | PreflightLoad(req: nat, route: Route, action: string, inputs: Json, rs: Option<seq<F.Resolver>>)
    | PreflightResolve(req: nat, ms: Option<seq<F.Mapping>>)
    | PreflightEvaluate(req: nat, readable: bool)
    | PreflightPersist(req: nat, id: string, stored: bool)
    | ExecuteCheck(req: nat, id: string, action: string, inputs: Json, readable: bool)
    | ExecuteLoad(req: nat, rs: Option<seq<F.Resolver>>)
    | ExecuteBind(req: nat, ms: Option<seq<F.Mapping>>)
    | ExecuteRun(req: nat)

  predicate Enabled(s: State, e: Event) {
    match e
    case Tick(to) => to >= s.clock
    case EditFacts(_, _) => true
    case Admin(_) => true
    case PreflightLoad(req, _, a, _, rs) => req !in s.requests && ReadsResolvers(s, a, rs)
    case PreflightResolve(req, ms) =>
      req in s.requests && s.requests[req].Loading? && ReadsMappings(s, s.requests[req].action, ms)
    case PreflightEvaluate(req, _) => req in s.requests && s.requests[req].Resolved?
    case PreflightPersist(req, id, _) => req in s.requests && s.requests[req].Evaluated? && id !in s.decisions
    case ExecuteCheck(req, _, _, _, _) => req !in s.requests
    case ExecuteLoad(req, rs) =>
      req in s.requests && s.requests[req].Checked? && ReadsResolvers(s, s.requests[req].action, rs)
    case ExecuteBind(req, ms) =>
      req in s.requests && s.requests[req].Reloading? && ReadsMappings(s, s.requests[req].action, ms)
    case ExecuteRun(req) => req in s.requests && s.requests[req].Bound?
  }

  /** The test route goes on with no facts when they cannot be resolved, or its key is blank. */
  function FactsOrEmpty(route: Route, a: string, facts: Json): Json {
    if route == TestRoute && (facts == JNull || TrimSpace(a) == "") then JObj(map[]) else facts
  }

  function Finish(s: State, req: nat): State { s.(requests := s.requests - {req}) }

  /** The row that the query for a decision gives; a query that fails is an unknown decision. */
  function StoredRow(s: State, id: string, readable: bool): Option<Row> {
    if readable && TrimSpace(id) != "" && id in s.decisions then Some(s.decisions[id]) else None
  }

  /** A decision is stored unless the insert fails or a preflight asks for more input. */
  predicate Stores(p: Phase, stored: bool)
    requires p.Evaluated?
  {
    stored && (p.route == TestRoute || p.decision.status != NeedsInput)
  }

  function Step(lib: Lib, s: State, e: Event): State
    requires Enabled(s, e)
  {
    match e
    case Tick(to) => s.(clock := to)
    case EditFacts(rs, ms) => s.(resolvers := rs, mappings := ms)
    case Admin(event) => s.(policies := T.Step(s.policies, event))
    case PreflightLoad(req, route, a, inputs, rs) =>
      s.(requests := s.requests[req := Loading(route, a, inputs, rs)])
    case PreflightResolve(req, ms) =>
      var p := s.requests[req];
      var facts := FactsFrom(lib, s.clock, p.inputs, p.rs, ms);
      s.(requests := s.requests[req := Resolved(p.route, p.action, p.inputs, FactsOrEmpty(p.route, p.action, facts))])
    case PreflightEvaluate(req, readable) =>
      var p := s.requests[req];
      var active := if readable then P.Active(s.policies.rows, p.action) else None;
      s.(requests := s.requests[req := Evaluated(p.route, Evaluate(lib, active, p.action, p.inputs, p.facts, s.clock))])
    case PreflightPersist(req, id, stored) =>
      var p := s.requests[req];
      var s' := Finish(s, req);
      if Stores(p, stored) then s'.(decisions := s.decisions[id := RowOf(lib, p.decision)]) else s'
    case ExecuteCheck(req, id, a, inputs, readable) =>
      var row := StoredRow(s, id, readable);
      if Check(row, a, s.clock) == Accepted
      then s.(requests := s.requests[req := Checked(id, a, inputs, row.value, s.clock)]) else s
    case ExecuteLoad(req, rs) =>
      var p := s.requests[req];
      s.(requests := s.requests[req := Reloading(p.id, p.action, p.inputs, p.row, p.at, rs)])
    case ExecuteBind(req, ms) =>
      var p := s.requests[req];
      var facts := FactsFrom(lib, s.clock, p.inputs, p.rs, ms);
      if Bind(lib, p.row, p.inputs, facts) == Accepted
      then s.(requests := s.requests[req := Bound(p.id, p.action, p.inputs, p.row, p.at, facts)]) else Finish(s, req)
    case ExecuteRun(req) =>
      var p := s.requests[req];
      Finish(s, req).(ran := s.ran + [Execution(req, p.id, p.action, p.inputs, p.facts, p.at)])
  }

  predicate Initial(s: State) {
    s.policies == T.EMPTY && s.decisions == map[] && s.requests == map[] && s.ran == []
  }

  ghost predicate IsRun(lib: Lib, es: seq<Event>, ss: seq<State>) {
    && |ss| == |es| + 1 && Initial(ss[0])
    && (forall i :: 0 <= i < |es| ==> Enabled(ss[i], es[i]))
    && (forall i :: 0 <= i < |es| ==> ss[i + 1] == Step(lib, ss[i], es[i]))
  }

  // ---------------------------------------------------------------- what every step keeps

  /** The decision behind a request that passed its checks at time `at` */
  predicate Standing(s: State, id: string, action: string, row: Row, at: int) {
    && id in s.decisions && s.decisions[id] == row
    && row.action == action && Allowed(row.status) && row.expires.Some? && at <= row.expires.value
    && at <= s.clock
  }

  predicate SameBytes(lib: Lib, row: Row, inputs: Json, facts: Json) {
    lib.marshal(inputs) == row.inputs && lib.marshal(facts) == row.facts
  }

  predicate PhaseOk(lib: Lib, s: State, p: Phase) {
    match p
    case Loading(_, _, _, _) => true
    case Resolved(_, _, _, _) => true
    case Evaluated(_, d) => d.expires.Some?
    case Checked(id, a, _, row, at) => Standing(s, id, a, row, at)
    case Reloading(id, a, _, row, at, _) => Standing(s, id, a, row, at)
    case Bound(id, a, inputs, row, at, facts) => Standing(s, id, a, row, at) && SameBytes(lib, row, inputs, facts)
  }

  /** The decision that an execution rests on */
  predicate Justified(lib: Lib, s: State, x: Execution) {
    x.id in s.decisions && Standing(s, x.id, x.action, s.decisions[x.id], x.at)
    && SameBytes(lib, s.decisions[x.id], x.inputs, x.facts)
  }

  ghost predicate Inv(lib: Lib, s: State) {
    && T.TableInv(s.policies)
    && (forall id :: id in s.decisions ==> WellFormed(lib, s.decisions[id]))
    && (forall req :: req in s.requests ==> PhaseOk(lib, s, s.requests[req]))
    && (forall i :: 0 <= i < |s.ran| ==> Justified(lib, s, s.ran[i]))
  }

  /** Stored decisions are never rewritten and time does not run backwards. */
  predicate Grows(s: State, s': State) {
    && s.clock <= s'.clock
    && (forall id :: id in s.decisions ==> id in s'.decisions && s'.decisions[id] == s.decisions[id])
  }

  lemma StepGrows(lib: Lib, s: State, e: Event)
    requires Enabled(s, e)
    ensures Grows(s, Step(lib, s, e))
  {
  }

  lemma GrowthKeeps(lib: Lib, s: State, s': State, p: Phase)
    requires Grows(s, s') && PhaseOk(lib, s, p)
    ensures PhaseOk(lib, s', p)
  {
  }

  lemma GrowthKeepsExecution(lib: Lib, s: State, s': State, x: Execution)
    requires Grows(s, s') && Justified(lib, s, x)
    ensures Justified(lib, s', x)
  {
  }

  lemma StepKeepsRows(lib: Lib, s: State, e: Event)
    requires Inv(lib, s) && Enabled(s, e)
    ensures forall id :: id in Step(lib, s, e).decisions ==> WellFormed(lib, Step(lib, s, e).decisions[id])
  {
    hide WellFormed, RowOf, T.TableInv, Justified;
    if e.PreflightPersist? {
      RowWellFormed(lib, s.requests[e.req].decision);
    }
  }

  lemma {:induction false} StepKeepsPhases(lib: Lib, s: State, e: Event)
    requires IdealHash(lib.sha) && Inv(lib, s) && Enabled(s, e)
    ensures var s' := Step(lib, s, e);
            forall req :: req in s'.requests ==> PhaseOk(lib, s', s'.requests[req])
  {
    hide T.TableInv, Justified, RowOf, IdealHash, FactsFrom, Bind, Evaluate, T.Step, P.Active;
    var s' := Step(lib, s, e);
    StepGrows(lib, s, e);
    forall req | req in s'.requests ensures PhaseOk(lib, s', s'.requests[req]) {
      if req in s.requests && s'.requests[req] == s.requests[req] {
        GrowthKeeps(lib, s, s', s.requests[req]);
      } else {
        NewPhaseOk(lib, s, e, req);
      }
    }
  }

  lemma EvaluateOk(lib: Lib, s: State, active: Option<P.Row>, p: Phase, s': State)
    requires p.Resolved?
    ensures PhaseOk(lib, s', Evaluated(p.route, Evaluate(lib, active, p.action, p.inputs, p.facts, s.clock)))
  {
    hide Evaluate;
    var _ := EveryDecisionExpires(lib, active, p.action, p.inputs, p.facts, s.clock);
  }

  lemma {:induction false} CheckOk(lib: Lib, s: State, id: string, a: string, inputs: Json, readable: bool, s': State)
    requires (forall i :: i in s.decisions ==> WellFormed(lib, s.decisions[i])) && Grows(s, s')
    requires Check(StoredRow(s, id, readable), a, s.clock) == Accepted
    ensures PhaseOk(lib, s', Checked(id, a, inputs, StoredRow(s, id, readable).value, s.clock))
  {
    hide TrimSpace, BindingHash;
  }

  lemma BindOk(lib: Lib, s: State, p: Phase, facts: Json, s': State)
    requires IdealHash(lib.sha) && p.Reloading? && PhaseOk(lib, s, p) && Grows(s, s')
    requires forall i :: i in s.decisions ==> WellFormed(lib, s.decisions[i])
    requires Bind(lib, p.row, p.inputs, facts) == Accepted
    ensures PhaseOk(lib, s', Bound(p.id, p.action, p.inputs, p.row, p.at, facts))
  {
    hide Bind, IdealHash, WellFormed;
    BindIffSameBytes(lib, p.row, p.inputs, facts);
  }

  /** The steps that take a request no further than its evaluation need nothing of the state. */
  lemma PreflightPhaseOk(lib: Lib, s: State, e: Event, req: nat, s': State)
    requires Enabled(s, e) && !e.ExecuteCheck? && !e.ExecuteLoad? && !e.ExecuteBind?
    requires var r := Step(lib, s, e).requests;
             req in r && !(req in s.requests && r[req] == s.requests[req])
    ensures PhaseOk(lib, s', Step(lib, s, e).requests[req])
  {
    hide RowOf, FactsFrom, T.Step, P.Active, Evaluate, ReadsResolvers, ReadsMappings, TrimSpace;
    if e.PreflightEvaluate? {
      var p := s.requests[req];
      EvaluateOk(lib, s, if e.readable then P.Active(s.policies.rows, p.action) else None, p, s');
    }
  }

  lemma ExecutePhaseOk(lib: Lib, s: State, e: Event, req: nat, s': State)
    requires IdealHash(lib.sha) && Enabled(s, e) && Grows(s, s')
    requires e.ExecuteCheck? || e.ExecuteLoad? || e.ExecuteBind?
    requires forall i :: i in s.decisions ==> WellFormed(lib, s.decisions[i])
    requires req in s.requests ==> PhaseOk(lib, s, s.requests[req])
    requires var r := Step(lib, s, e).requests;
             req in r && !(req in s.requests && r[req] == s.requests[req])
    ensures PhaseOk(lib, s', Step(lib, s, e).requests[req])
  {
    hide IdealHash, FactsFrom, Bind, Check, WellFormed, StoredRow, Grows, ReadsResolvers, ReadsMappings, Standing,
      SameBytes;
    if e.ExecuteCheck? {
      CheckOk(lib, s, e.id, e.action, e.inputs, e.readable, s');
    } else if e.ExecuteLoad? {
      GrowthKeeps(lib, s, s', s.requests[req]);
    } else {
      var p := s.requests[req];
      BindOk(lib, s, p, FactsFrom(lib, s.clock, p.inputs, p.rs, e.ms), s');
    }
  }

  lemma {:induction false} NewPhaseOk(lib: Lib, s: State, e: Event, req: nat)
    requires IdealHash(lib.sha) && Inv(lib, s) && Enabled(s, e)
    requires var s' := Step(lib, s, e);
             req in s'.requests && !(req in s.requests && s'.requests[req] == s.requests[req])
    ensures PhaseOk(lib, Step(lib, s, e), Step(lib, s, e).requests[req])
  {
    hide Step, Enabled, IdealHash, PhaseOk, WellFormed, Justified, Grows;
    StepGrows(lib, s, e);
    if e.ExecuteCheck? || e.ExecuteLoad? || e.ExecuteBind? {
      ExecutePhaseOk(lib, s, e, req, Step(lib, s, e));
    } else {
      PreflightPhaseOk(lib, s, e, req, Step(lib, s, e));
    }
  }

  lemma StepKeepsExecutions(lib: Lib, s: State, e: Event)
    requires Inv(lib, s) && Enabled(s, e)
    ensures var s' := Step(lib, s, e);
            forall i :: 0 <= i < |s'.ran| ==> Justified(lib, s', s'.ran[i])
  {
    hide T.TableInv, RowOf, FactsFrom, T.Step, P.Active, Bind, Evaluate, WellFormed;
    var s' := Step(lib, s, e);
    StepGrows(lib, s, e);
    forall i | 0 <= i < |s'.ran| ensures Justified(lib, s', s'.ran[i]) {
      if i < |s.ran| {
        assert s'.ran[i] == s.ran[i];
        GrowthKeepsExecution(lib, s, s', s.ran[i]);
      } else {
        assert PhaseOk(lib, s, s.requests[e.req]);
      }
    }
  }

  lemma {:induction false} StepKeepsInv(lib: Lib, s: State, e: Event)
    requires IdealHash(lib.sha) && Inv(lib, s) && Enabled(s, e)
    ensures Inv(lib, Step(lib, s, e))
  {
    StepKeepsRows(lib, s, e);
    StepKeepsPhases(lib, s, e);
    StepKeepsExecutions(lib, s, e);
    if e.Admin? {
      T.StepKeepsInv(s.policies, e.event);
    }
    hide T.TableInv, T.Step, WellFormed, PhaseOk, Justified, RowOf, FactsFrom, Bind, Evaluate, P.Active;
  }

  lemma {:induction false} InvAlways(lib: Lib, es: seq<Event>, ss: seq<State>, n: nat)
    requires IdealHash(lib.sha) && IsRun(lib, es, ss) && n < |ss|
    ensures Inv(lib, ss[n])
  {
    hide Step, Enabled, IdealHash;
    if n > 0 {
      InvAlways(lib, es, ss, n - 1);
      StepKeepsInv(lib, ss[n - 1], es[n - 1]);
      assert ss[n - 1 + 1] == Step(lib, ss[n - 1], es[n - 1]);
    }
  }

  lemma {:induction false} GrowsAlways(lib: Lib, es: seq<Event>, ss: seq<State>, i: nat, j: nat)
    requires IsRun(lib, es, ss) && i <= j < |ss|
    ensures Grows(ss[i], ss[j])
    decreases j
  {
    hide Step, Enabled;
    if i < j {
      GrowsAlways(lib, es, ss, i, j - 1);
      StepGrows(lib, ss[j - 1], es[j - 1]);
      assert ss[j - 1 + 1] == Step(lib, ss[j - 1], es[j - 1]);
    }
  }
}
