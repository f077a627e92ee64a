/** What whole runs of the decision protocol guarantee: nothing is executed unbound, an
    undisturbed decision is accepted, and an expired one stays expired. */
module ProtocolRuns {
  import opened Text
  import opened Json
  import opened Binding
  import opened Decisions
  import opened Protocol
  import F = Facts
  import P = PolicyVersions
  import T = PolicySteps
  import M = FactMeanings

  // ---------------------------------------------------------------- safety

  /** An execute request that was checked at time `at` */
  datatype Request = Request(req: nat, id: string, action: string, inputs: Json, at: int)

  /** Step `p` stores the decision. */
  predicate StoredAt(es: seq<Event>, ss: seq<State>, p: nat, id: string) {
    p < |es| && |ss| == |es| + 1 && es[p].PreflightPersist? && es[p].id == id
    && id !in ss[p].decisions && id in ss[p + 1].decisions
  }

  ghost predicate Persisted(es: seq<Event>, ss: seq<State>, n: nat, id: string) {
    exists p :: 0 <= p < n && StoredAt(es, ss, p, id)
  }

  /** Step `c` reads the decision for this request and finds it executable. */
  predicate CheckedAt(es: seq<Event>, ss: seq<State>, c: nat, r: Request) {
    c < |es| && |ss| == |es| + 1 && es[c] == ExecuteCheck(r.req, r.id, r.action, r.inputs, true)
    && ss[c].clock == r.at && r.id in ss[c].decisions
  }

  ghost predicate WasChecked(es: seq<Event>, ss: seq<State>, n: nat, r: Request) {
    exists c :: 0 <= c < n && CheckedAt(es, ss, c, r)
  }

  /** Step `l` loads the resolvers again for this request. */
  predicate ReloadedAt(es: seq<Event>, l: nat, r: Request, rs: Option<seq<F.Resolver>>) {
    l < |es| && es[l] == ExecuteLoad(r.req, rs)
  }

  ghost predicate WasReloaded(es: seq<Event>, ss: seq<State>, n: nat, r: Request, rs: Option<seq<F.Resolver>>) {
    exists l :: 0 <= l < n && ReloadedAt(es, l, r, rs) && WasChecked(es, ss, l, r)
  }

  /** Step `b` loads the mappings again for this request and resolves these facts. */
  predicate BoundAt(lib: Lib, es: seq<Event>, ss: seq<State>, b: nat, r: Request, rs: Option<seq<F.Resolver>>,
                    facts: Json) {
    b < |es| && |ss| == |es| + 1 && es[b].ExecuteBind? && es[b].req == r.req
    && facts == FactsFrom(lib, ss[b].clock, r.inputs, rs, es[b].ms)
  }

  ghost predicate WasBound(lib: Lib, es: seq<Event>, ss: seq<State>, n: nat, r: Request, facts: Json) {
    exists b, rs :: 0 <= b < n && BoundAt(lib, es, ss, b, r, rs, facts) && WasReloaded(es, ss, b, r, rs)
  }

  function RequestOfPhase(req: nat, p: Phase): Request
    requires p.Checked? || p.Reloading? || p.Bound?
  {
    Request(req, p.id, p.action, p.inputs, p.at)
  }

  /** How a request came to its phase */
  ghost predicate Explained(lib: Lib, es: seq<Event>, ss: seq<State>, n: nat, req: nat, p: Phase) {
    && (p.Checked? ==> WasChecked(es, ss, n, RequestOfPhase(req, p)))
    && (p.Reloading? ==> WasReloaded(es, ss, n, RequestOfPhase(req, p), p.rs))
    && (p.Bound? ==> WasBound(lib, es, ss, n, RequestOfPhase(req, p), p.facts))
  }

  lemma ExplainedLater(lib: Lib, es: seq<Event>, ss: seq<State>, n: nat, m: nat, req: nat, p: Phase)
    requires n <= m && Explained(lib, es, ss, n, req, p)
    ensures Explained(lib, es, ss, m, req, p)
  {
    hide CheckedAt, ReloadedAt, BoundAt, WasChecked, RequestOfPhase;
    if p.Checked? {
      CheckedLater(es, ss, n, m, RequestOfPhase(req, p));
    }
  }

  lemma CheckedLater(es: seq<Event>, ss: seq<State>, n: nat, m: nat, r: Request)
    requires n <= m && WasChecked(es, ss, n, r)
    ensures WasChecked(es, ss, m, r)
  {
    hide CheckedAt;
  }

  /** A step gives a new phase only to its own request, and a new one only as these say. */
  lemma NewPhase(lib: Lib, s: State, e: Event, req: nat)
    requires Enabled(s, e)
    requires var s' := Step(lib, s, e);
             req in s'.requests && !(req in s.requests && s'.requests[req] == s.requests[req])
    ensures var p := Step(lib, s, e).requests[req];
            && (p.Checked? ==> e == ExecuteCheck(req, p.id, p.action, p.inputs, true)
                               && s.clock == p.at && p.id in s.decisions)
            && (p.Reloading? ==>
                  && e == ExecuteLoad(req, p.rs) && req in s.requests
                  && s.requests[req] == Checked(p.id, p.action, p.inputs, p.row, p.at))
            && (p.Bound? ==>
                  && e.ExecuteBind? && e.req == req && req in s.requests && s.requests[req].Reloading?
                  && s.requests[req] == Reloading(p.id, p.action, p.inputs, p.row, p.at, s.requests[req].rs)
                  && p.facts == FactsFrom(lib, s.clock, p.inputs, s.requests[req].rs, e.ms))
  {
    hide FactsFrom, Bind, Evaluate, RowOf, T.Step, P.Active, ReadsResolvers, ReadsMappings, TrimSpace, Check;
    CheckNeedsRow();
  }

  lemma CheckNeedsRow()
    ensures forall row: Option<Row>, a: string, now: int :: Check(row, a, now) == Accepted ==> row.Some?
  {
  }

  lemma {:induction false} PhasesExplained(lib: Lib, es: seq<Event>, ss: seq<State>, n: nat, req: nat)
    requires IsRun(lib, es, ss) && n < |ss| && req in ss[n].requests
    ensures Explained(lib, es, ss, n, req, ss[n].requests[req])
  {
    hide Step, Enabled;
    if n > 0 {
      var s, e := ss[n - 1], es[n - 1];
      assert Enabled(s, e) && ss[n - 1 + 1] == Step(lib, s, e);
      var p := ss[n].requests[req];
      if req in s.requests {
        PhasesExplained(lib, es, ss, n - 1, req);
      }
      if req in s.requests && s.requests[req] == p {
        ExplainedLater(lib, es, ss, n - 1, n, req, p);
      } else {
        NewPhase(lib, s, e, req);
        NewPhaseExplained(lib, es, ss, n - 1, req, p);
      }
    }
  }

  lemma NewPhaseExplained(lib: Lib, es: seq<Event>, ss: seq<State>, n: nat, req: nat, p: Phase)
    requires n < |es| && |ss| == |es| + 1
    requires req in ss[n].requests ==> Explained(lib, es, ss, n, req, ss[n].requests[req])
    requires p.Checked? ==> CheckedAt(es, ss, n, RequestOfPhase(req, p))
    requires p.Reloading? ==>
               && es[n] == ExecuteLoad(req, p.rs) && req in ss[n].requests
               && ss[n].requests[req] == Checked(p.id, p.action, p.inputs, p.row, p.at)
    requires p.Bound? ==>
               && es[n].ExecuteBind? && es[n].req == req && req in ss[n].requests
               && ss[n].requests[req].Reloading?
               && ss[n].requests[req] == Reloading(p.id, p.action, p.inputs, p.row, p.at, ss[n].requests[req].rs)
               && p.facts == FactsFrom(lib, ss[n].clock, p.inputs, ss[n].requests[req].rs, es[n].ms)
    ensures Explained(lib, es, ss, n + 1, req, p)
  {
    hide FactsFrom, CheckedAt;
    if p.Reloading? {
      assert ReloadedAt(es, n, RequestOfPhase(req, p), p.rs);
      hide WasChecked;
      assert WasReloaded(es, ss, n + 1, RequestOfPhase(req, p), p.rs);
    } else if p.Bound? {
      var rs := ss[n].requests[req].rs;
      assert BoundAt(lib, es, ss, n, RequestOfPhase(req, p), rs, p.facts);
      hide WasReloaded;
      assert WasBound(lib, es, ss, n + 1, RequestOfPhase(req, p), p.facts);
    }
  }

  lemma NewDecision(lib: Lib, s: State, e: Event, id: string)
    requires Enabled(s, e) && id !in s.decisions && id in Step(lib, s, e).decisions
    ensures e.PreflightPersist? && e.id == id
  {
    hide FactsFrom, Bind, Evaluate, RowOf, T.Step, P.Active, ReadsResolvers, ReadsMappings, TrimSpace, Check;
  }

  lemma {:induction false} DecisionsPersisted(lib: Lib, es: seq<Event>, ss: seq<State>, n: nat, id: string)
    requires IsRun(lib, es, ss) && n < |ss| && id in ss[n].decisions
    ensures Persisted(es, ss, n, id)
  {
    hide Step, Enabled;
    if n > 0 {
      assert Enabled(ss[n - 1], es[n - 1]) && ss[n - 1 + 1] == Step(lib, ss[n - 1], es[n - 1]);
      if id in ss[n - 1].decisions {
        DecisionsPersisted(lib, es, ss, n - 1, id);
      } else {
        NewDecision(lib, ss[n - 1], es[n - 1], id);
        assert StoredAt(es, ss, n - 1, id);
      }
    }
  }

  /** The steps behind an execution */
  datatype Trail = Trail(store: nat, check: nat, reload: nat, bind: nat)

  /** An execution at step `k`: the decision was stored, read and found executable, and bound to facts
      resolved again, in this order and all before. */
  ghost predicate Backed(lib: Lib, es: seq<Event>, ss: seq<State>, t: Trail, k: nat, x: Execution)
    requires |ss| == |es| + 1 && k < |es|
  {
    var r := Request(x.req, x.id, x.action, x.inputs, x.at);
    && t.store < t.check < t.reload < t.bind < k
    && StoredAt(es, ss, t.store, x.id)
    && CheckedAt(es, ss, t.check, r)
    && es[t.reload].ExecuteLoad? && es[t.reload].req == x.req
    && BoundAt(lib, es, ss, t.bind, r, es[t.reload].rs, x.facts)
    && var row := ss[t.store + 1].decisions[x.id];
       && row.action == x.action
       && Allowed(row.status)
       && row.expires.Some? && x.at <= row.expires.value
       && row.inputs == lib.marshal(x.inputs)
       && row.facts == lib.marshal(x.facts)
  }

  function ExecutionOf(req: nat, p: Phase): Execution
    requires p.Bound?
  {
    Execution(req, p.id, p.action, p.inputs, p.facts, p.at)
  }

  lemma RunAppends(lib: Lib, s: State, e: Event)
    requires e.ExecuteRun? && Enabled(s, e)
    ensures e.req in s.requests && s.requests[e.req].Bound?
    ensures Step(lib, s, e).ran == s.ran + [ExecutionOf(e.req, s.requests[e.req])]
  {
  }

  /** The earlier steps behind a request that is bound */
  lemma StepsBehind(lib: Lib, es: seq<Event>, ss: seq<State>, k: nat, req: nat) returns (t: Trail)
    requires IsRun(lib, es, ss) && k < |es|
    requires req in ss[k].requests && ss[k].requests[req].Bound?
    ensures var p := ss[k].requests[req];
            var r := RequestOfPhase(req, p);
            && t.store < t.check < t.reload < t.bind < k
            && StoredAt(es, ss, t.store, p.id)
            && CheckedAt(es, ss, t.check, r)
            && es[t.reload].ExecuteLoad? && es[t.reload].req == req
            && BoundAt(lib, es, ss, t.bind, r, es[t.reload].rs, p.facts)
  {
    var p := ss[k].requests[req];
    var r := RequestOfPhase(req, p);
    hide Step, Enabled, StoredAt, CheckedAt, BoundAt, IsRun, WasChecked;
    PhasesExplained(lib, es, ss, k, req);
    var b, rs :| 0 <= b < k && BoundAt(lib, es, ss, b, r, rs, p.facts) && WasReloaded(es, ss, b, r, rs);
    var l :| 0 <= l < b && ReloadedAt(es, l, r, rs) && WasChecked(es, ss, l, r);
    var c := CheckBehind(es, ss, l, r);
    DecisionsPersisted(lib, es, ss, c, p.id);
    var q :| 0 <= q < c && StoredAt(es, ss, q, p.id);
    t := Trail(q, c, l, b);
  }

  lemma CheckBehind(es: seq<Event>, ss: seq<State>, n: nat, r: Request) returns (c: nat)
    requires WasChecked(es, ss, n, r)
    ensures c < n && CheckedAt(es, ss, c, r) && c < |ss| && r.id in ss[c].decisions
  {
    c :| 0 <= c < n && CheckedAt(es, ss, c, r);
  }

  /** A request that passed validation rests on a stored decision. */
  lemma BoundIsBacked(lib: Lib, es: seq<Event>, ss: seq<State>, k: nat, req: nat) returns (t: Trail)
    requires IdealHash(lib.sha) && IsRun(lib, es, ss) && k < |es|
    requires req in ss[k].requests && ss[k].requests[req].Bound?
    ensures Backed(lib, es, ss, t, k, ExecutionOf(req, ss[k].requests[req]))
  {
    var x := ExecutionOf(req, ss[k].requests[req]);
    hide Step, Enabled, IdealHash, StoredAt, CheckedAt, BoundAt, IsRun, Inv, Explained;
    t := StepsBehind(lib, es, ss, k, req);
    StoredReads(es, ss, t.store, x.id);
    GrowsAlways(lib, es, ss, t.store + 1, k);
    BoundStands(lib, es, ss, k, req);
  }

  lemma BoundStands(lib: Lib, es: seq<Event>, ss: seq<State>, k: nat, req: nat)
    requires IdealHash(lib.sha) && IsRun(lib, es, ss) && k < |es|
    requires req in ss[k].requests && ss[k].requests[req].Bound?
    ensures PhaseOk(lib, ss[k], ss[k].requests[req])
  {
    assert k < |ss|;
    hide IsRun, IdealHash, PhaseOk;
    InvAlways(lib, es, ss, k);
  }

  /** Safety.  In every run, whenever the `/execute` route reaches the orchestrator, an earlier
      step stored a decision with that id, for the same action, with an allowing status, not
      expired when it was checked, and with exactly the inputs and facts that the request now
      encodes to. */
  lemma NothingRunsUnbound(lib: Lib, es: seq<Event>, ss: seq<State>, k: nat) returns (t: Trail)
    requires IdealHash(lib.sha) && IsRun(lib, es, ss) && k < |es| && es[k].ExecuteRun?
    ensures var x := ss[k + 1].ran;
            x != [] && ss[k].ran == x[..|x| - 1] && Backed(lib, es, ss, t, k, x[|x| - 1])
  {
    hide Step, Enabled, IdealHash, Backed;
    assert Enabled(ss[k], es[k]) && ss[k + 1] == Step(lib, ss[k], es[k]);
    RunAppends(lib, ss[k], es[k]);
    t := BoundIsBacked(lib, es, ss, k, es[k].req);
  }

  lemma StoredReads(es: seq<Event>, ss: seq<State>, p: nat, id: string)
    requires StoredAt(es, ss, p, id)
    ensures p + 1 < |ss| && id in ss[p + 1].decisions
  {
  }

  // ---------------------------------------------------------------- expiry

  /** Rows are never rewritten, so a decision that has expired is refused at every later step. */
  lemma ExpiredForever(lib: Lib, es: seq<Event>, ss: seq<State>, i: nat, j: nat, id: string, a: string)
    requires IsRun(lib, es, ss) && i <= j < |ss|
    requires Check(StoredRow(ss[i], id, true), a, ss[i].clock) == Expired
    ensures Check(StoredRow(ss[j], id, true), a, ss[j].clock) == Expired
    ensures Check(StoredRow(ss[j], id, false), a, ss[j].clock) == Unknown
  {
    hide TrimSpace;
    GrowsAlways(lib, es, ss, i, j);
  }

  // ---------------------------------------------------------------- completeness

  function RequestOf(e: Event): Option<nat> {
    match e
    case PreflightLoad(req, _, _, _, _) => Some(req)
    case PreflightResolve(req, _) => Some(req)
    case PreflightEvaluate(req, _) => Some(req)
    case PreflightPersist(req, _, _) => Some(req)
    case ExecuteCheck(req, _, _, _, _) => Some(req)
    case ExecuteLoad(req, _) => Some(req)
    case ExecuteBind(req, _) => Some(req)
    case ExecuteRun(req) => Some(req)
    case _ => None
  }

  predicate Quiet(es: seq<Event>, i: nat, j: nat, req: nat)
    requires j <= |es|
  {
    forall k :: i <= k < j ==> RequestOf(es[k]) != Some(req)
  }

  predicate SamePhase(s: State, s': State, req: nat) {
    (req in s.requests <==> req in s'.requests) && (req in s.requests ==> s'.requests[req] == s.requests[req])
  }

  lemma StepLeavesOthers(lib: Lib, s: State, e: Event, req: nat)
    requires Enabled(s, e) && RequestOf(e) != Some(req)
    ensures SamePhase(s, Step(lib, s, e), req)
  {
    hide FactsFrom, Bind, Evaluate, RowOf, T.Step, P.Active, ReadsResolvers, ReadsMappings, TrimSpace, Check;
  }

  lemma {:induction false} QuietKeepsPhase(lib: Lib, es: seq<Event>, ss: seq<State>, i: nat, j: nat, req: nat)
    requires IsRun(lib, es, ss) && i <= j <= |es| && Quiet(es, i, j, req)
    ensures SamePhase(ss[i], ss[j], req)
    decreases j
  {
    hide Step, Enabled, RequestOf;
    if i < j {
      QuietKeepsPhase(lib, es, ss, i, j - 1, req);
      assert Enabled(ss[j - 1], es[j - 1]) && ss[j - 1 + 1] == Step(lib, ss[j - 1], es[j - 1]);
      StepLeavesOthers(lib, ss[j - 1], es[j - 1], req);
    }
  }

  /** The steps of one preflight, and of one execute up to its binding */
  datatype Ask = Ask(req: nat, load: nat, resolve: nat, evaluate: nat, persist: nat)

  datatype Attempt = Attempt(req: nat, check: nat, reload: nat, bind: nat)

  /** A decision asked for on this route, for this action and these inputs, with anything else in between */
  predicate IsAsk(es: seq<Event>, w: Ask, route: Route, id: string, a: string, inputs: Json) {
    && w.load < w.resolve < w.evaluate < w.persist < |es|
    && es[w.load].PreflightLoad? && es[w.load].req == w.req && es[w.load].route == route
    && es[w.load].action == a && es[w.load].inputs == inputs
    && es[w.resolve].PreflightResolve? && es[w.resolve].req == w.req
    && es[w.evaluate].PreflightEvaluate? && es[w.evaluate].req == w.req
    && es[w.persist] == PreflightPersist(w.req, id, true)
    && Quiet(es, w.load + 1, w.resolve, w.req) && Quiet(es, w.resolve + 1, w.evaluate, w.req)
    && Quiet(es, w.evaluate + 1, w.persist, w.req)
  }

  predicate IsPreflight(es: seq<Event>, w: Ask, id: string, a: string, inputs: Json) {
    IsAsk(es, w, PreflightRoute, id, a, inputs)
  }

  predicate IsAttempt(es: seq<Event>, x: Attempt, id: string, a: string, inputs: Json) {
    && x.check < x.reload < x.bind < |es|
    && es[x.check] == ExecuteCheck(x.req, id, a, inputs, true)
    && es[x.reload].ExecuteLoad? && es[x.reload].req == x.req
    && es[x.bind].ExecuteBind? && es[x.bind].req == x.req
    && Quiet(es, x.check + 1, x.reload, x.req) && Quiet(es, x.reload + 1, x.bind, x.req)
  }

  /** The facts that these steps resolve */
  function AskedFacts(lib: Lib, es: seq<Event>, ss: seq<State>, w: Ask, inputs: Json): Json
    requires w.load < |es| && w.resolve < |es| && w.resolve < |ss|
    requires es[w.load].PreflightLoad? && es[w.resolve].PreflightResolve?
  {
    FactsFrom(lib, ss[w.resolve].clock, inputs, es[w.load].rs, es[w.resolve].ms)
  }

  /** Resolved facts are null exactly when one of the two queries or a required mapping fails; and each
      fact is what its mapping makes of what its path finds among the inputs and the resolvers' samples. */
  lemma FactsFromMean(lib: Lib, now: int, inputs: Json, rs: Option<seq<F.Resolver>>, ms: Option<seq<F.Mapping>>,
                      doc: Json)
    requires rs.Some? ==> M.Composes(doc, rs.value, inputs)
    ensures FactsFrom(lib, now, inputs, rs, ms) == JNull <==>
            || rs.None? || ms.None?
            || exists i :: 0 <= i < |ms.value| && ms.value[i].required && M.Fails(lib.facts, doc, now, ms.value[i])
    ensures rs.Some? && ms.Some? && FactsFrom(lib, now, inputs, rs, ms) != JNull ==>
              forall i :: 0 <= i < |ms.value| && M.Settles(lib.facts, doc, now, ms.value, i) ==>
                M.IsFact(lib.facts, doc, now, ms.value[i], FactsFrom(lib, now, inputs, rs, ms))
  {
    hide M.Composes, M.Fails, M.IsFact, M.Settles, F.Resolved;
    if rs.Some? && ms.Some? {
      M.FactsThere(lib.facts, rs.value, ms.value, inputs, now, doc);
      if FactsFrom(lib, now, inputs, rs, ms) != JNull {
        forall i | 0 <= i < |ms.value| && M.Settles(lib.facts, doc, now, ms.value, i)
          ensures M.IsFact(lib.facts, doc, now, ms.value[i], FactsFrom(lib, now, inputs, rs, ms)) {
          M.FactsMean(lib.facts, rs.value, ms.value, inputs, now, doc, i);
        }
      }
    }
  }

  /** The policy that an evaluation goes by: the active one, or none when the query for it fails */
  function InForce(s: State, a: string, readable: bool): Option<P.Row> {
    if readable then P.Active(s.policies.rows, a) else None
  }

  /** What asking for a decision stores, across any interleaving: nothing when a preflight's policy asks
      for input; otherwise the record of the decision that the policy then in force makes on the facts
      resolved, which expires when it has lasted its time, cut to a microsecond.  The test route takes
      no facts for facts that could not be resolved. */
  lemma AskStores(lib: Lib, es: seq<Event>, ss: seq<State>, w: Ask, route: Route, id: string, a: string, inputs: Json)
    returns (d: Decision, span: int)
    requires IsRun(lib, es, ss) && IsAsk(es, w, route, id, a, inputs)
    ensures var facts := AskedFacts(lib, es, ss, w, inputs);
            var none := route == TestRoute && (facts == JNull || TrimSpace(a) == "");
            d == Evaluate(lib, InForce(ss[w.evaluate], a, es[w.evaluate].readable), a, inputs,
                          if none then JObj(map[]) else facts, ss[w.evaluate].clock)
               && d.action == a && d.inputs == inputs && d.facts == (if none then JObj(map[]) else facts)
               && d.expires == Some(ss[w.evaluate].clock + span)
    ensures id in ss[w.persist + 1].decisions <==> route == TestRoute || d.status != NeedsInput
    ensures id in ss[w.persist + 1].decisions ==>
              var row, now := ss[w.persist + 1].decisions[id], ss[w.evaluate].clock;
              Records(lib, row, d) && row.expires.Some? && now + span - 1000 < row.expires.value <= now + span
    ensures Lasts(lib, InForce(ss[w.evaluate], a, es[w.evaluate].readable), inputs, d.facts, span)
  {
    var facts := FactsOrEmpty(route, a, AskedFacts(lib, es, ss, w, inputs));
    AskEvaluates(lib, es, ss, w, route, id, a, inputs);
    var now, k := ss[w.evaluate].clock, w.persist;
    assert Enabled(ss[k], es[k]) && ss[k + 1] == Step(lib, ss[k], es[k]);
    hide Evaluate, RowOf, FactsFrom, P.Active, IsRun, Quiet, AskedFacts, Records, Lasts, TrimSpace, InForce;
    var active := InForce(ss[w.evaluate], a, es[w.evaluate].readable);
    d := Evaluate(lib, active, a, inputs, facts, now);
    span := EveryDecisionExpires(lib, active, a, inputs, facts, now);
    RowRecords(lib, d);
    RecordExpires(lib, RowOf(lib, d), d);
  }

  lemma AskEvaluates(lib: Lib, es: seq<Event>, ss: seq<State>, w: Ask, route: Route, id: string, a: string, inputs: Json)
    requires IsRun(lib, es, ss) && IsAsk(es, w, route, id, a, inputs)
    ensures w.req in ss[w.persist].requests
    ensures var now := ss[w.evaluate];
            ss[w.persist].requests[w.req]
            == Evaluated(route, Evaluate(lib, InForce(now, a, es[w.evaluate].readable), a, inputs,
                                         FactsOrEmpty(route, a, AskedFacts(lib, es, ss, w, inputs)), now.clock))
  {
    AskResolves(lib, es, ss, w, route, id, a, inputs);
    var j := w.evaluate;
    assert Enabled(ss[j], es[j]) && ss[j + 1] == Step(lib, ss[j], es[j]);
    hide Evaluate, FactsFrom, P.Active, IsRun, Quiet, AskedFacts, TrimSpace, FactsOrEmpty;
    QuietKeepsPhase(lib, es, ss, j + 1, w.persist, w.req);
  }

  lemma RecordExpires(lib: Lib, row: Row, d: Decision)
    requires Records(lib, row, d) && d.expires.Some?
    ensures row.expires.Some? && d.expires.value - 1000 < row.expires.value <= d.expires.value
    ensures WellFormed(lib, row)
  {
    hide Hex, Decimal;
    HashText(lib, row);
  }

  lemma HashText(lib: Lib, row: Row)
    ensures BindingHash(lib.sha, row.inputs, row.facts, row.version)
         == Hex(lib.sha(Hex(row.inputs) + "|" + Hex(row.facts) + "|" + Decimal(row.version)))
  {
    hide Hex, Decimal;
  }

  lemma AskResolves(lib: Lib, es: seq<Event>, ss: seq<State>, w: Ask, route: Route, id: string, a: string, inputs: Json)
    requires IsRun(lib, es, ss) && IsAsk(es, w, route, id, a, inputs)
    ensures w.req in ss[w.evaluate].requests
    ensures ss[w.evaluate].requests[w.req]
         == Resolved(route, a, inputs, FactsOrEmpty(route, a, AskedFacts(lib, es, ss, w, inputs)))
  {
    var h, i := w.load, w.resolve;
    assert Enabled(ss[h], es[h]) && ss[h + 1] == Step(lib, ss[h], es[h]);
    assert Enabled(ss[i], es[i]) && ss[i + 1] == Step(lib, ss[i], es[i]);
    hide FactsFrom, IsRun, Quiet, ReadsResolvers, ReadsMappings, TrimSpace, FactsOrEmpty;
    QuietKeepsPhase(lib, es, ss, h + 1, i, w.req);
    assert ss[i].requests[w.req] == Loading(route, a, inputs, es[h].rs);
    QuietKeepsPhase(lib, es, ss, i + 1, w.evaluate, w.req);
  }

  /** The same rows of the action are there at both reads of the resolvers and at both reads of the
      mappings, no two of one name or one fact key, and none of the mappings uses the clock. */
  ghost predicate Undisturbed(ss: seq<State>, w: Ask, x: Attempt, a: string)
    requires w.load < |ss| && w.resolve < |ss| && x.reload < |ss| && x.bind < |ss|
  {
    && (forall r :: (a, r) in ss[w.load].resolvers <==> (a, r) in ss[x.reload].resolvers)
    && (forall m :: (a, m) in ss[w.resolve].mappings <==> (a, m) in ss[x.bind].mappings)
    && (forall r, r' | (a, r) in ss[w.load].resolvers && (a, r') in ss[w.load].resolvers ::
          r.name == r'.name ==> r == r')
    && (forall m, m' | (a, m) in ss[w.resolve].mappings && (a, m') in ss[w.resolve].mappings ::
          m.factKey == m'.factKey ==> m == m')
    && (forall m :: (a, m) in ss[w.resolve].mappings ==> m.transform != "now" && m.transform != "days_between")
  }

  lemma SameRows(ss: seq<State>, w: Ask, x: Attempt, a: string)
    requires w.load < |ss| && w.resolve < |ss| && x.reload < |ss| && x.bind < |ss| && Undisturbed(ss, w, x, a)
    ensures ResolversOf(ss[w.load], a) == ResolversOf(ss[x.reload], a)
    ensures MappingsOf(ss[w.resolve], a) == MappingsOf(ss[x.bind], a)
    ensures F.DistinctNames(ResolversOf(ss[w.load], a)) && F.DistinctFactKeys(MappingsOf(ss[w.resolve], a))
    ensures forall m :: m in MappingsOf(ss[w.resolve], a) ==> !F.Clocked(m)
  {
    assert forall s: State, r :: r in ResolversOf(s, a) <==> (a, r) in s.resolvers;
    assert forall s: State, m :: m in MappingsOf(s, a) <==> (a, m) in s.mappings;
    hide ResolversOf, MappingsOf;
  }

  /** Two resolutions over the same rows give the same facts, at any time and in any order. */
  lemma SameFacts(lib: Lib, now: int, later: int, inputs: Json, rs: seq<F.Resolver>, rs': seq<F.Resolver>,
                  ms: seq<F.Mapping>, ms': seq<F.Mapping>)
    requires F.Elements(rs) == F.Elements(rs') && F.DistinctNames(F.Elements(rs))
    requires F.Elements(ms) == F.Elements(ms') && F.DistinctFactKeys(F.Elements(ms))
    requires forall m :: m in F.Elements(ms) ==> !F.Clocked(m)
    ensures FactsFrom(lib, now, inputs, Some(rs), Some(ms)) == FactsFrom(lib, later, inputs, Some(rs'), Some(ms'))
  {
    hide F.Clocked, F.DistinctNames, F.DistinctFactKeys, F.Resolved;
    assert forall m :: m in ms <==> m in F.Elements(ms);
    F.ResolvedOrderFree(lib.facts, rs, rs', ms, ms', inputs, now, later);
  }

  /** Completeness.  When the inputs are the same, the action's resolver and mapping rows are the
      same as sets, whatever order each read returns them in, no query fails and the decision has not
      expired at the check, then an allowing decision passes both the check and the binding: no draft,
      publish, other request or other edit in between can make it fail. */
  lemma {:induction false} UndisturbedDecisionIsAccepted(lib: Lib, es: seq<Event>, ss: seq<State>, w: Ask, x: Attempt,
                                                         id: string, a: string, inputs: Json)
    requires IdealHash(lib.sha) && IsRun(lib, es, ss)
    requires IsPreflight(es, w, id, a, inputs) && IsAttempt(es, x, id, a, inputs) && w.persist < x.check
    requires es[w.load].rs.Some? && es[w.resolve].ms.Some? && es[x.reload].rs.Some? && es[x.bind].ms.Some?
    requires TrimSpace(id) != "" && id in ss[w.persist + 1].decisions
    requires ss[w.persist + 1].decisions[id].status in {Allow, AllowWithConditions}
    requires var row := ss[w.persist + 1].decisions[id]; row.expires.Some? ==> ss[x.check].clock <= row.expires.value
    requires Undisturbed(ss, w, x, a)
    ensures x.req in ss[x.check + 1].requests && ss[x.check + 1].requests[x.req].Checked?
    ensures x.req in ss[x.bind + 1].requests && ss[x.bind + 1].requests[x.req].Bound?
    ensures Enabled(ss[x.bind + 1], ExecuteRun(x.req))
  {
    var row := ss[w.persist + 1].decisions[id];
    var d, span := AskStores(lib, es, ss, w, PreflightRoute, id, a, inputs);
    RecordExpires(lib, row, d);
    RecordFields(lib, row, d);
    AttemptReloads(lib, es, ss, w, x, id, a, inputs);
    AttemptFacts(lib, es, ss, w, x, id, a, inputs);
    var n := x.bind;
    var facts := FactsFrom(lib, ss[n].clock, inputs, es[x.reload].rs, es[n].ms);
    assert Enabled(ss[n], es[n]) && ss[n + 1] == Step(lib, ss[n], es[n]);
    hide *;
    BindIffSameBytes(lib, row, inputs, facts);
    BindPasses(lib, ss[n], x.req, es[n].ms);
  }

  lemma RecordFields(lib: Lib, row: Row, d: Decision)
    requires Records(lib, row, d)
    ensures row.action == d.action && row.inputs == lib.marshal(d.inputs) && row.facts == lib.marshal(d.facts)
    ensures row.status == d.status
  {
  }

  /** The check passes, and the request comes to its binding with the row it read. */
  lemma AttemptReloads(lib: Lib, es: seq<Event>, ss: seq<State>, w: Ask, x: Attempt, id: string, a: string,
                       inputs: Json)
    requires IsRun(lib, es, ss)
    requires IsPreflight(es, w, id, a, inputs) && IsAttempt(es, x, id, a, inputs) && w.persist < x.check
    requires TrimSpace(id) != "" && id in ss[w.persist + 1].decisions
    requires var row := ss[w.persist + 1].decisions[id];
             row.action == a && Allowed(row.status) && !ExpiredAt(row, ss[x.check].clock)
    ensures x.req in ss[x.check + 1].requests && ss[x.check + 1].requests[x.req].Checked?
    ensures x.req in ss[x.bind].requests
    ensures ss[x.bind].requests[x.req]
         == Reloading(id, a, inputs, ss[w.persist + 1].decisions[id], ss[x.check].clock, es[x.reload].rs)
  {
    var m, l := x.check, x.reload;
    assert Enabled(ss[m], es[m]) && ss[m + 1] == Step(lib, ss[m], es[m]);
    assert Enabled(ss[l], es[l]) && ss[l + 1] == Step(lib, ss[l], es[l]);
    hide Step, IsPreflight, Quiet, TrimSpace, RequestOf, Enabled, Check, IsRun;
    GrowsAlways(lib, es, ss, w.persist + 1, m);
    CheckPasses(lib, ss[m], x.req, id, a, inputs);
    QuietKeepsPhase(lib, es, ss, m + 1, l, x.req);
    LoadPasses(lib, ss[l], x.req, es[l].rs);
    QuietKeepsPhase(lib, es, ss, l + 1, x.bind, x.req);
  }

  /** The facts at the binding are those of the preflight. */
  lemma AttemptFacts(lib: Lib, es: seq<Event>, ss: seq<State>, w: Ask, x: Attempt, id: string, a: string, inputs: Json)
    requires IsRun(lib, es, ss)
    requires IsPreflight(es, w, id, a, inputs) && IsAttempt(es, x, id, a, inputs)
    requires es[w.load].rs.Some? && es[w.resolve].ms.Some? && es[x.reload].rs.Some? && es[x.bind].ms.Some?
    requires x.req in ss[x.bind].requests && ss[x.bind].requests[x.req].Reloading?
    requires ss[x.bind].requests[x.req].action == a
    requires Undisturbed(ss, w, x, a)
    ensures FactsFrom(lib, ss[x.bind].clock, inputs, es[x.reload].rs, es[x.bind].ms)
         == AskedFacts(lib, es, ss, w, inputs)
  {
    PreflightReads(lib, es, ss, w, id, a, inputs);
    AttemptReads(lib, es, ss, x, id, a, inputs);
    SameRows(ss, w, x, a);
    hide Undisturbed, IsRun, IsPreflight, IsAttempt, ResolversOf, MappingsOf, F.Elements, F.DistinctNames, F.DistinctFactKeys,
      F.Clocked, FactsFrom;
    SameFacts(lib, ss[w.resolve].clock, ss[x.bind].clock, inputs, es[w.load].rs.value, es[x.reload].rs.value,
              es[w.resolve].ms.value, es[x.bind].ms.value);
  }

  lemma PreflightReads(lib: Lib, es: seq<Event>, ss: seq<State>, w: Ask, id: string, a: string, inputs: Json)
    requires IsRun(lib, es, ss) && IsPreflight(es, w, id, a, inputs)
    ensures ReadsResolvers(ss[w.load], a, es[w.load].rs) && ReadsMappings(ss[w.resolve], a, es[w.resolve].ms)
  {
    var h, i := w.load, w.resolve;
    assert Enabled(ss[h], es[h]) && ss[h + 1] == Step(lib, ss[h], es[h]) && Enabled(ss[i], es[i]);
    hide IsRun, Quiet, ReadsResolvers, ReadsMappings;
    QuietKeepsPhase(lib, es, ss, h + 1, i, w.req);
    assert ss[i].requests[w.req] == Loading(PreflightRoute, a, inputs, es[h].rs);
  }

  lemma AttemptReads(lib: Lib, es: seq<Event>, ss: seq<State>, x: Attempt, id: string, a: string, inputs: Json)
    requires IsRun(lib, es, ss) && IsAttempt(es, x, id, a, inputs)
    requires x.req in ss[x.bind].requests && ss[x.bind].requests[x.req].Reloading?
    requires ss[x.bind].requests[x.req].action == a
    ensures ReadsResolvers(ss[x.reload], a, es[x.reload].rs) && ReadsMappings(ss[x.bind], a, es[x.bind].ms)
  {
    var l, n := x.reload, x.bind;
    assert Enabled(ss[l], es[l]) && ss[l + 1] == Step(lib, ss[l], es[l]) && Enabled(ss[n], es[n]);
    hide IsRun, Quiet, ReadsResolvers, ReadsMappings;
    QuietKeepsPhase(lib, es, ss, l + 1, n, x.req);
    assert ss[n].requests[x.req].action == ss[l].requests[x.req].action;
  }

  lemma CheckPasses(lib: Lib, s: State, req: nat, id: string, a: string, inputs: Json)
    requires Enabled(s, ExecuteCheck(req, id, a, inputs, true)) && TrimSpace(id) != "" && id in s.decisions
    requires s.decisions[id].action == a && Allowed(s.decisions[id].status) && !ExpiredAt(s.decisions[id], s.clock)
    ensures var s' := Step(lib, s, ExecuteCheck(req, id, a, inputs, true));
            req in s'.requests && s'.requests[req] == Checked(id, a, inputs, s.decisions[id], s.clock)
  {
    hide TrimSpace;
  }

  lemma LoadPasses(lib: Lib, s: State, req: nat, rs: Option<seq<F.Resolver>>)
    requires Enabled(s, ExecuteLoad(req, rs))
    ensures var p, s' := s.requests[req], Step(lib, s, ExecuteLoad(req, rs));
            req in s'.requests && s'.requests[req] == Reloading(p.id, p.action, p.inputs, p.row, p.at, rs)
  {
    hide ReadsResolvers;
  }

  lemma BindPasses(lib: Lib, s: State, req: nat, ms: Option<seq<F.Mapping>>)
    requires Enabled(s, ExecuteBind(req, ms))
    requires var p := s.requests[req];
             Bind(lib, p.row, p.inputs, FactsFrom(lib, s.clock, p.inputs, p.rs, ms)) == Accepted
    ensures var s' := Step(lib, s, ExecuteBind(req, ms));
            req in s'.requests && s'.requests[req].Bound? && Enabled(s', ExecuteRun(req))
  {
    hide Bind, FactsFrom, ReadsMappings;
  }
}
