/** The handlers of internal/policy/http.go as methods that update the tables in place.  Each is
    the sequence of protocol steps that the state machine lets interleave. */
module Service {
  import opened Text
  import opened Json
  import opened Decisions
  import opened Protocol
  import F = Facts
  import P = PolicyVersions
  import T = PolicySteps

  datatype PreflightReply = AskForInput | Decided(status: Status, decisionId: Option<string>)

  datatype ExecuteReply = PreflightRequired | Refused(reason: Verdict) | Ran(execution: Execution)

  /** The event if it can happen, nothing otherwise */
  function Then(lib: Lib, s: State, e: Event): State { if Enabled(s, e) then Step(lib, s, e) else s }

  class PolicyService {
    const lib: Lib
    var policies: T.Table
    var resolvers: set<(string, F.Resolver)>
    var mappings: set<(string, F.Mapping)>
    var decisions: map<string, Row>
    var clock: int
    var requests: map<nat, Phase>
    var ran: seq<Execution>

    ghost function Tables(): State
      reads this
    {
      State(policies, resolvers, mappings, decisions, clock, requests, ran)
    }

    constructor (lib: Lib, now: int)
      ensures this.lib == lib && Initial(Tables()) && clock == now
    {
      this.lib := lib;
      policies, resolvers, mappings, decisions := T.EMPTY, {}, {}, map[];
      clock, requests, ran := now, map[], [];
    }

    method ReadFacts(inputs: Json, rs: Option<seq<F.Resolver>>, ms: Option<seq<F.Mapping>>) returns (facts: Json)
      ensures facts == FactsFrom(lib, clock, inputs, rs, ms)
    {
      facts := JNull;
      if rs.Some? && ms.Some? {
        facts := F.ResolveFacts(lib.facts, rs.value, ms.value, inputs, clock);
      }
    }

    /** POST /v1/actions/{key}/preflight, with the rows it reads, whether the policy query
        succeeds, and the id the database would give the decision */
    method Preflight(ghost req: nat, action: string, inputs: Json, rs: Option<seq<F.Resolver>>,
                     ms: Option<seq<F.Mapping>>, readable: bool, id: string, stored: bool)
      returns (reply: PreflightReply)
      requires req !in requests && id !in decisions
      requires ReadsResolvers(Tables(), action, rs) && ReadsMappings(Tables(), action, ms)
      modifies this`decisions
      ensures var s1 := Then(lib, old(Tables()), PreflightLoad(req, PreflightRoute, action, inputs, rs));
              var s2 := Then(lib, s1, PreflightResolve(req, ms));
              var s3 := Then(lib, s2, PreflightEvaluate(req, readable));
              Tables() == Then(lib, s3, PreflightPersist(req, id, stored))
      ensures var d := Evaluate(lib, if readable then P.Active(policies.rows, action) else None, action, inputs,
                                FactsFrom(lib, clock, inputs, rs, ms), clock);
              reply == if d.status == NeedsInput then AskForInput
                       else Decided(d.status, if d.status == Allow || d.status == AllowWithConditions
                                              then Some(if stored then id else "") else None)
      ensures reply.AskForInput? ==> decisions == old(decisions)
      ensures reply.Decided? && stored ==> id in decisions && decisions[id].status == reply.status
    {
      var facts := ReadFacts(inputs, rs, ms);
      var active := if readable then P.Active(policies.rows, action) else None;
      var dec := Evaluate(lib, active, action, inputs, facts, clock);
      ResolveSteps(lib, Tables(), req, action, inputs, rs, ms);
      DecideSteps(lib, Tables(), req, PreflightRoute, action, inputs, facts, readable, id, stored);
      hide Then, Evaluate, P.Active, RowOf, FactsFrom, ReadsResolvers, ReadsMappings;
      if dec.status == NeedsInput {
        return AskForInput;
      }
      var got := "";
      if stored {
        RowStatus(lib, dec);
        decisions := decisions[id := RowOf(lib, dec)];
        got := id;
      }
      if Allowed(dec.status) {
        return Decided(dec.status, Some(got));
      }
      return Decided(dec.status, None);
    }

    /** POST /v1/actions/{key}/execute */
    method Execute(req: nat, action: string, id: string, inputs: Json, readable: bool, rs: Option<seq<F.Resolver>>,
                   ms: Option<seq<F.Mapping>>) returns (reply: ExecuteReply)
      requires req !in requests
      requires ReadsResolvers(Tables(), action, rs) && ReadsMappings(Tables(), action, ms)
      modifies this`ran
      ensures var s1 := Then(lib, old(Tables()), ExecuteCheck(req, id, action, inputs, readable));
              var s2 := Then(lib, s1, ExecuteLoad(req, rs));
              var s3 := Then(lib, s2, ExecuteBind(req, ms));
              Tables() == Then(lib, s3, ExecuteRun(req))
      ensures reply.Ran? <==> ran != old(ran)
      ensures reply.Ran? ==> ran == old(ran) + [reply.execution]
      ensures reply.PreflightRequired? <==> TrimSpace(id) == ""
      ensures reply.Refused? ==>
                var row := if readable && id in decisions then Some(decisions[id]) else None;
                && reply.reason != Accepted
                && reply.reason == if Check(row, action, clock) != Accepted then Check(row, action, clock)
                                   else Bind(lib, row.value, inputs, FactsFrom(lib, clock, inputs, rs, ms))
    {
      var row := StoredRow(Tables(), id, readable);
      ExecuteSteps(lib, Tables(), req, action, id, inputs, readable, rs, ms);
      if TrimSpace(id) == "" {
        return PreflightRequired;
      }
      var found := if readable && id in decisions then Some(decisions[id]) else None;
      assert found == row;
      hide Then, FactsFrom, ReadsResolvers, ReadsMappings, Bind, TrimSpace, Check, StoredRow;
      var verdict := Check(found, action, clock);
      if verdict != Accepted {
        return Refused(verdict);
      }
      CheckedRow(found, action, clock);
      var facts := ReadFacts(inputs, rs, ms);
      verdict := Bind(lib, found.value, inputs, facts);
      if verdict != Accepted {
        return Refused(verdict);
      }
      var x := Execution(req, id, action, inputs, facts, clock);
      ran := ran + [x];
      return Ran(x);
    }
  }

  /** The steps that come to the facts of a preflight */
  lemma ResolveSteps(lib: Lib, s: State, req: nat, a: string, inputs: Json, rs: Option<seq<F.Resolver>>,
                     ms: Option<seq<F.Mapping>>)
    requires req !in s.requests && ReadsResolvers(s, a, rs) && ReadsMappings(s, a, ms)
    ensures var facts := FactsFrom(lib, s.clock, inputs, rs, ms);
            Then(lib, Then(lib, s, PreflightLoad(req, PreflightRoute, a, inputs, rs)), PreflightResolve(req, ms))
            == s.(requests := s.requests[req := Resolved(PreflightRoute, a, inputs, facts)])
  {
    var s1 := Then(lib, s, PreflightLoad(req, PreflightRoute, a, inputs, rs));
    assert s1 == s.(requests := s.requests[req := Loading(PreflightRoute, a, inputs, rs)]);
    assert ReadsMappings(s1, a, ms);
    hide FactsFrom, ReadsResolvers, ReadsMappings, TrimSpace;
    assert s1.requests[req := Resolved(PreflightRoute, a, inputs, FactsFrom(lib, s.clock, inputs, rs, ms))]
        == s.requests[req := Resolved(PreflightRoute, a, inputs, FactsFrom(lib, s.clock, inputs, rs, ms))];
  }

  /** The steps from there to the stored decision */
  lemma DecideSteps(lib: Lib, s: State, req: nat, route: Route, a: string, inputs: Json, facts: Json, readable: bool,
                    id: string, stored: bool)
    requires req !in s.requests && id !in s.decisions
    ensures var s1 := s.(requests := s.requests[req := Resolved(route, a, inputs, facts)]);
            var active := if readable then P.Active(s.policies.rows, a) else None;
            var d := Evaluate(lib, active, a, inputs, facts, s.clock);
            Then(lib, Then(lib, s1, PreflightEvaluate(req, readable)), PreflightPersist(req, id, stored))
            == if Stores(Evaluated(route, d), stored) then s.(decisions := s.decisions[id := RowOf(lib, d)]) else s
  {
    var s1 := s.(requests := s.requests[req := Resolved(route, a, inputs, facts)]);
    var d := Evaluate(lib, if readable then P.Active(s.policies.rows, a) else None, a, inputs, facts, s.clock);
    hide Evaluate, P.Active, RowOf;
    var s2 := Then(lib, s1, PreflightEvaluate(req, readable));
    assert s2.requests == s.requests[req := Evaluated(route, d)];
    assert s2.requests - {req} == s.requests;
  }

  /** The four steps of an execute */
  lemma ExecuteSteps(lib: Lib, s: State, req: nat, a: string, id: string, inputs: Json, readable: bool,
                     rs: Option<seq<F.Resolver>>, ms: Option<seq<F.Mapping>>)
    requires req !in s.requests && ReadsResolvers(s, a, rs) && ReadsMappings(s, a, ms)
    ensures var s1 := Then(lib, s, ExecuteCheck(req, id, a, inputs, readable));
            var s3 := Then(lib, Then(lib, s1, ExecuteLoad(req, rs)), ExecuteBind(req, ms));
            var row, facts := StoredRow(s, id, readable), FactsFrom(lib, s.clock, inputs, rs, ms);
            Then(lib, s3, ExecuteRun(req))
            == if Check(row, a, s.clock) == Accepted && Bind(lib, row.value, inputs, facts) == Accepted
               then s.(ran := s.ran + [Execution(req, id, a, inputs, facts, s.clock)]) else s
  {
    var row := StoredRow(s, id, readable);
    var s1 := Then(lib, s, ExecuteCheck(req, id, a, inputs, readable));
    hide FactsFrom, Bind, TrimSpace, StoredRow;
    if Check(row, a, s.clock) == Accepted {
      CheckedRow(row, a, s.clock);
      hide Check;
      var checked := Checked(id, a, inputs, row.value, s.clock);
      assert s1 == s.(requests := s.requests[req := checked]);
      BindSteps(lib, s, req, checked, rs, ms);
    } else {
      assert s1 == s;
    }
  }

  lemma BindSteps(lib: Lib, s: State, req: nat, p: Phase, rs: Option<seq<F.Resolver>>, ms: Option<seq<F.Mapping>>)
    requires req !in s.requests && p.Checked? && ReadsResolvers(s, p.action, rs) && ReadsMappings(s, p.action, ms)
    ensures var s1 := s.(requests := s.requests[req := p]);
            var s3 := Then(lib, Then(lib, s1, ExecuteLoad(req, rs)), ExecuteBind(req, ms));
            var facts := FactsFrom(lib, s.clock, p.inputs, rs, ms);
            Then(lib, s3, ExecuteRun(req))
            == if Bind(lib, p.row, p.inputs, facts) == Accepted
               then s.(ran := s.ran + [Execution(req, p.id, p.action, p.inputs, facts, p.at)]) else s
  {
    var s1 := s.(requests := s.requests[req := p]);
    var facts := FactsFrom(lib, s.clock, p.inputs, rs, ms);
    var again := Reloading(p.id, p.action, p.inputs, p.row, p.at, rs);
    LoadStep(lib, s, req, p, rs);
    hide Then;
    BindStep(lib, s, req, again, ms);
    RunStep(lib, s, req, Bound(p.id, p.action, p.inputs, p.row, p.at, facts));
  }

  lemma LoadStep(lib: Lib, s: State, req: nat, p: Phase, rs: Option<seq<F.Resolver>>)
    requires p.Checked? && ReadsResolvers(s, p.action, rs)
    ensures Then(lib, s.(requests := s.requests[req := p]), ExecuteLoad(req, rs))
         == s.(requests := s.requests[req := Reloading(p.id, p.action, p.inputs, p.row, p.at, rs)])
  {
    var s1 := s.(requests := s.requests[req := p]);
    assert ReadsResolvers(s1, p.action, rs);
    hide ReadsResolvers;
    assert Enabled(s1, ExecuteLoad(req, rs));
  }

  lemma BindStep(lib: Lib, s: State, req: nat, p: Phase, ms: Option<seq<F.Mapping>>)
    requires req !in s.requests && p.Reloading? && ReadsMappings(s, p.action, ms)
    ensures var facts := FactsFrom(lib, s.clock, p.inputs, p.rs, ms);
            Then(lib, s.(requests := s.requests[req := p]), ExecuteBind(req, ms))
            == if Bind(lib, p.row, p.inputs, facts) == Accepted
               then s.(requests := s.requests[req := Bound(p.id, p.action, p.inputs, p.row, p.at, facts)]) else s
  {
    var s1 := s.(requests := s.requests[req := p]);
    assert ReadsMappings(s1, p.action, ms);
    hide ReadsMappings, FactsFrom, Bind;
    assert Enabled(s1, ExecuteBind(req, ms));
    assert s1.requests - {req} == s.requests;
  }

  lemma RunStep(lib: Lib, s: State, req: nat, p: Phase)
    requires req !in s.requests && p.Bound?
    ensures Then(lib, s.(requests := s.requests[req := p]), ExecuteRun(req))
         == s.(ran := s.ran + [Execution(req, p.id, p.action, p.inputs, p.facts, p.at)])
    ensures Then(lib, s, ExecuteRun(req)) == s
  {
    var s1 := s.(requests := s.requests[req := p]);
    assert Enabled(s1, ExecuteRun(req));
    assert s1.requests - {req} == s.requests;
  }

  lemma RowStatus(lib: Lib, d: Decision)
    ensures RowOf(lib, d).status == d.status
  {
  }

  lemma CheckedRow(row: Option<Row>, a: string, now: int)
    requires Check(row, a, now) == Accepted
    ensures row.Some?
  {
  }
}
