/** The policy behind an execution: every action that the `/execute` route runs was judged at an
    earlier step of the run, by the policy published then. */
module Judgements {
  import opened Text
  import opened Json
  import opened Binding
  import opened Decisions
  import opened Protocol
  import opened ProtocolRuns
  import P = PolicyVersions
  import T = PolicySteps

  /** What it takes for an evaluation to allow the action */
  predicate PolicyAllows(lib: Lib, s: State, a: string, inputs: Json, facts: Json, readable: bool) {
    || !readable
    || !Governed(P.Active(s.policies.rows, a))
    || var out := lib.rego(P.Active(s.policies.rows, a).value.code, inputs, facts);
       out.Some? &&
       (!out.value.JObj? || Answers(out.value, "ALLOW") || Answers(out.value, "ALLOW_WITH_CONDITIONS"))
  }

  /** Step `v` evaluates the policy for a request with the action, inputs and facts of this decision,
      and makes the decision. */
  predicate JudgedAt(lib: Lib, es: seq<Event>, ss: seq<State>, v: nat, d: Decision) {
    && v < |es| && |ss| == |es| + 1 && es[v].PreflightEvaluate? && Asked(ss[v], es[v].req, d)
    && d == Evaluate(lib, InForce(ss[v], d.action, es[v].readable), d.action, d.inputs, d.facts, ss[v].clock)
  }

  /** The request is for the action, the inputs and the facts of this decision. */
  predicate Asked(s: State, req: nat, d: Decision) {
    req in s.requests && s.requests[req].Resolved?
    && s.requests[req].action == d.action && s.requests[req].inputs == d.inputs && s.requests[req].facts == d.facts
  }

  ghost predicate WasJudged(lib: Lib, es: seq<Event>, ss: seq<State>, n: nat, d: Decision) {
    exists v :: 0 <= v < n && JudgedAt(lib, es, ss, v, d)
  }

  /** An evaluation allows the action exactly when the query for its policy failed, no policy with a
      module was published, or the policy's answer allows it. */
  lemma JudgedAllowsIff(lib: Lib, es: seq<Event>, ss: seq<State>, v: nat, d: Decision)
    requires JudgedAt(lib, es, ss, v, d)
    ensures Allowed(d.status) <==> PolicyAllows(lib, ss[v], d.action, d.inputs, d.facts, es[v].readable)
  {
    hide Evaluate, P.Active, Answers;
    AllowedExactly(lib, InForce(ss[v], d.action, es[v].readable), d.action, d.inputs, d.facts, ss[v].clock);
  }

  lemma NewEvaluation(lib: Lib, s: State, e: Event, req: nat)
    requires Enabled(s, e) && req in Step(lib, s, e).requests && Step(lib, s, e).requests[req].Evaluated?
    requires !(req in s.requests && s.requests[req] == Step(lib, s, e).requests[req])
    ensures e.PreflightEvaluate? && Asked(s, e.req, Step(lib, s, e).requests[req].decision)
    ensures var d := Step(lib, s, e).requests[req].decision;
            d == Evaluate(lib, InForce(s, d.action, e.readable), d.action, d.inputs, d.facts, s.clock)
  {
    hide FactsFrom, Bind, RowOf, T.Step, P.Active, ReadsResolvers, ReadsMappings, TrimSpace, Check;
    if e.PreflightEvaluate? && e.req == req {
      var p := s.requests[req];
      var _ := EveryDecisionExpires(lib, InForce(s, p.action, e.readable), p.action, p.inputs, p.facts, s.clock);
      hide Evaluate;
    }
  }

  lemma {:induction false} PhaseJudged(lib: Lib, es: seq<Event>, ss: seq<State>, n: nat, req: nat)
    requires IsRun(lib, es, ss) && n < |ss| && req in ss[n].requests && ss[n].requests[req].Evaluated?
    ensures WasJudged(lib, es, ss, n, ss[n].requests[req].decision)
  {
    hide Step, Enabled, Evaluate, Asked;
    if n > 0 {
      var s, e, p := ss[n - 1], es[n - 1], ss[n].requests[req];
      assert Enabled(s, e) && ss[n - 1 + 1] == Step(lib, s, e);
      if req in s.requests && s.requests[req] == p {
        PhaseJudged(lib, es, ss, n - 1, req);
        var v :| 0 <= v < n - 1 && JudgedAt(lib, es, ss, v, p.decision);
      } else {
        NewEvaluation(lib, s, e, req);
        assert JudgedAt(lib, es, ss, n - 1, p.decision);
      }
    }
  }

  lemma PersistedRow(lib: Lib, s: State, e: Event, id: string)
    requires Enabled(s, e) && id !in s.decisions && id in Step(lib, s, e).decisions
    ensures e.PreflightPersist? && e.req in s.requests && s.requests[e.req].Evaluated?
    ensures Step(lib, s, e).decisions[id] == RowOf(lib, s.requests[e.req].decision)
  {
    hide FactsFrom, Bind, Evaluate, RowOf, T.Step, P.Active, ReadsResolvers, ReadsMappings, TrimSpace, Check;
  }

  /** The decision made at step `v` lasts this long. */
  predicate LastsFrom(lib: Lib, es: seq<Event>, ss: seq<State>, v: nat, d: Decision, span: int) {
    v < |es| && v < |ss| && es[v].PreflightEvaluate?
    && Lasts(lib, InForce(ss[v], d.action, es[v].readable), d.inputs, d.facts, span)
    && d.expires == Some(ss[v].clock + span)
  }

  lemma JudgedLasts(lib: Lib, es: seq<Event>, ss: seq<State>, v: nat, d: Decision) returns (span: int)
    requires JudgedAt(lib, es, ss, v, d)
    ensures LastsFrom(lib, es, ss, v, d, span)
  {
    hide Evaluate, Lasts, Asked;
    span := EveryDecisionExpires(lib, InForce(ss[v], d.action, es[v].readable), d.action, d.inputs, d.facts, ss[v].clock);
  }

  /** Every stored decision records what an earlier step decided for such a request, and expires when
      that decision has lasted its time, cut to a microsecond. */
  lemma StoredWasJudged(lib: Lib, es: seq<Event>, ss: seq<State>, p: nat, id: string)
    returns (v: nat, d: Decision, span: int)
    requires IsRun(lib, es, ss) && StoredAt(es, ss, p, id)
    ensures v < p && JudgedAt(lib, es, ss, v, d) && Records(lib, ss[p + 1].decisions[id], d)
    ensures LastsFrom(lib, es, ss, v, d, span)
    ensures var row := ss[p + 1].decisions[id];
            row.expires.Some? && ss[v].clock + span - 1000 < row.expires.value <= ss[v].clock + span
  {
    hide Step, Enabled, JudgedAt, RowOf, Records, Lasts;
    assert Enabled(ss[p], es[p]) && ss[p + 1] == Step(lib, ss[p], es[p]);
    PersistedRow(lib, ss[p], es[p], id);
    d := ss[p].requests[es[p].req].decision;
    PhaseJudged(lib, es, ss, p, es[p].req);
    v :| 0 <= v < p && JudgedAt(lib, es, ss, v, d);
    span := JudgedLasts(lib, es, ss, v, d);
    RowRecords(lib, d);
    RecordExpires(lib, RowOf(lib, d), d);
  }

  /** The judgement behind an execution: step `v` evaluated the policy of the same action, for a request
      whose inputs and facts encode to the same bytes, and that policy allowed it. */
  ghost predicate Judged(lib: Lib, es: seq<Event>, ss: seq<State>, v: nat, d: Decision, x: Execution) {
    && JudgedAt(lib, es, ss, v, d)
    && d.action == x.action
    && lib.marshal(d.inputs) == lib.marshal(x.inputs) && lib.marshal(d.facts) == lib.marshal(x.facts)
    && PolicyAllows(lib, ss[v], d.action, d.inputs, d.facts, es[v].readable)
  }

  /** In every run, whenever the `/execute` route reaches the orchestrator, an earlier evaluation of
      this action on the same inputs and facts allowed it: the query for the policy failed, no policy
      with a module was published, or the published one's answer was not an object or said so.  And
      what it decided had not lasted its time when the request was checked. */
  lemma NothingRunsUnjudged(lib: Lib, es: seq<Event>, ss: seq<State>, k: nat)
    returns (v: nat, d: Decision, span: int)
    requires IdealHash(lib.sha) && IsRun(lib, es, ss) && k < |es| && es[k].ExecuteRun?
    ensures v < k && ss[k + 1].ran != [] && Judged(lib, es, ss, v, d, ss[k + 1].ran[|ss[k + 1].ran| - 1])
    ensures LastsFrom(lib, es, ss, v, d, span)
    ensures ss[k + 1].ran[|ss[k + 1].ran| - 1].at <= ss[v].clock + span
  {
    hide IdealHash, IsRun, JudgedAt, StoredAt, CheckedAt, BoundAt, PolicyAllows, Records, Lasts;
    var t := NothingRunsUnbound(lib, es, ss, k);
    RunLengths(lib, es, ss);
    var x := ss[k + 1].ran[|ss[k + 1].ran| - 1];
    StoredReads(es, ss, t.store, x.id);
    v, d, span := StoredWasJudged(lib, es, ss, t.store, x.id);
    RecordFields(lib, ss[t.store + 1].decisions[x.id], d);
    JudgedIn(lib, es, ss, v, d);
    JudgedAllowsIff(lib, es, ss, v, d);
  }

  lemma RunLengths(lib: Lib, es: seq<Event>, ss: seq<State>)
    requires IsRun(lib, es, ss)
    ensures |ss| == |es| + 1
  {
  }

  lemma JudgedIn(lib: Lib, es: seq<Event>, ss: seq<State>, v: nat, d: Decision)
    requires JudgedAt(lib, es, ss, v, d)
    ensures v < |es| && es[v].PreflightEvaluate?
  {
  }
}
