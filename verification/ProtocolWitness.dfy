/** A run of the decision protocol from preflight to execution, for any action and inputs: the
    hypotheses of the results about whole runs can all be met at once. */
module ProtocolWitness {
  import opened Text
  import opened Json
  import opened Binding
  import opened Clock
  import opened Decisions
  import opened Protocol
  import opened ProtocolRuns
  import T = PolicySteps

  const ID := "d"

  /** Request 0 asks, request 1 executes; no policy, resolver or mapping is configured. */
  function PlainEvents(a: string, inputs: Json): seq<Event> {
    [PreflightLoad(0, PreflightRoute, a, inputs, Some([])), PreflightResolve(0, Some([])), PreflightEvaluate(0, true),
     PreflightPersist(0, ID, true), ExecuteCheck(1, ID, a, inputs, true), ExecuteLoad(1, Some([])),
     ExecuteBind(1, Some([])), ExecuteRun(1)]
  }

  const ASK := Ask(0, 0, 1, 2, 3)

  const ATTEMPT := Attempt(1, 4, 5, 6)

  function Allowance(a: string, inputs: Json): Decision {
    Decision(a, inputs, JObj(map[]), 0, Allow, Some(15 * MINUTE))
  }

  const START := State(T.EMPTY, {}, {}, map[], 0, map[], [])

  function Stored(lib: Lib, a: string, inputs: Json): State {
    START.(decisions := map[ID := RowOf(lib, Allowance(a, inputs))])
  }

  function PlainStates(lib: Lib, a: string, inputs: Json): seq<State> {
    var d := Allowance(a, inputs);
    var row, s := RowOf(lib, d), Stored(lib, a, inputs);
    [START,
     START.(requests := map[0 := Loading(PreflightRoute, a, inputs, Some([]))]),
     START.(requests := map[0 := Resolved(PreflightRoute, a, inputs, JObj(map[]))]),
     START.(requests := map[0 := Evaluated(PreflightRoute, d)]),
     s,
     s.(requests := map[1 := Checked(ID, a, inputs, row, 0)]),
     s.(requests := map[1 := Reloading(ID, a, inputs, row, 0, Some([]))]),
     s.(requests := map[1 := Bound(ID, a, inputs, row, 0, JObj(map[]))]),
     s.(ran := [Execution(1, ID, a, inputs, JObj(map[]), 0)])]
  }

  lemma NoRowsNoFacts(lib: Lib, inputs: Json)
    ensures FactsFrom(lib, 0, inputs, Some([]), Some([])) == JObj(map[])
  {
  }

  lemma IdIsNotBlank()
    ensures TrimSpace(ID) == ID
  {
    assert TrimLeft(IsSpace, ID) == ID;
    assert TrimRight(IsSpace, ID) == ID;
  }

  predicate Follows(lib: Lib, s: State, e: Event, s': State) { Enabled(s, e) && s' == Step(lib, s, e) }

  lemma PreflightSteps(lib: Lib, a: string, inputs: Json)
    ensures var es, ss := PlainEvents(a, inputs), PlainStates(lib, a, inputs);
            && Follows(lib, ss[0], es[0], ss[1]) && Follows(lib, ss[1], es[1], ss[2])
            && Follows(lib, ss[2], es[2], ss[3]) && Follows(lib, ss[3], es[3], ss[4])
  {
    var es, ss := PlainEvents(a, inputs), PlainStates(lib, a, inputs);
    NoRowsNoFacts(lib, inputs);
    hide FactsFrom, RowOf, TrimSpace;
    assert ss[3].requests - {0} == map[];
  }

  lemma RowStands(lib: Lib, a: string, inputs: Json)
    ensures var row := RowOf(lib, Allowance(a, inputs));
            && Check(Some(row), a, 0) == Accepted && Bind(lib, row, inputs, JObj(map[])) == Accepted
            && row.action == a && Allowed(row.status) && !ExpiredAt(row, 0)
  {
    hide BindingHash;
  }

  lemma ExecuteSteps(lib: Lib, a: string, inputs: Json)
    ensures var es, ss := PlainEvents(a, inputs), PlainStates(lib, a, inputs);
            && Follows(lib, ss[4], es[4], ss[5]) && Follows(lib, ss[5], es[5], ss[6])
            && Follows(lib, ss[6], es[6], ss[7]) && Follows(lib, ss[7], es[7], ss[8])
  {
    var es, ss := PlainEvents(a, inputs), PlainStates(lib, a, inputs);
    NoRowsNoFacts(lib, inputs);
    IdIsNotBlank();
    RowStands(lib, a, inputs);
    hide FactsFrom, RowOf, Check, Bind, TrimSpace;
    assert ss[7].requests - {1} == map[];
  }

  /** Every hypothesis of the completeness result holds of this run, and the run goes on to execute. */
  lemma PlainRun(lib: Lib, a: string, inputs: Json)
    ensures var es, ss := PlainEvents(a, inputs), PlainStates(lib, a, inputs);
            && IsRun(lib, es, ss)
            && IsPreflight(es, ASK, ID, a, inputs) && IsAttempt(es, ATTEMPT, ID, a, inputs)
            && es[0].rs.Some? && es[1].ms.Some? && es[5].rs.Some? && es[6].ms.Some?
            && TrimSpace(ID) != "" && ID in ss[4].decisions && Allowed(ss[4].decisions[ID].status)
            && !ExpiredAt(ss[4].decisions[ID], ss[4].clock)
            && Undisturbed(ss, ASK, ATTEMPT, a)
            && es[7].ExecuteRun? && |ss[8].ran| == 1
  {
    var es, ss := PlainEvents(a, inputs), PlainStates(lib, a, inputs);
    IdIsNotBlank();
    RowStands(lib, a, inputs);
    PreflightSteps(lib, a, inputs);
    ExecuteSteps(lib, a, inputs);
    hide Step, Enabled, RowOf, TrimSpace;
    forall i | 0 <= i < |es| ensures Follows(lib, ss[i], es[i], ss[i + 1]) {
      assert i == 0 || i == 1 || i == 2 || i == 3 || i == 4 || i == 5 || i == 6 || i == 7;
    }
    assert forall i :: 0 <= i < |es| ==> Follows(lib, ss[i], es[i], ss[i + 1]);
  }
}
