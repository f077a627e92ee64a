/** Evaluating a policy into a decision, storing it, and checking it again before execution
    (internal/policy/service.go).  Times are in nanoseconds. */
module Decisions {
  import opened Text
  import opened Json
  import opened Bytes
  import opened Binding
  import opened Clock
  import F = Facts
  import P = PolicyVersions

  datatype Status = Allow | AllowWithConditions | Blocked | NeedsInput

  datatype Decision = Decision(action: string, inputs: Json, facts: Json, version: int,
                               status: Status, expires: Option<int>)

  /** The libraries behind the service: fact resolution, json.Marshal, SHA-256, Rego (none on an
      error or an empty result), and Go's conversion of a float beyond the int64 range. */
  datatype Lib = Lib(facts: F.Lib, marshal: Json -> seq<Byte>, sha: Sha,
                     rego: (string, Json, Json) -> Option<Json>, beyond: real -> int)

  const TWO63 := 0x8000_0000_0000_0000

  /** Two's complement int64 */
  function Wrap64(n: int): (w: int)
    ensures -TWO63 <= w < TWO63
    ensures -TWO63 <= n < TWO63 ==> w == n
  {
    (n + TWO63) % (2 * TWO63) - TWO63
  }

  function ToInt64(lib: Lib, x: real): int {
    if x < TWO63 as real then x.Floor else lib.beyond(x)
  }

  /** time.Duration(ttl) * time.Second */
  function Lifetime(lib: Lib, ttl: real): int { Wrap64(ToInt64(lib, ttl) * SECOND) }

  function StatusOf(out: map<string, Json>): Status {
    if "status" in out && out["status"].JStr? then
      match out["status"].s
      case "ALLOW" => Allow
      case "ALLOW_WITH_CONDITIONS" => AllowWithConditions
      case "NEEDS_INPUT" => NeedsInput
      case _ => Blocked
    else Blocked
  }

  function ExpiryOf(lib: Lib, out: map<string, Json>, now: int): int {
    if "ttl_seconds" in out && out["ttl_seconds"].JNum? && out["ttl_seconds"].n > 0.0
    then now + Lifetime(lib, out["ttl_seconds"].n)
    else now + 15 * MINUTE
  }

  /** `Evaluate` on the row the policy query returned */
  function Evaluate(lib: Lib, active: Option<P.Row>, action: string, inputs: Json, facts: Json, now: int): Decision {
    var mod := if active.Some? then active.value.code else "";
    var ver := if active.Some? then active.value.version else 0;
    var dec := Decision(action, inputs, facts, ver, Blocked, None);
    if mod == "" then dec.(status := Allow, expires := Some(now + 15 * MINUTE))
    else
      match lib.rego(mod, inputs, facts)
      case None => dec.(status := Blocked, expires := Some(now + 5 * MINUTE))
      case Some(JObj(out)) => dec.(status := StatusOf(out), expires := Some(ExpiryOf(lib, out, now)))
      case Some(_) => dec.(status := Allow, expires := Some(now + 15 * MINUTE))
  }

  /** The nanosecond product is exact precisely for lifetimes up to 9223372036 whole seconds;
      beyond that the int64 wraps around. */
  lemma LifetimeExactIff(lib: Lib, ttl: real)
    requires 0.0 < ttl < TWO63 as real
    ensures Lifetime(lib, ttl) == ttl.Floor * SECOND <==> ttl < 9223372037.0
  {
    assert ttl < 9223372037.0 <==> ttl.Floor <= 9223372036;
  }

  /** The first lifetime that wraps gives an expiry in the past. */
  lemma LifetimeWraps(lib: Lib)
    ensures Lifetime(lib, 9223372037.0) < 0
  {
    assert 9223372037.0.Floor == 9223372037;
  }

  /** A lifetime of `ttl` seconds as int64 nanoseconds: exact up to 9223372036 seconds, wrapped around
      beyond */
  predicate AskedSpan(ttl: real, span: int) {
    && -0x8000_0000_0000_0000 <= span < 0x8000_0000_0000_0000
    && (ttl < 9223372037.0 ==> span == ttl.Floor * 1_000_000_000)
    && (ttl < 0x8000_0000_0000_0000 as real ==> (ttl.Floor * 1_000_000_000 - span) % 0x1_0000_0000_0000_0000 == 0)
  }

  /** How long a decision lasts: the positive number of seconds its policy asks for; 5 minutes when the
      policy fails; and 15 minutes in every other case. */
  predicate Lasts(lib: Lib, active: Option<P.Row>, inputs: Json, facts: Json, span: int) {
    if active.None? || active.value.code == "" then span == 900_000_000_000
    else
      var out := lib.rego(active.value.code, inputs, facts);
      if out.None? then span == 300_000_000_000
      else if out.value.JObj? && "ttl_seconds" in out.value.fields && out.value.fields["ttl_seconds"].JNum?
              && out.value.fields["ttl_seconds"].n > 0.0
      then AskedSpan(out.value.fields["ttl_seconds"].n, span)
      else span == 900_000_000_000
  }

  lemma LifetimeIsAsked(lib: Lib, ttl: real)
    requires ttl > 0.0
    ensures AskedSpan(ttl, Lifetime(lib, ttl))
  {
    if ttl < TWO63 as real {
      assert ToInt64(lib, ttl) == ttl.Floor;
      WrapsByWords(ttl.Floor * SECOND);
      assert ttl < 9223372037.0 ==> ttl.Floor <= 9223372036;
    }
  }

  lemma WrapsByWords(n: int)
    ensures (n - Wrap64(n)) % 0x1_0000_0000_0000_0000 == 0
  {
    var q := (n + TWO63) / (2 * TWO63);
    assert n - Wrap64(n) == 2 * TWO63 * q;
  }

  /** Every decision is for the request it was made on, carries the version of the policy it was made by
      (0 without one), and expires after the time it lasts. */
  lemma EveryDecisionExpires(lib: Lib, active: Option<P.Row>, action: string, inputs: Json, facts: Json, now: int)
    returns (span: int)
    ensures var d := Evaluate(lib, active, action, inputs, facts, now);
            && d.action == action && d.inputs == inputs && d.facts == facts
            && d.version == (if active.Some? then active.value.version else 0)
            && d.expires == Some(now + span)
    ensures Lasts(lib, active, inputs, facts, span)
  {
    hide StatusOf, Lifetime, AskedSpan;
    span := Evaluate(lib, active, action, inputs, facts, now).expires.value - now;
    if active.Some? && active.value.code != "" {
      var out := lib.rego(active.value.code, inputs, facts);
      if out.Some? && out.value.JObj? && "ttl_seconds" in out.value.fields {
        var ttl := out.value.fields["ttl_seconds"];
        if ttl.JNum? && ttl.n > 0.0 {
          LifetimeIsAsked(lib, ttl.n);
        }
      }
    }
  }

  /** Some policy with a module is in force. */
  predicate Governed(active: Option<P.Row>) { active.Some? && active.value.code != "" }

  predicate Answers(out: Json, status: string) {
    out.JObj? && "status" in out.fields && out.fields["status"] == JStr(status)
  }

  /** Which status a decision has: it allows the action exactly when no policy governs it, or the policy
      answers with something other than an object, or its object says ALLOW; it allows with conditions,
      and asks for input, exactly when the object says so; and it blocks in every other case. */
  lemma AllowedExactly(lib: Lib, active: Option<P.Row>, action: string, inputs: Json, facts: Json, now: int)
    ensures var d := Evaluate(lib, active, action, inputs, facts, now);
            var out := if Governed(active) then lib.rego(active.value.code, inputs, facts) else None;
            && (d.status == Allow <==>
                  !Governed(active) || (out.Some? && (!out.value.JObj? || Answers(out.value, "ALLOW"))))
            && (d.status == AllowWithConditions <==> out.Some? && Answers(out.value, "ALLOW_WITH_CONDITIONS"))
            && (d.status == NeedsInput <==> out.Some? && Answers(out.value, "NEEDS_INPUT"))
            && (Allowed(d.status) <==> d.status == Allow || d.status == AllowWithConditions)
  {
    hide ExpiryOf;
    if Governed(active) {
      var out := lib.rego(active.value.code, inputs, facts);
      if out.Some? && out.value.JObj? {
        StatusExactly(out.value.fields);
      }
    }
  }

  /** A draft whose number could not be read takes the place of a published version 1, and the action
      is then allowed by default, whatever the overwritten policy would have said. */
  lemma OverwrittenPolicyAllows(lib: Lib, inputs: Json, facts: Json, now: int)
    ensures var c := P.Create("k", None, "m", true, true);
            var live := P.CreatedAndPublished([], c);
            && Governed(P.Active(live, "k"))
            && Evaluate(lib, P.Active(P.Apply(live, c.(readable := false)), "k"),
                        "k", inputs, facts, now).status == Allow
  {
    hide P.CreatedAndPublished, P.Apply, P.Active;
    P.UnreadableNumberDropsPolicy();
  }

  /** The query for the policy ignores its error: a published policy that blocks the action does not
      stop it while the query fails. */
  lemma FailedQueryAllows(lib: Lib, inputs: Json, facts: Json, now: int)
    requires lib.rego("m", inputs, facts).None?
    ensures var live := P.CreatedAndPublished([], P.Create("k", None, "m", true, true));
            && Evaluate(lib, P.Active(live, "k"), "k", inputs, facts, now).status == Blocked
            && Evaluate(lib, None, "k", inputs, facts, now).status == Allow
  {
    hide P.CreatedAndPublished, P.Apply, P.Active;
    P.UnreadableNumberDropsPolicy();
  }

  lemma StatusExactly(out: map<string, Json>)
    ensures StatusOf(out) == Allow <==> Answers(JObj(out), "ALLOW")
    ensures StatusOf(out) == AllowWithConditions <==> Answers(JObj(out), "ALLOW_WITH_CONDITIONS")
    ensures StatusOf(out) == NeedsInput <==> Answers(JObj(out), "NEEDS_INPUT")
  {
  }

  // ---------------------------------------------------------------- stored decisions

  datatype Row = Row(action: string, inputs: seq<Byte>, facts: seq<Byte>, version: int, status: Status,
                     hash: string, expires: Option<int>)

  /** The timestamp column keeps microseconds. */
  function Micros(t: int): int { t - t % 1000 }

  /** `PersistDecision` */
  function RowOf(lib: Lib, d: Decision): Row {
    var i, f := lib.marshal(d.inputs), lib.marshal(d.facts);
    Row(d.action, i, f, d.version, d.status, BindingHash(lib.sha, i, f, d.version),
        if d.expires.Some? then Some(Micros(d.expires.value)) else None)
  }

  predicate Allowed(s: Status) { s == Allow || s == AllowWithConditions }

  predicate ExpiredAt(r: Row, now: int) { r.expires.Some? && r.expires.value < now }

  datatype Verdict = Accepted | Unknown | WrongAction | NotAllowed | Expired | Changed

  /** The first checks of `ValidateAndBindDecision` */
  function Check(row: Option<Row>, action: string, now: int): Verdict {
    if row.None? then Unknown
    else if row.value.action != action then WrongAction
    else if !Allowed(row.value.status) then NotAllowed
    else if ExpiredAt(row.value, now) then Expired
    else Accepted
  }

  /** Its last check, on the facts resolved again */
  function Bind(lib: Lib, row: Row, inputs: Json, facts: Json): Verdict {
    var computed := BindingHash(lib.sha, lib.marshal(inputs), lib.marshal(facts), row.version);
    if row.hash != "" && row.hash != computed then Changed else Accepted
  }

  /** What each verdict of the first checks means, given the row that was read */
  lemma CheckExactly(row: Option<Row>, action: string, now: int)
    ensures var v := Check(row, action, now);
            && (v == Unknown <==> row.None?)
            && (v == WrongAction <==> row.Some? && row.value.action != action)
            && (v == NotAllowed <==>
                  row.Some? && row.value.action == action && row.value.status in {Blocked, NeedsInput})
            && (v == Expired <==>
                  && row.Some? && row.value.action == action && row.value.status in {Allow, AllowWithConditions}
                  && row.value.expires.Some? && row.value.expires.value < now)
            && v != Changed
  {
  }

  /** A row as `PersistDecision` writes them */
  predicate WellFormed(lib: Lib, r: Row) {
    r.hash == BindingHash(lib.sha, r.inputs, r.facts, r.version) && r.expires.Some?
  }

  /** The row of a decision: its own fields, encoded, with the hash of their text and an expiry that the
      timestamp column cuts to whole microseconds */
  predicate Records(lib: Lib, row: Row, d: Decision) {
    && row.action == d.action && row.version == d.version && row.status == d.status
    && row.inputs == lib.marshal(d.inputs) && row.facts == lib.marshal(d.facts)
    && row.hash == Hex(lib.sha(Hex(row.inputs) + "|" + Hex(row.facts) + "|" + Decimal(d.version)))
    && (row.expires.Some? <==> d.expires.Some?)
    && (row.expires.Some? ==>
          row.expires.value % 1000 == 0 && row.expires.value <= d.expires.value < row.expires.value + 1000)
  }

  lemma RowRecords(lib: Lib, d: Decision)
    ensures Records(lib, RowOf(lib, d), d)
  {
    hide Hex, Decimal;
  }

  lemma RowWellFormed(lib: Lib, d: Decision)
    requires d.expires.Some?
    ensures WellFormed(lib, RowOf(lib, d))
  {
  }

  /** A stored decision binds exactly the request whose inputs and facts encode to the same
      bytes: the test for an empty hash never lets another one through. */
  lemma BindIffSameBytes(lib: Lib, row: Row, inputs: Json, facts: Json)
    requires IdealHash(lib.sha) && WellFormed(lib, row)
    ensures Bind(lib, row, inputs, facts) == Accepted <==>
            lib.marshal(inputs) == row.inputs && lib.marshal(facts) == row.facts
  {
    hide BindingHash;
    HashBinds(lib.sha, row.inputs, row.facts, row.version, lib.marshal(inputs), lib.marshal(facts), row.version);
  }

  /** Facts that could not be resolved never bind to facts that were resolved and are empty. */
  lemma FailedFactsDoNotBindEmptyFacts(lib: Lib, d: Decision)
    requires IdealHash(lib.sha) && lib.marshal(JNull) != lib.marshal(JObj(map[])) && d.expires.Some?
    requires d.facts == JNull
    ensures Bind(lib, RowOf(lib, d), d.inputs, JObj(map[])) == Changed
    ensures Bind(lib, RowOf(lib, d), d.inputs, JNull) == Accepted
  {
    RowWellFormed(lib, d);
    BindIffSameBytes(lib, RowOf(lib, d), d.inputs, JObj(map[]));
    BindIffSameBytes(lib, RowOf(lib, d), d.inputs, JNull);
  }
}
