/** The freshness and replay steps of `dpopVerifyWithRedis` (pkg/middleware/dpop.go), after RFC 9449
    sections 4.3 and 11.1: a proof is fresh for two minutes after its `iat`, and its `jti` is
    remembered for five.  Times are in nanoseconds of the verifier's clock. */
module Dpop {
  import opened Clock

  const FRESH := 2 * MINUTE
  const REPLAY := 5 * MINUTE
  /** Go's zero time */
  const ZERO_TIME := -62_135_596_800 * SECOND

  datatype Proof = Proof(jti: string, iat: int)

  /** A request that passed the freshness check at `at` and has yet to reach Redis */
  datatype Pending = Pending(proof: Proof, at: int)

  datatype Acceptance = Acceptance(proof: Proof, at: int)

  /** `redis` maps a remembered jti to the time its entry lapses. */
  datatype State = State(redis: map<string, int>, clock: int, pending: map<nat, Pending>, accepted: seq<Acceptance>)

  datatype Event =
    | Tick(to: int)
    | CheckFresh(req: nat, proof: Proof)
    | SetNX(req: nat, keyBound: bool)
    | RedisError(req: nat, spent: bool)

  /** How far an `iat` may lie ahead of the verifier's clock, and how long a request may take from
      the freshness check to the SETNX */
  datatype Limits = Limits(skew: nat, delay: nat)

  predicate Remembered(s: State, jti: string) { jti in s.redis && s.clock < s.redis[jti] }

  predicate Fresh(l: Limits, s: State, p: Proof) {
    p.iat != ZERO_TIME && s.clock - p.iat <= FRESH && p.iat <= s.clock + l.skew
  }

  predicate Enabled(l: Limits, s: State, e: Event) {
    match e
    case Tick(to) => to >= s.clock
    case CheckFresh(req, p) => req !in s.pending && Fresh(l, s, p)
    case SetNX(req, _) => req in s.pending && s.clock - s.pending[req].at <= l.delay
    case RedisError(req, _) => req in s.pending
  }

  function Step(s: State, e: Event): State
    requires e.SetNX? || e.RedisError? ==> e.req in s.pending
  {
    match e
    case Tick(to) => s.(clock := to)
    case CheckFresh(req, p) => s.(pending := s.pending[req := Pending(p, s.clock)])
    case SetNX(req, keyBound) =>
      var p := s.pending[req].proof;
      var done := s.(pending := s.pending - {req});
      if Remembered(s, p.jti) then done
      else
        var set_ := done.(redis := s.redis[p.jti := s.clock + REPLAY]);
        // the key and access-token bindings are checked after the jti is spent
        if keyBound then set_.(accepted := s.accepted + [Acceptance(p, s.clock)]) else set_
    case RedisError(req, spent) =>
      // refused as a replay; the command may have taken effect before its answer was lost
      var jti := s.pending[req].proof.jti;
      var done := s.(pending := s.pending - {req});
      if spent && !Remembered(s, jti) then done.(redis := s.redis[jti := s.clock + REPLAY]) else done
  }

  function Initial(now: int): State { State(map[], now, map[], []) }

  ghost predicate Legal(l: Limits, now: int, es: seq<Event>)
    decreases |es|, 0
  {
    es == [] || var n := |es| - 1; Legal(l, now, es[..n]) && Enabled(l, After(l, now, es[..n]), es[n])
  }

  ghost function After(l: Limits, now: int, es: seq<Event>): State
    requires Legal(l, now, es)
    decreases |es|, 1
  {
    if es == [] then Initial(now) else var n := |es| - 1; Step(After(l, now, es[..n]), es[n])
  }

  ghost predicate UsedOnce(s: State) {
    forall i, j :: 0 <= i < j < |s.accepted| ==> s.accepted[i].proof != s.accepted[j].proof
  }

  ghost predicate Inv(l: Limits, s: State) {
    && UsedOnce(s)
    && (forall req :: req in s.pending ==>
          var p := s.pending[req];
          p.at <= s.clock && p.at - p.proof.iat <= FRESH && p.proof.iat <= p.at + l.skew)
    && (forall i :: 0 <= i < |s.accepted| ==>
          var a := s.accepted[i];
          a.at <= s.clock && a.proof.iat <= a.at + l.skew
          && a.proof.jti in s.redis && s.redis[a.proof.jti] >= a.at + REPLAY)
    && (forall k :: k in s.redis ==> s.redis[k] <= s.clock + REPLAY)
  }

  lemma StepKeepsInv(l: Limits, s: State, e: Event)
    requires l.skew + l.delay < REPLAY - FRESH && Inv(l, s) && Enabled(l, s, e)
    ensures Inv(l, Step(s, e))
  {
    var s' := Step(s, e);
    if e.SetNX? {
      var p := s.pending[e.req];
      if !Remembered(s, p.proof.jti) {
        forall i | 0 <= i < |s.accepted| ensures s.accepted[i].proof != p.proof {
        }
      }
    }
  }

  lemma {:induction false} InvAlways(l: Limits, now: int, es: seq<Event>)
    requires l.skew + l.delay < REPLAY - FRESH && Legal(l, now, es)
    ensures Inv(l, After(l, now, es))
  {
    if es != [] {
      InvAlways(l, now, es[..|es| - 1]);
      StepKeepsInv(l, After(l, now, es[..|es| - 1]), es[|es| - 1]);
    }
  }

  /** A proof is accepted exactly by a SETNX that finds its jti not remembered and goes on to bind its
      key; whatever comes of the request, a command that took effect leaves the jti remembered. */
  lemma AcceptedIff(l: Limits, s: State, e: Event)
    requires Enabled(l, s, e) && (e.SetNX? || e.RedisError?)
    ensures var p := s.pending[e.req].proof;
            var lapses := if p.jti in s.redis && s.clock < s.redis[p.jti] then s.redis[p.jti] else s.clock + 300_000_000_000;
            && (Step(s, e).accepted != s.accepted <==>
                  e.SetNX? && e.keyBound && !(p.jti in s.redis && s.clock < s.redis[p.jti]))
            && (Step(s, e).accepted != s.accepted ==> Step(s, e).accepted == s.accepted + [Acceptance(p, s.clock)])
            && (e.SetNX? || e.spent ==> Step(s, e).redis == s.redis[p.jti := lapses])
  {
    assert forall x :: s.accepted + [x] != s.accepted;
  }

  // ---------------------------------------------------------------- how old a proof can be

  /** Pending and accepted proofs were fresh when they were checked. */
  ghost predicate AllFresh(l: Limits, s: State) {
    && (forall req :: req in s.pending ==>
          var p := s.pending[req]; p.at - p.proof.iat <= FRESH && p.proof.iat != ZERO_TIME && p.proof.iat <= p.at + l.skew)
    && (forall req :: req in s.pending ==> s.pending[req].at <= s.clock)
    && (forall i :: 0 <= i < |s.accepted| ==>
          var a := s.accepted[i];
          a.at - a.proof.iat <= FRESH + l.delay && a.proof.iat != ZERO_TIME && a.proof.iat <= a.at + l.skew)
  }

  lemma {:induction false} AlwaysFresh(l: Limits, now: int, es: seq<Event>)
    requires Legal(l, now, es)
    ensures AllFresh(l, After(l, now, es))
  {
    if es != [] {
      AlwaysFresh(l, now, es[..|es| - 1]);
    }
  }

  /** In every run a proof that is accepted has an issue time, at most two minutes and the delay before
      its acceptance and at most the skew after it. */
  lemma AcceptedIsRecent(l: Limits, now: int, es: seq<Event>, i: nat)
    requires Legal(l, now, es) && i < |After(l, now, es).accepted|
    ensures var a := After(l, now, es).accepted[i];
            && a.at - a.proof.iat <= 120_000_000_000 + l.delay
            && a.proof.iat <= a.at + l.skew && a.proof.iat != -62_135_596_800_000_000_000
  {
    hide Legal, After;
    AlwaysFresh(l, now, es);
  }

  /** A proof that is as old as it can be is still accepted. */
  lemma OldestIsAccepted(l: Limits)
    ensures var es := [CheckFresh(0, Proof("j", -120_000_000_000)), Tick(l.delay), SetNX(0, true)];
            && Legal(l, 0, es)
            && After(l, 0, es).accepted == [Acceptance(Proof("j", -120_000_000_000), l.delay)]
  {
    hide Legal, After;
    var es := [CheckFresh(0, Proof("j", -120_000_000_000)), Tick(l.delay), SetNX(0, true)];
    Start(l, 0);
    Extend(l, 0, [], es[0]);
    var s1 := Step(Initial(0), es[0]);
    Extend(l, 0, [] + [es[0]], es[1]);
    var s2 := Step(s1, es[1]);
    Extend(l, 0, [] + [es[0]] + [es[1]], es[2]);
    assert es == [] + [es[0]] + [es[1]] + [es[2]];
  }

  // ---------------------------------------------------------------- the bound is sharp

  /** A proof dated `skew` ahead, used at once and again as late as the limits permit */
  function SlowReuse(l: Limits): seq<Event> {
    var p := Proof("j", l.skew);
    [CheckFresh(0, p), SetNX(0, true), Tick(l.skew + FRESH),
     CheckFresh(1, p), Tick(l.skew + FRESH + l.delay), SetNX(1, true)]
  }

  lemma Extend(l: Limits, now: int, es: seq<Event>, e: Event)
    requires Legal(l, now, es) && Enabled(l, After(l, now, es), e)
    ensures Legal(l, now, es + [e]) && After(l, now, es + [e]) == Step(After(l, now, es), e)
  {
    assert (es + [e])[..|es|] == es;
  }

  lemma SlowReuseAcceptedTwice(l: Limits)
    requires l.skew + l.delay >= REPLAY - FRESH
    ensures Legal(l, 0, SlowReuse(l)) && !UsedOnce(After(l, 0, SlowReuse(l)))
  {
    hide Legal, After;
    var p := Proof("j", l.skew);
    var es := SlowReuse(l);
    Start(l, 0);
    Extend(l, 0, [], es[0]);
    var s1 := Step(Initial(0), es[0]);
    Extend(l, 0, [] + [es[0]], es[1]);
    var s2 := Step(s1, es[1]);
    Extend(l, 0, [] + [es[0]] + [es[1]], es[2]);
    var s3 := Step(s2, es[2]);
    Extend(l, 0, [] + [es[0]] + [es[1]] + [es[2]], es[3]);
    var s4 := Step(s3, es[3]);
    Extend(l, 0, [] + [es[0]] + [es[1]] + [es[2]] + [es[3]], es[4]);
    var s5 := Step(s4, es[4]);
    Extend(l, 0, [] + [es[0]] + [es[1]] + [es[2]] + [es[3]] + [es[4]], es[5]);
    var s6 := Step(s5, es[5]);
    assert es == [] + [es[0]] + [es[1]] + [es[2]] + [es[3]] + [es[4]] + [es[5]];
    assert After(l, 0, es) == s6;
    assert s6.accepted == [Acceptance(p, 0), Acceptance(p, l.skew + FRESH + l.delay)];
    assert s6.accepted[0].proof == s6.accepted[1].proof;
  }

  lemma Start(l: Limits, now: int)
    ensures Legal(l, now, []) && After(l, now, []) == Initial(now)
  {
  }

  /** No proof is accepted twice in any run, with Redis keeping entries for their full lifetime,
      exactly when clock skew and delay together stay under the three minutes by which a replay
      entry outlives the freshness window. */
  lemma ProofUsedOnceIff(l: Limits)
    ensures (forall now: int, es: seq<Event> :: Legal(l, now, es) ==> UsedOnce(After(l, now, es)))
        <==> l.skew + l.delay < 180_000_000_000
  {
    if l.skew + l.delay < REPLAY - FRESH {
      forall now: int, es: seq<Event> | Legal(l, now, es) ensures UsedOnce(After(l, now, es)) {
        InvAlways(l, now, es);
      }
    } else {
      SlowReuseAcceptedTwice(l);
    }
  }
}
