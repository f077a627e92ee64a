/** The bearer-token middleware, the scope test and the guards of the canonical
    operations: `JWTAuth` (pkg/middleware/auth.go), `HasAnyScope`
    (pkg/middleware/scope.go) and `canonicalHandler`
    (internal/connector/handler.go).

    Fetching keys and parsing tokens are parameters (`Keys`, `Parser`).  The loops
    are methods; each is proved against a quantified definition, and the results
    about whole requests are lemmas over those definitions. */
module Access {
  import opened Text

  /** What `jt.Get(name)` gives: nothing, a string, or a value of another type. */
  datatype Claim = Missing | Str(text: string) | Other {
    /** `s, _ := v.(string)`: empty unless the claim is a string */
    function AsString(): string { if Str? then text else "" }
  }

  datatype Token = Token(aud: seq<string>, tid: Claim, scope: Claim, gty: Claim, acr: Claim)

  datatype Tenant = Tenant(
    id: string, issuer: string, jwksURL: string, audiences: seq<string>,
    machineScopes: seq<string>, acrByScope: map<string, string>)

  datatype Config = Config(env: string, issuer: string, jwksURL: string, audience: string)

  datatype Request = Request(path: string, authz: string)

  /** Whether the key set of a URL can be had. */
  type Keys = string -> bool

  /** Issuer, key URL, the one audience to insist on (if any) and the raw text give
      a verified token or nothing. */
  type Parser = (string, string, Option<string>, string) -> Option<Token>

  /** The two context values that handlers read. */
  datatype Context = Context(scopes: seq<string>, token: Option<Token>)

  datatype Outcome =
    | Passed(ctx: Context)
    | Refused(status: nat, error: string)
    | Panicked  // `sc.(string)` on a scope claim that is not a string

  const ANONYMOUS := Context([], None)

  // ---------------------------------------------------------------- scope lists

  /** strings.Fields: the maximal runs of characters that are not spaces. */
  function Fields(s: string): (r: seq<string>)
    ensures forall k :: 0 <= k < |r| ==> r[k] != "" && forall c :: c in r[k] ==> !IsSpace(c)
    decreases |s|
  {
    if s == "" then []
    else if IsSpace(s[0]) then Fields(s[1..])
    else
      var n := RunLength(s);
      [s[..n]] + Fields(s[n..])
  }

  function RunLength(s: string): (n: nat)
    ensures n <= |s|
    ensures s != "" && !IsSpace(s[0]) ==> n > 0
    ensures n < |s| ==> IsSpace(s[n])
    ensures forall i :: 0 <= i < n ==> !IsSpace(s[i])
  {
    if s == "" || IsSpace(s[0]) then 0 else 1 + RunLength(s[1..])
  }

  /** A scope list written with single blanks is read back as it was. */
  lemma {:induction false} FieldsReadBack(scopes: seq<string>)
    requires forall k :: 0 <= k < |scopes| ==> scopes[k] != "" && forall c :: c in scopes[k] ==> !IsSpace(c)
    ensures Fields(Join(' ', scopes)) == scopes
  {
    if scopes != [] {
      var head, rest := scopes[0], scopes[1..];
      FieldsReadBack(rest);
      assert scopes == [head] + rest;
      assert IsSpace(' ');
      hide IsSpace, Fields, Join;
      if rest == [] {
        assert Join(' ', scopes) == head + "" by {
          JoinCons(head, rest);
        }
        FieldsCons(head, "");
      } else {
        JoinCons(head, rest);
        FieldsCons(head, [' '] + Join(' ', rest));
        SkipBlank(Join(' ', rest));
      }
    }
  }

  lemma JoinCons(head: string, rest: seq<string>)
    ensures Join(' ', [head] + rest) == if rest == [] then head + "" else head + ([' '] + Join(' ', rest))
    ensures Join(' ', []) == ""
  {
    assert ([head] + rest)[1..] == rest && head + "" == head;
  }

  lemma SkipBlank(s: string)
    requires IsSpace(' ')
    ensures Fields([' '] + s) == Fields(s)
  {
    hide IsSpace;
    assert ([' '] + s)[1..] == s;
  }

  /** The first run of a text, and what follows it */
  lemma FieldsCons(head: string, tail: string)
    requires head != "" && (forall c :: c in head ==> !IsSpace(c)) && (tail != "" ==> IsSpace(tail[0]))
    ensures Fields(head + tail) == [head] + Fields(tail)
  {
    hide IsSpace;
    var text := head + tail;
    assert forall i :: 0 <= i < |head| ==> text[i] == head[i] && head[i] in head;
    assert tail != "" ==> text[|head|] == tail[0];
    assert RunLength(text) == |head|;
    assert text[..|head|] == head && text[|head|..] == tail;
  }

  /** The scopes a token carries; meaningful unless the claim is of another type. */
  function ScopesOf(t: Token): seq<string> {
    if t.scope.Str? then Fields(t.scope.text) else []
  }

  predicate Share(xs: seq<string>, ys: seq<string>) {
    exists x :: x in xs && x in ys
  }

  predicate Within(xs: seq<string>, ys: seq<string>) {
    forall x :: x in xs ==> x in ys
  }

  /** The two nested loops over audiences (pkg/middleware/auth.go:118-126). */
  method AudienceOk(aud: seq<string>, accepted: seq<string>) returns (ok: bool)
    ensures ok <==> Share(aud, accepted)
  {
    ok := false;
    for i := 0 to |aud|
      invariant ok <==> Share(aud[..i], accepted)
    {
      assert aud[..i + 1] == aud[..i] + [aud[i]];
      var found := false;
      for j := 0 to |accepted|
        invariant !found && aud[i] !in accepted[..j]
      {
        if aud[i] == accepted[j] {
          found := true;
          break;
        }
      }
      assert !found ==> accepted[..|accepted|] == accepted;
      ok := ok || found;
      assert found ==> aud[i] in aud[..i + 1] && aud[i] in accepted;
    }
    assert aud[..|aud|] == aud;
  }

  /** The allow-list set and the scan over the token's scopes
      (pkg/middleware/auth.go:150-159). */
  method MachineScopesOk(scopes: seq<string>, allowList: seq<string>) returns (ok: bool)
    ensures ok <==> Within(scopes, allowList)
  {
    var allowed: set<string> := {};
    for i := 0 to |allowList|
      invariant forall s :: s in allowed <==> s in allowList[..i]
    {
      allowed := allowed + {allowList[i]};
      assert allowList[..i + 1] == allowList[..i] + [allowList[i]];
    }
    assert allowList[..|allowList|] == allowList;
    for i := 0 to |scopes|
      invariant Within(scopes[..i], allowList)
    {
      if scopes[i] !in allowed {
        return false;
      }
      assert scopes[..i + 1] == scopes[..i] + [scopes[i]];
    }
    assert scopes[..|scopes|] == scopes;
    return true;
  }

  /** A rule on a scope the token holds asks for the token's own ACR. */
  predicate AcrMet(rules: map<string, string>, scopes: seq<string>, acr: string) {
    forall s :: s in scopes && s in rules && rules[s] != "" ==> rules[s] == acr
  }

  /** The loop over the rules, which Go visits in any order
      (pkg/middleware/auth.go:165-174). */
  method AcrOk(rules: map<string, string>, scopes: seq<string>, acr: string) returns (ok: bool)
    ensures ok <==> AcrMet(rules, scopes, acr)
  {
    var left := rules.Keys;
    while left != {}
      invariant left <= rules.Keys
      invariant forall s :: s in scopes && s in rules.Keys - left && rules[s] != "" ==> rules[s] == acr
      decreases |left|
    {
      var scope :| scope in left;
      if rules[scope] != "" {
        for i := 0 to |scopes|
          invariant scope in scopes[..i] ==> rules[scope] == acr
        {
          if scopes[i] == scope && acr != rules[scope] {
            assert scopes[i] in scopes;
            return false;
          }
          assert scopes[..i + 1] == scopes[..i] + [scopes[i]];
        }
        assert scopes[..|scopes|] == scopes;
      }
      left := left - {scope};
    }
    return true;
  }

  /** An empty requirement is always met; otherwise the lists must share a scope. */
  method HasAnyScope(ctx: Context, required: seq<string>) returns (ok: bool)
    ensures ok <==> required == [] || Share(ctx.scopes, required)
  {
    if |required| == 0 {
      return true;
    }
    if |ctx.scopes| == 0 {
      return false;
    }
    var held: set<string> := {};
    for i := 0 to |ctx.scopes|
      invariant forall s :: s in held <==> s in ctx.scopes[..i]
    {
      held := held + {ctx.scopes[i]};
      assert ctx.scopes[..i + 1] == ctx.scopes[..i] + [ctx.scopes[i]];
    }
    assert ctx.scopes[..|ctx.scopes|] == ctx.scopes;
    for i := 0 to |required|
      invariant !Share(ctx.scopes, required[..i])
    {
      if required[i] in held {
        return true;
      }
      assert required[..i + 1] == required[..i] + [required[i]];
    }
    assert required[..|required|] == required;
    return false;
  }

  // ---------------------------------------------------------------- JWTAuth

  /** Health, metrics and well-known paths skip the middleware. */
  predicate PublicPath(path: string) {
    path == "/healthz" || path == "/metrics" || "/.well-known/" <= path
  }

  predicate DevBypass(cfg: Config, req: Request) {
    cfg.env == "dev" && TrimSpace(req.authz) == ""
  }

  function IssuerOf(cfg: Config, tenant: Tenant): string {
    var own := TrimRight(IsSlash, tenant.issuer);
    if own == "" then TrimRight(IsSlash, cfg.issuer) else own
  }

  function KeyURL(cfg: Config, tenant: Tenant): string {
    if tenant.jwksURL == "" then cfg.jwksURL else tenant.jwksURL
  }

  function Accepted(cfg: Config, tenant: Tenant): seq<string> {
    if tenant.audiences == [] && cfg.audience != "" then [cfg.audience] else tenant.audiences
  }

  predicate HasBearer(authz: string): (b: bool)
    ensures b ==> |authz| >= 7
  {
    "bearer " <= Lower(authz)
  }

  /** The token of a request that gets as far as a verified one. */
  function TokenOf(cfg: Config, tenant: Tenant, keys: Keys, parse: Parser, req: Request): Option<Token> {
    var issuer, url, accepted := IssuerOf(cfg, tenant), KeyURL(cfg, tenant), Accepted(cfg, tenant);
    if issuer == "" || url == "" || !keys(url) || !HasBearer(req.authz) then None
    else parse(issuer, url, if |accepted| == 1 then Some(accepted[0]) else None, TrimSpace(req.authz[7..]))
  }

  /** What the tenant asks of a verified token. */
  ghost predicate Admissible(cfg: Config, tenant: Tenant, t: Token) {
    && (|Accepted(cfg, tenant)| > 1 ==> Share(t.aud, Accepted(cfg, tenant)))
    && (t.tid.AsString() != "" && tenant.id != "" ==> t.tid.AsString() == tenant.id)
    && !t.scope.Other?
    && (t.gty == Str("client_credentials") && tenant.machineScopes != [] ==>
          Within(ScopesOf(t), tenant.machineScopes))
    && (!t.acr.Missing? ==> AcrMet(tenant.acrByScope, ScopesOf(t), t.acr.AsString()))
  }

  /** Some rule is on a scope that the token holds. */
  predicate Guarded(rules: map<string, string>, scopes: seq<string>) {
    exists s :: s in scopes && s in rules && rules[s] != ""
  }

  /** A token that passes meets the tenant's ACR rules exactly when it carries the claim, or none of the
      rules is on a scope it holds: without the claim the rules are not looked at. */
  lemma AcrEnforcedIff(cfg: Config, tenant: Tenant, t: Token)
    requires Admissible(cfg, tenant, t)
    ensures AcrMet(tenant.acrByScope, ScopesOf(t), t.acr.AsString()) <==>
            !t.acr.Missing? || !Guarded(tenant.acrByScope, ScopesOf(t))
  {
    hide Fields;
  }

  /** A token with a guarded scope and no ACR passes. */
  lemma TokenWithoutAcrPasses()
    ensures var tenant := Tenant("", "", "", [], [], map["pay" := "high"]);
            var t := Token([], Missing, Str("pay"), Missing, Missing);
            && Admissible(Config("", "", "", ""), tenant, t)
            && !AcrMet(tenant.acrByScope, ScopesOf(t), t.acr.AsString())
  {
    assert forall i :: 0 <= i < 3 ==> !IsSpace("pay"[i]);
    hide IsSpace;
    FieldsReadBack(["pay"]);
    assert "pay" in ScopesOf(Token([], Missing, Str("pay"), Missing, Missing));
  }

  /** The context with which the wrapped handler is called, if it is. */
  ghost function Admitted(cfg: Config, tenant: Tenant, keys: Keys, parse: Parser, req: Request): Option<Context> {
    if PublicPath(req.path) || DevBypass(cfg, req) then Some(ANONYMOUS)
    else match TokenOf(cfg, tenant, keys, parse, req)
      case None => None
      case Some(t) => if Admissible(cfg, tenant, t) then Some(Context(ScopesOf(t), Some(t))) else None
  }

  /** What a verified token comes to: the checks in their order, each with its own refusal. */
  ghost function Judgement(tenant: Tenant, accepted: seq<string>, t: Token): Outcome {
    if |accepted| > 1 && forall a :: a in t.aud ==> a !in accepted then Refused(401, "aud_invalid")
    else if t.tid.Str? && t.tid.text != "" && tenant.id != "" && t.tid.text != tenant.id then
      Refused(403, "tenant_mismatch")
    else if t.scope.Other? then Panicked
    else
      var scopes := if t.scope.Str? then Fields(t.scope.text) else [];
      if t.gty == Str("client_credentials") && tenant.machineScopes != []
         && exists s :: s in scopes && s !in tenant.machineScopes then
        Refused(403, "scope_not_allowed_machine")
      else if !t.acr.Missing? && exists s ::
           && s in scopes && s in tenant.acrByScope && tenant.acrByScope[s] != ""
           && t.acr != Str(tenant.acrByScope[s]) then
        Refused(403, "acr_required")
      else Passed(Context(scopes, Some(t)))
  }

  /** A token passes exactly when it shares an audience with the tenant, or with the configured one where
      the tenant has none, as far as more than one is accepted; belongs to the tenant, as far as both
      are named; has a textual scope claim or none; keeps to the allow-list, for a machine; and has the
      ACR that each rule on one of its scopes asks for, if it has any.  It then passes with its scopes. */
  lemma PassesExactly(cfg: Config, tenant: Tenant, t: Token)
    ensures var scopes := if t.scope.Str? then Fields(t.scope.text) else [];
            var out := Judgement(tenant, Accepted(cfg, tenant), t);
            && (out.Passed? <==> Admissible(cfg, tenant, t))
            && (out.Passed? ==> out.ctx.scopes == scopes && out.ctx.token == Some(t))
            && (out.Passed? <==>
                  && (|tenant.audiences| > 1 ==> exists a :: a in t.aud && a in tenant.audiences)
                  && (t.tid.Str? && t.tid.text != "" && tenant.id != "" ==> t.tid.text == tenant.id)
                  && !t.scope.Other?
                  && (t.gty == Str("client_credentials") && tenant.machineScopes != [] ==>
                        forall s :: s in scopes ==> s in tenant.machineScopes)
                  && (forall s :: s in scopes && s in tenant.acrByScope && tenant.acrByScope[s] != "" ==>
                        t.acr.Missing? || t.acr == Str(tenant.acrByScope[s])))
  {
    hide Fields;
  }

  /** The part of the middleware after the token is verified
      (pkg/middleware/auth.go:117-181). */
  method JudgeToken(cfg: Config, tenant: Tenant, accepted: seq<string>, jt: Token) returns (out: Outcome)
    requires accepted == Accepted(cfg, tenant)
    ensures out.Passed? <==> Admissible(cfg, tenant, jt)
    ensures out == Judgement(tenant, accepted, jt)
  {
    hide Fields;
    if |accepted| > 1 {
      var okAud := AudienceOk(jt.aud, accepted);
      if !okAud {
        return Refused(401, "aud_invalid");
      }
    }
    if !jt.tid.Missing? {
      var ts := jt.tid.AsString();
      if ts != "" && tenant.id != "" && ts != tenant.id {
        return Refused(403, "tenant_mismatch");
      }
    }
    var scopes: seq<string> := [];
    if !jt.scope.Missing? {
      if jt.scope.Other? {
        return Panicked;
      }
      scopes := scopes + Fields(jt.scope.text);
    }
    assert scopes == ScopesOf(jt);
    var grantType := "";
    if !jt.gty.Missing? {
      grantType := jt.gty.AsString();
    }
    if grantType == "client_credentials" && |tenant.machineScopes| > 0 {
      var allowed := MachineScopesOk(scopes, tenant.machineScopes);
      if !allowed {
        return Refused(403, "scope_not_allowed_machine");
      }
    }
    if |tenant.acrByScope| > 0 {
      if !jt.acr.Missing? {
        var met := AcrOk(tenant.acrByScope, scopes, jt.acr.AsString());
        if !met {
          return Refused(403, "acr_required");
        }
      }
    }
    return Passed(Context(scopes, Some(jt)));
  }

  lemma MismatchRefused(cfg: Config, tenant: Tenant, t: Token)
    requires t.tid.Str? && t.tid.text != "" && tenant.id != "" && t.tid.text != tenant.id
    ensures var out := Judgement(tenant, Accepted(cfg, tenant), t);
            out == Refused(403, "tenant_mismatch") || (out == Refused(401, "aud_invalid") && |tenant.audiences| > 1)
  {
  }

  /** Exempt are health, metrics and well-known paths, and in development a blank or absent header. */
  lemma ExemptExactly(cfg: Config, req: Request)
    ensures PublicPath(req.path) || DevBypass(cfg, req) <==>
            || req.path == "/healthz" || req.path == "/metrics" || "/.well-known/" <= req.path
            || (cfg.env == "dev" && forall i :: 0 <= i < |req.authz| ==> req.authz[i] in SPACES)
  {
    BlankIff(req.authz);
    hide TrimSpace, SPACES;
  }

  lemma BearerExactly(authz: string)
    ensures HasBearer(authz) <==>
            |authz| >= 7 && forall i :: 0 <= i < 7 ==> authz[i] == "bearer "[i] || authz[i] == "BEARER "[i]
  {
    var l := Lower(authz);
    if |authz| >= 7 {
      assert l[..7] == "bearer " <==> forall i :: 0 <= i < 7 ==> l[i] == "bearer "[i];
    }
  }

  /** The token of a request is what its header holds after the scheme, blanks aside, verified against
      the tenant's own issuer and key set, or the configured ones where the tenant has none, and against
      the one audience accepted, if it is one. */
  lemma TokenExactly(cfg: Config, tenant: Tenant, keys: Keys, parse: Parser, req: Request,
                     scheme: string, pre: string, raw: string, post: string,
                     own: string, ownSlashes: string, common: string, commonSlashes: string)
    requires req.authz == scheme + (pre + raw + post)
    requires |scheme| == 7 && forall i :: 0 <= i < 7 ==> scheme[i] == "bearer "[i] || scheme[i] == "BEARER "[i]
    requires (forall c :: c in pre ==> c in SPACES) && (forall c :: c in post ==> c in SPACES)
    requires raw != "" ==> raw[0] !in SPACES && raw[|raw| - 1] !in SPACES
    requires tenant.issuer == own + ownSlashes && (own != "" ==> own[|own| - 1] != '/')
    requires cfg.issuer == common + commonSlashes && (common != "" ==> common[|common| - 1] != '/')
    requires forall i :: 0 <= i < |ownSlashes| ==> ownSlashes[i] == '/'
    requires forall i :: 0 <= i < |commonSlashes| ==> commonSlashes[i] == '/'
    ensures var issuer := if own != "" then own else common;
            var url := if tenant.jwksURL != "" then tenant.jwksURL else cfg.jwksURL;
            var audience := if |tenant.audiences| == 1 then Some(tenant.audiences[0])
                            else if tenant.audiences == [] && cfg.audience != "" then Some(cfg.audience) else None;
            TokenOf(cfg, tenant, keys, parse, req)
            == if issuer == "" || url == "" || !keys(url) then None else parse(issuer, url, audience, raw)
  {
    BearerExactly(req.authz);
    TrimSpaceStrips(pre, raw, post);
    assert req.authz[7..] == pre + raw + post;
    hide HasBearer, TrimSpace;
    StripRight(IsSlash, own, ownSlashes);
    StripRight(IsSlash, common, commonSlashes);
  }

  /** The middleware lets a request through exactly when `Admitted` gives a context, and hands that
      context on.  Without a token only exempt requests pass; a token that passes names no other tenant
      and shares an audience, where more than one is accepted. */
  method JWTAuth(cfg: Config, tenant: Tenant, keys: Keys, parse: Parser, req: Request) returns (out: Outcome)
    ensures out.Passed? <==> Admitted(cfg, tenant, keys, parse, req).Some?
    ensures out.Passed? ==> Admitted(cfg, tenant, keys, parse, req) == Some(out.ctx)
    ensures out == if PublicPath(req.path) || DevBypass(cfg, req) then Passed(Context([], None))
                   else match TokenOf(cfg, tenant, keys, parse, req)
                     case Some(t) => Judgement(tenant, Accepted(cfg, tenant), t)
                     case None =>
                       var url := KeyURL(cfg, tenant);
                       if IssuerOf(cfg, tenant) == "" || url == "" then Refused(500, "auth not configured")
                       else if !keys(url) then Refused(500, "jwks fetch failed")
                       else if !HasBearer(req.authz) then Refused(401, "missing bearer")
                       else Refused(401, "invalid token")
    ensures out.Passed? && out.ctx.token.Some? ==>
              var t := out.ctx.token.value;
              && (t.tid.Str? && t.tid.text != "" && tenant.id != "" ==> t.tid.text == tenant.id)
              && (|tenant.audiences| > 1 ==> exists a :: a in t.aud && a in tenant.audiences)
    ensures !PublicPath(req.path) && !DevBypass(cfg, req) ==>
              match TokenOf(cfg, tenant, keys, parse, req)
              case None => out.Refused?
              case Some(t) =>
                t.tid.Str? && t.tid.text != "" && tenant.id != "" && t.tid.text != tenant.id ==>
                  out == Refused(403, "tenant_mismatch") || (out == Refused(401, "aud_invalid") && |tenant.audiences| > 1)
  {
    ghost var verified := TokenOf(cfg, tenant, keys, parse, req);
    if verified.Some? {
      PassesExactly(cfg, tenant, verified.value);
      var t := verified.value;
      if t.tid.Str? && t.tid.text != "" && tenant.id != "" && t.tid.text != tenant.id {
        MismatchRefused(cfg, tenant, t);
      }
    }
    hide Admissible, TrimRight, TrimSpace, Lower, Judgement;
    if req.path == "/healthz" || req.path == "/metrics" {
      return Passed(ANONYMOUS);
    }
    if "/.well-known/" <= req.path {
      return Passed(ANONYMOUS);
    }
    var issuer := TrimRight(IsSlash, tenant.issuer);
    var jwksURL := tenant.jwksURL;
    if issuer == "" {
      issuer := TrimRight(IsSlash, cfg.issuer);
    }
    if jwksURL == "" {
      jwksURL := cfg.jwksURL;
    }
    assert issuer == IssuerOf(cfg, tenant) && jwksURL == KeyURL(cfg, tenant);
    if cfg.env == "dev" && TrimSpace(req.authz) == "" {
      return Passed(ANONYMOUS);
    }
    if issuer == "" || jwksURL == "" {
      return Refused(500, "auth not configured");
    }
    if !keys(jwksURL) {
      return Refused(500, "jwks fetch failed");
    }
    if !HasBearer(req.authz) {
      return Refused(401, "missing bearer");
    }
    var raw := TrimSpace(req.authz[7..]);
    var accepted := tenant.audiences;
    if |accepted| == 0 && cfg.audience != "" {
      accepted := [cfg.audience];
    }
    var only := None;
    if |accepted| == 1 {
      only := Some(accepted[0]);
    }
    var parsed := parse(issuer, jwksURL, only, raw);
    assert parsed == TokenOf(cfg, tenant, keys, parse, req);
    if parsed.None? {
      return Refused(401, "invalid token");
    }
    out := JudgeToken(cfg, tenant, accepted, parsed.value);
  }

  // ---------------------------------------------------------------- canonical operations

  datatype Operation = Operation(id: string, verb: string, path: string, scopes: seq<string>, userOnly: bool)

  const CANONICAL_OPS: seq<Operation> := [
    Operation("orders.locate", "GET", "/v1/orders/locate", ["orders:read"], false),
    Operation("orders.status", "GET", "/v1/orders/{rail}/{id}/status", ["orders:read"], false),
    Operation("orders.cancel", "POST", "/v1/orders/{rail}/{id}/cancel", ["orders:cancel"], true),
    Operation("refunds.request", "POST", "/v1/orders/{rail}/{id}/refund", ["refunds:request"], true),
    Operation("reorder.link", "POST", "/v1/reorder", ["reorder:create"], false)]

  function GrantTypeFrom(ctx: Context): string {
    if ctx.token.Some? then ctx.token.value.gty.AsString() else ""
  }

  /** Both guards of a canonical operation let the context through. */
  predicate Reaches(op: Operation, ctx: Context) {
    && (op.scopes == [] || Share(ctx.scopes, op.scopes))
    && !(op.userOnly && GrantTypeFrom(ctx) == "client_credentials")
  }

  /** The guards as the handler runs them; None stands for its body. */
  method CanonicalGuards(op: Operation, ctx: Context) returns (refused: Option<string>)
    ensures refused.None? <==> Reaches(op, ctx)
    ensures refused == Some("grant_not_allowed") ==>
              op.userOnly && ctx.token.Some? && ctx.token.value.gty == Str("client_credentials")
  {
    var scoped := HasAnyScope(ctx, op.scopes);
    if !scoped {
      return Some("insufficient_scope");
    }
    if op.userOnly {
      if GrantTypeFrom(ctx) == "client_credentials" {
        return Some("grant_not_allowed");
      }
    }
    return None;
  }

  /** The whole way of a request to the body of an operation. */
  ghost predicate Arrives(cfg: Config, tenant: Tenant, keys: Keys, parse: Parser, req: Request, op: Operation) {
    var ctx := Admitted(cfg, tenant, keys, parse, req);
    ctx.Some? && Reaches(op, ctx.value)
  }

  /** A request arrives at a canonical operation exactly when it skips no check, its
      token is verified and admissible, some scope of the token is one the operation
      lists, and a user-only operation is not asked for by a machine. */
  lemma ArrivesIff(cfg: Config, tenant: Tenant, keys: Keys, parse: Parser, req: Request, op: Operation)
    requires op in CANONICAL_OPS
    ensures Arrives(cfg, tenant, keys, parse, req, op) <==>
              && !PublicPath(req.path) && !DevBypass(cfg, req)
              && exists t :: TokenOf(cfg, tenant, keys, parse, req) == Some(t)
                             && Admissible(cfg, tenant, t)
                             && Share(ScopesOf(t), op.scopes)
                             && !(op.userOnly && t.gty == Str("client_credentials"))
  {
    assert op.scopes != [];
    assert !Share(ANONYMOUS.scopes, op.scopes);
  }

  /** What each canonical operation asks for */
  lemma OperationsAsk(op: Operation)
    requires op in CANONICAL_OPS
    ensures op.id == "orders.locate" || op.id == "orders.status" ==> op.scopes == ["orders:read"]
    ensures op.id == "orders.cancel" ==> op.scopes == ["orders:cancel"]
    ensures op.id == "refunds.request" ==> op.scopes == ["refunds:request"]
    ensures op.id == "reorder.link" ==> op.scopes == ["reorder:create"]
    ensures op.userOnly <==> op.id == "orders.cancel" || op.id == "refunds.request"
    ensures op.id == "orders.locate" || op.id == "orders.status" || op.userOnly || op.id == "reorder.link"
  {
    var i :| 0 <= i < |CANONICAL_OPS| && CANONICAL_OPS[i] == op;
    assert i in {0, 1, 2, 3, 4};
  }

  /** Every request that arrives at a canonical operation carries a verified token of this tenant, for
      one of its audiences, with the operation's own scope; a cancellation or refund is not asked for
      by a machine, and a machine keeps to the tenant's allow-list. */
  lemma ArrivalMeets(cfg: Config, tenant: Tenant, keys: Keys, parse: Parser, req: Request, op: Operation)
    returns (t: Token)
    requires op in CANONICAL_OPS && Arrives(cfg, tenant, keys, parse, req, op)
    ensures TokenOf(cfg, tenant, keys, parse, req) == Some(t) && t.scope.Str?
    ensures t.tid.Str? && t.tid.text != "" && tenant.id != "" ==> t.tid.text == tenant.id
    ensures |tenant.audiences| > 1 ==> exists a :: a in t.aud && a in tenant.audiences
    ensures exists s :: s in op.scopes && s in Fields(t.scope.text)
    ensures t.gty == Str("client_credentials") ==>
              && op.id != "orders.cancel" && op.id != "refunds.request"
              && (tenant.machineScopes != [] ==> forall s :: s in Fields(t.scope.text) ==> s in tenant.machineScopes)
  {
    hide Fields, TokenOf;
    ArrivesIff(cfg, tenant, keys, parse, req, op);
    OperationsAsk(op);
    t := TokenOf(cfg, tenant, keys, parse, req).value;
    PassesExactly(cfg, tenant, t);
    hide Judgement, Admissible, Arrives;
  }

  /** Machine tokens end to end. */
  lemma {:induction false} MachineArrivals(
    cfg: Config, tenant: Tenant, keys: Keys, parse: Parser, req: Request, op: Operation, t: Token)
    requires op in CANONICAL_OPS && tenant.machineScopes != []
    requires TokenOf(cfg, tenant, keys, parse, req) == Some(t) && t.gty == Str("client_credentials")
    requires Arrives(cfg, tenant, keys, parse, req, op)
    ensures exists s :: s in ScopesOf(t) && s in op.scopes && s in tenant.machineScopes
    ensures !op.userOnly
  {
    hide Fields, TokenOf, Admitted;
    ArrivesIff(cfg, tenant, keys, parse, req, op);
    hide Arrives;
    var s :| s in ScopesOf(t) && s in op.scopes;
    assert s in tenant.machineScopes;
  }

  /** A dev request without a token, and a request on a public path, reach no
      canonical operation. */
  lemma {:induction false} WithoutTokenNoArrival(
    cfg: Config, tenant: Tenant, keys: Keys, parse: Parser, req: Request, op: Operation)
    requires op in CANONICAL_OPS
    requires DevBypass(cfg, req) || PublicPath(req.path)
    ensures Admitted(cfg, tenant, keys, parse, req).Some?
    ensures !Arrives(cfg, tenant, keys, parse, req, op)
  {
    ArrivesIff(cfg, tenant, keys, parse, req, op);
  }
}
