# Lamdis Core: a verified model

Lamdis Core decides whether an agent may run an action and later runs it. This project models the
parts of it whose correctness spans several functions or several requests, and proves what they
guarantee.

- **Two-phase decisions** (`Facts`, `FactMeanings`, `Binding`, `PolicyVersions`, `PolicySteps`, `Decisions`,
  `Protocol`, `ProtocolRuns`, `ProtocolWitness`, `Judgements`, `Service`). Preflight resolves facts, evaluates the published policy and stores a
  decision with a binding hash and an expiry; execute resolves the facts again and acts only if the
  hash still matches. The handlers are split into their database-visible steps, which interleave
  with drafts, publishes, edits of resolvers and mappings, the admin test route, other requests and
  the clock. `ProtocolRuns.NothingRunsUnbound` is the safety half,
  `ProtocolRuns.UndisturbedDecisionIsAccepted` the completeness half, and
  `Judgements.NothingRunsUnjudged` leads every execution back to the policy that judged it.
- **Action keys** (`Naming`, `ActionKeys`). The manifest prints a key from a connector kind and a
  path, the orchestrator parses it and searches the operation rows. The normaliser is written twice;
  both forms are proved equal to a one-pass reference.
- **Request templates** (`Scan`, `Template`, `PathEscape`, `Url`, `Generator`, `PathParams`). The admin console
  generates a template, the orchestrator expands it. Expansion is one pass, substitution keeps the
  structure of the URL, and generator and executor agree.
- **Concurrent caches** (`JwksCache`, `RegistryCache`), the **DPoP replay window** (`Dpop`),
  **cursor pagination** (`Pagination`) and the **token and scope guards** (`Access`).

`Text`, `Json`, `Bytes` and `Clock` hold what the others share.

## How it is modelled

A table of one tenant is a sequence, set or map. A concurrent protocol is a step function over a
state, and a run is a sequence of events with the states between them; lemmas about runs quantify
over every run from an initial state. Loops of the source are methods with loops, proved equal to a
function that lemmas can talk about; objects whose fields the source updates are classes
(`PolicySteps.VersionTable`, `Service.PolicyService`, `JwksCache.Cache`,
`RegistryCache.Registry`).

Library code is a parameter: Rego, JMESPath, `json.Marshal`, `%v` printing, `strconv.ParseFloat`,
key fetching and token parsing are arbitrary functions. Three assumptions on them appear as
preconditions where they are needed: no two texts collide under SHA-256
(`Binding.IdealHash`; `Binding.IdealHashIsPossible` shows that this can be met), `%v` prints a string
as itself (`Json.PrintsText`), and `null` and `{}` encode to different bytes
(`Decisions.FailedFactsDoNotBindEmptyFacts`).

Where the code does less than its documentation or its callers suggest, the code is followed and the
exact condition is proved:

- The manifest does not split camel case in a path segment and the orchestrator does, and two
  operations of one connector can share a key. A key leads back to its own row exactly when its
  segment has no camel-case boundary and no earlier row of the namespace goes by the same short name,
  or when it has one, no row goes by the printed name, and the row is the namespace's first
  (`ActionKeys.OwnKeyFindsRow`). `ActionKeys.CamelKeyRunsAnotherOperation` and
  `ActionKeys.SharedKeyRunsFirst` are inputs for which another operation is selected.
- A connector whose kind slugs to nothing gets keys in the tenant's own namespace, which splitting
  recovers exactly when it has no dot (`ActionKeys.TenantKeyRoundTrip`).
- A policy query that fails is taken for the absence of a policy, so the action is allowed while it
  fails (`Judgements.JudgedAllowsIff`, `Decisions.FailedQueryAllows`).
- A draft without a number gets its number in one statement and is inserted in another. It overwrites
  an existing version exactly when the number was taken when it was read, because the next one could
  not be read or does not fit the column and version 1 exists, or when another draft with that number
  was stored in between (`PolicySteps.AutomaticDraftOverwritesIff`). An insert that carries the number
  of the version active at that moment leaves the action without a policy, exactly then
  (`PolicySteps.InsertDropsActiveIff`), and the action is allowed by default
  (`Decisions.OverwrittenPolicyAllows`). `PolicySteps.StaleNumberDropsPolicy` is such a run for every
  table; when creates run one at a time, such a draft can only displace version 1
  (`PolicyVersions.OneAtATimeDropsActiveIff`).
- Publishing trims the action key and creating does not, so a draft that is created and published
  under its own key becomes active exactly when the key has no outer blanks
  (`PolicyVersions.PublishedDraftActiveIff`, `PolicyVersions.PaddedDraftStaysInactive`).
- Publishing a version that does not exist leaves the action with no published version
  (`PolicyVersions.PublishIsExact`).
- A `ttl_seconds` beyond 9223372036 wraps around in the int64 nanosecond product
  (`Decisions.LifetimeExactIff`).
- Decisions that share a second with a page's last row are skipped by the next page
  (`Pagination.OmittedExactly`); every page size lists the whole table exactly when no two decisions
  share a second (`Pagination.EveryPageSizeListsAllIff`).
- The console edits the first path parameter of a placeholder while the generator uses the last one
  (`PathParams.EditedSource`, `PathParams.ShadowedEditHasNoEffect`).
- ACR rules are not looked at when a token has no `acr` claim (`Access.AcrEnforcedIff`,
  `Access.TokenWithoutAcrPasses`).
- A DPoP proof can be used twice when clock skew and request delay together reach three minutes
  (`Dpop.ProofUsedOnceIff`).

## Model

| member | source | states |
|---|---|---|
| `ProtocolRuns.NothingRunsUnbound` | internal/policy/http.go:65-94 | in every run, each time the execute route reaches the orchestrator, an earlier step stored a decision with that id, for the same action, with an allowing status, not expired when it was checked, whose stored bytes are those the inputs and the facts just resolved again encode to |
| `ProtocolRuns.UndisturbedDecisionIsAccepted` | internal/policy/service.go:158-188 | an allowing, unexpired decision passes both the check and the binding when the inputs are the same, no query fails, and the action's rows are the same as sets at both reads of the resolvers and at both reads of the mappings, with distinct keys and no clocked transform, whatever else happens in between and in whatever order rows are read |
| `Judgements.NothingRunsUnjudged` | internal/policy/http.go:21-94 | in every run, each execution was allowed by an earlier evaluation of the same action over the same bytes, and was checked no later than that evaluation plus the 15 minutes, 5 minutes or asked-for seconds its decision lasts |
| `Judgements.JudgedAllowsIff` | internal/policy/service.go:44-100 | the evaluation of a request allows its action if and only if one of those three holds at that step |
| `Judgements.StoredWasJudged` | internal/policy/http.go:30-44 | every stored row records the decision of an earlier evaluation, field by field, and expires when that decision has lasted its time, cut to a microsecond |
| `ProtocolRuns.ExpiredForever` | internal/policy/service.go:168-179 | once a decision is refused as expired, every later check of it in the run refuses it as expired, or as unknown when the query fails |
| `ProtocolRuns.PhasesExplained` | internal/policy/http.go:65-94 | a request that is checked, reloading or bound got there by its own earlier steps, in that order, with the facts resolved at the bind from the resolvers loaded before it |
| `ProtocolRuns.DecisionsPersisted` | internal/policy/http.go:42-44 | every decision in the table was put there by an earlier preflight or test step |
| `ProtocolRuns.BoundIsBacked` | internal/policy/service.go:158-188 | a request that passed validation rests on a stored decision, a check, a load and a binding at four earlier steps in that order |
| `ProtocolRuns.AskStores` | internal/policy/http.go:21-64 | across any interleaving, a preflight or test request stores its decision unless a preflight is asked for input; the row has its action, the bytes of its inputs and facts, the version and status of the decision the policy in force then makes, the hash of the written-out text, and an expiry at most a microsecond below the time of the evaluation plus 15 minutes, 5 minutes or the seconds the policy asks for, and never above it |
| `ProtocolRuns.FactsFromMean` | internal/facts/engine.go:71-101 | the facts of a request are null exactly when a query or a required mapping fails, and each fact is what its mapping's transform makes of what its path finds among inputs and samples |
| `ProtocolRuns.SameFacts` | internal/facts/engine.go:71-101 | two resolutions at different times over the same rows, read in any order, give the same facts |
| `ProtocolRuns.QuietKeepsPhase` | internal/policy/http.go:20-95 | what other requests do never changes how far a request has come |
| `ProtocolWitness.PlainRun` | internal/policy/http.go:20-95 | for every action and inputs there is a run that meets all hypotheses of the completeness result and goes on to execute |
| `Protocol.InvAlways` | internal/policy/service.go:105-121 | every reachable state has well-formed decision rows with non-empty matching hashes, justified requests and executions, and at most one published version per action |
| `Protocol.StepKeepsInv` | internal/policy/http.go:20-95 | each of the eleven kinds of step keeps that invariant |
| `Protocol.GrowsAlways` | internal/policy/service.go:112-115 | along a run no stored decision is rewritten or removed and the clock does not go back |
| `Service.PolicyService.Preflight` | internal/policy/http.go:21-64 | the handler's effect on the tables is its four protocol steps in sequence; it asks for input exactly on NEEDS_INPUT and then stores nothing, and otherwise answers with the status of the decision, and with a decision id exactly when that allows |
| `Service.PolicyService.Execute` | internal/policy/http.go:65-94 | the handler's effect is its check, load, bind and run steps in sequence; it adds one execution exactly when it answers with one, asks for a preflight exactly without an id, and otherwise gives the first reason to refuse |
| `Decisions.EveryDecisionExpires` | internal/policy/service.go:42-102 | every decision has the action, inputs and facts it was asked for, the version of its policy (0 without one) and an expiry: the seconds the policy asks for when positive, as int64 nanoseconds; 5 minutes when it fails; else 15 minutes |
| `Decisions.AllowedExactly` | internal/policy/service.go:52-100 | each status exactly: ALLOW when no policy governs the action, the answer is not an object, or its status says so; ALLOW_WITH_CONDITIONS and NEEDS_INPUT when it says so; and BLOCKED otherwise |
| `Decisions.CheckExactly` | internal/policy/service.go:158-179 | which of the five answers the first checks of a stored decision give, for every row, action and time: unknown, another action, not allowing, past its expiry, or in order |
| `Decisions.RowRecords` | internal/policy/service.go:105-121 | the stored row has the decision's fields encoded, the SHA-256 text of hex inputs, hex facts and decimal version, and the expiry cut to whole microseconds |
| `Decisions.FailedQueryAllows` | internal/policy/service.go:47-58 | a published policy that blocks the action, which is nevertheless allowed while the policy query fails |
| `Decisions.OverwrittenPolicyAllows` | internal/policy/service.go:52-58 | a published version 1, overwritten by a draft whose number could not be read: the action is then allowed by default |
| `Decisions.LifetimeExactIff` | internal/policy/service.go:89-91 | the nanosecond product equals the whole seconds exactly for lifetimes below 9223372037 seconds |
| `Decisions.LifetimeWraps` | internal/policy/service.go:89-91 | a lifetime of 9223372037 seconds expires in the past |
| `Decisions.BindIffSameBytes` | internal/policy/service.go:180-186 | a stored decision binds a request if and only if inputs and facts encode to the stored bytes; the test for an empty hash lets nothing else through |
| `Decisions.FailedFactsDoNotBindEmptyFacts` | internal/policy/service.go:180-186 | a decision made on facts that could not be resolved is refused when the facts later resolve to none, and accepted when they fail again |
| `Binding.PreimageRoundTrip` | internal/policy/service.go:109-111 | the hashed text can be parsed back to exactly the inputs' bytes, the facts' bytes and the version, for all byte strings and integers |
| `Binding.HashBinds` | internal/policy/service.go:109-111 | two binding hashes are equal if and only if inputs, facts and version are; a hash is never empty |
| `Binding.IdealHashIsPossible` | internal/policy/service.go:109-111 | some function on texts never collides and never gives an empty digest, so the assumption about the hash is consistent |
| `Facts.ResolveFacts` | internal/facts/engine.go:71-101 | the two loops compute the facts that `FactMeanings.FactsThere` and `FactMeanings.FactsMean` describe |
| `FactMeanings.FactsThere` | internal/facts/engine.go:79-99 | facts are null exactly when a required mapping fails; otherwise a key is there exactly when some mapping with it does not fail, so an optional one that fails leaves nothing |
| `FactMeanings.FactsMean` | internal/facts/engine.go:79-99 | each fact is what the last mapping of its key that does not fail yields: the length of the list found under `count`, the additive sum under `sum`, its first element under `first`, not null under `exists`, the predicate of some or all elements under `any` and `all`, the first non-zero argument under `coalesce`, the number or text under `to_number` and `to_string`, and the value itself under any other name |
| `FactMeanings.DocumentComposes` | internal/facts/engine.go:71-78 | the paths are searched in an object of exactly the inputs and, under each resolver name, the sample of the last resolver of that name |
| `FactMeanings.TransformYields` | internal/facts/engine.go:145-251 | what every transform makes of every value, and that `days_between` alone can fail |
| `FactMeanings.SumAdds` | internal/facts/engine.go:152-160 | the sum of two lists put together is the sum of their sums |
| `FactMeanings.ZeroIff` | internal/facts/engine.go:282-300 | what `coalesce` passes over: null, blank texts, 0, empty lists and empty objects, and nothing else |
| `FactMeanings.PredicateHolds` | internal/facts/engine.go:315-328 | `field == 'value'`, in either quotes and with or without blanks, holds exactly of an object whose field prints as the value |
| `Facts.ResolvedOrderFree` | internal/facts/engine.go:71-101 | with distinct keys and no clocked transform, facts depend on the rows only as sets and not on the time; a failing required mapping gives null in every order |
| `Facts.FactsOrderFreeIff` | internal/facts/engine.go:79-99 | facts are the same in every order of the mappings if and only if a required mapping fails or no two mappings give one fact key different values |
| `Facts.OrderFreeIffConsistent` | internal/facts/engine.go:73-99 | a map filled by successive writes is independent of their order if and only if no two writes conflict |
| `Facts.AnyOf` | internal/facts/engine.go:182-192 | true exactly when some element satisfies the predicate |
| `Facts.AllOf` | internal/facts/engine.go:198-211 | true exactly when there are elements and all satisfy the predicate |
| `Facts.Coalesce` | internal/facts/engine.go:239-247 | the first argument that is not zero, else the value |
| `Facts.UnclockedValue` | internal/facts/engine.go:79-99 | a mapping without `now` or `days_between` reads the same value at every time |
| `PolicySteps.EveryRunKeepsInv` | internal/adminapi/handlers_policies.go:102-171 | from the empty table every interleaving of creates, in two statements each, and publishes keeps version numbers unique and at most one published version per action |
| `PolicySteps.StepKeepsInv` | internal/adminapi/handlers_policies.go:116-161 | each statement keeps that invariant |
| `PolicyVersions.ApplyKeepsInv` | internal/adminapi/handlers_policies.go:102-171 | one whole create or publish keeps that invariant |
| `PolicyVersions.PublishIsExact` | internal/adminapi/handlers_policies.go:137-171 | for every key and version: a blank key or a version beyond the column changes nothing; otherwise the named version of the trimmed key is published and active if it existed, every other version of it archived, and other actions and other columns are untouched |
| `PolicyVersions.CreateIsExact` | internal/adminapi/handlers_policies.go:102-135 | for every table and create: a blank key or code, code that does not compile or a number beyond the column changes nothing; otherwise the row of the key and number is a draft with the code, in its old place or at the end, and every other row is untouched |
| `PolicyVersions.NextExactly` | internal/adminapi/handlers_policies.go:116-124 | the next number is one more than the greatest version; it is 1 for an action without versions, when it cannot be read or does not fit the column, and when it would be 0 |
| `PolicyVersions.NumberTakenWhenRead` | internal/adminapi/handlers_policies.go:116-124 | the number read for an automatic draft is that of an existing version if and only if version 1 exists and the next number could not be read or does not fit the column |
| `PolicySteps.AutomaticDraftOverwritesIff` | internal/adminapi/handlers_policies.go:116-129 | an automatic draft overwrites an existing version at its insert if and only if that was so at the read, or some draft with the same number was stored in between |
| `PolicySteps.InsertDropsActiveIff` | internal/adminapi/handlers_policies.go:125-129 | an insert removes the active policy of an action if and only if its draft is stored for that action with the number of the version active at the insert; otherwise the active policy stays |
| `PolicySteps.StaleNumberDropsPolicy` | internal/adminapi/handlers_policies.go:116-129 | for every table and every automatic draft whose number is readable and fits: two creates read one number, one is inserted and published, and the insert of the other removes that policy |
| `PolicySteps.CreateIsItsSteps` | internal/adminapi/handlers_policies.go:116-129 | a create that nothing comes between is its two statements in sequence |
| `PolicyVersions.CreateDropsActiveIff` | internal/adminapi/handlers_policies.go:116-129 | a create that nothing comes between removes the active policy of an action if and only if it stores a draft for that action with the active version's number |
| `PolicyVersions.OneAtATimeDropsActiveIff` | internal/adminapi/handlers_policies.go:116-129 | when creates run one at a time, one without a number removes the active policy if and only if that is version 1 and the next number could not be read or does not fit the column |
| `PolicyVersions.UnreadableNumberDropsPolicy` | internal/adminapi/handlers_policies.go:116-129 | a published version 1 that such a create overwrites, leaving no active policy |
| `PolicySteps.ActiveIsUnique` | internal/policy/service.go:47-50 | in every run the row the policy query returns is the action's only published row, and its module is not blank |
| `PolicySteps.BlankPaddedKeyNeverActive` | internal/adminapi/handlers_policies.go:137-143 | no run whatever gives an active policy to a key with outer blanks |
| `PolicyVersions.PublishedDraftActiveIff` | internal/adminapi/handlers_policies.go:102-171 | from every table that runs can reach, a draft created and then published under its own key becomes the active policy, with its code and number, if and only if the key has no outer blanks |
| `PolicyVersions.PaddedDraftStaysInactive` | internal/adminapi/handlers_policies.go:137-143 | a padded key whose draft is stored, published and still not active |
| `PolicyVersions.UpsertRows` | db/migrations/0004_action_policies.sql:22-31 | an upsert replaces the first row with that action and version in place, or appends when there is none |
| `PolicySteps.VersionTable.CreatePolicyVersion` | internal/adminapi/handlers_policies.go:102-135 | a handler that is alone is its two statements in sequence; it answers with a bad request for a blank key or code or code that does not compile, with a database error for a number beyond the column, and otherwise with the requested or the next number, which the table then has; a refusal changes nothing |
| `PolicySteps.VersionTable.PublishPolicyVersion` | internal/adminapi/handlers_policies.go:137-171 | the handler is its one statement; success exactly when the trimmed key is not empty, the version fits the column and the action has some version, not necessarily the named one; every other reply changes nothing, among them the database error of a version that does not fit |
| `Naming.CamelScanHitsEveryBoundary` | internal/orchestrator/service.go:64-65 | the scan with non-overlapping matches inserts a hyphen at every adjacent camel-case pair |
| `Naming.ManifestKindIsOnePass` | internal/manifest/service.go:97-106 | the four passes equal one left-to-right pass, their `-+` pass changes nothing, and the result is empty or lower-case runs joined by single hyphens |
| `Naming.SlugEqualsManifestKind` | internal/orchestrator/service.go:59-72 | slug and the manifest's inline form agree on every text, are in normal form, and are empty exactly for texts without an ASCII letter or digit |
| `Naming.SlugIdempotent` | internal/orchestrator/service.go:59-72 | slugging twice is slugging once |
| `Naming.SlugFixesNormalForms` | internal/orchestrator/service.go:59-72 | a text in normal form is its own slug |
| `Naming.SlugJoinsWords` | internal/orchestrator/service.go:59-72 | the slug of every text is its words, lower-cased and joined by single hyphens, where words are runs of ASCII letters and digits cut before each capital that follows a small letter or digit |
| `Naming.NameJoinsWords` | internal/manifest/service.go:75-78 | the manifest's segment name is the same of words that capitals do not cut |
| `Naming.EveryTextIsWords` | internal/orchestrator/service.go:64-67 | every text is such words with gaps between them |
| `ActionKeys.DeriveName` | internal/manifest/service.go:61-84 | the backwards walk names the last segment that can be named, or gives the default |
| `ActionKeys.DeriveShort` | internal/orchestrator/service.go:73-91 | the same segment or default, normalised by slug |
| `ActionKeys.PathNames` | internal/orchestrator/service.go:73-91 | for every path of segments, slashes around them and a query: the name is taken from the last segment without braces that is not `v1` and has a letter or digit, and a path without segments is the root |
| `ActionKeys.SegmentNames` | internal/manifest/service.go:75-78 | both segment normalisers are the one pass with and without camel splitting, are empty together, and agree exactly without a camel-case boundary |
| `ActionKeys.NamesAgreeIffNoCamel` | internal/orchestrator/service.go:73-91 | for every path the two derived names are equal if and only if the chosen segment has no camel-case boundary |
| `ActionKeys.KeyRoundTrip` | internal/orchestrator/service.go:51-58 | splitting a manifest key at its first dot recovers namespace and short name exactly |
| `ActionKeys.TenantKeyRoundTrip` | internal/manifest/service.go:85-111 | a kind that is missing or slugs to nothing leaves the tenant's namespace in the key, and splitting recovers it if and only if it has no dot |
| `ActionKeys.SelectOperation` | internal/orchestrator/service.go:101-127 | the loop leaves the four fields of the row that `ActionKeys.SelectedExactly` describes, empty texts when there is none; rows that cannot be scanned are skipped |
| `ActionKeys.SelectedExactly` | internal/orchestrator/service.go:101-127 | a row is selected if and only if some row's kind or title slugs to the namespace; it is the first of those with the short name, or the first of those when none has it |
| `ActionKeys.TitleKeyFindsRow` | internal/orchestrator/service.go:114-126 | the key of a connector title and a short name selects a row at or before the one it was taken from, and that row itself if and only if no earlier row of that title or kind has the short name |
| `ActionKeys.OwnKeyFindsRow` | internal/manifest/service.go:93-111 | exactly when a row's own manifest key selects that row: without a camel-case boundary, when no earlier row of the namespace goes by its name; with one, when no row goes by the printed name and it is the first of its namespace |
| `ActionKeys.CamelFreeKeyIsExact` | internal/orchestrator/service.go:101-127 | without a camel-case boundary the search takes the first exact match and never the fallback |
| `ActionKeys.SharedKeyRunsFirst` | internal/orchestrator/service.go:119-123 | two operations of one connector on one path, where the key of the second selects the first |
| `ActionKeys.CamelKeyFallsBack` | internal/orchestrator/service.go:119-126 | with a camel-case boundary and no accidental exact match, the search takes the first row of the namespace |
| `ActionKeys.CamelKeyRunsAnotherOperation` | internal/orchestrator/service.go:119-126 | two rows of one connector for which the second one's own key selects the first |
| `Scan.PiecesSpellText` | internal/orchestrator/service.go:170-171 | a scanned text is the concatenation of its literal characters and its matches |
| `Scan.ReplaceAllRenders` | internal/orchestrator/service.go:171-191 | a replacement renders those pieces; replaced text is never scanned again |
| `Template.SlotFound` | internal/orchestrator/service.go:170-170 | the greedy scan finds the slot whenever the text starts with one, and its key is unambiguous |
| `Template.SlotParts` | internal/orchestrator/service.go:170-170 | conversely, every slot the scan finds has the shape of the expression |
| `Template.LookupPath` | internal/orchestrator/service.go:178-186 | the loop with its early exit is the recursive walk through nested objects, null when a field is missing or a value on the way is not an object |
| `Template.Rematch` | internal/orchestrator/service.go:171-176 | matching the matched text again finds the same key |
| `Template.LookupReads` | internal/orchestrator/service.go:176-189 | a plain key reads the printed field of the input, a dotted one what the named field has for the rest, and a missing or null field or an input that is no object gives nothing |
| `Template.WrittenExpands` | internal/orchestrator/service.go:165-192 | a text written with expressions for keys, with any blanks in them, expands to that text with each of them replaced by what the input has for its key |
| `Template.ResolveIsOnePass` | internal/orchestrator/service.go:165-192 | resolving any value is its printed text with each slot replaced by the printed value found for its key; braces in values are never expanded |
| `PathEscape.EscapeRoundTrip` | internal/orchestrator/service.go:232-232 | percent-decoding an escaped text gives the UTF-8 bytes of the text |
| `PathEscape.EscapedExactly` | internal/orchestrator/service.go:232-232 | character by character, ASCII letters and digits and `-_.~$&+=:@` stand for themselves and everything else becomes the upper-case triplets of its UTF-8 bytes |
| `PathEscape.EscapedAlphabet` | internal/orchestrator/service.go:232-232 | an escaped text holds nothing but those characters and percent signs |
| `PathEscape.EscapeInjective` | internal/orchestrator/service.go:232-232 | different values are escaped differently |
| `PathEscape.EscapeKeepsStructure` | internal/orchestrator/service.go:232-236 | an escaped text holds no slash, question mark or brace and is empty only for the empty text |
| `Url.SubstitutionRenders` | internal/orchestrator/service.go:226-242 | the substituted URL is the template's pieces with mapped, non-empty placeholders encoded and the others left as they are |
| `Url.BraceFound` | internal/orchestrator/service.go:228-228 | every non-empty name of ASCII letters, digits and underscores in braces is found at the start of a text, whatever follows it |
| `Url.BraceParts` | internal/orchestrator/service.go:228-228 | and nothing else is found there |
| `Url.WrittenPathFills` | internal/orchestrator/service.go:226-260 | a path written with placeholders is sent if and only if each of them is mapped to something that does not resolve to nothing, and then to the base without its last slashes followed by the path with each encoded value in its place |
| `Url.SubstitutionKeepsStructure` | internal/orchestrator/service.go:226-260 | the request is refused if and only if an opening brace is outside a placeholder or a placeholder is unmapped or empty; otherwise every placeholder holds its encoded value and literal text survives; the counts of slashes and question marks never change |
| `Generator.ExtractPlaceholders` | apps/admin-ui/app/connectors/[id]/actions/page.tsx:261-270 | the loop returns the names of all placeholders the orchestrator's scan would find, in order |
| `Generator.BuildRequestTemplate` | apps/admin-ui/app/connectors/[id]/actions/page.tsx:297-319 | the loops fill each location with the last write per key and give every placeholder left over its own name as source |
| `Generator.TemplateBinds` | apps/admin-ui/app/connectors/[id]/actions/page.tsx:297-319 | in every location a key holds the input key, or else the name, of the last parameter written there under its target or else its name, the query being the default; the path also holds the placeholders left over, each under its own name; and there is nothing else |
| `PathParams.EnsurePathParams` | apps/admin-ui/app/connectors/[id]/actions/page.tsx:271-284 | afterwards every placeholder has a path parameter, the old parameters are a prefix of the new list, and each added one is for a placeholder that had none |
| `PathParams.AddedMeaning` | apps/admin-ui/app/connectors/[id]/actions/page.tsx:274-282 | the same of any list of names, and no parameter is added twice |
| `Generator.BindingsMeaning` | apps/admin-ui/app/connectors/[id]/actions/page.tsx:299-311 | a key is bound if and only if some live parameter writes it there, and to the source of the last one |
| `Generator.PlaceholderBound` | apps/admin-ui/app/connectors/[id]/actions/page.tsx:299-317 | a placeholder is bound if and only if a live path parameter writes it or the path has it, and then to its parameter's source or its own name |
| `PathParams.AddingKeepsSources` | apps/admin-ui/app/connectors/[id]/actions/page.tsx:271-284 | adding the missing parameters changes the source of no placeholder and no other binding |
| `PathParams.EditedSource` | apps/admin-ui/app/connectors/[id]/actions/page.tsx:285-296 | for every patch: the placeholder keeps its source when a later parameter also writes it, else it reads the patched parameter's source, or its own name when that parameter no longer writes it |
| `PathParams.SettingInputKey` | apps/admin-ui/app/connectors/[id]/actions/page.tsx:285-296 | after an edit of the input key the placeholder reads the new key, or the parameter's name or its own when the key is cleared, unless a later parameter also writes it; no other placeholder is affected |
| `PathParams.ShadowedEditHasNoEffect` | apps/admin-ui/app/connectors/[id]/actions/page.tsx:285-296 | two parameters for one placeholder, where setting its input key changes nothing |
| `Generator.ResolveBraced` | internal/orchestrator/service.go:165-192 | for every source text: one without braces expands to the input it names when it is a key, blanks around it aside, and stays as it is otherwise; one with braces expands piece by piece |
| `Generator.GeneratedValue` | internal/orchestrator/service.go:230-238 | for every operation and placeholder, what the orchestrator puts into it under the generated template: the expansion of its source, or nothing when it is not bound |
| `Generator.GeneratedTemplateRuns` | internal/orchestrator/service.go:226-244 | for every operation, base and input, with the generated template the orchestrator reports unresolved parameters if and only if base and path have a stray brace, or some placeholder is not bound or expands to nothing; otherwise each placeholder's encoded expansion is in its slot |
| `Generator.GeneratedTemplateResolves` | internal/orchestrator/service.go:226-244 | with no stray brace, sources that are keys and a non-empty input for each, no parameter stays unresolved and each input's encoded text is in its slot |
| `JwksCache.InvAlways` | pkg/middleware/auth.go:30-52 | in every interleaving the locks are held exactly by the calls in their sections, every entry comes from a fetch of its URL, and a fetching call found no live entry |
| `JwksCache.SingleFlight` | pkg/middleware/auth.go:38-51 | at most one fetch is in progress per cache |
| `JwksCache.FetchesAreSpaced` | pkg/middleware/auth.go:43-50 | a successful fetch of a URL starts at least six hours after that URL's previous result was stored |
| `JwksCache.ReturnedWasFetched` | pkg/middleware/auth.go:30-52 | every key set returned was fetched for the URL asked for, less than six hours ago |
| `JwksCache.OnlySuccessStores` | pkg/middleware/auth.go:46-50 | no step but a successful fetch changes an entry, and only that of its own URL |
| `JwksCache.Cache.Get` | pkg/middleware/auth.go:30-52 | a call that is alone equals the sequence of its lock, check, fetch and store steps; a set it returns was fetched for the URL asked for, less than a TTL before the call began or during it |
| `JwksCache.SoloChecks` | pkg/middleware/auth.go:31-45 | alone, a call comes to its fetch if and only if there was no live entry when it began; the second check changes nothing |
| `RegistryCache.InvAlways` | pkg/connectors/registry.go:131-162 | in every interleaving each cached list was the tenant's at most the read-to-store delay before it was stored |
| `RegistryCache.ReturnedIsRecent` | pkg/connectors/registry.go:131-162 | every list returned for a tenant is one the database held for that tenant later than now minus 30 seconds and the longest delay, even if a slow loader overwrote a newer entry |
| `RegistryCache.BoundIsReached` | pkg/connectors/registry.go:131-162 | for every delay some run reaches that bound |
| `RegistryCache.OnlyStoreChangesCache` | pkg/connectors/registry.go:145-161 | a failed query changes no entry; a store changes only the entry of the tenant its loader read |
| `RegistryCache.Registry.LoadOperations` | pkg/connectors/registry.go:131-162 | a call that is alone equals the sequence of its check, query and store steps; over a table that does not change every list returned is what the table holds, and a failed query changes no entry |
| `Dpop.ProofUsedOnceIff` | pkg/middleware/dpop.go:66-79 | no run accepts a proof twice if and only if clock skew plus the delay from the freshness check to SETNX stays under 180 seconds |
| `Dpop.InvAlways` | pkg/middleware/dpop.go:66-79 | under that bound every accepted proof is still covered by its replay entry as long as it can be fresh |
| `Dpop.AcceptedIff` | pkg/middleware/dpop.go:71-79 | a proof is accepted exactly by a SETNX that finds its jti not remembered and whose key binds; a SETNX, and a failed one that took effect, leaves the jti remembered for five minutes from when it was first seen |
| `Dpop.AcceptedIsRecent` | pkg/middleware/dpop.go:66-70 | every accepted proof has an issue time, at most two minutes and the request's delay before its acceptance and at most the skew after it |
| `Dpop.OldestIsAccepted` | pkg/middleware/dpop.go:66-79 | a run accepts a proof of exactly that age |
| `Dpop.SlowReuseAcceptedTwice` | pkg/middleware/dpop.go:66-79 | at or beyond the bound, a concrete run accepts one proof twice |
| `Pagination.ListDecisions` | internal/adminapi/handlers_analytics.go:151-209 | one call returns the first rows older than the cursor, up to the limit, and the whole second of the oldest one as the next cursor |
| `Pagination.PageExactly` | internal/adminapi/handlers_analytics.go:155-188 | a page holds rows older than the cursor, newest first and by greater id among equals, and every other such row comes after all of them and only when the page has as many rows as the limit, which is the parameter from 1 to 500 and 100 for any other |
| `Pagination.CursorExactly` | internal/adminapi/handlers_analytics.go:190-208 | the next cursor is the whole second of the page's last row, and there is none exactly after an empty page |
| `Pagination.NextPageShrinks` | internal/adminapi/handlers_analytics.go:190-207 | after a page that is not empty strictly fewer rows are left, so following the cursor ends |
| `Pagination.RunIsOrdered` | internal/adminapi/handlers_analytics.go:161-208 | what a whole run returns is strictly descending across pages, so nothing comes back twice |
| `Pagination.OmittedExactly` | internal/adminapi/handlers_analytics.go:161-208 | a run leaves out a decision if and only if it comes after some page's last row within that row's second |
| `Pagination.DistinctSecondsLoseNothing` | internal/adminapi/handlers_analytics.go:161-208 | when no two decisions share a second a run returns the whole table |
| `Pagination.EveryPageSizeListsAllIff` | internal/adminapi/handlers_analytics.go:151-209 | every page size lists the whole table if and only if no two decisions share a second |
| `Pagination.SharedSecondLosesOne` | internal/adminapi/handlers_analytics.go:204-207 | with pages of one row, two decisions of one second never both come back |
| `Pagination.OneSecondTwoRows` | internal/adminapi/handlers_analytics.go:204-207 | two decisions of one second and a page size of one: the second is never returned |
| `Access.JWTAuth` | pkg/middleware/auth.go:59-182 | the outcome of every request: exempt ones pass without scopes; without a verified token the refusal names what is missing; a token that passes names no other tenant and shares an audience where several are accepted, and one of another tenant is refused |
| `Access.ExemptExactly` | pkg/middleware/auth.go:66-85 | exempt are `/healthz`, `/metrics`, paths under `/.well-known/`, and in development a header that is blank or absent |
| `Access.TokenExactly` | pkg/middleware/auth.go:73-116 | the token is what the header holds after the bearer scheme, in any case and blanks aside, verified against the tenant's issuer without its last slashes and its key URL, or the configured ones, and against the audience when one is accepted |
| `Access.JudgeToken` | pkg/middleware/auth.go:117-181 | the checks of a verified token in their order, each with its own refusal; what passes is stated by `Access.PassesExactly` |
| `Access.PassesExactly` | pkg/middleware/auth.go:117-181 | a verified token passes if and only if it shares one of several accepted audiences, names no other tenant, has a textual scope claim or none, for a machine keeps to the allow-list, and has the ACR each rule on its scopes asks for or none; it then passes with its scopes |
| `Access.AcrEnforcedIff` | pkg/middleware/auth.go:161-176 | a passing token meets the tenant's ACR rules if and only if it carries the claim or no rule is on a scope it holds |
| `Access.TokenWithoutAcrPasses` | pkg/middleware/auth.go:161-176 | a token with a guarded scope and no claim, which passes |
| `Access.AudienceOk` | pkg/middleware/auth.go:118-126 | true exactly when the token and the tenant share an audience |
| `Access.MachineScopesOk` | pkg/middleware/auth.go:150-159 | true exactly when every scope of the token is in the allow-list |
| `Access.AcrOk` | pkg/middleware/auth.go:165-174 | in whatever order the rules are visited, true exactly when each non-empty rule on a scope the token holds asks for the token's ACR |
| `Access.FieldsReadBack` | pkg/middleware/auth.go:139-143 | a scope list written with single blanks is read back as it was |
| `Access.HasAnyScope` | pkg/middleware/scope.go:76-94 | true exactly when nothing is required or a scope is shared |
| `Access.CanonicalGuards` | internal/connector/handler.go:129-142 | the body is reached exactly when a listed scope is held and a user-only operation is not asked for by a machine |
| `Access.ArrivesIff` | internal/connector/handler.go:129-142 | exactly which requests reach the body of a canonical operation, from header to guards |
| `Access.ArrivalMeets` | pkg/middleware/auth.go:117-181 | every request that arrives at a canonical operation has a verified token of this tenant and audience with a scope of the operation; cancellations and refunds are not asked for by a machine, and a machine keeps to the allow-list |
| `Access.OperationsAsk` | internal/connector/handler.go:40-46 | the scope each canonical operation asks for, and that cancelling and refunding are for users alone |
| `Access.MachineArrivals` | pkg/middleware/auth.go:144-160 | a machine request that arrives, at a tenant with an allow-list, holds a scope that is both required by the operation and in the list, and the operation is not user-only |
| `Access.WithoutTokenNoArrival` | pkg/middleware/auth.go:80-85 | a dev request without a token passes the middleware and reaches no canonical operation |

## Left out

- Rego, JMESPath, JSON encoding, SHA-256, `%v` printing, number parsing and token parsing: parameters, as said above; a JSON number stands for a Go `float64`, with real arithmetic, so rounding in `sum`, `to_number` and `days_between` is not modelled.
- The wall-clock transforms: `now` and `days_between` are arbitrary functions of the time.
- The mode without a database (`pool == nil`), which accepts every decision and returns sample operations.
- SQL text, tenant filtering and row-level security: one tenant's rows, each statement atomic and each seeing what is committed when it starts; unique resolver names per action are the schema's (db/migrations/0002_policies.sql:33).
- A result set that breaks off in the middle: the loaders do not look at `rows.Err`, so such a read would be a partial one; a read here is complete or failed. Likewise a registry row that fails to scan.
- At-most-once execution and idempotency keys: the schema has no constraint that gives them.
- The dry-run route, and the admin test route other than as another source of stored decisions; its own call of the orchestrator is not validated.
- Headers, query and body of the outgoing request, attaching the query, the HTTP call itself, and the rows written to `executions`.
- Proof signature, `htm`, `htu`, `cnf` and `ath` tests of DPoP, and verification without Redis: only freshness and replay are modelled, with the later tests as an arbitrary outcome.
- Lock acquisition in the registry: its two short critical sections are single steps.
- Operations provided by connectors under the dynamic router, and the single-scope middleware `RequireScope`.
- Lower-casing of letters outside ASCII, which the normalisers have already replaced by hyphens.
- Parameters and placeholders named like a property that every JavaScript object inherits (`constructor`, `toString`, `__proto__`): the generator's objects are maps without such names.
- CRUD handlers, schema creation, seeding, configuration, the OpenAPI builder, usage logging, tracing and the console's pages: only easy members.
- Pagination.ListDecisions: a row that fails to scan, which answers with a database error, is not modelled.
