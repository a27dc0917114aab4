# Cost distribution attribution, modelled in Dafny

The repository holds a scheduled batch job and a variant of it.

The main script does the following:
- it reads every account's reporting event types, drops the excluded ones,
  and fetches the keyset of each included type;
- it queries the ingest (`bytecountestimate()`) of each type whose keyset is
  non-empty, faceted by a cost-center attribute when one exists;
- it turns each answer into gauge metrics labelled with an owner. A faceted
  answer gives one metric per row, labelled with a cost center. An answer
  with no facet gives a single 'n/a' metric carrying the first row's estimate.

Example A holds only part of the job. It has its configuration, admission
control, a layered resolver that labels with a team, and the account and keyset
fetches. It has no ingest query and no driver, and nothing in it calls the
resolver. This project models the part that decides the labels, and the
bookkeeping around it:

- `cost-distribution-synthetics-api-script.js` is the main script.
  - Its simple resolver (`determineCostCenter`) uses the row facet. With
    fallbacks on, it falls back to `entity.name` and then `appName`. A
    first-match regex rewrite (`applyCostCenterPatterns`) follows, and the
    default is `'n/a'`.
  - The rest modelled here:
    - detection of the primary facet key in a keyset;
    - the facet-clause choice;
    - metric assembly from an ingest answer;
    - event-type exclusion and quoting;
    - the per-account pipeline;
    - batching of accounts by three;
    - the concurrent-request counter.
- `example-a-synthetics-script.js` is the layered resolver
  (`determineTeamWithMapping`). It checks, in order:
  1. a data-type → team table;
  2. the row facet;
  3. a fallback attribute chain chosen per data type, where lambda function names
     are matched against glob patterns;
  4. the same rewrite.

  It also keeps a timestamp list with stale and forced eviction for admission
  control.

Files:

| file | module | what it holds |
|---|---|---|
| `js_values.dfy` | `JsValues` | rows, JavaScript truthiness on strings, `\|\| 'n/a'`, ASCII case folding, the `\s` class |
| `regex.dfy` | `Regex` | the regular-expression subset the scripts rely on: parser, backtracking matcher, reference language, equivalence proofs |
| `glob.dfy` | `Glob` | the glob → regular-expression conversion of the lambda patterns, proved to be a real glob matcher |
| `facet_key.dfy` | `FacetKey` | the facet-key pattern and its meaning |
| `cost_center.dfy` | `CostCenter` | `applyCostCenterPatterns`, `determineCostCenter` |
| `ingest.dfy` | `Ingest` | facet clause, `getIngest` metric loop, event types, keyset answers, `processAccount`, `processAccountsInParallel` |
| `admission.dfy` | `Admission` | both `rateLimitedRequest` state machines, as classes |
| `team_mapping.dfy` | `TeamMapping` | `getDataTypeTeam`, `getLambdaTeamFromName`, `getFallbackStrategy`, the fallback walk, `determineTeamWithMapping` |
| `configs.dfy` | `Configs` | the shipped tables of both scripts and what follows from them |

Representation choices:

- Row values are JavaScript strings. Every falsy value (missing, `null`, `''`) is
  represented by the empty string, so truthiness is `Attr(row, key) != ""`.
  `Object.keys` membership is kept apart, because a `null` facet still counts as
  a present `facet` key.
- Byte estimates are unbounded integers.
- Every HTTP exchange is an abstract answer value, and clocks are parameters.
- `new RegExp(source, 'i').test(s)` is modelled by `Regex.RegexTest` on a subset
  of ECMAScript syntax:
  - literal characters, `\` followed by punctuation, `.` (no line terminators),
    `\s`, `X*`, a leading `^` and a trailing `$`;
  - ASCII case folding;
  - unanchored search.

  A pattern outside the subset yields `None`, which the rewrite treats as the
  constructor throwing: the pattern is skipped. Every rewrite pattern and
  every lambda glob configured in either script is inside the subset. The
  facet-key expression is not: it joins four alternatives with `|`. The model
  compiles and tests each alternative on its own (see "## Left out").

Where the prose documentation and the code disagree, the model follows the code:

- Example A's `getFallbackStrategy` classifies a data type as standard by exact
  `includes` on a 13-name list (`example-a-synthetics-script.js:263-270`). It
  does not compare case-insensitively.
- Example A sets `USE_FALLBACK_FACETS` (`example-a-synthetics-script.js:33`)
  but never reads it. Its resolver walks its fallback chain whatever the flag
  says (`example-a-synthetics-script.js:288-319`). Only the main script reads
  the flag, in `determineCostCenter` and in the facet clause of its ingest
  query.
- Nothing in example A calls `determineTeamWithMapping`
  (`example-a-synthetics-script.js:278`). The model passes it the booleans
  `hasEntityName`/`hasAppName` for `entityNameString`/`appNameString`, which
  is how the main script builds those arguments from the keyset
  (`cost-distribution-synthetics-api-script.js:586-591`). `Configs.ExampleSettings`
  puts example A's constants into the main script's settings shape, as the
  example's closing comment says to copy them into the main script
  (`example-a-synthetics-script.js:411-421`).

## Model

| member | source | states |
|---|---|---|
| JsValues.Attr | cost-distribution-synthetics-api-script.js:267-283 | a row value is truthy exactly when its key is present, not null and not empty |
| JsValues.OrNotAvailable | cost-distribution-synthetics-api-script.js:290 | `value \|\| 'n/a'` is never empty, keeps a truthy value and replaces a falsy one by 'n/a' |
| Regex.MatchHereDenotes | cost-distribution-synthetics-api-script.js:248-249 | the backtracking matcher accepts a whole word exactly when the word is in the pattern's language |
| Regex.TestMeaning | cost-distribution-synthetics-api-script.js:248-249 | `test` holds exactly when some substring that respects the `^`/`$` anchors is in the pattern's language |
| Glob.GlobIsReal | example-a-synthetics-script.js:235-241 | for a glob of literals, `.` and `*`, the escaped and anchored expression compiles and matches exactly the names the glob covers: whole name, letters up to case, `*` any run of characters without a line break |
| Glob.GlobBodyCons | example-a-synthetics-script.js:235-237 | both replacements act character by character: `*` becomes `.*`, `.` becomes `\.`, and every other character is copied |
| Glob.OnlyDotIsEscaped | example-a-synthetics-script.js:235-237 | a glob with no `.` and no `*` becomes its own text between `^` and `$`, so other metacharacters such as `+` pass into the expression unchanged |
| Glob.GlobSpecPrefixStar | example-a-synthetics-script.js:235-241 | a glob of literal characters followed by one `*` covers every name that starts with those characters up to case and continues without a line break |
| FacetKey.PrimaryFacetKey | cost-distribution-synthetics-api-script.js:576-585 | no key is found exactly when no keyset key matches the facet pattern; otherwise the result is the first matching key in keyset order |
| FacetKey.PrimaryFacetKeyMeaning | cost-distribution-synthetics-api-script.js:576-578 | for a facet without regex syntax, a key matches exactly when it is the facet, or `tag_`/`tags`/`label` plus any one character plus the facet; letters compare up to case and white space in the facet matches any white space |
| CostCenter.FirstRewrite | cost-distribution-synthetics-api-script.js:246-258 | the value of the first pattern in list order that matches, or the input when none does |
| CostCenter.ApplyCostCenterPatterns | cost-distribution-synthetics-api-script.js:241-259 | an empty value or empty list is returned unchanged; otherwise the first matching pattern's value; the input when nothing matches; patterns that do not compile never match |
| CostCenter.NonMatchingPatternIsSkipped | cost-distribution-synthetics-api-script.js:246-256 | a pattern that does not match, or does not compile, only hands the value on to the rest of the list |
| CostCenter.RewriteOrigin | cost-distribution-synthetics-api-script.js:241-259 | every result is the input or the value of the first pattern that matched it |
| CostCenter.RewriteIdempotent | cost-distribution-synthetics-api-script.js:241-259 | when no configured value is itself matched by a pattern, rewriting a rewritten label changes nothing |
| CostCenter.DetermineCostCenter | cost-distribution-synthetics-api-script.js:264-290 | the result is never empty; a truthy row facet wins; `entity.name` and then `appName` are used only with fallbacks on and when the keyset has the key and the row a value; 'n/a' otherwise |
| Ingest.ChooseFacetClause | cost-distribution-synthetics-api-script.js:394-403 | the detected facet key if any; else `entity.name` when fallbacks are on and it exists; else `appName` likewise; else no facet; each case stated as an if-and-only-if |
| Ingest.RowMetrics | cost-distribution-synthetics-api-script.js:458-477 | one metric per row, in row order, each carrying that row's estimate and cost center |
| Ingest.GetIngest | cost-distribution-synthetics-api-script.js:426-482 | the metric loop produces exactly `IngestMetrics` of the answer |
| Ingest.IngestMetricsShape | cost-distribution-synthetics-api-script.js:431-482 | no metrics unless status 200, no errors and some rows; one 'n/a' metric with the first row's estimate when no row has a `facet` key; otherwise one metric per row in order; all share `now`, account, id and table |
| Ingest.IncludedEventTypes | cost-distribution-synthetics-api-script.js:555 | a type survives exactly when it is reported and not excluded |
| Ingest.IncludedAppend | cost-distribution-synthetics-api-script.js:555 | filtering distributes over concatenation, so survivors keep their order |
| Ingest.Quote | cost-distribution-synthetics-api-script.js:565-567 | a type containing `:` or a space is wrapped in backticks; any other is unchanged |
| Ingest.QuoteInjective | cost-distribution-synthetics-api-script.js:564-569 | quoting never merges two event types: equal quoted forms come from equal types |
| Ingest.QuoteAll | cost-distribution-synthetics-api-script.js:564-569 | quoting is applied to every surviving type, position by position |
| Ingest.EmptyKeysetAbortsAccount | cost-distribution-synthetics-api-script.js:358-384 | as written, a successful keyset query with no results yields undefined, while an error answer yields an empty keyset; one such type makes the account throw |
| Ingest.KeySetOf | cost-distribution-synthetics-api-script.js:351-384 | the corrected keyset: it agrees with the script wherever the script returns a keyset, gives an empty keyset instead of undefined, and is non-empty exactly for a non-empty result list |
| Ingest.PlanFromTypes | cost-distribution-synthetics-api-script.js:580-598 | every ingest query belongs to a requested event type whose keyset is non-empty, and carries the facet key and `entity.name`/`appName` flags of that type's own keyset |
| Ingest.PlanComplete | cost-distribution-synthetics-api-script.js:580-598 | every requested type with a non-empty keyset is queried, with its own keyset's facet key and flags; with `PlanFromTypes`, the plan holds exactly those types |
| Ingest.ExcludedNeverQueried | cost-distribution-synthetics-api-script.js:555-598 | every query of an account is for the quoted form of a type the account reports and the settings do not exclude |
| Ingest.ProcessAccount | cost-distribution-synthetics-api-script.js:547-627 | skipped without a write when there are no reporting types, when all are excluded, or when no type has a keyset; otherwise writes all metrics of its queries in plan order, when there are any |
| Ingest.AccountMetricsAppend | cost-distribution-synthetics-api-script.js:609-619 | an account's metrics are the concatenation of each query's metrics, so a failed query only removes its own |
| Ingest.AccountMetricsStamped | cost-distribution-synthetics-api-script.js:609-619 | every written metric carries the account's name and id, the metric name, the facet attribute, a non-empty label and its own query's timestamp |
| Ingest.BatchSlicesPartition | cost-distribution-synthetics-api-script.js:632-638 | slices of three partition the accounts in order, giving ceil(n/3) batches of 1 to 3 accounts |
| Ingest.ScheduleBatches | cost-distribution-synthetics-api-script.js:632-649 | the loop runs exactly those slices; batches alternate with pauses of `accountDelay`; there is no pause after the last batch and nothing for no accounts |
| Admission.RequestCounter.constructor | cost-distribution-synthetics-api-script.js:194-195 | both counters start at zero |
| Admission.RequestCounter.TryAdmit | cost-distribution-synthetics-api-script.js:197-216 | admitted exactly when below the cap; admission increments the counter and records the time; the counter stays within 0..cap |
| Admission.RequestCounter.Release | cost-distribution-synthetics-api-script.js:221-223 | the `finally` decrement |
| Admission.RequestCounter.Submit | cost-distribution-synthetics-api-script.js:197-224 | an admitted request yields its own completion, value or thrown error, and the counter returns to its prior value either way |
| Admission.NewMainCounter | cost-distribution-synthetics-api-script.js:184-195 | the counter starts at zero, valid, under the shipped cap of 24 |
| Admission.KeepRecentMember | example-a-synthetics-script.js:150-151 | a timestamp survives a cleanup exactly when it was listed and `now - t < window` |
| Admission.KeepRecentAppend | example-a-synthetics-script.js:150-151 | cleanup works entry by entry, so survivors keep their order |
| Admission.IndexOf | example-a-synthetics-script.js:183 | `indexOf` finds the first occurrence, or reports absence exactly when the value is not listed |
| Admission.RemoveFirstMeaning | example-a-synthetics-script.js:183-186 | release removes exactly one occurrence of the start time when present, keeps the other entries in order, and leaves the list alone otherwise |
| Admission.TimestampLimiter.constructor | example-a-synthetics-script.js:142-144 | empty list, zero count; neither exceeds the cap |
| Admission.TimestampLimiter.Cleanup | example-a-synthetics-script.js:150-151 | the list becomes its recent entries and the count its length; the cap is still respected |
| Admission.CleanupWithin | example-a-synthetics-script.js:150-170 | a cleanup keeps only timestamps that were already listed; once every listed timestamp is 30 s old the regular cleanup leaves the list empty |
| Admission.WaitedMember | example-a-synthetics-script.js:154-171 | an entry survives the wait loop exactly when it was listed, was younger than 30 s at every reading taken, and, once more than 50 waits have passed, was younger than 5 s at the start time |
| Admission.WaitedShrinks | example-a-synthetics-script.js:154-171 | the wait loop only drops entries: the list it leaves is never longer than the one it found |
| Admission.WaitedStops | example-a-synthetics-script.js:155 | the wait loop ends below the cap, or at the cap with every clock reading taken |
| Admission.WaitedProgress | example-a-synthetics-script.js:155-171 | once a reading finds every listed entry stale, the wait loop ends below any positive cap |
| Admission.AdmissionKeeps | example-a-synthetics-script.js:150-171 | the first cleanup and the wait loop together keep an entry exactly when it was listed, younger than 30 s at the start time and at every reading taken, and younger than 5 s at the start time once a forced cleanup has happened |
| Admission.TimestampLimiter.Admit | example-a-synthetics-script.js:146-174 | the new list is the first cleanup followed by the wait loop (`Waited`), with the start time pushed exactly when that list is below the cap; the count equals the list length; below the cap after the first cleanup, the request is admitted at once; admission is guaranteed once a clock reading makes every old entry stale; neither the list nor the count ever exceeds the cap |
| Admission.TimestampLimiter.Release | example-a-synthetics-script.js:182-187 | the list loses one occurrence of the start time; the count drops by one and never below zero; the cap is still respected |
| Admission.NewExampleLimiter | example-a-synthetics-script.js:133-144 | the limiter starts valid, with an empty list and a zero count, under the shipped cap of 20 |
| Admission.ExampleLimiterProgress | example-a-synthetics-script.js:146-171 | under the shipped cap of 20, a reading that finds every listed entry stale ends the wait below the cap |
| Admission.ReleaseKeepsCount | example-a-synthetics-script.js:182-187 | release keeps count and list in step while the start time is still listed; once a cleanup has evicted it, the count drops but the list does not |
| TeamMapping.GetDataTypeTeam | example-a-synthetics-script.js:225-227 | a mapped, non-empty team or none |
| TeamMapping.FirstGlobTeam | example-a-synthetics-script.js:234-251 | the team of the first rule whose glob test succeeds; none exactly when no rule's does |
| TeamMapping.GetLambdaTeamFromName | example-a-synthetics-script.js:232-252 | no name gives no team; otherwise the team of the first rule in table order whose glob matches |
| TeamMapping.LambdaTeamMeaning | example-a-synthetics-script.js:232-252 | with plain globs, no team exactly when the name is empty or no glob covers it; otherwise the team of the first glob that covers the name |
| TeamMapping.GetFallbackStrategy | example-a-synthetics-script.js:257-273 | the mobile chain for a type mapped to 'mobile-team', the custom-events chain for a type outside the 13 standard names, else the default chain; an absent chain falls back to the default |
| TeamMapping.Yield | example-a-synthetics-script.js:297-312 | `entity.name` and `appName` yield only with the keyset flag and a row value; the lambda attributes need only a row value; any other attribute never yields |
| TeamMapping.StepAt | example-a-synthetics-script.js:302-311 | a lambda team returned by the walk is never empty |
| TeamMapping.FallbackWalkMeaning | example-a-synthetics-script.js:294-319 | the walk finds nothing exactly when no attribute yields; otherwise it ends at the first attribute that does, returning its lambda team or its value |
| TeamMapping.UnhandledAttributeIsSkipped | example-a-synthetics-script.js:297-318 | an attribute no branch handles, such as `host`, can be deleted from the chain without changing the walk |
| TeamMapping.DetermineTeamWithMapping | example-a-synthetics-script.js:278-328 | never empty; a mapped data type gets its team whatever the row holds; otherwise a truthy facet is rewritten |
| TeamMapping.FallbackLabel | example-a-synthetics-script.js:292-327 | without a mapped team or a facet: 'n/a' when no attribute yields; otherwise the first yielding attribute's lambda team, untouched, or its value rewritten |
| TeamMapping.MobileChainUnreachable | example-a-synthetics-script.js:257-284 | the `mobile_data` chain never affects a label, because mobile types return their team first |
| TeamMapping.AgreesWithDetermineCostCenter | example-a-synthetics-script.js:278-328 | for an unmapped standard type with the default chain `entity.name, appName, host`, the layered resolver equals `determineCostCenter` with fallbacks on and the same patterns |
| Configs.MainIsStrict | cost-distribution-synthetics-api-script.js:48-53 | the shipped main configuration labels a row with its facet or 'n/a' |
| Configs.ExampleMappedTypesWin | example-a-synthetics-script.js:36-61 | `MobileCrash` is always 'mobile-team' and `Transaction` always 'platform-team' |
| Configs.ExampleLambdaGlobsArePlain | example-a-synthetics-script.js:64-69 | every shipped lambda glob is plain, so the glob theorem applies to it |
| Configs.ExampleMetricAgrees | example-a-synthetics-script.js:257-328 | example A labels `Metric`, a standard type mapped to no team, exactly as `determineCostCenter` would under example A's settings |
| Configs.Region1Glob | example-a-synthetics-script.js:64-69 | `region1-*` matches "REGION1-x" but not "x-region1", and the table labels "REGION1-x" 'region_a' |

## Left out

- HTTP and GraphQL traffic is not modelled: `getAccounts`, the request inside
  `getKeySet`, `writeAsMetrics` and the request and JSON parse in `getIngest`.
  Their answers are abstract values (`KeysetResponse`, `IngestResponse`).
- NRQL and GraphQL query strings (`metricClause`, the `SELECT` texts, the
  payloads) are templating for a foreign language. The facet clause is kept as a
  datatype, not as text.
- `Promise.all` fan-out, `setTimeout` waits, async suspension and the
  interleaving of concurrent requests are not modelled. Only sequential
  bookkeeping is.
- `got` retries, timeouts, the `beforeRetry` backoff and the busy-wait `sleep`
  are library behaviour and wall-clock timing.
- `main`, logging, the execution-time check with `toFixed`, the endpoint
  constants, local `$secure` mocks and example A's trailing deprecated
  configuration block are left out. They are I/O, floating point, environment
  setup or inert text.
- Regex.RegexTest covers only the subset listed above. Character classes,
  groups, alternation, `+`, `?`, counted repeats and lookarounds give `None`,
  which treats a pattern JavaScript would accept as one that throws. Case folding
  is ASCII only.
- FacetKey.PrimaryFacetKey tests the four alternatives of the facet-key
  expression one by one, while the script compiles them as one expression
  joined by `|`. The two agree only when FACET holds no regex syntax outside
  the subset. With FACET `a|b` the script's alternatives become `^a`, `b$` and
  so on, and it accepts the key `axyz`. The model compiles `^a|b$` to `None`
  and finds no key.
- FacetKey.PrimaryFacetKey treats a FACET the regex constructor rejects, such
  as `cost(center`, as finding no key. In the script `new RegExp` at line 578
  is outside any `try`, so the throw rejects `processAccount` and ends the
  run through `Promise.all` and the rethrow in `main`.
- Regex.RegexTest matches over Unicode code points, while JavaScript regexes
  without the `u` flag see UTF-16 code units. A `.` or a literal then consumes
  a whole astral character here but only half of one in the script.
- Glob.GlobIsReal is proved for plain globs only. A glob holding other regex
  syntax is passed through unescaped, as the script does, and its meaning is
  whatever `Regex.RegexTest` gives.
- Facet values and lambda names are strings. Numbers, booleans or arrays in a
  row's `facet` (which JavaScript would stringify or test for truthiness) are not
  modelled, and neither are keyset entries without a `key`.
- Table lookups ignore `Object.prototype` keys such as `constructor`.
- The FACET attribute is stored apart from `account`, `id` and `table`. In the
  script's attribute literal `[FACET]` comes first, so a FACET equal to one of
  those names is overwritten by the later entry. JavaScript then loses the cost
  center label and keeps the account, id or table. The model keeps both. The constant `'gauge'` type field is omitted.
- Admission.RequestCounter.TryAdmit models one pass of the wait loop. At the cap
  it refuses and the caller retries, since with no other request in flight
  nothing could lower the counter.
- Admission.TimestampLimiter.Admit takes its clock readings as a finite
  sequence. When they run out while still at the cap it returns without
  admitting, where the script would go on waiting.
- The two halves of example A's `rateLimitedRequest` are separate methods,
  `Admit` and `Release`. The request between them is not modelled, nor are
  other requests interleaving with it. With no interleaving, `Admit` filters a
  local copy of the list and writes the list and the count back once. The
  script writes the shared variables after every filter, so that difference
  could only be seen by another request.
- Ingest.ProcessAccount uses the corrected `KeySetOf` (see Findings) and records
  the write as an outcome value rather than performing it.
- Ingest.ProcessAccount takes one timestamp per data type through `clock`. It
  does not model the order in which concurrent queries read the clock.

## Findings

| source | as written | input that shows it | evidently intended | confidence | as-written member | corrected member |
|---|---|---|---|---|---|---|
| cost-distribution-synthetics-api-script.js:358-384 | `getKeySet` returns a record with an empty keyset on every failure path. When the query succeeds with zero results, it falls off the end of the function and resolves to `undefined`; `processAccount` then reads `ks.keySet` of `undefined` (line 581) and throws, rejecting the account and the `Promise.all` of its batch | an event type whose `SELECT keyset()` answer has `results: []` | an empty keyset, as on the other paths, so that type is skipped and the account goes on | high; not executed | Ingest.EmptyKeysetAbortsAccount | Ingest.KeySetOf |
