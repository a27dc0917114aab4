/** Query and metric shaping of the cost-distribution script: the facet clause
    of the ingest query, the metrics built from its answer, the event types an
    account queries, the per-account pipeline and the batching of accounts.
    Every HTTP exchange is an abstract response value passed in. */
module Ingest {
  import opened JsValues
  import opened CostCenter
  import opened FacetKey

  // ---------------------------------------------------------------------------
  // The facet clause of the ingest query
  // ---------------------------------------------------------------------------

  datatype FacetClause = FacetByKey(key: string) | FacetByEntityName | FacetByAppName | Unfaceted

  /** The `facetClause` choice in `getIngest`: the detected facet key when there is
      one; else, with fallbacks on, `entity.name` when the keyset has it, then
      `appName`; else no facet. */
  function ChooseFacetClause(useFallbackFacets: bool, facetKey: Option<string>, hasEntityName: bool, hasAppName: bool)
    : (c: FacetClause)
    ensures facetKey.Some? <==> c.FacetByKey?
    ensures facetKey.Some? ==> c == FacetByKey(facetKey.value)
    ensures c == FacetByEntityName <==> facetKey.None? && useFallbackFacets && hasEntityName
    ensures c == FacetByAppName <==> facetKey.None? && useFallbackFacets && !hasEntityName && hasAppName
    ensures c == Unfaceted <==> facetKey.None? && !(useFallbackFacets && (hasEntityName || hasAppName))
  {
    if facetKey.Some? then FacetByKey(facetKey.value)
    else if useFallbackFacets && hasEntityName then FacetByEntityName
    else if useFallbackFacets && hasAppName then FacetByAppName
    else Unfaceted
  }

  // ---------------------------------------------------------------------------
  // Metric assembly in getIngest
  // ---------------------------------------------------------------------------

  /** One ingest query of an account: the data type (quoted as sent) and what its
      keyset offers. */
  datatype IngestQuery = IngestQuery(dataType: string, facetKey: Option<string>, hasEntityName: bool, hasAppName: bool)

  /** The answer to the ingest request. `NoResponse` stands for every failure that
      reaches the `catch` (transport error, retries exhausted, unparsable body,
      missing `data`); `Response` is a parsed answer with its HTTP status, whether
      it carried `errors`, and the NRQL result rows. */
  datatype IngestResponse = NoResponse | Response(statusCode: int, hasErrors: bool, results: seq<Row>)

  /** A gauge metric record. `facetName` is the attribute key (FACET) under which
      `costCenter` is reported; `account`, `id` and `table` are the other attributes. */
  datatype Metric = Metric(
    name: string, value: int, timestamp: int,
    facetName: string, costCenter: string, account: string, id: int, table: string)

  /** The only answer that produces metrics: status 200, no errors, some rows. */
  predicate UsableResponse(resp: IngestResponse) {
    resp.Response? && resp.statusCode == 200 && !resp.hasErrors && |resp.results| > 0
  }

  /** `ingestResult.some(i => Object.keys(i).includes('facet'))`. */
  predicate AnyRowHasFacet(rows: seq<Row>) {
    exists i :: 0 <= i < |rows| && HasKey(rows[i], "facet")
  }

  function RowMetric(s: Settings, q: IngestQuery, acctId: int, acctName: string, row: Row, now: int): Metric {
    Metric(s.metricName, ByteEstimate(row), now, s.facet,
      DetermineCostCenter(s, row, q.hasEntityName, q.hasAppName), acctName, acctId, q.dataType)
  }

  /** One metric per row, in row order. */
  function RowMetrics(s: Settings, q: IngestQuery, acctId: int, acctName: string, rows: seq<Row>, now: int)
    : (ms: seq<Metric>)
    ensures |ms| == |rows|
    ensures forall z :: 0 <= z < |rows| ==> ms[z] == RowMetric(s, q, acctId, acctName, rows[z], now)
    decreases |rows|
  {
    if rows == [] then []
    else
      var init := rows[..|rows| - 1];
      assert forall z :: 0 <= z < |init| ==> init[z] == rows[z];
      RowMetrics(s, q, acctId, acctName, init, now) + [RowMetric(s, q, acctId, acctName, rows[|rows| - 1], now)]
  }

  lemma RowMetricsSnoc(s: Settings, q: IngestQuery, acctId: int, acctName: string, rows: seq<Row>, z: nat, now: int)
    requires z < |rows|
    ensures RowMetrics(s, q, acctId, acctName, rows[..z + 1], now)
      == RowMetrics(s, q, acctId, acctName, rows[..z], now) + [RowMetric(s, q, acctId, acctName, rows[z], now)]
  {
    assert rows[..z + 1][..z] == rows[..z];
  }

  /** The metrics `getIngest` resolves with, as a function of the answer. */
  function IngestMetrics(s: Settings, q: IngestQuery, acctId: int, acctName: string, resp: IngestResponse, now: int)
    : seq<Metric>
  {
    if !UsableResponse(resp) then []
    else if !AnyRowHasFacet(resp.results) then
      [Metric(s.metricName, ByteEstimate(resp.results[0]), now, s.facet, "n/a", acctName, acctId, q.dataType)]
    else RowMetrics(s, q, acctId, acctName, resp.results, now)
  }

  /** The metric loop of `getIngest`. */
  method GetIngest(s: Settings, q: IngestQuery, acctId: int, acctName: string, resp: IngestResponse, now: int)
    returns (metrics: seq<Metric>)
    ensures metrics == IngestMetrics(s, q, acctId, acctName, resp, now)
  {
    metrics := [];
    if resp.Response? && resp.statusCode == 200 && !resp.hasErrors && |resp.results| > 0 {
      var ingestResult := resp.results;
      var isFacetPresent := AnyRowHasFacet(ingestResult);
      if !isFacetPresent {
        // no facet data: one aggregate metric
        var metricValue := ByteEstimate(ingestResult[0]);
        metrics := metrics + [Metric(s.metricName, metricValue, now, s.facet, "n/a", acctName, acctId, q.dataType)];
      } else {
        var z := 0;
        while z < |ingestResult|
          invariant 0 <= z <= |ingestResult|
          invariant metrics == RowMetrics(s, q, acctId, acctName, ingestResult[..z], now)
        {
          metrics := metrics + [RowMetric(s, q, acctId, acctName, ingestResult[z], now)];
          RowMetricsSnoc(s, q, acctId, acctName, ingestResult, z, now);
          z := z + 1;
        }
        assert ingestResult[..z] == ingestResult;
      }
    }
  }

  /** What every metric of an account's batch carries. */
  predicate Stamped(m: Metric, s: Settings, acctId: int, acctName: string) {
    && m.name == s.metricName && m.facetName == s.facet
    && m.account == acctName && m.id == acctId && m.costCenter != ""
  }

  /** Metric assembly: nothing from an unusable answer; exactly one metric labelled
      'n/a' with the first row's estimate when no row has a facet key; otherwise one
      metric per row, in order, with that row's estimate and cost center. All share
      the timestamp `now`, the account, its id and the data type. */
  lemma IngestMetricsShape(s: Settings, q: IngestQuery, acctId: int, acctName: string, resp: IngestResponse, now: int)
    ensures var ms := IngestMetrics(s, q, acctId, acctName, resp, now);
      && (!UsableResponse(resp) ==> ms == [])
      && (UsableResponse(resp) && !AnyRowHasFacet(resp.results) ==>
            |ms| == 1 && ms[0].costCenter == "n/a" && ms[0].value == ByteEstimate(resp.results[0]))
      && (UsableResponse(resp) && AnyRowHasFacet(resp.results) ==>
            |ms| == |resp.results| &&
            forall z :: 0 <= z < |ms| ==>
              (ms[z].value == ByteEstimate(resp.results[z])
               && ms[z].costCenter == DetermineCostCenter(s, resp.results[z], q.hasEntityName, q.hasAppName)))
      && forall m :: m in ms ==> Stamped(m, s, acctId, acctName) && m.timestamp == now && m.table == q.dataType
  {
  }

  // ---------------------------------------------------------------------------
  // Event types of an account
  // ---------------------------------------------------------------------------

  /** `reportingEventTypes.filter(et => !excludedEventTypes.includes(et))`. */
  function IncludedEventTypes(excluded: seq<string>, types: seq<string>): (r: seq<string>)
    ensures forall t :: t in r <==> t in types && t !in excluded
    decreases |types|
  {
    if types == [] then []
    else (if types[0] in excluded then [] else [types[0]]) + IncludedEventTypes(excluded, types[1..])
  }

  /** Filtering distributes over concatenation, so the survivors keep their order. */
  lemma {:induction false} IncludedAppend(excluded: seq<string>, a: seq<string>, b: seq<string>)
    ensures IncludedEventTypes(excluded, a + b) == IncludedEventTypes(excluded, a) + IncludedEventTypes(excluded, b)
    decreases |a|
  {
    if a == [] {
      assert a + b == b;
    } else {
      assert (a + b)[1..] == a[1..] + b;
      IncludedAppend(excluded, a[1..], b);
    }
  }

  /** An event type containing `:` or a space is wrapped in backticks. */
  function Quote(eventType: string): (q: string)
    ensures (':' in eventType || ' ' in eventType) ==> q == "`" + eventType + "`"
    ensures !(':' in eventType || ' ' in eventType) ==> q == eventType
  {
    if ':' in eventType || ' ' in eventType then "`" + eventType + "`" else eventType
  }

  /** Quoting never merges two event types into one query. */
  lemma QuoteInjective(a: string, b: string)
    ensures Quote(a) == Quote(b) ==> a == b
  {
    if Quote(a) == Quote(b) && (':' in a || ' ' in a) && (':' in b || ' ' in b) {
      assert a == Quote(a)[1..|Quote(a)| - 1];
    }
  }

  function QuoteAll(types: seq<string>): (r: seq<string>)
    ensures |r| == |types| && forall i :: 0 <= i < |types| ==> r[i] == Quote(types[i])
  {
    seq(|types|, i requires 0 <= i < |types| => Quote(types[i]))
  }

  // ---------------------------------------------------------------------------
  // The keyset answer
  // ---------------------------------------------------------------------------

  /** The answer to a keyset request: the request threw, came back undefined,
      carried `errors`, or listed result keys (possibly none). */
  datatype KeysetResponse = KeysetFailed | KeysetUndefined | KeysetErrors | KeysetResults(keys: seq<string>)

  /** `getKeySet` as written: the keys of a non-empty answer; an empty key list on
      every failure path; but when the request succeeds with zero results the
      function falls off its end and yields `undefined` (None). */
  function KeySetAsWritten(resp: KeysetResponse): Option<seq<string>> {
    match resp
    case KeysetResults(keys) => if |keys| > 0 then Some(keys) else None
    case _ => Some([])
  }

  /** `processAccount` reads `ks.keySet` of every keyset answer, so one undefined
      answer throws a TypeError, which rejects the account's promise and, through
      the batch's `Promise.all`, the whole run. */
  predicate AccountThrowsAsWritten(answers: seq<KeysetResponse>) {
    exists i :: 0 <= i < |answers| && KeySetAsWritten(answers[i]).None?
  }

  /** A data type whose keyset query succeeds with no keys aborts the run as
      written, although every other empty-keyset path lets the account go on. */
  lemma EmptyKeysetAbortsAccount()
    ensures KeySetAsWritten(KeysetResults([])) == None
    ensures KeySetAsWritten(KeysetErrors) == Some([])
    ensures AccountThrowsAsWritten([KeysetResults(["appName"]), KeysetResults([])])
  {
    assert KeySetAsWritten([KeysetResults(["appName"]), KeysetResults([])][1]).None?;
  }

  /** The corrected `getKeySet`: an empty answer is an empty keyset, as on every
      failure path, so the data type is skipped instead of aborting the run. */
  function KeySetOf(resp: KeysetResponse): (keys: seq<string>)
    ensures KeySetAsWritten(resp).Some? ==> keys == KeySetAsWritten(resp).value
    ensures KeySetAsWritten(resp).None? ==> keys == []
    ensures |keys| > 0 <==> resp.KeysetResults? && |resp.keys| > 0
  {
    match resp
    case KeysetResults(keys) => keys
    case _ => []
  }

  // ---------------------------------------------------------------------------
  // processAccount
  // ---------------------------------------------------------------------------

  datatype Account = Account(id: int, name: string, reportingEventTypes: Option<seq<string>>)

  /** Why an account writes nothing, or the batch it writes. */
  datatype AccountOutcome = NoEventTypes | AllExcluded | NoIngestQueries | NoMetrics | Write(metrics: seq<Metric>)

  /** The ingest query for one data type with a non-empty keyset. */
  function QueryFor(s: Settings, dataType: string, keys: seq<string>): IngestQuery {
    IngestQuery(dataType, PrimaryFacetKey(s.facet, keys), "entity.name" in keys, "appName" in keys)
  }

  /** The queries issued for the (quoted) event types, in order: only the types
      whose keyset is non-empty get one. */
  function PlanQueries(s: Settings, types: seq<string>, probe: string -> KeysetResponse): (plan: seq<IngestQuery>)
    ensures |plan| <= |types|
    decreases |types|
  {
    if types == [] then []
    else
      var last := types[|types| - 1];
      var keys := KeySetOf(probe(last));
      PlanQueries(s, types[..|types| - 1], probe) + (if |keys| > 0 then [QueryFor(s, last, keys)] else [])
  }

  lemma PlanQueriesSnoc(s: Settings, types: seq<string>, i: nat, probe: string -> KeysetResponse)
    requires i < |types|
    ensures PlanQueries(s, types[..i + 1], probe) == PlanQueries(s, types[..i], probe)
      + (if |KeySetOf(probe(types[i]))| > 0 then [QueryFor(s, types[i], KeySetOf(probe(types[i])))] else [])
  {
    assert types[..i + 1][..i] == types[..i];
  }

  function ClauseFor(s: Settings, q: IngestQuery): FacetClause {
    ChooseFacetClause(s.useFallbackFacets, q.facetKey, q.hasEntityName, q.hasAppName)
  }

  /** `xs` mapped through `f`, the results concatenated in order. */
  function ConcatMap<T, U>(xs: seq<T>, f: T -> seq<U>): seq<U>
    decreases |xs|
  {
    if xs == [] then [] else ConcatMap(xs[..|xs| - 1], f) + f(xs[|xs| - 1])
  }

  lemma ConcatMapSnoc<T, U>(xs: seq<T>, k: nat, f: T -> seq<U>)
    requires k < |xs|
    ensures ConcatMap(xs[..k + 1], f) == ConcatMap(xs[..k], f) + f(xs[k])
  {
    assert xs[..k + 1][..k] == xs[..k];
  }

  lemma {:induction false} ConcatMapAppend<T, U>(xs: seq<T>, ys: seq<T>, f: T -> seq<U>)
    ensures ConcatMap(xs + ys, f) == ConcatMap(xs, f) + ConcatMap(ys, f)
    decreases |ys|
  {
    if ys == [] {
      assert xs + ys == xs;
    } else {
      var ys' := ys[..|ys| - 1];
      assert (xs + ys)[..|xs + ys| - 1] == xs + ys';
      ConcatMapAppend(xs, ys', f);
    }
  }

  lemma {:induction false} ConcatMapMember<T, U>(xs: seq<T>, f: T -> seq<U>, u: U)
    requires u in ConcatMap(xs, f)
    ensures exists i :: 0 <= i < |xs| && u in f(xs[i])
    decreases |xs|
  {
    var last := |xs| - 1;
    if u !in f(xs[last]) {
      ConcatMapMember(xs[..last], f, u);
      var i :| 0 <= i < last && u in f(xs[..last][i]);
      assert xs[..last][i] == xs[i];
    }
  }

  /** The metrics the ingest query `q` of an account contributes. */
  function QueryMetrics(s: Settings, acct: Account, q: IngestQuery,
                        query: (string, FacetClause) -> IngestResponse, clock: string -> int): seq<Metric>
  {
    IngestMetrics(s, q, acct.id, acct.name, query(q.dataType, ClauseFor(s, q)), clock(q.dataType))
  }

  /** All metrics of an account, query by query, in plan order. The answer to a
      query depends on its data type and facet clause; `clock` gives the time at
      which the query for a data type builds its metrics. */
  function AccountMetrics(s: Settings, acct: Account, plan: seq<IngestQuery>,
                          query: (string, FacetClause) -> IngestResponse, clock: string -> int): seq<Metric>
  {
    ConcatMap(plan, q => QueryMetrics(s, acct, q, query, clock))
  }

  /** The event types an account queries: its reporting types without the
      excluded ones, quoted. */
  function AccountEventTypes(s: Settings, acct: Account): seq<string>
    requires acct.reportingEventTypes.Some?
  {
    QuoteAll(IncludedEventTypes(s.excludedEventTypes, acct.reportingEventTypes.value))
  }

  /** `processAccount(account)`: skip an account with no reporting types or with all
      of them excluded; query the types whose keyset is non-empty; write one batch
      holding every metric when there is at least one. */
  method ProcessAccount(s: Settings, acct: Account, probe: string -> KeysetResponse,
                        query: (string, FacetClause) -> IngestResponse, clock: string -> int)
    returns (outcome: AccountOutcome)
    ensures outcome == NoEventTypes <==> acct.reportingEventTypes.None? || acct.reportingEventTypes.value == []
    ensures outcome == AllExcluded <==>
      acct.reportingEventTypes.Some? && acct.reportingEventTypes.value != [] && AccountEventTypes(s, acct) == []
    ensures outcome == NoIngestQueries <==>
      acct.reportingEventTypes.Some? && AccountEventTypes(s, acct) != []
      && PlanQueries(s, AccountEventTypes(s, acct), probe) == []
    ensures outcome.NoMetrics? || outcome.Write? ==>
      var ms := AccountMetrics(s, acct, PlanQueries(s, AccountEventTypes(s, acct), probe), query, clock);
      outcome == (if ms == [] then NoMetrics else Write(ms))
  {
    if acct.reportingEventTypes.None? || |acct.reportingEventTypes.value| == 0 {
      return NoEventTypes;
    }
    var eventTypes := IncludedEventTypes(s.excludedEventTypes, acct.reportingEventTypes.value);
    if |eventTypes| == 0 {
      return AllExcluded;
    }
    var quoted := QuoteAll(eventTypes);
    // for (const ks of keySetResults): one ingest query per non-empty keyset
    var ingestQueries: seq<IngestQuery> := [];
    var i := 0;
    while i < |quoted|
      invariant 0 <= i <= |quoted|
      invariant ingestQueries == PlanQueries(s, quoted[..i], probe)
    {
      var keySet := KeySetOf(probe(quoted[i]));
      if |keySet| > 0 {
        ingestQueries := ingestQueries + [QueryFor(s, quoted[i], keySet)];
      }
      PlanQueriesSnoc(s, quoted, i, probe);
      i := i + 1;
    }
    assert quoted[..i] == quoted;
    if |ingestQueries| == 0 {
      return NoIngestQueries;
    }
    // for (const ing of ingests): collect every metric of the account
    var metricsToWrite: seq<Metric> := [];
    var k := 0;
    while k < |ingestQueries|
      invariant 0 <= k <= |ingestQueries|
      invariant metricsToWrite == AccountMetrics(s, acct, ingestQueries[..k], query, clock)
    {
      var q := ingestQueries[k];
      var ing := GetIngest(s, q, acct.id, acct.name, query(q.dataType, ClauseFor(s, q)), clock(q.dataType));
      metricsToWrite := metricsToWrite + ing;
      ConcatMapSnoc(ingestQueries, k, q => QueryMetrics(s, acct, q, query, clock));
      k := k + 1;
    }
    assert ingestQueries[..k] == ingestQueries;
    if |metricsToWrite| > 0 {
      outcome := Write(metricsToWrite);
    } else {
      outcome := NoMetrics;
    }
  }

  /** Every query contributes on its own: the account's metrics are the
      concatenation of what each part of the plan yields, so a failed query only
      removes its own metrics. */
  lemma AccountMetricsAppend(s: Settings, acct: Account, p1: seq<IngestQuery>, p2: seq<IngestQuery>,
                             query: (string, FacetClause) -> IngestResponse, clock: string -> int)
    ensures AccountMetrics(s, acct, p1 + p2, query, clock)
      == AccountMetrics(s, acct, p1, query, clock) + AccountMetrics(s, acct, p2, query, clock)
  {
    ConcatMapAppend(p1, p2, q => QueryMetrics(s, acct, q, query, clock));
  }

  /** Every metric of an account's batch carries the account's name and id, the
      time its own data type was queried, and a non-empty cost center. */
  lemma AccountMetricsStamped(s: Settings, acct: Account, plan: seq<IngestQuery>,
                              query: (string, FacetClause) -> IngestResponse, clock: string -> int)
    ensures forall m :: m in AccountMetrics(s, acct, plan, query, clock) ==>
      Stamped(m, s, acct.id, acct.name) && m.timestamp == clock(m.table)
  {
    forall m | m in AccountMetrics(s, acct, plan, query, clock)
      ensures Stamped(m, s, acct.id, acct.name) && m.timestamp == clock(m.table)
    {
      ConcatMapMember(plan, q => QueryMetrics(s, acct, q, query, clock), m);
      var i :| 0 <= i < |plan| && m in QueryMetrics(s, acct, plan[i], query, clock);
      var q := plan[i];
      IngestMetricsShape(s, q, acct.id, acct.name, query(q.dataType, ClauseFor(s, q)), clock(q.dataType));
    }
  }

  /** Each query of the plan belongs to an event type it was given whose keyset
      is non-empty, and carries the facet key and flags of that type's own keyset. */
  lemma {:induction false} PlanFromTypes(s: Settings, types: seq<string>, probe: string -> KeysetResponse)
    ensures forall q :: q in PlanQueries(s, types, probe) ==> q.dataType in types && |KeySetOf(probe(q.dataType))| > 0
    ensures forall q :: q in PlanQueries(s, types, probe) ==> q == QueryFor(s, q.dataType, KeySetOf(probe(q.dataType)))
    decreases |types|
  {
    if types != [] {
      PlanFromTypes(s, types[..|types| - 1], probe);
    }
  }

  /** Every type given whose keyset is non-empty is queried, with its own keyset. */
  lemma {:induction false} PlanComplete(s: Settings, types: seq<string>, probe: string -> KeysetResponse, t: string)
    requires t in types && |KeySetOf(probe(t))| > 0
    ensures QueryFor(s, t, KeySetOf(probe(t))) in PlanQueries(s, types, probe)
    decreases |types|
  {
    var init := types[..|types| - 1];
    if types[|types| - 1] != t {
      var i :| 0 <= i < |types| && types[i] == t;
      assert init[i] == t;
      PlanComplete(s, init, probe, t);
    }
  }

  /** An excluded event type is never queried: every query of an account's plan
      is for the quoted form of a type the account reports and the settings do
      not exclude. */
  lemma ExcludedNeverQueried(s: Settings, acct: Account, probe: string -> KeysetResponse)
    requires acct.reportingEventTypes.Some?
    ensures forall q :: q in PlanQueries(s, AccountEventTypes(s, acct), probe) ==>
      exists t :: t in acct.reportingEventTypes.value && t !in s.excludedEventTypes && q.dataType == Quote(t)
  {
    var included := IncludedEventTypes(s.excludedEventTypes, acct.reportingEventTypes.value);
    PlanFromTypes(s, AccountEventTypes(s, acct), probe);
    forall q | q in PlanQueries(s, AccountEventTypes(s, acct), probe)
      ensures exists t :: t in acct.reportingEventTypes.value && t !in s.excludedEventTypes && q.dataType == Quote(t)
    {
      var i :| 0 <= i < |included| && AccountEventTypes(s, acct)[i] == q.dataType;
      assert included[i] in included;
    }
  }

  // ---------------------------------------------------------------------------
  // processAccountsInParallel
  // ---------------------------------------------------------------------------

  /** One step of the account loop: a batch processed together, or the pause
      between two batches. */
  datatype Step<A> = RunBatch(accounts: seq<A>) | Pause(ms: int)

  const Concurrency: nat := 3

  function Min(a: int, b: int): int {
    if a <= b then a else b
  }

  /** The consecutive slices of at most three accounts. */
  function BatchSlices<A>(accounts: seq<A>): seq<seq<A>>
    decreases |accounts|
  {
    if accounts == [] then []
    else
      var n := Min(Concurrency, |accounts|);
      [accounts[..n]] + BatchSlices(accounts[n..])
  }

  function Flatten<A>(batches: seq<seq<A>>): seq<A> {
    if batches == [] then [] else batches[0] + Flatten(batches[1..])
  }

  /** The batches of a schedule, in order. */
  function Batches<A>(schedule: seq<Step<A>>): seq<seq<A>> {
    if schedule == [] then []
    else
      var last := schedule[|schedule| - 1];
      Batches(schedule[..|schedule| - 1]) + (if last.RunBatch? then [last.accounts] else [])
  }

  lemma BatchesSnoc<A>(schedule: seq<Step<A>>, step: Step<A>)
    ensures Batches(schedule + [step]) == Batches(schedule) + (if step.RunBatch? then [step.accounts] else [])
  {
    assert (schedule + [step])[..|schedule|] == schedule;
  }

  /** The slice starting at `i` is `accounts[i..min(i + 3, n)]`. */
  lemma BatchSlicesFrom<A>(accounts: seq<A>, i: nat)
    requires i < |accounts|
    ensures BatchSlices(accounts[i..])
      == [accounts[i..Min(i + Concurrency, |accounts|)]] + BatchSlices(accounts[Min(i + Concurrency, |accounts|)..])
  {
    var rest := accounts[i..];
    var next := Min(i + Concurrency, |accounts|);
    assert rest[..Min(Concurrency, |rest|)] == accounts[i..next];
    assert rest[Min(Concurrency, |rest|)..] == accounts[next..];
  }

  /** The slices partition the accounts: ceil(n/3) non-empty batches of at most
      three, every account in exactly one of them, in the original order. */
  lemma {:induction false} BatchSlicesPartition<A>(accounts: seq<A>)
    ensures Flatten(BatchSlices(accounts)) == accounts
    ensures |BatchSlices(accounts)| == (|accounts| + 2) / 3
    ensures forall b :: b in BatchSlices(accounts) ==> 1 <= |b| <= 3
    decreases |accounts|
  {
    if accounts != [] {
      var n := Min(Concurrency, |accounts|);
      BatchSlicesPartition(accounts[n..]);
      var bs := BatchSlices(accounts);
      assert bs[1..] == BatchSlices(accounts[n..]);
      assert accounts[..n] + accounts[n..] == accounts;
    }
  }

  /** Batches sit at the even positions of a schedule and every pause between
      them lasts `accountDelay`. */
  predicate Alternating<A>(schedule: seq<Step<A>>, accountDelay: int) {
    forall k :: 0 <= k < |schedule| ==>
      (schedule[k].RunBatch? <==> k % 2 == 0) && (schedule[k].Pause? ==> schedule[k].ms == accountDelay)
  }

  lemma AlternatingSnoc<A>(schedule: seq<Step<A>>, step: Step<A>, accountDelay: int)
    requires Alternating(schedule, accountDelay)
    requires step.RunBatch? <==> |schedule| % 2 == 0
    requires step.Pause? ==> step.ms == accountDelay
    ensures Alternating(schedule + [step], accountDelay)
  {
  }

  /** The schedule after the iteration that starts at account `i`. */
  function NextSchedule<A>(accounts: seq<A>, accountDelay: int, schedule: seq<Step<A>>, i: nat): seq<Step<A>>
    requires i < |accounts|
  {
    schedule + [RunBatch(accounts[i..Min(i + Concurrency, |accounts|)])]
      + (if i + Concurrency < |accounts| then [Pause(accountDelay)] else [])
  }

  /** The loop invariant of `ScheduleBatches`: the batches so far followed by the
      slices still to come are all the slices; the schedule alternates; a pause
      closes it while accounts remain and a batch once they are done. */
  ghost predicate ScheduleInv<A>(accounts: seq<A>, accountDelay: int, schedule: seq<Step<A>>, i: nat) {
    && Batches(schedule) + BatchSlices(accounts[Min(i, |accounts|)..]) == BatchSlices(accounts)
    && Alternating(schedule, accountDelay)
    && (schedule == [] <==> i == 0)
    && (i < |accounts| ==> |schedule| % 2 == 0)
    && (schedule != [] && i >= |accounts| ==> schedule[|schedule| - 1].RunBatch?)
  }

  lemma ScheduleStepBatches<A>(accounts: seq<A>, accountDelay: int, schedule: seq<Step<A>>, i: nat)
    requires i < |accounts|
    requires Batches(schedule) + BatchSlices(accounts[i..]) == BatchSlices(accounts)
    ensures var next := Min(i + Concurrency, |accounts|);
      Batches(NextSchedule(accounts, accountDelay, schedule, i)) + BatchSlices(accounts[next..]) == BatchSlices(accounts)
  {
    var next := Min(i + Concurrency, |accounts|);
    var batch := accounts[i..next];
    BatchSlicesFrom(accounts, i);
    BatchesSnoc(schedule, RunBatch(batch));
    var withBatch := schedule + [RunBatch(batch)];
    if i + Concurrency < |accounts| {
      BatchesSnoc(withBatch, Pause(accountDelay));
    } else {
      assert NextSchedule(accounts, accountDelay, schedule, i) == withBatch;
    }
    assert Batches(NextSchedule(accounts, accountDelay, schedule, i)) == Batches(schedule) + [batch];
  }

  lemma ScheduleStep<A>(accounts: seq<A>, accountDelay: int, schedule: seq<Step<A>>, i: nat)
    requires i < |accounts| && ScheduleInv(accounts, accountDelay, schedule, i)
    ensures ScheduleInv(accounts, accountDelay, NextSchedule(accounts, accountDelay, schedule, i), i + Concurrency)
  {
    assert Min(i, |accounts|) == i;
    assert Min(i + Concurrency, |accounts|) == Min(Min(i + Concurrency, |accounts|), |accounts|);
    ScheduleStepBatches(accounts, accountDelay, schedule, i);
    var batch := accounts[i..Min(i + Concurrency, |accounts|)];
    AlternatingSnoc(schedule, RunBatch(batch), accountDelay);
    var withBatch := schedule + [RunBatch(batch)];
    if i + Concurrency < |accounts| {
      AlternatingSnoc(withBatch, Pause(accountDelay), accountDelay);
    }
  }

  /** Once every account is scheduled the invariant gives the whole result. */
  lemma ScheduleDone<A>(accounts: seq<A>, accountDelay: int, schedule: seq<Step<A>>, i: nat)
    requires i >= |accounts| && ScheduleInv(accounts, accountDelay, schedule, i)
    ensures Batches(schedule) == BatchSlices(accounts)
    ensures schedule == [] <==> accounts == []
  {
    assert accounts[Min(i, |accounts|)..] == [];
    assert Batches(schedule) + [] == Batches(schedule);
  }

  /** The loop of `processAccountsInParallel`: step `i` by three, run the slice
      `accounts.slice(i, i + 3)`, and pause only when more accounts follow. */
  method ScheduleBatches<A>(accounts: seq<A>, accountDelay: int) returns (schedule: seq<Step<A>>)
    ensures Batches(schedule) == BatchSlices(accounts)
    ensures Alternating(schedule, accountDelay)
    ensures schedule == [] <==> accounts == []
    ensures schedule != [] ==> schedule[|schedule| - 1].RunBatch?
  {
    schedule := [];
    var i: nat := 0;
    assert accounts[Min(0, |accounts|)..] == accounts;
    while i < |accounts|
      invariant ScheduleInv(accounts, accountDelay, schedule, i)
      decreases |accounts| - i
    {
      ScheduleStep(accounts, accountDelay, schedule, i);
      var batch := accounts[i..Min(i + Concurrency, |accounts|)];
      schedule := schedule + [RunBatch(batch)];
      if i + Concurrency < |accounts| {
        schedule := schedule + [Pause(accountDelay)];
      }
      i := i + Concurrency;
    }
    ScheduleDone(accounts, accountDelay, schedule, i);
  }
}
