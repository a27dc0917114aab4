/** The configuration tables of the two scripts, and what they imply. */
module Configs {
  import opened JsValues
  import opened Regex
  import opened Glob
  import opened CostCenter
  import opened TeamMapping

  /** The event types both scripts exclude, before their own metric name. */
  const SharedExcludedEventTypes: seq<string> := [
    "AuditLog", "ActivityEvent", "AgentUpdate", "ApplicationAgentContext",
    "CorrelationTriggered", "CorrelationTriggeredV2", "EntityAudits", "DistributedTraceSummary",
    "NrAiAnomaly", "NrAiIncident", "NrAiIssue", "NrAiNotification", "NrAiSignal",
    "NrAiInternalIncident", "NrAiInternalIssue", "NrAuditEvent", "NrComputeUsage",
    "NrConsumption", "NrIntegrationError", "NrMTDConsumption", "NrNotificationsEvent",
    "NrDailyUsage", "NrUsage", "NrdbQuery", "IntegrationDataFreshnessReport",
    "IntegrationProviderReport", "IssueActivated", "IssueCreated", "IssueClosed",
    "IssueMerged", "Public_APICall", "Relationship", "SyntheticsPrivateLocationStatus",
    "SyntheticsPrivateMinion", "SyntheticCheck", "SyntheticRequest",
    "WatcherDeviation", "WatcherSignalDeviation", "WorkloadStatus"]

  /** The cost-distribution script as shipped: strict mode and no patterns. */
  const MainSettings: Settings := Settings(
    "costcenter", "ingest.costcenter", false,
    SharedExcludedEventTypes + ["ingest.costcenter"], [])

  /** `costCenterPatterns` of example A. */
  const ExamplePatterns: seq<PatternRule> := [
    PatternRule(".*-region1-.*", "region_a"),
    PatternRule(".*-region2-.*", "region_b"),
    PatternRule("REGION1 .*", "region_a"),
    PatternRule("REGION2 .*", "region_b")]

  /** Example A's `FACET`, `METRIC_NAME`, `USE_FALLBACK_FACETS` (true, though the
      example never reads it), exclusions and patterns, in the main script's
      settings shape. */
  const ExampleSettings: Settings := Settings(
    "costcenter", "ingest.org_a", true,
    SharedExcludedEventTypes + ["ingest.org_a"], ExamplePatterns)

  const PlatformTeam: string := "platform-team"

  /** `DATA_TYPE_TEAM_MAPPING` of example A. */
  const ExampleDataTypeTeams: map<string, string> := map[
    "MobileSession" := MobileTeam, "MobileCrash" := MobileTeam, "MobileRequest" := MobileTeam,
    "MobileRequestError" := MobileTeam, "MobileHandledException" := MobileTeam, "Mobile" := MobileTeam,
    "SystemSample" := PlatformTeam, "ProcessSample" := PlatformTeam, "StorageSample" := PlatformTeam,
    "NetworkSample" := PlatformTeam, "ContainerSample" := PlatformTeam, "InfrastructureEvent" := PlatformTeam,
    "Transaction" := PlatformTeam, "TransactionError" := PlatformTeam, "TransactionTrace" := PlatformTeam,
    "PageView" := PlatformTeam, "PageAction" := PlatformTeam, "JavaScriptError" := PlatformTeam,
    "BrowserInteraction" := PlatformTeam, "PageViewTiming" := PlatformTeam, "BrowserTiming" := PlatformTeam]

  /** `LAMBDA_TEAM_MAPPING` of example A, in its insertion order. */
  const ExampleLambdaTeams: seq<LambdaRule> := [
    LambdaRule("region1-*", "region_a"),
    LambdaRule("region2-*", "region_b"),
    LambdaRule("*-region1-*", "region_a"),
    LambdaRule("*-region2-*", "region_b")]

  /** `FALLBACK_STRATEGIES` of example A. */
  const ExampleStrategies: FallbackStrategies := FallbackStrategies(
    Some(["entity.name", "appName", "lambda_function_name"]),
    Some(["appName", "entity.name"]),
    ["entity.name", "appName", "host"])

  const ExampleTeamConfig: TeamConfig :=
    TeamConfig(ExampleDataTypeTeams, ExampleLambdaTeams, ExampleStrategies, ExamplePatterns)

  /** In the shipped strict mode a row is labelled with its own facet, or 'n/a':
      no fallback attribute and no rewrite ever applies. */
  lemma MainIsStrict(row: Row, hasEntityName: bool, hasAppName: bool)
    ensures DetermineCostCenter(MainSettings, row, hasEntityName, hasAppName)
      == if Attr(row, "facet") != "" then Attr(row, "facet") else "n/a"
  {
  }

  /** Example A's mapped data types take their team whatever the row says. */
  lemma ExampleMappedTypesWin(row: Row, hasEntityName: bool, hasAppName: bool)
    ensures DetermineTeamWithMapping(ExampleTeamConfig, row, hasEntityName, hasAppName, "MobileCrash") == MobileTeam
    ensures DetermineTeamWithMapping(ExampleTeamConfig, row, hasEntityName, hasAppName, "Transaction") == PlatformTeam
  {
  }

  /** Example A's lambda globs are plain, so its lookup is a true glob lookup. */
  lemma ExampleLambdaGlobsArePlain()
    ensures PlainRules(ExampleLambdaTeams)
  {
    forall j | 0 <= j < |ExampleLambdaTeams| ensures PlainGlob(ExampleLambdaTeams[j].glob) {
      var g := ExampleLambdaTeams[j].glob;
      forall i | 0 <= i < |g| ensures g[i] == '*' || g[i] == '.' || !IsMeta(g[i]) {
      }
    }
  }

  /** `region1-*` covers a name that starts with `region1-` in any case. */
  lemma Region1GlobCovers()
    ensures GlobSpec("region1-*", "REGION1-x")
  {
    var lit, w := "region1-", "REGION1-x";
    assert "region1-*" == lit + "*";
    assert w[..|lit|] == "REGION1-" && w[|lit|..] == "x";
    assert FoldEq(lit, "REGION1-") by {
      assert Fold('r') == Fold('R') && Fold('e') == Fold('E') && Fold('g') == Fold('G');
      assert Fold('i') == Fold('I') && Fold('o') == Fold('O') && Fold('n') == Fold('N');
    }
    assert NoLineBreak("x");
    GlobSpecPrefixStar(lit, w);
  }

  /** ... and not a name that merely contains it. */
  lemma Region1GlobAnchored()
    ensures !GlobSpec("region1-*", "x-region1")
  {
    assert Fold('r') != Fold('x');
  }

  /** The compiled lambda patterns agree: `region1-*` matches "REGION1-x" but not
      "x-region1", and the first table entry labels the former. */
  lemma Region1Glob()
    ensures GlobTest("region1-*", "REGION1-x") == Some(true)
    ensures GlobTest("region1-*", "x-region1") == Some(false)
    ensures GetLambdaTeamFromName(ExampleLambdaTeams, "REGION1-x") == Some("region_a")
  {
    ExampleLambdaGlobsArePlain();
    assert PlainGlob(ExampleLambdaTeams[0].glob);
    GlobIsReal("region1-*", "REGION1-x");
    GlobIsReal("region1-*", "x-region1");
    Region1GlobCovers();
    Region1GlobAnchored();
  }

  /** `Metric` is a standard type that example A maps to no team, so with its
      default chain the layered resolver labels it as the main script's resolver
      would under example A's settings (fallbacks on, the same patterns). */
  lemma ExampleMetricAgrees(row: Row, hasEntityName: bool, hasAppName: bool)
    ensures DetermineTeamWithMapping(ExampleTeamConfig, row, hasEntityName, hasAppName, "Metric")
      == DetermineCostCenter(ExampleSettings, row, hasEntityName, hasAppName)
  {
    assert "Metric" !in ExampleDataTypeTeams;
    AgreesWithDetermineCostCenter(ExampleTeamConfig, ExampleSettings, row, hasEntityName, hasAppName, "Metric");
  }
}
