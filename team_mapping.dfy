/** The layered resolver of example A: a fixed data-type → team table, then the
    row facet, then a fallback attribute chain chosen per data type (with lambda
    function names matched against globs), then the regex rewrite. */
module TeamMapping {
  import opened JsValues
  import opened Regex
  import opened Glob
  import opened CostCenter

  /** One entry of `LAMBDA_TEAM_MAPPING`, in table order. */
  datatype LambdaRule = LambdaRule(glob: string, team: string)

  /** `FALLBACK_STRATEGIES`: a chain that is absent falls back to `default`. */
  datatype FallbackStrategies = FallbackStrategies(
    customEvents: Option<seq<string>>,   // custom_events
    mobileData: Option<seq<string>>,     // mobile_data
    defaultChain: seq<string>)           // default

  datatype TeamConfig = TeamConfig(
    dataTypeTeams: map<string, string>,  // DATA_TYPE_TEAM_MAPPING
    lambdaTeams: seq<LambdaRule>,        // LAMBDA_TEAM_MAPPING
    strategies: FallbackStrategies,      // FALLBACK_STRATEGIES
    patterns: seq<PatternRule>)          // costCenterPatterns

  const MobileTeam: string := "mobile-team"

  /** The `standardDataTypes` list of `getFallbackStrategy`, compared exactly. */
  const StandardDataTypes: seq<string> := [
    "Transaction", "TransactionError", "PageView", "PageAction", "JavaScriptError",
    "SystemSample", "ProcessSample", "StorageSample", "NetworkSample",
    "MobileSession", "MobileCrash", "MobileRequest", "Metric"]

  /** `DATA_TYPE_TEAM_MAPPING[dataType] || null`: an empty team counts as none. */
  function GetDataTypeTeam(teams: map<string, string>, dataType: string): (r: Option<string>)
    ensures r.Some? <==> dataType in teams && teams[dataType] != ""
    ensures r.Some? ==> r.value == teams[dataType] && r.value != ""
  {
    if dataType in teams && teams[dataType] != "" then Some(teams[dataType]) else None
  }

  // ---------------------------------------------------------------------------
  // getLambdaTeamFromName
  // ---------------------------------------------------------------------------

  predicate GlobMatches(g: string, name: string) {
    GlobTest(g, name) == Some(true)
  }

  /** Rule `i` is the first, in table order, whose glob matches `name`. */
  predicate FirstGlobAt(rules: seq<LambdaRule>, name: string, i: int) {
    && 0 <= i < |rules|
    && GlobMatches(rules[i].glob, name)
    && forall j :: 0 <= j < i ==> !GlobMatches(rules[j].glob, name)
  }

  function FirstGlobTeam(rules: seq<LambdaRule>, name: string): (r: Option<string>)
    ensures r.None? <==> forall j :: 0 <= j < |rules| ==> !GlobMatches(rules[j].glob, name)
    ensures r.Some? ==> exists i :: FirstGlobAt(rules, name, i) && r.value == rules[i].team
    decreases |rules|
  {
    if rules == [] then None
    else if GlobMatches(rules[0].glob, name) then
      assert FirstGlobAt(rules, name, 0);
      Some(rules[0].team)
    else
      var r := FirstGlobTeam(rules[1..], name);
      if r.Some? then
        var i :| FirstGlobAt(rules[1..], name, i) && r.value == rules[1..][i].team;
        assert FirstGlobAt(rules, name, i + 1);
        r
      else r
  }

  /** `getLambdaTeamFromName(functionName)`: no name gives no team; otherwise the
      team of the first rule whose anchored, case-insensitive glob matches. */
  function GetLambdaTeamFromName(rules: seq<LambdaRule>, name: string): (r: Option<string>)
    ensures name == "" ==> r.None?
    ensures name != "" && r.None? ==> forall j :: 0 <= j < |rules| ==> !GlobMatches(rules[j].glob, name)
    ensures r.Some? ==> name != "" && exists i :: FirstGlobAt(rules, name, i) && r.value == rules[i].team
  {
    if name == "" then None else FirstGlobTeam(rules, name)
  }

  predicate PlainRules(rules: seq<LambdaRule>) {
    forall j :: 0 <= j < |rules| ==> PlainGlob(rules[j].glob)
  }

  /** With plain globs, the lambda lookup is a glob lookup: the team of the first
      rule whose glob covers the whole name, letters compared up to case and `*`
      taking any run of characters. */
  lemma LambdaTeamMeaning(rules: seq<LambdaRule>, name: string)
    requires PlainRules(rules)
    ensures var r := GetLambdaTeamFromName(rules, name);
      && (r.None? <==> name == "" || forall j :: 0 <= j < |rules| ==> !GlobSpec(rules[j].glob, name))
      && (r.Some? ==> exists i :: 0 <= i < |rules| && GlobSpec(rules[i].glob, name) && r.value == rules[i].team
                        && forall j :: 0 <= j < i ==> !GlobSpec(rules[j].glob, name))
  {
    forall j | 0 <= j < |rules| ensures GlobMatches(rules[j].glob, name) == GlobSpec(rules[j].glob, name) {
      GlobIsReal(rules[j].glob, name);
    }
  }

  // ---------------------------------------------------------------------------
  // getFallbackStrategy
  // ---------------------------------------------------------------------------

  /** `getFallbackStrategy(dataType)`: the mobile chain for a type mapped to the
      mobile team, the custom-events chain for a type outside the standard list,
      otherwise the default chain. */
  function GetFallbackStrategy(cfg: TeamConfig, dataType: string): (chain: seq<string>)
    ensures dataType in cfg.dataTypeTeams && cfg.dataTypeTeams[dataType] == MobileTeam ==>
      chain == cfg.strategies.mobileData.GetOr(cfg.strategies.defaultChain)
    ensures !(dataType in cfg.dataTypeTeams && cfg.dataTypeTeams[dataType] == MobileTeam) && dataType !in StandardDataTypes ==>
      chain == cfg.strategies.customEvents.GetOr(cfg.strategies.defaultChain)
    ensures !(dataType in cfg.dataTypeTeams && cfg.dataTypeTeams[dataType] == MobileTeam) && dataType in StandardDataTypes ==>
      chain == cfg.strategies.defaultChain
  {
    if dataType in cfg.dataTypeTeams && cfg.dataTypeTeams[dataType] == MobileTeam then
      cfg.strategies.mobileData.GetOr(cfg.strategies.defaultChain)
    else if dataType !in StandardDataTypes then
      cfg.strategies.customEvents.GetOr(cfg.strategies.defaultChain)
    else cfg.strategies.defaultChain
  }

  // ---------------------------------------------------------------------------
  // The fallback walk of determineTeamWithMapping
  // ---------------------------------------------------------------------------

  predicate IsLambdaAttribute(attribute: string) {
    attribute == "lambda_function_name" || attribute == "functionName"
  }

  predicate IsHandledAttribute(attribute: string) {
    attribute == "entity.name" || attribute == "appName" || IsLambdaAttribute(attribute)
  }

  /** The value one fallback attribute yields for a row: `entity.name` and `appName`
      need the keyset flag and a row value, the lambda attributes only a row value,
      and any other attribute (such as `host`) nothing. */
  function Yield(row: Row, attribute: string, hasEntityName: bool, hasAppName: bool): (v: string)
    ensures v != "" ==> IsHandledAttribute(attribute) && v == Attr(row, attribute)
    ensures attribute == "entity.name" ==> (v != "" <==> hasEntityName && Attr(row, attribute) != "")
    ensures attribute == "appName" ==> (v != "" <==> hasAppName && Attr(row, attribute) != "")
    ensures IsLambdaAttribute(attribute) ==> v == Attr(row, attribute)
  {
    if attribute == "entity.name" && hasEntityName then Attr(row, attribute)
    else if attribute == "appName" && hasAppName then Attr(row, attribute)
    else if IsLambdaAttribute(attribute) then Attr(row, attribute)
    else ""
  }

  /** How the walk ends: a lambda name mapped to a team (returned at once), a
      label to rewrite, or nothing. */
  datatype FallbackOutcome = LambdaTeam(team: string) | Found(value: string) | NothingFound

  /** Attribute `i` is the first of the chain to yield a value. */
  predicate FirstYieldAt(chain: seq<string>, row: Row, hasEntityName: bool, hasAppName: bool, i: int) {
    && 0 <= i < |chain|
    && Yield(row, chain[i], hasEntityName, hasAppName) != ""
    && forall j :: 0 <= j < i ==> Yield(row, chain[j], hasEntityName, hasAppName) == ""
  }

  /** The team a lambda attribute's value maps to, when that team is non-empty. */
  function LambdaTeamOf(rules: seq<LambdaRule>, attribute: string, value: string): Option<string> {
    if IsLambdaAttribute(attribute) then
      var t := GetLambdaTeamFromName(rules, value);
      if t.Some? && t.value != "" then t else None
    else None
  }

  /** What the walk ends with when attribute `i` is the first to yield. */
  function StepAt(rules: seq<LambdaRule>, row: Row, chain: seq<string>, hasEntityName: bool, hasAppName: bool, i: nat)
    : (r: FallbackOutcome)
    requires i < |chain|
    ensures r.LambdaTeam? ==> r.team != ""
  {
    var v := Yield(row, chain[i], hasEntityName, hasAppName);
    var t := LambdaTeamOf(rules, chain[i], v);
    if t.Some? then LambdaTeam(t.value) else Found(v)
  }

  /** At most one attribute is the first to yield. */
  lemma FirstYieldUnique(chain: seq<string>, row: Row, hasEntityName: bool, hasAppName: bool, i: int, k: int)
    requires FirstYieldAt(chain, row, hasEntityName, hasAppName, i)
    requires FirstYieldAt(chain, row, hasEntityName, hasAppName, k)
    ensures i == k
  {
  }

  /** The `for (const attribute of fallbackAttributes)` loop: the first attribute
      that yields a value decides; a lambda name with a team returns that team. */
  function FallbackWalk(rules: seq<LambdaRule>, row: Row, chain: seq<string>, hasEntityName: bool, hasAppName: bool)
    : (r: FallbackOutcome)
    ensures r.LambdaTeam? ==> r.team != ""
    decreases |chain|
  {
    if chain == [] then NothingFound
    else if Yield(row, chain[0], hasEntityName, hasAppName) != "" then StepAt(rules, row, chain, hasEntityName, hasAppName, 0)
    else FallbackWalk(rules, row, chain[1..], hasEntityName, hasAppName)
  }

  /** The walk finds nothing exactly when no attribute of the chain yields a
      value; otherwise it ends at the first attribute that does. */
  lemma {:induction false} FallbackWalkMeaning(rules: seq<LambdaRule>, row: Row, chain: seq<string>,
                                               hasEntityName: bool, hasAppName: bool)
    ensures var r := FallbackWalk(rules, row, chain, hasEntityName, hasAppName);
      && (r.NothingFound? <==> forall j :: 0 <= j < |chain| ==> Yield(row, chain[j], hasEntityName, hasAppName) == "")
      && forall i :: FirstYieldAt(chain, row, hasEntityName, hasAppName, i) ==>
           r == StepAt(rules, row, chain, hasEntityName, hasAppName, i)
    decreases |chain|
  {
    if chain == [] {
    } else if Yield(row, chain[0], hasEntityName, hasAppName) != "" {
      assert FirstYieldAt(chain, row, hasEntityName, hasAppName, 0);
      forall i | FirstYieldAt(chain, row, hasEntityName, hasAppName, i) ensures i == 0 {
        FirstYieldUnique(chain, row, hasEntityName, hasAppName, i, 0);
      }
    } else {
      var tail := chain[1..];
      FallbackWalkMeaning(rules, row, tail, hasEntityName, hasAppName);
      forall i | FirstYieldAt(chain, row, hasEntityName, hasAppName, i)
        ensures FallbackWalk(rules, row, chain, hasEntityName, hasAppName) == StepAt(rules, row, chain, hasEntityName, hasAppName, i)
      {
        assert i > 0;
        assert FirstYieldAt(tail, row, hasEntityName, hasAppName, i - 1);
        assert tail[i - 1] == chain[i];
      }
      assert (forall j :: 0 <= j < |tail| ==> Yield(row, tail[j], hasEntityName, hasAppName) == "")
         <==> (forall j :: 0 <= j < |chain| ==> Yield(row, chain[j], hasEntityName, hasAppName) == "") by {
        forall j | 0 < j < |chain| ensures tail[j - 1] == chain[j] { }
      }
    }
  }

  /** An attribute no branch handles, such as `host`, never changes the walk:
      the walk over a chain with it is the walk over the chain without it. */
  lemma {:induction false} UnhandledAttributeIsSkipped(rules: seq<LambdaRule>, row: Row, a: seq<string>, b: seq<string>,
                                                       attribute: string, hasEntityName: bool, hasAppName: bool)
    requires !IsHandledAttribute(attribute)
    ensures FallbackWalk(rules, row, a + [attribute] + b, hasEntityName, hasAppName)
      == FallbackWalk(rules, row, a + b, hasEntityName, hasAppName)
    decreases |a|
  {
    if a == [] {
      assert (a + [attribute] + b)[1..] == a + b;
    } else {
      assert (a + [attribute] + b)[0] == (a + b)[0] == a[0];
      assert (a + [attribute] + b)[1..] == a[1..] + [attribute] + b;
      assert (a + b)[1..] == a[1..] + b;
      UnhandledAttributeIsSkipped(rules, row, a[1..], b, attribute, hasEntityName, hasAppName);
    }
  }

  // ---------------------------------------------------------------------------
  // determineTeamWithMapping
  // ---------------------------------------------------------------------------

  /** `determineTeamWithMapping(result, facet, entityName, appName, dataType)`. */
  function DetermineTeamWithMapping(cfg: TeamConfig, row: Row, hasEntityName: bool, hasAppName: bool, dataType: string)
    : (team: string)
    ensures team != ""
    ensures GetDataTypeTeam(cfg.dataTypeTeams, dataType).Some? ==>
      team == GetDataTypeTeam(cfg.dataTypeTeams, dataType).value
    ensures GetDataTypeTeam(cfg.dataTypeTeams, dataType).None? && Attr(row, "facet") != "" ==>
      team == OrNotAvailable(ApplyCostCenterPatterns(cfg.patterns, Attr(row, "facet")))
  {
    var mapped := GetDataTypeTeam(cfg.dataTypeTeams, dataType);
    if mapped.Some? then mapped.value
    else if Attr(row, "facet") != "" then
      OrNotAvailable(ApplyCostCenterPatterns(cfg.patterns, Attr(row, "facet")))
    else
      match FallbackWalk(cfg.lambdaTeams, row, GetFallbackStrategy(cfg, dataType), hasEntityName, hasAppName)
      case LambdaTeam(t) => t
      case Found(v) => OrNotAvailable(ApplyCostCenterPatterns(cfg.patterns, v))
      case NothingFound => "n/a"
  }

  /** Without a mapped team or a row facet, the label comes from the first
      attribute of the data type's chain that yields a value: a lambda name with a
      team gives that team untouched, any other value is rewritten; when no
      attribute yields, the label is 'n/a'. */
  lemma FallbackLabel(cfg: TeamConfig, row: Row, hasEntityName: bool, hasAppName: bool, dataType: string)
    requires GetDataTypeTeam(cfg.dataTypeTeams, dataType).None? && Attr(row, "facet") == ""
    ensures var chain := GetFallbackStrategy(cfg, dataType);
      var team := DetermineTeamWithMapping(cfg, row, hasEntityName, hasAppName, dataType);
      && ((forall j :: 0 <= j < |chain| ==> Yield(row, chain[j], hasEntityName, hasAppName) == "") ==> team == "n/a")
      && forall i :: FirstYieldAt(chain, row, hasEntityName, hasAppName, i) ==>
           var v := Yield(row, chain[i], hasEntityName, hasAppName);
           var t := LambdaTeamOf(cfg.lambdaTeams, chain[i], v);
           team == (if t.Some? then t.value else OrNotAvailable(ApplyCostCenterPatterns(cfg.patterns, v)))
  {
    FallbackWalkMeaning(cfg.lambdaTeams, row, GetFallbackStrategy(cfg, dataType), hasEntityName, hasAppName);
  }

  /** The mobile chain is never consulted: a type mapped to the mobile team returns
      its team before any chain is chosen, so the label does not depend on the
      `mobile_data` chain at all. */
  lemma MobileChainUnreachable(cfg: TeamConfig, mobileData: Option<seq<string>>, row: Row,
                               hasEntityName: bool, hasAppName: bool, dataType: string)
    ensures DetermineTeamWithMapping(cfg, row, hasEntityName, hasAppName, dataType)
      == DetermineTeamWithMapping(cfg.(strategies := cfg.strategies.(mobileData := mobileData)),
                                  row, hasEntityName, hasAppName, dataType)
  {
    var cfg' := cfg.(strategies := cfg.strategies.(mobileData := mobileData));
    if GetDataTypeTeam(cfg.dataTypeTeams, dataType).None? {
      assert GetFallbackStrategy(cfg, dataType) == GetFallbackStrategy(cfg', dataType);
    }
  }

  /** The two resolvers agree where their rules coincide: for an unmapped standard
      data type whose default chain is `entity.name`, `appName`, `host`, the layered
      resolver labels a row exactly as `determineCostCenter` with fallbacks on and
      the same patterns. */
  lemma AgreesWithDetermineCostCenter(cfg: TeamConfig, s: Settings, row: Row,
                                      hasEntityName: bool, hasAppName: bool, dataType: string)
    requires GetDataTypeTeam(cfg.dataTypeTeams, dataType).None? && dataType in StandardDataTypes
    requires cfg.strategies.defaultChain == ["entity.name", "appName", "host"]
    requires s.useFallbackFacets && s.patterns == cfg.patterns
    ensures DetermineTeamWithMapping(cfg, row, hasEntityName, hasAppName, dataType)
      == DetermineCostCenter(s, row, hasEntityName, hasAppName)
  {
    var chain := GetFallbackStrategy(cfg, dataType);
    assert chain == ["entity.name", "appName", "host"];
    UnhandledAttributeIsSkipped(cfg.lambdaTeams, row, ["entity.name", "appName"], [], "host", hasEntityName, hasAppName);
    assert ["entity.name", "appName"] + ["host"] + [] == chain;
    assert ["entity.name", "appName"] + [] == ["entity.name", "appName"];
  }
}
