/** The attribution resolver of the cost-distribution script: the regex rewrite
    of a label and the facet-then-fallback choice of a row's cost center. */
module CostCenter {
  import opened JsValues
  import opened Regex

  /** One entry of `costCenterPatterns`. */
  datatype PatternRule = PatternRule(pattern: string, value: string)

  /** The script's configuration section, fixed for a run. */
  datatype Settings = Settings(
    facet: string,                  // FACET
    metricName: string,             // METRIC_NAME
    useFallbackFacets: bool,        // USE_FALLBACK_FACETS
    excludedEventTypes: seq<string>,
    patterns: seq<PatternRule>)     // costCenterPatterns

  /** Pattern `i` is the first, in list order, whose expression matches `value`;
      patterns that do not compile never match. */
  predicate FirstMatchAt(patterns: seq<PatternRule>, value: string, i: int) {
    && 0 <= i < |patterns|
    && Matches(patterns[i].pattern, value)
    && forall j :: 0 <= j < i ==> !Matches(patterns[j].pattern, value)
  }

  predicate NoPatternMatches(patterns: seq<PatternRule>, value: string) {
    forall j :: 0 <= j < |patterns| ==> !Matches(patterns[j].pattern, value)
  }

  /** The loop of `applyCostCenterPatterns`: the first matching pattern's value, or
      the input when none matches. */
  function FirstRewrite(patterns: seq<PatternRule>, value: string): (r: string)
    ensures forall i :: FirstMatchAt(patterns, value, i) ==> r == patterns[i].value
    ensures NoPatternMatches(patterns, value) ==> r == value
    decreases |patterns|
  {
    if patterns == [] then value
    else if Matches(patterns[0].pattern, value) then patterns[0].value
    else
      var r := FirstRewrite(patterns[1..], value);
      assert forall i :: FirstMatchAt(patterns, value, i) ==> i > 0 && FirstMatchAt(patterns[1..], value, i - 1);
      r
  }

  /** `applyCostCenterPatterns(facetValue)`: an empty value or an empty list
      returns the input; otherwise the first pattern that matches
      case-insensitively supplies the new value, and an invalid pattern is
      skipped rather than fatal. */
  function ApplyCostCenterPatterns(patterns: seq<PatternRule>, value: string): (r: string)
    ensures value == "" || patterns == [] ==> r == value
    ensures value != "" ==> forall i :: FirstMatchAt(patterns, value, i) ==> r == patterns[i].value
    ensures NoPatternMatches(patterns, value) ==> r == value
  {
    if value == "" || patterns == [] then value else FirstRewrite(patterns, value)
  }

  /** A pattern that does not match, including one that does not compile, only
      passes the value on to the rest of the list. */
  lemma NonMatchingPatternIsSkipped(patterns: seq<PatternRule>, value: string)
    requires patterns != [] && !Matches(patterns[0].pattern, value)
    ensures ApplyCostCenterPatterns(patterns, value) == ApplyCostCenterPatterns(patterns[1..], value)
  {
  }

  /** Every result is the input or the value of a pattern that matched it. */
  lemma {:induction false} RewriteOrigin(patterns: seq<PatternRule>, value: string)
    ensures var r := ApplyCostCenterPatterns(patterns, value);
      r == value || exists i :: FirstMatchAt(patterns, value, i) && r == patterns[i].value
    decreases |patterns|
  {
    if value != "" && patterns != [] && !Matches(patterns[0].pattern, value) {
      RewriteOrigin(patterns[1..], value);
      var r := ApplyCostCenterPatterns(patterns[1..], value);
      if r != value {
        var i :| FirstMatchAt(patterns[1..], value, i) && r == patterns[1..][i].value;
        assert FirstMatchAt(patterns, value, i + 1);
      }
    } else if value != "" && patterns != [] {
      assert FirstMatchAt(patterns, value, 0);
    }
  }

  /** When no configured value is itself rewritten, rewriting is idempotent. */
  lemma RewriteIdempotent(patterns: seq<PatternRule>, value: string)
    requires forall i, j :: 0 <= i < |patterns| && 0 <= j < |patterns| ==>
      !Matches(patterns[i].pattern, patterns[j].value)
    ensures var r := ApplyCostCenterPatterns(patterns, value);
      ApplyCostCenterPatterns(patterns, r) == r
  {
    RewriteOrigin(patterns, value);
    var r := ApplyCostCenterPatterns(patterns, value);
    if r != value {
      var i :| FirstMatchAt(patterns, value, i) && r == patterns[i].value;
      assert NoPatternMatches(patterns, r);
    }
  }

  /** A fallback attribute can be used when the keyset holds it and the row's value is truthy. */
  predicate Usable(row: Row, key: string, inKeyset: bool) {
    inKeyset && Attr(row, key) != ""
  }

  /** `determineCostCenter(result, facet, entityName, appName)`. `hasEntityName`
      and `hasAppName` say whether the data type's keyset holds `entity.name` and
      `appName`. A non-empty row facet always wins; only with fallbacks on are
      `entity.name`, then `appName` tried; the label found is rewritten, and the
      result is never empty. */
  function DetermineCostCenter(s: Settings, row: Row, hasEntityName: bool, hasAppName: bool): (costCenter: string)
    ensures costCenter != ""
    ensures Attr(row, "facet") != "" ==>
      costCenter == OrNotAvailable(ApplyCostCenterPatterns(s.patterns, Attr(row, "facet")))
    ensures Attr(row, "facet") == "" && s.useFallbackFacets && Usable(row, "entity.name", hasEntityName) ==>
      costCenter == OrNotAvailable(ApplyCostCenterPatterns(s.patterns, Attr(row, "entity.name")))
    ensures (Attr(row, "facet") == "" && s.useFallbackFacets && !Usable(row, "entity.name", hasEntityName)
             && Usable(row, "appName", hasAppName)) ==>
      costCenter == OrNotAvailable(ApplyCostCenterPatterns(s.patterns, Attr(row, "appName")))
    ensures Attr(row, "facet") == "" && !s.useFallbackFacets ==> costCenter == "n/a"
    ensures (Attr(row, "facet") == "" && !Usable(row, "entity.name", hasEntityName)
             && !Usable(row, "appName", hasAppName)) ==> costCenter == "n/a"
  {
    var found :=
      if Attr(row, "facet") != "" then Attr(row, "facet")
      else if s.useFallbackFacets then
        if Usable(row, "entity.name", hasEntityName) then Attr(row, "entity.name")
        else if Usable(row, "appName", hasAppName) then Attr(row, "appName")
        else ""
      else "";
    OrNotAvailable(if found != "" then ApplyCostCenterPatterns(s.patterns, found) else found)
  }
}
