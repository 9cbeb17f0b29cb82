/** The analysis record `AIAnalyzer` returns (ai_analyzer.py) and the
    decision it drives. In Python it is a dict with optional keys; here every
    key is an `Option` field, and `Items` is `dict.get(key, [])`. */
module Analysis {
  import opened Results
  import opened Strings

  /** One element of `documentation_entries`. The updater never reads it. */
  datatype DocEntry = DocEntry(name: string, description: string, input: string, output: string)

  /** An analysis dict: each field is `None` when the key is absent. */
  datatype Analysis = Analysis(
    newFeatures: Option<seq<string>>,
    removedFeatures: Option<seq<string>>,
    modifiedFeatures: Option<seq<string>>,
    configurationUpdates: Option<seq<string>>,
    documentationEntries: Option<seq<DocEntry>>,
    significance: Option<string>,
    summary: Option<string>,
    error: Option<string>,
    parseError: Option<string>)

  /** A dict with no keys at all. */
  const Empty := Analysis(None, None, None, None, None, None, None, None, None)

  /** `analysis.get(key, [])`. */
  function Items(field: Option<seq<string>>): (r: seq<string>)
    ensures field.None? ==> r == []
    ensures field.Some? ==> r == field.value
  {
    field.GetOr([])
  }

  /** The significance levels that call for an update by themselves. */
  predicate IsSignificant(level: string) {
    level == "medium" || level == "high"
  }

  /** `AIAnalyzer.should_update_readme`: some new, removed or configuration
      item, or a significance of medium or high (a missing one counts as low). */
  function ShouldUpdateReadme(a: Analysis): (r: bool)
    ensures a.significance.None? ==> (r <==> |Items(a.newFeatures)| + |Items(a.removedFeatures)| + |Items(a.configurationUpdates)| > 0)
    ensures a == Empty ==> !r
    ensures a.significance == Some("medium") || a.significance == Some("high") ==> r
    ensures a.significance.Some? && !IsSignificant(a.significance.value) ==>
      (r <==> |Items(a.newFeatures)| + |Items(a.removedFeatures)| + |Items(a.configurationUpdates)| > 0)
  {
    var hasChanges :=
      || |Items(a.newFeatures)| > 0
      || |Items(a.removedFeatures)| > 0
      || |Items(a.configurationUpdates)| > 0;
    var isSignificant := IsSignificant(a.significance.GetOr("low"));
    hasChanges || isSignificant
  }

  /** Modified features, documentation entries, the summary and the error keys
      never influence the decision. */
  lemma ShouldUpdateReadmeIgnores(a: Analysis, b: Analysis)
    requires a.newFeatures == b.newFeatures && a.removedFeatures == b.removedFeatures
    requires a.configurationUpdates == b.configurationUpdates && a.significance == b.significance
    ensures ShouldUpdateReadme(a) == ShouldUpdateReadme(b)
  {
  }

  /** A level other than medium or high weighs exactly as much as no level
      at all: only the lists decide. */
  lemma InsignificantLevelIsAbsent(a: Analysis, level: string)
    requires !IsSignificant(level)
    ensures ShouldUpdateReadme(a.(significance := Some(level))) == ShouldUpdateReadme(a.(significance := None))
  {
  }

  /** The decision is monotone in the lists: adding items never withdraws it. */
  lemma ShouldUpdateReadmeMonotone(a: Analysis, extra: seq<string>)
    requires ShouldUpdateReadme(a)
    ensures ShouldUpdateReadme(a.(newFeatures := Some(Items(a.newFeatures) + extra)))
  {
  }

  // ---------------------------------------------------------------------------
  // Normalisation of a decoded response

  /** The dict `_parse_analysis_response` builds from decoded JSON: the seven
      known keys, each with its default, significance lower-cased, every
      other key dropped. */
  function Normalise(data: Analysis): (r: Analysis)
    ensures r.newFeatures == Some(Items(data.newFeatures))
    ensures r.removedFeatures == Some(Items(data.removedFeatures))
    ensures r.modifiedFeatures == Some(Items(data.modifiedFeatures))
    ensures r.configurationUpdates == Some(Items(data.configurationUpdates))
    ensures r.documentationEntries == Some(data.documentationEntries.GetOr([]))
    ensures r.significance == Some(Lower(data.significance.GetOr("medium")))
    ensures r.summary == Some(data.summary.GetOr(""))
    ensures r.error.None? && r.parseError.None?
    ensures Lower(r.significance.value) == r.significance.value
  {
    var level := Lower(data.significance.GetOr("medium"));
    LowerIdempotent(data.significance.GetOr("medium"));
    Analysis(
      newFeatures := Some(Items(data.newFeatures)),
      removedFeatures := Some(Items(data.removedFeatures)),
      modifiedFeatures := Some(Items(data.modifiedFeatures)),
      configurationUpdates := Some(Items(data.configurationUpdates)),
      documentationEntries := Some(data.documentationEntries.GetOr([])),
      significance := Some(level),
      summary := Some(data.summary.GetOr("")),
      error := None,
      parseError := None)
  }

  /** Normalising a normalised record changes nothing. */
  lemma NormaliseIdempotent(data: Analysis)
    ensures Normalise(Normalise(data)) == Normalise(data)
  {
    LowerIdempotent(data.significance.GetOr("medium"));
  }

  /** A response that leaves out `significance` is read as medium, so it
      always calls for an update. */
  lemma MissingSignificanceUpdates(data: Analysis)
    requires data.significance.None?
    ensures ShouldUpdateReadme(Normalise(data))
  {
    assert Lower("medium") == "medium";
  }

  /** After normalisation, the case of the significance does not matter. */
  lemma NormaliseIgnoresCase(data: Analysis, level: string)
    requires data.significance == Some(level)
    ensures ShouldUpdateReadme(Normalise(data)) == ShouldUpdateReadme(Normalise(data.(significance := Some(Lower(level)))))
  {
    LowerIdempotent(level);
  }

  /** Normalisation keeps the decision whenever the significance given is
      already lower case, and adds the keys nobody reads. */
  lemma NormalisePreservesDecision(data: Analysis)
    requires data.significance.Some? && Lower(data.significance.value) == data.significance.value
    ensures ShouldUpdateReadme(Normalise(data)) == ShouldUpdateReadme(data)
  {
  }

  // ---------------------------------------------------------------------------
  // Fallback records

  /** The dict `analyze_changes` returns when the request raises `e`. */
  function RequestFailure(message: string): (r: Analysis)
    ensures r.error == Some(message) && r.parseError.None?
    ensures Items(r.newFeatures) == [] && Items(r.removedFeatures) == [] && Items(r.configurationUpdates) == []
    ensures r.significance == Some("low")
  {
    Analysis(
      newFeatures := Some([]),
      removedFeatures := Some([]),
      modifiedFeatures := Some([]),
      configurationUpdates := None,
      documentationEntries := None,
      significance := Some("low"),
      summary := Some(""),
      error := Some(message),
      parseError := None)
  }

  /** The dict `_parse_analysis_response` returns when no JSON object can be
      found or decoded. */
  function ParseFailure(message: string): (r: Analysis)
    ensures r.parseError == Some(message) && r.error.None?
    ensures Items(r.newFeatures) == [] && Items(r.removedFeatures) == [] && Items(r.configurationUpdates) == []
    ensures r.significance == Some("low")
  {
    Analysis(
      newFeatures := Some([]),
      removedFeatures := Some([]),
      modifiedFeatures := Some([]),
      configurationUpdates := None,
      documentationEntries := None,
      significance := Some("low"),
      summary := Some("Unable to analyze changes automatically."),
      error := None,
      parseError := Some(message))
  }

  /** Neither fallback ever calls for an update. */
  lemma FailuresNeverUpdate(message: string)
    ensures !ShouldUpdateReadme(RequestFailure(message))
    ensures !ShouldUpdateReadme(ParseFailure(message))
  {
  }
}
