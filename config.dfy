/**
  The configuration tables of the vision library and the check the handler
  makes of the three requested keys before it touches the disk.
 */
module Config {
  import opened Wrappers

  /** A configuration is a dictionary; the handler reads only its "output" entry. */
  type Conf = map<string, string>

  /** `extract_features.confs` and `match_features.confs`. */
  datatype Tables = Tables(extractConfs: map<string, Conf>, matchConfs: map<string, Conf>)

  /** The three query parameters of the request. */
  datatype Keys = Keys(retrieval: string, feature: string, matcher: string)

  /** Which parameter failed, with what value, against which table. */
  datatype Rejection = Rejection(field: string, value: string, table: string)

  /** The "error" text of the 400 response. */
  function Message(r: Rejection): string {
    r.field + " '" + r.value + "' not found in " + r.table
  }

  /**
    The three membership tests in source order; the first that fails is
    reported and the later keys are not looked at.
   */
  function Validate(t: Tables, k: Keys): (r: Option<Rejection>)
    ensures r.None? <==> k.retrieval in t.extractConfs && k.feature in t.extractConfs && k.matcher in t.matchConfs
    ensures r.Some? && r.value.field == "retrieval_conf_key" <==> k.retrieval !in t.extractConfs
    ensures r.Some? && r.value.field == "feature_conf_key" <==>
      k.retrieval in t.extractConfs && k.feature !in t.extractConfs
    ensures r.Some? && r.value.field == "matcher_conf_key" <==>
      k.retrieval in t.extractConfs && k.feature in t.extractConfs && k.matcher !in t.matchConfs
    ensures r.Some? ==> r.value.field in {"retrieval_conf_key", "feature_conf_key", "matcher_conf_key"}
    ensures r.Some? && r.value.field == "retrieval_conf_key" ==>
      r.value == Rejection("retrieval_conf_key", k.retrieval, "extract_features.confs")
    ensures r.Some? && r.value.field == "feature_conf_key" ==>
      r.value == Rejection("feature_conf_key", k.feature, "extract_features.confs")
    ensures r.Some? && r.value.field == "matcher_conf_key" ==>
      r.value == Rejection("matcher_conf_key", k.matcher, "match_features.confs")
  {
    if k.retrieval !in t.extractConfs then
      Some(Rejection("retrieval_conf_key", k.retrieval, "extract_features.confs"))
    else if k.feature !in t.extractConfs then
      Some(Rejection("feature_conf_key", k.feature, "extract_features.confs"))
    else if k.matcher !in t.matchConfs then
      Some(Rejection("matcher_conf_key", k.matcher, "match_features.confs"))
    else None
  }

  /**
    Only the first bad key is reported, and the keys after it are not
    looked at: while the retrieval key is bad, neither the feature nor the
    matcher key matters; while the feature key is bad, the matcher key
    does not matter.
   */
  lemma LaterKeysNotExamined(t: Tables, k: Keys, f: string, m: string)
    requires Validate(t, k).Some?
    ensures Validate(t, k).value.field == "retrieval_conf_key" ==>
      Validate(t, k.(feature := f, matcher := m)) == Validate(t, k)
    ensures Validate(t, k).value.field == "feature_conf_key" ==>
      Validate(t, k.(matcher := m)) == Validate(t, k)
  {
  }
}
