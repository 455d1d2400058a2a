/**
  The plugin's two options and their defaulting: each one left out, or given
  as `false`, is off.
 */
module Config {
  import opened Outcomes

  /** The options object as a caller may pass it: absent, or with fields possibly absent. */
  datatype RawOptions = RawOptions(ignoreExt: Option<bool>, clone: Option<bool>)

  /** The options after defaulting. */
  datatype Options = Options(ignoreExt: bool, clone: bool)

  /** Absent options, or absent fields, are `false`; a given field keeps its value. */
  function Normalize(raw: Option<RawOptions>): (opts: Options)
    ensures opts.ignoreExt <==> raw.Some? && raw.value.ignoreExt == Some(true)
    ensures opts.clone <==> raw.Some? && raw.value.clone == Some(true)
  {
    var given := ValueOr(raw, RawOptions(None, None));
    Options(ValueOr(given.ignoreExt, false), ValueOr(given.clone, false))
  }

  /** Leaving out the options object, or every field of it, is the same as passing `false` for both. */
  lemma AbsentOptionsAreFalse()
    ensures Normalize(None) == Options(false, false)
    ensures Normalize(Some(RawOptions(None, None))) == Options(false, false)
  {
  }
}
