/**
 * The configuration object handed to a numeric node constructor. A range node
 * accepts all five keys; the number nodes it builds receive either the range
 * node's own object or a literal that sets only some of them.
 */
module NodeConfigs {
  import opened Wrappers
  import opened JsValues

  datatype NodeConfig = NodeConfig(
    /** Restricts values to whole numbers */
    integer: Option<bool>,
    /** Lower bound */
    min: Option<Number>,
    /** Upper bound */
    max: Option<Number>,
    /** Accepts the binomial variant */
    allowBinomial: Option<bool>,
    /** Rejects exact values, so only the range variant is accepted */
    forceRange: Option<bool>)

  /** `config?.key` is truthy for an optional boolean key. */
  predicate Enabled(flag: Option<bool>)
  {
    flag == Some(true)
  }
}
