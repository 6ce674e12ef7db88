/**
 * The number node a range node delegates to. Its own checks (integer, bounds)
 * are not part of this model: a call is recorded in the collector and nothing
 * is said about what it reports.
 */
module NumberNodes {
  import opened Wrappers
  import opened JsValues
  import opened Paths
  import opened NodeConfigs
  import opened ErrorLog

  /** `{ min: 0, integer: true }`, used for a binomial's trial count. */
  const NonNegativeInteger := NodeConfig(Some(true), Some(0.0), None, None, None)

  /** `{ min: 0, max: 1 }`, used for a binomial's probability. */
  const Probability := NodeConfig(None, Some(0.0), Some(1.0), None, None)

  /** `NumberNode(config).validate(path, value, errors, options)` */
  method Validate(config: Option<NodeConfig>, path: Path, value: Value, errors: Errors)
    modifies errors
    ensures errors.entries == old(errors.entries) + [NumberChecked(config, path, value)]
  {
    errors.entries := errors.entries + [NumberChecked(config, path, value)];
  }
}
