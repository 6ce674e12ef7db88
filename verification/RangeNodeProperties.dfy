/**
 * What a `validate` call of the range node does to an errors collector that
 * already holds `log`, variant by variant; how `render`, `default` and the
 * variant selector line up with it.
 */
module RangeNodeProperties {
  import opened Wrappers
  import opened JsValues
  import opened Paths
  import opened NodeConfigs
  import opened ErrorLog
  import opened RangeNodes

  /** Appending one entry to a log appends at most one key at its path and at most one call. */
  lemma AppendedOne(log: seq<Entry>, e: Entry)
    ensures forall q :: KeysAt(log + [e], q) == KeysAt(log, q) + (if e.Error? && e.path == q then [e.key] else [])
    ensures Checks(log + [e]) == Checks(log) + (if e.NumberChecked? then [e] else [])
  {
    assert [e][1..] == [];
    forall q ensures KeysAt(log + [e], q) == KeysAt(log, q) + (if e.Error? && e.path == q then [e.key] else []) {
      KeysAtAppend(log, [e], q);
      var here := if e.Error? && e.path == q then [e.key] else [];
      assert KeysAt([e], q) == here + KeysAt([], q) == here;
    }
    ChecksAppend(log, [e]);
  }

  /** Appending two entries, one after the other. */
  lemma AppendedTwo(log: seq<Entry>, e: Entry, f: Entry)
    ensures forall q :: KeysAt(log + [e, f], q)
                     == KeysAt(log, q) + (if e.Error? && e.path == q then [e.key] else [])
                                       + (if f.Error? && f.path == q then [f.key] else [])
    ensures Checks(log + [e, f]) == Checks(log) + (if e.NumberChecked? then [e] else [])
                                                + (if f.NumberChecked? then [f] else [])
  {
    assert log + [e, f] == (log + [e]) + [f];
    AppendedOne(log, e);
    AppendedOne(log + [e], f);
  }

  /** Appending zero, one or two entries. */
  lemma Appended(log: seq<Entry>, more: seq<Entry>)
    requires |more| <= 2
    ensures forall q :: KeysAt(log + more, q)
                     == KeysAt(log, q) + (if |more| > 0 && more[0].Error? && more[0].path == q then [more[0].key] else [])
                                       + (if |more| > 1 && more[1].Error? && more[1].path == q then [more[1].key] else [])
    ensures Checks(log + more) == Checks(log) + (if |more| > 0 && more[0].NumberChecked? then [more[0]] else [])
                                              + (if |more| > 1 && more[1].NumberChecked? then [more[1]] else [])
  {
    if |more| == 0 {
      assert log + more == log;
    } else if |more| == 1 {
      assert more == [more[0]];
      AppendedOne(log, more[0]);
    } else {
      assert more == [more[0], more[1]];
      AppendedTwo(log, more[0], more[1]);
    }
  }

  /**
   * A value that is neither a number nor an object gets exactly one
   * `error.expected_range`, at `path`, and nothing is delegated.
   */
  lemma {:induction false} WrongShapeReported(node: RangeNode, path: Path, v: Value, log: seq<Entry>)
    requires !RangeTyped(v)
    ensures KeysAt(log + node.ValidationEntries(path, v), path) == KeysAt(log, path) + [ExpectedRange]
    ensures forall q | q != path :: KeysAt(log + node.ValidationEntries(path, v), q) == KeysAt(log, q)
    ensures Checks(log + node.ValidationEntries(path, v)) == Checks(log)
  {
    Appended(log, node.ValidationEntries(path, v));
  }

  /**
   * An exact value (a number or the sentinel) gets one `error.invalid_exact`
   * at `path` exactly when `forceRange` is set, and is delegated to the node's
   * own number node at `path` either way.
   */
  lemma {:induction false} ExactValue(node: RangeNode, path: Path, v: Value, log: seq<Entry>)
    requires RangeTyped(v) && v != Null && Classify(v) == Exact
    ensures KeysAt(log + node.ValidationEntries(path, v), path)
         == KeysAt(log, path) + (if node.ForceRange() then [InvalidExact] else [])
    ensures forall q | q != path :: KeysAt(log + node.ValidationEntries(path, v), q) == KeysAt(log, q)
    ensures Checks(log + node.ValidationEntries(path, v)) == Checks(log) + [NumberChecked(node.config, path, v)]
  {
    Appended(log, node.ValidationEntries(path, v));
  }

  /**
   * A binomial under a configuration without `allowBinomial` gets one
   * `error.invalid_binomial` at `path`; `n` and `p` are not looked at.
   */
  lemma {:induction false} BinomialRejected(node: RangeNode, path: Path, v: Value, log: seq<Entry>)
    requires RangeTyped(v) && v != Null && Classify(v) == Binomial && !node.AllowBinomial()
    ensures KeysAt(log + node.ValidationEntries(path, v), path) == KeysAt(log, path) + [InvalidBinomial]
    ensures forall q | q != path :: KeysAt(log + node.ValidationEntries(path, v), q) == KeysAt(log, q)
    ensures Checks(log + node.ValidationEntries(path, v)) == Checks(log)
  {
    Appended(log, node.ValidationEntries(path, v));
  }

  /**
   * A binomial under `allowBinomial` gets no record of the range node's own;
   * `n` goes to a non-negative integer check at `path/n` and `p` to a [0, 1]
   * check at `path/p`, in that order.
   */
  lemma {:induction false} BinomialDelegated(node: RangeNode, path: Path, v: Value, log: seq<Entry>)
    requires RangeTyped(v) && v != Null && Classify(v) == Binomial && node.AllowBinomial()
    ensures forall q :: KeysAt(log + node.ValidationEntries(path, v), q) == KeysAt(log, q)
    ensures Checks(log + node.ValidationEntries(path, v))
         == Checks(log) + [NumberChecked(Some(NodeConfig(Some(true), Some(0.0), None, None, None)), Push(path, "n"), Field(v, "n")),
                           NumberChecked(Some(NodeConfig(None, Some(0.0), Some(1.0), None, None)), Push(path, "p"), Field(v, "p"))]
  {
    Appended(log, node.ValidationEntries(path, v));
  }

  /**
   * A range gets no record of the range node's own (in particular `min` and
   * `max` are never compared); each bound that is not the sentinel is
   * delegated at `path/min` or `path/max`, and a sentinel bound is skipped.
   */
  lemma {:induction false} RangeDelegated(node: RangeNode, path: Path, v: Value, log: seq<Entry>)
    requires RangeTyped(v) && v != Null && Classify(v) == Range
    ensures forall q :: KeysAt(log + node.ValidationEntries(path, v), q) == KeysAt(log, q)
    ensures Checks(log + node.ValidationEntries(path, v))
         == Checks(log)
            + (if Field(v, "min") == ValidationOption then [] else [NumberChecked(node.config, Push(path, "min"), Field(v, "min"))])
            + (if Field(v, "max") == ValidationOption then [] else [NumberChecked(node.config, Push(path, "max"), Field(v, "max"))])
  {
    Appended(log, node.ValidationEntries(path, v));
  }

  /**
   * Validating the default adds no record of the range node's own, under
   * either configuration. Under `forceRange` the default `{}` takes the range
   * branch and its absent bounds are handed to the number node as
   * `undefined`; otherwise `0` takes the exact branch.
   */
  lemma {:induction false} DefaultValidation(node: RangeNode, path: Path, log: seq<Entry>)
    ensures forall q :: KeysAt(log + node.ValidationEntries(path, node.Default()), q) == KeysAt(log, q)
    ensures Checks(log + node.ValidationEntries(path, node.Default()))
         == Checks(log)
            + if node.ForceRange()
              then [NumberChecked(node.config, Push(path, "min"), Undefined), NumberChecked(node.config, Push(path, "max"), Undefined)]
              else [NumberChecked(node.config, path, Num(0.0))]
  {
    Appended(log, node.ValidationEntries(path, node.Default()));
  }

  /**
   * `render` and `validate` repeat the same two tests, so they put every
   * value that passes the shape check in the same variant. What this lemma
   * adds is the variant by constructor: exact iff the value is the sentinel
   * or a number, binomial iff it is an object whose `type` is 'binomial',
   * range for every other object.
   */
  lemma ClassificationAgrees(v: Value)
    requires RangeTyped(v) && v != Null
    ensures RenderVariant(v) == Classify(v)
    ensures Classify(v) == Exact <==> v == ValidationOption || v.Num?
    ensures Classify(v) == Binomial <==> v.Obj? && Field(v, "type") == Str("binomial")
    ensures Classify(v) == Range <==> v.Obj? && Field(v, "type") != Str("binomial")
  {
  }

  /**
   * `validate` adds no record of its own exactly when the value passes the
   * shape check and its variant is one the configuration accepts.
   */
  lemma OwnErrorFreeIff(node: RangeNode, path: Path, v: Value)
    requires v != Null
    ensures (forall e | e in node.ValidationEntries(path, v) :: !e.Error?)
        <==> RangeTyped(v) && Classify(v) in node.AcceptedVariants()
  {
    var r := node.ValidationEntries(path, v);
    if !RangeTyped(v) || Classify(v) !in node.AcceptedVariants() {
      assert r[0] in r && r[0].Error?;
    } else if Classify(v) == Range {
      assert r == node.BoundEntries(path, v, "min") + node.BoundEntries(path, v, "max");
    }
  }

  /** Whatever mode the selector offers, the value it writes validates without a record of the range node's own. */
  lemma SwitchValueAccepted(node: RangeNode, path: Path, mode: Variant)
    requires mode in node.SelectOptions()
    ensures forall e | e in node.ValidationEntries(path, node.SwitchValue(mode)) :: !e.Error?
  {
    OwnErrorFreeIff(node, path, node.SwitchValue(mode));
  }
}
