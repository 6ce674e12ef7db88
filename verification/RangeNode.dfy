/**
 * The range node: a numeric field that holds an exact number, a `{min, max}`
 * range or a `{type: 'binomial', n, p}` distribution. The node only holds its
 * configuration, fixed at construction; the variant is read off the value
 * itself every time.
 */
module RangeNodes {
  import opened Wrappers
  import opened JsValues
  import opened Paths
  import opened NodeConfigs
  import opened ErrorLog
  import NumberNodes

  const ExpectedRange := "error.expected_range"
  const InvalidExact := "error.invalid_exact"
  const InvalidBinomial := "error.invalid_binomial"

  /** The three shapes of an `IRange`. */
  datatype Variant = Exact | Range | Binomial

  /** The shape check of `validate`: only numbers and objects get past it. */
  predicate RangeTyped(v: Value)
    ensures RangeTyped(v) <==> v.Num? || v.Obj? || v == Null || v == ValidationOption
  {
    TypeOf(v) == TNumber || TypeOf(v) == TObject
  }

  /** The variant `validate` takes for a value that passed the shape check. */
  function Classify(v: Value): (r: Variant)
    requires RangeTyped(v) && v != Null
    ensures r == Exact <==> v == ValidationOption || v.Num?
    ensures r == Binomial <==> v.Obj? && "type" in v.fields && v.fields["type"] == Str("binomial")
  {
    if v == ValidationOption || TypeOf(v) == TNumber then Exact
    else if Field(v, "type") == Str("binomial") then Binomial
    else Range
  }

  /**
   * The variant `render` shows (its `curType`). Render has no shape check:
   * it reads `value.type` of anything that is not a number or the sentinel.
   */
  function RenderVariant(v: Value): (r: Variant)
    requires v != Null && v != Undefined
    ensures r == Exact <==> v == ValidationOption || v.Num?
    ensures r == Binomial <==> v.Obj? && "type" in v.fields && v.fields["type"] == Str("binomial")
    ensures v.Bool? || v.Str? || v == Other ==> r == Range
  {
    if v == ValidationOption || TypeOf(v) == TNumber then Exact
    else if Field(v, "type") == Str("binomial") then Binomial
    else Range
  }

  /** `q` is `p` extended by one of the sub-field keys a range value has. */
  predicate IsSubFieldPath(q: Path, p: Path)
  {
    |q| == |p| + 1 && q[..|p|] == p && q[|p|] in {"n", "p", "min", "max"}
  }

  datatype RangeNode = RangeNode(config: Option<NodeConfig>) {

    predicate ForceRange()
    {
      config.Some? && Enabled(config.value.forceRange)
    }

    predicate AllowBinomial()
    {
      config.Some? && Enabled(config.value.allowBinomial)
    }

    /** The variants `validate` takes without adding an error of its own. */
    function AcceptedVariants(): set<Variant>
    {
      {Range} + (if ForceRange() then {} else {Exact}) + (if AllowBinomial() then {Binomial} else {})
    }

    /** The modes the variant selector offers; there is no selector under `forceRange`. */
    function SelectOptions(): (r: set<Variant>)
      ensures r == if ForceRange() then {} else AcceptedVariants()
    {
      if ForceRange() then {}
      else {Exact, Range} + (if AllowBinomial() then {Binomial} else {})
    }

    /** `default()`: an empty range under `forceRange`, the number 0 otherwise. */
    function Default(): (r: Value)
      ensures RangeTyped(r) && r != Null
      ensures Classify(r) == (if ForceRange() then Range else Exact)
      ensures Classify(r) in AcceptedVariants()
    {
      if ForceRange() then Obj(map[]) else Num(0.0)
    }

    /** The value the selector's change handler writes when `mode` is picked. */
    function SwitchValue(mode: Variant): (r: Value)
      ensures RangeTyped(r) && r != Null
      ensures mode in SelectOptions() ==> Classify(r) == mode
    {
      match mode
      case Exact => Default()
      case Binomial => Obj(map["type" := Str("binomial")])
      case Range => Obj(map[])
    }

    /** A range's `min` or `max`: skipped when it is the sentinel, delegated otherwise. */
    function BoundEntries(path: Path, value: Value, key: string): (r: seq<Entry>)
      requires value != Null && value != Undefined
      ensures |r| <= 1
      ensures r == [] <==> Field(value, key) == ValidationOption
      ensures forall e | e in r :: e == NumberChecked(config, Push(path, key), Field(value, key))
    {
      var bound := Field(value, key);
      if bound == ValidationOption then [] else [NumberChecked(config, Push(path, key), bound)]
    }

    /**
     * What one `validate(path, value, errors)` appends to the collector. Its
     * own records are all at `path` itself and there is at most one of them;
     * every delegated call is at `path` or one key below it.
     */
    function ValidationEntries(path: Path, value: Value): (r: seq<Entry>)
      requires value != Null
      ensures |r| <= 2
      ensures forall e | e in r :: e.Error? ==> e.path == path
      ensures forall i, j | 0 <= i < j < |r| :: !(r[i].Error? && r[j].Error?)
      ensures forall e | e in r :: e.NumberChecked? ==> e.path == path || IsSubFieldPath(e.path, path)
    {
      if !RangeTyped(value) then [Error(path, ExpectedRange)]
      else
        match Classify(value)
        case Exact =>
          (if ForceRange() then [Error(path, InvalidExact)] else []) + [NumberChecked(config, path, value)]
        case Binomial =>
          if AllowBinomial() then
            [NumberChecked(Some(NumberNodes.NonNegativeInteger), Push(path, "n"), Field(value, "n")),
             NumberChecked(Some(NumberNodes.Probability), Push(path, "p"), Field(value, "p"))]
          else [Error(path, InvalidBinomial)]
        case Range =>
          BoundEntries(path, value, "min") + BoundEntries(path, value, "max")
    }

    /**
     * `validate(path, value, errors, options)`: returns the value it was given
     * and only appends to `errors`.
     */
    method Validate(path: Path, value: Value, errors: Errors) returns (r: Value)
      requires value != Null
      modifies errors
      ensures r == value
      ensures errors.entries == old(errors.entries) + ValidationEntries(path, value)
    {
      if TypeOf(value) != TNumber && TypeOf(value) != TObject {
        errors.Add(path, ExpectedRange);
        return value;
      }
      if value == ValidationOption || TypeOf(value) == TNumber {
        if ForceRange() {
          errors.Add(path, InvalidExact);
        }
        NumberNodes.Validate(config, path, value, errors);
      } else if Field(value, "type") == Str("binomial") {
        if AllowBinomial() {
          NumberNodes.Validate(Some(NumberNodes.NonNegativeInteger), Push(path, "n"), Field(value, "n"), errors);
          NumberNodes.Validate(Some(NumberNodes.Probability), Push(path, "p"), Field(value, "p"), errors);
        } else {
          errors.Add(path, InvalidBinomial);
        }
      } else {
        if Field(value, "min") != ValidationOption {
          NumberNodes.Validate(config, Push(path, "min"), Field(value, "min"), errors);
        }
        if Field(value, "max") != ValidationOption {
          NumberNodes.Validate(config, Push(path, "max"), Field(value, "max"), errors);
        }
      }
      return value;
    }
  }
}
