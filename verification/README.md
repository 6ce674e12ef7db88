# Range node: validation and defaults

A Dafny model of the range node of a declarative document-schema library. A
range node governs a numeric field whose value takes one of three shapes,
told apart by the value itself:

- an exact number (or the "unspecified" sentinel `getValidationOption`);
- a `{min?, max?}` range;
- a `{type: 'binomial', n?, p?}` distribution.

The node holds only its configuration (`integer`, `min`, `max`,
`allowBinomial`, `forceRange`), fixed when it is built. The model covers:

- `default()`;
- `validate(path, value, errors, options)`, as an imperative method that
  appends to an errors collector and is proved against a pure function
  (`ValidationEntries`) giving exactly what it appends;
- the variant classification that `render` and `validate` each compute;
- the variant selector's options and the value its change handler writes.

Collaborators whose code is not part of this model get the least structure
they need:

- `Path` is a sequence of keys, and `push` appends one key (`Paths`).
- `Errors` is an append-only log (`ErrorLog.Errors`), and `add` appends one
  record.
- `NumberNode(config).validate` is opaque. Each call is recorded in the
  collector as one `NumberChecked(config, path, value)` entry. That entry
  stands for whatever the number node reports there, and the model says
  nothing about what that is.
- `getValidationOption` is the `ValidationOption` constructor of
  `JsValues.Value`. It is unequal to every number, string and object.

Modules:

- `Wrappers`: `Option`.
- `JsValues`: JavaScript values, `typeof`, property reads.
- `Paths`: paths and `push`.
- `NodeConfigs`: the configuration object.
- `ErrorLog`: the collector, its per-path query `KeysAt`, its call trace
  `Checks`, and how both split over appends.
- `NumberNodes`: the delegate boundary and the two literal number-node
  configurations.
- `RangeNodes`: the range node.
- `RangeNodeProperties`: what one `validate` does to a collector that already
  holds any log, variant by variant.

## Model

| member | source | states |
|---|---|---|
| `RangeNodes.RangeNode.Validate` | core/src/nodes/RangeNode.ts:95-121 | Returns the value it was given. The collector's new content is its old content with `ValidationEntries(path, value)` appended, so no existing record is removed or reordered. |
| `RangeNodes.RangeNode.ValidationEntries` | core/src/nodes/RangeNode.ts:95-121 | A pass appends at most two entries. Every record of the range node's own is at `path` itself, never deeper, and there is at most one of them. Every delegated number check is at `path` or one key (`n`, `p`, `min`, `max`) below it. |
| `RangeNodes.RangeNode.Default` | core/src/nodes/RangeNode.ts:48 | The default passes the shape check. It takes the range variant under `forceRange` and the exact variant otherwise, and either way its variant is one the configuration accepts. |
| `RangeNodes.RangeNode.SelectOptions` | core/src/nodes/RangeNode.ts:85-91 | No selector under `forceRange`. Otherwise the selector offers exactly the variants `validate` accepts: exact and range, plus binomial with `allowBinomial`. |
| `RangeNodes.RangeTyped` | core/src/nodes/RangeNode.ts:96 | A value gets past the shape check iff it is a number, an object, `null` or the sentinel. |
| `RangeNodes.Classify` | core/src/nodes/RangeNode.ts:100-112 | The variant `validate` takes: exact iff the value is the sentinel or a number; binomial iff it is an object whose own `type` is `'binomial'`; range otherwise. |
| `RangeNodes.RenderVariant` | core/src/nodes/RangeNode.ts:52-62 | The variant `render` shows: exact iff the value is the sentinel or a number; binomial iff it is an object whose own `type` is `'binomial'`. Strings, booleans, symbols, bigints and functions without a `type` property show as range. |
| `RangeNodes.RangeNode.BoundEntries` | core/src/nodes/RangeNode.ts:113-118 | A range bound adds nothing iff it is the sentinel. Otherwise it adds one delegation of that bound to the node's own number node at `path/min` or `path/max`. |
| `Paths.Push` | core/src/nodes/RangeNode.ts:107-108 | `path.push(key)` yields a path one key longer that starts with the old path and ends with `key`. |
| `RangeNodes.RangeNode.SwitchValue` | core/src/nodes/RangeNode.ts:75-76 | The value written when a mode is picked passes the shape check. For every mode the selector offers, it classifies as that mode. |
| `ErrorLog.Errors.Add` | core/src/nodes/RangeNode.ts:97 | `errors.add(path, key)` appends one record and changes nothing already recorded. |
| `NumberNodes.Validate` | core/src/nodes/RangeNode.ts:104 | A delegated number-node call appends one marker entry carrying the configuration, path and value it was handed. |
| `RangeNodeProperties.WrongShapeReported` | core/src/nodes/RangeNode.ts:96-99 | A value that is neither a number nor an object gets exactly one `error.expected_range`, at `path`. No other path gains a record, and nothing is delegated. |
| `RangeNodeProperties.ExactValue` | core/src/nodes/RangeNode.ts:100-104 | An exact value (a number or the sentinel) gets one `error.invalid_exact` at `path` iff `forceRange` is set, and no record of the range node's own at any other path. Either way the value is delegated, once, to the node's own number node at `path`. |
| `RangeNodeProperties.BinomialRejected` | core/src/nodes/RangeNode.ts:105-111 | Without `allowBinomial`, a binomial gets exactly one `error.invalid_binomial` at `path`. No other path gains a record, and `n` and `p` are not delegated. |
| `RangeNodeProperties.BinomialDelegated` | core/src/nodes/RangeNode.ts:105-108 | With `allowBinomial`, a binomial gets no record of the range node's own anywhere. `n` goes to `{min: 0, integer: true}` at `path/n`, then `p` goes to `{min: 0, max: 1}` at `path/p`. Unlike a range's bounds, a sentinel `n` or `p` is not skipped: it is delegated too. |
| `RangeNodeProperties.RangeDelegated` | core/src/nodes/RangeNode.ts:112-119 | A range gets no record of the range node's own anywhere, so `min <= max` is never checked. A bound equal to the sentinel is skipped. Any other bound, including an absent one (`undefined`), is delegated to the node's own number node at `path/min` or `path/max`, `min` first. |
| `RangeNodeProperties.DefaultValidation` | core/src/nodes/RangeNode.ts:48 | Validating the default adds no record of the range node's own under either configuration. Under `forceRange` its two absent bounds are delegated as `undefined`; otherwise `0` is delegated at `path`. |
| `RangeNodeProperties.ClassificationAgrees` | core/src/nodes/RangeNode.ts:52-62 | `render` and `validate` put every value that passes the shape check in the same variant. Exact iff the value is the sentinel or a number; binomial iff it is an object whose `type` is `'binomial'`; range iff it is any other object. |
| `RangeNodeProperties.OwnErrorFreeIff` | core/src/nodes/RangeNode.ts:96-111 | `validate` adds no record of its own iff the value passes the shape check and its variant is one the configuration accepts: range always, exact unless `forceRange`, binomial only with `allowBinomial`. |
| `RangeNodeProperties.SwitchValueAccepted` | core/src/nodes/RangeNode.ts:71-80 | Whatever mode the selector offers, the value its change handler writes validates without a record of the range node's own. |

## Left out

- Functions, symbols and bigints are one `Other` value with one `typeof` tag. All three fail the shape check of `validate` alike, and `validate` reads nothing more of them.
- `RangeNodes.RenderVariant`: `Other` carries no properties, so a function with its own `type` property is not modelled. `render` reads `value.type` of such a function, and one whose `type` is `'binomial'` shows as binomial.
- `RangeNodes.RenderVariant`: `render` reads `value.type` with no shape check first, so it throws a TypeError on `null` and `undefined`, for example for an absent range field. The requires excludes both values instead of modelling the exception.
- `null` input: `typeof null` is `'object'`, so `null` passes the shape check and then `value.type` throws. `Validate` and `ValidationEntries` require `value != Null` instead of modelling the exception.
- The sentinel's `typeof`: `getValidationOption` is not defined in the range node's file. The model takes it to be an object, so it reaches the exact branch. If it were a function or a symbol, the shape check would report `error.expected_range` for it first. Either way, the sentinel tests on `min` and `max` behave as modelled.
- The number node's own checks (integer, lower and upper bounds): its source is not part of this model. Each call is recorded with its configuration, path and value, and nothing is said about what it reports.
- `NumberNodes.Validate`: the real delegate may append any number of records. The model appends a single marker standing for them.
- The `options` argument of `validate`: the range node passes it through unchanged to the number node and never reads it. It is not modelled.
- Numbers are reals compared by equality. NaN, the infinities and floating-point rounding are not modelled.
- Objects are plain maps of their own properties. Arrays and prototype properties are not modelled, and an array behaves like an object without these keys.
- `render`'s markup, its `locale(...)` lookups, `view.registerChange`, `view.register` and DOM event wiring are UI and foreign calls. Only the variant it shows, the selector's options and the value its change handler writes are modelled.
- `getState` is not modelled. It reads DOM inputs and parses them with JavaScript `Number` and `isNaN`, which is string-to-float conversion with browser semantics.
- The package index only re-exports, so it has no logic to model.
- `DataModel`, the view layer and the registries are not part of this model.
