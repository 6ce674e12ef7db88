/**
 * The errors collector of one validation pass: an append-only log. Besides the
 * records a node adds itself, the log marks each call a node makes into a
 * number node, at the point where that node's own records would be appended.
 */
module ErrorLog {
  import opened Wrappers
  import opened JsValues
  import opened Paths
  import opened NodeConfigs

  datatype Entry =
    /** `errors.add(path, key)` */
    | Error(path: Path, key: string)
    /** `NumberNode(config).validate(path, value, errors, options)`: whatever that node reports */
    | NumberChecked(config: Option<NodeConfig>, path: Path, value: Value)

  class Errors {
    var entries: seq<Entry>

    constructor ()
      ensures entries == []
    {
      entries := [];
    }

    /** Appends one record; nothing already recorded changes. */
    method Add(path: Path, key: string)
      modifies this
      ensures entries == old(entries) + [Error(path, key)]
    {
      entries := entries + [Error(path, key)];
    }
  }

  /**
   * The keys of the records the node itself added at exactly `p`, in order.
   * What a delegated number node reports there stays inside its marker entry.
   */
  function KeysAt(entries: seq<Entry>, p: Path): seq<string>
  {
    if entries == [] then []
    else
      var here := if entries[0].Error? && entries[0].path == p then [entries[0].key] else [];
      here + KeysAt(entries[1..], p)
  }

  /** The number-node calls in the log, in order. */
  function Checks(entries: seq<Entry>): seq<Entry>
  {
    if entries == [] then []
    else (if entries[0].NumberChecked? then [entries[0]] else []) + Checks(entries[1..])
  }

  /** Appending to the log appends to what each path holds. */
  lemma {:induction false} KeysAtAppend(a: seq<Entry>, b: seq<Entry>, p: Path)
    ensures KeysAt(a + b, p) == KeysAt(a, p) + KeysAt(b, p)
  {
    if a == [] {
      assert a + b == b;
    } else {
      assert (a + b)[1..] == a[1..] + b;
      KeysAtAppend(a[1..], b, p);
    }
  }

  /** Appending to the log appends to the recorded number-node calls. */
  lemma {:induction false} ChecksAppend(a: seq<Entry>, b: seq<Entry>)
    ensures Checks(a + b) == Checks(a) + Checks(b)
  {
    if a == [] {
      assert a + b == b;
    } else {
      assert (a + b)[1..] == a[1..] + b;
      assert (a + b)[0] == a[0];
      ChecksAppend(a[1..], b);
    }
  }
}
