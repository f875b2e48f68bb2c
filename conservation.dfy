/**
 * Conservation of references across a run of IdRefCount operations: each
 * slot ends at its starting count plus the acquires of that identifier minus
 * the releases of handles holding it, and a run is free of contract
 * violations exactly when every such release is covered by an earlier count.
 */
module Conservation {
  import opened Slots
  import opened Lgrn

  /**
   * One call on an IdRefCount: RefAdd of an identifier, or RefRelease of a
   * handle holding `handle` (null for an empty handle).
   */
  datatype Op = Add(id: Id) | Release(handle: Id)

  /** A run either stops at a contract violation or reaches a table. */
  datatype Outcome = Violated | Reached(table: seq<nat>)

  /** The step's preconditions on the table it starts from. */
  predicate StepAllowed(s: seq<nat>, op: Op) {
    match op
    case Add(id) => id != NullId
    case Release(h) => h == NullId || (h.value < |s| && s[h.value] > 0)
  }

  /** The table after one allowed step, as RefAdd and RefRelease leave it. */
  function Step(s: seq<nat>, op: Op): seq<nat>
    requires StepAllowed(s, op)
  {
    match op
    case Add(id) => Acquired(s, id.value)
    case Release(h) => if h == NullId then s else Released(s, h.value)
  }

  /** Runs `ops` from table `s`, stopping at the first violated precondition. */
  function Run(s: seq<nat>, ops: seq<Op>): Outcome
    decreases |ops|
  {
    if ops == [] then Reached(s)
    else
      match Run(s, ops[..|ops| - 1])
      case Violated => Violated
      case Reached(t) =>
        var op := ops[|ops| - 1];
        if StepAllowed(t, op) then Reached(Step(t, op)) else Violated
  }

  /** The number of acquires of index `j` in `ops`. */
  function Adds(ops: seq<Op>, j: nat): nat
    decreases |ops|
  {
    if ops == [] then 0
    else Adds(ops[..|ops| - 1], j) + if ops[|ops| - 1] == Add(Id(j)) then 1 else 0
  }

  /** The number of releases, in `ops`, of handles holding index `j`. */
  function Releases(ops: seq<Op>, j: nat): nat
    decreases |ops|
  {
    if ops == [] then 0
    else Releases(ops[..|ops| - 1], j) + if ops[|ops| - 1] == Release(Id(j)) then 1 else 0
  }

  /**
   * Operation `k` is well matched: an acquire names a real identifier, and a
   * release of a handle holding `j` is covered, counting it, by the starting
   * count of `j` plus the acquires of `j` before it.
   */
  predicate MatchedAt(s: seq<nat>, ops: seq<Op>, k: nat)
    requires k < |ops|
  {
    match ops[k]
    case Add(id) => id != NullId
    case Release(h) =>
      h == NullId || Releases(ops[..k + 1], h.value) <= Slot(s, h.value) + Adds(ops[..k], h.value)
  }

  /** Every operation of the run is well matched. */
  predicate Matched(s: seq<nat>, ops: seq<Op>) {
    forall k :: 0 <= k < |ops| ==> MatchedAt(s, ops, k)
  }

  /**
   * Conservation: after a run without violations, each slot equals its
   * starting count plus the acquires of that index minus the releases of
   * handles holding it, and the table has not shrunk.
   */
  lemma {:induction false} Conserved(s: seq<nat>, ops: seq<Op>, j: nat)
    requires Run(s, ops).Reached?
    ensures |Run(s, ops).table| >= |s|
    ensures Slot(Run(s, ops).table, j) + Releases(ops, j) == Slot(s, j) + Adds(ops, j)
  {
    if ops != [] {
      var init, op := ops[..|ops| - 1], ops[|ops| - 1];
      Conserved(s, init, j);
      var t := Run(s, init).table;
      assert Run(s, ops).table == Step(t, op);
      match op
      case Add(id) =>
        assert Slot(Step(t, op), j) == Slot(t, j) + if j == id.value then 1 else 0;
      case Release(h) =>
        if h != NullId {
          assert Slot(Step(t, op), j) + (if j == h.value then 1 else 0) == Slot(t, j);
        }
    }
  }

  /** The first `k` operations of `ops` are judged alike inside a longer run. */
  lemma MatchedAtPrefix(s: seq<nat>, ops: seq<Op>, n: nat, k: nat)
    requires k < n <= |ops|
    ensures MatchedAt(s, ops[..n], k) == MatchedAt(s, ops, k)
  {
    assert ops[..n][..k + 1] == ops[..k + 1];
    assert ops[..n][..k] == ops[..k];
  }

  /**
   * A run reaches a table, with no acquire of the null identifier and no
   * release driving a count below zero or past the table's end, exactly
   * when every release is matched by an earlier count.
   */
  lemma {:induction false} RunReachedIffMatched(s: seq<nat>, ops: seq<Op>)
    ensures Run(s, ops).Reached? <==> Matched(s, ops)
  {
    if ops != [] {
      var n := |ops| - 1;
      var init, op := ops[..n], ops[n];
      RunReachedIffMatched(s, init);
      assert Matched(s, ops) <==> Matched(s, init) && MatchedAt(s, ops, n) by {
        forall k | 0 <= k < n ensures MatchedAt(s, init, k) == MatchedAt(s, ops, k) {
          MatchedAtPrefix(s, ops, n, k);
        }
      }
      if Run(s, init).Reached? {
        var t := Run(s, init).table;
        match op
        case Add(id) =>
        case Release(h) =>
          if h != NullId {
            var v := h.value;
            Conserved(s, init, v);
            assert ops[..n + 1] == ops;
            assert Releases(ops, v) == Releases(init, v) + 1;
            assert StepAllowed(t, op) <==> Slot(t, v) > 0;
          }
      }
    }
  }
}
