/**
 * The reference-count table as a value: a sequence of slot counts indexed by
 * an identifier's integer form. The functions here specify what the table's
 * operations do; the classes in module Lgrn are proved against them.
 */
module Slots {

  /** The count recorded for index `i`; an index past the end reads as zero. */
  function Slot(s: seq<nat>, i: nat): nat {
    if i < |s| then s[i] else 0
  }

  /**
   * Every slot at index `start` or beyond is zero: reading the table at any
   * index from `start` on, past its end included, gives zero.
   */
  predicate AllZeroFrom(s: seq<nat>, start: nat)
    ensures AllZeroFrom(s, start) <==> forall j: nat :: start <= j ==> Slot(s, j) == 0
  {
    assert forall j: nat :: j < |s| ==> Slot(s, j) == s[j];
    forall j :: start <= j < |s| ==> s[j] == 0
  }

  /** The number of outstanding references the table records. */
  function Sum(s: seq<nat>): nat {
    if s == [] then 0 else s[0] + Sum(s[1..])
  }

  /** A table of `n` slots, all zero. */
  function Zeros(n: nat): (r: seq<nat>)
    ensures |r| == n && AllZeroFrom(r, 0)
  {
    seq(n, _ => 0)
  }

  /** The table after growing or shrinking it to `n` slots, new slots reading zero. */
  function Resized(s: seq<nat>, n: nat): (r: seq<nat>)
    ensures |r| == n
    ensures forall j: nat :: Slot(r, j) == if j < n then Slot(s, j) else 0
  {
    if n <= |s| then s[..n] else s + Zeros(n - |s|)
  }

  /**
   * The table after one more reference to index `i`: grown to exactly
   * `i + 1` slots when `i` is past the end, never shrunk, and changed in
   * slot `i` alone, by one.
   */
  function Acquired(s: seq<nat>, i: nat): (r: seq<nat>)
    ensures |r| == if i < |s| then |s| else i + 1
    ensures forall j: nat :: Slot(r, j) == Slot(s, j) + if j == i then 1 else 0
  {
    var t := if i < |s| then s else Resized(s, i + 1);
    t[i := t[i] + 1]
  }

  /** The table after giving back one reference to index `i`. */
  function Released(s: seq<nat>, i: nat): (r: seq<nat>)
    requires i < |s| && s[i] > 0
    ensures |r| == |s|
    ensures forall j: nat :: Slot(r, j) + (if j == i then 1 else 0) == Slot(s, j)
  {
    s[i := s[i] - 1]
  }

  lemma {:induction false} SumAppend(a: seq<nat>, b: seq<nat>)
    ensures Sum(a + b) == Sum(a) + Sum(b)
  {
    if a == [] {
      assert a + b == b;
    } else {
      assert (a + b)[1..] == a[1..] + b;
      SumAppend(a[1..], b);
    }
  }

  /** A table records no outstanding reference exactly when every slot is zero. */
  lemma {:induction false} SumZeroIff(s: seq<nat>)
    ensures Sum(s) == 0 <==> AllZeroFrom(s, 0)
  {
    if s != [] {
      SumZeroIff(s[1..]);
      assert AllZeroFrom(s, 0) <==> s[0] == 0 && AllZeroFrom(s[1..], 0) by {
        if s[0] == 0 && AllZeroFrom(s[1..], 0) {
          forall j | 0 <= j < |s| ensures s[j] == 0 {
            if j > 0 { assert s[j] == s[1..][j - 1]; }
          }
        }
      }
    }
  }

  /** Overwriting one slot changes the total by the difference. */
  lemma {:induction false} SumUpdate(s: seq<nat>, i: nat, v: nat)
    requires i < |s|
    ensures Sum(s[i := v]) + s[i] == Sum(s) + v
  {
    if i > 0 {
      assert s[i := v][1..] == s[1..][i - 1 := v];
      SumUpdate(s[1..], i - 1, v);
    }
  }

  /**
   * Resizing keeps every outstanding reference exactly when the table grows
   * or every discarded slot is zero: the guard on resize is both necessary
   * and sufficient for no count to be lost.
   */
  lemma SumResized(s: seq<nat>, n: nat)
    ensures Sum(Resized(s, n)) == Sum(s) <==> |s| <= n || AllZeroFrom(s, n)
  {
    if n <= |s| {
      assert s == s[..n] + s[n..];
      SumAppend(s[..n], s[n..]);
      SumZeroIff(s[n..]);
      assert AllZeroFrom(s[n..], 0) <==> AllZeroFrom(s, n) by {
        forall j | n <= j < |s| ensures s[j] == s[n..][j - n] { }
      }
    } else {
      SumAppend(s, Zeros(n - |s|));
      SumZeroIff(Zeros(n - |s|));
    }
  }

  /** Acquiring adds exactly one outstanding reference. */
  lemma SumAcquired(s: seq<nat>, i: nat)
    ensures Sum(Acquired(s, i)) == Sum(s) + 1
  {
    var t := if i < |s| then s else Resized(s, i + 1);
    if |s| <= i {
      SumResized(s, i + 1);
    }
    SumUpdate(t, i, t[i] + 1);
  }

  /** Releasing removes exactly one outstanding reference. */
  lemma SumReleased(s: seq<nat>, i: nat)
    requires i < |s| && s[i] > 0
    ensures Sum(Released(s, i)) + 1 == Sum(s)
  {
    SumUpdate(s, i, s[i] - 1);
  }

  /**
   * Releasing undoes acquiring: every slot is back to its old count, and the
   * table keeps whatever length the acquire grew it to.
   */
  lemma ReleaseUndoesAcquire(s: seq<nat>, i: nat)
    ensures var a := Acquired(s, i);
            i < |a| && a[i] > 0 &&
            Released(a, i) == Resized(s, |a|)
  {
  }

  /**
   * Once index `i` holds a reference, shrinking to any size at or below `i`
   * fails the resize guard.
   */
  lemma ShrinkBelowHeldSlotRefused(s: seq<nat>, i: nat, n: nat)
    requires n <= i
    ensures var a := Acquired(s, i);
            !(|a| <= n || AllZeroFrom(a, n))
  {
    var a := Acquired(s, i);
    assert Slot(a, i) == Slot(s, i) + 1;
  }
}
