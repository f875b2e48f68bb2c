/**
 * The reference-count table of longeron's id management (namespace lgrn):
 * RefCount, a growable table of counters that refuses to discard a non-zero
 * count, and IdRefCount, which indexes it by an identifier's integer form and
 * mints and retires owning handles (IdStorage).
 */
module Lgrn {
  import opened Slots

  /**
   * An identifier, seen through its integer form, or the reserved null
   * identifier. The integer form (`value`) exists only for real identifiers,
   * and two identifiers with the same integer form are the same.
   */
  datatype Id = NullId | Id(value: nat)

  /**
   * An owning handle: one outstanding reference to `id`, or none when `id`
   * is null.
   */
  class IdStorage {
    var id: Id

    /** An empty placeholder that holds no reference. */
    constructor ()
      ensures id == NullId
    {
      id := NullId;
    }

    /** The handle IdRefCount.RefAdd hands out for `id`. */
    constructor Holding(id: Id)
      ensures this.id == id
    {
      this.id := id;
    }

    /** True exactly when the handle holds a real identifier, one with an integer form. */
    predicate HasValue()
      reads this
      ensures HasValue() <==> id.Id?
    {
      id != NullId
    }
  }

  /** A growable table of reference counts, one slot per integer index. */
  class RefCount {
    var counts: seq<nat>

    /** An empty table. */
    constructor ()
      ensures counts == []
    {
      counts := [];
    }

    /** A table of exactly `capacity` slots, every one zero. */
    constructor WithCapacity(capacity: nat)
      ensures |counts| == capacity && AllZeroFrom(counts, 0)
    {
      counts := Zeros(capacity);
    }

    /** Move construction: takes over the slots of `from`, which is left empty. */
    constructor MoveFrom(from: RefCount)
      modifies from
      ensures counts == old(from.counts) && from.counts == []
    {
      counts := from.counts;
      new;
      from.counts := [];
    }

    /**
     * Move assignment: only a table whose slots are all zero may be
     * overwritten, so no outstanding reference is thrown away.
     */
    method MoveAssign(from: RefCount)
      requires from != this
      requires AllZeroFrom(counts, 0)
      modifies this, from
      ensures counts == old(from.counts) && from.counts == []
      ensures Sum(old(counts)) == 0
    {
      SumZeroIff(counts);
      counts := from.counts;
      from.counts := [];
    }

    /** Destruction: only a table whose slots are all zero may go away. */
    method Destroy()
      requires AllZeroFrom(counts, 0)
      modifies this
      ensures counts == [] && Sum(old(counts)) == 0
    {
      SumZeroIff(counts);
      counts := [];
    }

    /**
     * Scans from `start` to the end and answers false at the first non-zero
     * slot; the table is left as it is.
     */
    method OnlyZerosRemaining(start: nat) returns (b: bool)
      requires start <= |counts|
      ensures b == AllZeroFrom(counts, start)
    {
      var k := start;
      while k != |counts|
        invariant start <= k <= |counts|
        invariant forall j :: start <= j < k ==> counts[j] == 0
      {
        if counts[k] != 0 {
          return false;
        }
        k := k + 1;
      }
      return true;
    }

    /**
     * Grows the table with zero slots or shrinks it; shrinking is allowed
     * only when every slot it discards is zero, so the total of outstanding
     * references is kept.
     */
    method Resize(newSize: nat)
      requires |counts| <= newSize || AllZeroFrom(counts, newSize)
      modifies this
      ensures counts == Resized(old(counts), newSize)
      ensures Sum(counts) == Sum(old(counts))
    {
      SumResized(counts, newSize);
      counts := Resized(counts, newSize);
    }
  }

  /** A RefCount whose slots are indexed by identifiers' integer forms. */
  class IdRefCount {
    const table: RefCount

    constructor ()
      ensures fresh(table) && table.counts == []
    {
      table := new RefCount();
    }

    /**
     * Records one more reference to `id`, growing the table to fit it, and
     * returns a fresh handle holding `id`.
     */
    method RefAdd(id: Id) returns (h: IdStorage)
      requires id != NullId
      modifies table
      ensures fresh(h) && h.id == id
      ensures table.counts == Acquired(old(table.counts), id.value)
      ensures Sum(table.counts) == Sum(old(table.counts)) + 1
    {
      var i := id.value;
      if |table.counts| <= i {
        table.Resize(i + 1);
      }
      table.counts := table.counts[i := table.counts[i] + 1];
      SumAcquired(old(table.counts), i);
      h := new IdStorage.Holding(id);
    }

    /**
     * Gives back the reference `h` holds, if any, and empties `h`; an empty
     * handle is accepted and changes nothing.
     */
    method RefRelease(h: IdStorage)
      requires h.HasValue() ==> h.id.value < |table.counts| && table.counts[h.id.value] > 0
      modifies table, h
      ensures h.id == NullId
      ensures old(h.HasValue()) ==> table.counts == Released(old(table.counts), old(h.id.value))
      ensures !old(h.HasValue()) ==> table.counts == old(table.counts)
      ensures Sum(table.counts) + (if old(h.HasValue()) then 1 else 0) == Sum(old(table.counts))
    {
      if h.HasValue() {
        var i := h.id.value;
        SumReleased(table.counts, i);
        table.counts := table.counts[i := table.counts[i] - 1];
        h.id := NullId;
      }
    }
  }

  /**
   * Two handles on identifier 5, released in turn (one of them twice), and
   * the table torn down once every count is back to zero.
   */
  method AcquireReleaseWalkthrough() {
    var rc := new IdRefCount();
    var a := rc.RefAdd(Id(5));
    assert |rc.table.counts| == 6 && rc.table.counts[5] == 1;
    var b := rc.RefAdd(Id(5));
    assert rc.table.counts[5] == 2;
    rc.RefRelease(a);
    assert rc.table.counts[5] == 1;
    rc.RefRelease(a);
    assert rc.table.counts[5] == 1;
    rc.RefRelease(b);
    forall j | 0 <= j < |rc.table.counts| ensures rc.table.counts[j] == 0 {
      assert Slot(rc.table.counts, j) == 0;
    }
    rc.table.Destroy();
  }
}
