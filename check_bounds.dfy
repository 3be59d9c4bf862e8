/** `checkBounds` (src/helpers/check-bounds.hpp): the single range check every read goes through. */
module Bounds {
  import opened Errors

  /** Reading `count` bytes at `offset` from a range of `rangeSize` bytes: passes exactly when the
      offset is a position of the range and the read ends inside it; otherwise OutOfBoundsAccess. */
  function CheckBounds(offset: nat, count: nat, rangeSize: nat): (o: Outcome)
    ensures o.Pass? <==> offset < rangeSize && offset + count <= rangeSize
    ensures o.Fail? ==> o.error == OutOfBoundsAccess
  {
    if offset >= rangeSize || offset + count > rangeSize then Fail(OutOfBoundsAccess) else Pass
  }

  /** Passing guarantees every byte of the read is a byte of the range. */
  lemma CheckedReadInside(offset: nat, count: nat, rangeSize: nat, j: nat)
    requires CheckBounds(offset, count, rangeSize).Pass?
    requires offset <= j < offset + count
    ensures j < rangeSize
  {
  }

  /** The check is stricter than the read needs: an empty read at the very end still fails. */
  lemma EmptyReadAtEndFails(rangeSize: nat)
    ensures CheckBounds(rangeSize, 0, rangeSize) == Fail(OutOfBoundsAccess)
  {
  }
}
