/** `OffsetDataView` (src/helpers/offset-data-view.hpp/.cpp): a weak reference to a byte buffer
    plus an absolute offset, from which fixed-size records are read with a bounds check. */
module DataView {
  import opened Errors
  import opened Bounds

  /** The buffer behind a weak reference; `expired` once its last owner has released it. */
  datatype Buffer = Buffer(bytes: seq<bv8>, expired: bool)

  datatype OffsetDataView = OffsetDataView(data: Buffer, offset: nat)

  /** `OffsetDataView(data)`: a fresh view starts at the beginning of the buffer. */
  function NewView(data: Buffer): (v: OffsetDataView)
    ensures v.data == data && v.offset == 0
  {
    OffsetDataView(data, 0)
  }

  /** `OffsetDataView(from, newOffset)`: the same buffer at an absolute offset. */
  function ViewAt(from: OffsetDataView, newOffset: nat): (v: OffsetDataView)
    ensures v.data == from.data && v.offset == newOffset
  {
    OffsetDataView(from.data, newOffset)
  }

  /** `withRelativeOffset(n)`: a new view `n` bytes further on; the receiver is a value and is untouched. */
  function WithRelativeOffset(v: OffsetDataView, n: nat): (r: OffsetDataView)
    ensures r.data == v.data && r.offset == v.offset + n
  {
    ViewAt(v, v.offset + n)
  }

  /** `getLockedData`: the bytes, or the error for a released buffer. */
  function GetLockedData(v: OffsetDataView): (r: Result<seq<bv8>>)
    ensures r.Ok? <==> !v.data.expired
    ensures r.Ok? ==> r.value == v.data.bytes
    ensures r.Err? ==> r.error == ExpiredData
  {
    if v.data.expired then Err(ExpiredData) else Ok(v.data.bytes)
  }

  /** `parseStruct<T>(relativeOffset)` for a `T` of `size` bytes: the raw bytes of the record, which
      callers decode field by field. The buffer is locked before the bounds check, so a released
      buffer fails with ExpiredData whatever the offset. */
  function ParseStruct(v: OffsetDataView, relativeOffset: nat, size: nat): (r: Result<seq<bv8>>)
    ensures v.data.expired ==> r == Err(ExpiredData)
    ensures !v.data.expired ==>
      (r.Ok? <==> v.offset + relativeOffset < |v.data.bytes| && v.offset + relativeOffset + size <= |v.data.bytes|)
    ensures r.Err? && !v.data.expired ==> r.error == OutOfBoundsAccess
    ensures r.Ok? ==> r.value == v.data.bytes[v.offset + relativeOffset .. v.offset + relativeOffset + size]
  {
    var lockedData :- GetLockedData(v);
    var absoluteOffset := v.offset + relativeOffset;
    var checked := CheckBounds(absoluteOffset, size, |lockedData|);
    if checked.Fail? then Err(checked.error) else Ok(lockedData[absoluteOffset .. absoluteOffset + size])
  }

  /** Moving a view twice is moving it once by the sum. */
  lemma {:induction false} RelativeOffsetsCompose(v: OffsetDataView, a: nat, b: nat)
    ensures WithRelativeOffset(WithRelativeOffset(v, a), b) == WithRelativeOffset(v, a + b)
  {
  }

  /** Reading relative to a moved view is reading further on in the original view. */
  lemma ParseAfterMove(v: OffsetDataView, n: nat, relativeOffset: nat, size: nat)
    ensures ParseStruct(WithRelativeOffset(v, n), relativeOffset, size) == ParseStruct(v, n + relativeOffset, size)
  {
  }
}
