/** IndexManager.getColumnValue: the bytes of the indexed column inside a record. */
module IndexColumn {
  import opened Wrappers
  import opened Bytes
  import opened Catalog

  /** The byte offset of column `k` inside a record: the lengths of the columns before it. */
  function ColumnStart(attrs: seq<Attribute>, k: nat): int
    requires k <= |attrs|
  {
    SumLengths(attrs[..k])
  }

  /** Walks the attributes up to `columnIndex` the way the source does, then copies the
      column's bytes out of `row`. `attributes.get` past the end, a negative array size and
      a row too short for the column are the failures. A negative `columnIndex` never enters
      the loop, so both positions stay 0 and the column is empty. Neither input is changed,
      as both are values. */
  method GetColumnValue(attrs: seq<Attribute>, columnIndex: int, row: seq<uint8>)
    returns (r: Result<seq<uint8>>)
    ensures r.Success? <==>
      && columnIndex < |attrs|
      && (columnIndex < 0 ||
          (&& 0 <= attrs[columnIndex].length
           && (attrs[columnIndex].length == 0 ||
               (0 <= ColumnStart(attrs, columnIndex)
                && ColumnStart(attrs, columnIndex) + attrs[columnIndex].length <= |row|))))
    ensures columnIndex < 0 ==> r == Success([])
    ensures r.Success? && 0 <= columnIndex ==> |r.value| == attrs[columnIndex].length
    ensures r.Success? && 0 <= columnIndex ==> forall j :: 0 <= j < |r.value| ==>
      r.value[j] == row[ColumnStart(attrs, columnIndex) + j]
  {
    if columnIndex < 0 {
      return Success([]);
    }
    if columnIndex >= |attrs| {
      return Failure(IndexOutOfBounds);
    }
    var sPos := 0;
    var fPos := 0;
    var i := 0;
    while i <= columnIndex
      invariant 0 <= i <= columnIndex + 1
      invariant fPos == SumLengths(attrs[..i])
      invariant i > 0 ==> sPos == SumLengths(attrs[..i - 1])
    {
      sPos := fPos;
      assert attrs[..i + 1][..i] == attrs[..i];
      fPos := fPos + attrs[i].length;
      i := i + 1;
    }
    var len := fPos - sPos;
    assert len == attrs[columnIndex].length by {
      assert attrs[..columnIndex + 1][..columnIndex] == attrs[..columnIndex];
    }
    if len < 0 {
      return Failure(IndexOutOfBounds);
    }
    if len > 0 && (sPos < 0 || sPos + len > |row|) {
      return Failure(IndexOutOfBounds);
    }
    var colValue: seq<uint8> := [];
    var j := 0;
    while j < len
      invariant 0 <= j <= len
      invariant |colValue| == j
      invariant forall t :: 0 <= t < j ==> colValue[t] == row[sPos + t]
    {
      colValue := colValue + [row[sPos + j]];
      j := j + 1;
    }
    return Success(colValue);
  }
}
