/** The free-list layout of a table block (RecordManager.java).

    Bytes 0-1 hold the insert index (the first free slot), bytes 2-3 the number of live
    records, both 16-bit big-endian. Slot i starts at 4 + i * (totalLength + 3): one flag
    byte (1 live, 0 empty), the record bytes, then a 16-bit pointer to the next free slot,
    where 0 means "the slot right after this one". */
module RecordBlock {
  import opened Bytes

  const HEADER_SIZE: int := 4
  const POINTER_SIZE: int := 3
  const BLOCK_SIZE: int := 4096
  /** A frame's byte array is one longer than a block. */
  const DATA_SIZE: int := BLOCK_SIZE + 1
  const NEXT_RECORD: int := 0
  const NOT_EMPTY: uint8 := 1
  const EMPTY: uint8 := 0

  type Block = seq<uint8>

  /** Writes `v` as two bytes at `at` and `at + 1`. */
  function SetU16At(b: Block, at: nat, v: int): (r: Block)
    requires at + 1 < |b|
    ensures |r| == |b|
    ensures forall k :: 0 <= k < |b| && k != at && k != at + 1 ==> r[k] == b[k]
    ensures DecodeU16(r[at], r[at + 1]) == v % TWO_16
  {
    U16RoundTrip(v);
    b[at := EncodeU16(v)[0]][at + 1 := EncodeU16(v)[1]]
  }

  function GetInsertIndex(b: Block): (r: int)
    requires |b| >= HEADER_SIZE
    ensures 0 <= r < TWO_16
  {
    DecodeU16(b[0], b[1])
  }

  function SetInsertIndex(b: Block, v: int): (r: Block)
    requires |b| >= HEADER_SIZE
    ensures |r| == |b|
    ensures GetInsertIndex(r) == v % TWO_16
    ensures 0 <= v < TWO_16 ==> GetInsertIndex(r) == v
    ensures forall k :: 2 <= k < |b| ==> r[k] == b[k]
  {
    SetU16At(b, 0, v)
  }

  function GetRecordNum(b: Block): (r: int)
    requires |b| >= HEADER_SIZE
    ensures 0 <= r < TWO_16
  {
    DecodeU16(b[2], b[3])
  }

  /** Adds one to the record count; the count is sixteen bits wide and wraps. */
  function IncRecordNum(b: Block): (r: Block)
    requires |b| >= HEADER_SIZE
    ensures |r| == |b|
    ensures GetRecordNum(r) == (GetRecordNum(b) + 1) % TWO_16
    ensures GetRecordNum(b) + 1 < TWO_16 ==> GetRecordNum(r) == GetRecordNum(b) + 1
    ensures forall k :: 0 <= k < |b| && k != 2 && k != 3 ==> r[k] == b[k]
  {
    SetU16At(b, 2, GetRecordNum(b) + 1)
  }

  function DecRecordNum(b: Block): (r: Block)
    requires |b| >= HEADER_SIZE
    ensures |r| == |b|
    ensures GetRecordNum(r) == (GetRecordNum(b) - 1) % TWO_16
    ensures GetRecordNum(b) > 0 ==> GetRecordNum(r) == GetRecordNum(b) - 1
    ensures forall k :: 0 <= k < |b| && k != 2 && k != 3 ==> r[k] == b[k]
  {
    SetU16At(b, 2, GetRecordNum(b) - 1)
  }

  /** The slot size on disk: flag, record, pointer. */
  function RecordSize(totalLength: nat): nat { totalLength + POINTER_SIZE }

  /** Where slot `i` starts (getPositionFromIndex). */
  function PositionFromIndex(totalLength: nat, i: nat): (p: int)
    ensures p >= HEADER_SIZE
  {
    MulAtLeast(i, RecordSize(totalLength));
    HEADER_SIZE + i * RecordSize(totalLength)
  }

  /** Where slot `i` keeps its next-free pointer. */
  function PointerOffset(totalLength: nat, i: nat): int
  {
    PositionFromIndex(totalLength, i) + totalLength + 1
  }

  /** Slot `i` lies wholly inside a block of `len` bytes. */
  predicate SlotInBlock(totalLength: nat, i: int, len: int)
  {
    0 <= i && PositionFromIndex(totalLength, i) + RecordSize(totalLength) <= len
  }

  function GetNextInsertIndex(b: Block, totalLength: nat, i: int): (r: int)
    requires SlotInBlock(totalLength, i, |b|)
    ensures var stored := DecodeU16(b[PointerOffset(totalLength, i)], b[PointerOffset(totalLength, i) + 1]);
      r == if stored == NEXT_RECORD then i + 1 else stored
  {
    var off := PointerOffset(totalLength, i);
    var next := DecodeU16(b[off], b[off + 1]);
    if next == NEXT_RECORD then i + 1 else next
  }

  /** Index -1 stands for the block header, so "the pointer before the first free slot"
      and "the pointer of slot i" are set the same way. */
  function SetNextInsertIndex(b: Block, totalLength: nat, i: int, n: int): (r: Block)
    requires |b| >= HEADER_SIZE
    requires i == -1 || SlotInBlock(totalLength, i, |b|)
    ensures |r| == |b|
    ensures i == -1 ==> r == SetInsertIndex(b, n)
    ensures i != -1 ==> forall k ::
      (0 <= k < |b| && k != PointerOffset(totalLength, i) && k != PointerOffset(totalLength, i) + 1)
      ==> r[k] == b[k]
  {
    if i == -1 then SetInsertIndex(b, n)
    else SetU16At(b, PointerOffset(totalLength, i), n)
  }

  /** Writing a pointer and reading it back: 0 reads as "next slot", any other 16-bit value
      as itself. */
  lemma NextInsertIndexRoundTrip(b: Block, totalLength: nat, i: int, n: int)
    requires |b| >= HEADER_SIZE && SlotInBlock(totalLength, i, |b|)
    requires 0 <= n < TWO_16
    ensures GetNextInsertIndex(SetNextInsertIndex(b, totalLength, i, n), totalLength, i)
         == if n == NEXT_RECORD then i + 1 else n
  {
  }

  /** A free-list link: -1 for the header's first free slot, otherwise a slot's next-free
      pointer. */
  predicate IsLink(totalLength: nat, p: int, len: int)
  {
    p == -1 || SlotInBlock(totalLength, p, len)
  }

  /** Where link `p` is stored: header bytes 0-1, or slot `p`'s pointer bytes. */
  function LinkOffset(totalLength: nat, p: int): int
    requires p >= -1
  {
    if p == -1 then 0 else PointerOffset(totalLength, p)
  }

  /** What link `p` reads: the header's first free slot, or where slot `p`'s pointer leads. */
  function LinkAt(b: Block, totalLength: nat, p: int): int
    requires |b| >= HEADER_SIZE && IsLink(totalLength, p, |b|)
  {
    if p == -1 then GetInsertIndex(b) else GetNextInsertIndex(b, totalLength, p)
  }

  /** A link reads only its own two bytes. */
  lemma LinkFromBytes(b: Block, b': Block, totalLength: nat, p: int)
    requires |b| >= HEADER_SIZE && |b'| == |b| && IsLink(totalLength, p, |b|)
    requires b'[LinkOffset(totalLength, p)] == b[LinkOffset(totalLength, p)]
    requires b'[LinkOffset(totalLength, p) + 1] == b[LinkOffset(totalLength, p) + 1]
    ensures LinkAt(b', totalLength, p) == LinkAt(b, totalLength, p)
  {
  }

  /** Distinct links are stored in disjoint byte pairs. */
  lemma LinksApart(totalLength: nat, p: int, q: int)
    requires p >= -1 && q >= -1 && p != q
    ensures LinkOffset(totalLength, p) + 2 <= LinkOffset(totalLength, q) ||
            LinkOffset(totalLength, q) + 2 <= LinkOffset(totalLength, p)
  {
    if p >= 0 && q >= 0 {
      if p < q {
        SlotsDisjoint(totalLength, p, q);
      } else {
        SlotsDisjoint(totalLength, q, p);
      }
    }
  }

  /** Writing link `p` and reading it back: any 16-bit value, except that a slot pointer
      of 0 reads as "the next slot". */
  lemma LinkRoundTrip(b: Block, totalLength: nat, p: int, n: int)
    requires |b| >= HEADER_SIZE && IsLink(totalLength, p, |b|)
    requires 0 <= n < TWO_16 && (p == -1 || n != NEXT_RECORD)
    ensures LinkAt(SetNextInsertIndex(b, totalLength, p, n), totalLength, p) == n
  {
    if p != -1 {
      NextInsertIndexRoundTrip(b, totalLength, p, n);
    }
  }

  /** Writing link `p` leaves every other link as it was. */
  lemma LinkWriteKeepsOtherLinks(b: Block, totalLength: nat, p: int, n: int, q: int)
    requires |b| >= HEADER_SIZE && IsLink(totalLength, p, |b|) && IsLink(totalLength, q, |b|) && p != q
    ensures LinkAt(SetNextInsertIndex(b, totalLength, p, n), totalLength, q) == LinkAt(b, totalLength, q)
  {
    LinksApart(totalLength, p, q);
    LinkFromBytes(b, SetNextInsertIndex(b, totalLength, p, n), totalLength, q);
  }

  /** Setting a flag or changing the record count leaves every link as it was. */
  lemma FlagAndCountWritesKeepLinks(b: Block, totalLength: nat, i: int, f: uint8, q: int)
    requires |b| >= HEADER_SIZE && SlotInBlock(totalLength, i, |b|) && IsLink(totalLength, q, |b|)
    ensures LinkAt(b[PositionFromIndex(totalLength, i) := f], totalLength, q) == LinkAt(b, totalLength, q)
    ensures LinkAt(DecRecordNum(b), totalLength, q) == LinkAt(b, totalLength, q)
  {
    if q >= 0 {
      PointerNotOnRecord(totalLength, q, i, PositionFromIndex(totalLength, i));
    }
    LinkFromBytes(b, b[PositionFromIndex(totalLength, i) := f], totalLength, q);
    LinkFromBytes(b, DecRecordNum(b), totalLength, q);
  }

  /** Slot positions step by the slot size, so slots never overlap. */
  lemma SlotsDisjoint(totalLength: nat, i: nat, j: nat)
    requires i < j
    ensures PositionFromIndex(totalLength, i) + RecordSize(totalLength) <= PositionFromIndex(totalLength, j)
  {
    var r := RecordSize(totalLength);
    var d := j - i;
    assert j * r == i * r + d * r;
    MulAtLeast(d - 1, r);
    assert d * r == (d - 1) * r + r;
  }

  lemma MulAtLeast(a: nat, b: nat)
    ensures a * b >= 0
  {
  }

  /** A pointer is never stored on a flag byte or on a record byte of any slot. */
  lemma PointerNotOnRecord(totalLength: nat, i: nat, j: nat, k: int)
    requires PositionFromIndex(totalLength, j) <= k <= PositionFromIndex(totalLength, j) + totalLength
    ensures k != PointerOffset(totalLength, i) && k != PointerOffset(totalLength, i) + 1
  {
    if i < j {
      SlotsDisjoint(totalLength, i, j);
    } else if j < i {
      SlotsDisjoint(totalLength, j, i);
    }
  }

  /** The flag byte of slot `i`. */
  function Flag(b: Block, totalLength: nat, i: int): uint8
    requires SlotInBlock(totalLength, i, |b|)
  {
    b[PositionFromIndex(totalLength, i)]
  }

  /** The record bytes of slot `i`. */
  function RecordAt(b: Block, totalLength: nat, i: int): (r: seq<uint8>)
    requires SlotInBlock(totalLength, i, |b|)
    ensures |r| == totalLength
  {
    var p := PositionFromIndex(totalLength, i);
    b[p + 1..p + 1 + totalLength]
  }

  /** A zeroed block, as addBlockInFile leaves it: no records, first free slot 0. */
  function FreshBlock(): (b: Block)
    ensures |b| == DATA_SIZE
    ensures GetInsertIndex(b) == 0 && GetRecordNum(b) == 0
  {
    Zeros(DATA_SIZE)
  }

  /** Slots below a slot that fits also fit. */
  lemma SlotBelowFits(totalLength: nat, i: int, j: int, len: int)
    requires 0 <= i <= j && SlotInBlock(totalLength, j, len)
    ensures SlotInBlock(totalLength, i, len)
  {
    if i < j {
      SlotsDisjoint(totalLength, i, j);
    }
  }

  /** The number of slots below `j` whose flag is set. */
  function LiveBefore(b: Block, totalLength: nat, j: nat): nat
    requires j == 0 || SlotInBlock(totalLength, j - 1, |b|)
  {
    if j == 0 then 0
    else
      (if j - 1 > 0 then SlotBelowFits(totalLength, j - 2, j - 1, |b|); 0 else 0) +
      LiveBefore(b, totalLength, j - 1) + (if Flag(b, totalLength, j - 1) != EMPTY then 1 else 0)
  }

  lemma LiveBeforeStep(b: Block, totalLength: nat, i: nat)
    requires SlotInBlock(totalLength, i, |b|)
    ensures LiveBefore(b, totalLength, i + 1) == LiveBefore(b, totalLength, i) + (if Flag(b, totalLength, i) != EMPTY then 1 else 0)
  {
  }

  lemma {:induction false} LiveBeforeMonotone(b: Block, totalLength: nat, i: nat, j: nat)
    requires i <= j
    requires j == 0 || SlotInBlock(totalLength, j - 1, |b|)
    ensures i == 0 || SlotInBlock(totalLength, i - 1, |b|)
    ensures LiveBefore(b, totalLength, i) <= LiveBefore(b, totalLength, j)
    decreases j - i
  {
    if i < j {
      if j - 1 > 0 {
        SlotBelowFits(totalLength, j - 2, j - 1, |b|);
      }
      LiveBeforeMonotone(b, totalLength, i, j - 1);
    }
  }

  /** Two blocks agree on every flag and every record of the slots that fit. */
  ghost predicate SameSlots(b: Block, b': Block, totalLength: nat)
  {
    |b'| == |b| &&
    forall j :: SlotInBlock(totalLength, j, |b|) ==>
      Flag(b', totalLength, j) == Flag(b, totalLength, j) && RecordAt(b', totalLength, j) == RecordAt(b, totalLength, j)
  }

  /** Byte `k` is neither a flag nor a record byte of any slot that fits. */
  ghost predicate OffSlots(totalLength: nat, len: int, k: int)
  {
    forall j :: SlotInBlock(totalLength, j, len) ==>
      !(PositionFromIndex(totalLength, j) <= k <= PositionFromIndex(totalLength, j) + totalLength)
  }

  /** A block edit confined to two bytes outside every flag and record keeps all of them. */
  lemma SameSlotsFromBytes(b: Block, b': Block, totalLength: nat, w1: int, w2: int)
    requires |b'| == |b|
    requires forall k :: 0 <= k < |b| && k != w1 && k != w2 ==> b'[k] == b[k]
    requires OffSlots(totalLength, |b|, w1) && OffSlots(totalLength, |b|, w2)
    ensures SameSlots(b, b', totalLength)
  {
    forall j | SlotInBlock(totalLength, j, |b|)
      ensures Flag(b', totalLength, j) == Flag(b, totalLength, j)
      ensures RecordAt(b', totalLength, j) == RecordAt(b, totalLength, j)
    {
      var p := PositionFromIndex(totalLength, j);
      SlotBelowFits(totalLength, j, j, |b|);
      assert b'[p + 1..p + 1 + totalLength] == b[p + 1..p + 1 + totalLength];
    }
  }

  /** The header bytes lie before every slot. */
  lemma HeaderOffSlots(totalLength: nat, len: int, k: int)
    requires 0 <= k < HEADER_SIZE
    ensures OffSlots(totalLength, len, k)
  {
    forall j | SlotInBlock(totalLength, j, len)
      ensures !(PositionFromIndex(totalLength, j) <= k <= PositionFromIndex(totalLength, j) + totalLength)
    {
      SlotBelowFits(totalLength, j, j, len);
    }
  }

  /** A slot's pointer bytes lie outside every flag and record. */
  lemma PointerOffSlots(totalLength: nat, len: int, i: nat)
    ensures OffSlots(totalLength, len, PointerOffset(totalLength, i))
    ensures OffSlots(totalLength, len, PointerOffset(totalLength, i) + 1)
  {
    forall j | SlotInBlock(totalLength, j, len)
      ensures !(PositionFromIndex(totalLength, j) <= PointerOffset(totalLength, i) <= PositionFromIndex(totalLength, j) + totalLength)
      ensures !(PositionFromIndex(totalLength, j) <= PointerOffset(totalLength, i) + 1 <= PositionFromIndex(totalLength, j) + totalLength)
    {
      var p := PositionFromIndex(totalLength, j);
      if p <= PointerOffset(totalLength, i) <= p + totalLength {
        PointerNotOnRecord(totalLength, i, j, PointerOffset(totalLength, i));
      }
      if p <= PointerOffset(totalLength, i) + 1 <= p + totalLength {
        PointerNotOnRecord(totalLength, i, j, PointerOffset(totalLength, i) + 1);
      }
    }
  }

  /** Writing a free-list pointer, in the header or in a slot, keeps every flag, every
      record and the record count. */
  lemma PointerWriteKeepsSlots(b: Block, totalLength: nat, i: int, n: int)
    requires |b| >= HEADER_SIZE
    requires i == -1 || SlotInBlock(totalLength, i, |b|)
    ensures SameSlots(b, SetNextInsertIndex(b, totalLength, i, n), totalLength)
    ensures GetRecordNum(SetNextInsertIndex(b, totalLength, i, n)) == GetRecordNum(b)
  {
    var b' := SetNextInsertIndex(b, totalLength, i, n);
    if i == -1 {
      HeaderOffSlots(totalLength, |b|, 0);
      HeaderOffSlots(totalLength, |b|, 1);
      SameSlotsFromBytes(b, b', totalLength, 0, 1);
    } else {
      var off := PointerOffset(totalLength, i);
      PointerOffSlots(totalLength, |b|, i);
      SameSlotsFromBytes(b, b', totalLength, off, off + 1);
      SlotBelowFits(totalLength, i, i, |b|);
      assert b'[2] == b[2] && b'[3] == b[3];
    }
  }

  /** Changing the record count keeps every flag and record. */
  lemma CountWriteKeepsSlots(b: Block, totalLength: nat)
    requires |b| >= HEADER_SIZE
    ensures SameSlots(b, DecRecordNum(b), totalLength)
    ensures SameSlots(b, IncRecordNum(b), totalLength)
  {
    HeaderOffSlots(totalLength, |b|, 2);
    HeaderOffSlots(totalLength, |b|, 3);
    SameSlotsFromBytes(b, DecRecordNum(b), totalLength, 2, 3);
    SameSlotsFromBytes(b, IncRecordNum(b), totalLength, 2, 3);
  }

  /** Clearing the flag of slot `i` keeps every record, every other flag and the count. */
  lemma FlagWriteKeepsOthers(b: Block, totalLength: nat, i: int, f: uint8)
    requires |b| >= HEADER_SIZE && SlotInBlock(totalLength, i, |b|)
    ensures var b' := b[PositionFromIndex(totalLength, i) := f];
      && Flag(b', totalLength, i) == f
      && GetRecordNum(b') == GetRecordNum(b)
      && forall j :: SlotInBlock(totalLength, j, |b|) ==>
           RecordAt(b', totalLength, j) == RecordAt(b, totalLength, j) &&
           (j != i ==> Flag(b', totalLength, j) == Flag(b, totalLength, j))
  {
    var p := PositionFromIndex(totalLength, i);
    var b' := b[p := f];
    SlotBelowFits(totalLength, i, i, |b|);
    forall j | SlotInBlock(totalLength, j, |b|)
      ensures RecordAt(b', totalLength, j) == RecordAt(b, totalLength, j)
      ensures j != i ==> Flag(b', totalLength, j) == Flag(b, totalLength, j)
    {
      var q := PositionFromIndex(totalLength, j);
      if i < j {
        SlotsDisjoint(totalLength, i, j);
      } else if j < i {
        SlotsDisjoint(totalLength, j, i);
      }
      assert b'[q + 1..q + 1 + totalLength] == b[q + 1..q + 1 + totalLength];
    }
  }

  /** A slot index that fits a block is smaller than the block. */
  lemma SlotIndexBelowLength(totalLength: nat, i: int, len: int)
    requires SlotInBlock(totalLength, i, len)
    ensures i < len
  {
    var r := RecordSize(totalLength);
    assert i * r == i + i * (r - 1);
    MulAtLeast(i, r - 1);
  }

  /** A write confined to bytes `lo` to `hi` leaves a slot lying wholly outside them alone. */
  lemma SlotUnchangedOutside(b: Block, b': Block, totalLength: nat, j: int, lo: int, hi: int)
    requires |b'| == |b| && SlotInBlock(totalLength, j, |b|)
    requires forall k :: 0 <= k < |b| && !(lo <= k < hi) ==> b'[k] == b[k]
    requires hi <= PositionFromIndex(totalLength, j) || PositionFromIndex(totalLength, j) + RecordSize(totalLength) <= lo
    ensures Flag(b', totalLength, j) == Flag(b, totalLength, j)
    ensures RecordAt(b', totalLength, j) == RecordAt(b, totalLength, j)
    ensures GetNextInsertIndex(b', totalLength, j) == GetNextInsertIndex(b, totalLength, j)
  {
    var q := PositionFromIndex(totalLength, j);
    assert b'[q + 1..q + 1 + totalLength] == b[q + 1..q + 1 + totalLength];
  }
}
