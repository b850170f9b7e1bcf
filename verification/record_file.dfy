/** The record file of a table as RecordManager walks it: insertion through the
    free list, WHERE matching on raw record bytes, and deletion. The table's blocks are
    given as a sequence indexed by block offset; the buffer pool that holds them is
    modelled on its own. `Float.parseFloat` and float comparison are not part of this
    model; float columns are judged by the `floatRight` parameter. */
module RecordFile {
  import opened Wrappers
  import opened Bytes
  import opened Catalog
  import opened JavaText
  import opened Conditions
  import opened RecordBlock
  import IndexColumn

  /** `Condition.if_right(float)` applied to the four raw bytes of a float column. */
  type FloatJudge = (Condition, seq<uint8>) -> Result<bool>

  // ---------------------------------------------------------------- insertion

  /** The body of insertRecord's loop for one block: None when the free-list head does
      not leave room for a whole slot (the source then moves to the next block). */
  function InsertIntoBlock(b: Block, totalLength: nat, bytes: seq<uint8>): (r: Option<(Block, int)>)
    requires |b| == DATA_SIZE && |bytes| == totalLength
    ensures r.Some? <==> PositionFromIndex(totalLength, GetInsertIndex(b)) + RecordSize(totalLength) <= BLOCK_SIZE
    ensures r.Some? ==>
      var (b', slot) := r.value;
      && slot == GetInsertIndex(b)
      && |b'| == |b| && SlotInBlock(totalLength, slot, |b|)
      && Flag(b', totalLength, slot) == NOT_EMPTY
      && RecordAt(b', totalLength, slot) == bytes
      && GetInsertIndex(b') == GetNextInsertIndex(b, totalLength, slot)
      && GetRecordNum(b') == (GetRecordNum(b) + 1) % TWO_16
      && (forall j :: SlotInBlock(totalLength, j, |b|) && j != slot ==>
            Flag(b', totalLength, j) == Flag(b, totalLength, j) &&
            RecordAt(b', totalLength, j) == RecordAt(b, totalLength, j))
  {
    var slot := GetInsertIndex(b);
    var pos := PositionFromIndex(totalLength, slot);
    if pos + RecordSize(totalLength) > BLOCK_SIZE then None
    else
      SlotBelowFits(totalLength, slot, slot, |b|);
      var b2 := Overwrite(b[pos := NOT_EMPTY], pos + 1, bytes);
      var next := GetNextInsertIndex(b2, totalLength, slot);
      var b3 := SetInsertIndex(b2, next);
      var b4 := IncRecordNum(b3);
      InsertKeepsOthers(b, totalLength, bytes, slot, b2, b3, b4);
      Some((b4, slot))
  }

  /** `System.arraycopy` of a whole source into `b` at `at`, stated byte by byte. */
  function Overwrite(b: Block, at: nat, src: seq<uint8>): (r: Block)
    requires at + |src| <= |b|
    ensures |r| == |b|
    ensures forall k :: 0 <= k < |b| ==> r[k] == if at <= k < at + |src| then src[k - at] else b[k]
  {
    b[..at] + src + b[at + |src|..]
  }

  /** Writing the flag and the record bytes of `slot` leaves its pointer, the header and
      every other slot as they were. */
  lemma WriteSlotKeepsOthers(b: Block, totalLength: nat, bytes: seq<uint8>, slot: int, b2: Block)
    requires |b| >= HEADER_SIZE && |bytes| == totalLength
    requires SlotInBlock(totalLength, slot, |b|)
    requires b2 == Overwrite(b[PositionFromIndex(totalLength, slot) := NOT_EMPTY], PositionFromIndex(totalLength, slot) + 1, bytes)
    ensures |b2| == |b|
    ensures Flag(b2, totalLength, slot) == NOT_EMPTY && RecordAt(b2, totalLength, slot) == bytes
    ensures GetNextInsertIndex(b2, totalLength, slot) == GetNextInsertIndex(b, totalLength, slot)
    ensures GetRecordNum(b2) == GetRecordNum(b)
    ensures forall j :: SlotInBlock(totalLength, j, |b|) && j != slot ==>
      Flag(b2, totalLength, j) == Flag(b, totalLength, j) &&
      RecordAt(b2, totalLength, j) == RecordAt(b, totalLength, j)
  {
    var p := PositionFromIndex(totalLength, slot);
    assert b2[p + 1..p + 1 + totalLength] == bytes;
    assert forall k :: 0 <= k < |b| && !(p <= k < p + 1 + totalLength) ==> b2[k] == b[k];
    forall j | SlotInBlock(totalLength, j, |b|) && j != slot
      ensures Flag(b2, totalLength, j) == Flag(b, totalLength, j)
      ensures RecordAt(b2, totalLength, j) == RecordAt(b, totalLength, j)
    {
      if slot < j {
        SlotsDisjoint(totalLength, slot, j);
      } else {
        SlotsDisjoint(totalLength, j, slot);
      }
      SlotUnchangedOutside(b, b2, totalLength, j, p, p + 1 + totalLength);
    }
    var off := PointerOffset(totalLength, slot);
    assert b2[off] == b[off] && b2[off + 1] == b[off + 1];
  }

  lemma InsertKeepsOthers(b: Block, totalLength: nat, bytes: seq<uint8>, slot: int,
                          b2: Block, b3: Block, b4: Block)
    requires |b| == DATA_SIZE && |bytes| == totalLength
    requires slot == GetInsertIndex(b)
    requires PositionFromIndex(totalLength, slot) + RecordSize(totalLength) <= BLOCK_SIZE
    requires b2 == Overwrite(b[PositionFromIndex(totalLength, slot) := NOT_EMPTY], PositionFromIndex(totalLength, slot) + 1, bytes)
    requires b3 == SetInsertIndex(b2, GetNextInsertIndex(b2, totalLength, slot))
    requires b4 == IncRecordNum(b3)
    ensures SlotInBlock(totalLength, slot, |b|)
    ensures Flag(b4, totalLength, slot) == NOT_EMPTY && RecordAt(b4, totalLength, slot) == bytes
    ensures GetInsertIndex(b4) == GetNextInsertIndex(b, totalLength, slot)
    ensures GetRecordNum(b4) == (GetRecordNum(b) + 1) % TWO_16
    ensures forall j :: SlotInBlock(totalLength, j, |b|) && j != slot ==>
      Flag(b4, totalLength, j) == Flag(b, totalLength, j) &&
      RecordAt(b4, totalLength, j) == RecordAt(b, totalLength, j)
  {
    SlotBelowFits(totalLength, slot, slot, |b|);
    SlotIndexBelowLength(totalLength, slot, |b|);
    WriteSlotKeepsOthers(b, totalLength, bytes, slot, b2);
    var next := GetNextInsertIndex(b2, totalLength, slot);
    assert 0 <= next < TWO_16;
    PointerWriteKeepsSlots(b2, totalLength, -1, next);
    assert SameSlots(b2, b3, totalLength);
    assert GetInsertIndex(b3) == next;
    assert GetRecordNum(b3) == GetRecordNum(b);
    CountWriteKeepsSlots(b3, totalLength);
    assert SameSlots(b3, b4, totalLength);
    assert b4[0] == b3[0] && b4[1] == b3[1];
    assert GetInsertIndex(b4) == next;
  }

  /** The table's blocks as the buffer holds them: one full-size block per block number. */
  predicate Resident(table: Table, blocks: seq<Block>)
  {
    && table.totalLength >= 0
    && table.blockNum == |blocks|
    && forall k :: 0 <= k < |blocks| ==> |blocks[k]| == DATA_SIZE
  }

  /** What one pass of insertRecord's `while (true)` loop leaves: the record placed, or the
      table moved on to the next block. */
  datatype InsertPass =
    | Placed(table: Table, blocks: seq<Block>, slot: int)
    | Moved(table: Table, blocks: seq<Block>)

  /** The step to the next block after a full one: past the last block a zeroed block is
      added, as addBlockInFile leaves it (FreshBlock). */
  function NextBlockAsWritten(table: Table, blocks: seq<Block>): (r: (Table, seq<Block>))
    requires Resident(table, blocks) && 0 <= table.nextInsertBlock < |blocks|
    ensures Resident(r.0, r.1)
    ensures r.0 == table.(nextInsertBlock := table.nextInsertBlock + 1, blockNum := |r.1|)
    ensures 0 <= r.0.nextInsertBlock < |r.1|
    ensures |blocks| <= |r.1| && r.1[..|blocks|] == blocks
  {
    var at := table.nextInsertBlock;
    if at + 1 >= table.blockNum then
      var grown := blocks + [Zeros(DATA_SIZE)];
      assert grown[..|blocks|] == blocks;
      (table.(nextInsertBlock := at + 1, blockNum := |grown|), grown)
    else (table.(nextInsertBlock := at + 1), blocks)
  }

  /** One pass of the loop as written: place the record in block `nextInsertBlock`, or step
      to the next block. */
  function InsertPassAsWritten(table: Table, blocks: seq<Block>, bytes: seq<uint8>): (r: Result<InsertPass>)
    requires Resident(table, blocks) && |bytes| == table.totalLength
    ensures r.Failure? <==> !(0 <= table.nextInsertBlock < |blocks|)
    ensures r.Success? && r.value.Moved? ==>
      && InsertIntoBlock(blocks[table.nextInsertBlock], table.totalLength, bytes).None?
      && (r.value.table, r.value.blocks) == NextBlockAsWritten(table, blocks)
  {
    var at := table.nextInsertBlock;
    if !(0 <= at < |blocks|) then Failure(MissingBlock(at))
    else
      assert |blocks[at]| == DATA_SIZE;
      match InsertIntoBlock(blocks[at], table.totalLength, bytes)
      case Some(placed) => Success(Placed(table, blocks[at := placed.0], placed.1))
      case None =>
        var (table', blocks') := NextBlockAsWritten(table, blocks);
        Success(Moved(table', blocks'))
  }

  /** `n + 1` passes of the loop as written, ending early once the record is placed or a
      block is missing. */
  function InsertPassesAsWritten(n: nat, table: Table, blocks: seq<Block>, bytes: seq<uint8>): Result<InsertPass>
    requires Resident(table, blocks) && |bytes| == table.totalLength
    decreases n
  {
    var r := InsertPassAsWritten(table, blocks, bytes);
    if n == 0 || r.Failure? || r.value.Placed? then r
    else InsertPassesAsWritten(n - 1, r.value.table, r.value.blocks, bytes)
  }

  /** A record too long for an empty block fits no block, since every free-list head lies at
      or past the header. */
  lemma TooLongFitsNoBlock(b: Block, totalLength: nat, bytes: seq<uint8>)
    requires |b| == DATA_SIZE && |bytes| == totalLength
    requires HEADER_SIZE + RecordSize(totalLength) > BLOCK_SIZE
    ensures InsertIntoBlock(b, totalLength, bytes).None?
  {
  }

  /** The loop as written never ends on a record too long for an empty block: after any
      number of passes it is still moving on, one fresh block further each time. */
  lemma {:induction false} InsertRecordAsWrittenNeverEnds(n: nat, table: Table, blocks: seq<Block>, bytes: seq<uint8>)
    requires Resident(table, blocks) && |bytes| == table.totalLength
    requires 0 <= table.nextInsertBlock < |blocks|
    requires HEADER_SIZE + RecordSize(table.totalLength) > BLOCK_SIZE
    ensures InsertPassesAsWritten(n, table, blocks, bytes).Success?
    ensures InsertPassesAsWritten(n, table, blocks, bytes).value.Moved?
    decreases n
  {
    TooLongFitsNoBlock(blocks[table.nextInsertBlock], table.totalLength, bytes);
    var r := InsertPassAsWritten(table, blocks, bytes);
    assert r.Success? && r.value.Moved?;
    if n > 0 {
      var t', b' := r.value.table, r.value.blocks;
      assert InsertPassesAsWritten(n, table, blocks, bytes) == InsertPassesAsWritten(n - 1, t', b', bytes);
      InsertRecordAsWrittenNeverEnds(n - 1, t', b', bytes);
    }
  }

  /** insertRecord's search for room, corrected: starting at the table's `nextInsertBlock`,
      every full block is skipped, and past the last block a fresh one is added
      (addBlockInFile). A record that cannot fit even an empty block is refused with
      RecordTooLong instead of adding blocks forever. */
  method InsertRecord(table: Table, blocks: seq<Block>, bytes: seq<uint8>)
    returns (r: Result<(Table, seq<Block>, int)>)
    requires table.totalLength >= 0 && |bytes| == table.totalLength
    requires table.blockNum == |blocks|
    requires forall k :: 0 <= k < |blocks| ==> |blocks[k]| == DATA_SIZE
    ensures r.Failure? <==>
      !(0 <= table.nextInsertBlock < |blocks|) || HEADER_SIZE + RecordSize(table.totalLength) > BLOCK_SIZE
    ensures r.Failure? ==>
      r.error == if !(0 <= table.nextInsertBlock < |blocks|) then MissingBlock(table.nextInsertBlock) else RecordTooLong
    ensures r.Success? ==>
      var (table', blocks', slot) := r.value;
      var at := table'.nextInsertBlock;
      && table' == table.(nextInsertBlock := at, blockNum := |blocks'|)
      && table.nextInsertBlock <= at < |blocks'|
      && (|blocks'| == |blocks| || (|blocks'| == |blocks| + 1 && at == |blocks|))
      && (forall k :: table.nextInsertBlock <= k < at && k < |blocks| ==>
            InsertIntoBlock(blocks[k], table.totalLength, bytes).None?)
      && (forall k :: 0 <= k < |blocks| && k != at ==> blocks'[k] == blocks[k])
      && (at < |blocks| ==> InsertIntoBlock(blocks[at], table.totalLength, bytes) == Some((blocks'[at], slot)))
      && (at == |blocks| ==> InsertIntoBlock(FreshBlock(), table.totalLength, bytes) == Some((blocks'[at], slot)))
      && SlotInBlock(table.totalLength, slot, |blocks'[at]|)
      && RecordAt(blocks'[at], table.totalLength, slot) == bytes
  {
    var tl := table.totalLength;
    var at := table.nextInsertBlock;
    if !(0 <= at < |blocks|) {
      return Failure(MissingBlock(at));
    }
    if HEADER_SIZE + RecordSize(tl) > BLOCK_SIZE {
      return Failure(RecordTooLong);
    }
    while at < |blocks|
      invariant table.nextInsertBlock <= at <= |blocks|
      invariant forall k :: table.nextInsertBlock <= k < at ==> InsertIntoBlock(blocks[k], tl, bytes).None?
      decreases |blocks| - at
    {
      match InsertIntoBlock(blocks[at], tl, bytes)
      case Some(placed) =>
        return Success((table.(nextInsertBlock := at), blocks[at := placed.0], placed.1));
      case None =>
        at := at + 1;
    }
    var empty := FreshBlock();
    assert PositionFromIndex(tl, GetInsertIndex(empty)) == HEADER_SIZE;
    var placed := InsertIntoBlock(empty, tl, bytes).value;
    var blocks' := blocks + [placed.0];
    return Success((table.(nextInsertBlock := at, blockNum := |blocks'|), blocks', placed.1));
  }

  // ---------------------------------------------------------------- matching

  /** `Arrays.copyOfRange`: a reversed range is refused before the start is checked, and
      bytes past the end of the source read as zero. */
  function CopyOfRange(bytes: seq<uint8>, from: int, to: int): (r: Result<seq<uint8>>)
    ensures r.Success? <==> 0 <= from <= |bytes| && from <= to
    ensures r.Failure? ==> r.error == (if from > to then IllegalArgument else IndexOutOfBounds)
    ensures r.Success? ==> |r.value| == to - from
    ensures r.Success? ==>
      forall k :: 0 <= k < to - from ==> r.value[k] == if from + k < |bytes| then bytes[from + k] else 0
  {
    if from > to then Failure(IllegalArgument)
    else if from < 0 || from > |bytes| then Failure(IndexOutOfBounds)
    else Success(seq(to - from, k requires 0 <= k < to - from => if from + k < |bytes| then bytes[from + k] else 0))
  }

  /** The position of the first attribute called `name`, or |attrs| when there is none. */
  function FirstNamed(attrs: seq<Attribute>, name: string): (k: nat)
    ensures k <= |attrs|
    ensures k < |attrs| ==> attrs[k].name == name
    ensures forall j :: 0 <= j < k ==> attrs[j].name != name
  {
    if |attrs| == 0 then 0
    else if attrs[0].name == name then 0
    else 1 + FirstNamed(attrs[1..], name)
  }

  /** Judging a condition against the column starting at `start`. */
  function ColumnHolds(attr: Attribute, bytes: seq<uint8>, start: int, cond: Condition,
                       floatRight: FloatJudge): Result<bool>
  {
    if attr.attrType == INT_TYPE then
      var column :- CopyOfRange(bytes, start, start + 4);
      IfRightInt(cond, DecodeInt32(column))
    else if attr.attrType == FLOAT_TYPE then
      var column :- CopyOfRange(bytes, start, start + 4);
      floatRight(cond, column)
    else
      var column :- CopyOfRange(bytes, start, start + attr.length);
      Success(IfRightString(cond, AsText(column)))
  }

  /** What matchCondition decides: the first column with the condition's name, read at the
      offset the column lengths before it give; a name no column carries matches nothing. */
  function ConditionHolds(attrs: seq<Attribute>, bytes: seq<uint8>, cond: Condition,
                          floatRight: FloatJudge): Result<bool>
  {
    var k := FirstNamed(attrs, cond.attributeName);
    if k == |attrs| then Success(false)
    else ColumnHolds(attrs[k], bytes, IndexColumn.ColumnStart(attrs, k), cond, floatRight)
  }

  /** matchCondition: walks the attributes adding up lengths until the named one. */
  method MatchCondition(attrs: seq<Attribute>, bytes: seq<uint8>, cond: Condition, floatRight: FloatJudge)
    returns (r: Result<bool>)
    ensures r == ConditionHolds(attrs, bytes, cond, floatRight)
  {
    var columnStart := 0;
    var i := 0;
    while i < |attrs|
      invariant 0 <= i <= |attrs|
      invariant columnStart == IndexColumn.ColumnStart(attrs, i)
      invariant forall j :: 0 <= j < i ==> attrs[j].name != cond.attributeName
    {
      if cond.attributeName == attrs[i].name {
        assert FirstNamed(attrs, cond.attributeName) == i;
        return ColumnHolds(attrs[i], bytes, columnStart, cond, floatRight);
      }
      assert attrs[..i + 1] == attrs[..i] + [attrs[i]];
      columnStart := columnStart + attrs[i].length;
      i := i + 1;
    }
    return Success(false);
  }

  /** matchAllCond: conditions are judged in order, the first one that fails decides, and
      an empty list accepts every record. */
  function AllHold(attrs: seq<Attribute>, bytes: seq<uint8>, conds: seq<Condition>,
                   floatRight: FloatJudge): Result<bool>
  {
    if |conds| == 0 then Success(true)
    else
      var first :- ConditionHolds(attrs, bytes, conds[0], floatRight);
      if !first then Success(false) else AllHold(attrs, bytes, conds[1..], floatRight)
  }

  /** The first condition, from `i` on, that does not hold of the record. */
  function FirstUnmet(attrs: seq<Attribute>, bytes: seq<uint8>, conds: seq<Condition>,
                      floatRight: FloatJudge, i: nat): (k: nat)
    requires i <= |conds|
    ensures i <= k <= |conds|
    ensures forall j :: i <= j < k ==> ConditionHolds(attrs, bytes, conds[j], floatRight) == Success(true)
    ensures k < |conds| ==> ConditionHolds(attrs, bytes, conds[k], floatRight) != Success(true)
    decreases |conds| - i
  {
    if i == |conds| then i
    else if ConditionHolds(attrs, bytes, conds[i], floatRight) != Success(true) then i
    else FirstUnmet(attrs, bytes, conds, floatRight, i + 1)
  }

  /** The first unmet condition decides: with none the record passes, otherwise its verdict,
      a plain no or the exception it raised, is matchAllCond's. */
  lemma {:induction false} AllHoldFirstUnmetDecides(attrs: seq<Attribute>, bytes: seq<uint8>,
                                                    conds: seq<Condition>, floatRight: FloatJudge, i: nat)
    requires i <= |conds|
    ensures var k := FirstUnmet(attrs, bytes, conds, floatRight, i);
      AllHold(attrs, bytes, conds[i..], floatRight) ==
        if k == |conds| then Success(true) else ConditionHolds(attrs, bytes, conds[k], floatRight)
    decreases |conds| - i
  {
    if i < |conds| {
      var rest := conds[i..];
      assert rest[0] == conds[i];
      assert rest[1..] == conds[i + 1..];
      var first := ConditionHolds(attrs, bytes, conds[i], floatRight);
      if first == Success(true) {
        AllHoldFirstUnmetDecides(attrs, bytes, conds, floatRight, i + 1);
      } else if first.Success? {
        assert !first.value;
      }
    }
  }

  /** A record passes exactly when every condition holds of it. */
  lemma AllHoldIffEvery(attrs: seq<Attribute>, bytes: seq<uint8>, conds: seq<Condition>,
                        floatRight: FloatJudge)
    ensures AllHold(attrs, bytes, conds, floatRight) == Success(true) <==>
      forall i :: 0 <= i < |conds| ==> ConditionHolds(attrs, bytes, conds[i], floatRight) == Success(true)
  {
    AllHoldFirstUnmetDecides(attrs, bytes, conds, floatRight, 0);
    assert conds[0..] == conds;
  }

  /** matchAllCond as the record scans call it. */
  method MatchAllCond(attrs: seq<Attribute>, bytes: seq<uint8>, conds: seq<Condition>, floatRight: FloatJudge)
    returns (r: Result<bool>)
    ensures r == AllHold(attrs, bytes, conds, floatRight)
  {
    var i := 0;
    while i < |conds|
      invariant 0 <= i <= |conds|
      invariant AllHold(attrs, bytes, conds, floatRight) == AllHold(attrs, bytes, conds[i..], floatRight)
    {
      var m := MatchCondition(attrs, bytes, conds[i], floatRight);
      if m.Failure? {
        return Failure(m.error);
      }
      if !m.value {
        return Success(false);
      }
      assert conds[i..][1..] == conds[i + 1..];
      i := i + 1;
    }
    return Success(true);
  }

  // ---------------------------------------------------------------- deletion

  /** A verdict on a record's bytes; the scan of deleteRecord judges with `Matcher`. */
  type Verdict = seq<uint8> -> Result<bool>

  /** matchAllCond with the table's columns and the WHERE conditions fixed. */
  function Matcher(attrs: seq<Attribute>, conds: seq<Condition>, floatRight: FloatJudge): (v: Verdict)
    ensures forall bytes :: v(bytes) == AllHold(attrs, bytes, conds, floatRight)
  {
    bytes => AllHold(attrs, bytes, conds, floatRight)
  }

  /** Slot `j` holds a live record that every condition accepts. */
  predicate Doomed(b: Block, totalLength: nat, accepts: Verdict, j: int)
    requires SlotInBlock(totalLength, j, |b|)
  {
    Flag(b, totalLength, j) != EMPTY && accepts(RecordAt(b, totalLength, j)) == Success(true)
  }

  /** The number of doomed slots below `j`. */
  function DoomedBefore(b: Block, totalLength: nat, accepts: Verdict, j: nat): nat
    requires j == 0 || SlotInBlock(totalLength, j - 1, |b|)
  {
    if j == 0 then 0
    else
      (if j - 1 > 0 then SlotBelowFits(totalLength, j - 2, j - 1, |b|); 0 else 0) +
      DoomedBefore(b, totalLength, accepts, j - 1) +
      (if Doomed(b, totalLength, accepts, j - 1) then 1 else 0)
  }

  lemma DoomedBeforeStep(b: Block, totalLength: nat, accepts: Verdict, j: nat)
    requires SlotInBlock(totalLength, j, |b|)
    ensures DoomedBefore(b, totalLength, accepts, j + 1) ==
      DoomedBefore(b, totalLength, accepts, j) + (if Doomed(b, totalLength, accepts, j) then 1 else 0)
  {
  }

  /** What one block's pass of deleteRecord leaves behind when it stops before slot `end`,
      having emptied `removed` slots: every record byte is kept, the doomed slots below
      `end` are emptied and no other flag changes, `end` is where the live slots seen reach
      the header's count, and the count drops by the number emptied. The free-list
      pointers are rewritten and are not described here. */
  ghost predicate DeletedFrom(b: Block, b': Block, totalLength: nat, accepts: Verdict, end: nat, removed: nat)
    requires |b| >= HEADER_SIZE
  {
    && |b'| == |b|
    && (end == 0 || SlotInBlock(totalLength, end - 1, |b|))
    && LiveBefore(b, totalLength, end) == GetRecordNum(b)
    && (forall j :: SlotInBlock(totalLength, j, |b|) ==> RecordAt(b', totalLength, j) == RecordAt(b, totalLength, j))
    && (forall j :: SlotInBlock(totalLength, j, |b|) ==>
          Flag(b', totalLength, j) ==
            if j < end && Doomed(b, totalLength, accepts, j) then EMPTY else Flag(b, totalLength, j))
    && removed == DoomedBefore(b, totalLength, accepts, end)
    && GetRecordNum(b') == GetRecordNum(b) - removed
  }

  /** Slot `i`'s flag may differ; every other flag and every record agrees. */
  ghost predicate OnlyFlagOf(b: Block, b': Block, totalLength: nat, i: int)
  {
    |b'| == |b| &&
    forall j :: SlotInBlock(totalLength, j, |b|) ==>
      RecordAt(b', totalLength, j) == RecordAt(b, totalLength, j) &&
      (j != i ==> Flag(b', totalLength, j) == Flag(b, totalLength, j))
  }

  lemma OnlyFlagThenSame(b: Block, b1: Block, b2: Block, totalLength: nat, i: int)
    requires OnlyFlagOf(b, b1, totalLength, i) && SameSlots(b1, b2, totalLength)
    ensures OnlyFlagOf(b, b2, totalLength, i)
    ensures SlotInBlock(totalLength, i, |b|) ==> Flag(b2, totalLength, i) == Flag(b1, totalLength, i)
  {
  }

  /** The writes of one deletion, clearing the flag then rewriting two pointers and the
      count, touch no record and no other flag. */
  lemma FreeSlotWrites(blk: Block, totalLength: nat, i: int, p1: int, v1: int, p2: int, v2: int,
                       b1: Block, b2: Block, b3: Block, b4: Block)
    requires |blk| >= HEADER_SIZE && SlotInBlock(totalLength, i, |blk|)
    requires p1 == -1 || SlotInBlock(totalLength, p1, |blk|)
    requires SlotInBlock(totalLength, p2, |blk|)
    requires b1 == blk[PositionFromIndex(totalLength, i) := EMPTY]
    requires b2 == SetNextInsertIndex(b1, totalLength, p1, v1)
    requires b3 == SetNextInsertIndex(b2, totalLength, p2, v2)
    requires b4 == DecRecordNum(b3)
    ensures OnlyFlagOf(blk, b4, totalLength, i)
    ensures Flag(b4, totalLength, i) == EMPTY
    ensures GetRecordNum(blk) > 0 ==> GetRecordNum(b4) == GetRecordNum(blk) - 1
  {
    FlagWriteKeepsOthers(blk, totalLength, i, EMPTY);
    assert OnlyFlagOf(blk, b1, totalLength, i);
    PointerWriteKeepsSlots(b1, totalLength, p1, v1);
    OnlyFlagThenSame(blk, b1, b2, totalLength, i);
    PointerWriteKeepsSlots(b2, totalLength, p2, v2);
    OnlyFlagThenSame(blk, b2, b3, totalLength, i);
    CountWriteKeepsSlots(b3, totalLength);
    OnlyFlagThenSame(blk, b3, b4, totalLength, i);
  }

  /** The links after one deletion's writes: link `p1` reads `v1`, link `p2` reads `v2`, and
      every other link is as it was. */
  lemma FreeSlotLinks(blk: Block, totalLength: nat, i: int, p1: int, v1: int, p2: int, v2: int,
                      b1: Block, b2: Block, b3: Block, b4: Block)
    requires |blk| >= HEADER_SIZE && SlotInBlock(totalLength, i, |blk|)
    requires IsLink(totalLength, p1, |blk|) && SlotInBlock(totalLength, p2, |blk|) && p1 != p2
    requires 0 <= v1 < TWO_16 && (p1 == -1 || v1 != NEXT_RECORD)
    requires 0 < v2 < TWO_16
    requires b1 == blk[PositionFromIndex(totalLength, i) := EMPTY]
    requires b2 == SetNextInsertIndex(b1, totalLength, p1, v1)
    requires b3 == SetNextInsertIndex(b2, totalLength, p2, v2)
    requires b4 == DecRecordNum(b3)
    ensures LinkAt(b4, totalLength, p1) == v1 && LinkAt(b4, totalLength, p2) == v2
    ensures forall q :: IsLink(totalLength, q, |blk|) && q != p1 && q != p2 ==>
      LinkAt(b4, totalLength, q) == LinkAt(blk, totalLength, q)
  {
    LinkRoundTrip(b1, totalLength, p1, v1);
    LinkWriteKeepsOtherLinks(b2, totalLength, p2, v2, p1);
    FlagAndCountWritesKeepLinks(b3, totalLength, i, EMPTY, p1);
    LinkRoundTrip(b2, totalLength, p2, v2);
    FlagAndCountWritesKeepLinks(b3, totalLength, i, EMPTY, p2);
    forall q | IsLink(totalLength, q, |blk|) && q != p1 && q != p2
      ensures LinkAt(b4, totalLength, q) == LinkAt(blk, totalLength, q)
    {
      FlagAndCountWritesKeepLinks(blk, totalLength, i, EMPTY, q);
      LinkWriteKeepsOtherLinks(b1, totalLength, p1, v1, q);
      LinkWriteKeepsOtherLinks(b2, totalLength, p2, v2, q);
      FlagAndCountWritesKeepLinks(b3, totalLength, i, EMPTY, q);
    }
  }

  /** Emptying slot `i` and threading it into the free list, as deleteRecord does for a
      matching record. `nextDeleted` is the free slot the scan expects next and `prevDeleted`
      the slot freed last (-1 for the header); the result carries the new `nextDeleted`. */
  function FreeSlot(blk: Block, totalLength: nat, i: int, nextDeleted: int, prevDeleted: int): (r: Result<(Block, int)>)
    requires |blk| >= HEADER_SIZE && SlotInBlock(totalLength, i, |blk|)
    requires prevDeleted == -1 || SlotInBlock(totalLength, prevDeleted, |blk|)
    requires 0 <= nextDeleted
    ensures r.Failure? <==> i >= nextDeleted && !SlotInBlock(totalLength, nextDeleted, |blk|)
    ensures r.Success? ==>
      && OnlyFlagOf(blk, r.value.0, totalLength, i)
      && Flag(r.value.0, totalLength, i) == EMPTY
      && (GetRecordNum(blk) > 0 ==> GetRecordNum(r.value.0) == GetRecordNum(blk) - 1)
      && r.value.1 >= 0
      && (i < nextDeleted ==> r.value.1 == nextDeleted)
    ensures r.Success? && i < nextDeleted < TWO_16 && (prevDeleted == -1 || prevDeleted < i) ==>
      && LinkAt(r.value.0, totalLength, prevDeleted) == i
      && LinkAt(r.value.0, totalLength, i) == nextDeleted
      && forall q :: IsLink(totalLength, q, |blk|) && q != prevDeleted && q != i ==>
           LinkAt(r.value.0, totalLength, q) == LinkAt(blk, totalLength, q)
    ensures r.Success? && nextDeleted < i < TWO_16 && LinkAt(blk, totalLength, nextDeleted) < TWO_16 ==>
      && r.value.1 == LinkAt(blk, totalLength, nextDeleted)
      && LinkAt(r.value.0, totalLength, nextDeleted) == i
      && LinkAt(r.value.0, totalLength, i) == LinkAt(blk, totalLength, nextDeleted)
      && forall q :: IsLink(totalLength, q, |blk|) && q != nextDeleted && q != i ==>
           LinkAt(r.value.0, totalLength, q) == LinkAt(blk, totalLength, q)
  {
    var b1 := blk[PositionFromIndex(totalLength, i) := EMPTY];
    if i < nextDeleted then
      var b2 := SetNextInsertIndex(b1, totalLength, prevDeleted, i);
      var b3 := SetNextInsertIndex(b2, totalLength, i, nextDeleted);
      FreeSlotWrites(blk, totalLength, i, prevDeleted, i, i, nextDeleted, b1, b2, b3, DecRecordNum(b3));
      if nextDeleted < TWO_16 && (prevDeleted == -1 || prevDeleted < i) then
        FreeSlotLinks(blk, totalLength, i, prevDeleted, i, i, nextDeleted, b1, b2, b3, DecRecordNum(b3));
        Success((DecRecordNum(b3), nextDeleted))
      else Success((DecRecordNum(b3), nextDeleted))
    else if !SlotInBlock(totalLength, nextDeleted, |b1|) then Failure(IndexOutOfBounds)
    else
      var nextOfNext := GetNextInsertIndex(b1, totalLength, nextDeleted);
      var b2 := SetNextInsertIndex(b1, totalLength, nextDeleted, i);
      var b3 := SetNextInsertIndex(b2, totalLength, i, nextOfNext);
      FreeSlotWrites(blk, totalLength, i, nextDeleted, i, i, nextOfNext, b1, b2, b3, DecRecordNum(b3));
      FlagAndCountWritesKeepLinks(blk, totalLength, i, EMPTY, nextDeleted);
      if nextDeleted < i < TWO_16 && nextOfNext < TWO_16 then
        FreeSlotLinks(blk, totalLength, i, nextDeleted, i, i, nextOfNext, b1, b2, b3, DecRecordNum(b3));
        Success((DecRecordNum(b3), nextOfNext))
      else Success((DecRecordNum(b3), nextOfNext))
  }

  /** The flags after the scan has passed the slots below `index`. */
  ghost predicate FlagsUpTo(b: Block, blk: Block, totalLength: nat, accepts: Verdict, index: nat)
  {
    |blk| == |b| &&
    forall j {:trigger Flag(blk, totalLength, j)} :: SlotInBlock(totalLength, j, |b|) ==>
      Flag(blk, totalLength, j) ==
        if j < index && Doomed(b, totalLength, accepts, j) then EMPTY else Flag(b, totalLength, j)
  }

  ghost predicate SameRecords(b: Block, blk: Block, totalLength: nat)
  {
    |blk| == |b| &&
    forall j {:trigger RecordAt(blk, totalLength, j)} :: SlotInBlock(totalLength, j, |b|) ==>
      RecordAt(blk, totalLength, j) == RecordAt(b, totalLength, j)
  }

  /** The loop variables of deleteRecord's scan over one block. */
  datatype Scan = Scan(blk: Block, index: nat, accessed: nat, removed: nat, nextDeleted: int, prevDeleted: int)

  /** The scan invariant: the slots below `index` have been visited, `accessed` of them
      live and `removed` of them emptied. */
  ghost predicate ScanOK(b: Block, totalLength: nat, accepts: Verdict, st: Scan)
    requires |b| >= HEADER_SIZE
  {
    && (st.index == 0 || SlotInBlock(totalLength, st.index - 1, |b|))
    && SameRecords(b, st.blk, totalLength)
    && FlagsUpTo(b, st.blk, totalLength, accepts, st.index)
    && st.accessed == LiveBefore(b, totalLength, st.index) && st.accessed <= GetRecordNum(b)
    && st.removed == DoomedBefore(b, totalLength, accepts, st.index) && st.removed <= st.accessed
    && GetRecordNum(st.blk) == GetRecordNum(b) - st.removed
    && 0 <= st.nextDeleted
    && (st.prevDeleted == -1 || SlotInBlock(totalLength, st.prevDeleted, |b|))
  }

  /** Passing a slot that is not doomed changes nothing. */
  lemma PassSlot(b: Block, blk: Block, totalLength: nat, accepts: Verdict, index: nat)
    requires FlagsUpTo(b, blk, totalLength, accepts, index)
    requires SlotInBlock(totalLength, index, |b|) && !Doomed(b, totalLength, accepts, index)
    ensures FlagsUpTo(b, blk, totalLength, accepts, index + 1)
  {
  }

  /** Emptying a doomed slot keeps the scan's description of the flags and records. */
  lemma ClearSlot(b: Block, blk: Block, blk': Block, totalLength: nat, accepts: Verdict, index: nat)
    requires FlagsUpTo(b, blk, totalLength, accepts, index) && SameRecords(b, blk, totalLength)
    requires SlotInBlock(totalLength, index, |b|) && Doomed(b, totalLength, accepts, index)
    requires OnlyFlagOf(blk, blk', totalLength, index) && Flag(blk', totalLength, index) == EMPTY
    ensures FlagsUpTo(b, blk', totalLength, accepts, index + 1)
    ensures SameRecords(b, blk', totalLength)
  {
  }

  /** Passing an empty slot. */
  lemma ScanEmpty(b: Block, totalLength: nat, accepts: Verdict, st: Scan)
    requires |b| >= HEADER_SIZE && ScanOK(b, totalLength, accepts, st)
    requires SlotInBlock(totalLength, st.index, |b|) && Flag(st.blk, totalLength, st.index) == EMPTY
    ensures Flag(b, totalLength, st.index) == EMPTY
    ensures ScanOK(b, totalLength, accepts, st.(index := st.index + 1))
  {
    LiveBeforeStep(b, totalLength, st.index);
    DoomedBeforeStep(b, totalLength, accepts, st.index);
    assert Flag(st.blk, totalLength, st.index) == Flag(b, totalLength, st.index);
    PassSlot(b, st.blk, totalLength, accepts, st.index);
  }

  /** Passing a live slot whose record some condition rejects. */
  lemma ScanKept(b: Block, totalLength: nat, accepts: Verdict, st: Scan)
    requires |b| >= HEADER_SIZE && ScanOK(b, totalLength, accepts, st)
    requires st.accessed < GetRecordNum(b)
    requires SlotInBlock(totalLength, st.index, |b|) && Flag(st.blk, totalLength, st.index) != EMPTY
    requires accepts(RecordAt(st.blk, totalLength, st.index)) == Success(false)
    ensures ScanOK(b, totalLength, accepts, st.(index := st.index + 1, accessed := st.accessed + 1))
  {
    LiveBeforeStep(b, totalLength, st.index);
    DoomedBeforeStep(b, totalLength, accepts, st.index);
    assert Flag(st.blk, totalLength, st.index) == Flag(b, totalLength, st.index);
    assert RecordAt(st.blk, totalLength, st.index) == RecordAt(b, totalLength, st.index);
    PassSlot(b, st.blk, totalLength, accepts, st.index);
  }

  /** Emptying a live slot whose record every condition accepts. */
  lemma ScanCleared(b: Block, totalLength: nat, accepts: Verdict, st: Scan, blk': Block, next': int)
    requires |b| >= HEADER_SIZE && ScanOK(b, totalLength, accepts, st)
    requires st.accessed < GetRecordNum(b)
    requires SlotInBlock(totalLength, st.index, |b|) && Flag(st.blk, totalLength, st.index) != EMPTY
    requires accepts(RecordAt(st.blk, totalLength, st.index)) == Success(true)
    requires OnlyFlagOf(st.blk, blk', totalLength, st.index) && Flag(blk', totalLength, st.index) == EMPTY
    requires GetRecordNum(blk') == GetRecordNum(st.blk) - 1
    requires next' >= 0
    ensures ScanOK(b, totalLength, accepts,
                   Scan(blk', st.index + 1, st.accessed + 1, st.removed + 1, next', st.index))
  {
    LiveBeforeStep(b, totalLength, st.index);
    DoomedBeforeStep(b, totalLength, accepts, st.index);
    assert Flag(st.blk, totalLength, st.index) == Flag(b, totalLength, st.index);
    assert RecordAt(st.blk, totalLength, st.index) == RecordAt(b, totalLength, st.index);
    ClearSlot(b, st.blk, blk', totalLength, accepts, st.index);
  }

  /** One block of deleteRecord: slots are scanned from 0, empty ones skipped, until as
      many live slots as the header counts have been seen; a matching record is emptied
      and threaded into the free list. Running off the block is IndexOutOfBounds. The
      result carries the block, the slot the scan stopped at and the number emptied. */
  method DeleteInBlock(b: Block, totalLength: nat, attrs: seq<Attribute>, conds: seq<Condition>,
                       floatRight: FloatJudge)
    returns (r: Result<(Block, nat, nat)>)
    requires |b| >= HEADER_SIZE
    ensures r.Success? ==>
      DeletedFrom(b, r.value.0, totalLength, Matcher(attrs, conds, floatRight), r.value.1, r.value.2)
  {
    ghost var accepts := Matcher(attrs, conds, floatRight);
    var recordNum := GetRecordNum(b);
    var st := Scan(b, 0, 0, 0, GetInsertIndex(b), -1);
    while st.accessed < recordNum
      invariant ScanOK(b, totalLength, accepts, st)
      decreases |b| - st.index
    {
      if !SlotInBlock(totalLength, st.index, |st.blk|) {
        return Failure(IndexOutOfBounds);
      }
      SlotIndexBelowLength(totalLength, st.index, |b|);
      if Flag(st.blk, totalLength, st.index) == EMPTY {
        ScanEmpty(b, totalLength, accepts, st);
        st := st.(index := st.index + 1);
        continue;
      }
      var recordBytes := RecordAt(st.blk, totalLength, st.index);
      var m := MatchAllCond(attrs, recordBytes, conds, floatRight);
      if m.Failure? {
        return Failure(m.error);
      }
      if m.value {
        var freed := FreeSlot(st.blk, totalLength, st.index, st.nextDeleted, st.prevDeleted);
        if freed.Failure? {
          return Failure(freed.error);
        }
        ScanCleared(b, totalLength, accepts, st, freed.value.0, freed.value.1);
        st := Scan(freed.value.0, st.index + 1, st.accessed + 1, st.removed + 1, freed.value.1, st.index);
      } else {
        ScanKept(b, totalLength, accepts, st);
        st := st.(index := st.index + 1, accessed := st.accessed + 1);
      }
    }
    return Success((st.blk, st.index, st.removed));
  }

  /** With no conditions every live slot is doomed, so the doomed slots below `j` are the
      live ones. */
  lemma {:induction false} NoConditionsDoomsLive(b: Block, totalLength: nat, attrs: seq<Attribute>,
                                                 floatRight: FloatJudge, j: nat)
    requires j == 0 || SlotInBlock(totalLength, j - 1, |b|)
    ensures DoomedBefore(b, totalLength, Matcher(attrs, [], floatRight), j) == LiveBefore(b, totalLength, j)
  {
    if j > 0 {
      if j - 1 > 0 {
        SlotBelowFits(totalLength, j - 2, j - 1, |b|);
      }
      NoConditionsDoomsLive(b, totalLength, attrs, floatRight, j - 1);
      LiveBeforeStep(b, totalLength, j - 1);
      DoomedBeforeStep(b, totalLength, Matcher(attrs, [], floatRight), j - 1);
    }
  }

  /** deleteRecord(tableName), the delete-all form: a block pass with no conditions leaves
      the header's count at zero and empties every slot it passed. */
  lemma DeleteAllEmptiesBlock(b: Block, b': Block, totalLength: nat, attrs: seq<Attribute>,
                              floatRight: FloatJudge, end: nat, removed: nat)
    requires |b| >= HEADER_SIZE
    requires DeletedFrom(b, b', totalLength, Matcher(attrs, [], floatRight), end, removed)
    ensures GetRecordNum(b') == 0 && removed == GetRecordNum(b)
    ensures forall j :: 0 <= j < end ==> SlotInBlock(totalLength, j, |b'|) && Flag(b', totalLength, j) == EMPTY
  {
    NoConditionsDoomsLive(b, totalLength, attrs, floatRight, end);
    forall j | 0 <= j < end
      ensures SlotInBlock(totalLength, j, |b'|) && Flag(b', totalLength, j) == EMPTY
    {
      SlotBelowFits(totalLength, j, end - 1, |b|);
    }
  }

  function Sum(s: seq<nat>): nat
  {
    if |s| == 0 then 0 else Sum(s[..|s| - 1]) + s[|s| - 1]
  }

  /** The table's nextInsertBlock after blocks with the given numbers of deletions: each
      block that lost a record lowers it to that block when it is further on. */
  function LoweredInsertBlock(n: int, removed: seq<nat>): int
  {
    if |removed| == 0 then n
    else
      var m := LoweredInsertBlock(n, removed[..|removed| - 1]);
      if removed[|removed| - 1] > 0 && m > |removed| - 1 then |removed| - 1 else m
  }

  /** The first block that lost a record, or the number of blocks when none did. */
  function FirstFreed(removed: seq<nat>): (k: nat)
    ensures k <= |removed|
    ensures forall j :: 0 <= j < k ==> removed[j] == 0
    ensures k < |removed| ==> removed[k] > 0
  {
    if |removed| == 0 then 0
    else if removed[0] > 0 then 0
    else 1 + FirstFreed(removed[1..])
  }

  lemma {:induction false} FirstFreedPrefix(removed: seq<nat>)
    requires |removed| > 0
    ensures var f := FirstFreed(removed[..|removed| - 1]);
      FirstFreed(removed) == if f < |removed| - 1 || removed[|removed| - 1] > 0 then f else |removed|
  {
    var p := removed[..|removed| - 1];
    var f := FirstFreed(p);
    if f < |p| {
      assert removed[f] == p[f];
      assert forall j :: 0 <= j < f ==> removed[j] == p[j];
    } else {
      assert forall j :: 0 <= j < |p| ==> removed[j] == 0 by {
        forall j | 0 <= j < |p| ensures removed[j] == 0 {
          assert removed[j] == p[j];
        }
      }
    }
  }

  /** The table's nextInsertBlock ends at the first block that lost a record when that is
      lower, and is unchanged when no block lost one. */
  lemma {:induction false} LoweredIsFirstFreed(n: int, removed: seq<nat>)
    ensures LoweredInsertBlock(n, removed) ==
      if FirstFreed(removed) < |removed| && FirstFreed(removed) < n then FirstFreed(removed) else n
  {
    if |removed| > 0 {
      LoweredIsFirstFreed(n, removed[..|removed| - 1]);
      FirstFreedPrefix(removed);
    }
  }

  /** deleteRecord: every block of the table is scanned in turn; the result is the table with
      its nextInsertBlock lowered, the blocks and the number of records deleted. `ends[k]`
      and `removed[k]` say where block `k`'s scan stopped and how many it emptied. The
      index updates are calls into the index manager and are not part of this model. */
  method DeleteRecord(table: Table, blocks: seq<Block>, conds: seq<Condition>, floatRight: FloatJudge)
    returns (r: Result<(Table, seq<Block>, nat)>, ends: seq<nat>, removed: seq<nat>)
    requires table.totalLength >= 0 && table.blockNum == |blocks|
    requires forall k :: 0 <= k < |blocks| ==> |blocks[k]| == DATA_SIZE
    ensures r.Success? ==>
      && |r.value.1| == |blocks| == |ends| == |removed|
      && (forall k :: 0 <= k < |blocks| ==>
            DeletedFrom(blocks[k], r.value.1[k], table.totalLength, Matcher(table.attributes, conds, floatRight),
                        ends[k], removed[k]))
      && r.value.2 == Sum(removed)
      && r.value.0 == table.(nextInsertBlock := LoweredInsertBlock(table.nextInsertBlock, removed))
  {
    var tl := table.totalLength;
    var out := blocks;
    var count := 0;
    var nextInsert := table.nextInsertBlock;
    ends := [];
    removed := [];
    var k := 0;
    while k < table.blockNum
      invariant 0 <= k <= |blocks| && |out| == |blocks| && |ends| == |removed| == k
      invariant forall j :: k <= j < |blocks| ==> out[j] == blocks[j]
      invariant forall j :: 0 <= j < k ==>
        DeletedFrom(blocks[j], out[j], tl, Matcher(table.attributes, conds, floatRight), ends[j], removed[j])
      invariant count == Sum(removed)
      invariant nextInsert == LoweredInsertBlock(table.nextInsertBlock, removed)
    {
      var d := DeleteInBlock(out[k], tl, table.attributes, conds, floatRight);
      if d.Failure? {
        return Failure(d.error), ends, removed;
      }
      var (blk, end, gone) := d.value;
      assert removed + [gone] == (removed + [gone])[..k] + [gone];
      if gone > 0 && nextInsert > k {
        nextInsert := k;
      }
      out := out[k := blk];
      ends := ends + [end];
      removed := removed + [gone];
      count := count + gone;
      k := k + 1;
    }
    return Success((table.(nextInsertBlock := nextInsert), out, count)), ends, removed;
  }
}
