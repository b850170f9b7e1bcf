/** The buffer manager: a fixed pool of frames, each caching one block of one file, with a
    least-recently-used counter per frame. Files are byte sequences keyed by name; writing a
    frame back is the only disk effect modelled. */
module BufferPool {
  import opened Wrappers
  import opened Bytes
  import opened Catalog
  import RecordBlock

  const BUFFER_SIZE: int := 5
  const BLOCK_SIZE: int := RecordBlock.BLOCK_SIZE
  const DATA_SIZE: int := RecordBlock.DATA_SIZE

  /** A BufferNode: `dirty` is isWritten, `lru` grows with the time since the frame was used. */
  datatype Frame = Frame(dirty: bool, valid: bool, fileName: string, blockOffset: int, lru: int,
                         data: seq<uint8>)

  type Pool = seq<Frame>

  /** The files frames are written back to. A file that does not exist yet reads as empty. */
  type Disk = map<string, seq<uint8>>

  predicate FrameOK(f: Frame)
  {
    |f.data| == DATA_SIZE && f.lru >= 0
  }

  /** The pool's standing shape: five frames, each holding a block and one spare byte, with
      counters that only ever grow from zero. */
  predicate PoolOK(pool: Pool)
  {
    |pool| == BUFFER_SIZE && forall i :: 0 <= i < |pool| ==> FrameOK(pool[i])
  }

  /** The BufferNode constructor. */
  function NewFrame(): (f: Frame)
    ensures FrameOK(f) && !f.dirty && !f.valid
  {
    Frame(false, false, "", 0, 0, Zeros(DATA_SIZE))
  }

  /** The BufferManager constructor. */
  function NewPool(): (pool: Pool)
    ensures PoolOK(pool)
    ensures forall i :: 0 <= i < |pool| ==> pool[i] == NewFrame()
  {
    seq(BUFFER_SIZE, i => NewFrame())
  }

  /** BufferNode.initialize: back to a constructed frame, except that the zeroing loop stops
      at BLOCK_SIZE and so keeps the spare byte. */
  function Initialize(f: Frame): (r: Frame)
    requires |f.data| == DATA_SIZE
    ensures FrameOK(r)
    ensures r.(data := NewFrame().data) == NewFrame()
    ensures r.data[..BLOCK_SIZE] == NewFrame().data[..BLOCK_SIZE]
    ensures r.data[BLOCK_SIZE] == f.data[BLOCK_SIZE]
  {
    Frame(false, false, "", 0, 0, Zeros(BLOCK_SIZE) + [f.data[BLOCK_SIZE]])
  }

  predicate Holds(f: Frame, fileName: string, blockOffset: int)
  {
    f.fileName == fileName && f.blockOffset == blockOffset
  }

  // ---------------------------------------------------------------- lookup and recency

  /** getIfIsInBuffer: the lowest frame tagged with the file and block, valid or not, or -1. */
  method GetIfIsInBuffer(pool: Pool, fileName: string, blockOffset: int) returns (r: int)
    requires PoolOK(pool)
    ensures -1 <= r < |pool|
    ensures r == -1 <==> forall i :: 0 <= i < |pool| ==> !Holds(pool[i], fileName, blockOffset)
    ensures r >= 0 ==> Holds(pool[r], fileName, blockOffset) &&
                       forall i :: 0 <= i < r ==> !Holds(pool[i], fileName, blockOffset)
  {
    var i := 0;
    while i < BUFFER_SIZE
      invariant 0 <= i <= |pool|
      invariant forall j :: 0 <= j < i ==> !Holds(pool[j], fileName, blockOffset)
    {
      if pool[i].fileName == fileName && pool[i].blockOffset == blockOffset {
        return i;
      }
      i := i + 1;
    }
    return -1;
  }

  /** What useBlock(k) does to each frame. */
  ghost predicate TouchedFrom(pool: Pool, r: Pool, k: int)
  {
    |r| == |pool| &&
    forall j :: 0 <= j < |pool| ==>
      r[j] == if j == k then pool[j].(lru := 0, valid := true) else pool[j].(lru := pool[j].lru + 1)
  }

  /** useBlock as intended, with a counter that does not wrap: the used frame's counter drops
      to 0 and it becomes valid; every other counter grows by one, so the frames keep their
      relative age and the used one is the youngest. An index outside the pool only ages every
      frame. */
  method UseBlock(pool: Pool, k: int) returns (r: Pool)
    requires PoolOK(pool)
    ensures TouchedFrom(pool, r, k)
    ensures PoolOK(r)
    ensures forall i, j :: 0 <= i < |pool| && 0 <= j < |pool| && i != k && j != k ==>
      (r[i].lru < r[j].lru <==> pool[i].lru < pool[j].lru)
    ensures 0 <= k < |pool| ==> forall j :: 0 <= j < |pool| && j != k ==> r[k].lru < r[j].lru
  {
    r := pool;
    var i := 0;
    while i < BUFFER_SIZE
      invariant 0 <= i <= |pool| && |r| == |pool|
      invariant forall j :: 0 <= j < i ==>
        r[j] == if j == k then pool[j].(lru := 0, valid := true) else pool[j].(lru := pool[j].lru + 1)
      invariant forall j :: i <= j < |pool| ==> r[j] == pool[j]
    {
      if i == k {
        r := r[i := r[i].(lru := 0, valid := true)];
      } else {
        r := r[i := r[i].(lru := r[i].lru + 1)];
      }
      i := i + 1;
    }
  }

  /** useBlock as written: `LRUValue++` is Java `int` arithmetic, so a frame left unused
      while its counter is at 2^31 - 1 drops to -2^31, the youngest age there is. Until some
      counter reaches 2^31 - 1 it does what the corrected useBlock does. */
  function UseBlockAsWritten(pool: Pool, k: int): (r: Pool)
    requires forall i :: 0 <= i < |pool| ==> IsInt32(pool[i].lru)
    ensures |r| == |pool|
    ensures forall j :: 0 <= j < |pool| ==> IsInt32(r[j].lru)
    ensures 0 <= k < |pool| ==> r[k] == pool[k].(lru := 0, valid := true)
    ensures forall j :: 0 <= j < |pool| && j != k && pool[j].lru < TWO_31 - 1 ==>
      r[j] == pool[j].(lru := pool[j].lru + 1)
    ensures forall j :: 0 <= j < |pool| && j != k && pool[j].lru == TWO_31 - 1 ==>
      r[j] == pool[j].(lru := -TWO_31)
    ensures (forall j :: 0 <= j < |pool| ==> pool[j].lru < TWO_31 - 1) ==> TouchedFrom(pool, r, k)
  {
    var r := seq(|pool|, j requires 0 <= j < |pool| =>
      if j == k then pool[j].(lru := 0, valid := true) else pool[j].(lru := Wrap32(pool[j].lru + 1)));
    forall j | 0 <= j < |pool| && j != k && pool[j].lru < TWO_31 - 1
      ensures r[j] == pool[j].(lru := pool[j].lru + 1)
    {
      assert IsInt32(pool[j].lru);
      assert IsInt32(pool[j].lru + 1);
    }
    r
  }

  /** A full pool whose stalest frame, frame 1, is at 2^31 - 1: after frame 0 is used,
      frame 1's counter wraps to -2^31, below every other frame, so the replacement that
      would have taken it takes frame 4 instead. */
  lemma UseBlockAsWrittenHidesStalest()
    ensures var pool := seq(BUFFER_SIZE, i => NewFrame().(valid := true,
                                                       lru := if i == 1 then TWO_31 - 1 else i));
      var used := UseBlockAsWritten(pool, 0);
      && PoolOK(pool) && MostStale(pool, |pool|) == 1
      && used[1].lru == -TWO_31
      && (forall j :: 0 <= j < |used| && j != 1 ==> used[1].lru < used[j].lru)
      && MostStale(used, |used|) == 4
  {
    var pool := seq(BUFFER_SIZE, i => NewFrame().(valid := true,
                                                lru := if i == 1 then TWO_31 - 1 else i));
    assert pool[1].lru == TWO_31 - 1;
  }

  /** writeBlock: marks the frame dirty, then uses it. */
  method WriteBlock(pool: Pool, k: int) returns (r: Result<Pool>)
    requires PoolOK(pool)
    ensures r.Failure? <==> !(0 <= k < |pool|)
    ensures r.Failure? ==> r.error == IndexOutOfBounds
    ensures r.Success? ==> PoolOK(r.value) && r.value[k].dirty && r.value[k].valid && r.value[k].lru == 0
    ensures r.Success? ==> TouchedFrom(pool[k := pool[k].(dirty := true)], r.value, k)
  {
    if !(0 <= k < BUFFER_SIZE) {
      return Failure(IndexOutOfBounds);
    }
    var p := UseBlock(pool[k := pool[k].(dirty := true)], k);
    return Success(p);
  }

  // ---------------------------------------------------------------- writing back

  /** RandomAccessFile.write at `pos`: the file grows as needed, with zeros before `pos` when
      it was shorter. */
  function WriteAt(file: seq<uint8>, pos: nat, src: seq<uint8>): (r: seq<uint8>)
    ensures |r| == if pos + |src| > |file| then pos + |src| else |file|
    ensures r[pos..pos + |src|] == src
    ensures forall k :: 0 <= k < |r| && !(pos <= k < pos + |src|) ==>
      r[k] == if k < |file| then file[k] else 0
  {
    var padded := if pos > |file| then file + Zeros(pos - |file|) else file;
    padded[..pos] + src + (if pos + |src| < |padded| then padded[pos + |src|..] else [])
  }

  /** The byte position a block starts at, computed in Java's 32-bit `int`. */
  function BlockPosition(blockOffset: int): (p: int)
    ensures IsInt32(p)
    ensures IsInt32(blockOffset * BLOCK_SIZE) ==> p == blockOffset * BLOCK_SIZE
  {
    Wrap32(blockOffset * BLOCK_SIZE)
  }

  function FileOf(disk: Disk, name: string): seq<uint8>
  {
    if name in disk then disk[name] else []
  }

  /** flashBack as written: a dirty frame's whole data array, BLOCK_SIZE + 1 bytes, is written
      at the block's position, then the frame is initialized; a clean frame is left alone. A
      negative position is the IOException seek raises. */
  function FlashBackAsWritten(pool: Pool, disk: Disk, k: int): (r: Result<(Pool, Disk)>)
    requires PoolOK(pool)
    ensures r.Success? && 0 <= k < |pool| && pool[k].dirty ==>
      var p := BlockPosition(pool[k].blockOffset);
      var file := FileOf(r.value.1, pool[k].fileName);
      0 <= p && p + DATA_SIZE <= |file| && file[p..p + DATA_SIZE] == pool[k].data
  {
    if !(0 <= k < BUFFER_SIZE) then Failure(IndexOutOfBounds)
    else if !pool[k].dirty then Success((pool, disk))
    else
      var p := BlockPosition(pool[k].blockOffset);
      if p < 0 then Failure(IOFailure)
      else
        var file := WriteAt(FileOf(disk, pool[k].fileName), p, pool[k].data);
        Success((pool[k := Initialize(pool[k])], disk[pool[k].fileName := file]))
  }

  /** The block a file holds at a block offset, as readBlock would see its first BLOCK_SIZE
      bytes. */
  function BlockIn(file: seq<uint8>, blockOffset: nat): seq<uint8>
    requires (blockOffset + 1) * BLOCK_SIZE <= |file|
  {
    file[blockOffset * BLOCK_SIZE..(blockOffset + 1) * BLOCK_SIZE]
  }

  /** Writing the spare byte overwrites the first byte of the following block: block 1 of a
      file whose first byte is 1 reads 0 after a clean block 0 is written back. */
  lemma FlashBackAsWrittenClobbersNextBlock()
    ensures var pool := NewPool()[0 := NewFrame().(dirty := true, valid := true, fileName := "t.rec")];
      var disk := map["t.rec" := Zeros(BLOCK_SIZE) + [1] + Zeros(BLOCK_SIZE - 1)];
      var r := FlashBackAsWritten(pool, disk, 0);
      && BlockIn(disk["t.rec"], 1)[0] == 1
      && r.Success? && |FileOf(r.value.1, "t.rec")| == 2 * BLOCK_SIZE
      && BlockIn(FileOf(r.value.1, "t.rec"), 1)[0] == 0
  {
    var pool := NewPool()[0 := NewFrame().(dirty := true, valid := true, fileName := "t.rec")];
    var file := Zeros(BLOCK_SIZE) + [1] + Zeros(BLOCK_SIZE - 1);
    assert file[BLOCK_SIZE] == 1;
    var w := WriteAt(file, 0, pool[0].data);
    assert w[BLOCK_SIZE] == pool[0].data[BLOCK_SIZE] == 0;
  }

  /** flashBack as intended: only the block's BLOCK_SIZE bytes are written back, so every
      other byte of every file is kept, and the block reads back as the frame held it. */
  function FlashBack(pool: Pool, disk: Disk, k: int): (r: Result<(Pool, Disk)>)
    requires PoolOK(pool)
    ensures r.Failure? <==>
      !(0 <= k < |pool|) || (pool[k].dirty && BlockPosition(pool[k].blockOffset) < 0)
    ensures r.Failure? ==> r.error == (if 0 <= k < |pool| then IOFailure else IndexOutOfBounds)
    ensures r.Success? ==> PoolOK(r.value.0)
    ensures r.Success? && !pool[k].dirty ==> r.value == (pool, disk)
    ensures r.Success? && pool[k].dirty ==>
      && r.value.0 == pool[k := Initialize(pool[k])]
      && r.value.1.Keys == disk.Keys + {pool[k].fileName}
      && (forall name :: name in disk && name != pool[k].fileName ==> r.value.1[name] == disk[name])
      && var old_ := FileOf(disk, pool[k].fileName);
         var new_ := FileOf(r.value.1, pool[k].fileName);
         var p := BlockPosition(pool[k].blockOffset);
         && 0 <= p && p + BLOCK_SIZE <= |new_| && |old_| <= |new_|
         && new_[p..p + BLOCK_SIZE] == pool[k].data[..BLOCK_SIZE]
         && forall i :: 0 <= i < |old_| && !(p <= i < p + BLOCK_SIZE) ==> new_[i] == old_[i]
  {
    if !(0 <= k < BUFFER_SIZE) then Failure(IndexOutOfBounds)
    else if !pool[k].dirty then Success((pool, disk))
    else
      var p := BlockPosition(pool[k].blockOffset);
      if p < 0 then Failure(IOFailure)
      else
        var file := WriteAt(FileOf(disk, pool[k].fileName), p, pool[k].data[..BLOCK_SIZE]);
        Success((pool[k := Initialize(pool[k])], disk[pool[k].fileName := file]))
  }

  /** The written flashBack and the corrected one fail alike and leave the same pool; on
      disk they differ only in the byte just past the block, where the written one puts the
      frame's spare byte. Every member built on the corrected one inherits exactly this
      difference. */
  lemma FlashBackAsWrittenDiffersPastBlock(pool: Pool, disk: Disk, k: int)
    requires PoolOK(pool)
    ensures FlashBack(pool, disk, k).Failure? ==> FlashBackAsWritten(pool, disk, k) == FlashBack(pool, disk, k)
    ensures FlashBack(pool, disk, k).Success? ==>
      var (p1, d1) := FlashBack(pool, disk, k).value;
      var (p2, d2) := FlashBackAsWritten(pool, disk, k).value;
      && FlashBackAsWritten(pool, disk, k).Success?
      && p1 == p2 && d1.Keys == d2.Keys
      && (forall name :: name in d1 && name != pool[k].fileName ==> d1[name] == d2[name])
      && var f1 := FileOf(d1, pool[k].fileName);
         var f2 := FileOf(d2, pool[k].fileName);
         var past := BlockPosition(pool[k].blockOffset) + BLOCK_SIZE;
         && |f1| <= |f2| <= |f1| + 1
         && (forall i :: 0 <= i < |f1| && i != past ==> f1[i] == f2[i])
         && (pool[k].dirty ==> past < |f2| && f2[past] == pool[k].data[BLOCK_SIZE])
  {
    if 0 <= k < |pool| && pool[k].dirty && BlockPosition(pool[k].blockOffset) >= 0 {
      WriteSpareByte(FileOf(disk, pool[k].fileName), BlockPosition(pool[k].blockOffset), pool[k].data);
    }
  }

  /** Writing a frame's whole data array instead of its block changes only the byte just past
      the block. */
  lemma WriteSpareByte(file: seq<uint8>, p: nat, data: seq<uint8>)
    requires |data| == DATA_SIZE
    ensures var f1 := WriteAt(file, p, data[..BLOCK_SIZE]);
      var f2 := WriteAt(file, p, data);
      && |f1| <= |f2| <= |f1| + 1
      && (forall i :: 0 <= i < |f1| && i != p + BLOCK_SIZE ==> f1[i] == f2[i])
      && p + BLOCK_SIZE < |f2| && f2[p + BLOCK_SIZE] == data[BLOCK_SIZE]
  {
    var f1 := WriteAt(file, p, data[..BLOCK_SIZE]);
    var f2 := WriteAt(file, p, data);
    forall i | 0 <= i < |f1| && i != p + BLOCK_SIZE ensures f1[i] == f2[i] {
      if p <= i < p + BLOCK_SIZE {
        assert f1[i] == f1[p..p + BLOCK_SIZE][i - p] == data[..BLOCK_SIZE][i - p] == data[i - p];
        assert f2[i] == f2[p..p + DATA_SIZE][i - p] == data[i - p];
      }
    }
    assert f2[p + BLOCK_SIZE] == f2[p..p + DATA_SIZE][BLOCK_SIZE] == data[BLOCK_SIZE];
  }

  /** A block written back by the corrected flashBack is what the next read of it sees, for
      any block that starts below 2^31. */
  lemma FlashBackThenRead(pool: Pool, disk: Disk, k: int)
    requires PoolOK(pool) && 0 <= k < |pool| && pool[k].dirty
    requires 0 <= pool[k].blockOffset && pool[k].blockOffset * BLOCK_SIZE < TWO_31
    ensures FlashBack(pool, disk, k).Success?
    ensures var file := FileOf(FlashBack(pool, disk, k).value.1, pool[k].fileName);
      (pool[k].blockOffset + 1) * BLOCK_SIZE <= |file| &&
      BlockIn(file, pool[k].blockOffset) == pool[k].data[..BLOCK_SIZE]
  {
    var p := BlockPosition(pool[k].blockOffset);
    assert p == pool[k].blockOffset * BLOCK_SIZE;
    assert (pool[k].blockOffset + 1) * BLOCK_SIZE == p + BLOCK_SIZE;
  }

  // ---------------------------------------------------------------- victim selection

  /** The lowest invalid frame from `i` on, or the pool size when every one is valid. */
  function FirstInvalid(pool: Pool, i: nat): (r: nat)
    requires i <= |pool|
    ensures i <= r <= |pool|
    ensures forall j :: i <= j < r ==> pool[j].valid
    ensures r < |pool| ==> !pool[r].valid
    decreases |pool| - i
  {
    if i == |pool| || !pool[i].valid then i else FirstInvalid(pool, i + 1)
  }

  /** The lowest-numbered frame among the first `n` with the greatest counter: the least
      recently used one. */
  function MostStale(pool: Pool, n: nat): (m: nat)
    requires 0 < n <= |pool|
    ensures m < n
    ensures forall j :: 0 <= j < n ==> pool[j].lru <= pool[m].lru
    ensures forall j :: 0 <= j < m ==> pool[j].lru < pool[m].lru
  {
    if n == 1 then 0
    else
      var m := MostStale(pool, n - 1);
      if pool[n - 1].lru > pool[m].lru then n - 1 else m
  }

  /** A frame the file-protecting search may replace: tagged with another file, and with a
      counter above `floor`. */
  predicate Eligible(f: Frame, fileName: string, floor: int)
  {
    f.fileName != fileName && f.lru > floor
  }

  /** The lowest-numbered eligible frame among the first `n` with the greatest counter, or
      -1 when none is eligible. */
  function MostStaleExcept(pool: Pool, fileName: string, n: nat, floor: int): (m: int)
    requires n <= |pool|
    ensures -1 <= m < n
    ensures m == -1 <==> forall j :: 0 <= j < n ==> !Eligible(pool[j], fileName, floor)
    ensures m >= 0 ==>
      && Eligible(pool[m], fileName, floor)
      && (forall j :: 0 <= j < n && Eligible(pool[j], fileName, floor) ==> pool[j].lru <= pool[m].lru)
      && (forall j :: 0 <= j < m && Eligible(pool[j], fileName, floor) ==> pool[j].lru < pool[m].lru)
  {
    if n == 0 then -1
    else
      var m := MostStaleExcept(pool, fileName, n - 1, floor);
      if Eligible(pool[n - 1], fileName, floor) && (m == -1 || pool[n - 1].lru > pool[m].lru) then n - 1
      else m
  }

  /** An invalid frame taken as it is: only its valid flag is set. */
  function Claim(pool: Pool, i: nat): (r: Pool)
    requires PoolOK(pool) && i < |pool|
    ensures PoolOK(r) && r[i].valid
    ensures forall j :: 0 <= j < |pool| && j != i ==> r[j] == pool[j]
  {
    pool[i := pool[i].(valid := true)]
  }

  /** A valid frame taken from its block: it is written back when dirty, then marked valid. */
  function Evict(pool: Pool, disk: Disk, v: nat): (r: Result<(Pool, Disk, int)>)
    requires PoolOK(pool) && v < |pool|
    ensures r.Failure? <==> pool[v].dirty && BlockPosition(pool[v].blockOffset) < 0
    ensures r.Success? ==>
      && r.value.2 == v && PoolOK(r.value.0) && r.value.0[v].valid
      && (forall j :: 0 <= j < |pool| && j != v ==> r.value.0[j] == pool[j])
      && r.value.1 == FlashBack(pool, disk, v).value.1
      && r.value.0[v] == (if pool[v].dirty then Initialize(pool[v]) else pool[v]).(valid := true)
  {
    var (p, d) :- FlashBack(pool, disk, v);
    Success((p[v := p[v].(valid := true)], d, v))
  }

  /** getEmptyBuffer: the lowest invalid frame when there is one, otherwise the least recently
      used frame, written back first. */
  method GetEmptyBuffer(pool: Pool, disk: Disk) returns (r: Result<(Pool, Disk, int)>)
    requires PoolOK(pool)
    ensures var i := FirstInvalid(pool, 0);
      i < |pool| ==> r == Success((Claim(pool, i), disk, i))
    ensures FirstInvalid(pool, 0) == |pool| ==> r == Evict(pool, disk, MostStale(pool, |pool|))
  {
    var bufferIndex := 0;
    var maxLRU := pool[0].lru;
    var i := 0;
    while i < BUFFER_SIZE
      invariant 0 <= i <= |pool|
      invariant FirstInvalid(pool, 0) >= i
      invariant 0 <= bufferIndex < |pool| && maxLRU == pool[bufferIndex].lru
      invariant bufferIndex == if i == 0 then 0 else MostStale(pool, i)
    {
      if !pool[i].valid {
        return Success((Claim(pool, i), disk, i));
      } else if pool[i].lru > maxLRU {
        maxLRU := pool[i].lru;
        bufferIndex := i;
      }
      i := i + 1;
    }
    r := Evict(pool, disk, bufferIndex);
  }

  /** A frame just used is never the next victim: every other frame is older. */
  lemma RecentlyUsedIsNotVictim(pool: Pool, used: Pool, k: int)
    requires PoolOK(pool) && TouchedFrom(pool, used, k) && 0 <= k < |pool|
    ensures MostStale(used, |used|) != k
  {
    var other := if k == 0 then 1 else 0;
    assert used[other].lru > used[k].lru;
  }

  /** The scan both getEmptyBufferExcept variants run: it stops at the first invalid frame and
      otherwise keeps the frame of another file with the greatest counter above `floor`,
      replacing the candidate only on a strictly greater counter. */
  method ScanExcept(pool: Pool, fileName: string, floor: int) returns (invalid: nat, victim: int)
    requires PoolOK(pool)
    ensures invalid == FirstInvalid(pool, 0)
    ensures invalid == |pool| ==> victim == MostStaleExcept(pool, fileName, |pool|, floor)
  {
    victim := -1;
    var maxLRU := floor;
    var i := 0;
    while i < BUFFER_SIZE
      invariant 0 <= i <= |pool|
      invariant FirstInvalid(pool, 0) >= i
      invariant victim == MostStaleExcept(pool, fileName, i, floor)
      invariant maxLRU == if victim == -1 then floor else pool[victim].lru
    {
      if !pool[i].valid {
        return i, victim;
      } else if pool[i].lru > maxLRU && pool[i].fileName != fileName {
        maxLRU := pool[i].lru;
        victim := i;
      }
      i := i + 1;
    }
    invalid := i;
  }

  /** getEmptyBufferExcept as written: the search starts from frame 0's counter with no
      candidate, so frame 0 can never be chosen; with no candidate, the assertion fails. */
  method GetEmptyBufferExceptAsWritten(pool: Pool, disk: Disk, fileName: string)
    returns (r: Result<(Pool, Disk, int)>)
    requires PoolOK(pool)
    ensures var i := FirstInvalid(pool, 0);
      i < |pool| ==> r == Success((Claim(pool, i), disk, i))
    ensures FirstInvalid(pool, 0) == |pool| ==>
      var v := MostStaleExcept(pool, fileName, |pool|, pool[0].lru);
      r == if v == -1 then Failure(BufferOutOfSpace) else Evict(pool, disk, v)
    ensures FirstInvalid(pool, 0) == |pool| && r.Success? ==> r.value.2 != 0
  {
    var i, v := ScanExcept(pool, fileName, pool[0].lru);
    if i < |pool| {
      return Success((Claim(pool, i), disk, i));
    }
    if v == -1 {
      return Failure(BufferOutOfSpace);
    }
    r := Evict(pool, disk, v);
  }

  /** A full pool whose only frame of another file is frame 0, the oldest: the as-written
      search finds nothing to replace, while frame 0 is the intended victim. */
  lemma GetEmptyBufferExceptAsWrittenMissesFrameZero()
    ensures var pool := seq(BUFFER_SIZE, i => NewFrame().(valid := true, lru := 4 - i,
                                                       fileName := if i == 0 then "a.rec" else "t.idx"));
      && PoolOK(pool) && FirstInvalid(pool, 0) == |pool|
      && MostStaleExcept(pool, "t.idx", |pool|, pool[0].lru) == -1
      && MostStaleExcept(pool, "t.idx", |pool|, -1) == 0
  {
    var pool := seq(BUFFER_SIZE, i => NewFrame().(valid := true, lru := 4 - i,
                                                fileName := if i == 0 then "a.rec" else "t.idx"));
    assert pool[0].fileName == "a.rec";
    assert forall j :: 0 < j < |pool| ==> pool[j].fileName == "t.idx";
  }

  /** With no floor, the search fails only when every frame holds the protected file, and a
      victim is the least recently used frame of another file. */
  lemma MostStaleExceptMeaning(pool: Pool, fileName: string)
    requires PoolOK(pool)
    ensures var v := MostStaleExcept(pool, fileName, |pool|, -1);
      && (v == -1 <==> forall j :: 0 <= j < |pool| ==> pool[j].fileName == fileName)
      && (v >= 0 ==> pool[v].fileName != fileName)
      && (v >= 0 ==> forall j :: 0 <= j < |pool| && pool[j].fileName != fileName ==> pool[j].lru <= pool[v].lru)
  {
  }

  /** getEmptyBufferExcept as intended: the least recently used frame of another file, or
      BufferOutOfSpace when every frame is valid and holds a block of the protected file. */
  method GetEmptyBufferExcept(pool: Pool, disk: Disk, fileName: string)
    returns (r: Result<(Pool, Disk, int)>)
    requires PoolOK(pool)
    ensures var i := FirstInvalid(pool, 0);
      i < |pool| ==> r == Success((Claim(pool, i), disk, i))
    ensures FirstInvalid(pool, 0) == |pool| ==>
      var v := MostStaleExcept(pool, fileName, |pool|, -1);
      r == if v == -1 then Failure(BufferOutOfSpace) else Evict(pool, disk, v)
    ensures FirstInvalid(pool, 0) == |pool| ==>
      (r == Failure(BufferOutOfSpace) <==> forall j :: 0 <= j < |pool| ==> pool[j].fileName == fileName)
    ensures FirstInvalid(pool, 0) == |pool| && r.Success? ==>
      && pool[r.value.2].fileName != fileName
      && forall j :: 0 <= j < |pool| && pool[j].fileName != fileName ==> pool[j].lru <= pool[r.value.2].lru
  {
    var i, v := ScanExcept(pool, fileName, -1);
    if i < |pool| {
      return Success((Claim(pool, i), disk, i));
    }
    MostStaleExceptMeaning(pool, fileName);
    if v == -1 {
      return Failure(BufferOutOfSpace);
    }
    r := Evict(pool, disk, v);
  }

  // ---------------------------------------------------------------- invalidation and new blocks

  /** setInvalid: every frame of the file becomes invalid and clean; nothing else changes. */
  method SetInvalid(pool: Pool, fileName: string) returns (r: Pool)
    requires PoolOK(pool)
    ensures PoolOK(r)
    ensures forall j :: 0 <= j < |pool| ==>
      r[j] == if pool[j].fileName == fileName then pool[j].(valid := false, dirty := false) else pool[j]
  {
    r := pool;
    var i := 0;
    while i < BUFFER_SIZE
      invariant 0 <= i <= |pool| && |r| == |pool|
      invariant forall j :: 0 <= j < i ==>
        r[j] == if pool[j].fileName == fileName then pool[j].(valid := false, dirty := false) else pool[j]
      invariant forall j :: i <= j < |pool| ==> r[j] == pool[j]
    {
      if r[i].fileName == fileName {
        r := r[i := r[i].(valid := false, dirty := false)];
      }
      i := i + 1;
    }
  }

  /** The frame addBlockInFile hands out for block `blockOffset` of a file. */
  predicate IsNewBlockFrame(f: Frame, fileName: string, blockOffset: int)
  {
    && FrameOK(f) && f.valid && f.dirty && f.lru == 0
    && f.fileName == fileName && f.blockOffset == blockOffset
    && forall i :: 0 <= i < BLOCK_SIZE ==> f.data[i] == 0
  }

  function StartBlock(f: Frame, fileName: string, blockOffset: int): (r: Frame)
    requires |f.data| == DATA_SIZE
    ensures IsNewBlockFrame(r, fileName, blockOffset)
  {
    Initialize(f).(valid := true, dirty := true, fileName := fileName, blockOffset := blockOffset)
  }

  /** addBlockInFile(Table): a frame from getEmptyBuffer becomes the table's next block, dirty
      and zeroed, and the table counts one block more. */
  method AddTableBlock(pool: Pool, disk: Disk, table: Table) returns (r: Result<(Pool, Disk, Table, int)>)
    requires PoolOK(pool)
    ensures r.Failure? ==> FirstInvalid(pool, 0) == |pool|
    ensures r.Success? ==>
      var (p, d, t, k) := r.value;
      && PoolOK(p) && 0 <= k < |p|
      && IsNewBlockFrame(p[k], table.name + ".rec", table.blockNum)
      && (forall j :: 0 <= j < |pool| && j != k ==> p[j] == pool[j])
      && t == table.(blockNum := table.blockNum + 1)
      && (FirstInvalid(pool, 0) < |pool| ==> k == FirstInvalid(pool, 0) && d == disk)
      && (FirstInvalid(pool, 0) == |pool| ==> k == MostStale(pool, |pool|))
  {
    var e := GetEmptyBuffer(pool, disk);
    if e.Failure? {
      return Failure(e.error);
    }
    var (p, d, k) := e.value;
    var frame := StartBlock(p[k], table.name + ".rec", table.blockNum);
    return Success((p[k := frame], d, table.(blockNum := table.blockNum + 1), k));
  }

  /** addBlockInFile(Index): the same for an index file, taking a frame that holds no block of
      that index; BufferOutOfSpace when every frame holds one. */
  method AddIndexBlock(pool: Pool, disk: Disk, index: Index) returns (r: Result<(Pool, Disk, Index, int)>)
    requires PoolOK(pool)
    ensures r == Failure(BufferOutOfSpace) <==>
      forall j :: 0 <= j < |pool| ==> pool[j].valid && pool[j].fileName == index.indexName + ".idx"
    ensures r.Success? ==>
      var (p, d, x, k) := r.value;
      && PoolOK(p) && 0 <= k < |p|
      && IsNewBlockFrame(p[k], index.indexName + ".idx", index.blockNum)
      && (forall j :: 0 <= j < |pool| && j != k ==> p[j] == pool[j])
      && x == index.(blockNum := index.blockNum + 1)
      && (pool[k].valid ==> pool[k].fileName != index.indexName + ".idx")
  {
    var name := index.indexName + ".idx";
    var e := GetEmptyBufferExcept(pool, disk, name);
    if e.Failure? {
      return Failure(e.error);
    }
    var (p, d, k) := e.value;
    var frame := StartBlock(p[k], name, index.blockNum);
    return Success((p[k := frame], d, index.(blockNum := index.blockNum + 1), k));
  }
}
