# MiniSQL storage core in Dafny

A model of the storage core of MiniSQL, a small teaching database written in Java. It covers:

- **B+ tree.** The index that `BPlusTree` keeps over the blocks of an index file. It is modelled as a map from block numbers to nodes. A `Leaf` holds (key, record locator) entries, a parent pointer and the next-leaf link. An `Internal` node holds routing keys with one more child than keys. The model covers descent, insertion with leaf and internal splits, search, and deletion with merge and borrow from a sibling.
- **Key comparator.** The key padding and the comparator the tree orders keys by.
- **Buffer manager.** A pool of five frames, each caching one 4096-byte block. The model covers look-up, least-recently-used replacement, write-back (`flashBack`), invalidation and the handing out of new blocks. Each frame has a spare byte beyond the block.
- **Record manager.** The free-list layout of a table block:
  - a header with the first free slot and the record count;
  - slots made of a flag, the record, and a next-free pointer.

  The model covers the encoding of a row of literals into record bytes, insertion through the free list, and deletion by WHERE conditions.
- **WHERE predicates.** `Condition.if_right` for int and string columns.
- **Interpreter.** Its tokenizer `get_word`, and the maps from column-type words and comparison operators to codes.
- **Index column.** `IndexManager.getColumnValue`, which cuts the indexed column out of a record.
- **Catalog records.** `Attribute`, `Table` and `Index` from `Main.java`.

## How the model is stated

**Layers.** Each Java routine becomes a Dafny `function` or `method` over immutable values. Java exceptions become `Failure` values of a `Result` type:

- `NullPointer`
- `IndexOutOfBounds`
- `NumberFormat`
- `AttributeFormat`
- `AttributeNumber`
- `BufferOutOfSpace`
- `MissingBlock`
- `RecordTooLong`, for the corrected refusal of a record that cannot fit an empty block

**Integers.** Arithmetic is done in Java's 32-bit `int` and 16-bit block fields. The model writes the wrap-around out explicitly (`Bytes.Wrap32`, `Bytes.EncodeU16`) for:

- key comparison;
- block positions;
- the record header fields;
- the buffer frames' LRU counter, in `BufferPool.UseBlockAsWritten` (see "## Findings").

The corrected `BufferPool.UseBlock` and the block counters are unbounded (see "## Left out").

**Reference definitions.** Each operation is paired with a reference definition and a lemma connecting the two:

- `TreeNodes.Lookup`: the locator a leaf holds for a key.
- `TreeNodes.ChildIndex`: the child a key descends to.
- `IndexColumn.ColumnStart`: where a column starts inside a record.
- `BufferPool.MostStale`: the least recently used frame.
- `RecordFile.ConditionHolds` and `RecordFile.AllHold`: the meaning of a WHERE clause.

**Source bugs.** Where the Java code does something its authors evidently did not intend, the model keeps two definitions (see "## Findings"):

- a member modelling the code *as written*, with a lemma that exhibits the discrepancy;
- a corrected member with the intended property proved about it.

The store-level B+ tree operations in `BPlusTree` are built on the corrected node operations. The buffer pool's replacement and block allocation are built on corrected members too:

- `BufferPool.Evict`, `BufferPool.GetEmptyBuffer` and `BufferPool.AddTableBlock` write a victim back with the corrected `BufferPool.FlashBack`. `BufferPool.FlashBackAsWrittenDiffersPastBlock` states the one byte in which that differs from the source's flashBack.
- `BufferPool.AddIndexBlock` uses the corrected `BufferPool.GetEmptyBufferExcept`.

**Intentional behaviour kept verbatim.** Some behaviour that looks odd is kept exactly:

- `Condition.if_right(int)` swaps its two inclusive operators: `<=` tests `>=` and the reverse. `Conditions.IntInclusiveOperatorsSwapped` states this.
- The record count wraps at 16 bits.
- `Arrays.copyOfRange` pads with zeros.
- `replaceAll("'", "")` strips every quote, not only the outer two.

**Key padding.** Keys are padded with `'&'` (38). Take a padded key and a longer key with the same prefix:

- the padded key sorts before the longer key only when the longer key's next byte is above 38;
- it sorts after the longer key when that byte is below 38;
- a key that ends in `'&'` pads to the same key as the key without those `'&'`.

`Keys.PaddedKeyOrder` states all three.

## Model

| member | source | states |
|---|---|---|
| Catalog.NewAttribute | src/Main.java:27-42 | int and float columns are four bytes wide, char(n) is n bytes, and every other field is the argument given |
| Catalog.NewTable | src/Main.java:60-73 | a new table has no blocks, inserts into block 0, has one attribute count per column and a record length equal to the sum of the column widths |
| Catalog.TotalLengthIsSumOfLengths | src/Main.java:60-73 | for constructor-built attributes the table's record length equals the sum of the attributes' own lengths, which the record readers step by |
| Catalog.NewIndex | src/Main.java:98-105 | a new index descriptor names its index and table and starts at column 0 with no blocks and root block 0 |
| Conditions.IfRightInt | src/Condition.java:22-44 | the int overload fails with NumberFormat exactly when the value does not parse as an int |
| Conditions.IntEqualNotEqualComplement | src/Condition.java:29-32 | int `=` and `<>` always give opposite verdicts |
| Conditions.IntInclusiveOperatorsSwapped | src/Condition.java:33-40 | int `<=` is the complement of int `<`, and `>=` the complement of `>`: the inclusive operators test the opposite direction of their names |
| Conditions.StringEqualNotEqualComplement | src/Condition.java:75-78 | string `=` and `<>` always give opposite verdicts |
| Conditions.StringInclusiveOperators | src/Condition.java:79-86 | string `<=` holds iff `<` or `=` holds, and `>=` iff `>` or `=` holds |
| Conditions.StringLessMoreMirror | src/Condition.java:79-82 | content `<` value holds exactly when value `>` content holds |
| Conditions.UnknownOperatorAccepts | src/Condition.java:41-42 | an operator code outside 0..5 accepts every row in both overloads |
| JavaText.ParseInt | src/Condition.java:25 | Integer.parseInt on ASCII text yields only 32-bit values, and a plain digit string below 2^31 parses to its decimal value |
| JavaText.ParseShowInt | src/RecordManager.java:296-299 | printing an int with String.valueOf and parsing it back gives the same int |
| JavaText.DigitsValueOfDigits | src/RecordManager.java:296-299 | the decimal digits of a natural number read back as that number |
| JavaText.CompareToZeroIffEqual | src/Condition.java:79-86 | String.compareTo is zero exactly on equal strings |
| JavaText.CompareToAntisymmetric | src/Condition.java:79-86 | swapping the arguments of String.compareTo negates it |
| JavaText.CompareToTransitive | src/Condition.java:79-86 | the order String.compareTo defines is transitive |
| Interpreter.SkipBlanks | src/Interpreter.java:519-521 | the blank-skipping loop stops at the first non-blank, and fails with IndexOutOfBounds exactly when only blanks remain |
| Interpreter.ScanQuoted | src/Interpreter.java:530-545 | the quoted-token loop stops at the first quote or NUL, and fails when there is none |
| Interpreter.ScanWord | src/Interpreter.java:546-558 | a bare word runs up to the first word-ending character or the end of the line |
| Interpreter.GetWord | src/Interpreter.java:512-559 | at or past the end of the line the token is empty and the cursor stays, otherwise the cursor never moves back or past the end |
| Interpreter.GetWordShape | src/Interpreter.java:512-559 | after the skipped blanks, a token is one punctuation mark, the text between a quote and the closing quote (empty when a NUL comes first), or a maximal run of word characters, and the cursor lands just past it |
| Interpreter.GetWordFailure | src/Interpreter.java:512-559 | get_word fails exactly when only blanks remain or a quote is never closed |
| Interpreter.ColumnType | src/Interpreter.java:59-91 | `int` maps to -1 and `float` to 0 with the cursor just past the word; `char ( n )` maps to n as Integer.parseInt reads it, with the cursor past the `)`; a size that does not parse, a missing `(` or `)`, and any other type word are syntax errors; a get_word failure on the way is passed on; every code is a 32-bit int and the cursor never moves back |
| Interpreter.ColumnTypeIntExample | src/Interpreter.java:60-61 | `int,` maps to -1 with the cursor left on the comma |
| Interpreter.ColumnTypeCharExample | src/Interpreter.java:63-86 | `char ( 12 )` maps to 12 after reading four tokens |
| Interpreter.OperatorCode | src/Interpreter.java:288-301 | exactly the six operator words map to a code, and every code is one that if_right knows |
| Interpreter.OperatorCodeInjective | src/Interpreter.java:288-301 | distinct operator words map to distinct codes |
| IndexColumn.GetColumnValue | src/IndexManager.java:16-29 | the result is the bytes of the indexed column, at the offset the column lengths before it add up to; a negative column index never enters the loop and gives an empty column; otherwise the call fails exactly when the column index is past the last attribute, the length is negative or the row is too short |
| Bytes.Wrap32 | src/BPlusTree.java:186-190 | Java's int narrowing gives a 32-bit value congruent to its input, and leaves 32-bit values alone |
| Bytes.U16RoundTrip | src/RecordManager.java:43-69 | a 16-bit header field reads back as the value written, modulo 2^16 |
| Bytes.Int32RoundTrip | src/RecordManager.java:98-99 | ByteBuffer.getInt undoes putInt on every 32-bit int |
| Bytes.EncodeDecodeInt32 | src/RecordManager.java:296-298 | putInt undoes getInt on every four bytes |
| Bytes.DecodeInt32Injective | src/BPlusTree.java:186-190 | distinct four-byte keys decode to distinct ints |
| Bytes.CopyInto | src/RecordManager.java:130 | System.arraycopy succeeds exactly when the source fits at the offset, writes the source there and leaves every other byte alone |
| Keys.Normalize | src/BPlusTree.java:73-95 | a null key is NullPointer, a key longer than the column is IndexOutOfBounds, and otherwise the key is padded with `'&'` to the column length |
| Keys.PaddedKeyOrder | src/BPlusTree.java:73-95 | a padded char key sorts below a one-byte-longer key with the same prefix exactly when that key's next byte is above `'&'`, above it exactly when the byte is below `'&'`, and pads to the same key exactly when the byte is `'&'` |
| Keys.NormalizeIdempotent | src/BPlusTree.java:85-95 | padding an already padded key changes nothing |
| Keys.Compare | src/BPlusTree.java:180-202 | int keys compare by the sign of the true difference of their values (see Findings) |
| Keys.CompareAsWrittenAgreesWithoutOverflow | src/BPlusTree.java:186-190 | wherever the 32-bit difference does not overflow, the written comparator agrees in sign with the corrected one |
| Keys.CompareZeroIffEqual | src/BPlusTree.java:180-202 | two keys compare equal exactly when they are the same bytes |
| Keys.CompareZeroMeansEqual | src/BPlusTree.java:180-202 | keys of any width that compare equal are the same bytes |
| Keys.CompareAntisymmetric | src/BPlusTree.java:180-202 | a is below b exactly when b is above a |
| Keys.LessTransitive | src/BPlusTree.java:180-202 | the key order is transitive |
| Keys.LessTotal | src/BPlusTree.java:180-202 | the key order is a strict total order on keys of the right width |
| TreeNodes.FanoutBounds | src/BPlusTree.java:42-45 | when one entry fits a block, MIN is at least 1 and both halves of a split of MAX + 1 entries lie between MIN and MAX |
| TreeNodes.Lookup | src/BPlusTree.java:766-813 | a leaf finds a locator only for an entry it holds, and finds nothing exactly when no entry has the key |
| TreeNodes.LookupAt | src/BPlusTree.java:766-813 | in a leaf with increasing keys each entry is the one its key finds |
| TreeNodes.ChildIndex | src/BPlusTree.java:222-241 | the descent position has no larger routing key before it and a larger one at it |
| TreeNodes.ChildIndexSplitsKeys | src/BPlusTree.java:222-241 | on increasing keys, every routing key from the descent position on is above the key |
| TreeNodes.InsertKeepsAscending | src/BPlusTree.java:355-378 | a key placed between the smaller and the larger keys keeps them ascending |
| LeafNode.PutEntryMeaning | src/BPlusTree.java:714-760 | the intended non-splitting leaf insert (see Findings) keeps the leaf sorted, makes the key find the new locator, leaves every other key's locator alone, and grows the leaf exactly when the key was new |
| LeafNode.PutEntryAsWritten | src/BPlusTree.java:617-760 | an empty leaf takes the entry; a key above every entry is compared with the stale key past the last entry, and when the two are equal the entries stay as they were and the next-leaf pointer is overwritten, otherwise the entry is appended |
| LeafNode.PutEntryAsWrittenAgrees | src/BPlusTree.java:728-760 | whenever the stale key is not the new key, the written insert is the intended one and keeps the next-leaf pointer |
| LeafNode.DeleteLastThenPutAsWritten | src/BPlusTree.java:728-736 | after the last entry of a leaf of two or more is deleted, putting it back as written leaves the key absent and overwrites the next-leaf pointer, while the intended insert restores the leaf |
| LeafNode.LeafInsert | src/BPlusTree.java:617-763 | the corrected leaf insert splits exactly when the put leaves more than MAX entries |
| LeafNode.LeafInsertMeaning | src/BPlusTree.java:617-763 | after the corrected insert: an unsplit leaf is sorted and finds the new locator; a split happens only to a full leaf without the key, its halves are MIN and MAX + 1 - MIN sorted entries that concatenate to the put leaf, and the separator is above every left key |
| LeafNode.LeafSplitAsWrittenKeepsAll | src/BPlusTree.java:620-682 | the written split loses no entry: its halves hold the old entries plus the new one |
| LeafNode.LeafInsertAsWrittenMisorders | src/BPlusTree.java:627-679 | a new key between the (MIN-1)-th and MIN-th entries goes to the new leaf while a larger key stays behind |
| LeafNode.LeafInsertAsWrittenDuplicates | src/BPlusTree.java:620 | a full leaf that already holds the key still splits and keeps both the old and the new entry |
| LeafNode.LeafInsertAsWrittenElsewhereAgrees | src/BPlusTree.java:627-679 | on a full leaf without the key, the written split equals the corrected one except when the key's place is just before the MIN-th entry |
| LeafNode.LeafSearch | src/BPlusTree.java:766-813 | the binary search over a sorted leaf finds exactly the leaf's locator for the key |
| LeafNode.FindEntryMeaning | src/BPlusTree.java:903-916 | the delete scan finds a position exactly when the leaf holds the key, and it is that key's position |
| LeafNode.RemoveEntryMeaning | src/BPlusTree.java:908-916 | removing an entry keeps the leaf sorted, loses its key and no other |
| LeafNode.MergeLeaves | src/BPlusTree.java:816-837 | the merged leaf keeps the left parent, takes the right leaf's next link and holds both entry lists |
| LeafNode.MergeLeavesMeaning | src/BPlusTree.java:816-837 | merging sorted neighbours keeps the keys sorted, and each key finds what it found in whichever leaf held it |
| LeafNode.BorrowFromNext | src/BPlusTree.java:840-866 | the leaf gains the next leaf's first entry, the in-order entries are unchanged, and the new separator is the sibling's new first key |
| LeafNode.BorrowFromPrevious | src/BPlusTree.java:868-893 | the leaf gains the previous leaf's last entry, the in-order entries are unchanged, the sibling links to the leaf, and the new separator is the leaf's new first key |
| LeafNode.PreviousSiblingAsWritten | src/BPlusTree.java:934-941 | when no routing key is above the deleted key, the written search hands back the next leaf it already read |
| LeafNode.PreviousSibling | src/BPlusTree.java:934-941 | the intended previous sibling is the child just before the one the key descends to, and exists exactly when that child is not the first |
| LeafNode.PreviousSiblingAsWrittenMissesLastChild | src/BPlusTree.java:923-941 | for the parent's last child the written search returns the next leaf, which is not the left neighbour |
| LeafNode.PreviousSiblingAgreesBeforeLastChild | src/BPlusTree.java:934-941 | away from the last child the written and the intended search agree |
| InternalNode.ChildIndexIs | src/BPlusTree.java:222-241 | the descent position is the only one with no larger key before it and a larger key at it |
| InternalNode.InsertBranch | src/BPlusTree.java:355-378 | a node with room takes one more key and one more child |
| InternalNode.InsertBranchRoutes | src/BPlusTree.java:355-378 | taking in a new child keeps the keys ascending, and only keys that went to the split child and are at or above the separator now go to the new child |
| InternalNode.SplitBranchAsWritten | src/BPlusTree.java:257-353 | the written split keeps MIN keys and MIN + 1 children in the old node and gives the new node a count of MAX + 1 - MIN |
| InternalNode.SplitBranchAsWrittenOvercounts | src/BPlusTree.java:318-325 | the new node's count always exceeds the keys it holds |
| InternalNode.SplitBranchAsWrittenDropsLast | src/BPlusTree.java:257-317 | a separator above every key of the full node is lost together with its child |
| InternalNode.SplitBranchAsWrittenMisplaces | src/BPlusTree.java:257-319 | a separator just after the MIN-th key is put in front of the new node while a larger key moves up and its child lands behind the wrong one |
| InternalNode.SplitBranch | src/BPlusTree.java:257-353 | the corrected split's halves and the key that moves up concatenate to the node with the separator taken in, MIN keys on the left |
| InternalNode.SplitBranchAsWrittenAgreesInKeptHalf | src/BPlusTree.java:257-317 | when the separator belongs among the first MIN keys the written split matches the corrected one |
| InternalNode.JoinRoutes | src/BPlusTree.java:318-353 | the two halves joined around the key that moved up route every key as the unsplit node would |
| InternalNode.IndexOfChild | src/BPlusTree.java:509-515 | the scan finds the first position holding the child, and nothing exactly when the child is absent |
| InternalNode.RemoveChild | src/BPlusTree.java:509-522 | the corrected removal drops child i and the key before it and keeps the rest in order |
| InternalNode.RemoveChildAsWrittenKeepsRemoved | src/BPlusTree.java:516-520 | removing any child but the last keeps the removed child and loses the last one |
| InternalNode.RemoveChildAsWrittenAgreesOnLast | src/BPlusTree.java:516-520 | removing the last child is the one case the written copy gets right |
| InternalNode.Exchange | src/BPlusTree.java:495-506 | the key just after the named child becomes the new key and no other key changes |
| InternalNode.JoinBranches | src/BPlusTree.java:420-449 | the joined node keeps the left parent and holds the left keys, the key between, and the right keys |
| InternalNode.BorrowBranchFromNext | src/BPlusTree.java:452-471 | the node takes the parent's key and the next sibling's first child, and the in-order keys and children are unchanged |
| InternalNode.BorrowBranchFromPrevious | src/BPlusTree.java:473-492 | the node takes the parent's key and the previous sibling's last child, and the in-order keys and children are unchanged |
| InternalNode.ChooseSibling | src/BPlusTree.java:546-588 | the next sibling is chosen when the node is among the first |keys| children, otherwise the child before the last, and the parent's key between the two is returned |
| BPlusTree.NewTree | src/BPlusTree.java:22-54 | a new index has block 0 as an empty root leaf with no parent or next leaf, and the block count goes up by one |
| BPlusTree.NewTreeIsEmpty | src/BPlusTree.java:22-54 | a fresh index finds no key, and its blocks and leaves are in order |
| BPlusTree.FindLeaf | src/BPlusTree.java:222-241 | the descent ends at a leaf of the store, and a leaf is its own result |
| BPlusTree.Search | src/BPlusTree.java:107-130 | searchKey fails on a null or overlong key or a failed descent, and succeeds otherwise. It finds a locator exactly when the leaf the key descends to holds the key, and the locator it finds is the one that leaf holds for the key |
| BPlusTree.Adopt | src/BPlusTree.java:322-325 | the reparenting loop sets the parent of exactly the listed children and fails exactly when one of them is missing |
| BPlusTree.Allocate | src/BPlusTree.java:50 | a new node goes to the block the count names, and the count goes up by one |
| BPlusTree.InsertIntoParent | src/BPlusTree.java:244-381 | branchInsert only adds blocks, keeps the configuration and the leaves, and fails on a missing parent; a parent with room ends up holding the separator and the new child |
| BPlusTree.SplitNode | src/BPlusTree.java:257-353 | the split of a full internal node only adds blocks and keeps the leaves |
| BPlusTree.SplitLeaf | src/BPlusTree.java:620-712 | the split leaf keeps its first half and links to a new leaf at the next block number, which holds the second half and takes over the old next link; a split root gets a new root at the block after that, holding the new leaf's first key as its only key, with the two leaves as children that both name it as parent |
| BPlusTree.WriteSplitLeaves | src/BPlusTree.java:627-684 | the old block gets the first half under the given parent, linked to the new block; the new block gets the second half and the old next link; no other block changes and the count goes up by one |
| BPlusTree.SplitSeparatorRoutes | src/BPlusTree.java:688-711 | a root holding the new leaf's first key routes every key of the first half to the old leaf and every key of the second half to the new one |
| BPlusTree.SplitLeafPassesSeparator | src/BPlusTree.java:700-711 | a split leaf whose parent has room succeeds, and the parent then holds the new leaf's first key and the new leaf |
| BPlusTree.Insert | src/BPlusTree.java:73-104 | insert fails on a null or overlong key, and only adds blocks |
| BPlusTree.InsertKeepsLeavesWellFormed | src/BPlusTree.java:73-104 | every insertion, with or without splits, leaves every leaf sorted and within MAX entries |
| BPlusTree.InsertKeepsAllocated | src/BPlusTree.java:73-104 | every insertion keeps the block count naming the first unused block |
| BPlusTree.InsertThenSearch | src/BPlusTree.java:73-130 | after an insertion into a leaf with room the key finds the new locator and every other key finds what it found before |
| BPlusTree.Delete | src/BPlusTree.java:133-163 | delete fails on a null or overlong key and keeps the set of blocks; a key the leaf does not hold leaves the whole tree unchanged |
| BPlusTree.RefillLeaf | src/BPlusTree.java:918-967 | refilling an underfull leaf by merge or borrow keeps the set of blocks |
| BPlusTree.LeafWithNext | src/BPlusTree.java:957-967 | merging with or borrowing from the next leaf keeps the set of blocks |
| BPlusTree.LeafWithPrevious | src/BPlusTree.java:944-953 | merging with or borrowing from the previous leaf keeps the set of blocks |
| BPlusTree.RemoveFromParent | src/BPlusTree.java:509-593 | the parent's removal of a merged-away child keeps the set of blocks and keeps every leaf's entries |
| BPlusTree.CollapseRoot | src/BPlusTree.java:526-535 | the only child becomes the root and is marked as having no parent, every leaf keeps its entries, and the collapse fails exactly when that child is missing |
| BPlusTree.RefillBranch | src/BPlusTree.java:546-588 | refilling an underfull internal node keeps the set of blocks and every leaf's entries |
| BPlusTree.BranchWithNext | src/BPlusTree.java:546-569 | joining with or borrowing from the next sibling keeps the set of blocks and every leaf's entries; the borrow re-parents the moved child (see Findings) |
| BPlusTree.BranchWithPrevious | src/BPlusTree.java:573-588 | joining with or borrowing from the previous sibling keeps the set of blocks and every leaf's entries; the borrow re-parents the moved child (see Findings) |
| BPlusTree.BorrowAsWritten | src/BPlusTree.java:452-492 | the written borrow rewrites the node and its sibling and no other block, so the moved child keeps its old parent |
| BPlusTree.Borrow | src/BPlusTree.java:452-492 | the intended borrow makes the same rewrites and also re-parents the moved child to the node, fails exactly when that child is missing, and keeps every leaf's entries |
| BPlusTree.BorrowFromNextAsWrittenLeavesOrphan | src/BPlusTree.java:452-471 | after the written borrow from the next sibling, the moved child sits in the node but still names the sibling as its parent; the intended borrow re-parents it |
| BPlusTree.BorrowFromPreviousAsWrittenLeavesOrphan | src/BPlusTree.java:473-492 | after the written borrow from the previous sibling, the moved child sits in the node but still names the sibling as its parent; the intended borrow re-parents it |
| BPlusTree.JoinInto | src/BPlusTree.java:420-449 | the corrected union reparents every child it takes over to the joined node, fails exactly when one is missing, keeps the set of blocks and keeps every leaf's entries |
| BPlusTree.JoinIntoAsWrittenLeavesOrphans | src/BPlusTree.java:420-449 | after the written union a child taken over still names the merged-away block as its parent |
| BPlusTree.ReleaseBlockAsWrittenReusesLiveBlock | src/BPlusTree.java:444 | lowering the block count without freeing a block makes the count name a live block, which the next allocation overwrites |
| BPlusTree.CollapseRootAsWrittenKeepsParent | src/BPlusTree.java:526-535 | after the written collapse the new root still names the old root as its parent |
| BPlusTree.DeleteKeepsAllocated | src/BPlusTree.java:133-163 | deletion without the count decrements keeps the count naming the first unused block |
| BPlusTree.DeleteThenSearch | src/BPlusTree.java:133-163 | after a deletion that needs no refill the key finds nothing, every other key finds what it found before, and the leaves stay well formed |
| BPlusTree.FindLeafParent | src/BPlusTree.java:222-241 | when parent pointers agree with the children lists, a descent ends where it started or at the child that its leaf's parent routes the key to |
| BPlusTree.LeafWithNextKeepsWellFormed | src/BPlusTree.java:957-967 | a merge with, or a borrow from, a next leaf holding larger keys leaves every leaf sorted and within MAX |
| BPlusTree.LeafWithPreviousKeepsWellFormed | src/BPlusTree.java:944-953 | a merge into, or a borrow from, a previous sibling holding smaller keys leaves every leaf sorted and within MAX |
| BPlusTree.RefillLeafKeepsWellFormed | src/BPlusTree.java:918-967 | refilling a short leaf whose neighbours are in order leaves every leaf sorted and within MAX |
| BPlusTree.RemovalKeepsNeighbours | src/BPlusTree.java:903-916 | removing an entry from the leaf a key descends to keeps the next leaf above it and the previous sibling below it |
| BPlusTree.DeleteKeepsLeavesWellFormed | src/BPlusTree.java:900-967 | every deletion, with or without a refill, leaves every leaf sorted and within MAX, in a tree whose neighbouring leaves are in order and whose parent pointers agree |
| BufferPool.NewFrame | src/BufferManager.java:283-289 | a new frame is clean, invalid and holds a block plus one spare byte |
| BufferPool.NewPool | src/BufferManager.java:16-19 | the pool is five newly constructed frames |
| BufferPool.Initialize | src/BufferManager.java:291-300 | initialize returns a frame to its constructed state, except that the spare byte keeps its value |
| BufferPool.GetIfIsInBuffer | src/BufferManager.java:35-40 | the lowest frame tagged with the file and block, or -1 exactly when no frame is |
| BufferPool.UseBlock | src/BufferManager.java:78-87 | the corrected useBlock, with an unbounded counter (see Findings): the used frame's counter drops to 0 and it becomes valid, every other counter goes up by one, and the order among the others is kept |
| BufferPool.UseBlockAsWritten | src/BufferManager.java:78-87 | the written useBlock: a counter below 2^31 - 1 goes up by one, a counter at 2^31 - 1 wraps to -2^31, and while no counter is at 2^31 - 1 it does what the corrected useBlock does |
| BufferPool.UseBlockAsWrittenHidesStalest | src/BufferManager.java:85 | the stalest frame, at 2^31 - 1, wraps below every other frame when another frame is used, so the next replacement takes a younger frame |
| BufferPool.WriteBlock | src/BufferManager.java:72-75 | an out-of-range frame is IndexOutOfBounds, otherwise the frame becomes dirty and is used |
| BufferPool.BlockPosition | src/BufferManager.java:29 | a block's byte position is computed in 32-bit arithmetic and is exact when it does not overflow |
| BufferPool.FlashBack | src/BufferManager.java:22-32 | a clean frame changes nothing, and a dirty frame's block is written at its position and the frame becomes clean |
| BufferPool.FlashBackThenRead | src/BufferManager.java:22-32 | a block written back is what the next read of that block sees |
| BufferPool.FlashBackAsWritten | src/BufferManager.java:22-32 | the written flashBack writes the frame's whole data array, one byte more than a block |
| BufferPool.FlashBackAsWrittenDiffersPastBlock | src/BufferManager.java:22-32 | the written and the corrected flashBack fail alike, leave the same pool and the same other files, and differ only in the byte just past the block, where the written one puts the spare byte |
| BufferPool.FlashBackAsWrittenClobbersNextBlock | src/BufferManager.java:29 | writing back block 0 overwrites the first byte of block 1 with the spare byte |
| BufferPool.FirstInvalid | src/BufferManager.java:92-96 | the lowest invalid frame, or the pool size when every frame is valid |
| BufferPool.MostStale | src/BufferManager.java:97-104 | the lowest-numbered frame with the greatest counter |
| BufferPool.MostStaleExcept | src/BufferManager.java:113-124 | the lowest-numbered frame of another file with the greatest counter above the floor, or -1 exactly when none qualifies |
| BufferPool.Evict | src/BufferManager.java:97-106 | a dirty victim is written back first, with the corrected FlashBack rather than the source's flashBack, and the taken frame is marked valid |
| BufferPool.GetEmptyBuffer | src/BufferManager.java:90-107 | the lowest invalid frame when there is one, otherwise the least recently used frame, written back first when dirty with the corrected FlashBack rather than the source's flashBack |
| BufferPool.RecentlyUsedIsNotVictim | src/BufferManager.java:78-107 | a frame just used is never the next victim |
| BufferPool.ScanExcept | src/BufferManager.java:110-124 | the scan stops at the first invalid frame, and otherwise finds the most stale frame of another file above the floor |
| BufferPool.GetEmptyBufferExceptAsWritten | src/BufferManager.java:110-130 | the written search starts from frame 0's counter, so it never returns frame 0 |
| BufferPool.GetEmptyBufferExceptAsWrittenMissesFrameZero | src/BufferManager.java:112-125 | a full pool whose only frame of another file is frame 0 fails the written search |
| BufferPool.MostStaleExceptMeaning | src/BufferManager.java:110-130 | with no floor, the search fails exactly when every frame holds the protected file, and otherwise finds the oldest frame of another file |
| BufferPool.GetEmptyBufferExcept | src/BufferManager.java:110-130 | the corrected search fails with BufferOutOfSpace exactly when every frame holds the protected file, and otherwise takes the least recently used frame of another file |
| BufferPool.SetInvalid | src/BufferManager.java:132-139 | every frame of the file becomes invalid and clean, and no other frame changes |
| BufferPool.AddTableBlock | src/BufferManager.java:142-150 | the table's next block is a fresh frame from getEmptyBuffer, whose victim is written back with the corrected FlashBack, and the table's block count goes up by one |
| BufferPool.AddIndexBlock | src/BufferManager.java:153-162 | the same for an index file, using a frame that holds no block of that index, found by the corrected GetEmptyBufferExcept, which can also take frame 0 |
| RecordBlock.SetInsertIndex | src/RecordManager.java:56-59 | the header's first free slot reads back as the value written, modulo 2^16, and no other byte changes |
| RecordBlock.IncRecordNum | src/RecordManager.java:80-85 | the record count goes up by one, wrapping at 16 bits, and only its two bytes change |
| RecordBlock.DecRecordNum | src/RecordManager.java:87-92 | the record count goes down by one, wrapping at 16 bits, and only its two bytes change |
| RecordBlock.PositionFromIndex | src/RecordManager.java:71-74 | every slot lies after the block header |
| RecordBlock.GetNextInsertIndex | src/RecordManager.java:47-54 | a stored 0 pointer means the next slot, and any other value is the slot itself |
| RecordBlock.SetNextInsertIndex | src/RecordManager.java:61-69 | slot -1 stands for the header's first free slot, and any other slot's pointer bytes are written alone |
| RecordBlock.NextInsertIndexRoundTrip | src/RecordManager.java:47-69 | a pointer written and read back gives the value written, or the next slot when 0 is written |
| RecordBlock.SlotsDisjoint | src/RecordManager.java:71-74 | consecutive slots never overlap |
| RecordBlock.PointerNotOnRecord | src/RecordManager.java:61-74 | a pointer is never stored on a flag or record byte of any slot |
| RecordBlock.PointerWriteKeepsSlots | src/RecordManager.java:56-69 | writing a free-list pointer keeps every flag, every record and the count |
| RecordBlock.FreshBlock | src/BufferManager.java:142-150 | a zeroed block has no records and its first free slot is 0 |
| RecordCodec.StripQuotes | src/RecordManager.java:117 | the stripped text has no quote left |
| RecordCodec.ColumnBytes | src/RecordManager.java:94-120 | an int literal gives its four big-endian bytes, a char literal gives its bytes without quotes, and a malformed literal is AttributeFormat |
| RecordCodec.InsertBytesAsWritten | src/RecordManager.java:122-134 | the written encoder fails with AttributeNumber on a row of the wrong width and gives a record of the table's length |
| RecordCodec.InsertBytesAsWrittenMisplacesColumns | src/RecordManager.java:131 | after the two-letter name of a char(5) column, the following int 7 is read back as 7 * 2^24 |
| RecordCodec.InsertBytes | src/RecordManager.java:122-134 | the corrected encoder fails with AttributeNumber on a row of the wrong width and gives a record of the table's length; it succeeds only when every literal encodes and fits its column's declared length, refusing a longer char value (a second change: the source copies such a value over the next column or off the record), and it always succeeds when every literal fits and the record is as long as the columns together |
| RecordCodec.FillPlacesColumn | src/RecordManager.java:128-132 | every column the corrected loop reaches ends up holding exactly its bytes at its own offset |
| RecordCodec.InsertBytesRoundTrip | src/RecordManager.java:122-134 | after the corrected encoding, an int column reads back as its literal's value and a char column starts with its literal's bytes |
| RecordCodec.InsertBytesPlacesExample | src/RecordManager.java:122-134 | the corrected encoder puts the example's int at its column start, where it reads 7 |
| RecordFile.InsertIntoBlock | src/RecordManager.java:151-174 | a block takes the record exactly when its first free slot fits, and the slot is written, the head is moved on and the count goes up |
| RecordFile.InsertKeepsOthers | src/RecordManager.java:151-174 | an insertion fills the free-list head with the record, moves the head to that slot's successor, counts one more record and leaves every other slot alone |
| RecordFile.InsertPassAsWritten | src/RecordManager.java:152-163 | one pass of the written loop fails exactly when nextInsertBlock names no block; a pass that finds no room is the step to the next block |
| RecordFile.NextBlockAsWritten | src/RecordManager.java:158-162 | the step to the next block raises nextInsertBlock by one and adds a zeroed block past the last one, keeping the earlier blocks |
| RecordFile.InsertRecordAsWrittenNeverEnds | src/RecordManager.java:151-163 | for a record too long for an empty block, every number of passes of the written loop is still moving on, so insertRecord never returns |
| RecordFile.InsertRecord | src/RecordManager.java:136-187 | the corrected search starts at nextInsertBlock, skips full blocks, adds a block past the last one, and changes only the chosen block; it fails exactly when nextInsertBlock names none of the given blocks or the record cannot fit an empty block |
| RecordFile.CopyOfRange | src/RecordManager.java:203-214 | Arrays.copyOfRange refuses a reversed range with IllegalArgument before it looks at the start, then refuses a start outside the array with IndexOutOfBounds, and pads past the end with zeros |
| RecordFile.FirstNamed | src/RecordManager.java:200-221 | the first attribute with the condition's name, or none |
| RecordFile.MatchCondition | src/RecordManager.java:198-223 | the walk over the attributes decides what the named column, read at its offset, makes of the condition, and is false for an unknown name |
| RecordFile.AllHoldFirstUnmetDecides | src/RecordManager.java:189-196 | the first unmet condition decides, and a record with none passes |
| RecordFile.AllHoldIffEvery | src/RecordManager.java:189-196 | a record passes exactly when every condition holds of it |
| RecordFile.MatchAllCond | src/RecordManager.java:189-196 | the loop computes the verdict of the whole WHERE clause |
| RecordFile.FreeSlot | src/RecordManager.java:255-276 | emptying a slot clears its flag, keeps every other flag and every record, counts one record fewer, and fails exactly when the slot lies past the expected free slot and that slot is outside the block. It splices the slot into the free list, with every other link kept. Below the expected free slot, the previous link (the header when nothing was freed yet) leads to the slot and the slot leads to the expected free slot. Past it, the expected free slot leads to the slot, the slot leads to the expected slot's old successor, and that successor becomes the next expected free slot |
| RecordFile.DeleteInBlock | src/RecordManager.java:239-283 | a block's pass empties exactly the live records every condition accepts, up to the slot where it stops, and counts them |
| RecordFile.DeleteAllEmptiesBlock | src/RecordManager.java:225-229 | with no conditions a pass empties every live slot and leaves the count at 0 |
| RecordFile.LoweredIsFirstFreed | src/RecordManager.java:277-281 | nextInsertBlock ends at the first block that lost a record when that lies below it |
| RecordFile.DeleteRecord | src/RecordManager.java:231-288 | every block is scanned in turn, the deleted count is the sum of the blocks' counts, and nextInsertBlock is lowered to the first block that lost a record |

## Left out

- Float columns, float keys and `if_right(float)`: the model takes the float parser (`FloatParser`) and the float judge (`FloatJudge`) as parameters. Floating point is outside the model.
- Non-ASCII text: `String.getBytes` and `new String(bytes)` are modelled as one byte per character.
- JavaText.ParseInt: accepts only the ASCII digits '0'-'9'. Java's `Integer.parseInt` reads digits with `Character.digit`, so it also accepts the decimal digits of other scripts ("١٢" parses to 12), which the model refuses. This reaches `if_right(int)`, the sizes in `char(n)` and int literals.
- JavaText.Codes: gives Unicode scalar values. These are the UTF-16 units `String.compareTo` sees only below U+10000, which covers the one-byte characters keys and values are made of.
- BufferPool.GetEmptyBuffer: a dirty victim is written back with the corrected FlashBack. The source's flashBack writes BLOCK_SIZE + 1 bytes (see Findings), so on disk the source's getEmptyBuffer also overwrites the byte just past the victim's block with the frame's spare byte. BufferPool.FlashBackAsWrittenDiffersPastBlock states exactly this difference. BufferPool.Evict and BufferPool.AddTableBlock inherit it.
- BufferPool.AddIndexBlock: uses the corrected GetEmptyBufferExcept (see Findings). The source's search never takes frame 0, so where only frame 0 holds another file the source fails its assertion and the model succeeds.
- BufferPool.UseBlock: the corrected counter is unbounded. BufferPool.UseBlockAsWritten models the source's 32-bit `LRUValue++`, and the replacement members are built on the corrected one.
- BufferPool.AddTableBlock, BufferPool.AddIndexBlock, BPlusTree.Allocate and RecordFile.NextBlockAsWritten: the block counters `blockNum++` and `nextInsertBlock++` are unbounded, while Java's `int` wraps at 2^31. They would wrap only after 2^31 blocks. A block's byte position already wraps after 524288 blocks (2^31 / 4096), and that wrap is modelled (BufferPool.BlockPosition).
- Disk I/O: `Disk` is a map from file names to byte sequences. `readBlock` and `getBufferIndex` are not modelled. The `getBufferNode` and `createBufferNode` calls of the tree are not part of this model: the buffer frames a tree node lives in are replaced by a map from block numbers to nodes.
- Java `assert` statements, and the partial state left behind when an exception is thrown halfway through an update: every failing operation is modelled as returning a failure with no effect.
- BPlusTree.InsertThenSearch: proved only for an insertion that needs no split. BPlusTree.InsertKeepsLeavesWellFormed covers splits, but there is no global B+ tree invariant (ordering across leaves, routing agreeing with leaf contents) to carry a search through a split.
- BPlusTree.DeleteThenSearch: proved only for a deletion that needs no refill, for the same reason.
- BPlusTree.DeleteKeepsLeavesWellFormed: takes as premises that neighbouring leaves hold their keys in order (BPlusTree.LeavesOrdered) and that parent pointers agree with the children lists (BPlusTree.ParentsAgree). The model does not prove that insertion and deletion keep these two: that proof needs the routing keys to agree with the leaves' contents, a whole-tree invariant the model does not state.
- LeafNode.PutEntryAsWritten: the bytes past a leaf's last entry are not part of the leaf model, so the stale key there is a parameter. LeafNode.DeleteLastThenPutAsWritten names the deletion that leaves the deleted key there.
- BPlusTree.Insert: states only what the whole tree keeps (blocks, configuration, leaves, block count). The effect on keys and children is stated on the nodes, by LeafNode.LeafInsertMeaning, InternalNode.InsertBranchRoutes, InternalNode.SplitBranch and InternalNode.JoinRoutes.
- BPlusTree.InsertIntoParent: states only what the whole tree keeps (blocks, configuration, leaves, block count). The effect on keys and children is stated on the nodes, by LeafNode.LeafInsertMeaning, InternalNode.InsertBranchRoutes, InternalNode.SplitBranch and InternalNode.JoinRoutes.
- BPlusTree.SplitNode: states only what the whole tree keeps (blocks, configuration, leaves, block count). The effect on keys and children is stated on the nodes, by LeafNode.LeafInsertMeaning, InternalNode.InsertBranchRoutes, InternalNode.SplitBranch and InternalNode.JoinRoutes.
- BPlusTree.Delete: states that the set of blocks and the configuration are kept and that an absent key changes nothing. Leaf well-formedness after any deletion is proved by BPlusTree.DeleteKeepsLeavesWellFormed; the effect of a refill on keys and children is stated on the nodes, by LeafNode.MergeLeavesMeaning, LeafNode.BorrowFromNext, LeafNode.BorrowFromPrevious, InternalNode.JoinBranches, InternalNode.BorrowBranchFromNext, InternalNode.BorrowBranchFromPrevious and InternalNode.RemoveChild.
- BPlusTree.RefillLeaf: states that the set of blocks and the configuration are kept; that every leaf stays sorted and within MAX is proved separately (BPlusTree.RefillLeafKeepsWellFormed). Which keys end up where is stated on the nodes, by LeafNode.MergeLeavesMeaning, LeafNode.BorrowFromNext and LeafNode.BorrowFromPrevious.
- BPlusTree.LeafWithNext: states that the set of blocks and the configuration are kept; that every leaf stays sorted and within MAX is proved separately (BPlusTree.LeafWithNextKeepsWellFormed). Which keys end up where is stated on the nodes, by LeafNode.MergeLeavesMeaning, LeafNode.BorrowFromNext and LeafNode.BorrowFromPrevious.
- BPlusTree.LeafWithPrevious: states that the set of blocks and the configuration are kept; that every leaf stays sorted and within MAX is proved separately (BPlusTree.LeafWithPreviousKeepsWellFormed). Which keys end up where is stated on the nodes, by LeafNode.MergeLeavesMeaning, LeafNode.BorrowFromNext and LeafNode.BorrowFromPrevious.
- BPlusTree.RemoveFromParent: states only that the set of blocks, the configuration and every leaf's entries are kept. The effect on internal keys and children is stated on the nodes, by InternalNode.JoinBranches, InternalNode.BorrowBranchFromNext, InternalNode.BorrowBranchFromPrevious and InternalNode.RemoveChild.
- BPlusTree.RefillBranch: states only that the set of blocks, the configuration and every leaf's entries are kept. The effect on internal keys and children is stated on the nodes, by InternalNode.JoinBranches, InternalNode.BorrowBranchFromNext, InternalNode.BorrowBranchFromPrevious and InternalNode.RemoveChild.
- BPlusTree.BranchWithNext: states only that the set of blocks, the configuration and every leaf's entries are kept. The effect on internal keys and children is stated on the nodes, by InternalNode.JoinBranches, InternalNode.BorrowBranchFromNext, InternalNode.BorrowBranchFromPrevious and InternalNode.RemoveChild.
- BPlusTree.BranchWithPrevious: states only that the set of blocks, the configuration and every leaf's entries are kept. The effect on internal keys and children is stated on the nodes, by InternalNode.JoinBranches, InternalNode.BorrowBranchFromNext, InternalNode.BorrowBranchFromPrevious and InternalNode.RemoveChild.
- BPlusTree.FindLeaf: the descent carries a fuel bound, the number of blocks in the store. A cyclic store fails with Corrupt instead of looping forever.
- BPlusTree.Search: the leaf step uses `TreeNodes.Lookup`. `LeafNode.LeafSearch`, the binary search of the source, is proved equal to it on sorted leaves.
- BPlusTree.RemoveFromParent: removing child 0 (no key before it), and LeafNode.PreviousSibling / InternalNode.ChooseSibling for the first child or an empty parent, are Corrupt. The source reads outside the node in those cases.
- BPlusTree.Delete: the corrected tree operations do not lower the block count on a merge (see Findings). The stale data left in a merged-away block is not modelled.
- BPlusTree.RefillLeaf: the next-leaf test and the previous-sibling search read the parent first, as the source does. Which of the two the model picks is stated only for the internal-node case (InternalNode.ChooseSibling).
- InternalNode.SplitBranchAsWritten: the reparenting loop's extra visit to an unwritten child pointer is stated (SplitBranchAsWrittenOvercounts) but not modelled as a store write.
- The internal merge admits MAX + 1 keys when both nodes are at the limit. The model follows the code and does not claim a finding for it.
- `getInsertPosition`, `readWholeTable`, `showBuffer`, and the `main` and `interprete` dispatch are not modelled. They are I/O and console output.
- CatalogManager is not part of this model. The catalog records are taken as values.
- RecordFile.InsertRecord: the table's blocks are given as values, so the RuntimeException the source throws whenever `getIfIsInBuffer` misses the block is not modelled; the model assumes every block of the table is resident. As written the lookup asks for `table.name + ".table"` while the buffer manager tags table frames `".rec"`, and it expects a `BufferNode` where `getIfIsInBuffer` returns an `int` frame index; the model follows the evident intent, the frame holding block `nextInsertBlock` of the table.
- insertRecord and deleteRecord: the unique-key check and the index updates are calls into the index manager and are not modelled.
- RecordFile.DeleteInBlock and RecordFile.DeletedFrom: the free list after several slots of a block are freed is not stated. RecordFile.FreeSlot states the splice of one slot. The splice is stated only when the written slot numbers fit the 16-bit pointers, and below the expected free slot only when the previous freed slot comes before the slot, as it does during the scan.
- compareTo's `ByteBuffer.wrap` path is stated on decoded values.
- The second BPlusTree constructor, which opens an existing index, reads blocks from disk and is not modelled.
- IndexManager apart from `getColumnValue`: createIndex, insertKey, deleteKey and searchEqual are calls that wire the B+ tree to the buffer manager.

## Findings

| source | as written | input that shows it | evidently intended | confidence | as-written member | corrected member |
|---|---|---|---|---|---|---|
| src/BPlusTree.java:186-190 | int keys compare by the 32-bit difference `num1 - num2` | keys -2^31 and 1: the difference overflows to 2^31 - 1, so -2^31 sorts above 1 | compare by the sign of the true difference | not executed | Keys.CompareAsWrittenOverflows | Keys.Compare |
| src/BPlusTree.java:627-679 | a full leaf's split looks for the new key's slot only among the first MIN - 1 entries of the kept half | a new key between the (MIN-1)-th and MIN-th entries goes to the front of the new leaf, while the larger MIN-th entry stays in the old leaf | put the entry first, then cut the MAX + 1 sorted entries at MIN | not executed | LeafNode.LeafInsertAsWrittenMisorders | LeafNode.LeafInsertMeaning |
| src/BPlusTree.java:620 | a full leaf splits before checking whether it already holds the key | a full leaf holding key k, then insert (k, another locator): the result holds k twice | replace the locator as the non-splitting path does | not executed | LeafNode.LeafInsertAsWrittenDuplicates | LeafNode.LeafInsert |
| src/BPlusTree.java:257-325 | a full internal node's split seeds the new node with the keys after the MIN-th, inserts the separator only before a larger one, and gives the new node a count one too high | a separator above every key: it and its child are lost. A separator just after the MIN-th key: it routes to the wrong child | take the separator in, then cut at MIN and move the next key up | not executed | InternalNode.SplitBranchAsWrittenDropsLast | InternalNode.SplitBranch |
| src/BPlusTree.java:516-520 | the parent's removal of child i copies its entries one place up instead of down | a parent with children [a, b, c], removing b: the result keeps b and loses c | close the gap of child i and the key before it | not executed | InternalNode.RemoveChildAsWrittenKeepsRemoved | InternalNode.RemoveChild |
| src/BPlusTree.java:934-941 | the previous-sibling search returns the already-read next leaf when no routing key is above the deleted key | the parent's last leaf underflows: its next leaf, under another parent, is taken as its sibling | the child just before the key's child | not executed | LeafNode.PreviousSiblingAsWrittenMissesLastChild | LeafNode.PreviousSibling |
| src/BPlusTree.java:420-449 | InternalNode.union moves the right node's children without changing their parent pointers | joining two internal nodes: every child taken over still names the merged-away block as its parent | reparent every child taken over | not executed | BPlusTree.JoinIntoAsWrittenLeavesOrphans | BPlusTree.JoinInto |
| src/BPlusTree.java:452-471 | rearrangeAfter moves the next sibling's first child pointer into the node without changing that child's parent pointer | an underfull internal node borrowing from a next sibling above MIN keys: the moved child still names the sibling as its parent | reparent the moved child to the node | not executed | BPlusTree.BorrowFromNextAsWrittenLeavesOrphan | BPlusTree.Borrow |
| src/BPlusTree.java:473-492 | rearrangeBefore moves the previous sibling's last child pointer into the node without changing that child's parent pointer | an underfull internal node borrowing from a previous sibling above MIN keys: the moved child still names the sibling as its parent | reparent the moved child to the node | not executed | BPlusTree.BorrowFromPreviousAsWrittenLeavesOrphan | BPlusTree.Borrow |
| src/BPlusTree.java:728-736 | the non-splitting leaf insert scans `keyNum` slots after raising `keyNum`, so it also compares the stale key bytes in the slot past the last entry | a leaf [a, b, c]: delete c, then insert c: the scan finds the stale c, overwrites the next-leaf pointer and keeps the count at 2, so c stays absent | scan only the leaf's entries | not executed | LeafNode.DeleteLastThenPutAsWritten | LeafNode.PutEntryMeaning |
| src/BPlusTree.java:444 | union and the root collapse lower the catalog's block count without freeing a block | a tree with blocks 0..n-1: after a merge the count is n - 1, and the next allocation overwrites live block n - 1 | keep the count, or keep a free list | not executed | BPlusTree.ReleaseBlockAsWrittenReusesLiveBlock | BPlusTree.DeleteKeepsAllocated |
| src/BPlusTree.java:526-535 | the root collapse makes the only child the root but leaves its parent pointer set | a root with one child: afterwards the new root names the old root as its parent | mark the new root as having no parent | not executed | BPlusTree.CollapseRootAsWrittenKeepsParent | BPlusTree.CollapseRoot |
| src/RecordManager.java:131 | getInsertBytes advances by the column bytes' length, not the attribute's length, and copies a char value longer than its column without a check | a char(5) column holding 'ab' followed by the int 7: the int lands at offset 2 and reads back as 117440512 | advance by the attribute length, and refuse with AttributeFormat a char value longer than its column, which would otherwise spill into the next column | not executed | RecordCodec.InsertBytesAsWrittenMisplacesColumns | RecordCodec.InsertBytesRoundTrip |
| src/RecordManager.java:151-163 | insertRecord's loop adds a block and retries whenever the record does not fit, with no bound | a table whose record length plus 3 exceeds 4092: no block ever has room, so every pass adds a block and the call never returns | refuse a record that cannot fit an empty block | not executed | RecordFile.InsertRecordAsWrittenNeverEnds | RecordFile.InsertRecord |
| src/BufferManager.java:112 | getEmptyBufferExcept starts from frame 0's counter with no candidate | a full pool whose only frame of another file is frame 0, the oldest: the search fails | start below every counter | not executed | BufferPool.GetEmptyBufferExceptAsWrittenMissesFrameZero | BufferPool.GetEmptyBufferExcept |
| src/BufferManager.java:85 | useBlock raises every other frame's `LRUValue` with a 32-bit `int` `++` | a full pool whose stalest frame is at 2^31 - 1: after another frame is used, its counter wraps to -2^31, below every other frame, and replacement skips it | let the counter grow without wrapping, so the least recently used frame stays the victim | not executed | BufferPool.UseBlockAsWrittenHidesStalest | BufferPool.UseBlock |
| src/BufferManager.java:29 | flashBack writes the frame's whole data array, BLOCK_SIZE + 1 bytes | write back block 0 of a file that has block 1: block 1's first byte is overwritten with the spare byte | write exactly BLOCK_SIZE bytes | not executed | BufferPool.FlashBackAsWrittenClobbersNextBlock | BufferPool.FlashBackThenRead |
