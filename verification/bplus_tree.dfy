/** The B+ tree of one index over its blocks: descent from the root, insertion with splits that
    travel up through the parent pointers, deletion with the merge and borrow steps between
    siblings, and the index's block count that hands out new block numbers. */
module BPlusTree {
  import opened Wrappers
  import opened Bytes
  import opened Keys
  import opened TreeNodes
  import LeafNode
  import InternalNode

  /** The blocks of an index file by block number. */
  type Store = map<int, Node>

  /** An index's tree: the key type and column length from its catalog entry, the root block,
      the blocks, and the catalog's block count, which is the next block number handed out. */
  datatype Tree = Tree(keyType: int, columnLength: nat, root: int, store: Store, blockNum: int)

  /** Index columns the model covers: int keys are four bytes, and one entry fits in a block. */
  predicate ConfigOK(t: Tree)
  {
    && KnownKeyType(t.keyType)
    && (t.keyType == INT_KEY ==> t.columnLength == 4)
    && 8 + t.columnLength <= 4083
  }

  /** Every block below the block count is in use and no block at or above it is. */
  ghost predicate Allocated(t: Tree)
  {
    && t.blockNum >= 0
    && forall b :: b in t.store <==> 0 <= b < t.blockNum
  }

  /** Every leaf holds strictly increasing keys and at most MAX entries. */
  predicate LeavesWellFormed(t: Tree)
  {
    forall b :: b in t.store && t.store[b].Leaf? ==>
      SortedEntries(t.keyType, t.store[b].entries) && |t.store[b].entries| <= MaxFanout(t.columnLength)
  }

  /** The leaves of the second store are leaves of the first with the same entries. */
  predicate KeepsLeaves(s: Store, s2: Store)
  {
    forall b :: b in s2 && s2[b].Leaf? ==> b in s && s[b].Leaf? && s2[b].entries == s[b].entries
  }

  /** Every leaf of the first store is a leaf of the second with the same entries and the same
      next link. */
  predicate KeepsLinks(s: Store, s2: Store)
  {
    forall b :: b in s && s[b].Leaf? ==>
      b in s2 && s2[b].Leaf? && s2[b].entries == s[b].entries && s2[b].next == s[b].next
  }

  lemma FanoutOrder(columnLength: nat)
    ensures 0 <= MinFanout(columnLength) <= MaxFanout(columnLength)
    ensures 2 * MinFanout(columnLength) <= MaxFanout(columnLength) + 1
  {
    var d := 8 + columnLength;
    var q := 4083 / d;
    var r := 4083 % d;
    assert q * d + r == 4083 && 0 <= r < d;
  }

  /** The first constructor: a new index file whose block 0 is an empty root leaf, with the
      catalog's block count raised by one. */
  function NewTree(keyType: int, columnLength: nat, blockNum: int): (t: Tree)
    ensures t.root == 0 && t.store.Keys == {0} && t.blockNum == blockNum + 1
    ensures t.store[0].Leaf? && |t.store[0].entries| == 0 && t.store[0].parent == NO_BLOCK && t.store[0].next == NO_BLOCK
  {
    Tree(keyType, columnLength, 0, map[0 := Leaf([], NO_BLOCK, NO_BLOCK)], blockNum + 1)
  }

  /** A fresh index holds no key, and its blocks and leaves are in order. */
  lemma NewTreeIsEmpty(keyType: int, columnLength: nat, original: Option<seq<uint8>>)
    requires Normalize(columnLength, original).Success?
    ensures Allocated(NewTree(keyType, columnLength, 0)) && LeavesWellFormed(NewTree(keyType, columnLength, 0))
    ensures Search(NewTree(keyType, columnLength, 0), original) == Success(None)
  {
  }

  /** The block as a leaf; the tree reads a block it cannot find as missing. */
  function LeafAt(store: Store, b: int): (r: Result<Node>)
    ensures r.Success? <==> b in store && store[b].Leaf?
    ensures r.Success? ==> r.value == store[b]
    ensures b !in store ==> r == Failure(MissingBlock(b))
  {
    if b !in store then Failure(MissingBlock(b))
    else if !store[b].Leaf? then Failure(Corrupt)
    else Success(store[b])
  }

  /** The block as an internal node with one more child than keys. */
  function BranchAt(store: Store, b: int): (r: Result<Node>)
    ensures r.Success? <==> b in store && store[b].Internal? && WellShaped(store[b])
    ensures r.Success? ==> r.value == store[b]
    ensures b !in store ==> r == Failure(MissingBlock(b))
  {
    if b !in store then Failure(MissingBlock(b))
    else if !store[b].Internal? || !WellShaped(store[b]) then Failure(Corrupt)
    else Success(store[b])
  }

  /** The descent of insert, searchKey and delete: from a block down the routing keys to the leaf
      the key belongs in. A walk that does not reach a leaf within `fuel` steps is corrupt. */
  function FindLeaf(keyType: int, store: Store, block: int, key: Key, fuel: nat): (r: Result<int>)
    ensures r.Success? ==> r.value in store && store[r.value].Leaf?
    ensures block in store && store[block].Leaf? ==> r == Success(block)
    decreases fuel
  {
    if block !in store then Failure(MissingBlock(block))
    else match store[block]
      case Leaf(_, _, _) => Success(block)
      case Internal(keys, children, _) =>
        if |children| != |keys| + 1 || fuel == 0 then Failure(Corrupt)
        else FindLeaf(keyType, store, InternalNode.Route(keyType, keys, children, key), key, fuel - 1)
  }

  /** The descent from the root, bounded by the number of blocks. */
  function LeafOf(t: Tree, key: Key): (r: Result<int>)
    ensures r.Success? ==> r.value in t.store && t.store[r.value].Leaf?
  {
    FindLeaf(t.keyType, t.store, t.root, key, |t.store|)
  }

  /** Rewriting a leaf leaves every descent where it was. */
  lemma {:induction false} FindLeafAfterLeafWrite(keyType: int, store: Store, b: int, n: Node, block: int, key: Key, fuel: nat)
    requires b in store && store[b].Leaf? && n.Leaf?
    ensures FindLeaf(keyType, store[b := n], block, key, fuel) == FindLeaf(keyType, store, block, key, fuel)
    decreases fuel
  {
    if block in store && store[block].Internal? && |store[block].children| == |store[block].keys| + 1 && fuel > 0 {
      var nd := store[block];
      FindLeafAfterLeafWrite(keyType, store, b, n, InternalNode.Route(keyType, nd.keys, nd.children, key), key, fuel - 1);
    }
  }

  lemma SameSize(store: Store, b: int, n: Node)
    requires b in store
    ensures |store[b := n]| == |store|
  {
    assert store[b := n].Keys == store.Keys;
  }

  /** searchKey: the key padded to the column length, the descent, then the leaf's lookup: a
      locator is found exactly when the leaf the key descends to holds the key. A null key
      fails on its length. */
  function Search(t: Tree, original: Option<seq<uint8>>): (r: Result<Option<Locator>>)
    ensures original.None? ==> r == Failure(NullPointer)
    ensures original.Some? && |original.value| > t.columnLength ==> r == Failure(IndexOutOfBounds)
    ensures r.Success? <==> Normalize(t.columnLength, original).Success? && LeafOf(t, Normalize(t.columnLength, original).value).Success?
    ensures r.Success? ==>
      var key := Normalize(t.columnLength, original).value;
      var b := LeafOf(t, key).value;
      && (r.value.Some? ==> Entry(key, r.value.value) in t.store[b].entries)
      && (r.value.None? <==> forall e :: e in t.store[b].entries ==> e.key != key)
    ensures r.Success? && r.value.Some? ==>
      exists b :: b in t.store && t.store[b].Leaf? && Entry(Normalize(t.columnLength, original).value, r.value.value) in t.store[b].entries
  {
    var key :- Normalize(t.columnLength, original);
    var b :- LeafOf(t, key);
    var found := Lookup(t.store[b].entries, key);
    assert found.Some? ==> Entry(key, found.value) in t.store[b].entries;
    Success(found)
  }

  /** Sets the parent of each listed child, as the loop after an internal split does; a child
      block the store does not hold is missing. */
  function Adopt(store: Store, children: seq<int>, parent: int): (r: Result<Store>)
    ensures r.Success? ==> r.value.Keys == store.Keys
    ensures r.Success? ==> forall b :: b in store && b !in children ==> r.value[b] == store[b]
    ensures r.Success? ==> forall c :: c in children ==> c in store && r.value[c] == store[c].(parent := parent)
    ensures r.Failure? <==> exists c :: c in children && c !in store
    ensures r.Success? ==> KeepsLeaves(store, r.value)
    decreases |children|
  {
    if |children| == 0 then Success(store)
    else if children[0] !in store then Failure(MissingBlock(children[0]))
    else
      var c := children[0];
      var rest := Adopt(store[c := store[c].(parent := parent)], children[1..], parent);
      assert forall x :: x in children ==> x == c || x in children[1..];
      rest
  }

  lemma AdoptKeepsLeaves(store: Store, children: seq<int>, parent: int)
    requires Adopt(store, children, parent).Success?
    ensures KeepsLeaves(store, Adopt(store, children, parent).value)
  {
  }

  /** What every step of an insertion above the leaves keeps: the configuration, every block
      already in use, the block count never going back, every leaf's entries, and a block count
      that still names the first unused block. */
  ghost predicate Grows(t: Tree, t2: Tree)
  {
    && t2.keyType == t.keyType && t2.columnLength == t.columnLength
    && t.store.Keys <= t2.store.Keys && t.blockNum <= t2.blockNum
    && KeepsLeaves(t.store, t2.store)
    && (Allocated(t) ==> Allocated(t2) && KeepsLinks(t.store, t2.store))
  }

  lemma GrowsTransitive(a: Tree, b: Tree, c: Tree)
    requires Grows(a, b) && Grows(b, c)
    ensures Grows(a, c)
  {
  }

  /** An internal node written over a block already in use. */
  lemma RewriteGrows(t: Tree, b: int, n: Node)
    requires b in t.store && t.store[b].Internal? && n.Internal?
    ensures Grows(t, t.(store := t.store[b := n]))
  {
  }

  /** A node written to the block the count names, and the count raised past it, as
      createBufferNode(filename, blockNum) followed by blockNum++ does. */
  function Allocate(t: Tree, n: Node): (r: Tree)
    ensures r.blockNum == t.blockNum + 1 && r.store.Keys == t.store.Keys + {t.blockNum} && r.store[t.blockNum] == n
    ensures r.keyType == t.keyType && r.columnLength == t.columnLength && r.root == t.root
    ensures forall b :: b in t.store && b != t.blockNum ==> r.store[b] == t.store[b]
    ensures Allocated(t) ==> Allocated(r)
    ensures n.Internal? ==> Grows(t, r)
  {
    t.(store := t.store[t.blockNum := n], blockNum := t.blockNum + 1)
  }

  lemma AdoptGrows(t: Tree, children: seq<int>, parent: int)
    requires Adopt(t.store, children, parent).Success?
    ensures Grows(t, t.(store := Adopt(t.store, children, parent).value))
  {
    AdoptKeepsLeaves(t.store, children, parent);
  }

  /** branchInsert: the parent takes the separator and the new right child. A node with room
      takes them in place; a node with no key takes them as a fresh root does and is handed
      back as the root; a full node splits. */
  function InsertIntoParent(t: Tree, node: int, separator: Key, left: int, right: int, fuel: nat): (r: Result<Tree>)
    ensures r.Success? ==> Grows(t, r.value)
    ensures node !in t.store ==> r == Failure(MissingBlock(node))
    ensures (&& node in t.store && t.store[node].Internal? && WellShaped(t.store[node])
             && |t.store[node].keys| + 1 <= MaxFanout(t.columnLength)) ==>
      && r.Success? && r.value.store[node].Internal?
      && separator in r.value.store[node].keys && right in r.value.store[node].children
    decreases fuel, 1
  {
    var n :- BranchAt(t.store, node);
    if |n.keys| == 0 then
      RewriteGrows(t, node, Internal([separator], [left, right], n.parent));
      Success(t.(root := node, store := t.store[node := Internal([separator], [left, right], n.parent)]))
    else if |n.keys| + 1 <= MaxFanout(t.columnLength) then
      var (nk, nc) := InternalNode.InsertBranch(t.keyType, n.keys, n.children, separator, right);
      var g := ChildIndex(t.keyType, n.keys, separator);
      assert nk[g] == separator && nc[g + 1] == right;
      RewriteGrows(t, node, Internal(nk, nc, n.parent));
      Success(t.(store := t.store[node := Internal(nk, nc, n.parent)]))
    else SplitNode(t, node, n, separator, right, fuel)
  }

  /** The split of a full internal node: it keeps MIN keys, the rest go to a new node at the next
      block number whose children are re-parented to it, and the middle key goes up to the
      parent, or to a new root at the block number after when the node was the root. */
  function SplitNode(t: Tree, node: int, n: Node, separator: Key, right: int, fuel: nat): (r: Result<Tree>)
    requires node in t.store && t.store[node] == n && n.Internal? && WellShaped(n)
    requires |n.keys| + 1 > MaxFanout(t.columnLength)
    ensures r.Success? ==> Grows(t, r.value)
    decreases fuel, 0
  {
    FanoutOrder(t.columnLength);
    var s := InternalNode.SplitBranch(t.keyType, n.keys, n.children, separator, right, MinFanout(t.columnLength));
    var newBlock := t.blockNum;
    var kept := Internal(s.leftKeys, s.leftChildren, n.parent);
    RewriteGrows(t, node, kept);
    var t1 := t.(store := t.store[node := kept]);
    var adopted :- Adopt(t1.store, s.rightChildren, newBlock);
    AdoptGrows(t1, s.rightChildren, newBlock);
    var t2 := t1.(store := adopted);
    GrowsTransitive(t, t1, t2);
    if n.parent == NO_BLOCK then
      var rootBlock := t.blockNum + 1;
      var t3 := Allocate(t2, Internal(s.rightKeys, s.rightChildren, rootBlock));
      var t4 := Allocate(t3, Internal([s.separator], [node, newBlock], NO_BLOCK));
      GrowsTransitive(t, t2, t3);
      GrowsTransitive(t, t3, t4);
      var rooted := Internal(s.leftKeys, s.leftChildren, rootBlock);
      RewriteGrows(t4, node, rooted);
      var t5 := t4.(root := rootBlock, store := t4.store[node := rooted]);
      GrowsTransitive(t, t4, t5);
      Success(t5)
    else if fuel == 0 then Failure(Corrupt)
    else
      var t3 := Allocate(t2, Internal(s.rightKeys, s.rightChildren, n.parent));
      GrowsTransitive(t, t2, t3);
      var r := InsertIntoParent(t3, n.parent, s.separator, node, newBlock, fuel - 1);
      if r.Success? then GrowsTransitive(t, t3, r.value); r else r
  }

  /** The leaves after a leaf split: the kept half in the old block, the new half at the old
      block count, and every other leaf as it was. */
  ghost predicate LeavesAfterSplit(t: Tree, t2: Tree, leafBlock: int, left: seq<Entry>, right: seq<Entry>)
  {
    forall b :: b in t2.store && t2.store[b].Leaf? ==>
      || (b == leafBlock && t2.store[b].entries == left)
      || (b == t.blockNum && t2.store[b].entries == right)
      || (b in t.store && t.store[b].Leaf? && t2.store[b].entries == t.store[b].entries)
  }

  /** The two halves of a split leaf written out under `parent`: the kept half stays in its
      block and links to the new leaf at the block count, which links on to the old successor. */
  function WriteSplitLeaves(t: Tree, leafBlock: int, leaf: Node, left: seq<Entry>, right: seq<Entry>, parent: int): (r: Tree)
    requires leaf.Leaf? && leafBlock in t.store
    ensures r.keyType == t.keyType && r.columnLength == t.columnLength && r.root == t.root
    ensures r.blockNum == t.blockNum + 1 && r.store.Keys == t.store.Keys + {t.blockNum}
    ensures r.store[t.blockNum] == Leaf(right, parent, leaf.next)
    ensures leafBlock != t.blockNum ==> r.store[leafBlock] == Leaf(left, parent, t.blockNum)
    ensures forall b :: b in t.store && b != leafBlock && b != t.blockNum ==> r.store[b] == t.store[b]
    ensures Allocated(t) ==> Allocated(r)
  {
    Allocate(t.(store := t.store[leafBlock := Leaf(left, parent, t.blockNum)]), Leaf(right, parent, leaf.next))
  }

  /** The split of a full leaf: the two halves are written out under the leaf's parent, and the
      new leaf's first key goes up to the parent, or to a new root at the block number after the
      new leaf when the leaf was the root. */
  function SplitLeaf(t: Tree, leafBlock: int, leaf: Node, left: seq<Entry>, right: seq<Entry>): (r: Result<Tree>)
    requires leaf.Leaf? && |right| >= 1 && leafBlock in t.store && t.store[leafBlock] == leaf
    ensures r.Success? ==> r.value.keyType == t.keyType && r.value.columnLength == t.columnLength
    ensures r.Success? ==> t.store.Keys <= r.value.store.Keys && t.blockNum < r.value.blockNum
    ensures r.Success? ==> LeavesAfterSplit(t, r.value, leafBlock, left, right)
    ensures r.Success? && Allocated(t) ==> Allocated(r.value)
    ensures r.Success? && Allocated(t) ==>
      && r.value.store[leafBlock].Leaf? && r.value.store[leafBlock].next == t.blockNum
      && r.value.store[t.blockNum].Leaf? && r.value.store[t.blockNum].next == leaf.next
    ensures leaf.parent == NO_BLOCK && Allocated(t) ==>
      && r.Success? && r.value.root == t.blockNum + 1 && r.value.blockNum == t.blockNum + 2
      && r.value.store[r.value.root] == Internal([right[0].key], [leafBlock, t.blockNum], NO_BLOCK)
      && r.value.store[leafBlock].parent == r.value.root
      && r.value.store[t.blockNum].parent == r.value.root
  {
    var newBlock := t.blockNum;
    if leaf.parent == NO_BLOCK then
      var rootBlock := t.blockNum + 1;
      var t2 := WriteSplitLeaves(t, leafBlock, leaf, left, right, rootBlock);
      var t3 := Allocate(t2, Internal([right[0].key], [leafBlock, newBlock], NO_BLOCK));
      Success(t3.(root := rootBlock))
    else
      var t2 := WriteSplitLeaves(t, leafBlock, leaf, left, right, leaf.parent);
      InsertIntoParent(t2, leaf.parent, right[0].key, leafBlock, newBlock, |t.store|)
  }

  /** A leaf with a parent that has room: the split succeeds, and the parent takes the new
      leaf's first key and the new leaf. */
  lemma SplitLeafPassesSeparator(t: Tree, leafBlock: int, leaf: Node, left: seq<Entry>, right: seq<Entry>)
    requires leaf.Leaf? && |right| >= 1 && leafBlock in t.store && t.store[leafBlock] == leaf
    requires leaf.parent != NO_BLOCK && Allocated(t) && leaf.parent in t.store
    requires t.store[leaf.parent].Internal? && WellShaped(t.store[leaf.parent])
    requires |t.store[leaf.parent].keys| + 1 <= MaxFanout(t.columnLength)
    ensures SplitLeaf(t, leafBlock, leaf, left, right).Success?
    ensures var s := SplitLeaf(t, leafBlock, leaf, left, right).value.store;
      right[0].key in s[leaf.parent].keys && t.blockNum in s[leaf.parent].children
  {
    var t2 := WriteSplitLeaves(t, leafBlock, leaf, left, right, leaf.parent);
    assert t2.store[leaf.parent] == t.store[leaf.parent];
    assert SplitLeaf(t, leafBlock, leaf, left, right) == InsertIntoParent(t2, leaf.parent, right[0].key, leafBlock, t.blockNum, |t.store|);
  }

  /** The separator a leaf split passes up is the new leaf's first key, so the one-key node it
      forms over the two leaves routes every key of the kept half to the old leaf and every
      key of the new half to the new one. */
  lemma SplitSeparatorRoutes(keyType: int, left: seq<Entry>, right: seq<Entry>, a: int, b: int)
    requires SortedEntries(keyType, left + right) && |right| >= 1
    ensures forall i :: 0 <= i < |left| ==> InternalNode.Route(keyType, [right[0].key], [a, b], left[i].key) == a
    ensures forall j :: 0 <= j < |right| ==> InternalNode.Route(keyType, [right[0].key], [a, b], right[j].key) == b
  {
    var all := left + right;
    var n := |left|;
    assert KeysOf(all)[n] == right[0].key;
    forall i | 0 <= i < |left|
      ensures InternalNode.Route(keyType, [right[0].key], [a, b], left[i].key) == a
    {
      assert KeysOf(all)[i] == left[i].key;
      assert Less(keyType, left[i].key, right[0].key);
    }
    forall j | 0 <= j < |right|
      ensures InternalNode.Route(keyType, [right[0].key], [a, b], right[j].key) == b
    {
      assert KeysOf(all)[n + j] == right[j].key;
      LessTotal(keyType, right[0].key, right[j].key);
      assert !Less(keyType, right[j].key, right[0].key);
    }
  }

  /** insert: the key padded to the column length, the descent, then the leaf insert; a leaf
      that overflows splits. A null key is a NullPointerException. */
  function Insert(t: Tree, original: Option<seq<uint8>>, loc: Locator): (r: Result<Tree>)
    ensures original.None? ==> r == Failure(NullPointer)
    ensures original.Some? && |original.value| > t.columnLength ==> r == Failure(IndexOutOfBounds)
    ensures r.Success? ==> r.value.keyType == t.keyType && r.value.columnLength == t.columnLength
    ensures r.Success? ==> t.store.Keys <= r.value.store.Keys && t.blockNum <= r.value.blockNum
  {
    var key :- Normalize(t.columnLength, original);
    var leafBlock :- LeafOf(t, key);
    var leaf := t.store[leafBlock];
    FanoutOrder(t.columnLength);
    match LeafNode.LeafInsert(t.keyType, leaf.entries, Entry(key, loc), MinFanout(t.columnLength), MaxFanout(t.columnLength))
    case Fitted(es) => Success(t.(store := t.store[leafBlock := leaf.(entries := es)]))
    case Split(l, rr) => SplitLeaf(t, leafBlock, leaf, l, rr)
  }

  /** The padded key fits the key type's comparison. */
  lemma NormalizedFits(t: Tree, original: Option<seq<uint8>>)
    requires ConfigOK(t) && Normalize(t.columnLength, original).Success?
    ensures Fits(t.keyType, Normalize(t.columnLength, original).value)
  {
  }

  /** Every insertion, with or without splits, leaves every leaf sorted and within MAX. */
  lemma InsertKeepsLeavesWellFormed(t: Tree, original: Option<seq<uint8>>, loc: Locator)
    requires ConfigOK(t) && LeavesWellFormed(t)
    requires Insert(t, original, loc).Success?
    ensures LeavesWellFormed(Insert(t, original, loc).value)
  {
    var key := Normalize(t.columnLength, original).value;
    NormalizedFits(t, original);
    var leafBlock := LeafOf(t, key).value;
    var leaf := t.store[leafBlock];
    var min, max := MinFanout(t.columnLength), MaxFanout(t.columnLength);
    FanoutBounds(t.columnLength);
    LeafNode.LeafInsertMeaning(t.keyType, leaf.entries, Entry(key, loc), min, max);
  }

  /** Every insertion keeps the block count naming the first unused block. */
  lemma InsertKeepsAllocated(t: Tree, original: Option<seq<uint8>>, loc: Locator)
    requires Allocated(t)
    requires Insert(t, original, loc).Success?
    ensures Allocated(Insert(t, original, loc).value)
  {
    var key := Normalize(t.columnLength, original).value;
    var leafBlock := LeafOf(t, key).value;
    assert t.store[leafBlock := t.store[leafBlock].(entries := [])].Keys == t.store.Keys;
  }

  /** The leaf the padded key descends to holds it already or has room for it. */
  ghost predicate LeafHasRoom(t: Tree, key: Key)
    requires LeafOf(t, key).Success?
  {
    var leaf := t.store[LeafOf(t, key).value];
    Lookup(leaf.entries, key).Some? || |leaf.entries| < MaxFanout(t.columnLength)
  }

  /** A leaf rewritten in place: the descent of every key is unchanged, so a search finds what
      the new leaf holds for keys that descend to it and what it found before for the rest. */
  lemma SearchAfterLeafWrite(t: Tree, b: int, n: Node, o: Option<seq<uint8>>)
    requires b in t.store && t.store[b].Leaf? && n.Leaf?
    requires Normalize(t.columnLength, o).Success?
    ensures var key := Normalize(t.columnLength, o).value;
      LeafOf(t.(store := t.store[b := n]), key) == LeafOf(t, key)
    ensures var key := Normalize(t.columnLength, o).value;
      LeafOf(t, key) == Success(b) ==> Search(t.(store := t.store[b := n]), o) == Success(Lookup(n.entries, key))
    ensures var key := Normalize(t.columnLength, o).value;
      LeafOf(t, key) != Success(b) ==> Search(t.(store := t.store[b := n]), o) == Search(t, o)
  {
    var key := Normalize(t.columnLength, o).value;
    SameSize(t.store, b, n);
    FindLeafAfterLeafWrite(t.keyType, t.store, b, n, t.root, key, |t.store|);
  }

  /** An insertion into a leaf with room: the key then finds the new locator, and every other
      key finds what it found before. */
  lemma InsertThenSearch(t: Tree, original: Option<seq<uint8>>, loc: Locator)
    requires ConfigOK(t) && LeavesWellFormed(t)
    requires Normalize(t.columnLength, original).Success?
    requires LeafOf(t, Normalize(t.columnLength, original).value).Success?
    requires LeafHasRoom(t, Normalize(t.columnLength, original).value)
    ensures Insert(t, original, loc).Success?
    ensures Search(Insert(t, original, loc).value, original) == Success(Some(loc))
    ensures forall o :: Normalize(t.columnLength, o).Success? && Normalize(t.columnLength, o).value != Normalize(t.columnLength, original).value ==>
      Search(Insert(t, original, loc).value, o) == Search(t, o)
  {
    var key := Normalize(t.columnLength, original).value;
    NormalizedFits(t, original);
    var b := LeafOf(t, key).value;
    var leaf := t.store[b];
    var all := LeafNode.PutEntry(t.keyType, leaf.entries, Entry(key, loc));
    LeafNode.PutEntryMeaning(t.keyType, leaf.entries, Entry(key, loc));
    FanoutOrder(t.columnLength);
    var n := leaf.(entries := all);
    assert Insert(t, original, loc) == Success(t.(store := t.store[b := n]));
    SearchAfterLeafWrite(t, b, n, original);
    forall o | Normalize(t.columnLength, o).Success? && Normalize(t.columnLength, o).value != key
      ensures Search(t.(store := t.store[b := n]), o) == Search(t, o)
    {
      SearchAfterLeafWrite(t, b, n, o);
    }
  }

  /** What every step of a deletion keeps: the configuration, the blocks in use and the block
      count. Deletion writes only blocks already in use and hands no block number back. */
  ghost predicate SameBlocks(t: Tree, t2: Tree)
  {
    && t2.keyType == t.keyType && t2.columnLength == t.columnLength
    && t2.store.Keys == t.store.Keys && t2.blockNum == t.blockNum
  }

  /** A node written over a block already in use. */
  function Put(t: Tree, b: int, n: Node): (r: Tree)
    requires b in t.store
    ensures r == t.(store := t.store[b := n]) && SameBlocks(t, r)
  {
    assert t.store[b := n].Keys == t.store.Keys;
    t.(store := t.store[b := n])
  }

  /** delete: the key padded to the column length, the descent, then the scan of the leaf. An
      absent key changes nothing; a leaf that keeps MIN entries, or is the root, is done;
      otherwise the leaf is refilled from a sibling. */
  function Delete(t: Tree, original: Option<seq<uint8>>): (r: Result<Tree>)
    ensures original.None? ==> r == Failure(NullPointer)
    ensures original.Some? && |original.value| > t.columnLength ==> r == Failure(IndexOutOfBounds)
    ensures r.Success? ==> SameBlocks(t, r.value)
    ensures (&& Normalize(t.columnLength, original).Success?
             && LeafOf(t, Normalize(t.columnLength, original).value).Success?
             && Lookup(t.store[LeafOf(t, Normalize(t.columnLength, original).value).value].entries,
                       Normalize(t.columnLength, original).value).None?)
            ==> r == Success(t)
  {
    var key :- Normalize(t.columnLength, original);
    var leafBlock :- LeafOf(t, key);
    var leaf := t.store[leafBlock];
    match LeafNode.FindEntry(t.keyType, leaf.entries, key)
    case None => Success(t)
    case Some(i) =>
      CompareZeroMeansEqual(t.keyType, key, leaf.entries[i].key);
      var t1 := Put(t, leafBlock, leaf.(entries := leaf.entries[..i] + leaf.entries[i + 1..]));
      if |leaf.entries| - 1 >= MinFanout(t.columnLength) || leaf.parent == NO_BLOCK then Success(t1)
      else RefillLeaf(t1, leafBlock, key)
  }

  /** A leaf left with fewer than MIN entries turns to its next leaf when that leaf has the same
      parent, and otherwise to the child before it in the parent. */
  function RefillLeaf(t: Tree, leafBlock: int, key: Key): (r: Result<Tree>)
    requires leafBlock in t.store && t.store[leafBlock].Leaf?
    requires |t.store[leafBlock].entries| < MinFanout(t.columnLength)
    ensures r.Success? ==> SameBlocks(t, r.value)
  {
    var leaf := t.store[leafBlock];
    var p :- BranchAt(t.store, leaf.parent);
    if leaf.next != NO_BLOCK && leaf.next in t.store && t.store[leaf.next].parent == leaf.parent then
      LeafWithNext(t, leafBlock, leaf, p)
    else LeafWithPrevious(t, leafBlock, leaf, p, key)
  }

  /** With the next leaf: the two merge into this leaf when they fit in one, and the parent drops
      the next leaf; a next leaf of exactly MIN entries is left alone, and the leaf stays short;
      otherwise the next leaf lends its first entry and the parent's key between them becomes
      the next leaf's new first key. */
  function LeafWithNext(t: Tree, leafBlock: int, leaf: Node, p: Node): (r: Result<Tree>)
    requires leafBlock in t.store && t.store[leafBlock] == leaf && leaf.Leaf?
    requires |leaf.entries| < MinFanout(t.columnLength)
    requires leaf.parent in t.store && t.store[leaf.parent] == p && p.Internal? && WellShaped(p)
    ensures r.Success? ==> SameBlocks(t, r.value)
  {
    var sib :- LeafAt(t.store, leaf.next);
    if |sib.entries| + |leaf.entries| <= MaxFanout(t.columnLength) then
      RemoveFromParent(Put(t, leafBlock, LeafNode.MergeLeaves(leaf, sib)), leaf.parent, leaf.next, |t.store|)
    else if |sib.entries| == MinFanout(t.columnLength) then Success(t)
    else
      FanoutOrder(t.columnLength);
      var (n2, s2, changeKey) := LeafNode.BorrowFromNext(leaf, sib, leaf.next);
      var t1 := Put(Put(t, leafBlock, n2), leaf.next, s2);
      Success(Put(t1, leaf.parent, Internal(InternalNode.Exchange(p.keys, p.children, changeKey, leafBlock), p.children, p.parent)))
  }

  /** With the previous sibling: the leaf merges into it when they fit in one, and the parent
      drops the leaf; a sibling of exactly MIN entries is left alone; otherwise the sibling
      lends its last entry, which becomes the parent's key between them. */
  function LeafWithPrevious(t: Tree, leafBlock: int, leaf: Node, p: Node, key: Key): (r: Result<Tree>)
    requires leafBlock in t.store && t.store[leafBlock] == leaf && leaf.Leaf?
    requires |leaf.entries| < MinFanout(t.columnLength)
    requires leaf.parent in t.store && t.store[leaf.parent] == p && p.Internal? && WellShaped(p)
    ensures r.Success? ==> SameBlocks(t, r.value)
  {
    var sibBlock :- LeafNode.PreviousSibling(t.keyType, p.keys, p.children, key);
    var sib :- LeafAt(t.store, sibBlock);
    if |sib.entries| + |leaf.entries| <= MaxFanout(t.columnLength) then
      RemoveFromParent(Put(t, sibBlock, LeafNode.MergeLeaves(sib, leaf)), leaf.parent, leafBlock, |t.store|)
    else if |sib.entries| == MinFanout(t.columnLength) then Success(t)
    else
      FanoutOrder(t.columnLength);
      var (n2, s2, changeKey) := LeafNode.BorrowFromPrevious(leaf, leafBlock, sib);
      var t1 := Put(Put(t, leafBlock, n2), sibBlock, s2);
      Success(Put(t1, leaf.parent, Internal(InternalNode.Exchange(p.keys, p.children, changeKey, sibBlock), p.children, p.parent)))
  }

  /** delete(BufferNode): the parent drops a merged-away child and the key before it. A parent
      that keeps MIN keys is done; a root with no key left gives way to its only child; any
      other root is done; any other node is refilled from a sibling. */
  function RemoveFromParent(t: Tree, node: int, child: int, fuel: nat): (r: Result<Tree>)
    ensures r.Success? ==> SameBlocks(t, r.value) && KeepsLeaves(t.store, r.value.store)
    decreases fuel, 2
  {
    var n :- BranchAt(t.store, node);
    match InternalNode.IndexOfChild(n.children, child)
    case None => Success(t)
    case Some(i) =>
      // the copy for the first child starts before the child area
      if i == 0 then Failure(Corrupt)
      else
        var (nk, nc) := InternalNode.RemoveChild(n.keys, n.children, i);
        var shrunk := Internal(nk, nc, n.parent);
        assert WellShaped(shrunk);
        var t1 := Put(t, node, shrunk);
        assert node in t1.store && t1.store[node] == shrunk;
        if |nk| >= MinFanout(t.columnLength) then Success(t1)
        else if n.parent == NO_BLOCK then
          if |nk| == 0 then CollapseRoot(t1, node) else Success(t1)
        else RefillBranch(t1, node, fuel)
  }

  /** The root collapse as intended: the only child becomes the root and is marked as having
      no parent. */
  function CollapseRoot(t: Tree, node: int): (r: Result<Tree>)
    requires node in t.store && t.store[node].Internal? && |t.store[node].children| >= 1
    ensures r.Failure? <==> t.store[node].children[0] !in t.store
    ensures r.Success? ==> SameBlocks(t, r.value) && r.value.root == t.store[node].children[0]
    ensures r.Success? ==> KeepsLeaves(t.store, r.value.store)
    ensures r.Success? ==> r.value.store[r.value.root].parent == NO_BLOCK
  {
    var child := t.store[node].children[0];
    if child !in t.store then Failure(MissingBlock(child))
    else Success(Put(t, child, t.store[child].(parent := NO_BLOCK)).(root := child))
  }

  /** An internal node left with fewer than MIN keys turns to the sibling the parent's scan
      finds. */
  function RefillBranch(t: Tree, node: int, fuel: nat): (r: Result<Tree>)
    requires node in t.store && t.store[node].Internal? && WellShaped(t.store[node])
    requires |t.store[node].keys| < MinFanout(t.columnLength)
    ensures r.Success? ==> SameBlocks(t, r.value) && KeepsLeaves(t.store, r.value.store)
    decreases fuel, 1
  {
    var n := t.store[node];
    var p :- BranchAt(t.store, n.parent);
    var choice :- InternalNode.ChooseSibling(p.keys, p.children, node);
    match choice
    case NextSibling(sibBlock, middle) => BranchWithNext(t, node, n, p, sibBlock, middle, fuel)
    case PreviousSibling(sibBlock, middle) => BranchWithPrevious(t, node, n, p, sibBlock, middle, fuel)
  }

  /** With the next sibling: the two join in this node around the parent's key between them,
      when the sibling's keys and this node's fit in MAX, and the parent drops the sibling; a
      sibling of exactly MIN keys is left alone; otherwise the node borrows through the parent. */
  function BranchWithNext(t: Tree, node: int, n: Node, p: Node, sibBlock: int, middle: Key, fuel: nat): (r: Result<Tree>)
    requires node in t.store && t.store[node] == n && n.Internal? && WellShaped(n)
    requires |n.keys| < MinFanout(t.columnLength)
    requires n.parent in t.store && t.store[n.parent] == p && p.Internal? && WellShaped(p)
    ensures r.Success? ==> SameBlocks(t, r.value) && KeepsLeaves(t.store, r.value.store)
    decreases fuel, 0
  {
    var sib :- BranchAt(t.store, sibBlock);
    if |sib.keys| + |n.keys| <= MaxFanout(t.columnLength) then
      var store :- JoinInto(t.store, node, middle, sibBlock);
      if fuel == 0 then Failure(Corrupt)
      else RemoveFromParent(t.(store := store), n.parent, sibBlock, fuel - 1)
    else if |sib.keys| == MinFanout(t.columnLength) then Success(t)
    else
      FanoutOrder(t.columnLength);
      var (n2, s2, up) := InternalNode.BorrowBranchFromNext(n, middle, sib);
      var store :- Borrow(t.store, node, n2, sibBlock, s2, sib.children[0]);
      Success(Put(t.(store := store), n.parent, Internal(InternalNode.Exchange(p.keys, p.children, up, node), p.children, p.parent)))
  }

  /** With the previous sibling: this node joins into it, or borrows its last child. */
  function BranchWithPrevious(t: Tree, node: int, n: Node, p: Node, sibBlock: int, middle: Key, fuel: nat): (r: Result<Tree>)
    requires node in t.store && t.store[node] == n && n.Internal? && WellShaped(n)
    requires |n.keys| < MinFanout(t.columnLength)
    requires n.parent in t.store && t.store[n.parent] == p && p.Internal? && WellShaped(p)
    ensures r.Success? ==> SameBlocks(t, r.value) && KeepsLeaves(t.store, r.value.store)
    decreases fuel, 0
  {
    var sib :- BranchAt(t.store, sibBlock);
    if |sib.keys| + |n.keys| <= MaxFanout(t.columnLength) then
      var store :- JoinInto(t.store, sibBlock, middle, node);
      if fuel == 0 then Failure(Corrupt)
      else RemoveFromParent(t.(store := store), n.parent, node, fuel - 1)
    else if |sib.keys| == MinFanout(t.columnLength) then Success(t)
    else
      FanoutOrder(t.columnLength);
      var (n2, s2, up) := InternalNode.BorrowBranchFromPrevious(n, middle, sib);
      var store :- Borrow(t.store, node, n2, sibBlock, s2, sib.children[|sib.keys|]);
      Success(Put(t.(store := store), n.parent, Internal(InternalNode.Exchange(p.keys, p.children, up, sibBlock), p.children, p.parent)))
  }

  /** rearrangeAfter and rearrangeBefore as written, on the store: the node and its sibling are
      rewritten, and the child that moved across keeps the parent it had. */
  function BorrowAsWritten(store: Store, node: int, n2: Node, sibBlock: int, s2: Node): (r: Store)
    requires node in store && sibBlock in store
    ensures r.Keys == store.Keys
    ensures r[sibBlock] == s2 && (node != sibBlock ==> r[node] == n2)
    ensures forall b :: b in store && b != node && b != sibBlock ==> r[b] == store[b]
  {
    store[node := n2][sibBlock := s2]
  }

  /** The borrow between internal siblings as intended: the same rewrites, with the child that
      moved across re-parented to the node that took it. */
  function Borrow(store: Store, node: int, n2: Node, sibBlock: int, s2: Node, moved: int): (r: Result<Store>)
    requires node in store && sibBlock in store
    ensures r.Failure? <==> moved !in store
    ensures r.Success? ==> r.value.Keys == store.Keys
    ensures r.Success? ==> r.value[moved] == BorrowAsWritten(store, node, n2, sibBlock, s2)[moved].(parent := node)
    ensures r.Success? ==> forall b :: b in store && b != moved ==> r.value[b] == BorrowAsWritten(store, node, n2, sibBlock, s2)[b]
    ensures r.Success? && n2.Internal? && s2.Internal? ==> KeepsLeaves(store, r.value)
  {
    Adopt(BorrowAsWritten(store, node, n2, sibBlock, s2), [moved], node)
  }

  /** After the written borrow from the next sibling, the child that moved to the end of the
      node still names the sibling as its parent, so a later split or merge below it updates
      the sibling; the intended borrow re-parents it. */
  lemma BorrowFromNextAsWrittenLeavesOrphan(store: Store, node: int, middle: Key, sibBlock: int)
    requires node in store && sibBlock in store && node != sibBlock
    requires store[node].Internal? && store[sibBlock].Internal? && WellShaped(store[sibBlock])
    requires |store[sibBlock].keys| >= 1
    requires var c := store[sibBlock].children[0];
      c in store && c != node && c != sibBlock && store[c].parent == sibBlock
    ensures var sib := store[sibBlock];
      var c := sib.children[0];
      var (n2, s2, _) := InternalNode.BorrowBranchFromNext(store[node], middle, sib);
      var s := BorrowAsWritten(store, node, n2, sibBlock, s2);
      && c in s[node].children
      && s[c].parent == sibBlock
      && Borrow(store, node, n2, sibBlock, s2, c).Success?
      && Borrow(store, node, n2, sibBlock, s2, c).value[c].parent == node
  {
  }

  /** After the written borrow from the previous sibling, the child that moved to the front of
      the node still names the sibling as its parent; the intended borrow re-parents it. */
  lemma BorrowFromPreviousAsWrittenLeavesOrphan(store: Store, node: int, middle: Key, sibBlock: int)
    requires node in store && sibBlock in store && node != sibBlock
    requires store[node].Internal? && store[sibBlock].Internal? && WellShaped(store[sibBlock])
    requires |store[sibBlock].keys| >= 1
    requires var c := store[sibBlock].children[|store[sibBlock].keys|];
      c in store && c != node && c != sibBlock && store[c].parent == sibBlock
    ensures var sib := store[sibBlock];
      var c := sib.children[|sib.keys|];
      var (n2, s2, _) := InternalNode.BorrowBranchFromPrevious(store[node], middle, sib);
      var s := BorrowAsWritten(store, node, n2, sibBlock, s2);
      && c in s[node].children
      && s[c].parent == sibBlock
      && Borrow(store, node, n2, sibBlock, s2, c).Success?
      && Borrow(store, node, n2, sibBlock, s2, c).value[c].parent == node
  {
  }

  /** InternalNode.union as intended: the joined node and the children it took over, each now
      naming it as parent. */
  function JoinInto(store: Store, into: int, middle: Key, from: int): (r: Result<Store>)
    requires into in store && from in store && store[into].Internal? && store[from].Internal?
    ensures r.Failure? <==> exists c :: c in store[from].children && c !in store
    ensures r.Success? ==> r.value.Keys == store.Keys
    ensures r.Success? ==> forall c :: c in store[from].children ==> r.value[c].parent == into
    ensures r.Success? ==> KeepsLeaves(store, r.value)
    ensures r.Success? && into !in store[from].children ==>
      r.value[into].Internal? && r.value[into].children == store[into].children + store[from].children
  {
    Adopt(store[into := InternalNode.JoinBranches(store[into], middle, store[from])], store[from].children, into)
  }

  /** InternalNode.union as written: the children taken over keep naming the merged-away node
      as their parent. */
  function JoinIntoAsWritten(store: Store, into: int, middle: Key, from: int): (r: Store)
    requires into in store && from in store && store[into].Internal? && store[from].Internal?
  {
    store[into := InternalNode.JoinBranches(store[into], middle, store[from])]
  }

  /** After the written union a child of the joined node still names the merged-away block as
      its parent, so a later split of that child inserts its separator into a dead block. The
      intended join re-parents it. */
  lemma JoinIntoAsWrittenLeavesOrphans(store: Store, into: int, middle: Key, from: int, c: int)
    requires into in store && from in store && store[into].Internal? && store[from].Internal?
    requires c in store[from].children && c in store && c != into && store[c].parent == from
    ensures var s := JoinIntoAsWritten(store, into, middle, from);
      c in s[into].children && s[c].parent == from
    ensures JoinInto(store, into, middle, from).Success? ==> JoinInto(store, into, middle, from).value[c].parent == into
  {
  }

  /** union and the root collapse as written: the catalog's block count goes down by one. */
  function ReleaseBlockAsWritten(t: Tree): (r: Tree)
  {
    t.(blockNum := t.blockNum - 1)
  }

  /** Blocks are never handed back to the store, so lowering the count makes it name the
      highest block in use, and the next split writes its new node over that block. */
  lemma ReleaseBlockAsWrittenReusesLiveBlock(t: Tree, n: Node)
    requires Allocated(t) && t.blockNum >= 1
    ensures ReleaseBlockAsWritten(t).blockNum in t.store && !Allocated(ReleaseBlockAsWritten(t))
    ensures Allocate(ReleaseBlockAsWritten(t), n).store.Keys == t.store.Keys
    ensures Allocate(ReleaseBlockAsWritten(t), n).store[t.blockNum - 1] == n
  {
  }

  /** Deletion as modelled leaves the count naming the first unused block. */
  lemma DeleteKeepsAllocated(t: Tree, original: Option<seq<uint8>>)
    requires Allocated(t) && Delete(t, original).Success?
    ensures Allocated(Delete(t, original).value)
  {
  }

  /** The root collapse as written: the child becomes the root but keeps the old root as its
      parent, and the count goes down. */
  function CollapseRootAsWritten(t: Tree, node: int): (r: Tree)
    requires node in t.store && t.store[node].Internal? && |t.store[node].children| >= 1
  {
    ReleaseBlockAsWritten(t.(root := t.store[node].children[0]))
  }

  /** After the written collapse the new root still names a parent, so a later delete that
      leaves it short treats it as a non-root and looks for siblings; the intended collapse
      marks it parentless. */
  lemma CollapseRootAsWrittenKeepsParent(t: Tree, node: int)
    requires node in t.store && t.store[node].Internal? && |t.store[node].children| >= 1 && node != NO_BLOCK
    requires t.store[node].children[0] in t.store && t.store[t.store[node].children[0]].parent == node
    ensures var r := CollapseRootAsWritten(t, node);
      r.root in r.store && r.store[r.root].parent == node && r.store[r.root].parent != NO_BLOCK
    ensures CollapseRoot(t, node).Success? && CollapseRoot(t, node).value.store[CollapseRoot(t, node).value.root].parent == NO_BLOCK
  {
  }

  /** The leaf the padded key descends to can lose an entry without a refill. */
  ghost predicate LeafCanShrink(t: Tree, key: Key)
    requires LeafOf(t, key).Success?
  {
    var leaf := t.store[LeafOf(t, key).value];
    |leaf.entries| > MinFanout(t.columnLength) || leaf.parent == NO_BLOCK
  }

  /** A deletion that needs no refill: the key then finds nothing, every other key finds what
      it found before, and the leaves stay sorted. */
  lemma DeleteThenSearch(t: Tree, original: Option<seq<uint8>>)
    requires ConfigOK(t) && LeavesWellFormed(t)
    requires Normalize(t.columnLength, original).Success?
    requires LeafOf(t, Normalize(t.columnLength, original).value).Success?
    requires LeafCanShrink(t, Normalize(t.columnLength, original).value)
    ensures Delete(t, original).Success?
    ensures Search(Delete(t, original).value, original) == Success(None)
    ensures forall o :: Normalize(t.columnLength, o).Success? && Normalize(t.columnLength, o).value != Normalize(t.columnLength, original).value ==>
      Search(Delete(t, original).value, o) == Search(t, o)
    ensures LeavesWellFormed(Delete(t, original).value)
  {
    var key := Normalize(t.columnLength, original).value;
    NormalizedFits(t, original);
    var b := LeafOf(t, key).value;
    var leaf := t.store[b];
    LeafNode.FindEntryMeaning(t.keyType, leaf.entries, key);
    match LeafNode.FindEntry(t.keyType, leaf.entries, key)
    case None =>
    case Some(i) =>
      var rest := leaf.entries[..i] + leaf.entries[i + 1..];
      LeafNode.RemoveEntryMeaning(t.keyType, leaf.entries, i);
      var n := leaf.(entries := rest);
      assert Delete(t, original) == Success(t.(store := t.store[b := n]));
      SearchAfterLeafWrite(t, b, n, original);
      forall o | Normalize(t.columnLength, o).Success? && Normalize(t.columnLength, o).value != key
        ensures Search(t.(store := t.store[b := n]), o) == Search(t, o)
      {
        SearchAfterLeafWrite(t, b, n, o);
      }
  }

  /** Neighbouring leaves hold their keys in order: a leaf's keys lie below those of the leaf
      its next link names, and below those of the leaf that follows it among its parent's
      children. */
  ghost predicate LeavesOrdered(t: Tree)
  {
    && (forall a :: a in t.store && t.store[a].Leaf? && t.store[a].next in t.store && t.store[t.store[a].next].Leaf? ==>
          LeafNode.Precedes(t.keyType, t.store[a].entries, t.store[t.store[a].next].entries))
    && (forall p, j ::
          && p in t.store && t.store[p].Internal? && 0 < j < |t.store[p].children|
          && t.store[p].children[j - 1] in t.store && t.store[t.store[p].children[j - 1]].Leaf?
          && t.store[p].children[j] in t.store && t.store[t.store[p].children[j]].Leaf?
          ==> LeafNode.Precedes(t.keyType, t.store[t.store[p].children[j - 1]].entries, t.store[t.store[p].children[j]].entries))
  }

  /** The parent pointers agree with the children lists, and the root names no parent. */
  ghost predicate ParentsAgree(t: Tree)
  {
    && (t.root in t.store ==> t.store[t.root].parent == NO_BLOCK)
    && forall p, j :: p in t.store && t.store[p].Internal? && 0 <= j < |t.store[p].children| && t.store[p].children[j] in t.store ==>
         t.store[t.store[p].children[j]].parent == p
  }

  /** With agreeing parent pointers a descent ends in the block it started from, or in the
      child that its leaf's parent routes the key to. */
  lemma {:induction false} FindLeafParent(t: Tree, block: int, key: Key, fuel: nat)
    requires ParentsAgree(t) && FindLeaf(t.keyType, t.store, block, key, fuel).Success?
    ensures var b := FindLeaf(t.keyType, t.store, block, key, fuel).value;
      || b == block
      || (var q := t.store[b].parent;
          && q in t.store && t.store[q].Internal? && WellShaped(t.store[q])
          && InternalNode.Route(t.keyType, t.store[q].keys, t.store[q].children, key) == b)
    decreases fuel
  {
    if t.store[block].Internal? {
      var nd := t.store[block];
      var c := InternalNode.Route(t.keyType, nd.keys, nd.children, key);
      assert FindLeaf(t.keyType, t.store, block, key, fuel) == FindLeaf(t.keyType, t.store, c, key, fuel - 1);
      FindLeafParent(t, c, key, fuel - 1);
      assert c in t.store;
      assert t.store[c].parent == block by {
        var j := ChildIndex(t.keyType, nd.keys, key);
        assert nd.children[j] == c;
      }
    }
  }

  /** What a refill needs of the short leaf's neighbours: its next leaf holds larger keys, and
      the child before it in its parent, along the key's route, holds smaller ones. */
  ghost predicate NeighboursPrecede(t: Tree, leafBlock: int, key: Key)
    requires leafBlock in t.store && t.store[leafBlock].Leaf?
  {
    var leaf := t.store[leafBlock];
    && (leaf.next in t.store && t.store[leaf.next].Leaf? ==>
          LeafNode.Precedes(t.keyType, leaf.entries, t.store[leaf.next].entries))
    && (leaf.parent in t.store && t.store[leaf.parent].Internal? && WellShaped(t.store[leaf.parent]) ==>
          var p := t.store[leaf.parent];
          var sb := LeafNode.PreviousSibling(t.keyType, p.keys, p.children, key);
          sb.Success? && sb.value in t.store && t.store[sb.value].Leaf? ==>
            LeafNode.Precedes(t.keyType, t.store[sb.value].entries, leaf.entries))
  }

  /** A merge with the next leaf, or a borrow from it, leaves every leaf sorted and within MAX. */
  lemma LeafWithNextKeepsWellFormed(t: Tree, leafBlock: int, leaf: Node, p: Node)
    requires leafBlock in t.store && t.store[leafBlock] == leaf && leaf.Leaf?
    requires |leaf.entries| < MinFanout(t.columnLength)
    requires leaf.parent in t.store && t.store[leaf.parent] == p && p.Internal? && WellShaped(p)
    requires LeavesWellFormed(t)
    requires leaf.next in t.store && t.store[leaf.next].Leaf? ==>
      LeafNode.Precedes(t.keyType, leaf.entries, t.store[leaf.next].entries)
    requires LeafWithNext(t, leafBlock, leaf, p).Success?
    ensures LeavesWellFormed(LeafWithNext(t, leafBlock, leaf, p).value)
  {
    var sib := t.store[leaf.next];
    var m := leaf.entries + sib.entries;
    LeafNode.MergeLeavesMeaning(t.keyType, leaf, sib);
    assert SortedEntries(t.keyType, m);
    if |sib.entries| + |leaf.entries| > MaxFanout(t.columnLength) && |sib.entries| != MinFanout(t.columnLength) {
      FanoutOrder(t.columnLength);
      var (n2, s2, _) := LeafNode.BorrowFromNext(leaf, sib, leaf.next);
      assert n2.entries == m[0..|n2.entries|] && s2.entries == m[|n2.entries|..|m|];
      LeafNode.SortedSlice(t.keyType, m, 0, |n2.entries|);
      LeafNode.SortedSlice(t.keyType, m, |n2.entries|, |m|);
    }
  }

  /** A merge into the previous sibling, or a borrow from it, leaves every leaf sorted and
      within MAX. */
  lemma LeafWithPreviousKeepsWellFormed(t: Tree, leafBlock: int, leaf: Node, p: Node, key: Key)
    requires leafBlock in t.store && t.store[leafBlock] == leaf && leaf.Leaf?
    requires |leaf.entries| < MinFanout(t.columnLength)
    requires leaf.parent in t.store && t.store[leaf.parent] == p && p.Internal? && WellShaped(p)
    requires LeavesWellFormed(t)
    requires var sb := LeafNode.PreviousSibling(t.keyType, p.keys, p.children, key);
      sb.Success? && sb.value in t.store && t.store[sb.value].Leaf? ==>
        LeafNode.Precedes(t.keyType, t.store[sb.value].entries, leaf.entries)
    requires LeafWithPrevious(t, leafBlock, leaf, p, key).Success?
    ensures LeavesWellFormed(LeafWithPrevious(t, leafBlock, leaf, p, key).value)
  {
    var sibBlock := LeafNode.PreviousSibling(t.keyType, p.keys, p.children, key).value;
    var sib := t.store[sibBlock];
    var m := sib.entries + leaf.entries;
    LeafNode.MergeLeavesMeaning(t.keyType, sib, leaf);
    assert SortedEntries(t.keyType, m);
    if |sib.entries| + |leaf.entries| > MaxFanout(t.columnLength) && |sib.entries| != MinFanout(t.columnLength) {
      FanoutOrder(t.columnLength);
      var (n2, s2, _) := LeafNode.BorrowFromPrevious(leaf, leafBlock, sib);
      assert s2.entries == m[0..|s2.entries|] && n2.entries == m[|s2.entries|..|m|];
      LeafNode.SortedSlice(t.keyType, m, 0, |s2.entries|);
      LeafNode.SortedSlice(t.keyType, m, |s2.entries|, |m|);
    }
  }

  /** A refill of a short leaf whose neighbours are in order leaves every leaf sorted and
      within MAX. */
  lemma RefillLeafKeepsWellFormed(t: Tree, leafBlock: int, key: Key)
    requires leafBlock in t.store && t.store[leafBlock].Leaf?
    requires |t.store[leafBlock].entries| < MinFanout(t.columnLength)
    requires LeavesWellFormed(t) && NeighboursPrecede(t, leafBlock, key)
    requires RefillLeaf(t, leafBlock, key).Success?
    ensures LeavesWellFormed(RefillLeaf(t, leafBlock, key).value)
  {
    var leaf := t.store[leafBlock];
    var p := t.store[leaf.parent];
    if leaf.next != NO_BLOCK && leaf.next in t.store && t.store[leaf.next].parent == leaf.parent {
      LeafWithNextKeepsWellFormed(t, leafBlock, leaf, p);
    } else {
      LeafWithPreviousKeepsWellFormed(t, leafBlock, leaf, p, key);
    }
  }

  /** Removing an entry from the leaf a key descends to, in a tree whose leaves are in order and
      whose parent pointers agree, leaves the leaf's neighbours in order around it. */
  lemma RemovalKeepsNeighbours(t: Tree, key: Key, i: nat)
    requires LeavesWellFormed(t) && LeavesOrdered(t) && ParentsAgree(t)
    requires LeafOf(t, key).Success?
    requires t.store[LeafOf(t, key).value].parent != NO_BLOCK
    requires i < |t.store[LeafOf(t, key).value].entries|
    ensures var b := LeafOf(t, key).value;
      var leaf := t.store[b];
      NeighboursPrecede(Put(t, b, leaf.(entries := leaf.entries[..i] + leaf.entries[i + 1..])), b, key)
  {
    var b := LeafOf(t, key).value;
    var leaf := t.store[b];
    var rest := leaf.entries[..i] + leaf.entries[i + 1..];
    LeafNode.RemoveEntrySorted(t.keyType, leaf.entries, i);
    var t1 := Put(t, b, leaf.(entries := rest));
    // a leaf that precedes itself holds no keys, and this one holds entry i
    var k := leaf.entries[i].key;
    LessTotal(t.keyType, k, k);
    FindLeafParent(t, t.root, key, |t.store|);
    var q := leaf.parent;
    var parent := t.store[q];
    var j := ChildIndex(t.keyType, parent.keys, key);
    assert parent.children[j] == b;
    if leaf.next in t1.store && t1.store[leaf.next].Leaf? {
      assert leaf.next != b;
      LeafNode.PrecedesSubsets(t.keyType, leaf.entries, t.store[leaf.next].entries, rest, t.store[leaf.next].entries);
    }
    var sb := LeafNode.PreviousSibling(t.keyType, parent.keys, parent.children, key);
    if sb.Success? && sb.value in t1.store && t1.store[sb.value].Leaf? {
      assert sb.value == parent.children[j - 1];
      assert sb.value != b;
      LeafNode.PrecedesSubsets(t.keyType, t.store[sb.value].entries, leaf.entries, t.store[sb.value].entries, rest);
    }
  }

  /** Every deletion, with or without a refill, leaves every leaf sorted and within MAX, in a
      tree whose neighbouring leaves are in order and whose parent pointers agree. */
  lemma DeleteKeepsLeavesWellFormed(t: Tree, original: Option<seq<uint8>>)
    requires ConfigOK(t) && LeavesWellFormed(t) && LeavesOrdered(t) && ParentsAgree(t)
    requires Delete(t, original).Success?
    ensures LeavesWellFormed(Delete(t, original).value)
  {
    var key := Normalize(t.columnLength, original).value;
    NormalizedFits(t, original);
    var b := LeafOf(t, key).value;
    var leaf := t.store[b];
    match LeafNode.FindEntry(t.keyType, leaf.entries, key)
    case None =>
    case Some(i) =>
      var rest := leaf.entries[..i] + leaf.entries[i + 1..];
      LeafNode.RemoveEntrySorted(t.keyType, leaf.entries, i);
      var t1 := Put(t, b, leaf.(entries := rest));
      assert LeavesWellFormed(t1);
      if |leaf.entries| - 1 < MinFanout(t.columnLength) && leaf.parent != NO_BLOCK {
        assert Delete(t, original) == RefillLeaf(t1, b, key);
        RemovalKeepsNeighbours(t, key, i);
        RefillLeafKeepsWellFormed(t1, b, key);
      }
  }
}
