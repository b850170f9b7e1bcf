/** Internal nodes: routing a key to a child, taking in a new child after a split below,
    splitting a full node, dropping a child after a merge below, and the merge and borrow steps
    between internal siblings. */
module InternalNode {
  import opened Wrappers
  import opened Keys
  import opened TreeNodes

  /** The child block a key descends to. */
  function Route(keyType: int, keys: seq<Key>, children: seq<int>, key: Key): int
    requires |children| == |keys| + 1
  {
    children[ChildIndex(keyType, keys, key)]
  }

  /** The descent position is the only one with no larger key before it and a larger key at it. */
  lemma ChildIndexIs(keyType: int, keys: seq<Key>, key: Key, c: nat)
    requires c <= |keys|
    requires forall j :: 0 <= j < c ==> !Less(keyType, key, keys[j])
    requires c < |keys| ==> Less(keyType, key, keys[c])
    ensures ChildIndex(keyType, keys, key) == c
  {
  }

  /** InternalNode.branchInsert when the node has room: the separator goes at its descent
      position and the new right child just after the child it was split from. */
  function InsertBranch(keyType: int, keys: seq<Key>, children: seq<int>, separator: Key, right: int): (r: (seq<Key>, seq<int>))
    requires |children| == |keys| + 1
    ensures |r.0| == |keys| + 1 && |r.1| == |r.0| + 1
  {
    var g := ChildIndex(keyType, keys, separator);
    (keys[..g] + [separator] + keys[g..], children[..g + 1] + [right] + children[g + 1..])
  }

  /** Taking in a new child keeps the keys ascending and changes the routing of exactly the keys
      that went to the split child and are at or above the separator: they now go to the new
      right child. */
  lemma InsertBranchRoutes(keyType: int, keys: seq<Key>, children: seq<int>, separator: Key, right: int, k: Key)
    requires |children| == |keys| + 1 && Ascending(keyType, keys)
    requires Fits(keyType, separator) && Fits(keyType, k) && separator !in keys
    ensures Ascending(keyType, InsertBranch(keyType, keys, children, separator, right).0)
    ensures var (nk, nc) := InsertBranch(keyType, keys, children, separator, right);
      Route(keyType, nk, nc, k) ==
        if ChildIndex(keyType, keys, k) == ChildIndex(keyType, keys, separator) && !Less(keyType, k, separator) then right
        else Route(keyType, keys, children, k)
  {
    var g := ChildIndex(keyType, keys, separator);
    var c := ChildIndex(keyType, keys, k);
    var (nk, nc) := InsertBranch(keyType, keys, children, separator, right);
    InsertBranchAscending(keyType, keys, separator);
    ChildIndexSplitsKeys(keyType, keys, k);
    ChildIndexSplitsKeys(keyType, keys, separator);
    if c < g {
      ChildIndexIs(keyType, nk, k, c);
    } else if c > g {
      if Less(keyType, k, separator) {
        LessTransitive(keyType, k, separator, keys[g]);
      }
      assert forall j :: g < j <= c ==> nk[j] == keys[j - 1];
      ChildIndexIs(keyType, nk, k, c + 1);
      assert nc[c + 1] == children[c];
    } else if Less(keyType, k, separator) {
      ChildIndexIs(keyType, nk, k, g);
    } else {
      ChildIndexIs(keyType, nk, k, g + 1);
    }
  }

  lemma InsertBranchAscending(keyType: int, keys: seq<Key>, separator: Key)
    requires Ascending(keyType, keys) && Fits(keyType, separator) && separator !in keys
    ensures var g := ChildIndex(keyType, keys, separator);
      Ascending(keyType, keys[..g] + [separator] + keys[g..])
  {
    var g := ChildIndex(keyType, keys, separator);
    ChildIndexSplitsKeys(keyType, keys, separator);
    forall j | 0 <= j < g ensures Less(keyType, keys[j], separator) {
      LessTotal(keyType, keys[j], separator);
    }
    InsertKeepsAscending(keyType, keys, g, separator);
  }

  /** The halves of a split internal node and the key between them, which moves up. */
  datatype BranchSplit = BranchSplit(leftKeys: seq<Key>, leftChildren: seq<int>, separator: Key, rightKeys: seq<Key>, rightChildren: seq<int>)

  /** InternalNode.branchInsert on a full node, as written. The old node keeps MIN keys and the
      new node is given a count of MAX + 1 - MIN. When the separator's place is among the first
      MIN keys the contents are right; otherwise the new node is seeded with the keys after the
      MIN-th and the separator is placed only in front of a larger one among them. The key that
      moves up is whatever sits in slot MIN of the old node. */
  function SplitBranchAsWritten(keyType: int, keys: seq<Key>, children: seq<int>, separator: Key, right: int, min: nat, max: nat): (r: Result<(BranchSplit, int)>)
    requires |keys| == max && |children| == max + 1 && 1 <= min <= max
    ensures r.Success? ==> r.value.1 == max + 1 - min
    ensures r.Success? ==> |r.value.0.leftKeys| == min && |r.value.0.leftChildren| == min + 1
    ensures r.Success? ==> |r.value.0.rightChildren| == |r.value.0.rightKeys| + 1
  {
    var g := ChildIndex(keyType, keys, separator);
    if g < min then
      Success((BranchSplit(keys[..g] + [separator] + keys[g..min - 1], children[..g + 1] + [right] + children[g + 1..min],
        keys[min - 1], keys[min..], children[min..]), max + 1 - min))
    // copying MAX - MIN - 1 entries is a negative length when MIN == MAX
    else if min == max then Failure(IndexOutOfBounds)
    else
      var seeded := keys[min + 1..];
      var seededChildren := children[min + 1..];
      var j := ChildIndex(keyType, seeded, separator);
      var (rk, rc) :=
        if j < |seeded| then (seeded[..j] + [separator] + seeded[j..], seededChildren[..j + 1] + [right] + seededChildren[j + 1..])
        else (seeded, seededChildren);
      Success((BranchSplit(keys[..min], children[..min + 1], keys[min], rk, rc), max + 1 - min))
  }

  /** The new node's count always exceeds the keys it holds, so its last slot is read as a key
      and its parent-fixing loop visits a child pointer that was never written. */
  lemma SplitBranchAsWrittenOvercounts(keyType: int, keys: seq<Key>, children: seq<int>, separator: Key, right: int, min: nat, max: nat)
    requires |keys| == max && |children| == max + 1 && 1 <= min <= max
    requires SplitBranchAsWritten(keyType, keys, children, separator, right, min, max).Success?
    ensures var (s, count) := SplitBranchAsWritten(keyType, keys, children, separator, right, min, max).value;
      count >= |s.rightKeys| + 1
  {
  }

  /** A separator above every key of the full node is lost with its child. */
  lemma SplitBranchAsWrittenDropsLast(keyType: int, keys: seq<Key>, children: seq<int>, separator: Key, right: int, min: nat, max: nat)
    requires |keys| == max && |children| == max + 1 && 1 <= min < max
    requires ChildIndex(keyType, keys, separator) == max && separator !in keys && right !in children
    ensures var (s, _) := SplitBranchAsWritten(keyType, keys, children, separator, right, min, max).value;
      separator !in s.leftKeys + [s.separator] + s.rightKeys && right !in s.leftChildren + s.rightChildren
  {
    var seeded := keys[min + 1..];
    var j := ChildIndex(keyType, seeded, separator);
    forall i | 0 <= i < |seeded| ensures !Less(keyType, separator, seeded[i]) {
      assert seeded[i] == keys[min + 1 + i];
    }
    assert j == |seeded|;
    assert keys[..min] + [keys[min]] + seeded == keys;
    assert children[..min + 1] + children[min + 1..] == children;
  }

  /** A separator whose place is just after the MIN-th key goes to the front of the new node's
      keys, but its child lands behind the old (MIN+1)-th child while the key moving up is the
      larger old MIN-th key: keys from the separator up to that key route to the wrong child. */
  lemma SplitBranchAsWrittenMisplaces(keyType: int, keys: seq<Key>, children: seq<int>, separator: Key, right: int, min: nat, max: nat)
    requires |keys| == max && |children| == max + 1 && 1 <= min && min + 1 < max
    requires Ascending(keyType, keys) && Fits(keyType, separator)
    requires ChildIndex(keyType, keys, separator) == min
    ensures var (s, _) := SplitBranchAsWritten(keyType, keys, children, separator, right, min, max).value;
      && s.separator == keys[min] && Less(keyType, separator, s.separator)
      && s.rightKeys[0] == separator && s.rightChildren[0] == children[min + 1] && s.rightChildren[1] == right
  {
    var seeded := keys[min + 1..];
    assert seeded[0] == keys[min + 1];
    LessTransitive(keyType, separator, keys[min], keys[min + 1]);
    assert ChildIndex(keyType, seeded, separator) == 0;
  }

  /** InternalNode.branchInsert on a full node as intended: take the separator in, then keep the
      first MIN keys, move the next one up and give the rest to the new node. */
  function SplitBranch(keyType: int, keys: seq<Key>, children: seq<int>, separator: Key, right: int, min: nat): (r: BranchSplit)
    requires |children| == |keys| + 1 && min <= |keys|
    ensures var (mk, mc) := InsertBranch(keyType, keys, children, separator, right);
      && r.leftKeys + [r.separator] + r.rightKeys == mk && r.leftChildren + r.rightChildren == mc
      && |r.leftKeys| == min && |r.leftChildren| == min + 1 && |r.rightChildren| == |r.rightKeys| + 1
  {
    var (mk, mc) := InsertBranch(keyType, keys, children, separator, right);
    assert mk == mk[..min] + [mk[min]] + mk[min + 1..];
    assert mc == mc[..min + 1] + mc[min + 1..];
    BranchSplit(mk[..min], mc[..min + 1], mk[min], mk[min + 1..], mc[min + 1..])
  }

  /** When the separator belongs among the first MIN - 1 keys the written split has the intended
      contents; only its count is off. */
  lemma SplitBranchAsWrittenAgreesInKeptHalf(keyType: int, keys: seq<Key>, children: seq<int>, separator: Key, right: int, min: nat, max: nat)
    requires |keys| == max && |children| == max + 1 && 1 <= min <= max
    requires ChildIndex(keyType, keys, separator) < min
    ensures SplitBranchAsWritten(keyType, keys, children, separator, right, min, max).value.0 == SplitBranch(keyType, keys, children, separator, right, min)
  {
    var g := ChildIndex(keyType, keys, separator);
    var (mk, mc) := InsertBranch(keyType, keys, children, separator, right);
    assert mk[..min] == keys[..g] + [separator] + keys[g..min - 1];
    assert mk[min] == keys[min - 1];
    assert mk[min + 1..] == keys[min..];
    assert mc[..min + 1] == children[..g + 1] + [right] + children[g + 1..min];
    assert mc[min + 1..] == children[min..];
  }

  /** A split node's halves joined around the key that moved up route every key as the node
      with the separator taken in would: what the routing of a joined node means. */
  lemma JoinRoutes(keyType: int, leftKeys: seq<Key>, leftChildren: seq<int>, middle: Key, rightKeys: seq<Key>, rightChildren: seq<int>, k: Key)
    requires |leftChildren| == |leftKeys| + 1 && |rightChildren| == |rightKeys| + 1
    requires Ascending(keyType, leftKeys + [middle] + rightKeys) && Fits(keyType, k)
    ensures Route(keyType, leftKeys + [middle] + rightKeys, leftChildren + rightChildren, k) ==
      if Less(keyType, k, middle) then Route(keyType, leftKeys, leftChildren, k) else Route(keyType, rightKeys, rightChildren, k)
  {
    var all := leftKeys + [middle] + rightKeys;
    var n := |leftKeys|;
    assert forall j :: 0 <= j < n ==> all[j] == leftKeys[j];
    assert all[n] == middle;
    assert forall j :: 0 <= j < |rightKeys| ==> all[n + 1 + j] == rightKeys[j];
    if Less(keyType, k, middle) {
      var c := ChildIndex(keyType, leftKeys, k);
      ChildIndexIs(keyType, all, k, c);
    } else {
      forall j | 0 <= j < n ensures !Less(keyType, k, all[j]) {
        if Less(keyType, k, all[j]) {
          LessTransitive(keyType, k, all[j], all[n]);
        }
      }
      var c := ChildIndex(keyType, rightKeys, k);
      ChildIndexIs(keyType, all, k, n + 1 + c);
      assert (leftChildren + rightChildren)[n + 1 + c] == rightChildren[c];
    }
  }

  /** The position of a child block among a node's children, as the scan in
      InternalNode.delete(BufferNode) finds it. */
  function IndexOfChild(children: seq<int>, block: int): (r: Option<nat>)
    ensures r.Some? ==> r.value < |children| && children[r.value] == block
    ensures r.Some? ==> forall j :: 0 <= j < r.value ==> children[j] != block
    ensures r.None? <==> block !in children
  {
    if |children| == 0 then None
    else if children[0] == block then Some(0)
    else
      var rest := IndexOfChild(children[1..], block);
      assert children == [children[0]] + children[1..];
      if rest.Some? then Some(rest.value + 1) else None
  }

  /** InternalNode.delete(BufferNode) as written: the copy that should close the gap of child i
      and the key before it runs the other way, shifting the entries from key i - 1 one place
      up. */
  function RemoveChildAsWritten(keys: seq<Key>, children: seq<int>, i: nat): (r: (seq<Key>, seq<int>))
    requires |children| == |keys| + 1 && 1 <= i <= |keys|
    ensures |r.0| == |keys| - 1 && |r.1| == |keys|
  {
    var n := |keys|;
    if i == n then (keys[..n - 1], children[..n])
    else (keys[..i] + keys[i - 1..n - 2], children[..i + 1] + children[i..n - 1])
  }

  /** Child i and the key before it removed, as intended. */
  function RemoveChild(keys: seq<Key>, children: seq<int>, i: nat): (r: (seq<Key>, seq<int>))
    requires |children| == |keys| + 1 && 1 <= i <= |keys|
    ensures |r.0| == |keys| - 1 && |r.1| == |keys|
    ensures r.0[..i - 1] == keys[..i - 1] && r.0[i - 1..] == keys[i..]
    ensures r.1[..i] == children[..i] && r.1[i..] == children[i + 1..]
  {
    (keys[..i - 1] + keys[i..], children[..i] + children[i + 1..])
  }

  /** Removing a child other than the last leaves the removed child in place and loses the last
      child instead. */
  lemma RemoveChildAsWrittenKeepsRemoved(keys: seq<Key>, children: seq<int>, i: nat)
    requires |children| == |keys| + 1 && 1 <= i < |keys|
    requires forall a, b :: 0 <= a < b < |children| ==> children[a] != children[b]
    ensures var (_, nc) := RemoveChildAsWritten(keys, children, i);
      children[i] in nc && children[|keys|] !in nc
    ensures children[i] !in RemoveChild(keys, children, i).1
  {
    var (_, nc) := RemoveChildAsWritten(keys, children, i);
    assert nc[i] == children[i];
    assert forall a :: 0 <= a < |nc| ==> nc[a] == children[if a <= i then a else a - 1];
    var rc := RemoveChild(keys, children, i).1;
    assert forall a :: 0 <= a < |rc| ==> rc[a] == children[if a < i then a else a + 1];
  }

  /** Removing the last child is the one case the written copy gets right. */
  lemma RemoveChildAsWrittenAgreesOnLast(keys: seq<Key>, children: seq<int>)
    requires |children| == |keys| + 1 && 1 <= |keys|
    ensures RemoveChildAsWritten(keys, children, |keys|) == RemoveChild(keys, children, |keys|)
  {
    var n := |keys|;
    assert keys[n..] == [] && children[n + 1..] == [];
    assert keys[..n - 1] + keys[n..] == keys[..n - 1];
    assert children[..n] + children[n + 1..] == children[..n];
  }

  /** InternalNode.exchange: the key just after child `block` becomes `changeKey`; nothing
      changes when the block is not among the first |keys| children. */
  function Exchange(keys: seq<Key>, children: seq<int>, changeKey: Key, block: int): (r: seq<Key>)
    requires |children| == |keys| + 1
    ensures |r| == |keys|
    ensures forall j :: 0 <= j < |keys| && children[j] != block ==> r[j] == keys[j]
    ensures forall j :: 0 <= j < |keys| && children[j] == block && (forall a :: 0 <= a < j ==> children[a] != block) ==> r[j] == changeKey
  {
    match IndexOfChild(children[..|keys|], block)
    case None => keys
    case Some(i) => keys[i := changeKey]
  }

  /** InternalNode.union: the left node takes the key between the two and all of the right
      node's keys and children. */
  function JoinBranches(left: Node, middle: Key, right: Node): (r: Node)
    requires left.Internal? && right.Internal?
    ensures r.Internal? && r.parent == left.parent
    ensures |r.keys| == |left.keys| + 1 + |right.keys|
  {
    Internal(left.keys + [middle] + right.keys, left.children + right.children, left.parent)
  }

  /** InternalNode.rearrangeAfter: the node takes the parent's key between the two and the next
      sibling's first child; the sibling's first key goes up to the parent. The in-order run of
      keys and children across both nodes is unchanged. */
  function BorrowBranchFromNext(node: Node, middle: Key, sibling: Node): (r: (Node, Node, Key))
    requires node.Internal? && sibling.Internal? && |sibling.keys| >= 1 && |sibling.children| == |sibling.keys| + 1
    ensures r.0.Internal? && r.1.Internal?
    ensures r.0.keys + [r.2] + r.1.keys == node.keys + [middle] + sibling.keys
    ensures r.0.children + r.1.children == node.children + sibling.children
    ensures |r.0.keys| == |node.keys| + 1 && |r.1.keys| == |sibling.keys| - 1
  {
    var up := sibling.keys[0];
    assert sibling.keys == [up] + sibling.keys[1..];
    assert sibling.children == [sibling.children[0]] + sibling.children[1..];
    (node.(keys := node.keys + [middle], children := node.children + [sibling.children[0]]),
     sibling.(keys := sibling.keys[1..], children := sibling.children[1..]),
     up)
  }

  /** InternalNode.rearrangeBefore: the node takes the parent's key between the two and the
      previous sibling's last child; the sibling's last key goes up. */
  function BorrowBranchFromPrevious(node: Node, middle: Key, sibling: Node): (r: (Node, Node, Key))
    requires node.Internal? && sibling.Internal? && |sibling.keys| >= 1 && |sibling.children| == |sibling.keys| + 1
    ensures r.0.Internal? && r.1.Internal?
    ensures r.1.keys + [r.2] + r.0.keys == sibling.keys + [middle] + node.keys
    ensures r.1.children + r.0.children == sibling.children + node.children
    ensures |r.0.keys| == |node.keys| + 1 && |r.1.keys| == |sibling.keys| - 1
  {
    var m := |sibling.keys|;
    var up := sibling.keys[m - 1];
    assert sibling.keys == sibling.keys[..m - 1] + [up];
    assert sibling.children == sibling.children[..m] + [sibling.children[m]];
    (node.(keys := [middle] + node.keys, children := [sibling.children[m]] + node.children),
     sibling.(keys := sibling.keys[..m - 1], children := sibling.children[..m]),
     up)
  }

  /** Which sibling an underfull internal node turns to, with the parent's key between them. */
  datatype SiblingChoice = NextSibling(block: int, middle: Key) | PreviousSibling(block: int, middle: Key)

  /** The sibling search in InternalNode.delete(BufferNode): the next sibling when the node is
      among the first |keys| children of its parent, otherwise the child before the last. */
  function ChooseSibling(parentKeys: seq<Key>, parentChildren: seq<int>, block: int): (r: Result<SiblingChoice>)
    requires |parentChildren| == |parentKeys| + 1
    ensures r.Success? && r.value.NextSibling? ==> exists j :: 0 <= j < |parentKeys| && parentChildren[j] == block && parentChildren[j + 1] == r.value.block && parentKeys[j] == r.value.middle
    ensures r.Success? && r.value.PreviousSibling? ==>
      && block !in parentChildren[..|parentKeys|] && |parentKeys| >= 1
      && r.value.block == parentChildren[|parentKeys| - 1] && r.value.middle == parentKeys[|parentKeys| - 1]
    ensures r.Failure? <==> |parentKeys| == 0
  {
    if |parentKeys| == 0 then Failure(Corrupt)
    else match IndexOfChild(parentChildren[..|parentKeys|], block)
      case Some(j) => Success(NextSibling(parentChildren[j + 1], parentKeys[j]))
      case None => Success(PreviousSibling(parentChildren[|parentKeys| - 1], parentKeys[|parentKeys| - 1]))
  }
}
