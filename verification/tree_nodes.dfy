/** The B+ tree's nodes as values: a leaf holds (key, record locator) entries and a link to the
    next leaf; an internal node holds routing keys with one more child block than keys. Each
    node lives in one index block; block numbers refer to other nodes. */
module TreeNodes {
  import opened Wrappers
  import opened Keys

  /** The block number written as `'$'` (no parent) or `'&'` (no next leaf). */
  const NO_BLOCK: int := -1

  /** Where a record lives: its block in the table file and its offset in that block. */
  datatype Locator = Locator(blockOffset: int, offset: int)

  datatype Entry = Entry(key: Key, loc: Locator)

  datatype Node =
    | Leaf(entries: seq<Entry>, parent: int, next: int)
    | Internal(keys: seq<Key>, children: seq<int>, parent: int)

  /** Entries per leaf: a block of 4096 bytes less the type byte, the count, the parent and the
      next-leaf pointers, divided by an entry's 8 locator bytes plus the key. The same bound is
      used for the routing keys of an internal node. */
  function MaxFanout(columnLength: nat): int
  {
    (4096 - 1 - 4 - 4 - 4) / (8 + columnLength)
  }

  /** Half the maximum, rounded up. */
  function MinFanout(columnLength: nat): int
  {
    (MaxFanout(columnLength) + 1) / 2
  }

  /** Splitting MAX + 1 entries into MIN and MAX + 1 - MIN leaves both halves between the
      bounds, whenever a single entry fits in a block. */
  lemma FanoutBounds(columnLength: nat)
    requires 8 + columnLength <= 4083
    ensures 1 <= MinFanout(columnLength) <= MaxFanout(columnLength) + 1 - MinFanout(columnLength) <= MaxFanout(columnLength)
    ensures 2 * MinFanout(columnLength) - 1 <= MaxFanout(columnLength) <= 2 * MinFanout(columnLength)
  {
    var m := MaxFanout(columnLength);
    QuotientPositive(4083, 8 + columnLength);
    assert m >= 1;
  }

  lemma QuotientPositive(n: int, d: int)
    requires 0 < d <= n
    ensures n / d >= 1
  {
    var q := n / d;
    var r := n % d;
    assert q * d + r == n && r < d;
    assert q * d > 0;
  }

  function KeysOf(entries: seq<Entry>): (r: seq<Key>)
    ensures |r| == |entries|
    ensures forall i :: 0 <= i < |entries| ==> r[i] == entries[i].key
  {
    seq(|entries|, i requires 0 <= i < |entries| => entries[i].key)
  }

  /** Every key can be compared, and the keys strictly increase. */
  predicate Ascending(keyType: int, keys: seq<Key>)
  {
    && (forall i :: 0 <= i < |keys| ==> Fits(keyType, keys[i]))
    && (forall i, j :: 0 <= i < j < |keys| ==> Less(keyType, keys[i], keys[j]))
  }

  predicate SortedEntries(keyType: int, entries: seq<Entry>)
  {
    Ascending(keyType, KeysOf(entries))
  }

  /** The locator a leaf holds for a key: the reference meaning of every leaf operation. */
  function Lookup(entries: seq<Entry>, key: Key): (r: Option<Locator>)
    ensures r.Some? ==> exists i :: 0 <= i < |entries| && entries[i] == Entry(key, r.value)
    ensures r.None? <==> forall i :: 0 <= i < |entries| ==> entries[i].key != key
  {
    if |entries| == 0 then None
    else if entries[0].key == key then Some(entries[0].loc)
    else
      var rest := Lookup(entries[1..], key);
      assert forall i :: 1 <= i < |entries| ==> entries[i] == entries[1..][i - 1];
      rest
  }

  /** In a leaf with strictly increasing keys, each entry is the one its key finds. */
  lemma {:induction false} LookupAt(keyType: int, entries: seq<Entry>, i: nat)
    requires SortedEntries(keyType, entries)
    requires i < |entries|
    ensures Lookup(entries, entries[i].key) == Some(entries[i].loc)
  {
    if i > 0 {
      assert KeysOf(entries)[0] == entries[0].key && KeysOf(entries)[i] == entries[i].key;
      LessTotal(keyType, entries[0].key, entries[i].key);
      assert entries[0].key != entries[i].key;
      var rest := entries[1..];
      assert SortedEntries(keyType, rest) by {
        forall a, b | 0 <= a < b < |rest| ensures Less(keyType, KeysOf(rest)[a], KeysOf(rest)[b]) {
          assert KeysOf(rest)[a] == KeysOf(entries)[a + 1] && KeysOf(rest)[b] == KeysOf(entries)[b + 1];
        }
        forall a | 0 <= a < |rest| ensures Fits(keyType, KeysOf(rest)[a]) {
          assert KeysOf(rest)[a] == KeysOf(entries)[a + 1];
        }
      }
      LookupAt(keyType, rest, i - 1);
      assert rest[i - 1] == entries[i];
    }
  }

  /** The child a key descends to: the first routing key above it, or the last child. */
  function ChildIndex(keyType: int, keys: seq<Key>, key: Key): (i: nat)
    ensures i <= |keys|
    ensures forall j :: 0 <= j < i ==> !Less(keyType, key, keys[j])
    ensures i < |keys| ==> Less(keyType, key, keys[i])
  {
    ChildIndexFrom(keyType, keys, key, 0)
  }

  function ChildIndexFrom(keyType: int, keys: seq<Key>, key: Key, from: nat): (i: nat)
    requires from <= |keys|
    requires forall j :: 0 <= j < from ==> !Less(keyType, key, keys[j])
    ensures from <= i <= |keys|
    ensures forall j :: 0 <= j < i ==> !Less(keyType, key, keys[j])
    ensures i < |keys| ==> Less(keyType, key, keys[i])
    decreases |keys| - from
  {
    if from == |keys| || Less(keyType, key, keys[from]) then from
    else ChildIndexFrom(keyType, keys, key, from + 1)
  }

  /** On increasing keys the descent position is exactly the number of keys at or below the
      key: the keys before it are not above the key, the keys from it on are. */
  lemma ChildIndexSplitsKeys(keyType: int, keys: seq<Key>, key: Key)
    requires Ascending(keyType, keys) && Fits(keyType, key)
    ensures forall j :: ChildIndex(keyType, keys, key) <= j < |keys| ==> Less(keyType, key, keys[j])
  {
    var i := ChildIndex(keyType, keys, key);
    forall j | i < j < |keys| ensures Less(keyType, key, keys[j]) {
      LessTransitive(keyType, key, keys[i], keys[j]);
    }
  }

  /** A key placed between the keys below it and the keys above it keeps a sequence ascending. */
  lemma InsertKeepsAscending(keyType: int, keys: seq<Key>, i: nat, k: Key)
    requires Ascending(keyType, keys) && Fits(keyType, k) && i <= |keys|
    requires forall j :: 0 <= j < i ==> Less(keyType, keys[j], k)
    requires forall j :: i <= j < |keys| ==> Less(keyType, k, keys[j])
    ensures Ascending(keyType, keys[..i] + [k] + keys[i..])
  {
    var r := keys[..i] + [k] + keys[i..];
    assert forall a :: 0 <= a < i ==> r[a] == keys[a];
    assert r[i] == k;
    assert forall a :: i < a < |r| ==> r[a] == keys[a - 1];
  }

  /** A node whose shape the tree code can read. */
  predicate WellShaped(n: Node)
  {
    n.Internal? ==> |n.children| == |n.keys| + 1
  }
}
