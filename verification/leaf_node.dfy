/** Leaf nodes: putting an entry, splitting a full leaf, binary search, removing an entry, and
    the merge and borrow steps that refill a leaf that fell below the minimum. */
module LeafNode {
  import opened Wrappers
  import opened Keys
  import opened TreeNodes

  /** The slot the non-splitting insert stops at: the first entry whose key is not below the
      new key. */
  function InsertPosition(keyType: int, entries: seq<Entry>, key: Key): (i: nat)
    ensures i <= |entries|
    ensures forall j :: 0 <= j < i ==> Compare(keyType, key, entries[j].key) > 0
    ensures i < |entries| ==> Compare(keyType, key, entries[i].key) <= 0
  {
    InsertPositionFrom(keyType, entries, key, 0)
  }

  function InsertPositionFrom(keyType: int, entries: seq<Entry>, key: Key, from: nat): (i: nat)
    requires from <= |entries|
    requires forall j :: 0 <= j < from ==> Compare(keyType, key, entries[j].key) > 0
    ensures from <= i <= |entries|
    ensures forall j :: 0 <= j < i ==> Compare(keyType, key, entries[j].key) > 0
    ensures i < |entries| ==> Compare(keyType, key, entries[i].key) <= 0
    decreases |entries| - from
  {
    if from == |entries| || Compare(keyType, key, entries[from].key) <= 0 then from
    else InsertPositionFrom(keyType, entries, key, from + 1)
  }

  /** The insert into a leaf with room: an equal key has its locator replaced, otherwise the
      entry goes in front of the first larger key, or at the end. */
  function PutEntry(keyType: int, entries: seq<Entry>, e: Entry): seq<Entry>
  {
    var i := InsertPosition(keyType, entries, e.key);
    if i < |entries| && Compare(keyType, e.key, entries[i].key) == 0 then entries[i := e]
    else entries[..i] + [e] + entries[i..]
  }

  lemma KeysOfSplice(entries: seq<Entry>, i: nat, e: Entry)
    requires i <= |entries|
    ensures KeysOf(entries[..i] + [e] + entries[i..]) == KeysOf(entries)[..i] + [e.key] + KeysOf(entries)[i..]
  {
  }

  /** Membership is all Lookup depends on once keys are unique. */
  lemma LookupIsMembership(keyType: int, entries: seq<Entry>, k: Key, loc: Locator)
    requires SortedEntries(keyType, entries)
    ensures Lookup(entries, k) == Some(loc) <==> Entry(k, loc) in entries
  {
    if Entry(k, loc) in entries {
      var i :| 0 <= i < |entries| && entries[i] == Entry(k, loc);
      LookupAt(keyType, entries, i);
    }
  }

  /** Two leaves with unique keys that hold the same entries for a key look it up alike. */
  lemma LookupAgrees(keyType: int, a: seq<Entry>, b: seq<Entry>, k: Key)
    requires SortedEntries(keyType, a) && SortedEntries(keyType, b)
    requires forall loc :: Entry(k, loc) in a <==> Entry(k, loc) in b
    ensures Lookup(a, k) == Lookup(b, k)
  {
    if Lookup(a, k).Some? {
      LookupIsMembership(keyType, a, k, Lookup(a, k).value);
      LookupIsMembership(keyType, b, k, Lookup(a, k).value);
    } else if Lookup(b, k).Some? {
      LookupIsMembership(keyType, a, k, Lookup(b, k).value);
      LookupIsMembership(keyType, b, k, Lookup(b, k).value);
    }
  }

  /** What a put means: the leaf stays sorted, the key now finds the new locator, every other
      key finds what it found before, and the leaf grows by one exactly when the key was new. */
  lemma PutEntryMeaning(keyType: int, entries: seq<Entry>, e: Entry)
    requires SortedEntries(keyType, entries) && Fits(keyType, e.key)
    ensures SortedEntries(keyType, PutEntry(keyType, entries, e))
    ensures Lookup(PutEntry(keyType, entries, e), e.key) == Some(e.loc)
    ensures forall k :: k != e.key ==> Lookup(PutEntry(keyType, entries, e), k) == Lookup(entries, k)
    ensures |PutEntry(keyType, entries, e)| == |entries| + (if Lookup(entries, e.key).Some? then 0 else 1)
  {
    var r := PutEntry(keyType, entries, e);
    var i := InsertPosition(keyType, entries, e.key);
    forall j | 0 <= j < i ensures Less(keyType, entries[j].key, e.key) {
      assert KeysOf(entries)[j] == entries[j].key;
      CompareAntisymmetric(keyType, entries[j].key, e.key);
    }
    if i < |entries| && Compare(keyType, e.key, entries[i].key) == 0 {
      assert KeysOf(entries)[i] == entries[i].key;
      CompareZeroIffEqual(keyType, e.key, entries[i].key);
      assert KeysOf(r) == KeysOf(entries);
      assert Lookup(entries, e.key).Some?;
      ReplaceKeepsOthers(keyType, entries, i, e);
    } else {
      if i < |entries| {
        assert KeysOf(entries)[i] == entries[i].key;
        CompareZeroIffEqual(keyType, e.key, entries[i].key);
      }
      InsertNewKeepsOthers(keyType, entries, i, e);
    }
  }

  /** What the non-splitting insert as written leaves in a leaf: the entries its count covers,
      and whether the next-leaf pointer after them survived. */
  datatype LeafPut = LeafPut(entries: seq<Entry>, linkKept: bool)

  /** The non-splitting insert as written. The count is raised before the scan, so the scan also
      compares the key bytes of the slot just past the last entry, which still hold the key that
      last lived there (`stale`). A key above every entry and equal to that stale key is taken
      as present: its entry is written over that slot, where the next-leaf pointer lies, and the
      count is not raised. An empty leaf takes the entry without a scan. */
  function PutEntryAsWritten(keyType: int, entries: seq<Entry>, e: Entry, stale: Key): (r: LeafPut)
    ensures |entries| == 0 ==> r == LeafPut([e], true)
    ensures |entries| > 0 && InsertPosition(keyType, entries, e.key) == |entries| ==>
      r == (if Compare(keyType, e.key, stale) == 0 then LeafPut(entries, false) else LeafPut(entries + [e], true))
  {
    var i := InsertPosition(keyType, entries, e.key);
    if |entries| == 0 then LeafPut([e], true)
    else if i < |entries| then LeafPut(PutEntry(keyType, entries, e), true)
    else if Compare(keyType, e.key, stale) == 0 then LeafPut(entries, false)
    else LeafPut(entries + [e], true)
  }

  /** The insert as written is the intended one whenever the stale key is not the new key. */
  lemma PutEntryAsWrittenAgrees(keyType: int, entries: seq<Entry>, e: Entry, stale: Key)
    requires stale != e.key
    ensures PutEntryAsWritten(keyType, entries, e, stale) == LeafPut(PutEntry(keyType, entries, e), true)
  {
    var i := InsertPosition(keyType, entries, e.key);
    CompareZeroMeansEqual(keyType, e.key, stale);
    if i == |entries| {
      assert entries[..i] + [e] + entries[i..] == entries + [e];
    }
  }

  /** Deleting a leaf's last entry leaves its key in the slot past the new count. Putting the
      same key back, as written, finds that stale key, writes the entry over the next-leaf
      pointer and keeps the count: the key stays absent. The intended insert restores the
      leaf. */
  lemma DeleteLastThenPutAsWritten(keyType: int, entries: seq<Entry>)
    requires SortedEntries(keyType, entries) && |entries| >= 2
    ensures var last := entries[|entries| - 1];
      var rest := entries[..|entries| - 1];
      var r := PutEntryAsWritten(keyType, rest, last, last.key);
      && r.entries == rest && !r.linkKept
      && Lookup(r.entries, last.key).None?
      && PutEntry(keyType, rest, last) == entries
  {
    var n := |entries|;
    var last := entries[n - 1];
    var rest := entries[..n - 1];
    forall j | 0 <= j < |rest| ensures Compare(keyType, last.key, rest[j].key) > 0 {
      assert KeysOf(entries)[j] == rest[j].key && KeysOf(entries)[n - 1] == last.key;
      CompareAntisymmetric(keyType, rest[j].key, last.key);
    }
    var i := InsertPosition(keyType, rest, last.key);
    assert i == |rest|;
    CompareZeroIffEqual(keyType, last.key, last.key);
    forall j | 0 <= j < |rest| ensures rest[j].key != last.key {
      assert KeysOf(entries)[j] == rest[j].key && KeysOf(entries)[n - 1] == last.key;
      LessTotal(keyType, rest[j].key, last.key);
    }
    assert rest[..i] + [last] + rest[i..] == entries;
  }

  lemma InsertNewKeepsOthers(keyType: int, entries: seq<Entry>, i: nat, e: Entry)
    requires SortedEntries(keyType, entries) && Fits(keyType, e.key) && i <= |entries|
    requires forall j :: 0 <= j < i ==> Less(keyType, entries[j].key, e.key)
    requires i < |entries| ==> Less(keyType, e.key, entries[i].key)
    ensures SortedEntries(keyType, entries[..i] + [e] + entries[i..])
    ensures Lookup(entries, e.key).None?
    ensures Lookup(entries[..i] + [e] + entries[i..], e.key) == Some(e.loc)
    ensures forall k :: k != e.key ==> Lookup(entries[..i] + [e] + entries[i..], k) == Lookup(entries, k)
  {
    var r := entries[..i] + [e] + entries[i..];
    InsertNewSorted(keyType, entries, i, e);
    assert r[i] == e;
    LookupAt(keyType, r, i);
    SpliceMembers(entries, i, e);
    forall k | k != e.key ensures Lookup(r, k) == Lookup(entries, k) {
      SameMembersOtherKey(keyType, r, entries, e, k);
    }
  }

  lemma SpliceMembers(entries: seq<Entry>, i: nat, e: Entry)
    requires i <= |entries|
    ensures forall x :: x in entries[..i] + [e] + entries[i..] <==> x in entries || x == e
  {
    assert entries == entries[..i] + entries[i..];
  }

  lemma SameMembersOtherKey(keyType: int, r: seq<Entry>, entries: seq<Entry>, e: Entry, k: Key)
    requires SortedEntries(keyType, r) && SortedEntries(keyType, entries)
    requires forall x :: x in r <==> x in entries || x == e
    requires k != e.key
    ensures Lookup(r, k) == Lookup(entries, k)
  {
    forall loc ensures Entry(k, loc) in r <==> Entry(k, loc) in entries {
      assert Entry(k, loc) != e;
    }
    LookupAgrees(keyType, r, entries, k);
  }

  lemma InsertNewSorted(keyType: int, entries: seq<Entry>, i: nat, e: Entry)
    requires SortedEntries(keyType, entries) && Fits(keyType, e.key) && i <= |entries|
    requires forall j :: 0 <= j < i ==> Less(keyType, entries[j].key, e.key)
    requires i < |entries| ==> Less(keyType, e.key, entries[i].key)
    ensures SortedEntries(keyType, entries[..i] + [e] + entries[i..])
    ensures forall j :: 0 <= j < |entries| ==> entries[j].key != e.key
  {
    var keys := KeysOf(entries);
    forall j | i < j < |entries| ensures Less(keyType, e.key, keys[j]) {
      LessTransitive(keyType, e.key, keys[i], keys[j]);
    }
    forall j | 0 <= j < |entries| ensures keys[j] != e.key {
      LessTotal(keyType, keys[j], e.key);
    }
    KeysOfSplice(entries, i, e);
    InsertKeepsAscending(keyType, keys, i, e.key);
  }

  lemma ReplaceKeepsOthers(keyType: int, entries: seq<Entry>, i: nat, e: Entry)
    requires SortedEntries(keyType, entries) && i < |entries| && entries[i].key == e.key
    requires SortedEntries(keyType, entries[i := e])
    ensures Lookup(entries[i := e], e.key) == Some(e.loc)
    ensures forall k :: k != e.key ==> Lookup(entries[i := e], k) == Lookup(entries, k)
  {
    var r := entries[i := e];
    LookupAt(keyType, r, i);
    forall k | k != e.key ensures Lookup(r, k) == Lookup(entries, k) {
      forall loc ensures Entry(k, loc) in r <==> Entry(k, loc) in entries {
        if Entry(k, loc) in entries {
          var j :| 0 <= j < |entries| && entries[j] == Entry(k, loc);
          assert j != i && r[j] == Entry(k, loc);
        }
        if Entry(k, loc) in r {
          var j :| 0 <= j < |r| && r[j] == Entry(k, loc);
          assert j != i && entries[j] == Entry(k, loc);
        }
      }
      LookupAgrees(keyType, r, entries, k);
    }
  }

  /** What inserting into a leaf yields: the leaf itself, or two halves for the leaf and its new
      right sibling. */
  datatype LeafOutcome = Fitted(entries: seq<Entry>) | Split(left: seq<Entry>, right: seq<Entry>)

  /** The first entry in [from, bound) whose key is above `key`, or `bound`. */
  function FirstAbove(keyType: int, entries: seq<Entry>, key: Key, from: nat, bound: nat): (i: nat)
    requires from <= bound <= |entries|
    ensures from <= i <= bound
    ensures forall j :: from <= j < i ==> !Less(keyType, key, entries[j].key)
    ensures i < bound ==> Less(keyType, key, entries[i].key)
    decreases bound - from
  {
    if from == bound || Less(keyType, key, entries[from].key) then from
    else FirstAbove(keyType, entries, key, from + 1, bound)
  }

  /** LeafNode.insert as written. A full leaf always splits, even when the key is already there. */
  function LeafInsertAsWritten(keyType: int, entries: seq<Entry>, e: Entry, min: int, max: int): (r: LeafOutcome)
    requires 1 <= min <= max && |entries| <= max
    ensures r.Split? <==> |entries| == max
  {
    if |entries| + 1 > max then LeafSplitAsWritten(keyType, entries, e, min)
    else Fitted(PutEntry(keyType, entries, e))
  }

  /** The written split of a full leaf: the search for a slot in the kept half only looks at the
      first MIN - 1 entries; when it finds none the new leaf gets the entries from MIN on, with
      the new entry placed among them. */
  function LeafSplitAsWritten(keyType: int, entries: seq<Entry>, e: Entry, min: int): (r: LeafOutcome)
    requires 1 <= min <= |entries|
    ensures r.Split? && |r.left| == min && |r.right| == |entries| + 1 - min
  {
    var h := FirstAbove(keyType, entries, e.key, 0, min - 1);
    if h < min - 1 then Split(entries[..h] + [e] + entries[h..min - 1], entries[min - 1..])
    else
      var tail := entries[min..];
      var j := FirstAbove(keyType, tail, e.key, 0, |tail|);
      Split(entries[..min], tail[..j] + [e] + tail[j..])
  }

  /** Splicing an entry into a sequence adds exactly that entry. */
  lemma SpliceMultiset(s: seq<Entry>, i: nat, e: Entry)
    requires i <= |s|
    ensures multiset(s[..i] + [e] + s[i..]) == multiset(s) + multiset{e}
  {
    assert s == s[..i] + s[i..];
  }

  /** An entry spliced at `g` and the sequence cut at `k`: below `g` the cut halves are the
      spliced prefix and the rest of the old entries; from `g` on the entry lands in the right
      half. */
  lemma SpliceCutAbove(s: seq<Entry>, g: nat, e: Entry, k: nat)
    requires g < k <= |s|
    ensures (s[..g] + [e] + s[g..])[..k] == s[..g] + [e] + s[g..k - 1]
    ensures (s[..g] + [e] + s[g..])[k..] == s[k - 1..]
  {
    var all := s[..g] + [e] + s[g..];
    assert forall i :: 0 <= i < g ==> all[i] == s[i];
    assert all[g] == e;
    assert forall i :: g < i < |all| ==> all[i] == s[i - 1];
  }

  lemma SpliceCutBelow(s: seq<Entry>, g: nat, e: Entry, k: nat)
    requires k <= g <= |s|
    ensures (s[..g] + [e] + s[g..])[..k] == s[..k]
    ensures (s[..g] + [e] + s[g..])[k..] == s[k..][..g - k] + [e] + s[k..][g - k..]
  {
    var all := s[..g] + [e] + s[g..];
    var t := s[k..];
    assert forall i :: 0 <= i < g ==> all[i] == s[i];
    assert all[g] == e;
    assert forall i :: g < i < |all| ==> all[i] == s[i - 1];
    assert forall i :: 0 <= i < |t| ==> t[i] == s[k + i];
  }

  /** The written split cuts, at MIN, the old entries with the new one spliced in at the
      place one of its two scans stops. */
  lemma LeafSplitAsWrittenCuts(keyType: int, entries: seq<Entry>, e: Entry, min: int) returns (g: nat)
    requires 1 <= min <= |entries|
    ensures g <= |entries|
    ensures var all := entries[..g] + [e] + entries[g..];
      LeafSplitAsWritten(keyType, entries, e, min) == Split(all[..min], all[min..])
  {
    var h := FirstAbove(keyType, entries, e.key, 0, min - 1);
    if h < min - 1 {
      g := h;
      SpliceCutAbove(entries, g, e, min);
    } else {
      var tail := entries[min..];
      var j := FirstAbove(keyType, tail, e.key, 0, |tail|);
      g := min + j;
      SpliceCutBelow(entries, g, e, min);
    }
  }

  /** The written split loses nothing: the two halves hold the old entries and the new one. */
  lemma LeafSplitAsWrittenKeepsAll(keyType: int, entries: seq<Entry>, e: Entry, min: int)
    requires 1 <= min <= |entries|
    ensures var r := LeafSplitAsWritten(keyType, entries, e, min);
      multiset(r.left + r.right) == multiset(entries) + multiset{e}
  {
    var g := LeafSplitAsWrittenCuts(keyType, entries, e, min);
    var all := entries[..g] + [e] + entries[g..];
    assert all[..min] + all[min..] == all;
    SpliceMultiset(entries, g, e);
  }

  /** A new key that belongs between the (MIN-1)-th and MIN-th entries of a full leaf goes to the
      front of the new leaf while the larger MIN-th entry stays behind: the separator handed to
      the parent is smaller than a key left of it. */
  lemma LeafInsertAsWrittenMisorders(keyType: int, entries: seq<Entry>, e: Entry, min: int, max: int)
    requires SortedEntries(keyType, entries) && Fits(keyType, e.key)
    requires 2 <= min <= max && |entries| == max
    requires Less(keyType, entries[min - 2].key, e.key) && Less(keyType, e.key, entries[min - 1].key)
    ensures var r := LeafSplitAsWritten(keyType, entries, e, min);
      r.right[0] == e && Less(keyType, r.right[0].key, r.left[min - 1].key)
  {
    forall j | 0 <= j < min - 1 ensures !Less(keyType, e.key, entries[j].key) {
      assert KeysOf(entries)[j] == entries[j].key && KeysOf(entries)[min - 2] == entries[min - 2].key;
      if j < min - 2 {
        LessTransitive(keyType, entries[j].key, entries[min - 2].key, e.key);
      }
      LessTotal(keyType, entries[j].key, e.key);
    }
    assert FirstAbove(keyType, entries, e.key, 0, min - 1) == min - 1;
    var tail := entries[min..];
    if |tail| > 0 {
      assert KeysOf(entries)[min - 1] == entries[min - 1].key && KeysOf(entries)[min] == entries[min].key;
      LessTransitive(keyType, e.key, entries[min - 1].key, entries[min].key);
    }
    assert FirstAbove(keyType, tail, e.key, 0, |tail|) == 0;
  }

  /** A full leaf that already holds the key splits and keeps both the old entry and the new one,
      so the key is now held twice. */
  lemma LeafInsertAsWrittenDuplicates(keyType: int, entries: seq<Entry>, e: Entry, p: nat, min: int, max: int)
    requires 1 <= min <= max && |entries| == max
    requires p < |entries| && entries[p].key == e.key && entries[p] != e
    ensures LeafInsertAsWritten(keyType, entries, e, min, max).Split?
    ensures var r := LeafSplitAsWritten(keyType, entries, e, min);
      entries[p] in r.left + r.right && e in r.left + r.right
  {
    LeafSplitAsWrittenKeepsAll(keyType, entries, e, min);
    var r := LeafSplitAsWritten(keyType, entries, e, min);
    assert entries[p] in multiset(entries);
    assert entries[p] in multiset(r.left + r.right);
    assert e in multiset(r.left + r.right);
  }

  /** LeafNode.insert corrected: the entry is put first, and only a leaf that then holds more
      than MAX entries splits, keeping MIN entries and moving the rest to the new leaf. */
  function LeafInsert(keyType: int, entries: seq<Entry>, e: Entry, min: nat, max: nat): (r: LeafOutcome)
    requires min <= max
    ensures r.Split? <==> |PutEntry(keyType, entries, e)| > max
  {
    var all := PutEntry(keyType, entries, e);
    if |all| <= max then Fitted(all) else Split(all[..min], all[min..])
  }

  /** The corrected insert keeps the leaf's meaning: the halves together hold the put entries in
      order, each half is sorted, the separator (the right half's first key) is above every key
      of the left half, and a leaf that already held the key never splits. */
  lemma LeafInsertMeaning(keyType: int, entries: seq<Entry>, e: Entry, min: nat, max: nat)
    requires SortedEntries(keyType, entries) && Fits(keyType, e.key)
    requires 1 <= min <= max && |entries| <= max
    ensures var r := LeafInsert(keyType, entries, e, min, max);
      && (r.Fitted? ==> SortedEntries(keyType, r.entries) && Lookup(r.entries, e.key) == Some(e.loc))
      && (r.Split? ==>
        && Lookup(entries, e.key).None? && |entries| == max
        && r.left + r.right == PutEntry(keyType, entries, e)
        && |r.left| == min && |r.right| == max + 1 - min
        && SortedEntries(keyType, r.left) && SortedEntries(keyType, r.right)
        && forall i :: 0 <= i < min ==> Less(keyType, r.left[i].key, r.right[0].key))
  {
    PutEntryMeaning(keyType, entries, e);
    var all := PutEntry(keyType, entries, e);
    if |all| > max {
      SplitHalves(keyType, all, min);
    }
  }

  /** Cutting sorted entries in two gives sorted halves with every left key below the right
      half's first key. */
  lemma SplitHalves(keyType: int, all: seq<Entry>, min: nat)
    requires SortedEntries(keyType, all) && min < |all|
    ensures all[..min] + all[min..] == all
    ensures SortedEntries(keyType, all[..min]) && SortedEntries(keyType, all[min..])
    ensures forall i :: 0 <= i < min ==> Less(keyType, all[..min][i].key, all[min..][0].key)
  {
    SortedSlice(keyType, all, 0, min);
    SortedSlice(keyType, all, min, |all|);
    assert all[..min] == all[0..min] && all[min..] == all[min..|all|];
    forall i | 0 <= i < min ensures Less(keyType, all[..min][i].key, all[min..][0].key) {
      assert KeysOf(all)[i] == all[i].key && KeysOf(all)[min] == all[min].key;
    }
  }

  lemma SortedSlice(keyType: int, entries: seq<Entry>, lo: nat, hi: nat)
    requires SortedEntries(keyType, entries) && lo <= hi <= |entries|
    ensures SortedEntries(keyType, entries[lo..hi])
  {
    var s := entries[lo..hi];
    assert forall i :: 0 <= i < |s| ==> KeysOf(s)[i] == KeysOf(entries)[lo + i];
  }

  /** The bug-for-bug and the corrected insert agree on a full leaf that does not hold the key,
      except when the key's place is just before the MIN-th entry. */
  lemma LeafInsertAsWrittenElsewhereAgrees(keyType: int, entries: seq<Entry>, e: Entry, min: nat, max: nat)
    requires SortedEntries(keyType, entries) && Fits(keyType, e.key)
    requires 1 <= min <= max && |entries| == max && Lookup(entries, e.key).None?
    requires InsertPosition(keyType, entries, e.key) != min - 1
    ensures LeafInsertAsWritten(keyType, entries, e, min, max) == LeafInsert(keyType, entries, e, min, max)
  {
    var g := PutAbsent(keyType, entries, e);
    if g < min - 1 {
      AgreesInKeptHalf(keyType, entries, e, min, g, PutEntry(keyType, entries, e));
    } else {
      AgreesInNewLeaf(keyType, entries, e, min, g, PutEntry(keyType, entries, e));
    }
  }

  lemma AgreesInKeptHalf(keyType: int, entries: seq<Entry>, e: Entry, min: nat, g: nat, all: seq<Entry>)
    requires 1 <= min <= |entries| && g < min - 1
    requires all == entries[..g] + [e] + entries[g..]
    requires forall j :: 0 <= j < g ==> !Less(keyType, e.key, entries[j].key)
    requires Less(keyType, e.key, entries[g].key)
    ensures LeafSplitAsWritten(keyType, entries, e, min) == Split(all[..min], all[min..])
  {
    assert FirstAbove(keyType, entries, e.key, 0, min - 1) == g;
    SpliceCutAbove(entries, g, e, min);
  }

  /** Putting a key the leaf does not hold inserts it at its position, and the position is where
      the written scans for a larger key stop. */
  lemma PutAbsent(keyType: int, entries: seq<Entry>, e: Entry) returns (g: nat)
    requires SortedEntries(keyType, entries) && Fits(keyType, e.key) && Lookup(entries, e.key).None?
    ensures g == InsertPosition(keyType, entries, e.key)
    ensures PutEntry(keyType, entries, e) == entries[..g] + [e] + entries[g..]
    ensures forall j :: 0 <= j < g ==> !Less(keyType, e.key, entries[j].key)
    ensures g < |entries| ==> Less(keyType, e.key, entries[g].key)
  {
    g := InsertPosition(keyType, entries, e.key);
    forall j | 0 <= j < g ensures !Less(keyType, e.key, entries[j].key) {
      assert Compare(keyType, e.key, entries[j].key) > 0;
    }
    if g < |entries| {
      assert KeysOf(entries)[g] == entries[g].key;
      CompareZeroIffEqual(keyType, e.key, entries[g].key);
    }
  }

  lemma AgreesInNewLeaf(keyType: int, entries: seq<Entry>, e: Entry, min: nat, g: nat, all: seq<Entry>)
    requires 1 <= min <= |entries| && min <= g <= |entries|
    requires all == entries[..g] + [e] + entries[g..]
    requires forall j :: 0 <= j < g ==> !Less(keyType, e.key, entries[j].key)
    requires g < |entries| ==> Less(keyType, e.key, entries[g].key)
    ensures LeafSplitAsWritten(keyType, entries, e, min) == Split(all[..min], all[min..])
  {
    assert FirstAbove(keyType, entries, e.key, 0, min - 1) == min - 1;
    var tail := entries[min..];
    forall j | 0 <= j < g - min ensures !Less(keyType, e.key, tail[j].key) {
      assert tail[j] == entries[min + j];
    }
    if g < |entries| {
      assert tail[g - min] == entries[g];
    }
    assert FirstAbove(keyType, tail, e.key, 0, |tail|) == g - min;
    SpliceCutBelow(entries, g, e, min);
  }

  /** LeafNode.searchKey: a binary search over the leaf's keys, then a check that the probed
      entry holds the key. On a sorted leaf it finds exactly what the leaf holds. */
  method LeafSearch(keyType: int, entries: seq<Entry>, key: Key) returns (r: Option<Locator>)
    requires SortedEntries(keyType, entries) && Fits(keyType, key)
    ensures r == Lookup(entries, key)
  {
    if |entries| == 0 {
      return None;
    }
    var keys := KeysOf(entries);
    var start, end, middle := 0, |entries| - 1, 0;
    var found := false;
    while start <= end && !found
      invariant 0 <= start <= |entries| && -1 <= end < |entries| && 0 <= middle < |entries|
      invariant forall i :: 0 <= i < start ==> Less(keyType, keys[i], key)
      invariant forall i :: end < i < |entries| ==> Less(keyType, key, keys[i])
      invariant found ==> Compare(keyType, key, keys[middle]) == 0
      decreases end - start + (if found then 0 else 1)
    {
      middle := (start + end) / 2;
      var c := Compare(keyType, key, keys[middle]);
      if c == 0 {
        found := true;
      } else if c < 0 {
        forall i | middle <= i < |entries| ensures Less(keyType, key, keys[i]) {
          if i > middle {
            LessTransitive(keyType, key, keys[middle], keys[i]);
          }
        }
        end := middle - 1;
      } else {
        CompareAntisymmetric(keyType, keys[middle], key);
        forall i | 0 <= i <= middle ensures Less(keyType, keys[i], key) {
          if i < middle {
            LessTransitive(keyType, keys[i], keys[middle], key);
          }
        }
        start := middle + 1;
      }
    }
    CompareZeroIffEqual(keyType, keys[middle], key);
    CompareZeroIffEqual(keyType, key, keys[middle]);
    if Compare(keyType, keys[middle], key) == 0 {
      LookupAt(keyType, entries, middle);
      r := Some(entries[middle].loc);
    } else {
      forall i | 0 <= i < |entries| ensures keys[i] != key {
        LessTotal(keyType, keys[i], key);
      }
      r := None;
    }
  }

  /** The scan LeafNode.delete makes: it stops at the first key above the one sought (absent)
      or at an equal key (found). */
  function FindEntry(keyType: int, entries: seq<Entry>, key: Key): (r: Option<nat>)
    ensures r.Some? ==> r.value < |entries| && Compare(keyType, key, entries[r.value].key) == 0
  {
    FindEntryFrom(keyType, entries, key, 0)
  }

  function FindEntryFrom(keyType: int, entries: seq<Entry>, key: Key, from: nat): (r: Option<nat>)
    requires from <= |entries|
    ensures r.Some? ==> from <= r.value < |entries| && Compare(keyType, key, entries[r.value].key) == 0
    ensures r.None? ==> forall j :: from <= j < |entries| && (forall i :: from <= i < j ==> !Less(keyType, key, entries[i].key)) ==> Compare(keyType, key, entries[j].key) != 0
    decreases |entries| - from
  {
    if from == |entries| then None
    else if Less(keyType, key, entries[from].key) then None
    else if Compare(keyType, key, entries[from].key) == 0 then Some(from)
    else FindEntryFrom(keyType, entries, key, from + 1)
  }

  /** On a sorted leaf the scan finds the key exactly when the leaf holds it. */
  lemma FindEntryMeaning(keyType: int, entries: seq<Entry>, key: Key)
    requires SortedEntries(keyType, entries) && Fits(keyType, key)
    ensures FindEntry(keyType, entries, key).Some? <==> Lookup(entries, key).Some?
    ensures FindEntry(keyType, entries, key).Some? ==> entries[FindEntry(keyType, entries, key).value].key == key
  {
    var keys := KeysOf(entries);
    var r := FindEntry(keyType, entries, key);
    if r.Some? {
      CompareZeroIffEqual(keyType, key, keys[r.value]);
    } else if Lookup(entries, key).Some? {
      var p :| 0 <= p < |entries| && entries[p].key == key;
      forall i | 0 <= i < p ensures !Less(keyType, key, keys[i]) {
        LessTotal(keyType, keys[i], keys[p]);
      }
      CompareZeroIffEqual(keyType, key, keys[p]);
      assert false;
    }
  }

  /** Removing the i-th entry keeps the leaf sorted, loses that entry's key and nothing else. */
  lemma RemoveEntryMeaning(keyType: int, entries: seq<Entry>, i: nat)
    requires SortedEntries(keyType, entries) && i < |entries|
    ensures SortedEntries(keyType, entries[..i] + entries[i + 1..])
    ensures Lookup(entries[..i] + entries[i + 1..], entries[i].key).None?
    ensures forall k :: k != entries[i].key ==> Lookup(entries[..i] + entries[i + 1..], k) == Lookup(entries, k)
  {
    var r := entries[..i] + entries[i + 1..];
    RemoveEntrySorted(keyType, entries, i);
    forall k | k != entries[i].key ensures Lookup(r, k) == Lookup(entries, k) {
      OtherKeyAfterRemoval(keyType, r, entries, entries[i].key, k);
    }
  }

  lemma OtherKeyAfterRemoval(keyType: int, r: seq<Entry>, entries: seq<Entry>, dropped: Key, k: Key)
    requires SortedEntries(keyType, r) && SortedEntries(keyType, entries)
    requires forall x :: x in r <==> x in entries && x.key != dropped
    requires k != dropped
    ensures Lookup(r, k) == Lookup(entries, k)
  {
    forall loc ensures Entry(k, loc) in r <==> Entry(k, loc) in entries {
    }
    LookupAgrees(keyType, r, entries, k);
  }

  lemma RemoveEntrySorted(keyType: int, entries: seq<Entry>, i: nat)
    requires SortedEntries(keyType, entries) && i < |entries|
    ensures SortedEntries(keyType, entries[..i] + entries[i + 1..])
    ensures forall x :: x in entries[..i] + entries[i + 1..] <==> x in entries && x.key != entries[i].key
  {
    var r := entries[..i] + entries[i + 1..];
    var keys := KeysOf(entries);
    assert forall a :: 0 <= a < |r| ==> r[a] == entries[if a < i then a else a + 1];
    forall a | 0 <= a < |r| ensures r[a].key != entries[i].key {
      var b := if a < i then a else a + 1;
      LessTotal(keyType, keys[b], keys[i]);
    }
    forall x | x in entries && x.key != entries[i].key ensures x in r {
      var j :| 0 <= j < |entries| && entries[j] == x;
      assert r[if j < i then j else j - 1] == x;
    }
  }

  /** Entries of the left leaf all below those of the right leaf. */
  predicate Precedes(keyType: int, left: seq<Entry>, right: seq<Entry>)
  {
    forall i, j :: 0 <= i < |left| && 0 <= j < |right| ==> Less(keyType, left[i].key, right[j].key)
  }

  /** Keys below all of another leaf's stay below after either side loses entries. */
  lemma PrecedesSubsets(keyType: int, left: seq<Entry>, right: seq<Entry>, left2: seq<Entry>, right2: seq<Entry>)
    requires Precedes(keyType, left, right)
    requires forall x :: x in left2 ==> x in left
    requires forall x :: x in right2 ==> x in right
    ensures Precedes(keyType, left2, right2)
  {
    forall i, j | 0 <= i < |left2| && 0 <= j < |right2|
      ensures Less(keyType, left2[i].key, right2[j].key)
    {
      assert left2[i] in left && right2[j] in right;
    }
  }

  /** LeafNode.union: the left leaf takes the right leaf's entries after its own and its
      successor link. */
  function MergeLeaves(left: Node, right: Node): (r: Node)
    requires left.Leaf? && right.Leaf?
    ensures r.Leaf? && r.parent == left.parent && r.next == right.next
    ensures |r.entries| == |left.entries| + |right.entries|
  {
    Leaf(left.entries + right.entries, left.parent, right.next)
  }

  /** Merging two sorted neighbours keeps the keys sorted, and a key finds in the merged leaf what
      it found in whichever of the two held it. */
  lemma MergeLeavesMeaning(keyType: int, left: Node, right: Node)
    requires left.Leaf? && right.Leaf?
    requires SortedEntries(keyType, left.entries) && SortedEntries(keyType, right.entries)
    requires Precedes(keyType, left.entries, right.entries)
    ensures SortedEntries(keyType, MergeLeaves(left, right).entries)
    ensures forall k :: Lookup(MergeLeaves(left, right).entries, k) == (if Lookup(left.entries, k).Some? then Lookup(left.entries, k) else Lookup(right.entries, k))
  {
    var m := left.entries + right.entries;
    var n := |left.entries|;
    assert forall a :: 0 <= a < |m| ==> KeysOf(m)[a] == (if a < n then KeysOf(left.entries)[a] else KeysOf(right.entries)[a - n]);
    forall a, b | 0 <= a < b < |m| ensures Less(keyType, KeysOf(m)[a], KeysOf(m)[b]) {
      if a < n && b >= n {
        assert Less(keyType, left.entries[a].key, right.entries[b - n].key);
      }
    }
    forall k ensures Lookup(m, k) == if Lookup(left.entries, k).Some? then Lookup(left.entries, k) else Lookup(right.entries, k) {
      LookupOfJoin(keyType, left.entries, right.entries, k);
    }
  }

  lemma LookupOfJoin(keyType: int, a: seq<Entry>, b: seq<Entry>, k: Key)
    requires SortedEntries(keyType, a + b) && SortedEntries(keyType, a) && SortedEntries(keyType, b)
    ensures Lookup(a + b, k) == if Lookup(a, k).Some? then Lookup(a, k) else Lookup(b, k)
  {
    if Lookup(a, k).Some? {
      LookupIsMembership(keyType, a, k, Lookup(a, k).value);
      LookupIsMembership(keyType, a + b, k, Lookup(a, k).value);
    } else if Lookup(b, k).Some? {
      LookupIsMembership(keyType, b, k, Lookup(b, k).value);
      LookupIsMembership(keyType, a + b, k, Lookup(b, k).value);
    } else {
      assert forall x :: x in a + b ==> x in a || x in b;
    }
  }

  /** LeafNode.rearrangeAfter: the leaf takes the first entry of its next sibling. The returned
      key, the sibling's new first key, becomes the parent's separator between them. */
  function BorrowFromNext(node: Node, sibling: Node, siblingBlock: int): (r: (Node, Node, Key))
    requires node.Leaf? && sibling.Leaf? && |sibling.entries| >= 2
    ensures r.0.Leaf? && r.1.Leaf? && r.0.next == siblingBlock
    ensures r.0.entries + r.1.entries == node.entries + sibling.entries
    ensures |r.0.entries| == |node.entries| + 1 && r.2 == r.1.entries[0].key
  {
    var moved := sibling.entries[0];
    var rest := sibling.entries[1..];
    assert node.entries + sibling.entries == (node.entries + [moved]) + rest;
    (node.(entries := node.entries + [moved], next := siblingBlock), sibling.(entries := rest), rest[0].key)
  }

  /** LeafNode.rearrangeBefore: the leaf takes the last entry of its previous sibling, which now
      links to the leaf. The returned key, the leaf's new first key, becomes the separator. */
  function BorrowFromPrevious(node: Node, nodeBlock: int, sibling: Node): (r: (Node, Node, Key))
    requires node.Leaf? && sibling.Leaf? && |sibling.entries| >= 1
    ensures r.0.Leaf? && r.1.Leaf? && r.1.next == nodeBlock
    ensures r.1.entries + r.0.entries == sibling.entries + node.entries
    ensures |r.0.entries| == |node.entries| + 1 && r.2 == r.0.entries[0].key
  {
    var n := |sibling.entries|;
    var moved := sibling.entries[n - 1];
    assert sibling.entries + node.entries == sibling.entries[..n - 1] + ([moved] + node.entries);
    (node.(entries := [moved] + node.entries), sibling.(entries := sibling.entries[..n - 1], next := nodeBlock), moved.key)
  }

  /** The previous sibling LeafNode.delete looks up in the parent when the next leaf is not a
      sibling, as written: the child before the first routing key above the deleted key. When no
      routing key is above it, the loop runs out and the sibling stays the next leaf already read. */
  function PreviousSiblingAsWritten(keyType: int, parentKeys: seq<Key>, parentChildren: seq<int>, key: Key, nextLeaf: int): (r: Result<int>)
    requires |parentChildren| == |parentKeys| + 1
    ensures ChildIndex(keyType, parentKeys, key) == |parentKeys| ==> r == Success(nextLeaf)
  {
    var j := ChildIndex(keyType, parentKeys, key);
    if j == |parentKeys| then Success(nextLeaf)
    // the pointer read before the first child lies outside the child area
    else if j == 0 then Failure(Corrupt)
    else Success(parentChildren[j - 1])
  }

  /** The previous sibling as intended: the child just before the one the key descends to. */
  function PreviousSibling(keyType: int, parentKeys: seq<Key>, parentChildren: seq<int>, key: Key): (r: Result<int>)
    requires |parentChildren| == |parentKeys| + 1
    ensures r.Success? <==> ChildIndex(keyType, parentKeys, key) > 0
    ensures r.Success? ==> r.value == parentChildren[ChildIndex(keyType, parentKeys, key) - 1]
  {
    var j := ChildIndex(keyType, parentKeys, key);
    if j == 0 then Failure(Corrupt) else Success(parentChildren[j - 1])
  }

  /** The leaf a key at or above every routing key lives in is the parent's last child, so its
      next leaf has another parent; the written lookup hands back that next leaf rather than the
      last child's left neighbour. */
  lemma PreviousSiblingAsWrittenMissesLastChild(keyType: int, parentKeys: seq<Key>, parentChildren: seq<int>, key: Key, nextLeaf: int)
    requires |parentChildren| == |parentKeys| + 1 && |parentKeys| >= 1
    requires forall j :: 0 <= j < |parentKeys| ==> !Less(keyType, key, parentKeys[j])
    requires nextLeaf !in parentChildren
    ensures PreviousSiblingAsWritten(keyType, parentKeys, parentChildren, key, nextLeaf) == Success(nextLeaf)
    ensures PreviousSibling(keyType, parentKeys, parentChildren, key) == Success(parentChildren[|parentKeys| - 1])
    ensures nextLeaf != parentChildren[|parentKeys| - 1]
  {
  }

  /** Away from the last child the two lookups agree. */
  lemma PreviousSiblingAgreesBeforeLastChild(keyType: int, parentKeys: seq<Key>, parentChildren: seq<int>, key: Key, nextLeaf: int)
    requires |parentChildren| == |parentKeys| + 1
    requires ChildIndex(keyType, parentKeys, key) < |parentKeys|
    ensures PreviousSiblingAsWritten(keyType, parentKeys, parentChildren, key, nextLeaf) == PreviousSibling(keyType, parentKeys, parentChildren, key)
  {
  }
}
