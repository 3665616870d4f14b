/** Where the search for a key ends up in a memtree, stated on snapshots. */
module MemTreeSearch {
  import opened Bytes
  import opened Wrappers
  import opened MemTreeNode
  import opened MemTreeHeap
  import opened MemTreeGap

  ghost predicate Ascending(recs: seq<Record>)
  {
    forall i, j :: 0 <= i < j < |recs| ==> Less(recs[i].key, recs[j].key)
  }

  lemma SmallerBefore(recs: seq<Record>, key: Key, g: nat)
    requires Ascending(recs) && g < |recs| && Less(recs[g].key, key)
    ensures forall k :: 0 <= k <= g ==> Less(recs[k].key, key)
  {
    forall k | 0 <= k < g ensures Less(recs[k].key, key) {
      LessTransitive(recs[k].key, recs[g].key, key);
    }
  }

  lemma GreaterAfter(recs: seq<Record>, key: Key, g: nat)
    requires Ascending(recs) && g < |recs| && (recs[g].key == key || Less(key, recs[g].key))
    ensures forall k :: g < k < |recs| ==> Less(key, recs[k].key)
  {
    forall k | g < k < |recs| ensures Less(key, recs[k].key) {
      if recs[g].key != key {
        LessTransitive(key, recs[g].key, recs[k].key);
      }
    }
  }

  /** The records before `from` have smaller keys; the one at `to` has not, and is the key if found. */
  ghost predicate Brackets(recs: seq<Record>, key: Key, from: nat, to: nat, found: bool)
  {
    && from <= to <= |recs|
    && (forall k :: 0 <= k < from ==> Less(recs[k].key, key))
    && (forall k :: to < k < |recs| ==> Less(key, recs[k].key))
    && (found ==> to < |recs| && recs[to].key == key)
    && (!found && to < |recs| ==> Less(key, recs[to].key))
  }

  /** Where branch i of n, or, in a leaf, position i, starts. */
  ghost function From(h: Heap, root: Node, n: Node, i: nat): nat
    requires Tree(h, root) && n in h && i <= |h[n].recs|
  {
    FineNode(h, root, n);
    Start(h, root, n) + if h[n].depth == 0 then i else Offset(h, root, n, i)
  }

  lemma FromFirst(h: Heap, root: Node, n: Node)
    requires Tree(h, root) && n in h
    ensures From(h, root, n, 0) == Start(h, root, n)
  {
  }

  lemma FromRecord(h: Heap, root: Node, n: Node, i: nat)
    requires Tree(h, root) && n in h && i < |h[n].recs|
    ensures From(h, root, n, i + 1) == Gap(h, root, n, i) + 1
  {
    if h[n].depth > 0 {
      GapAfterRecord(h, root, n, i);
    }
  }

  lemma FromGap(h: Heap, root: Node, n: Node, i: nat)
    requires Tree(h, root) && n in h && i <= |h[n].recs|
    ensures From(h, root, n, i) <= Gap(h, root, n, i)
    ensures h[n].depth == 0 ==> From(h, root, n, i) == Gap(h, root, n, i)
    ensures h[n].depth > 0 ==>
      && i < |h[n].kids| && h[n].kids[i] in h && From(h, root, n, i) == Start(h, root, h[n].kids[i])
      && Gap(h, root, n, i) == Start(h, root, h[n].kids[i]) + |h[h[n].kids[i]].contents|
  {
    if h[n].depth > 0 {
      FineNode(h, root, n);
      StartOfKid(h, root, n, i);
    }
  }

  lemma {:induction false} GapsAscend(h: Heap, root: Node, n: Node, i: nat, j: nat)
    requires Tree(h, root) && n in h && i <= j <= |h[n].recs|
    ensures i < j ==> Gap(h, root, n, i) < Gap(h, root, n, j)
    decreases j
  {
    if i < j {
      FromRecord(h, root, n, j - 1);
      FromGap(h, root, n, j);
      GapsAscend(h, root, n, i, j - 1);
    }
  }

  /** Where n starts and ends in the tree's contents. */
  lemma NodeEnds(h: Heap, root: Node, n: Node)
    requires Tree(h, root) && n in h
    ensures Gap(h, root, n, |h[n].recs|) == Start(h, root, n) + |h[n].contents| <= |Contents(h, root)|
  {
    GapAtEnd(h, root, n);
    Slice(h, root, n);
  }

  /** A node's records stand in the tree's contents in order. */
  lemma NodeAscending(h: Heap, root: Node, n: Node)
    requires Tree(h, root) && n in h && Ascending(Contents(h, root))
    ensures Ascending(h[n].recs)
  {
    forall i, j | 0 <= i < j < |h[n].recs| ensures Less(h[n].recs[i].key, h[n].recs[j].key) {
      RecordAtGap(h, root, n, i);
      RecordAtGap(h, root, n, j);
      GapsAscend(h, root, n, i, j);
    }
  }

  /** What a search for key in node n found. */
  ghost predicate Stopped(h: Heap, key: Key, n: Node, pos: nat, f: bool)
    requires n in h
  {
    && pos <= |h[n].recs|
    && (pos > 0 ==> Less(h[n].recs[pos - 1].key, key))
    && (pos < |h[n].recs| && !f ==> Less(key, h[n].recs[pos].key))
    && (f ==> pos < |h[n].recs| && h[n].recs[pos].key == key)
  }

  /** Where a search left off in a node narrows the bracket to the branch, or the gap, there. */
  lemma Narrowed(h: Heap, root: Node, key: Key, n: Node, pos: nat, f: bool, found: bool)
    requires Tree(h, root) && n in h && Ascending(Contents(h, root)) && Stopped(h, key, n, pos, f)
    requires Brackets(Contents(h, root), key, From(h, root, n, 0), Gap(h, root, n, |h[n].recs|), found)
    ensures Brackets(Contents(h, root), key, From(h, root, n, pos), Gap(h, root, n, pos), found || f)
    ensures found && !f ==> pos == |h[n].recs|
  {
    FromGap(h, root, n, pos);
    GapsAscend(h, root, n, pos, |h[n].recs|);
    if pos > 0 {
      RecordAtGap(h, root, n, pos - 1);
      FromRecord(h, root, n, pos - 1);
      SmallerBefore(Contents(h, root), key, Gap(h, root, n, pos - 1));
    }
    if pos < |h[n].recs| {
      RecordAtGap(h, root, n, pos);
      GreaterAfter(Contents(h, root), key, Gap(h, root, n, pos));
      LessTrichotomy(key, h[n].recs[pos].key);
    }
  }

  /** The search for key is down to node n; what it found is the record right after n. */
  ghost predicate Sought(h: Heap, root: Node, key: Key, n: Node, found: bool, record: Option<Record>)
    requires Tree(h, root) && n in h
  {
    var end := Start(h, root, n) + |h[n].contents|;
    && Brackets(Contents(h, root), key, Start(h, root, n), end, found)
    && (found ==> record == Some(Contents(h, root)[end]))
  }

  /** One level of the descent. */
  lemma SoughtBelow(h: Heap, root: Node, key: Key, n: Node, pos: nat, f: bool, found: bool, record: Option<Record>)
    requires Tree(h, root) && n in h && Ascending(Contents(h, root)) && Stopped(h, key, n, pos, f)
    requires Sought(h, root, key, n, found, record)
    ensures var record' := if f then Some(h[n].recs[pos]) else record;
      && (h[n].depth == 0 ==>
        && Brackets(Contents(h, root), key, Gap(h, root, n, pos), Gap(h, root, n, pos), found || f)
        && (found || f ==> record' == Some(Contents(h, root)[Gap(h, root, n, pos)])))
      && (h[n].depth > 0 ==>
        && pos < |h[n].kids| && h[n].kids[pos] in h
        && Sought(h, root, key, h[n].kids[pos], found || f, record'))
  {
    FromFirst(h, root, n);
    NodeEnds(h, root, n);
    Narrowed(h, root, key, n, pos, f, found);
    FromGap(h, root, n, pos);
    if f {
      RecordAtGap(h, root, n, pos);
    }
  }

  /**
   Binary search in the live records of a node: the first position whose key is not smaller
   than the key sought, and whether it is the key.
   */
  method Search(key: Key, recs: seq<Record>, n: nat) returns (start: nat, found: bool)
    requires n <= |recs| && Ascending(recs[..n])
    ensures start <= n
    ensures forall i :: 0 <= i < start ==> Less(recs[i].key, key)
    ensures forall i :: start < i < n ==> Less(key, recs[i].key)
    ensures found ==> start < n && recs[start].key == key
    ensures !found && start < n ==> Less(key, recs[start].key)
  {
    start, found := 0, false;
    var count := n;
    while count > 0
      invariant start + count <= n
      invariant forall i :: 0 <= i < start ==> Less(recs[i].key, key)
      invariant forall i :: start + count < i < n ==> Less(key, recs[i].key)
      invariant found ==> start + count < n && recs[start + count].key == key
      invariant !found && start + count < n ==> Less(key, recs[start + count].key)
      decreases count
    {
      var middle := count / 2;
      var pos := start + middle;
      var b := recs[pos].key;
      var c := Memcmp(key, b, if |key| < |b| then |key| else |b|);
      var greater := c > 0 || (c == 0 && |key| > |b|);
      var equal := c == 0 && |key| == |b|;
      Bisect(key, recs[..n], pos);
      LessTrichotomy(key, b);
      if greater {
        start := start + middle + 1;
        count := count - (middle + 1);
      } else {
        if equal {
          found := true;
        }
        count := middle;
      }
    }
  }

  /** What comparing with one record of an ascending sequence says about the others. */
  lemma Bisect(key: Key, recs: seq<Record>, pos: nat)
    requires Ascending(recs) && pos < |recs|
    ensures MemcmpRaw(key, recs[pos].key) > 0 ==> forall i :: 0 <= i <= pos ==> Less(recs[i].key, key)
    ensures MemcmpRaw(key, recs[pos].key) <= 0 ==>
      (recs[pos].key == key || Less(key, recs[pos].key)) && forall i :: pos < i < |recs| ==> Less(key, recs[i].key)
    ensures MemcmpRaw(key, recs[pos].key) == 0 <==> key == recs[pos].key
  {
    MemcmpRawIsDictionaryOrder(key, recs[pos].key);
    if MemcmpRaw(key, recs[pos].key) > 0 {
      SmallerBefore(recs, key, pos);
    } else {
      GreaterAfter(recs, key, pos);
    }
  }
}
