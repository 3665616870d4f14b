/**
 A cursor denotes a gap between records of the whole tree.  Where a node starts in the
 tree's contents, the gap a position in a node stands for, and how gaps move.
 */
module MemTreeGap {
  import opened MemTreeNode
  import opened MemTreeHeap
  import opened Weave

  ghost function Contents(h: Heap, root: Node): seq<Record>
    requires root in h
  {
    h[root].contents
  }

  /** Where child i of n starts in n's contents. */
  ghost function Offset(h: Heap, root: Node, n: Node, i: nat): nat
    requires n in h && Shape(h, root, n) && i <= |h[n].recs| && h[n].depth > 0
  {
    KidsLinked(h, root, n);
    |Before(h[n].recs[..i], KidContents(h, h[n].kids)[..i])|
  }

  lemma FineNode(h: Heap, root: Node, n: Node)
    requires Tree(h, root) && n in h
    ensures Fine(h, root, null, null, n)
  {
  }

  /** Where n's contents start in the tree's contents. */
  ghost function Start(h: Heap, root: Node, n: Node): nat
    requires Tree(h, root) && n in h
    decreases (FineNode(h, root, n); h[root].depth - h[n].depth)
  {
    FineNode(h, root, n);
    if n == root then 0
    else
      var p := h[n].parent;
      FineNode(h, root, p);
      Start(h, root, p) + Offset(h, root, p, h[n].pos)
  }

  /** The gap before record pos of n: the number of records of the tree before it. */
  ghost function Gap(h: Heap, root: Node, n: Node, pos: nat): nat
    requires Tree(h, root) && n in h && pos <= |h[n].recs|
  {
    FineNode(h, root, n);
    KidsLinked(h, root, n);
    if h[n].depth == 0 then Start(h, root, n) + pos
    else Start(h, root, n) + Offset(h, root, n, pos) + |h[h[n].kids[pos]].contents|
  }

  /** Child i of n starts i offsets into n. */
  lemma StartOfKid(h: Heap, root: Node, n: Node, i: nat)
    requires Tree(h, root) && n in h && h[n].depth > 0 && i < |h[n].kids|
    ensures Shape(h, root, n) && i <= |h[n].recs|
    ensures h[n].kids[i] in h && h[n].kids[i] != root
    ensures Start(h, root, h[n].kids[i]) == Start(h, root, n) + Offset(h, root, n, i)
  {
    FineNode(h, root, n);
    KidsLinked(h, root, n);
    FineNode(h, root, h[n].kids[i]);
  }

  /** Record i of an internal node, and where the next child starts. */
  lemma RecordInNode(h: Heap, root: Node, n: Node, i: nat)
    requires Tree(h, root) && n in h && h[n].depth > 0 && i < |h[n].recs|
    ensures Shape(h, root, n) && h[n].kids[i] in h
    ensures Offset(h, root, n, i + 1) == Offset(h, root, n, i) + |h[h[n].kids[i]].contents| + 1 <= |h[n].contents|
    ensures h[n].contents[Offset(h, root, n, i) + |h[h[n].kids[i]].contents|] == h[n].recs[i]
  {
    FineNode(h, root, n);
    KidsLinked(h, root, n);
    WovenOffsets(h[n].recs, KidContents(h, h[n].kids), i);
  }

  /** The last child ends where n ends. */
  lemma LastKid(h: Heap, root: Node, n: Node)
    requires Tree(h, root) && n in h && h[n].depth > 0
    ensures Shape(h, root, n) && h[n].kids[|h[n].recs|] in h
    ensures Offset(h, root, n, |h[n].recs|) + |h[h[n].kids[|h[n].recs|]].contents| == |h[n].contents|
  {
    FineNode(h, root, n);
    KidsLinked(h, root, n);
    WovenAround(h[n].recs, KidContents(h, h[n].kids), |h[n].recs|);
  }

  /** Child i's contents are a slice of n's. */
  lemma KidSlice(h: Heap, root: Node, n: Node, i: nat)
    requires Tree(h, root) && n in h && h[n].depth > 0 && i < |h[n].kids|
    ensures Shape(h, root, n) && i <= |h[n].recs| && h[n].kids[i] in h
    ensures var o, k := Offset(h, root, n, i), h[h[n].kids[i]].contents;
      o + |k| <= |h[n].contents| && h[n].contents[o..o + |k|] == k
  {
    FineNode(h, root, n);
    KidsLinked(h, root, n);
    WovenAround(h[n].recs, KidContents(h, h[n].kids), i);
  }

  lemma SliceOfSlice<T>(w: seq<T>, s: nat, n: nat, o: nat, m: nat)
    requires s + n <= |w| && o + m <= n
    ensures w[s..s + n][o..o + m] == w[s + o..s + o + m]
  {
    var a, b := w[s..s + n][o..o + m], w[s + o..s + o + m];
    forall k | 0 <= k < m ensures a[k] == b[k] {
      assert a[k] == w[s..s + n][o + k] == w[s + (o + k)];
    }
  }

  /** Every node's contents are a slice of the tree's, from Start on. */
  lemma {:induction false} Slice(h: Heap, root: Node, n: Node)
    requires Tree(h, root) && n in h
    ensures var s, c := Start(h, root, n), h[n].contents;
      s + |c| <= |Contents(h, root)| && Contents(h, root)[s..s + |c|] == c
    decreases (FineNode(h, root, n); h[root].depth - h[n].depth)
  {
    FineNode(h, root, n);
    if n != root {
      var p := h[n].parent;
      FineNode(h, root, p);
      Slice(h, root, p);
      KidSlice(h, root, p, h[n].pos);
      var s, o, c, w := Start(h, root, p), Offset(h, root, p, h[n].pos), h[n].contents, Contents(h, root);
      SliceOfSlice(w, s, |h[p].contents|, o, |c|);
    }
  }

  /** The record a position stands before. */
  lemma RecordAtGap(h: Heap, root: Node, n: Node, pos: nat)
    requires Tree(h, root) && n in h && pos < |h[n].recs|
    ensures Gap(h, root, n, pos) < |Contents(h, root)|
    ensures Contents(h, root)[Gap(h, root, n, pos)] == h[n].recs[pos]
  {
    FineNode(h, root, n);
    Slice(h, root, n);
    var s, c := Start(h, root, n), h[n].contents;
    var o := Gap(h, root, n, pos) - s;
    if h[n].depth > 0 {
      RecordInNode(h, root, n, pos);
    }
    assert o < |c| && c[o] == h[n].recs[pos];
  }

  /** The last position of a node is the gap at its end: climbing from there keeps the gap. */
  lemma GapAtEnd(h: Heap, root: Node, n: Node)
    requires Tree(h, root) && n in h
    ensures Gap(h, root, n, |h[n].recs|) == Start(h, root, n) + |h[n].contents|
    ensures n == root ==> Gap(h, root, n, |h[n].recs|) == |Contents(h, root)|
    ensures n != root ==>
      h[n].parent != null && h[n].parent in h && h[n].pos <= |h[h[n].parent].recs|
      && Gap(h, root, n, |h[n].recs|) == Gap(h, root, h[n].parent, h[n].pos)
  {
    FineNode(h, root, n);
    if h[n].depth > 0 {
      LastKid(h, root, n);
    }
    if n != root {
      FineNode(h, root, h[n].parent);
      StartOfKid(h, root, h[n].parent, h[n].pos);
    }
  }

  /** Past a record of an internal node comes the start of its next child. */
  lemma GapAfterRecord(h: Heap, root: Node, n: Node, pos: nat)
    requires Tree(h, root) && n in h && h[n].depth > 0 && pos < |h[n].recs|
    ensures Shape(h, root, n)
    ensures Start(h, root, n) + Offset(h, root, n, pos + 1) == Gap(h, root, n, pos) + 1
  {
    RecordInNode(h, root, n, pos);
  }

  /** The first child starts where its parent starts. */
  lemma FirstKid(h: Heap, root: Node, n: Node)
    requires Tree(h, root) && n in h && h[n].depth > 0
    ensures |h[n].kids| > 0 && h[n].kids[0] in h && h[h[n].kids[0]].depth + 1 == h[n].depth
    ensures Start(h, root, h[n].kids[0]) == Start(h, root, n)
  {
    FineNode(h, root, n);
    KidsLinked(h, root, n);
    StartOfKid(h, root, n, 0);
  }

  /** The last position of the last child is the gap at the end of its parent. */
  lemma LastKidEnd(h: Heap, root: Node, n: Node)
    requires Tree(h, root) && n in h && h[n].depth > 0
    ensures |h[n].recs| < |h[n].kids| && h[n].kids[|h[n].recs|] in h
    ensures var c := h[n].kids[|h[n].recs|];
      h[c].depth + 1 == h[n].depth && Start(h, root, c) + |h[c].contents| == Start(h, root, n) + |h[n].contents|
  {
    FineNode(h, root, n);
    KidsLinked(h, root, n);
    StartOfKid(h, root, n, |h[n].recs|);
    LastKid(h, root, n);
  }
}
