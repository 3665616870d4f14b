/**
 The climb of an insertion: from the node that takes the record up to the root, each level
 holds the contents it held before with the record put in at one gap.
 */
module MemTreeClimb {
  import opened MemTreeNode
  import opened MemTreeHeap
  import opened MemTreeGap
  import opened MemTreeStep
  import opened Weave

  /** What the levels above n know: nothing has changed there since h0. */
  ghost predicate Rising(h0: Heap, h: Heap, root: Node, n: Node)
  {
    && Tree(h0, root) && n in h0 && n in h
    && h[n].parent == h0[n].parent && h[n].pos == h0[n].pos && h[n].depth == h0[n].depth
    && SameFrom(h0, h, n)
  }

  /** The children of n's parent p: all as in h0, but for n. */
  lemma ParentKids(h0: Heap, h: Heap, root: Node, n: Node)
    requires Rising(h0, h, root, n) && n != root
    ensures var p, i := h0[n].parent, h0[n].pos;
      && p != null && p in h0 && p in h && h[p] == h0[p] && p != n
      && Shape(h0, root, p) && h0[p].depth == h0[n].depth + 1 && i <= |h0[p].recs| && h0[p].kids[i] == n
      && (forall j :: 0 <= j < |h0[p].kids| ==> h0[p].kids[j] in h0 && h0[p].kids[j] in h)
      && h0[p].contents == Woven(h0[p].recs, KidContents(h0, h0[p].kids))
      && Offset(h0, root, p, i) == |Before(h0[p].recs[..i], KidContents(h0, h0[p].kids)[..i])|
      && Offset(h0, root, p, i) + |h0[n].contents| <= |h0[p].contents|
      && KidContents(h0, h0[p].kids) == KidContents(h, h[p].kids)[i := h0[n].contents]
      && KidContents(h, h[p].kids)[i] == h[n].contents
      && Start(h0, root, n) == Start(h0, root, p) + Offset(h0, root, p, i)
  {
    FineNode(h0, root, n);
    var p, i := h0[n].parent, h0[n].pos;
    FineNode(h0, root, p);
    KidsLinked(h0, root, p);
    StartOfKid(h0, root, p, i);
    KidSlice(h0, root, p, i);
    var k0, k := KidContents(h0, h0[p].kids), KidContents(h, h[p].kids);
    forall j | 0 <= j < |k0| ensures k0[j] == k[i := h0[n].contents][j] {
      assert h0[p].kids[j] in h0;
    }
  }

  lemma RisingIn(h0: Heap, h: Heap, root: Node, n: Node)
    requires Rising(h0, h, root, n)
    ensures n in h0 && n in h
  {
  }

  lemma ShapeOf(h: Heap, root: Node, p: Node, loose: Node?)
    requires TreeBut(h, root, p, loose) && p in h
    ensures Shape(h, root, p)
  {
    assert Fine(h, root, p, loose, p);
  }

  /** The children of a node with a shape. */
  lemma KidsThere(h: Heap, root: Node, p: Node)
    requires p in h && Shape(h, root, p)
    ensures if h[p].depth == 0 then h[p].kids == [] else |h[p].kids| == |h[p].recs| + 1
    ensures forall j :: 0 <= j < |h[p].kids| ==> h[p].kids[j] in h
  {
    KidsLinked(h, root, p);
  }

  /** n was split: one level up, median and right are to go in next to it. */
  lemma Ascend(h0: Heap, h: Heap, root: Node, n: Node, right: Node, median: Record, g: nat, rec: Record)
    requires Rising(h0, h, root, n) && n != root
    requires TreeBut(h, root, h0[n].parent, right) && right in h && right !in h0
    requires h[right].parent == h0[n].parent && h[right].depth == h0[n].depth
    requires g <= |h0[n].contents| && h[n].contents + [median] + h[right].contents == Insert(h0[n].contents, g, rec)
    ensures var p, i := h0[n].parent, h0[n].pos;
      && p != null && p in h0 && p in h && h[p] == h0[p] && p != right
      && Shape(h0, root, p) && Shape(h, root, p) && i <= |h0[p].recs| && h0[p].depth > 0 && Fits(h, p, right)
      && Start(h0, root, n) + g == Start(h0, root, p) + (Offset(h0, root, p, i) + g)
      && Offset(h0, root, p, i) + g <= |h0[p].contents|
      && Grafted(h, root, p, right, median, i) == Insert(h0[p].contents, Offset(h0, root, p, i) + g, rec)
  {
    hide Rising, TreeBut, Fine, Insert, Before, Woven, Start, Offset, Shape;
    RisingIn(h0, h, root, n);
    ParentKids(h0, h, root, n);
    var p, i := h0[n].parent, h0[n].pos;
    ShapeOf(h, root, p, right);
    KidsThere(h, root, p);
    var k := KidContents(h, h[p].kids);
    GraftInserts(h[p].recs, k, i, h0[n].contents, g, rec, median, h[right].contents);
    assert k[..i] == k[i := h0[n].contents][..i];
  }

  /** n's contents have the record: one level up they add up to the parent's with the record. */
  lemma AscendSum(h0: Heap, h: Heap, root: Node, n: Node, g: nat, rec: Record)
    requires Rising(h0, h, root, n) && n != root
    requires TreeBut(h, root, h0[n].parent, null)
    requires g <= |h0[n].contents| && h[n].contents == Insert(h0[n].contents, g, rec)
    ensures var p, i := h0[n].parent, h0[n].pos;
      && p != null && p in h0 && p in h && h[p] == h0[p]
      && Shape(h0, root, p) && Shape(h, root, p) && i <= |h0[p].recs| && h0[p].depth > 0
      && Start(h0, root, n) + g == Start(h0, root, p) + (Offset(h0, root, p, i) + g)
      && Offset(h0, root, p, i) + g <= |h0[p].contents|
      && Sum(h, root, p) == Insert(h0[p].contents, Offset(h0, root, p, i) + g, rec)
  {
    hide Rising, TreeBut, Fine, Insert, Before, Woven, Start, Offset, Shape;
    RisingIn(h0, h, root, n);
    ParentKids(h0, h, root, n);
    var p, i := h0[n].parent, h0[n].pos;
    ShapeOf(h, root, p, null);
    KidsThere(h0, root, p);
    var k := KidContents(h, h[p].kids);
    WovenInserts(h[p].recs, k, i, h0[n].contents, g, rec);
    assert k[..i] == k[i := h0[n].contents][..i];
  }

  /** Above p, too, nothing has changed. */
  lemma RisingUp(h0: Heap, h: Heap, h': Heap, root: Node, n: Node, p: Node)
    requires Rising(h0, h, root, n) && p in h0 && p in h && h[p] == h0[p] && h0[p].depth == h0[n].depth + 1
    requires SameFrom(h, h', p) && p in h'
    requires h'[p].parent == h[p].parent && h'[p].pos == h[p].pos && h'[p].depth == h[p].depth
    ensures Rising(h0, h', root, p)
  {
  }

  /** One node's contents changed. */
  lemma SnapContents(h: Heap, nodes: set<Node>, n: Node)
    requires n in nodes && h.Keys == nodes
    requires forall m :: m in nodes && m != n ==> Copy(m).Live() == h[m]
    requires Copy(n).Live() == h[n].(contents := n.contents)
    ensures Snap(nodes) == h[n := h[n].(contents := n.contents)]
  {
  }

  /** Bringing the parent's contents up to date, on snapshots. */
  lemma AscendStep(h0: Heap, h: Heap, root: Node, n: Node, g: nat, rec: Record) returns (p: Node, g': nat,
                   c: seq<Record>)
    requires Rising(h0, h, root, n) && n != root
    requires TreeBut(h, root, h0[n].parent, null)
    requires g <= |h0[n].contents| && h[n].contents == Insert(h0[n].contents, g, rec)
    ensures p == h0[n].parent && p in h0 && p in h && h0[p].depth == h0[n].depth + 1
    ensures var h' := h[p := h[p].(contents := c)];
      Rising(h0, h', root, p) && TreeBut(h', root, h[p].parent, null)
    ensures g' <= |h0[p].contents| && c == Insert(h0[p].contents, g', rec)
    ensures Start(h0, root, n) + g == Start(h0, root, p) + g'
  {
    AscendSum(h0, h, root, n, g, rec);
    ParentKids(h0, h, root, n);
    p := h0[n].parent;
    g' := Offset(h0, root, p, h0[n].pos) + g;
    c := Sum(h, root, p);
    var h' := h[p := h[p].(contents := c)];
    SumStep(h, h', root, p);
    RisingUp(h0, h, h', root, n, p);
  }

  /** One level of PropagateUp. */
  ghost method PropagateOnce(nodes: set<Node>, root: Node, h0: Heap, n: Node, g: nat, rec: Record)
    returns (p: Node, g': nat)
    requires Rising(h0, Snap(nodes), root, n) && n in nodes && n != root
    requires TreeBut(Snap(nodes), root, n.parent, null)
    requires g <= |h0[n].contents| && n.contents == Insert(h0[n].contents, g, rec)
    modifies nodes`contents
    ensures p in nodes && p in h0 && h0[p].depth == h0[n].depth + 1
    ensures Rising(h0, Snap(nodes), root, p)
    ensures TreeBut(Snap(nodes), root, p.parent, null)
    ensures g' <= |h0[p].contents| && p.contents == Insert(h0[p].contents, g', rec)
    ensures Start(h0, root, n) + g == Start(h0, root, p) + g'
  {
    ghost var h := Snap(nodes);
    assert h[n] == Copy(n).Live();
    var c;
    p, g', c := AscendStep(h0, h, root, n, g, rec);
    p.contents := c;
    SnapContents(h, nodes, p);
  }

  /** Brings the contents of the nodes above `start` up to date. */
  ghost method PropagateUp(nodes: set<Node>, root: Node, h0: Heap, start: Node, g0: nat, rec: Record, gap: nat)
    requires root in nodes && start in nodes
    requires Rising(h0, Snap(nodes), root, start)
    requires TreeBut(Snap(nodes), root, start.parent, null)
    requires g0 <= |h0[start].contents| && start.contents == Insert(h0[start].contents, g0, rec)
    requires gap == Start(h0, root, start) + g0
    modifies nodes`contents
    ensures Tree(Snap(nodes), root)
    ensures root in h0 && gap <= |h0[root].contents| && root.contents == Insert(h0[root].contents, gap, rec)
  {
    var n: Node, g: nat := start, g0;
    while n != root
      invariant n in nodes && n in h0
      invariant Rising(h0, Snap(nodes), root, n)
      invariant TreeBut(Snap(nodes), root, n.parent, null)
      invariant g <= |h0[n].contents| && n.contents == Insert(h0[n].contents, g, rec)
      invariant Start(h0, root, n) + g == gap
      decreases (FineNode(h0, root, n); h0[root].depth - h0[n].depth)
    {
      n, g := PropagateOnce(nodes, root, h0, n, g, rec);
      FineNode(h0, root, n);
    }
    FineNode(h0, root, root);
    assert g == gap;
  }

  // ---------- splitting on the way up ----------

  /**
   The climb has reached n: rec, and branch right of it, are to go into n at pos, and that
   will be the record record0 put into n's old contents at g.
   */
  ghost predicate Carrying(h0: Heap, h: Heap, root: Node, n: Node, branch: Node?, rec: Record, pos: nat, g: nat,
                           record0: Record)
  {
    && Rising(h0, h, root, n) && h[n] == h0[n]
    && TreeBut(h, root, n, branch) && n != branch
    && Shape(h, root, n) && pos <= |h[n].recs| && Fits(h, n, branch)
    && g <= |h0[n].contents|
    && Grafted(h, root, n, branch, rec, pos) == Insert(h0[n].contents, g, record0)
  }

  lemma Weaken(h: Heap, root: Node, n: Node)
    requires Tree(h, root)
    ensures TreeBut(h, root, n, null)
  {
    forall m | m in h ensures Fine(h, root, n, null, m) {
      FineNode(h, root, m);
    }
  }

  /** At a leaf there is only the record to carry. */
  lemma CarryAtLeaf(h0: Heap, root: Node, n: Node, pos: nat, rec: Record)
    requires Tree(h0, root) && n in h0 && h0[n].depth == 0 && pos <= |h0[n].recs|
    ensures Carrying(h0, h0, root, n, null, rec, pos, pos, rec)
    ensures Gap(h0, root, n, pos) == Start(h0, root, n) + pos
  {
    FineNode(h0, root, n);
    Weaken(h0, root, n);
  }

  lemma RisingStays(h0: Heap, h: Heap, h': Heap, root: Node, n: Node)
    requires Rising(h0, h, root, n) && SameFrom(h, h', n)
    requires n in h' && h'[n].parent == h[n].parent && h'[n].pos == h[n].pos && h'[n].depth == h[n].depth
    ensures Rising(h0, h', root, n)
  {
  }

  /** What is carried rises from a node that is as it was. */
  lemma RisingCarried(h0: Heap, h: Heap, h': Heap, root: Node, n: Node, branch: Node?, rec: Record, pos: nat, g: nat,
                      record0: Record)
    requires Carrying(h0, h, root, n, branch, rec, pos, g, record0) && SameFrom(h, h', n)
    requires n in h' && h'[n].parent == h[n].parent && h'[n].pos == h[n].pos && h'[n].depth == h[n].depth
    ensures n in h0 && n in h && h[n] == h0[n] && Rising(h0, h', root, n) && g <= |h0[n].contents|
    ensures Grafted(h, root, n, branch, rec, pos) == Insert(h0[n].contents, g, record0)
  {
    hide Grafted, TreeBut, Shape, Fits;
    RisingStays(h0, h, h', root, n);
  }

  /** One level up, too, nothing has changed. */
  lemma RisingParent(h0: Heap, h: Heap, root: Node, n: Node)
    requires Rising(h0, h, root, n) && n != root && n in h0
    ensures var p := h0[n].parent; p != null && p in h0 && h0[p].depth == h0[n].depth + 1 && Rising(h0, h, root, p)
  {
    ParentKids(h0, h, root, n);
  }

  /** After n was split, median and its new right sibling are carried to its parent. */
  lemma CarryUp(h0: Heap, h: Heap, h': Heap, root: Node, n: Node, branch: Node?, rec: Record, pos: nat, g: nat,
                record0: Record, right: Node, median: Record) returns (p: Node, g': nat)
    requires Carrying(h0, h, root, n, branch, rec, pos, g, record0) && n != root
    requires TreeBut(h', root, h[n].parent, right) && right in h' && right !in h0
    requires n in h' && h'[n].parent == h[n].parent && h'[n].pos == h[n].pos && h'[n].depth == h[n].depth
    requires h'[right].parent == h[n].parent && h'[right].depth == h[n].depth
    requires SameFrom(h, h', n)
    requires h'[n].contents + [median] + h'[right].contents == Grafted(h, root, n, branch, rec, pos)
    ensures p == h0[n].parent && p in h0 && h0[p].depth == h0[n].depth + 1
    ensures Carrying(h0, h', root, p, right, median, h0[n].pos, g', record0)
    ensures Start(h0, root, n) + g == Start(h0, root, p) + g'
  {
    RisingCarried(h0, h, h', root, n, branch, rec, pos, g, record0);
    hide Rising, TreeBut, Insert, SameFrom, Shape, Start, Offset, Grafted, Fits;
    Ascend(h0, h', root, n, right, median, g, record0);
    RisingParent(h0, h', root, n);
    p := h0[n].parent;
    g' := Offset(h0, root, p, h0[n].pos) + g;
  }

  /** After the split of n: on to its parent, or at the root with the record's gap reached. */
  lemma CarryOn(h0: Heap, h: Heap, h': Heap, root: Node, n: Node, branch: Node?, rec: Record, pos: nat, g: nat,
                record0: Record, gap: nat, right: Node, median: Record) returns (g': nat)
    requires Carrying(h0, h, root, n, branch, rec, pos, g, record0)
    requires root in h0 && Start(h0, root, n) + g == gap <= |h0[root].contents|
    requires TreeBut(h', root, h[n].parent, right) && right in h' && right !in h0
    requires n in h' && h'[n].parent == h[n].parent && h'[n].pos == h[n].pos && h'[n].depth == h[n].depth
    requires h'[right].parent == h[n].parent && h'[right].depth == h[n].depth
    requires SameFrom(h, h', n)
    requires h'[n].contents + [median] + h'[right].contents == Grafted(h, root, n, branch, rec, pos)
    ensures n != root ==> var p := h0[n].parent;
      && p != null && p in h0 && h0[p].depth == h0[n].depth + 1
      && Carrying(h0, h', root, p, right, median, h0[n].pos, g', record0)
      && Start(h0, root, p) + g' == gap
    ensures n == root ==>
      h0[n].parent == null && h'[n].contents + [median] + h'[right].contents == Insert(h0[root].contents, gap, record0)
  {
    FineNode(h0, root, n);
    g' := g;
    if n != root {
      var p;
      p, g' := CarryUp(h0, h, h', root, n, branch, rec, pos, g, record0, right, median);
    } else {
      assert g == gap;
    }
  }

  /** The climb ends: n has room for what is carried. */
  method Settle(ghost nodes: set<Node>, ghost root: Node, ghost h0: Heap, branch: Node?, n: Node, rec: Record, pos: nat,
                ghost g: nat, ghost record0: Record, ghost gap: nat)
    requires root in nodes && n in nodes && n.count < MAX_ELEMENTS
    requires Carrying(h0, Snap(nodes), root, n, branch, rec, pos, g, record0)
    requires gap == Start(h0, root, n) + g
    modifies nodes
    ensures Tree(Snap(nodes), root)
    ensures root in h0 && gap <= |h0[root].contents| && root.contents == Insert(h0[root].contents, gap, record0)
  {
    hide Grafted, SameFrom, Rising, Insert, Start;
    ghost var h := Snap(nodes);
    assert h[n] == Copy(n).Live();
    CarriedAt(h0, h, root, n, branch, rec, pos, g, record0);
    LiveKids(Image(nodes), root, n);
    GraftNode(nodes, root, branch, n, rec, pos);
    assert Snap(nodes)[n] == Copy(n).Live();
    RisingStays(h0, h, Snap(nodes), root, n);
    PropagateUp(nodes, root, h0, n, g, record0, gap);
  }

  /** A full n is split. */
  method SplitCarried(ghost nodes: set<Node>, ghost root: Node, ghost h0: Heap, branch: Node?, n: Node, rec: Record,
                      pos: nat, ghost g: nat, ghost record0: Record)
    returns (right: Node, median: Record)
    requires n in nodes && h0.Keys <= nodes && n.count == MAX_ELEMENTS
    requires Carrying(h0, Snap(nodes), root, n, branch, rec, pos, g, record0)
    modifies nodes
    ensures fresh(right) && n in old(Snap(nodes)) && n in h0 && old(Snap(nodes))[n] == h0[n] && right !in h0
    ensures right.parent == n.parent == h0[n].parent && n.pos == h0[n].pos && n.count == right.count == MIN_ELEMENTS
    ensures right.depth == n.depth == h0[n].depth
    ensures var h, h' := old(Snap(nodes)), Snap(nodes + {right});
      && n in h' && right in h' && h'[n] == Copy(n).Live() && h'[right] == Copy(right).Live()
      && TreeBut(h', root, h[n].parent, right) && SameFrom(h, h', n)
      && Shape(h, root, n) && pos <= |h[n].recs| && (branch != null ==> branch in h)
      && n.contents + [median] + right.contents == Grafted(h, root, n, branch, rec, pos)
  {
    hide Grafted, SameFrom, Rising, Insert;
    ghost var h := Snap(nodes);
    assert h[n] == Copy(n).Live();
    CarriedAt(h0, h, root, n, branch, rec, pos, g, record0);
    LiveKids(Image(nodes), root, n);
    right, median := SplitNode(nodes, root, branch, n, rec, pos);
    ghost var h' := Snap(nodes + {right});
    assert h'[n] == Copy(n).Live() && h'[right] == Copy(right).Live();
  }

  /** The node that the climb has reached is as it was. */
  lemma CarriedAt(h0: Heap, h: Heap, root: Node, n: Node, branch: Node?, rec: Record, pos: nat, g: nat, record0: Record)
    requires Carrying(h0, h, root, n, branch, rec, pos, g, record0)
    ensures n in h && n in h0 && h[n] == h0[n]
  {
  }

  /** A full n is split; its parent, if any, is next. */
  method SplitAndRise(ghost nodes: set<Node>, ghost root: Node, ghost h0: Heap, branch: Node?, n: Node, rec: Record,
                      pos: nat, ghost g: nat, ghost record0: Record, ghost gap: nat)
    returns (right: Node, median: Record, ghost g': nat)
    requires n in nodes && h0.Keys <= nodes && n.count == MAX_ELEMENTS
    requires Carrying(h0, Snap(nodes), root, n, branch, rec, pos, g, record0)
    requires root in h0 && Start(h0, root, n) + g == gap <= |h0[root].contents|
    modifies nodes
    ensures fresh(right) && right.parent == n.parent && n.parent == h0[n].parent && n.pos == h0[n].pos
    ensures n != root ==>
      && n.parent != null && n.parent in h0 && h0[n.parent].depth == h0[n].depth + 1
      && Carrying(h0, Snap(nodes + {right}), root, n.parent, right, median, n.pos, g', record0)
      && Start(h0, root, n.parent) + g' == gap
    ensures n == root ==>
      && TreeBut(Snap(nodes + {right}), root, null, right) && right.depth == root.depth
      && n.parent == null && n.count == right.count == MIN_ELEMENTS
      && n.contents + [median] + right.contents == Insert(h0[root].contents, gap, record0)
  {
    hide Carrying, TreeBut, SameFrom, Grafted, Insert, Snap;
    ghost var h := Snap(nodes);
    right, median := SplitCarried(nodes, root, h0, branch, n, rec, pos, g, record0);
    g' := CarryOn(h0, h, Snap(nodes + {right}), root, n, branch, rec, pos, g, record0, gap, right, median);
  }

  /** The old root and its sibling hang below a new root, whose fields are v. */
  lemma GrownByFields(r: map<Node, Raw>, r': map<Node, Raw>, root: Node, right: Node, top: Node, v: Raw, median: Record)
    requires root in r && right in r && root != right && top !in r
    requires TreeBut(Live(r), root, null, right) && r[right].depth == r[root].depth && r[right].parent == null
    requires r[root].count >= MIN_ELEMENTS && r[right].count >= MIN_ELEMENTS
    requires r'.Keys == r.Keys
    requires r'[root] == r[root].(parent := top, pos := 0) && r'[right] == r[right].(parent := top, pos := 1)
    requires forall m :: m in r && m != root && m != right ==> r'[m] == r[m]
    requires v.HasSlots() && v.depth == r[root].depth + 1 && v.parent == null && v.count == 1 && v.recs[0] == median
    requires v.branches[0] == root && v.branches[1] == right
    requires v.contents == r[root].contents + [median] + r[right].contents
    ensures Tree(Live(r'[top := v]), top)
  {
    var h, h' := Live(r), Live(r'[top := v]);
    assert Fine(h, root, null, right, root) && Fine(h, root, null, right, right);
    assert h'[top].recs == [median] && h'[top].kids == [root, right];
    GrowStep(h, h', root, right, top, median);
  }

  /** A node with one record and two branches. */
  method NewRoot(root: Node, right: Node, median: Record) returns (top: Node)
    ensures fresh(top) && top.HasSlots() && top.depth == root.depth + 1 && top.parent == null && top.count == 1
    ensures top.recs[0] == median && top.branches[0] == root && top.branches[1] == right
    ensures top.contents == root.contents + [median] + right.contents
  {
    top := new Node(root.depth + 1, median);
    top.count := 1;
    top.recs := top.recs[0 := median];
    top.branches := top.branches[0 := root][1 := right];
    top.contents := root.contents + [median] + right.contents;
  }

  /** Puts a new root over the old one and its new sibling. */
  method GrowRoot(ghost nodes: set<Node>, root: Node, right: Node, median: Record) returns (top: Node)
    requires root in nodes && right in nodes && root != right
    requires TreeBut(Snap(nodes), root, null, right) && right.depth == root.depth && right.parent == null
    requires root.count >= MIN_ELEMENTS && right.count >= MIN_ELEMENTS
    modifies root`parent, root`pos, right`parent, right`pos
    ensures fresh(top) && Tree(Snap(nodes + {top}), top)
    ensures top.contents == root.contents + [median] + right.contents
  {
    ghost var r := Image(nodes);
    top := NewRoot(root, right, median);
    root.parent := top;
    root.pos := 0;
    right.parent := top;
    right.pos := 1;
    GrownByFields(r, Image(nodes), root, right, top, Copy(top), median);
    ImageWith(nodes, top);
  }

  /** A node of a snapshot. */
  lemma SnapNode(nodes: set<Node>, root: Node, n: Node)
    requires Tree(Snap(nodes), root) && n in Snap(nodes)
    ensures Snap(nodes).Keys == nodes && n.count == |Snap(nodes)[n].recs| && n in nodes && root in nodes
  {
    FineNode(Snap(nodes), root, n);
    LiveKids(Image(nodes), root, n);
  }

  /** Nodes are no deeper than the root, and only the root has no parent. */
  lemma Deep(h: Heap, root: Node, n: Node)
    requires Tree(h, root) && n in h
    ensures root in h && h[n].depth <= h[root].depth && (h[n].parent == null <==> n == root)
  {
    FineNode(h, root, n);
  }

  lemma CarriedCount(nodes: set<Node>, root: Node, h0: Heap, n: Node, branch: Node?, rec: Record, pos: nat, g: nat,
                     record0: Record)
    requires n in nodes && Carrying(h0, Snap(nodes), root, n, branch, rec, pos, g, record0)
    ensures n.count <= MAX_ELEMENTS
  {
    LiveKids(Image(nodes), root, n);
  }

  /**
   The leaf that is to take the record is full: splits it and climbs, until a node has room or
   the root has been split.
   */
  method Climb(ghost nodes: set<Node>, root: Node, ghost h0: Heap, leaf: Node, pos: nat, record: Record, ghost gap: nat)
    returns (ghost added: set<Node>, done: bool, right: Node, median: Record)
    requires h0 == Snap(nodes) && Tree(h0, root) && leaf in h0 && h0[leaf].depth == 0
    requires pos <= |h0[leaf].recs| == MAX_ELEMENTS
    requires gap == Start(h0, root, leaf) + pos <= |h0[root].contents|
    modifies nodes
    ensures fresh(added) && right in added && root in nodes
    ensures done ==> Tree(Snap(nodes + added), root) && root.contents == Insert(h0[root].contents, gap, record)
    ensures !done ==>
      && TreeBut(Snap(nodes + added), root, null, right) && right.depth == root.depth
      && right.parent == null && root.count == right.count == MIN_ELEMENTS
      && root.contents + [median] + right.contents == Insert(h0[root].contents, gap, record)
  {
    hide Carrying, TreeBut, Tree, Insert, Snap, Shape, Fine;
    ghost var g: nat := pos;
    var n, p, branch: Node? := leaf, pos, null;
    median := record;
    SnapNode(nodes, root, leaf);
    CarryAtLeaf(h0, root, leaf, pos, record);
    added, done := {}, false;
    assert nodes + added == nodes;
    while true
      invariant n in h0 && fresh(added)
      invariant Carrying(h0, Snap(nodes + added), root, n, branch, median, p, g, record)
      invariant n.count == MAX_ELEMENTS && h0.Keys == nodes
      invariant Start(h0, root, n) + g == gap
      decreases h0[root].depth - h0[n].depth
    {
      Deep(h0, root, n);
      right, median, g := SplitAndRise(nodes + added, root, h0, branch, n, median, p, g, record, gap);
      branch := right;
      FreshWith(nodes, added, right);
      added := added + {right};
      if n.parent == null {
        return;
      }
      p := n.pos;
      n := n.parent;
      Deep(h0, root, n);
      CarriedCount(nodes + added, root, h0, n, branch, median, p, g, record);
      if n.count < MAX_ELEMENTS {
        Settle(nodes + added, root, h0, branch, n, median, p, g, record, gap);
        done := true;
        return;
      }
    }
  }

  /** Climbs from a full leaf, and puts a new root on top if the climb gets that far. */
  method InsertFull(ghost nodes: set<Node>, root: Node, ghost h0: Heap, leaf: Node, pos: nat, record: Record,
                    ghost gap: nat)
    returns (ghost added: set<Node>, root': Node)
    requires h0 == Snap(nodes) && Tree(h0, root) && leaf in h0 && h0[leaf].depth == 0
    requires pos <= |h0[leaf].recs| == MAX_ELEMENTS
    requires gap == Start(h0, root, leaf) + pos <= |h0[root].contents|
    modifies nodes
    ensures fresh(added) && root' in nodes + added
    ensures Tree(Snap(nodes + added), root')
    ensures root'.contents == Insert(h0[root].contents, gap, record)
  {
    hide Tree, TreeBut, Insert, Snap;
    var done, right, median;
    added, done, right, median := Climb(nodes, root, h0, leaf, pos, record, gap);
    root' := root;
    if !done {
      root' := GrowRoot(nodes + added, root, right, median);
      FreshWith(nodes, added, root');
      added := added + {root'};
    }
  }

  twostate lemma FreshWith(new nodes: set<Node>, new added: set<Node>, new n: Node)
    requires fresh(added) && fresh(n)
    ensures fresh(added + {n})
    ensures nodes + (added + {n}) == nodes + added + {n}
  {
  }
}
