/**
 The two in-place operations of an insertion, seen from the whole tree: what NodeInsert and
 NodeSplit do to the snapshot of all nodes.
 */
module MemTreeStep {
  import opened MemTreeNode
  import opened MemTreeHeap
  import opened Weave

  /** Nothing at n's level or above has changed, but for n itself. */
  ghost predicate SameFrom(h: Heap, h': Heap, n: Node)
    requires n in h
  {
    forall m :: m in h && m != n && h[m].depth >= h[n].depth ==> m in h' && h'[m] == h[m]
  }

  lemma InsertedBelow(h: Heap, h': Heap, root: Node, n: Node, branch: Node?, rec: Record, pos: nat)
    requires n in h && Shape(h, root, n) && pos <= |h[n].recs| && Fits(h, n, branch)
    requires Inserted(h, h', n, branch, rec, pos)
    ensures SameFrom(h, h', n)
  {
    NewKidsFit(h, root, n, branch, pos);
  }

  lemma SplitBelow(h: Heap, h': Heap, root: Node, n: Node, branch: Node?, rec: Record, pos: nat, right: Node,
                   median: Record)
    requires n in h && Shape(h, root, n) && pos <= |h[n].recs| == MAX_ELEMENTS && Fits(h, n, branch)
    requires WasSplit(h, h', n, branch, rec, pos, right, median)
    ensures SameFrom(h, h', n)
  {
    NewKidsFit(h, root, n, branch, pos);
  }

  lemma ImageWith(nodes: set<Node>, n: Node)
    ensures Image(nodes + {n}) == Image(nodes)[n := Copy(n)]
  {
  }

  /** What NodeInsert does to the node itself, whose fields were v. */
  ghost predicate InsertedSelf(v: Raw, v': Raw, branch: Node?, rec: Record, pos: nat, contents: seq<Record>)
  {
    && v.HasSlots() && pos <= v.count < MAX_ELEMENTS && v'.HasSlots() && v'.count == v.count + 1
    && v' == v.(count := v'.count, recs := v'.recs, branches := v'.branches, contents := contents)
    && (forall i :: 0 <= i < v'.count ==> v'.recs[i] == Spliced(v.recs, pos, rec, i))
    && (v.depth > 0 ==>
      branch != null && forall i :: 0 <= i <= v'.count ==> v'.branches[i] == Spliced(v.branches, pos + 1, branch, i))
  }

  /** What it does to the other nodes, field by field. */
  ghost predicate InsertedFields(r: map<Node, Raw>, r': map<Node, Raw>, n: Node, branch: Node?, rec: Record, pos: nat,
                                  contents: seq<Record>)
  {
    && r'.Keys == r.Keys && n in r && InsertedSelf(r[n], r'[n], branch, rec, pos, contents)
    && (r[n].depth > 0 ==>
      && branch in r && r'[branch].parent == n
      && (forall i :: pos < i <= r'[n].count ==> r'[n].branches[i] in r' && r'[r'[n].branches[i]].pos == i)
      && (forall m :: m in r && m != n && m != branch && m !in r[n].Kids(pos + 1) ==> r'[m] == r[m])
      && (forall m :: m in r && m != n && m != branch ==> r'[m] == r[m].(pos := r'[m].pos))
      && r'[branch] == r[branch].(parent := n, pos := r'[branch].pos))
    && (r[n].depth == 0 ==> forall m :: m in r && m != n ==> r'[m] == r[m])
  }

  /** The branches after slot pos are branch and old ones. */
  lemma SplicedIn(old': seq<Node>, new': seq<Node>, pos: nat, branch: Node?, count: nat, depth: nat, nodes: set<Node>)
    requires depth > 0 ==> branch != null && branch in nodes && 0 < count <= |old'| && count < |new'| && pos < count
    requires depth > 0 ==> forall i :: 0 <= i < count ==> old'[i] in nodes
    requires depth > 0 ==> forall i :: 0 <= i <= count ==> new'[i] == Spliced(old', pos + 1, branch, i)
    ensures depth > 0 ==> forall i :: pos < i <= count ==> new'[i] in nodes
  {
  }

  method InsertInto(ghost nodes: set<Node>, branch: Node?, n: Node, rec: Record, pos: nat,
                    ghost contents: seq<Record>)
    requires n in nodes && n.HasSlots() && pos <= n.count < MAX_ELEMENTS
    requires n.depth > 0 ==> branch != null && branch != n && branch in nodes
    requires n.depth > 0 ==> forall i :: 0 <= i <= n.count ==>
      n.branches[i] in nodes && n.branches[i] != n && n.branches[i] != branch && n.branches[i].pos == i
    modifies n`recs, n`branches, n`count, n`contents
    modifies (if n.depth > 0 then {branch} else {})`parent
    modifies (if n.depth > 0 then {branch} + Kids(n, pos + 1) else {})`pos
    ensures InsertedSelf(old(Copy(n)), Copy(n), branch, rec, pos, contents)
    ensures n.depth > 0 ==> branch.parent == n && n.HasSlots()
    ensures n.depth > 0 ==> forall i :: pos < i <= n.count ==> n.branches[i] in nodes && n.branches[i].pos == i
  {
    n.contents := contents;
    NodeInsert(branch, n, rec, pos);
    SplicedIn(old(n.branches), n.branches, pos, branch, n.count, n.depth, nodes);
  }

  method InsertFields(ghost nodes: set<Node>, branch: Node?, n: Node, rec: Record, pos: nat,
                      ghost contents: seq<Record>)
    requires n in nodes && n.HasSlots() && pos <= n.count < MAX_ELEMENTS
    requires n.depth > 0 ==> branch != null && branch != n && branch in nodes
    requires n.depth > 0 ==> forall i :: 0 <= i <= n.count ==>
      n.branches[i] in nodes && n.branches[i] != n && n.branches[i] != branch && n.branches[i].pos == i
    modifies n`recs, n`branches, n`count, n`contents
    modifies (if n.depth > 0 then {branch} else {})`parent
    modifies (if n.depth > 0 then {branch} + Kids(n, pos + 1) else {})`pos
    ensures InsertedFields(old(Image(nodes)), Image(nodes), n, branch, rec, pos, contents)
  {
    hide InsertedSelf, Spliced;
    assert Kids(n, pos + 1) == Copy(n).Kids(pos + 1);
    InsertInto(nodes, branch, n, rec, pos, contents);
  }

  lemma LiveKids(r: map<Node, Raw>, root: Node, n: Node)
    requires n in r && Shape(Live(r), root, n)
    ensures r[n].HasSlots()
    ensures r[n].depth > 0 ==> forall i :: 0 <= i <= r[n].count ==>
      var c := r[n].branches[i];
      c == Live(r)[n].kids[i] && c in r && c != n && r[c].parent == n && r[c].pos == i && r[c].depth + 1 == r[n].depth
  {
    KidsLinked(Live(r), root, n);
  }

  /** The live part of the node itself. */
  lemma InsertedNode(r: map<Node, Raw>, r': map<Node, Raw>, n: Node, branch: Node?, rec: Record, pos: nat,
                     contents: seq<Record>)
    requires InsertedFields(r, r', n, branch, rec, pos, contents)
    ensures var v, v' := r[n].Live(), r'[n].Live();
      && v'.recs == v.recs[..pos] + [rec] + v.recs[pos..]
      && v'.kids == (if r[n].depth == 0 then [] else v.kids[..pos + 1] + [branch] + v.kids[pos + 1..])
      && v' == v.(recs := v'.recs, kids := v'.kids, contents := v'.contents)
  {
    var v, v' := r[n].Live(), r'[n].Live();
    SplicedSeq(v.recs, v'.recs, pos, rec);
    if r[n].depth > 0 {
      SplicedSeq(v.kids, v'.kids, pos + 1, branch);
    }
  }

  /** The children know their new slots. */
  lemma InsertedLinks(r: map<Node, Raw>, r': map<Node, Raw>, root: Node, n: Node, branch: Node?, rec: Record, pos: nat,
                      contents: seq<Record>, i: nat)
    requires InsertedFields(r, r', n, branch, rec, pos, contents)
    requires Shape(Live(r), root, n) && Fits(Live(r), n, branch)
    requires r[n].depth > 0 && i <= r'[n].count
    ensures var c := r'[n].branches[i]; c in r' && r'[c].parent == n && r'[c].pos == i
  {
    LiveKids(r, root, n);
    assert r'[n].branches[i] == Spliced(r[n].branches, pos + 1, branch, i);
    if i <= pos {
      var c := r[n].branches[i];
      assert c == Live(r)[n].kids[i];
      KidsLinked(Live(r), root, n);
      assert c !in r[n].Kids(pos + 1);
    } else if i > pos + 1 {
      assert r[n].branches[i - 1] == Live(r)[n].kids[i - 1];
      KidsLinked(Live(r), root, n);
    }
  }

  /** Nodes that are not children afterwards are as they were. */
  lemma InsertedOther(r: map<Node, Raw>, r': map<Node, Raw>, root: Node, n: Node, branch: Node?, rec: Record, pos: nat,
                      contents: seq<Record>, m: Node)
    requires InsertedFields(r, r', n, branch, rec, pos, contents)
    requires Shape(Live(r), root, n) && Fits(Live(r), n, branch)
    requires m in r && m != n && m !in Live(r')[n].kids
    ensures Live(r')[m] == Live(r)[m]
  {
    var h, h' := Live(r), Live(r');
    InsertedNode(r, r', n, branch, rec, pos, contents);
    if r[n].depth > 0 {
      assert branch == h'[n].kids[pos + 1];
      forall i | pos + 1 <= i <= r[n].count ensures r[n].branches[i] != m {
        assert h'[n].kids[i + 1] == h[n].kids[i] == r[n].branches[i];
      }
    }
  }

  lemma InsertedByFields(r: map<Node, Raw>, r': map<Node, Raw>, root: Node, n: Node, branch: Node?, rec: Record,
                         pos: nat, contents: seq<Record>)
    requires InsertedFields(r, r', n, branch, rec, pos, contents)
    requires Shape(Live(r), root, n) && Fits(Live(r), n, branch)
    ensures Inserted(Live(r), Live(r'), n, branch, rec, pos)
  {
    var h, h' := Live(r), Live(r');
    InsertedNode(r, r', n, branch, rec, pos, contents);
    assert h'[n].kids == NewKids(h, n, branch, pos);
    forall i | 0 <= i < |h'[n].kids|
      ensures h'[n].kids[i] in h' && h'[h'[n].kids[i]].parent == n && h'[h'[n].kids[i]].pos == i
    {
      InsertedLinks(r, r', root, n, branch, rec, pos, contents, i);
    }
    forall m | m in h && m != n ensures Relinked(h[m], h'[m]) {
    }
    forall m | m in h && m != n && m !in h'[n].kids ensures h'[m] == h[m] {
      InsertedOther(r, r', root, n, branch, rec, pos, contents, m);
    }
  }

  lemma GraftedTree(r: map<Node, Raw>, r': map<Node, Raw>, root: Node, n: Node, branch: Node?, rec: Record, pos: nat)
    requires n in r && TreeBut(Live(r), root, n, branch) && n != branch
    requires Shape(Live(r), root, n) && Fits(Live(r), n, branch) && pos <= |Live(r)[n].recs|
    requires InsertedFields(r, r', n, branch, rec, pos, Grafted(Live(r), root, n, branch, rec, pos))
    ensures TreeBut(Live(r'), root, r[n].parent, null)
    ensures SameFrom(Live(r), Live(r'), n)
  {
    InsertedByFields(r, r', root, n, branch, rec, pos, Grafted(Live(r), root, n, branch, rec, pos));
    InsertStep(Live(r), Live(r'), root, n, branch, rec, pos);
    InsertedBelow(Live(r), Live(r'), root, n, branch, rec, pos);
  }

  /** A node with room takes rec and branch; only its parent's contents are then out of date. */
  method GraftNode(ghost nodes: set<Node>, ghost root: Node, branch: Node?, n: Node, rec: Record, pos: nat)
    requires n in nodes && n != branch
    requires TreeBut(Snap(nodes), root, n, branch) && Shape(Snap(nodes), root, n)
    requires pos <= n.count < MAX_ELEMENTS && n in Snap(nodes) && Fits(Snap(nodes), n, branch)
    modifies n`recs, n`branches, n`count, n`contents
    modifies (if n.depth > 0 then {branch} else {})`parent
    modifies (if n.depth > 0 then {branch} + Kids(n, pos + 1) else {})`pos
    ensures TreeBut(Snap(nodes), root, n.parent, null)
    ensures n.contents == old(Grafted(Snap(nodes), root, n, branch, rec, pos))
    ensures n.parent == old(n.parent) && n.pos == old(n.pos)
    ensures SameFrom(old(Snap(nodes)), Snap(nodes), n)
  {
    ghost var r := Image(nodes);
    LiveKids(r, root, n);
    InsertFields(nodes, branch, n, rec, pos, Grafted(Live(r), root, n, branch, rec, pos));
    GraftedTree(r, Image(nodes), root, n, branch, rec, pos);
  }

  // ---------- splitting ----------

  /** The branches of a node, whose fields are v, know the node and their slots. */
  ghost predicate Adopting(r: map<Node, Raw>, n: Node, v: Raw)
    requires v.HasSlots()
  {
    forall i :: 0 <= i <= v.count ==>
      v.branches[i] in r && r[v.branches[i]].parent == n && r[v.branches[i]].pos == i
  }

  /** What NodeSplit leaves in the two halves: l in n, which was v, and q in its new sibling. */
  ghost predicate Halves(v: Raw, l: Raw, q: Raw, branch: Node?, rec: Record, pos: nat, median: Record)
  {
    && v.HasSlots() && pos <= v.count == MAX_ELEMENTS
    && l.HasSlots() && l.count == MIN_ELEMENTS
    && l == v.(count := l.count, recs := l.recs, branches := l.branches, contents := l.contents)
    && q.HasSlots() && q.count == MIN_ELEMENTS && q.depth == v.depth && q.parent == v.parent
    && (forall i :: 0 <= i < MIN_ELEMENTS ==> l.recs[i] == Spliced(v.recs, pos, rec, i))
    && median == Spliced(v.recs, pos, rec, MIN_ELEMENTS)
    && (forall i :: 0 <= i < MIN_ELEMENTS ==> q.recs[i] == Spliced(v.recs, pos, rec, i + MIN_ELEMENTS + 1))
    && (v.depth > 0 ==>
      && branch != null
      && (forall i :: 0 <= i <= MIN_ELEMENTS ==> l.branches[i] == Spliced(v.branches, pos + 1, branch, i))
      && (forall i :: 0 <= i <= MIN_ELEMENTS ==>
           q.branches[i] == Spliced(v.branches, pos + 1, branch, i + MIN_ELEMENTS + 1)))
  }

  /** What NodeSplit does to the other nodes, field by field. */
  ghost predicate SplitFields(r: map<Node, Raw>, r': map<Node, Raw>, n: Node, branch: Node?, right: Node, q: Raw)
    requires q.HasSlots()
  {
    && r'.Keys == r.Keys && right !in r
    && n in r && r[n].HasSlots() && r'[n].HasSlots()
    && (r[n].depth > 0 ==>
      && branch != null && branch in r
      && Adopting(r', n, r'[n]) && Adopting(r', right, q)
      && (forall m :: m in r && m != n ==> r'[m] == r[m].(parent := r'[m].parent, pos := r'[m].pos))
      && (forall m :: m in r && m != n && m != branch && m !in r[n].Kids(0) ==> r'[m] == r[m]))
    && (r[n].depth == 0 ==> forall m :: m in r && m != n ==> r'[m] == r[m])
  }

  method SplitAdopting(ghost nodes: set<Node>, branch: Node?, n: Node, rec: Record, pos: nat,
                       ghost lc: seq<Record>, ghost rc: seq<Record>)
    returns (right: Node, median: Record)
    requires n in nodes && n.HasSlots() && pos <= n.count == MAX_ELEMENTS
    requires n.depth > 0 ==> branch != null && branch != n && branch in nodes
    requires n.depth > 0 ==> forall i :: 0 <= i <= n.count ==>
      n.branches[i] in nodes && n.branches[i] != n && n.branches[i] != branch && n.Links(i)
    modifies n`recs, n`branches, n`count, n`contents
    modifies (if n.depth > 0 then {branch} + Kids(n, 0) else {})`parent
    modifies (if n.depth > 0 then {branch} + Kids(n, 0) else {})`pos
    ensures fresh(right) && n.contents == lc && right.contents == rc
    ensures Halves(old(Copy(n)), Copy(n), Copy(right), branch, rec, pos, median)
    ensures n.depth > 0 ==> Adopting(Image(nodes), n, Copy(n)) && Adopting(Image(nodes), right, Copy(right))
  {
    n.contents := lc;
    right, median := NodeSplit(branch, n, rec, pos);
    right.contents := rc;
    if n.depth > 0 {
      forall i | 0 <= i <= MIN_ELEMENTS ensures n.branches[i] in nodes && right.branches[i] in nodes {
        assert n.branches[i] == Spliced(old(n.branches), pos + 1, branch, i);
        assert right.branches[i] == Spliced(old(n.branches), pos + 1, branch, i + MIN_ELEMENTS + 1);
      }
    }
  }

  lemma HalvesSlots(v: Raw, l: Raw, q: Raw, branch: Node?, rec: Record, pos: nat, median: Record)
    requires Halves(v, l, q, branch, rec, pos, median)
    ensures v.HasSlots() && l.HasSlots() && q.HasSlots()
  {
  }

  method SplitWithFields(ghost nodes: set<Node>, branch: Node?, n: Node, rec: Record, pos: nat,
                         ghost lc: seq<Record>, ghost rc: seq<Record>)
    returns (right: Node, median: Record)
    requires n in nodes && n.HasSlots() && pos <= n.count == MAX_ELEMENTS
    requires n.depth > 0 ==> branch != null && branch != n && branch in nodes
    requires n.depth > 0 ==> forall i :: 0 <= i <= n.count ==>
      n.branches[i] in nodes && n.branches[i] != n && n.branches[i] != branch && n.Links(i)
    modifies n`recs, n`branches, n`count, n`contents
    modifies (if n.depth > 0 then {branch} + Kids(n, 0) else {})`parent
    modifies (if n.depth > 0 then {branch} + Kids(n, 0) else {})`pos
    ensures fresh(right) && n.contents == lc && right.contents == rc
    ensures Halves(old(Copy(n)), Copy(n), Copy(right), branch, rec, pos, median)
    ensures SplitFields(old(Image(nodes)), Image(nodes), n, branch, right, Copy(right))
  {
    hide Adopting, Halves, Spliced;
    assert Kids(n, 0) == Copy(n).Kids(0);
    right, median := SplitAdopting(nodes, branch, n, rec, pos, lc, rc);
    assert n.HasSlots() && right.HasSlots() by { HalvesSlots(old(Copy(n)), Copy(n), Copy(right), branch, rec, pos,
    median); }
  }

  lemma SplitViews(v: Raw, l: Raw, q: Raw, branch: Node?, rec: Record, pos: nat, median: Record)
    requires Halves(v, l, q, branch, rec, pos, median)
    ensures var recs := v.Live().recs[..pos] + [rec] + v.Live().recs[pos..];
      && median == recs[MIN_ELEMENTS]
      && l.Live().recs == recs[..MIN_ELEMENTS] && q.Live().recs == recs[MIN_ELEMENTS + 1..]
    ensures v.depth == 0 ==> l.Live().kids == [] && q.Live().kids == []
    ensures v.depth > 0 ==>
      var kids := v.Live().kids[..pos + 1] + [branch] + v.Live().kids[pos + 1..];
      l.Live().kids == kids[..MIN_ELEMENTS + 1] && q.Live().kids == kids[MIN_ELEMENTS + 1..]
  {
    SplicedSeq(v.Live().recs, l.Live().recs + [median] + q.Live().recs, pos, rec);
    if v.depth > 0 {
      SplicedSeq(v.Live().kids, l.Live().kids + q.Live().kids, pos + 1, branch);
    }
  }

  lemma SplitOther(r: map<Node, Raw>, r': map<Node, Raw>, root: Node, n: Node, branch: Node?, pos: nat, right: Node,
                   q: Raw, m: Node)
    requires n in r && q.HasSlots() && SplitFields(r, r', n, branch, right, q)
    requires Shape(Live(r), root, n) && Fits(Live(r), n, branch) && pos <= r[n].count
    requires m in r && m != n && m !in NewKids(Live(r), n, branch, pos)
    ensures r'[m] == r[m]
  {
    hide Adopting;
    if r[n].depth > 0 {
      var kids := NewKids(Live(r), n, branch, pos);
      assert branch == kids[pos + 1];
      forall i | 0 <= i <= r[n].count ensures r[n].branches[i] != m {
        assert kids[if i <= pos then i else i + 1] == Live(r)[n].kids[i] == r[n].branches[i];
      }
    }
  }

  lemma SplitByFields(r: map<Node, Raw>, r': map<Node, Raw>, root: Node, n: Node, branch: Node?, rec: Record, pos: nat,
                      right: Node, q: Raw, median: Record)
    requires n in r && n in r' && Halves(r[n], r'[n], q, branch, rec, pos, median)
    requires SplitFields(r, r', n, branch, right, q)
    requires Shape(Live(r), root, n) && Fits(Live(r), n, branch)
    ensures WasSplit(Live(r), Live(r'[right := q]), n, branch, rec, pos, right, median)
  {
    var h, h' := Live(r), Live(r'[right := q]);
    SplitViews(r[n], r'[n], q, branch, rec, pos, median);
    HalfShapes(r[n], r'[n], q, branch, rec, pos, median);
    SplitTouches(r, r', n, branch, right, q);
    var kids := NewKids(h, n, branch, pos);
    forall m | m in h && m != n && m !in kids ensures h'[m] == h[m] {
      SplitOther(r, r', root, n, branch, pos, right, q, m);
    }
    AdoptedLive(r', r'[right := q], n, r'[n]);
    AdoptedLive(r', r'[right := q], right, q);
    hide *;
    WasSplitBy(r, r', n, branch, rec, pos, right, q, median);
  }

  lemma SplitTouches(r: map<Node, Raw>, r': map<Node, Raw>, n: Node, branch: Node?, right: Node, q: Raw)
    requires q.HasSlots() && SplitFields(r, r', n, branch, right, q)
    ensures SplitRelinks(r, r', n, right)
  {
    hide Adopting;
  }

  /** The two halves, the links and the children add up to a split. */
  lemma WasSplitBy(r: map<Node, Raw>, r': map<Node, Raw>, n: Node, branch: Node?, rec: Record, pos: nat, right: Node,
                   q: Raw, median: Record)
    requires SplitRelinks(r, r', n, right) && n in r && n in Live(r)
    requires var (v, l) := (r[n], r'[n]);
      && v.HasSlots() && l.HasSlots() && q.HasSlots() && v.count == MAX_ELEMENTS && pos <= v.count
      && l.depth == v.depth == q.depth && l.parent == v.parent == q.parent && l.pos == v.pos
    requires var recs := r[n].Live().recs[..pos] + [rec] + r[n].Live().recs[pos..];
      && median == recs[MIN_ELEMENTS]
      && r'[n].Live().recs == recs[..MIN_ELEMENTS] && q.Live().recs == recs[MIN_ELEMENTS + 1..]
    requires var kids := NewKids(Live(r), n, branch, pos);
      r'[n].Live().kids == LeftKids(kids) && q.Live().kids == RightKids(kids)
    requires var (h, h') := (Live(r), Live(r'[right := q]));
      && (forall m :: m in h && m != n && m !in NewKids(h, n, branch, pos) ==> m in h' && h'[m] == h[m])
      && n in h' && right in h' && Adopted(h', n) && Adopted(h', right)
    ensures WasSplit(Live(r), Live(r'[right := q]), n, branch, rec, pos, right, median)
  {
    hide NewKids, LeftKids, RightKids, Adopted;
  }

  /** Nothing but links changes in the other nodes. */
  ghost predicate SplitRelinks(r: map<Node, Raw>, r': map<Node, Raw>, n: Node, right: Node)
  {
    && r'.Keys == r.Keys && right !in r
    && forall m :: m in r && m != n ==> r'[m] == r[m].(parent := r'[m].parent, pos := r'[m].pos)
  }

  /** What a split leaves of a node's other fields. */
  lemma HalfShapes(v: Raw, l: Raw, q: Raw, branch: Node?, rec: Record, pos: nat, median: Record)
    requires Halves(v, l, q, branch, rec, pos, median)
    ensures v.HasSlots() && l.HasSlots() && q.HasSlots() && v.count == MAX_ELEMENTS && pos <= v.count
    ensures l.depth == v.depth == q.depth && l.parent == v.parent == q.parent && l.pos == v.pos
  {
    hide Spliced;
  }

  lemma AdoptedLive(r: map<Node, Raw>, r': map<Node, Raw>, n: Node, v: Raw)
    requires v.HasSlots() && n in r' && r'[n] == v && (v.depth > 0 ==> Adopting(r, n, v))
    requires forall m :: m in r ==> m in r' && r'[m] == r[m]
    ensures Adopted(Live(r'), n)
  {
    var h := Live(r');
    forall i | 0 <= i < |h[n].kids| ensures h[n].kids[i] in h && h[h[n].kids[i]].parent == n
      && h[h[n].kids[i]].pos == i {
      assert h[n].kids[i] == v.branches[i];
    }
  }

  /** The contents the two halves will have. */
  ghost function HalfContents(h: Heap, root: Node, n: Node, branch: Node?, rec: Record, pos: nat): (seq<Record>,
                              seq<Record>)
    requires n in h && Shape(h, root, n) && pos <= |h[n].recs| == MAX_ELEMENTS && Fits(h, n, branch)
  {
    var recs, kids := h[n].recs[..pos] + [rec] + h[n].recs[pos..], NewKids(h, n, branch, pos);
    NewKidsFit(h, root, n, branch, pos);
    (Total(recs[..MIN_ELEMENTS], KidContents(h, LeftKids(kids))),
     Total(recs[MIN_ELEMENTS + 1..], KidContents(h, RightKids(kids))))
  }

  /** The children keep their contents, so the halves' contents can be set beforehand. */
  lemma HalvesSummed(h: Heap, h': Heap, root: Node, n: Node, branch: Node?, rec: Record, pos: nat,
                     right: Node, median: Record)
    requires n in h && root in h && Shape(h, root, n) && pos <= |h[n].recs| == MAX_ELEMENTS && Fits(h, n, branch)
    requires WasSplit(h, h', n, branch, rec, pos, right, median)
    requires (h'[n].contents, h'[right].contents) == HalfContents(h, root, n, branch, rec, pos)
    ensures Shape(h', root, n) && Shape(h', root, right)
    ensures Summed(h', root, n) && Summed(h', root, right)
    ensures h'[n].contents + [median] + h'[right].contents == Grafted(h, root, n, branch, rec, pos)
  {
    SplitKeepsShape(h, h', root, n, branch, rec, pos, right, median, n);
    SplitKeepsShape(h, h', root, n, branch, rec, pos, right, median, right);
    NewKidsFit(h, root, n, branch, pos);
    assert KidContents(h', h'[n].kids) == KidContents(h, h'[n].kids);
    assert KidContents(h', h'[right].kids) == KidContents(h, h'[right].kids);
    SplitSums(h, h', root, n, branch, rec, pos, right, median);
  }

  lemma SplitTree(r: map<Node, Raw>, r': map<Node, Raw>, root: Node, n: Node, branch: Node?, rec: Record, pos: nat,
                  right: Node, q: Raw, median: Record)
    requires TreeBut(Live(r), root, n, branch) && n != branch
    requires n in r && n in r' && Halves(r[n], r'[n], q, branch, rec, pos, median)
    requires SplitFields(r, r', n, branch, right, q)
    requires Shape(Live(r), root, n) && Fits(Live(r), n, branch)
    requires (r'[n].contents, q.contents) == HalfContents(Live(r), root, n, branch, rec, pos)
    ensures TreeBut(Live(r'[right := q]), root, r[n].parent, right)
    ensures r'[n].contents + [median] + q.contents == Grafted(Live(r), root, n, branch, rec, pos)
    ensures SameFrom(Live(r), Live(r'[right := q]), n)
  {
    var h, h' := Live(r), Live(r'[right := q]);
    SplitByFields(r, r', root, n, branch, rec, pos, right, q, median);
    HalvesSummed(h, h', root, n, branch, rec, pos, right, median);
    SplitStep(h, h', root, n, branch, rec, pos, right, median);
    SplitBelow(h, h', root, n, branch, rec, pos, right, median);
  }

  /** A full node is split; median and right are then to go into its parent. */
  method SplitNode(ghost nodes: set<Node>, ghost root: Node, branch: Node?, n: Node, rec: Record, pos: nat)
    returns (right: Node, median: Record)
    requires n in nodes && n != branch
    requires TreeBut(Snap(nodes), root, n, branch) && Shape(Snap(nodes), root, n)
    requires pos <= n.count == MAX_ELEMENTS && Fits(Snap(nodes), n, branch)
    modifies n`recs, n`branches, n`count, n`contents
    modifies (if n.depth > 0 then {branch} + Kids(n, 0) else {})`parent
    modifies (if n.depth > 0 then {branch} + Kids(n, 0) else {})`pos
    ensures fresh(right)
    ensures right.depth == n.depth && right.parent == n.parent && n.count == right.count == MIN_ELEMENTS
    ensures TreeBut(Snap(nodes + {right}), root, n.parent, right)
    ensures n.contents + [median] + right.contents == old(Grafted(Snap(nodes), root, n, branch, rec, pos))
    ensures n.parent == old(n.parent) && n.pos == old(n.pos)
    ensures SameFrom(old(Snap(nodes)), Snap(nodes + {right}), n)
  {
    ghost var r := Image(nodes);
    LiveKids(r, root, n);
    forall i | n.depth > 0 && 0 <= i <= n.count
      ensures n.branches[i] in nodes && n.branches[i] != n && n.branches[i] != branch && n.Links(i)
    {
      assert n.branches[i] == Live(r)[n].kids[i] && r[n.branches[i]] == Copy(n.branches[i]);
    }
    ghost var half := HalfContents(Live(r), root, n, branch, rec, pos);
    right, median := SplitWithFields(nodes, branch, n, rec, pos, half.0, half.1);
    SplitTree(r, Image(nodes), root, n, branch, rec, pos, right, Copy(right), median);
    ImageWith(nodes, right);
  }
}
