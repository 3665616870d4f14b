/**
 The memtree: a B-tree of records with parent and slot back-pointers, its cursors, lookup
 and insertion.
 */
module MemTree {
  import opened Bytes
  import opened Wrappers
  import opened MemTreeNode
  import opened MemTreeHeap
  import opened MemTreeGap
  import opened MemTreeStep
  import opened MemTreeClimb
  import opened MemTreeSearch
  import opened Rows
  import opened Weave

  /** A cursor: a node, a position in it, and the record it was last found to stand before. */
  datatype Cursor = Cursor(node: Node, pos: nat, record: Option<Record>)

  datatype Status = OK | DUPLICATE

  function RowOf(r: Record): Row
    reads r
  {
    Row(r.key, r.val, r.deleted)
  }

  function RowsOf(recs: seq<Record>): (rows: seq<Row>)
    reads recs
    ensures |rows| == |recs| && forall i :: 0 <= i < |recs| ==> rows[i] == RowOf(recs[i])
  {
    seq(|recs|, i requires 0 <= i < |recs| reads recs => RowOf(recs[i]))
  }

  /** Where the search for a key ends is the key's rank. */
  lemma RankOfGap(recs: seq<Record>, key: Key, gap: nat, found: bool)
    requires Brackets(recs, key, gap, gap, found)
    ensures Rank(RowsOf(recs), key) == gap && (found <==> Has(RowsOf(recs), key))
  {
    if gap < |recs| {
      LessTrichotomy(recs[gap].key, key);
    }
    RankIs(RowsOf(recs), key, gap);
  }

  lemma UpsertAt(rows: seq<Row>, gap: nat, row: Row)
    requires Rank(rows, row.key) == gap && !Has(rows, row.key)
    ensures Upsert(rows, row) == Insert(rows, gap, row)
  {
  }

  lemma UpsertHere(rows: seq<Row>, gap: nat, row: Row)
    requires Rank(rows, row.key) == gap && Has(rows, row.key)
    ensures gap < |rows| && Upsert(rows, row) == rows[gap := row]
  {
  }

  lemma InsertedRow(recs: seq<Record>, gap: nat, record: Record)
    requires gap <= |recs|
    ensures RowsOf(Insert(recs, gap, record)) == Insert(RowsOf(recs), gap, RowOf(record))
    ensures forall r :: r in Insert(recs, gap, record) ==> r in recs || r == record
  {
  }

  lemma InsertedAscends(recs: seq<Record>, gap: nat, record: Record)
    requires Ascending(recs) && Brackets(recs, record.key, gap, gap, false)
    ensures Ascending(Insert(recs, gap, record))
  {
    var s := Insert(recs, gap, record);
    forall i, j | 0 <= i < j < |s| ensures Less(s[i].key, s[j].key) {
      if gap < j {
        LessAfter(recs, record.key, gap, j - 1);
      }
    }
  }

  /** Records from the gap on have greater keys. */
  lemma LessAfter(recs: seq<Record>, key: Key, gap: nat, k: nat)
    requires Ascending(recs) && Brackets(recs, key, gap, gap, false) && gap <= k < |recs|
    ensures Less(key, recs[k].key)
  {
    if gap < k {
      LessTransitive(key, recs[gap].key, recs[k].key);
    }
  }

  /** Putting a record where its key belongs puts its row there. */
  lemma InsertedRows(recs: seq<Record>, gap: nat, record: Record)
    requires Ascending(recs) && Brackets(recs, record.key, gap, gap, false)
    ensures Ascending(Insert(recs, gap, record))
    ensures RowsOf(Insert(recs, gap, record)) == Upsert(RowsOf(recs), RowOf(record))
    ensures forall r :: r in Insert(recs, gap, record) ==> r in recs || r == record
  {
    hide Ascending, Upsert, RowsOf, Insert;
    RankOfGap(recs, record.key, gap, false);
    hide Brackets;
    InsertedRow(recs, gap, record);
    InsertedAscends(recs, gap, record);
    UpsertAt(RowsOf(recs), gap, RowOf(record));
  }

  /** Gives the record at g, which recs holds only once, the value and the flag of another. */
  method ReplaceRecord(ghost recs: seq<Record>, ghost g: nat, rec: Record, record: Record)
    requires Ascending(recs) && g < |recs| && recs[g] == rec && record.key == rec.key
    modifies rec
    ensures RowsOf(recs) == old(RowsOf(recs))[g := old(RowOf(record))]
  {
    forall i | 0 <= i < |recs| && i != g ensures recs[i] != rec {
      LessTrichotomy(recs[i].key, recs[g].key);
    }
    rec.val, rec.deleted := record.val, record.deleted;
  }

  /** An empty leaf on its own is a tree. */
  lemma LeafTree(n: Node)
    requires n.HasSlots() && n.depth == 0 && n.parent == null && n.count == 0 && n.contents == []
    ensures Tree(Snap({n}), n) && Snap({n})[n].contents == []
  {
    var h := Snap({n});
    assert h[n] == Copy(n).Live();
    assert Fine(h, n, null, null, n);
  }

  lemma BeforeNone<T>(recs: seq<T>, kids: seq<seq<T>>)
    requires |kids| == |recs| + 1
    ensures Before(recs[..0], kids[..0]) == []
  {
  }

  lemma WovenEnd<T>(recs: seq<T>, kids: seq<seq<T>>)
    requires |kids| == |recs| + 1
    ensures Woven(recs, kids) == Before(recs[..|recs|], kids[..|recs|]) + kids[|recs|]
  {
    WovenAround(recs, kids, |recs|);
  }

  class MemTree {
    var root: Node
    var count: nat
    ghost var nodes: set<Node>
    ghost var heap: Heap

    /** The nodes, whose snapshot is heap, form a tree and count is the number of its records. */
    ghost predicate Valid()
      reads this, nodes
    {
      root in nodes && heap == Snap(nodes) && Tree(heap, root) && count == |heap[root].contents|
    }

    /** The records in key order. */
    ghost function Contents(): seq<Record>
      requires root in heap
      reads this
    {
      heap[root].contents
    }

    /** Position pos of n is one a cursor can be at. */
    ghost predicate IsPos(n: Node, pos: nat)
      reads this
    {
      Tree(heap, root) && n in heap && pos <= |heap[n].recs|
    }

    /** The number of records before position pos of n. */
    ghost function GapAt(n: Node, pos: nat): nat
      requires IsPos(n, pos)
      reads this
    {
      Gap(heap, root, n, pos)
    }

    /** Where branch i of n starts in the tree's contents. */
    ghost function BranchStart(n: Node, i: nat): nat
      requires IsPos(n, i) && heap[n].depth > 0
      reads this
    {
      FineNode(heap, root, n);
      Start(heap, root, n) + Offset(heap, root, n, i)
    }

    ghost predicate At(iter: Cursor)
      reads this
    {
      IsPos(iter.node, iter.pos)
    }

    /** The number of records before the cursor. */
    ghost function GapOf(iter: Cursor): nat
      requires At(iter)
      reads this
    {
      GapAt(iter.node, iter.pos)
    }

    /** A node's fields and its snapshot. */
    lemma LiveNode(n: Node)
      requires Valid() && n in heap
      ensures n.HasSlots()
      ensures var v := heap[n];
        v.depth == n.depth && v.parent == n.parent && v.pos == n.pos && v.contents == n.contents
        && v.recs == n.recs[..n.count] && |v.recs| == n.count
        && (n.depth > 0 ==> v.kids == n.branches[..n.count + 1] && |v.kids| == n.count + 1)
      ensures n.depth > 0 ==> forall i :: 0 <= i <= n.count ==>
        var c := n.branches[i]; c in heap && c == heap[n].kids[i] && c.depth + 1 == n.depth
      ensures n != root ==>
        && n.parent != null && n.parent in heap && n.pos <= |heap[n.parent].recs| && heap[n.parent].depth > 0
        && n.parent.depth == n.depth + 1 && n.depth < root.depth
      ensures n == root ==> n.parent == null
    {
      FineNode(heap, root, n);
      LiveKids(Image(nodes), root, n);
      assert heap[n] == Copy(n).Live();
      if n != root {
        FineNode(heap, root, n.parent);
        assert heap[n.parent] == Copy(n.parent).Live();
      }
    }

    /** Climbing from the end of a node keeps the gap; n starts where its branch starts. */
    lemma ParentGap(n: Node)
      requires Valid() && n in heap && n != root
      ensures n.parent != null && IsPos(n.parent, n.pos) && heap[n.parent].depth > 0
      ensures GapAt(n, |heap[n].recs|) == GapAt(n.parent, n.pos)
      ensures Start(heap, root, n) == BranchStart(n.parent, n.pos)
    {
      LiveNode(n);
      FineNode(heap, root, n);
      GapAtEnd(heap, root, n);
      StartOfKid(heap, root, n.parent, n.pos);
    }

    /** The end of the root is the last gap. */
    lemma RootGap()
      requires Valid()
      ensures GapAt(root, |heap[root].recs|) == |Contents()|
    {
      GapAtEnd(heap, root, root);
    }

    /** The record a position stands before. */
    lemma RecordGap(n: Node, pos: nat)
      requires Valid() && n in heap && pos < |heap[n].recs|
      ensures GapAt(n, pos) < |Contents()| && Contents()[GapAt(n, pos)] == heap[n].recs[pos]
      ensures heap[n].depth > 0 ==> BranchStart(n, pos + 1) == GapAt(n, pos) + 1
      ensures heap[n].depth == 0 ==> GapAt(n, pos + 1) == GapAt(n, pos) + 1
    {
      RecordAtGap(heap, root, n, pos);
      if heap[n].depth > 0 {
        GapAfterRecord(heap, root, n, pos);
      }
    }

    constructor ()
      ensures Valid() && Contents() == [] && fresh(nodes)
    {
      hide Tree, Snap;
      var slot := new Record([], [], false);
      var node := new Node(0, slot);
      root, count, nodes, heap := node, 0, {node}, Snap({node});
      new;
      LeafTree(root);
    }

    // ---------- cursors ----------

    /** Moves the cursor to where its node hangs in the parent; false at the root. */
    method Ascend(iter: Cursor) returns (up: bool, iter': Cursor)
      requires Valid() && At(iter)
      ensures At(iter')
      ensures up <==> iter.node != root
      ensures up ==> iter.node.parent != null && iter' == iter.(node := iter.node.parent, pos := iter.node.pos)
      ensures up ==> heap[iter'.node].depth == heap[iter.node].depth + 1 <= heap[root].depth
      ensures !up ==> iter' == iter
    {
      up, iter' := false, iter;
      LiveNode(iter.node);
      if iter.node.parent != null {
        LiveNode(iter.node.parent);
        iter' := iter.(node := iter.node.parent, pos := iter.node.pos);
        up := true;
      }
    }

    /** Moves the cursor to the first leaf position of the branch it is at. */
    method BranchBegin(iter: Cursor) returns (iter': Cursor)
      requires Valid() && At(iter) && iter.node.depth > 0
      ensures At(iter') && heap[iter'.node].depth == 0 && iter'.pos == 0 && iter'.record == iter.record
      ensures heap[iter.node].depth > 0 && GapOf(iter') == BranchStart(iter.node, iter.pos)
    {
      LiveNode(iter.node);
      StartOfKid(heap, root, iter.node, iter.pos);
      var node := iter.node.branches[iter.pos];
      ghost var top := node;
      var depth := node.depth;
      LiveNode(node);
      while depth > 0
        invariant node in heap && node.depth == depth == heap[node].depth
        invariant Start(heap, root, node) == Start(heap, root, top)
        decreases depth
      {
        LiveNode(node);
        FirstKid(heap, root, node);
        node := node.branches[0];
        LiveNode(node);
        depth := depth - 1;
      }
      iter' := iter.(node := node, pos := 0);
    }

    /** Moves the cursor to the last leaf position of the branch it is at. */
    method BranchEnd(iter: Cursor) returns (iter': Cursor)
      requires Valid() && At(iter) && iter.node.depth > 0
      ensures At(iter') && heap[iter'.node].depth == 0 && iter'.pos == |heap[iter'.node].recs|
      ensures GapOf(iter') == GapOf(iter) && iter'.record == iter.record
    {
      LiveNode(iter.node);
      StartOfKid(heap, root, iter.node, iter.pos);
      var node := iter.node.branches[iter.pos];
      ghost var top := node;
      var depth := node.depth;
      LiveNode(node);
      while depth > 0
        invariant node in heap && node.depth == depth == heap[node].depth
        invariant Start(heap, root, node) + |heap[node].contents| == Start(heap, root, top) + |heap[top].contents|
        decreases depth
      {
        LiveNode(node);
        LastKidEnd(heap, root, node);
        node := node.branches[node.count];
        LiveNode(node);
        depth := depth - 1;
      }
      LiveNode(node);
      GapAtEnd(heap, root, node);
      iter' := iter.(node := node, pos := node.count);
    }

    /** The node a cursor is at. */
    lemma AtNode(iter: Cursor)
      requires Valid() && At(iter)
      ensures iter.node in heap && iter.pos <= |heap[iter.node].recs| == iter.node.count
    {
      LiveNode(iter.node);
    }

    /** From the end of a node: climbs to where it hangs in its parent, or is at the end of the tree. */
    method AscendRight(iter: Cursor) returns (up: bool, iter': Cursor)
      requires Valid() && At(iter) && iter.pos == |heap[iter.node].recs|
      ensures At(iter') && GapOf(iter') == GapOf(iter) && iter'.record == iter.record
      ensures iter'.node in heap && iter'.pos <= |heap[iter'.node].recs| == iter'.node.count
      ensures up ==> heap[iter.node].depth < heap[iter'.node].depth <= heap[root].depth && GapOf(iter) <= |Contents()|
      ensures !up ==> GapOf(iter) == |Contents()|
    {
      if iter.node == root {
        RootGap();
      } else {
        ParentGap(iter.node);
      }
      GapWithin(iter.node, iter.pos);
      up, iter' := Ascend(iter);
      AtNode(iter');
    }

    /** Before a record of its node: that record follows the cursor's gap. */
    method Here(iter: Cursor) returns (iter': Cursor)
      requires Valid() && At(iter) && iter.pos < |heap[iter.node].recs|
      ensures At(iter') && GapOf(iter') == GapOf(iter) < |Contents()|
      ensures iter' == iter.(record := Some(Contents()[GapOf(iter)]))
    {
      LiveNode(iter.node);
      RecordGap(iter.node, iter.pos);
      iter' := iter.(record := Some(iter.node.recs[iter.pos]));
    }

    /**
     Finds the record after the cursor's gap, climbing while the cursor is at the end of its
     node.  At the end of the tree the cursor is left alone.
     */
    method Deref(iter: Cursor) returns (ok: bool, iter': Cursor)
      requires Valid() && At(iter)
      ensures At(iter') && GapOf(iter') == GapOf(iter)
      ensures ok <==> GapOf(iter) < |Contents()|
      ensures ok ==> iter'.pos < |heap[iter'.node].recs| && iter'.record == Some(Contents()[GapOf(iter)])
      ensures !ok ==> iter' == iter
    {
      hide IsPos, GapAt, Tree;
      iter' := iter;
      AtNode(iter');
      while iter'.pos >= iter'.node.count
        invariant At(iter') && iter'.record == iter.record && GapOf(iter') == GapOf(iter)
        invariant iter'.node in heap && iter'.pos <= |heap[iter'.node].recs| == iter'.node.count
        decreases heap[root].depth - heap[iter'.node].depth
      {
        ok, iter' := AscendRight(iter');
        if !ok {
          return false, iter;
        }
      }
      iter' := Here(iter');
      ok := true;
    }

    /** Moves the cursor over the record that it is before in its node, and down into the next branch. */
    method StepOver(iter: Cursor) returns (iter': Cursor)
      requires Valid() && At(iter) && iter.pos < |heap[iter.node].recs|
      ensures At(iter') && GapOf(iter') == GapOf(iter) + 1 && iter'.record == iter.record
    {
      LiveNode(iter.node);
      RecordGap(iter.node, iter.pos);
      iter' := iter.(pos := iter.pos + 1);
      if iter.node.depth > 0 {
        iter' := BranchBegin(iter');
      }
    }

    /** Moves the cursor over the next record, if there is one. */
    method Next(iter: Cursor) returns (ok: bool, iter': Cursor)
      requires Valid() && At(iter)
      ensures At(iter')
      ensures ok <==> GapOf(iter) < |Contents()|
      ensures ok ==> GapOf(iter') == GapOf(iter) + 1 && iter'.record == Some(Contents()[GapOf(iter)])
      ensures !ok ==> iter' == iter
    {
      hide IsPos, GapAt, Tree, BranchStart;
      ok, iter' := Deref(iter);
      if ok {
        iter' := StepOver(iter');
      }
    }

    /** A leaf of a tree with internal nodes is not empty. */
    lemma FullLeaf(n: Node, leaf: Node)
      requires Valid() && n in heap && leaf in heap && heap[n].depth > 0 && heap[leaf].depth == 0
      ensures |heap[leaf].recs| > 0
    {
      FineNode(heap, root, n);
      FineNode(heap, root, leaf);
    }

    /** From the first position of a leaf: climbs to the nearest branch that is not a first one. */
    method AscendLeft(iter: Cursor) returns (ok: bool, iter': Cursor)
      requires Valid() && At(iter) && heap[iter.node].depth == 0 && iter.pos == 0
      ensures At(iter') && iter'.record == iter.record
      ensures ok <==> GapOf(iter) > 0
      ensures ok ==> heap[iter'.node].depth > 0 && iter'.pos > 0 && BranchStart(iter'.node, iter'.pos) == GapOf(iter)
    {
      iter' := iter;
      while true
        invariant At(iter') && iter'.record == iter.record
        invariant Start(heap, root, iter'.node) == GapOf(iter)
        decreases heap[root].depth - heap[iter'.node].depth
      {
        if iter'.node != root {
          ParentGap(iter'.node);
        }
        ok, iter' := Ascend(iter');
        if !ok || iter'.pos != 0 {
          return;
        }
      }
    }

    /** Moves the cursor back over the record before it, in a leaf or from the start of a branch. */
    method StepBack(iter: Cursor) returns (iter': Cursor)
      requires Valid() && At(iter) && iter.pos > 0
      ensures At(iter') && iter' == iter.(pos := iter.pos - 1, record := iter'.record)
      ensures GapOf(iter') < |Contents()| && iter'.record == Some(Contents()[GapOf(iter')])
      ensures heap[iter.node].depth == 0 ==> GapOf(iter') == GapOf(iter) - 1
      ensures heap[iter.node].depth > 0 ==> GapOf(iter') == BranchStart(iter.node, iter.pos) - 1
    {
      hide Tree, Gap, BranchStart;
      LiveNode(iter.node);
      RecordGap(iter.node, iter.pos - 1);
      iter' := iter.(pos := iter.pos - 1, record := Some(iter.node.recs[iter.pos - 1]));
    }

    /** Moves the cursor back over the previous record, if there is one. */
    method Prev(iter: Cursor) returns (ok: bool, iter': Cursor)
      requires Valid() && At(iter)
      ensures At(iter')
      ensures ok <==> GapOf(iter) > 0
      ensures ok ==> GapOf(iter') == GapOf(iter) - 1 < |Contents()|
      ensures ok ==> iter'.record == Some(Contents()[GapOf(iter')])
      ensures !ok ==> iter' == iter
    {
      iter' := iter;
      LiveNode(iter.node);
      if iter.node.depth > 0 {
        iter' := BranchEnd(iter);
        FullLeaf(iter.node, iter'.node);
      } else if iter.pos == 0 {
        ok, iter' := AscendLeft(iter);
        if !ok {
          return false, iter;
        }
      }
      iter' := StepBack(iter');
      ok := true;
    }

    /** A cursor before the first record. */
    method Begin() returns (ok: bool, iter: Cursor)
      requires Valid()
      ensures At(iter) && GapOf(iter) == 0
      ensures ok <==> Contents() != []
      ensures ok ==> iter.record == Some(Contents()[0])
    {
      LiveNode(root);
      FineNode(heap, root, root);
      iter := Cursor(root, 0, None);
      if root.depth > 0 {
        iter := BranchBegin(iter);
      }
      LiveNode(iter.node);
      ok := iter.node.count > 0;
      if ok {
        RecordGap(iter.node, 0);
        iter := iter.(record := Some(iter.node.recs[iter.pos]));
      } else {
        EmptyTree(iter.node);
      }
    }

    /** Only the empty tree has an empty leaf. */
    lemma EmptyTree(n: Node)
      requires Valid() && n in heap && heap[n].depth == 0 && |heap[n].recs| == 0
      ensures Contents() == []
    {
      FineNode(heap, root, n);
    }
  
    /** Begin, and then Next until it fails: every record is passed once, in order. */
    method WalkCursor() returns (walk: seq<Record>)
      requires Valid()
      ensures walk == Contents()
    {
      hide IsPos, GapAt, Tree;
      walk := [];
      var ok, iter := Begin();
      ok, iter := Next(iter);
      ghost var all := Contents();
      while ok
        invariant At(iter) && walk <= all
        invariant ok <==> |walk| < |all|
        invariant ok ==> GapOf(iter) == |walk| + 1 && iter.record == Some(all[|walk|])
        decreases |all| - |walk|
      {
        walk := walk + [iter.record.value];
        ok, iter := Next(iter);
      }
    }

    /** Visits the records of a leaf. */
    method WalkRecords(n: Node) returns (walk: seq<Record>)
      requires n.HasSlots()
      ensures walk == n.recs[..n.count]
    {
      walk := [];
      var i := 0;
      while i < n.count
        invariant i <= n.count && walk == n.recs[..i]
      {
        walk := walk + [n.recs[i]];
        i := i + 1;
      }
    }

    /** What the walk of a node is to come to. */
    lemma WalkedNode(n: Node)
      requires Valid() && n in heap
      ensures forall i :: 0 <= i < |heap[n].kids| ==>
        heap[n].kids[i] in heap && heap[heap[n].kids[i]].depth + 1 == heap[n].depth
      ensures if heap[n].depth == 0 then heap[n].contents == heap[n].recs
              else |heap[n].kids| == |heap[n].recs| + 1
                   && heap[n].contents == Woven(heap[n].recs, KidContents(heap, heap[n].kids))
    {
      FineNode(heap, root, n);
      KidsLinked(heap, root, n);
    }

    /** Visits the records below a node in order: the recursive walk. */
    method WalkNode(n: Node) returns (walk: seq<Record>)
      requires Valid() && n in heap
      ensures walk == heap[n].contents
      decreases heap[n].depth
    {
      hide Woven, Before, Tree;
      WalkedNode(n);
      LiveNode(n);
      walk := [];
      if n.depth == 0 {
        walk := WalkRecords(n);
      } else {
        ghost var recs, kids := heap[n].recs, KidContents(heap, heap[n].kids);
        BeforeNone(recs, kids);
        var i := 0;
        while i < n.count
          invariant i <= n.count && walk == Before(recs[..i], kids[..i])
        {
          var below := WalkNode(n.branches[i]);
          BeforeNext(recs, kids, i);
          walk := walk + below + [n.recs[i]];
          i := i + 1;
        }
        var below := WalkNode(n.branches[n.count]);
        WovenEnd(recs, kids);
        walk := walk + below;
      }
    }

    method WalkForward() returns (walk: seq<Record>)
      requires Valid()
      ensures walk == Contents()
    {
      walk := WalkNode(root);
    }

    // ---------- insertion ----------

    /**
     Inserts a record at the cursor's gap: into the leaf there, or, when that is full, by
     splitting it and putting the median and the new right half into its parent, and so on up.
     */
    method InsertAt(iter: Cursor, record: Record)
      requires Valid() && At(iter)
      modifies this, nodes
      ensures Valid() && fresh(nodes - old(nodes))
      ensures old(GapOf(iter)) <= |old(Contents())|
      ensures Contents() == Insert(old(Contents()), old(GapOf(iter)), record)
    {
      var at := iter;
      LiveNode(iter.node);
      if iter.node.depth > 0 {
        at := BranchEnd(iter);
      }
      GapWithin(at.node, at.pos);
      InsertInLeaf(at, record);
    }

    /** Takes over the nodes that now hold one more record. */
    method Done(newRoot: Node, ghost newNodes: set<Node>)
      requires newRoot in newNodes && Tree(Snap(newNodes), newRoot) && |newRoot.contents| == count + 1
      modifies this
      ensures Valid() && nodes == newNodes && Contents() == newRoot.contents
    {
      ghost var h := Snap(newNodes);
      assert h[newRoot] == Copy(newRoot).Live();
      count := count + 1;
      root, nodes, heap := newRoot, newNodes, h;
    }

    lemma InNodes(n: Node)
      requires Valid() && n in heap
      ensures n in nodes
    {
    }

    /** Inserts into a leaf with room. */
    method InsertInRoom(at: Cursor, record: Record)
      requires Valid() && At(at) && heap[at.node].depth == 0 && GapOf(at) <= |Contents()|
      requires at.node.count < MAX_ELEMENTS
      modifies this, nodes
      ensures Valid() && fresh(nodes - old(nodes))
      ensures Contents() == Insert(old(Contents()), old(GapOf(at)), record)
    {
      hide Tree, Carrying, Snap, Insert;
      ghost var gap := GapOf(at);
      InNodes(at.node);
      CarryAtLeaf(heap, root, at.node, at.pos, record);
      Settle(nodes, root, heap, null, at.node, record, at.pos, at.pos, record, gap);
      Done(root, nodes);
    }

    /** Inserts into a full leaf. */
    method InsertInFull(at: Cursor, record: Record)
      requires Valid() && At(at) && heap[at.node].depth == 0 && GapOf(at) <= |Contents()|
      requires at.node.count == |heap[at.node].recs| == MAX_ELEMENTS
      modifies this, nodes
      ensures Valid() && fresh(nodes - old(nodes))
      ensures Contents() == Insert(old(Contents()), old(GapOf(at)), record)
    {
      hide Tree, Snap, Insert;
      ghost var added;
      ghost var gap := GapOf(at);
      var top;
      CarryAtLeaf(heap, root, at.node, at.pos, record);
      added, top := InsertFull(nodes, root, heap, at.node, at.pos, record, gap);
      Done(top, nodes + added);
    }

    method InsertInLeaf(at: Cursor, record: Record)
      requires Valid() && At(at) && heap[at.node].depth == 0 && GapOf(at) <= |Contents()|
      modifies this, nodes
      ensures Valid() && fresh(nodes - old(nodes))
      ensures Contents() == Insert(old(Contents()), old(GapOf(at)), record)
    {
      LiveNode(at.node);
      hide Valid, At, IsPos, GapAt, Insert;
      if at.node.count < MAX_ELEMENTS {
        InsertInRoom(at, record);
      } else {
        InsertInFull(at, record);
      }
    }

    /** A gap is at most the number of records. */
    lemma GapWithin(n: Node, pos: nat)
      requires Valid() && IsPos(n, pos)
      ensures GapAt(n, pos) <= |Contents()|
    {
      if pos < |heap[n].recs| {
        RecordGap(n, pos);
      } else {
        GapAtEnd(heap, root, n);
        Slice(heap, root, n);
      }
    }

    // ---------- lookup ----------

    /** The keys of the records are strictly ascending. */
    ghost predicate Sorted()
      requires root in heap
      reads this
    {
      Ascending(Contents())
    }

    /** Searches in one node, n being where the search is down to. */
    method SearchNode(key: Key, n: Node) returns (pos: nat, f: bool)
      requires Valid() && Sorted() && n in heap
      ensures Stopped(heap, key, n, pos, f)
    {
      LiveNode(n);
      NodeAscending(heap, root, n);
      pos, f := Search(key, n.recs, n.count);
    }

    /**
     Searches from the root down to a leaf.  The cursor ends at the gap before which all keys
     are smaller; the record found may sit in a node above.
     */
    method Find(key: Key) returns (found: bool, iter: Cursor)
      requires Valid() && Sorted()
      ensures At(iter) && Brackets(Contents(), key, GapOf(iter), GapOf(iter), found)
      ensures found ==> iter.record == Some(Contents()[GapOf(iter)])
    {
      var node := root;
      var record: Option<Record> := None;
      found := false;
      LiveNode(node);
      var depth, pos := node.depth, 0;
      while true
        invariant node in heap && node.depth == depth && Sought(heap, root, key, node, found, record)
        decreases depth
      {
        var f;
        pos, f := SearchNode(key, node);
        LiveNode(node);
        SoughtBelow(heap, root, key, node, pos, f, found, record);
        if f {
          record := Some(node.recs[pos]);
          found := true;
        }
        if depth == 0 {
          break;
        }
        depth := depth - 1;
        node := node.branches[pos];
        LiveNode(node);
      }
      iter := Cursor(node, pos, record);
    }

    // ---------- insertion by key ----------

    /** The tree's records. */
    ghost function Contains(): set<Record>
      requires root in heap
      reads this
    {
      set r | r in Contents()
    }

    /** The tree, its nodes and its records. */
    ghost function Footprint(): set<object>
      requires root in heap
      reads this
    {
      {this} + nodes + Contains()
    }

    /** The tree's rows in key order. */
    ghost function Rows(): seq<Row>
      requires root in heap
      reads this, Contains()
    {
      RowsOf(Contents())
    }

    /** Inserts a record at the gap of its key, which the tree does not hold. */
    method InsertNew(iter: Cursor, record: Record)
      requires Valid() && Sorted() && At(iter)
      requires Brackets(Contents(), record.key, GapOf(iter), GapOf(iter), false)
      modifies this, nodes
      ensures Valid() && Sorted() && fresh(nodes - old(nodes)) && Contains() <= old(Contains()) + {record}
      ensures Rows() == Upsert(old(Rows()), old(RowOf(record)))
    {
      hide Upsert, Ascending, RowsOf, Brackets, IsPos, GapAt, Contains;
      GapWithin(iter.node, iter.pos);
      ghost var within, rows := Contains() + {record}, Upsert(Rows(), RowOf(record));
      ghost var recs' := Insert(Contents(), GapOf(iter), record);
      InsertedRows(Contents(), GapOf(iter), record);
      Contained(recs', record, within);
      InsertAt(iter, record);
      Within(within);
    }

    /** Records of the tree, and one more, are within that. */
    lemma Contained(recs': seq<Record>, record: Record, within: set<Record>)
      requires root in heap && within == Contains() + {record}
      requires forall r :: r in recs' ==> r in Contents() || r == record
      ensures forall r :: r in recs' ==> r in within
    {
    }

    lemma Within(within: set<Record>)
      requires root in heap && forall r :: r in Contents() ==> r in within
      ensures Contains() <= within
    {
    }

    /**
     Inserts a record, or, when its key is there, gives the record there the new value or
     refuses.
     */
    method InsertOpt(record: Record, replace: bool) returns (ret: Status)
      requires Valid() && Sorted()
      modifies this, nodes, Contains()
      ensures Valid() && Sorted() && fresh(nodes - old(nodes)) && Contains() <= old(Contains()) + {record}
      ensures ret == DUPLICATE <==> Has(old(Rows()), record.key) && !replace
      ensures ret == OK ==> Rows() == Upsert(old(Rows()), old(RowOf(record)))
      ensures ret == DUPLICATE ==> Rows() == old(Rows())
    {
      hide IsPos, GapAt, Tree, Has, Upsert;
      var found, iter := Find(record.key);
      ghost var gap, recs := GapOf(iter), Contents();
      RankOfGap(recs, record.key, gap, found);
      if found {
        if replace {
          UpsertHere(RowsOf(recs), gap, RowOf(record));
          ReplaceRecord(recs, gap, iter.record.value, record);
          ret := OK;
        } else {
          ret := DUPLICATE;
        }
      } else {
        InsertNew(iter, record);
        ret := OK;
      }
    }

    /** Inserts a record, or gives the one for its key the new value. */
    method Replace(record: Record)
      requires Valid() && Sorted()
      modifies Footprint()
      ensures Valid() && Sorted() && Rows() == Upsert(old(Rows()), old(RowOf(record)))
      ensures fresh(Footprint() - old(Footprint()) - {record})
    {
      var ret := InsertOpt(record, true);
    }
  }
}
