/**
 Snapshots of a memtree: the live part of every node, as a value.  What makes a set of
 nodes a tree is stated on snapshots, and so is what one step of an insertion does to it.
 */
module MemTreeHeap {
  import opened MemTreeNode
  import opened Weave

  /** The live part of a node: its records, and its children when it is internal. */
  datatype View = View(slots: bool, depth: nat, parent: Node?, pos: nat, recs: seq<Record>, kids: seq<Node>,
                       contents: seq<Record>)

  type Heap = map<Node, View>

  /** All of a node's fields. */
  datatype Raw = Raw(depth: nat, parent: Node?, count: nat, pos: nat, recs: seq<Record>, branches: seq<Node>,
                     contents: seq<Record>)
  {
    ghost predicate HasSlots() {
      |recs| == MAX_ELEMENTS && |branches| == MAX_ELEMENTS + 1 && count <= MAX_ELEMENTS
    }

    /** The branches in the slots from `from` up to the last one. */
    ghost function Kids(from: nat): set<Node>
      requires HasSlots()
    {
      set i | from <= i <= count :: branches[i]
    }

    ghost function Live(): View {
      if !HasSlots() then View(false, depth, parent, pos, [], [], contents)
      else View(true, depth, parent, pos, recs[..count], if depth == 0 then [] else branches[..count + 1], contents)
    }
  }

  ghost function Copy(n: Node): Raw
    reads n
  {
    Raw(n.depth, n.parent, n.count, n.pos, n.recs, n.branches, n.contents)
  }

  ghost function Image(nodes: set<Node>): map<Node, Raw>
    reads nodes
  {
    map n | n in nodes :: Copy(n)
  }

  ghost function Live(r: map<Node, Raw>): Heap {
    map n | n in r :: r[n].Live()
  }

  ghost function Snap(nodes: set<Node>): Heap
    reads nodes
  {
    Live(Image(nodes))
  }

  // ---------- what makes a snapshot a tree ----------

  /** The links below n, and how full n is: 5 to 10 records, the root 1 to 10 or a leaf. */
  ghost predicate Shape(h: Heap, root: Node, n: Node)
    requires n in h
  {
    var v := h[n];
    && v.slots && |v.recs| <= MAX_ELEMENTS
    && (n != root ==> MIN_ELEMENTS <= |v.recs|)
    && (v.depth == 0 ==> v.kids == [])
    && (v.depth > 0 ==> 0 < |v.recs| && |v.kids| == |v.recs| + 1)
    && forall i :: 0 <= i < |v.kids| ==> Linked(h, n, i)
  }

  /** So many records and children a node has. */
  lemma FillBounds(h: Heap, root: Node, n: Node)
    requires n in h && Shape(h, root, n)
    ensures |h[n].recs| <= 10 && (n != root ==> 5 <= |h[n].recs|)
    ensures h[n].depth > 0 ==> |h[n].kids| <= 11 && (n != root ==> 6 <= |h[n].kids|)
  {
  }

  /** Child i of n is a node one level down that knows its parent and its slot. */
  ghost predicate Linked(h: Heap, n: Node, i: nat)
    requires n in h && i < |h[n].kids|
  {
    var c := h[n].kids[i];
    c in h && h[c].parent == n && h[c].pos == i && h[c].depth + 1 == h[n].depth
  }

  /** The links above n. */
  ghost predicate Attached(h: Heap, root: Node, n: Node)
    requires n in h && root in h
  {
    var v := h[n];
    && v.depth <= h[root].depth
    && (n == root ==> v.parent == null)
    && (n != root ==>
      && v.parent != null && v.parent in h && h[v.parent].depth == v.depth + 1
      && v.pos < |h[v.parent].kids| && h[v.parent].kids[v.pos] == n)
  }

  ghost function KidContents(h: Heap, kids: seq<Node>): (k: seq<seq<Record>>)
    requires forall i :: 0 <= i < |kids| ==> kids[i] in h
    ensures |k| == |kids|
    ensures forall i :: 0 <= i < |k| ==> k[i] == h[kids[i]].contents
  {
    seq(|kids|, i requires 0 <= i < |kids| => h[kids[i]].contents)
  }

  /** n's contents are its records woven between its children's contents. */
  ghost predicate Summed(h: Heap, root: Node, n: Node)
    requires n in h && Shape(h, root, n)
  {
    h[n].contents == Sum(h, root, n)
  }

  ghost function Sum(h: Heap, root: Node, n: Node): seq<Record>
    requires n in h && Shape(h, root, n)
  {
    var kids := h[n].kids;
    KidsLinked(h, root, n);
    Total(h[n].recs, KidContents(h, kids))
  }

  /** What holds of node m in a tree, but for the contents of `unsummed` and the place of `loose`. */
  ghost predicate Fine(h: Heap, root: Node, unsummed: Node?, loose: Node?, m: Node)
    requires m in h && root in h
  {
    && Shape(h, root, m)
    && (m != unsummed ==> Summed(h, root, m))
    && (m != loose ==> Attached(h, root, m))
  }

  /** A tree, but for the contents of `unsummed` and the place of `loose`, if any. */
  ghost predicate TreeBut(h: Heap, root: Node, unsummed: Node?, loose: Node?)
  {
    && root in h && root != loose
    && (forall m {:trigger Fine(h, root, unsummed, loose, m)} :: m in h ==> Fine(h, root, unsummed, loose, m))
  }

  ghost predicate Tree(h: Heap, root: Node)
  {
    TreeBut(h, root, null, null)
  }

  /** branch can go into n: it is a new right sibling of a child of n, or n is a leaf. */
  ghost predicate Fits(h: Heap, n: Node, branch: Node?)
    requires n in h
  {
    if h[n].depth == 0 then branch == null
    else branch != null && branch != n && branch in h && branch !in h[n].kids
         && h[branch].parent == n && h[branch].depth + 1 == h[n].depth
  }

  // ---------- one step of an insertion ----------

  /** Only the links to the parent may differ. */
  ghost predicate Relinked(v: View, v': View)
  {
    v' == v.(parent := v'.parent, pos := v'.pos)
  }

  ghost function Side(h: Heap, branch: Node?): seq<Record>
    requires branch != null ==> branch in h
  {
    if branch == null then [] else h[branch].contents
  }

  /** n's children after branch goes in right of slot pos; a leaf has none. */
  ghost function NewKids(h: Heap, n: Node, branch: Node?, pos: nat): seq<Node>
    requires n in h && (h[n].kids == [] || pos < |h[n].kids|)
  {
    if branch == null || h[n].kids == [] then [] else h[n].kids[..pos + 1] + [branch] + h[n].kids[pos + 1..]
  }

  /**
   h' is h after rec and branch went into n at pos: n's children are relinked in their new
   slots, and nothing else but n's contents may have changed.
   */
  ghost predicate Inserted(h: Heap, h': Heap, n: Node, branch: Node?, rec: Record, pos: nat)
    requires n in h && pos <= |h[n].recs| && (h[n].kids == [] || pos < |h[n].kids|)
  {
    && h'.Keys == h.Keys
    && h'[n] == h[n].(recs := h[n].recs[..pos] + [rec] + h[n].recs[pos..],
                      kids := NewKids(h, n, branch, pos), contents := h'[n].contents)
    && (forall m :: m in h && m != n ==> Relinked(h[m], h'[m]))
    && (forall m :: m in h && m != n && m !in h'[n].kids ==> h'[m] == h[m])
    && (forall i :: 0 <= i < |h'[n].kids| ==>
      h'[n].kids[i] in h' && h'[h'[n].kids[i]].parent == n && h'[h'[n].kids[i]].pos == i)
  }

  lemma InsertKeepsShape(h: Heap, h': Heap, root: Node, n: Node, branch: Node?, rec: Record, pos: nat, m: Node)
    requires n in h && Shape(h, root, n) && pos <= |h[n].recs| < MAX_ELEMENTS && Fits(h, n, branch)
    requires Inserted(h, h', n, branch, rec, pos)
    requires m in h && Shape(h, root, m)
    ensures Shape(h', root, m)
  {
    ShapeKids(h, root, n);
    NewKidsLength(h, n, branch, pos);
    InsertedRest(h, h', n, branch, rec, pos, m);
    if m == n {
      forall i | 0 <= i < |h'[n].kids| ensures Linked(h', n, i) {
        InsertedPlace(h, h', root, n, branch, rec, pos, i);
        InsertedRest(h, h', n, branch, rec, pos, h'[n].kids[i]);
      }
      hide NewKids, Fits, Linked;
    } else {
      NewKidsFit(h, root, n, branch, pos);
      forall i | 0 <= i < |h'[m].kids| ensures Linked(h', m, i) {
        assert Linked(h, m, i);
        InsertedRest(h, h', n, branch, rec, pos, h[m].kids[i]);
      }
      assert Relinked(h[m], h'[m]);
      hide NewKids, Fits, Linked;
    }
  }

  /** A node whose records, children and children's links stay keeps its shape. */
  lemma ShapeKept(h: Heap, h': Heap, root: Node, root': Node, m: Node)
    requires m in h && m in h' && Shape(h, root, m)
    requires m != root' ==> MIN_ELEMENTS <= |h[m].recs|
    requires h'[m].slots && h'[m].depth == h[m].depth && h'[m].recs == h[m].recs && h'[m].kids == h[m].kids
    requires forall i :: 0 <= i < |h[m].kids| ==>
      var c := h[m].kids[i];
      c in h && c in h' && h'[c].parent == h[c].parent && h'[c].pos == h[c].pos && h'[c].depth == h[c].depth
    ensures Shape(h', root', m)
  {
    forall i | 0 <= i < |h'[m].kids| ensures Linked(h', m, i) {
      assert Linked(h, m, i);
    }
  }

  /** Contents of nodes without changed children stay summed. */
  lemma SummedKept(h: Heap, h': Heap, root: Node, root': Node, m: Node)
    requires m in h && m in h' && Shape(h, root, m) && Shape(h', root', m) && Summed(h, root, m)
    requires h'[m].depth == h[m].depth && h'[m].recs == h[m].recs && h'[m].kids == h[m].kids
      && h'[m].contents == h[m].contents
    requires forall i :: 0 <= i < |h[m].kids| ==>
      h[m].kids[i] in h && h[m].kids[i] in h' && h'[h[m].kids[i]].contents == h[h[m].kids[i]].contents
    ensures Summed(h', root', m)
  {
    assert KidContents(h', h'[m].kids) == KidContents(h, h[m].kids);
  }

  /** m hangs below p at slot j. */
  lemma AttachedAt(h: Heap, root: Node, m: Node, p: Node, j: nat)
    requires m in h && root in h && p in h && m != root && h[m].depth <= h[root].depth
    requires h[m].parent == p && h[m].pos == j && h[p].depth == h[m].depth + 1
    requires j < |h[p].kids| && h[p].kids[j] == m
    ensures Attached(h, root, m)
  {
  }

  /** What an insertion leaves alone. */
  lemma InsertedRest(h: Heap, h': Heap, n: Node, branch: Node?, rec: Record, pos: nat, m: Node)
    requires n in h && pos <= |h[n].recs| && (h[n].kids == [] || pos < |h[n].kids|) && m in h
    requires Inserted(h, h', n, branch, rec, pos)
    ensures m in h' && h'[m].depth == h[m].depth && (m != n ==> h'[m].kids == h[m].kids)
    ensures m == n || m !in h'[n].kids ==> h'[m].parent == h[m].parent && h'[m].pos == h[m].pos
    ensures n in h' && h'[n].kids == NewKids(h, n, branch, pos)
  {
    hide NewKids;
    assert m != n ==> Relinked(h[m], h'[m]);
  }

  lemma InsertedPlace(h: Heap, h': Heap, root: Node, n: Node, branch: Node?, rec: Record, pos: nat, j: nat)
    requires n in h && Shape(h, root, n) && pos <= |h[n].recs| && Fits(h, n, branch)
    requires Inserted(h, h', n, branch, rec, pos) && n in h' && j < |h'[n].kids|
    ensures var m := h'[n].kids[j];
      m in h && m in h' && h'[m].parent == n && h'[m].pos == j && h[m].depth + 1 == h[n].depth
  {
    NewKidsFit(h, root, n, branch, pos);
    hide NewKids, Shape, Fits, Relinked;
    InsertedRest(h, h', n, branch, rec, pos, n);
  }

  lemma InsertKeepsAttached(h: Heap, h': Heap, root: Node, n: Node, branch: Node?, rec: Record, pos: nat, m: Node)
    requires n in h && root in h && Shape(h, root, n) && pos <= |h[n].recs| < MAX_ELEMENTS && Fits(h, n, branch)
    requires Attached(h, root, n) && root != branch
    requires Inserted(h, h', n, branch, rec, pos)
    requires m in h && (m != branch ==> Attached(h, root, m))
    ensures Attached(h', root, m)
  {
    ShapeKids(h, root, n);
    hide Shape, Fits, Inserted, NewKids;
    InsertedRest(h, h', n, branch, rec, pos, m);
    InsertedRest(h, h', n, branch, rec, pos, n);
    InsertedRest(h, h', n, branch, rec, pos, root);
    if m in h'[n].kids && m != n {
      var j :| 0 <= j < |h'[n].kids| && h'[n].kids[j] == m;
      InsertedPlace(h, h', root, n, branch, rec, pos, j);
      AttachedAt(h', root, m, n, j);
    } else {
      if m == branch {
        FitsBranch(h, n, branch);
        NewKidsKeep(h, root, n, branch, pos, m);
      } else if m != root {
        var p := h[m].parent;
        InsertedRest(h, h', n, branch, rec, pos, p);
        if p == n {
          NewKidsKeep(h, root, n, branch, pos, m);
        }
      }
    }
  }

  lemma ShapeKids(h: Heap, root: Node, n: Node)
    requires n in h && Shape(h, root, n)
    ensures if h[n].depth == 0 then h[n].kids == [] else |h[n].kids| == |h[n].recs| + 1 > 1
  {
  }

  lemma FitsBranch(h: Heap, n: Node, branch: Node?)
    requires n in h && Fits(h, n, branch) && branch != null
    ensures h[n].depth > 0 && branch != n
  {
  }

  /** KidContents of the new children. */
  /** Contents of a, c and b one after the other, when a snapshot leaves them alone. */
  lemma ContentsAround(h: Heap, h': Heap, a: seq<Node>, c: Node, b: seq<Node>)
    requires forall m :: m in a + [c] + b ==> m in h && m in h' && h'[m].contents == h[m].contents
    ensures (forall m :: m in a ==> m in h) && (forall m :: m in b ==> m in h) && c in h
    ensures (forall m :: m in a + [c] + b ==> m in h')
      && KidContents(h', a + [c] + b) == KidContents(h, a) + [h[c].contents] + KidContents(h, b)
  {
    assert forall m :: m in a ==> m in a + [c] + b;
    assert forall m :: m in b ==> m in a + [c] + b;
    assert c in a + [c] + b;
  }

  lemma ContentsCut(h: Heap, kids: seq<Node>, i: nat)
    requires i <= |kids| && forall j :: 0 <= j < |kids| ==> kids[j] in h
    ensures KidContents(h, kids)[..i] == KidContents(h, kids[..i])
    ensures KidContents(h, kids)[i..] == KidContents(h, kids[i..])
  {
  }

  lemma FitsKids(h: Heap, root: Node, n: Node, branch: Node?, pos: nat)
    requires n in h && Shape(h, root, n) && pos <= |h[n].recs| && Fits(h, n, branch)
    ensures h[n].kids != [] ==> branch != null && branch in h && branch != n && pos < |h[n].kids|
    ensures h[n].kids == [] ==> branch == null
  {
  }

  lemma InsertedKidContents(h: Heap, h': Heap, root: Node, n: Node, branch: Node?, rec: Record, pos: nat)
    requires n in h && Shape(h, root, n) && pos <= |h[n].recs| && Fits(h, n, branch)
    requires forall m :: m in h && m != n ==> m in h' && h'[m].contents == h[m].contents
    requires forall i :: 0 <= i < |h[n].kids| ==> h[n].kids[i] in h && h[n].kids[i] != n
    ensures var k, k' := h[n].kids, NewKids(h, n, branch, pos);
      && (forall i :: 0 <= i < |k'| ==> k'[i] in h')
      && KidContents(h', k') == if k == [] then [] else
           KidContents(h, k)[..pos + 1] + [Side(h, branch)] + KidContents(h, k)[pos + 1..]
  {
    var k := h[n].kids;
    FitsKids(h, root, n, branch, pos);
    hide Shape, Fits, KidContents;
    if k != [] {
      ContentsCut(h, k, pos + 1);
      ContentsAround(h, h', k[..pos + 1], branch, k[pos + 1..]);
    }
  }

  /** What n's contents become when rec, and right of it branch, go in at pos. */
  ghost function Grafted(h: Heap, root: Node, n: Node, branch: Node?, rec: Record, pos: nat): seq<Record>
    requires n in h && Shape(h, root, n) && pos <= |h[n].recs| && (branch != null ==> branch in h)
  {
    var kids := h[n].kids;
    KidsLinked(h, root, n);
    Graft(h[n].recs, KidContents(h, kids), pos, rec, Side(h, branch))
  }

  lemma KidsLinked(h: Heap, root: Node, n: Node)
    requires n in h && Shape(h, root, n)
    ensures forall i :: 0 <= i < |h[n].kids| ==>
      var c := h[n].kids[i];
      c in h && c != n && h[c].parent == n && h[c].pos == i && h[c].depth + 1 == h[n].depth
  {
    forall i | 0 <= i < |h[n].kids|
      ensures var c := h[n].kids[i];
        c in h && c != n && h[c].parent == n && h[c].pos == i && h[c].depth + 1 == h[n].depth
    {
      assert Linked(h, n, i);
    }
  }

  lemma InsertKeepsSummed(h: Heap, h': Heap, root: Node, n: Node, branch: Node?, rec: Record, pos: nat, m: Node)
    requires n in h && Shape(h, root, n) && pos <= |h[n].recs| < MAX_ELEMENTS && Fits(h, n, branch)
    requires Inserted(h, h', n, branch, rec, pos)
    requires m in h && Shape(h, root, m) && Shape(h', root, m)
    requires m != n ==> Summed(h, root, m)
    requires m == n ==> h'[n].contents == Grafted(h, root, n, branch, rec, pos)
    requires h[n].parent != m
    ensures Summed(h', root, m)
  {
    KidsLinked(h, root, n);
    if m == n {
      InsertedKidContents(h, h', root, n, branch, rec, pos);
    } else {
      forall i | 0 <= i < |h[m].kids| ensures h[m].kids[i] in h && h[m].kids[i] != n {
        assert Linked(h, m, i);
      }
      SummedKept(h, h', root, root, m);
    }
  }

  /** A node with room takes rec and branch; only its parent's contents are then out of date. */
  lemma InsertStep(h: Heap, h': Heap, root: Node, n: Node, branch: Node?, rec: Record, pos: nat)
    requires TreeBut(h, root, n, branch) && n in h && n != branch
    requires pos <= |h[n].recs| < MAX_ELEMENTS && Fits(h, n, branch)
    requires Shape(h, root, n) && Inserted(h, h', n, branch, rec, pos)
    requires h'[n].contents == Grafted(h, root, n, branch, rec, pos)
    ensures TreeBut(h', root, h[n].parent, null)
  {
    assert Fine(h, root, n, branch, n) && Fine(h, root, n, branch, root);
    forall m | m in h' ensures Fine(h', root, h[n].parent, null, m) {
      assert Fine(h, root, n, branch, m);
      InsertKeepsShape(h, h', root, n, branch, rec, pos, m);
      InsertKeepsAttached(h, h', root, n, branch, rec, pos, m);
      if m != h[n].parent {
        InsertKeepsSummed(h, h', root, n, branch, rec, pos, m);
      }
    }
  }

  // ---------- one split ----------

  /** The first six children after branch goes in, and the last six; none for a leaf. */
  ghost function LeftKids(kids: seq<Node>): seq<Node> {
    if |kids| < MIN_ELEMENTS + 1 then [] else kids[..MIN_ELEMENTS + 1]
  }

  ghost function RightKids(kids: seq<Node>): seq<Node> {
    if |kids| < MIN_ELEMENTS + 1 then [] else kids[MIN_ELEMENTS + 1..]
  }

  /** h' is h after a full n, with rec and branch put in at pos, was split around median. */
  ghost predicate WasSplit(h: Heap, h': Heap, n: Node, branch: Node?, rec: Record, pos: nat, right: Node,
                           median: Record)
    requires n in h && |h[n].recs| == MAX_ELEMENTS && pos <= MAX_ELEMENTS
    requires h[n].kids == [] || |h[n].kids| == MAX_ELEMENTS + 1
  {
    var recs, kids := h[n].recs[..pos] + [rec] + h[n].recs[pos..], NewKids(h, n, branch, pos);
    && right !in h && h'.Keys == h.Keys + {right}
    && median == recs[MIN_ELEMENTS]
    && h'[n] == h[n].(recs := recs[..MIN_ELEMENTS], kids := LeftKids(kids), contents := h'[n].contents)
    && h'[right] == View(true, h[n].depth, h[n].parent, h'[right].pos, recs[MIN_ELEMENTS + 1..], RightKids(kids),
      h'[right].contents)
    && (forall m :: m in h && m != n ==> Relinked(h[m], h'[m]))
    && (forall m :: m in h && m != n && m !in kids ==> h'[m] == h[m])
    && Adopted(h', n) && Adopted(h', right)
  }

  /** The children of n know n and their slots. */
  ghost predicate Adopted(h: Heap, n: Node)
    requires n in h
  {
    forall i :: 0 <= i < |h[n].kids| ==> h[n].kids[i] in h && h[h[n].kids[i]].parent == n && h[h[n].kids[i]].pos == i
  }

  lemma AdoptedAt(h: Heap, n: Node, i: nat)
    requires n in h && Adopted(h, n) && i < |h[n].kids|
    ensures h[n].kids[i] in h && h[h[n].kids[i]].parent == n && h[h[n].kids[i]].pos == i
  {
  }

  lemma NewKidsFit(h: Heap, root: Node, n: Node, branch: Node?, pos: nat)
    requires n in h && Shape(h, root, n) && pos <= |h[n].recs| && Fits(h, n, branch)
    ensures forall i :: 0 <= i < |NewKids(h, n, branch, pos)| ==>
      var c := NewKids(h, n, branch, pos)[i];
      c in h && c != n && h[c].parent == n && h[c].depth + 1 == h[n].depth
  {
    var kids := NewKids(h, n, branch, pos);
    forall i | 0 <= i < |kids|
      ensures kids[i] in h && kids[i] != n && h[kids[i]].parent == n && h[kids[i]].depth + 1 == h[n].depth
    {
      if i <= pos { assert Linked(h, n, i); } else if i > pos + 1 { assert Linked(h, n, i - 1); }
    }
  }

  /** The children of n, and branch, are among the new children. */
  lemma NewKidsKeep(h: Heap, root: Node, n: Node, branch: Node?, pos: nat, m: Node)
    requires n in h && Shape(h, root, n) && pos <= |h[n].recs| && Fits(h, n, branch)
    requires m in h[n].kids || (h[n].depth > 0 && m == branch)
    ensures m in NewKids(h, n, branch, pos)
  {
    var kids := NewKids(h, n, branch, pos);
    if m == branch {
      assert kids[pos + 1] == m;
    } else {
      var i :| 0 <= i < |h[n].kids| && h[n].kids[i] == m;
      assert kids[if i <= pos then i else i + 1] == m;
    }
  }

  lemma SplitKeepsShape(h: Heap, h': Heap, root: Node, n: Node, branch: Node?, rec: Record, pos: nat,
                        right: Node, median: Record, m: Node)
    requires n in h && Shape(h, root, n) && pos <= |h[n].recs| == MAX_ELEMENTS && Fits(h, n, branch)
    requires WasSplit(h, h', n, branch, rec, pos, right, median) && root in h
    requires m in h' && (m != right ==> Shape(h, root, m))
    ensures Shape(h', root, m)
  {
    ShapeKids(h, root, n);
    NewKidsFit(h, root, n, branch, pos);
    NewKidsLength(h, n, branch, pos);
    if m == n || m == right {
      HalfLinked(h, h', n, branch, rec, pos, right, median, m);
      hide NewKids, Fits, Linked, Adopted;
    } else {
      SplitRest(h, h', n, branch, rec, pos, right, median, m);
      forall i | 0 <= i < |h'[m].kids| ensures Linked(h', m, i) {
        assert Linked(h, m, i);
        SplitRest(h, h', n, branch, rec, pos, right, median, h[m].kids[i]);
      }
      assert Relinked(h[m], h'[m]);
      hide NewKids, Fits, Linked, Adopted;
    }
  }

  /** The halves' children are linked. */
  lemma HalfLinked(h: Heap, h': Heap, n: Node, branch: Node?, rec: Record, pos: nat, right: Node, median: Record,
                   m: Node)
    requires n in h && |h[n].recs| == MAX_ELEMENTS && pos <= MAX_ELEMENTS
    requires h[n].kids == [] || |h[n].kids| == MAX_ELEMENTS + 1
    requires WasSplit(h, h', n, branch, rec, pos, right, median) && m in h' && (m == n || m == right)
    requires |NewKids(h, n, branch, pos)| == if h[n].kids == [] then 0 else MAX_ELEMENTS + 2
    requires forall i :: 0 <= i < |NewKids(h, n, branch, pos)| ==>
      var c := NewKids(h, n, branch, pos)[i]; c in h && c != n && h[c].depth + 1 == h[n].depth
    ensures forall i :: 0 <= i < |h'[m].kids| ==> Linked(h', m, i)
    ensures |h'[m].kids| == if h[n].kids == [] then 0 else MIN_ELEMENTS + 1
  {
    hide NewKids;
    var kids := NewKids(h, n, branch, pos);
    forall i | 0 <= i < |h'[m].kids| ensures Linked(h', m, i) {
      var j := if m == n then i else i + MIN_ELEMENTS + 1;
      assert h'[m].kids[i] == kids[j];
      SplitPlace(h, h', n, branch, rec, pos, right, median, j);
      SplitRest(h, h', n, branch, rec, pos, right, median, kids[j]);
    }
  }

  /** What a split leaves alone. */
  lemma SplitRest(h: Heap, h': Heap, n: Node, branch: Node?, rec: Record, pos: nat, right: Node, median: Record,
                  m: Node)
    requires n in h && |h[n].recs| == MAX_ELEMENTS && pos <= MAX_ELEMENTS && m in h
    requires h[n].kids == [] || |h[n].kids| == MAX_ELEMENTS + 1
    requires WasSplit(h, h', n, branch, rec, pos, right, median)
    ensures m in h' && m != right && h'[m].depth == h[m].depth && (m != n ==> h'[m].kids == h[m].kids)
    ensures m == n || m !in NewKids(h, n, branch, pos) ==> h'[m].parent == h[m].parent && h'[m].pos == h[m].pos
  {
    hide NewKids, Adopted;
    assert m != n ==> Relinked(h[m], h'[m]);
  }

  lemma NewKidsLength(h: Heap, n: Node, branch: Node?, pos: nat)
    requires n in h && (h[n].kids == [] || pos < |h[n].kids|) && Fits(h, n, branch)
    requires h[n].depth == 0 <==> h[n].kids == []
    ensures |NewKids(h, n, branch, pos)| == if h[n].kids == [] then 0 else |h[n].kids| + 1
  {
  }

  /** Where the split puts child j of the new children. */
  lemma SplitPlace(h: Heap, h': Heap, n: Node, branch: Node?, rec: Record, pos: nat, right: Node, median: Record,
                   j: nat)
    requires n in h && |h[n].recs| == MAX_ELEMENTS && pos <= MAX_ELEMENTS
    requires h[n].kids == [] || |h[n].kids| == MAX_ELEMENTS + 1
    requires WasSplit(h, h', n, branch, rec, pos, right, median)
    requires j < |NewKids(h, n, branch, pos)| && |NewKids(h, n, branch, pos)| > MIN_ELEMENTS
    ensures var m := NewKids(h, n, branch, pos)[j];
      var (p, i) := if j <= MIN_ELEMENTS then (n, j) else (right, j - MIN_ELEMENTS - 1);
      && m in h' && p in h' && h'[p].depth == h[n].depth && i < |h'[p].kids| && h'[p].kids[i] == m
      && h'[m].parent == p && h'[m].pos == i
  {
    var kids := NewKids(h, n, branch, pos);
    hide NewKids, Relinked, LeftKids, RightKids, WasSplit, Adopted;
    KidHalf(kids, j);
    WasAdopted(h, h', n, branch, rec, pos, right, median);
    if j <= MIN_ELEMENTS {
      AdoptedAt(h', n, j);
    } else {
      AdoptedAt(h', right, j - MIN_ELEMENTS - 1);
    }
  }

  lemma WasAdopted(h: Heap, h': Heap, n: Node, branch: Node?, rec: Record, pos: nat, right: Node, median: Record)
    requires n in h && |h[n].recs| == MAX_ELEMENTS && pos <= MAX_ELEMENTS
    requires h[n].kids == [] || |h[n].kids| == MAX_ELEMENTS + 1
    requires WasSplit(h, h', n, branch, rec, pos, right, median)
    ensures n in h' && right in h' && h'[n].depth == h'[right].depth == h[n].depth
    ensures var kids := NewKids(h, n, branch, pos); h'[n].kids == LeftKids(kids) && h'[right].kids == RightKids(kids)
    ensures Adopted(h', n) && Adopted(h', right)
  {
    hide NewKids, Relinked, LeftKids, RightKids, Adopted;
  }

  lemma KidHalf(kids: seq<Node>, j: nat)
    requires |kids| >= MIN_ELEMENTS + 1 && j < |kids|
    ensures if j <= MIN_ELEMENTS then |LeftKids(kids)| == MIN_ELEMENTS + 1 && LeftKids(kids)[j] == kids[j]
            else |RightKids(kids)| == |kids| - MIN_ELEMENTS - 1 && RightKids(kids)[j - MIN_ELEMENTS - 1] == kids[j]
  {
  }

  lemma SplitAttachesKid(h: Heap, h': Heap, root: Node, n: Node, branch: Node?, rec: Record, pos: nat,
                         right: Node, median: Record, m: Node)
    requires n in h && root in h && Shape(h, root, n) && pos <= |h[n].recs| == MAX_ELEMENTS && Fits(h, n, branch)
    requires Attached(h, root, n) && Attached(h, root, root)
    requires WasSplit(h, h', n, branch, rec, pos, right, median)
    requires m in NewKids(h, n, branch, pos)
    ensures m in h' && Attached(h', root, m)
  {
    ShapeKids(h, root, n);
    NewKidsFit(h, root, n, branch, pos);
    NewKidsLength(h, n, branch, pos);
    hide NewKids, WasSplit, Shape, Fits;
    var kids := NewKids(h, n, branch, pos);
    var j :| 0 <= j < |kids| && kids[j] == m;
    SplitPlace(h, h', n, branch, rec, pos, right, median, j);
    SplitRest(h, h', n, branch, rec, pos, right, median, m);
    SplitRest(h, h', n, branch, rec, pos, right, median, root);
    AttachedAt(h', root, m, if j <= MIN_ELEMENTS then n else right, h'[m].pos);
  }

  lemma SplitKeepsAttached(h: Heap, h': Heap, root: Node, n: Node, branch: Node?, rec: Record, pos: nat,
                           right: Node, median: Record, m: Node)
    requires n in h && root in h && Shape(h, root, n) && pos <= |h[n].recs| == MAX_ELEMENTS && Fits(h, n, branch)
    requires Attached(h, root, n) && Attached(h, root, root) && root != branch
    requires WasSplit(h, h', n, branch, rec, pos, right, median)
    requires m in h && (m != branch ==> Attached(h, root, m))
    ensures Attached(h', root, m)
  {
    if m in NewKids(h, n, branch, pos) {
      SplitAttachesKid(h, h', root, n, branch, rec, pos, right, median, m);
    } else if m == branch {
      NewKidsKeep(h, root, n, branch, pos, m);
    } else if m != root && h[m].parent == n {
      NewKidsKeep(h, root, n, branch, pos, m);
    }
  }

  lemma SplitKeepsSummed(h: Heap, h': Heap, root: Node, n: Node, branch: Node?, rec: Record, pos: nat,
                         right: Node, median: Record, m: Node)
    requires n in h && Shape(h, root, n) && pos <= |h[n].recs| == MAX_ELEMENTS && Fits(h, n, branch)
    requires WasSplit(h, h', n, branch, rec, pos, right, median)
    requires m in h && m != n && Shape(h, root, m) && Shape(h', root, m) && Summed(h, root, m)
    requires h[n].parent != m
    ensures Summed(h', root, m)
  {
    forall i | 0 <= i < |h[m].kids| ensures h[m].kids[i] in h && h[m].kids[i] != n {
      assert Linked(h, m, i);
    }
    SummedKept(h, h', root, root, m);
  }

  /** Cutting the grafted children between the two halves. */
  lemma SplitKidContents(h': Heap, kids: seq<Node>)
    requires |kids| == MAX_ELEMENTS + 2
    requires forall i :: 0 <= i < |kids| ==> kids[i] in h'
    ensures forall i :: 0 <= i < |LeftKids(kids)| ==> LeftKids(kids)[i] in h'
    ensures forall i :: 0 <= i < |RightKids(kids)| ==> RightKids(kids)[i] in h'
    ensures KidContents(h', LeftKids(kids)) == KidContents(h', kids)[..MIN_ELEMENTS + 1]
    ensures KidContents(h', RightKids(kids)) == KidContents(h', kids)[MIN_ELEMENTS + 1..]
  {
  }

  /** The contents of an internal node, and of a leaf. */
  lemma SumOf(h: Heap, root: Node, n: Node)
    requires n in h && Shape(h, root, n)
    ensures forall i :: 0 <= i < |h[n].kids| ==> h[n].kids[i] in h
    ensures h[n].kids == [] ==> Sum(h, root, n) == h[n].recs
    ensures h[n].kids != [] ==>
      |h[n].kids| == |h[n].recs| + 1 && Sum(h, root, n) == Woven(h[n].recs, KidContents(h, h[n].kids))
  {
    hide Woven;
    KidsLinked(h, root, n);
    ShapeKids(h, root, n);
  }

  /** What is grafted, seen from the new children. */
  lemma GraftedOf(h: Heap, h': Heap, root: Node, n: Node, branch: Node?, rec: Record, pos: nat)
    requires n in h && Shape(h, root, n) && pos <= |h[n].recs| && Fits(h, n, branch)
    requires forall m :: m in h && m != n ==> m in h' && h'[m].contents == h[m].contents
    ensures var (recs, kids) := (h[n].recs[..pos] + [rec] + h[n].recs[pos..], NewKids(h, n, branch, pos));
      && (forall i :: 0 <= i < |kids| ==> kids[i] in h')
      && (kids == [] || |kids| == |recs| + 1) && (kids == [] <==> h[n].kids == [])
      && Grafted(h, root, n, branch, rec, pos) == if kids == [] then recs else Woven(recs, KidContents(h', kids))
  {
    KidsLinked(h, root, n);
    ShapeKids(h, root, n);
    NewKidsLength(h, n, branch, pos);
    InsertedKidContents(h, h', root, n, branch, rec, pos);
    hide Woven, NewKids, Shape, KidContents, Fits;
  }

  /** What a split leaves in the halves. */
  lemma SplitParts(h: Heap, h': Heap, n: Node, branch: Node?, rec: Record, pos: nat, right: Node, median: Record)
    requires n in h && |h[n].recs| == MAX_ELEMENTS && pos <= MAX_ELEMENTS
    requires h[n].kids == [] || |h[n].kids| == MAX_ELEMENTS + 1
    requires WasSplit(h, h', n, branch, rec, pos, right, median)
    ensures var (recs, kids) := (h[n].recs[..pos] + [rec] + h[n].recs[pos..], NewKids(h, n, branch, pos));
      && n in h' && right in h' && h'[n].recs == recs[..MIN_ELEMENTS] && h'[right].recs == recs[MIN_ELEMENTS + 1..]
      && median == recs[MIN_ELEMENTS] && h'[n].kids == LeftKids(kids) && h'[right].kids == RightKids(kids)
    ensures forall m :: m in h && m != n ==> m in h' && h'[m].contents == h[m].contents
  {
    hide NewKids, LeftKids, RightKids, Adopted;
    forall m | m in h && m != n ensures m in h' && h'[m].contents == h[m].contents {
      assert Relinked(h[m], h'[m]);
    }
  }

  lemma AroundMiddle<T>(s: seq<T>, i: nat)
    requires i < |s|
    ensures s == s[..i] + [s[i]] + s[i + 1..]
  {
  }

  /** The two halves around the median hold what was grafted. */
  lemma SplitSums(h: Heap, h': Heap, root: Node, n: Node, branch: Node?, rec: Record, pos: nat, right: Node,
                  median: Record)
    requires n in h && Shape(h, root, n) && pos <= |h[n].recs| == MAX_ELEMENTS && Fits(h, n, branch)
    requires WasSplit(h, h', n, branch, rec, pos, right, median)
    requires Shape(h', root, n) && Shape(h', root, right)
    ensures Sum(h', root, n) + [median] + Sum(h', root, right) == Grafted(h, root, n, branch, rec, pos)
  {
    ShapeKids(h, root, n);
    NewKidsLength(h, n, branch, pos);
    hide WasSplit, Shape, Fits, NewKids, Woven, Sum, Grafted, LeftKids, RightKids, KidContents, After, Before, Graft,
      Side;
    SplitParts(h, h', n, branch, rec, pos, right, median);
    GraftedOf(h, h', root, n, branch, rec, pos);
    SumOf(h', root, n);
    SumOf(h', root, right);
    var recs, kids := h[n].recs[..pos] + [rec] + h[n].recs[pos..], NewKids(h, n, branch, pos);
    if kids == [] {
      AroundMiddle(recs, MIN_ELEMENTS);
    } else {
      SplitKidContents(h', kids);
      WovenCut(recs, KidContents(h', kids), MIN_ELEMENTS);
    }
  }

  /** A full node is split; what is left to do is to put median and right into its parent. */
  lemma SplitStep(h: Heap, h': Heap, root: Node, n: Node, branch: Node?, rec: Record, pos: nat, right: Node,
                  median: Record)
    requires TreeBut(h, root, n, branch) && n in h && n != branch
    requires pos <= |h[n].recs| == MAX_ELEMENTS && Shape(h, root, n) && Fits(h, n, branch)
    requires WasSplit(h, h', n, branch, rec, pos, right, median)
    requires Shape(h', root, n) && Shape(h', root, right) && Summed(h', root, n) && Summed(h', root, right)
    ensures TreeBut(h', root, h[n].parent, right)
  {
    assert Fine(h, root, n, branch, n) && Fine(h, root, n, branch, root);
    forall m | m in h' ensures Fine(h', root, h[n].parent, right, m) {
      if m != right {
        assert Fine(h, root, n, branch, m);
        SplitKeepsShape(h, h', root, n, branch, rec, pos, right, median, m);
        SplitKeepsAttached(h, h', root, n, branch, rec, pos, right, median, m);
        if m != n && m != h[n].parent {
          SplitKeepsSummed(h, h', root, n, branch, rec, pos, right, median, m);
        }
      }
    }
  }

  // ---------- the top and the way up ----------

  /** h' is h under a new root over the old root and its new sibling. */
  ghost predicate Grown(h: Heap, h': Heap, root: Node, right: Node, top: Node, median: Record)
    requires root in h && right in h
  {
    && top !in h && h'.Keys == h.Keys + {top}
    && h'[top] == View(true, h[root].depth + 1, null, h'[top].pos, [median], [root, right], h'[top].contents)
    && (forall m :: m in h && m != root && m != right ==> h'[m] == h[m])
    && h'[root] == h[root].(parent := top, pos := 0)
    && h'[right] == h[right].(parent := top, pos := 1)
  }

  /** The new root. */
  lemma GrowTop(h: Heap, h': Heap, root: Node, right: Node, top: Node, median: Record)
    requires TreeBut(h, root, null, right) && right in h && h[right].depth == h[root].depth && h[right].parent == null
    requires |h[root].recs| >= MIN_ELEMENTS && |h[right].recs| >= MIN_ELEMENTS
    requires Grown(h, h', root, right, top, median)
    requires h'[top].contents == h[root].contents + [median] + h[right].contents
    ensures Fine(h', top, null, null, top)
  {
    hide Fine;
    assert Linked(h', top, 0) && Linked(h', top, 1);
    assert KidContents(h', [root, right]) == [h[root].contents, h[right].contents];
    assert After([median], [h[right].contents]) == [median] + h[right].contents by {
      assert [median][1..] == [] && [h[right].contents][1..] == [];
    }
    TopFine(h', top);
  }

  lemma TopFine(h: Heap, top: Node)
    requires top in h && Shape(h, top, top) && Summed(h, top, top) && h[top].parent == null
    ensures Fine(h, top, null, null, top)
  {
  }

  /** All other nodes. */
  lemma GrowRest(h: Heap, h': Heap, root: Node, right: Node, top: Node, median: Record, m: Node)
    requires TreeBut(h, root, null, right) && right in h && h[right].depth == h[root].depth && h[right].parent == null
    requires |h[root].recs| >= MIN_ELEMENTS && |h[right].recs| >= MIN_ELEMENTS
    requires Grown(h, h', root, right, top, median) && m in h' && m != top
    ensures Fine(h', top, null, null, m)
  {
    assert Fine(h, root, null, right, root) && Fine(h, root, null, right, right);
    assert Fine(h, root, null, right, m);
    KidsLinked(h, root, m);
    ShapeKept(h, h', root, top, m);
    SummedKept(h, h', root, top, m);
  }

  lemma GrowStep(h: Heap, h': Heap, root: Node, right: Node, top: Node, median: Record)
    requires TreeBut(h, root, null, right) && right in h && h[right].depth == h[root].depth && h[right].parent == null
    requires |h[root].recs| >= MIN_ELEMENTS && |h[right].recs| >= MIN_ELEMENTS
    requires Grown(h, h', root, right, top, median)
    requires h'[top].contents == h[root].contents + [median] + h[right].contents
    ensures Tree(h', top)
  {
    GrowTop(h, h', root, right, top, median);
    hide Fine, Grown;
    forall m | m in h' ensures Fine(h', top, null, null, m) {
      if m != top {
        GrowRest(h, h', root, right, top, median, m);
      }
    }
  }

  /** h' is h with n's contents brought up to date. */
  lemma SumStep(h: Heap, h': Heap, root: Node, n: Node)
    requires TreeBut(h, root, n, null) && n in h && Shape(h, root, n)
    requires h' == h[n := h[n].(contents := Sum(h, root, n))]
    ensures TreeBut(h', root, h[n].parent, null)
  {
    forall m | m in h' ensures Fine(h', root, h[n].parent, null, m) {
      assert Fine(h, root, n, null, m);
      KidsLinked(h, root, m);
      ShapeKept(h, h', root, root, m);
      if m == n {
        assert KidContents(h', h'[n].kids) == KidContents(h, h[n].kids);
      } else if m != h[n].parent {
        SummedKept(h, h', root, root, m);
      }
    }
  }
}
