/**
 The nodes of the memtree and the three in-place operations on them that insertion uses:
 shifting a record and a branch into a node, and splitting a full node.
 */
module MemTreeNode {
  import opened Bytes
  import opened Weave

  const MAX_ELEMENTS: nat := 10
  const MIN_ELEMENTS: nat := MAX_ELEMENTS / 2

  /** A record: its key never changes, its value and tombstone flag may. */
  class Record {
    const key: Key
    var val: seq<Byte>
    var deleted: bool

    constructor (key: Key, val: seq<Byte>, deleted: bool)
      ensures this.key == key && this.val == val && this.deleted == deleted
    {
      this.key, this.val, this.deleted := key, val, deleted;
    }
  }

  /**
   A node has MAX_ELEMENTS record slots and, when it is internal, MAX_ELEMENTS + 1 branch
   slots; count says how many records are live.  Slots past that hold whatever was there
   before, so nothing below reads them.
   */
  class Node {
    const depth: nat
    var parent: Node?
    var count: nat
    var pos: nat
    var recs: seq<Record>
    var branches: seq<Node>
    ghost var contents: seq<Record>

    /** Allocates a node.  The unset slots hold an arbitrary record and the node itself. */
    constructor (depth: nat, slot: Record)
      ensures this.depth == depth && parent == null && count == 0 && contents == []
      ensures HasSlots()
    {
      this.depth, parent, count, pos, contents := depth, null, 0, 0, [];
      recs := seq(MAX_ELEMENTS, i => slot);
      new;
      branches := seq(MAX_ELEMENTS + 1, i => this);
    }

    predicate HasSlots()
      reads this
    {
      |recs| == MAX_ELEMENTS && |branches| == MAX_ELEMENTS + 1 && count <= MAX_ELEMENTS
    }

    /** Branch i is a child of this node and knows its slot. */
    ghost predicate Links(i: nat)
      requires i < |branches|
      reads this, branches[i]
    {
      branches[i].parent == this && branches[i].pos == i && branches[i].depth + 1 == depth
    }
  }

  /** The branches in the slots from `from` up to the last one. */
  ghost function Kids(node: Node, from: nat): set<Node>
    requires node.HasSlots()
    reads node
  {
    set i | from <= i <= node.count :: node.branches[i]
  }

  /** Opens slot `pos` for rec by moving the records from there on one slot to the right. */
  method ShiftRecords(node: Node, rec: Record, pos: nat)
    requires node.HasSlots() && node.count < MAX_ELEMENTS && pos <= node.count
    modifies node`recs
    ensures node.HasSlots()
    ensures forall i :: 0 <= i <= node.count ==> node.recs[i] == Spliced(old(node.recs), pos, rec, i)
  {
    var i := node.count;
    while i > pos
      invariant pos <= i <= node.count && node.HasSlots()
      invariant forall k :: 0 <= k < i ==> node.recs[k] == old(node.recs)[k]
      invariant forall k :: i < k <= node.count ==> node.recs[k] == old(node.recs)[k - 1]
    {
      i := i - 1;
      node.recs := node.recs[i + 1 := node.recs[i]];
    }
    node.recs := node.recs[pos := rec];
  }

  /** Moves the branches from slot `from` on one slot to the right. */
  method ShiftBranches(node: Node, from: nat)
    requires node.HasSlots() && node.count < MAX_ELEMENTS && 0 < from <= node.count + 1
    requires forall i :: from <= i <= node.count ==>
      node.branches[i] != node && node.branches[i].pos == i
    modifies node`branches, Kids(node, from)`pos
    ensures node.HasSlots()
    ensures forall i :: 0 <= i < from ==> node.branches[i] == old(node.branches)[i]
    ensures forall i :: from < i <= node.count + 1 ==>
      node.branches[i] == old(node.branches)[i - 1] && node.branches[i].pos == i
  {
    var i := node.count + 1;
    while i > from
      invariant from <= i <= node.count + 1 && node.HasSlots()
      invariant forall k :: 0 <= k < i ==> node.branches[k] == old(node.branches)[k]
      invariant forall k :: from <= k < i ==> node.branches[k].pos == k
      invariant forall k :: i < k <= node.count + 1 ==>
        node.branches[k] == old(node.branches)[k - 1] && node.branches[k].pos == k
    {
      i := i - 1;
      node.branches := node.branches[i + 1 := node.branches[i]];
      node.branches[i + 1].pos := i + 1;
    }
  }

  /** Shifts rec into node at pos and, in an internal node, branch to the right of it. */
  method NodeInsert(branch: Node?, node: Node, rec: Record, pos: nat)
    requires node.HasSlots() && node.count < MAX_ELEMENTS && pos <= node.count
    requires node.depth > 0 ==> branch != null && branch != node
    requires node.depth > 0 ==> forall i :: pos < i <= node.count ==>
      node.branches[i] != node && node.branches[i] != branch && node.branches[i].pos == i
    modifies node`recs, node`branches, node`count
    modifies (if node.depth > 0 then {branch} else {})`parent
    modifies (if node.depth > 0 then {branch} + Kids(node, pos + 1) else {})`pos
    ensures node.HasSlots() && node.count == old(node.count) + 1
    ensures forall i :: 0 <= i < node.count ==> node.recs[i] == Spliced(old(node.recs), pos, rec, i)
    ensures node.depth == 0 ==> node.branches == old(node.branches)
    ensures node.depth > 0 ==> branch.parent == node
    ensures node.depth > 0 ==> forall i :: 0 <= i <= node.count ==>
      node.branches[i] == Spliced(old(node.branches), pos + 1, branch, i)
    ensures node.depth > 0 ==> forall i :: pos < i <= node.count ==> node.branches[i].pos == i
  {
    ShiftRecords(node, rec, pos);
    if node.depth > 0 {
      ShiftBranches(node, pos + 1);
      node.branches := node.branches[pos + 1 := branch];
      branch.parent := node;
      branch.pos := pos + 1;
    }
    node.count := node.count + 1;
  }

  /** Hands the branches after slot `split` of a full node to the slots from 1 on of right. */
  method MoveBranches(left: Node, right: Node, split: nat)
    requires left != right && left.HasSlots() && right.HasSlots() && split < MAX_ELEMENTS
    requires left.count == MAX_ELEMENTS
    requires forall i :: split < i <= MAX_ELEMENTS ==>
      left.branches[i] != left && left.branches[i] != right && left.branches[i].pos == i
    modifies right`branches, Kids(left, split + 1)`parent, Kids(left, split + 1)`pos
    ensures right.HasSlots()
    ensures forall i :: 1 <= i <= MAX_ELEMENTS - split ==>
      right.branches[i] == left.branches[i + split] && right.branches[i].parent == right && right.branches[i].pos == i
  {
    for i := split + 1 to MAX_ELEMENTS + 1
      invariant right.HasSlots()
      invariant forall k :: i <= k <= MAX_ELEMENTS ==> left.branches[k].pos == k
      invariant forall k :: 1 <= k < i - split ==>
        right.branches[k] == left.branches[k + split] && right.branches[k].parent == right && right.branches[k].pos == k
    {
      right.branches := right.branches[i - split := left.branches[i]];
      right.branches[i - split].parent := right;
      right.branches[i - split].pos := i - split;
    }
  }

  /** A new right sibling of a full node, with the node's records from `split` on. */
  method SplitTail(left: Node, split: nat) returns (right: Node)
    requires left.HasSlots() && left.count == MAX_ELEMENTS && MIN_ELEMENTS <= split <= MIN_ELEMENTS + 1
    requires left.depth > 0 ==> forall i :: split < i <= MAX_ELEMENTS ==>
      left.branches[i] != left && left.branches[i].pos == i
    modifies left`count
    modifies (if left.depth > 0 then Kids(left, split + 1) else {})`parent
    modifies (if left.depth > 0 then Kids(left, split + 1) else {})`pos
    ensures fresh(right) && right.HasSlots() && left.HasSlots()
    ensures right.depth == left.depth && right.parent == left.parent
    ensures left.count == split && right.count == MAX_ELEMENTS - split
    ensures forall i :: 0 <= i < right.count ==> right.recs[i] == left.recs[i + split]
    ensures left.depth > 0 ==> forall i :: 1 <= i <= right.count ==>
      right.branches[i] == left.branches[i + split] && right.branches[i].parent == right && right.branches[i].pos == i
  {
    right := new Node(left.depth, left.recs[0]);
    right.parent := left.parent;
    for i := split to MAX_ELEMENTS
      invariant right.HasSlots() && fresh(right)
      invariant forall k :: 0 <= k < i - split ==> right.recs[k] == left.recs[k + split]
      modifies right`recs
    {
      right.recs := right.recs[i - split := left.recs[i]];
    }
    if right.depth > 0 {
      MoveBranches(left, right, split);
    }
    left.count := split;
    right.count := MAX_ELEMENTS - split;
  }

  /** A split with rec in the left half: the left starts with fewer elements. */
  method SplitLow(branch: Node?, node: Node, rec: Record, pos: nat) returns (right: Node)
    requires node.HasSlots() && node.count == MAX_ELEMENTS && pos <= MIN_ELEMENTS
    requires node.depth > 0 ==> branch != null && branch != node
    requires node.depth > 0 ==> forall i :: 0 <= i <= MAX_ELEMENTS ==>
      node.branches[i] != node && node.branches[i] != branch && node.Links(i)
    modifies node`recs, node`branches, node`count
    modifies (if node.depth > 0 then {branch} + Kids(node, 0) else {})`parent
    modifies (if node.depth > 0 then {branch} + Kids(node, 0) else {})`pos
    ensures fresh(right) && right.depth == node.depth && right.parent == node.parent
    ensures node.HasSlots() && right.HasSlots()
    ensures node.count == MIN_ELEMENTS + 1 && right.count == MIN_ELEMENTS
    ensures forall i :: 0 <= i < node.count ==> node.recs[i] == Spliced(old(node.recs), pos, rec, i)
    ensures forall i :: 0 <= i < right.count ==>
      right.recs[i] == Spliced(old(node.recs), pos, rec, i + MIN_ELEMENTS + 1)
    ensures node.depth > 0 ==> forall i :: 0 <= i <= node.count ==>
      node.branches[i] == Spliced(old(node.branches), pos + 1, branch, i)
      && node.branches[i].parent == node && node.branches[i].pos == i
    ensures node.depth > 0 ==> forall i :: 1 <= i <= right.count ==>
      right.branches[i] == Spliced(old(node.branches), pos + 1, branch, i + MIN_ELEMENTS + 1)
      && right.branches[i].parent == right && right.branches[i].pos == i
  {
    right := SplitTail(node, MIN_ELEMENTS);
    NodeInsert(branch, node, rec, pos);
  }

  /** A split with rec in the right half: the right starts with fewer elements. */
  method SplitHigh(branch: Node?, node: Node, rec: Record, pos: nat) returns (right: Node)
    requires node.HasSlots() && node.count == MAX_ELEMENTS && MIN_ELEMENTS < pos <= MAX_ELEMENTS
    requires node.depth > 0 ==> branch != null && branch != node
    requires node.depth > 0 ==> forall i :: 0 <= i <= MAX_ELEMENTS ==>
      node.branches[i] != node && node.branches[i] != branch && node.Links(i)
    modifies node`recs, node`branches, node`count
    modifies (if node.depth > 0 then {branch} + Kids(node, 0) else {})`parent
    modifies (if node.depth > 0 then {branch} + Kids(node, 0) else {})`pos
    ensures fresh(right) && right.depth == node.depth && right.parent == node.parent
    ensures node.HasSlots() && right.HasSlots()
    ensures node.count == MIN_ELEMENTS + 1 && right.count == MIN_ELEMENTS
    ensures forall i :: 0 <= i < node.count ==> node.recs[i] == Spliced(old(node.recs), pos, rec, i)
    ensures forall i :: 0 <= i < right.count ==>
      right.recs[i] == Spliced(old(node.recs), pos, rec, i + MIN_ELEMENTS + 1)
    ensures node.depth > 0 ==> forall i :: 0 <= i <= node.count ==>
      node.branches[i] == Spliced(old(node.branches), pos + 1, branch, i)
      && node.branches[i].parent == node && node.branches[i].pos == i
    ensures node.depth > 0 ==> forall i :: 1 <= i <= right.count ==>
      right.branches[i] == Spliced(old(node.branches), pos + 1, branch, i + MIN_ELEMENTS + 1)
      && right.branches[i].parent == right && right.branches[i].pos == i
  {
    right := SplitTail(node, MIN_ELEMENTS + 1);
    NodeInsert(branch, right, rec, pos - (MIN_ELEMENTS + 1));
  }

  /**
   Splits a full node around rec and branch, put in at pos: of the eleven records the left
   node keeps five, the middle one goes up, and the new right sibling gets five.
   */
  method NodeSplit(branch: Node?, node: Node, rec: Record, pos: nat) returns (right: Node, median: Record)
    requires node.HasSlots() && node.count == MAX_ELEMENTS && pos <= MAX_ELEMENTS
    requires node.depth > 0 ==> branch != null && branch != node
    requires node.depth > 0 ==> forall i :: 0 <= i <= MAX_ELEMENTS ==>
      node.branches[i] != node && node.branches[i] != branch && node.Links(i)
    modifies node`recs, node`branches, node`count
    modifies (if node.depth > 0 then {branch} + Kids(node, 0) else {})`parent
    modifies (if node.depth > 0 then {branch} + Kids(node, 0) else {})`pos
    ensures fresh(right) && right.depth == node.depth && right.parent == node.parent
    ensures node.HasSlots() && right.HasSlots()
    ensures node.count == MIN_ELEMENTS && right.count == MIN_ELEMENTS
    ensures forall i :: 0 <= i < MIN_ELEMENTS ==> node.recs[i] == Spliced(old(node.recs), pos, rec, i)
    ensures median == Spliced(old(node.recs), pos, rec, MIN_ELEMENTS)
    ensures forall i :: 0 <= i < MIN_ELEMENTS ==>
      right.recs[i] == Spliced(old(node.recs), pos, rec, i + MIN_ELEMENTS + 1)
    ensures node.depth > 0 ==> forall i :: 0 <= i <= MIN_ELEMENTS ==>
      node.branches[i] == Spliced(old(node.branches), pos + 1, branch, i)
      && node.branches[i].parent == node && node.branches[i].pos == i
    ensures node.depth > 0 ==> forall i :: 0 <= i <= MIN_ELEMENTS ==>
      right.branches[i] == Spliced(old(node.branches), pos + 1, branch, i + MIN_ELEMENTS + 1)
      && right.branches[i].parent == right && right.branches[i].pos == i
  {
    if pos <= MIN_ELEMENTS {
      right := SplitLow(branch, node, rec, pos);
    } else {
      right := SplitHigh(branch, node, rec, pos);
    }
    // The rightmost branch of the left half becomes the first of the right half.
    if right.depth > 0 {
      right.branches := right.branches[0 := node.branches[node.count]];
      right.branches[0].parent := right;
      right.branches[0].pos := 0;
    }
    node.count := node.count - 1;
    median := node.recs[node.count];
  }
}
