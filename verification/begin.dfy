/** Beginning to iterate: packed files and memtrees as the sources of the merging iterator. */
module Begin {
  import opened Bytes
  import opened Format
  import opened MergeState
  import opened Packed
  import opened Rows
  import opened Wrappers
  import MG = Merge
  import RT = RowTree

  // ---------- packed files ----------

  /** An opened packed file. */
  datatype InFile = InFile(buf: seq<Byte>, index: seq<Word>, priority: int)

  ghost function KeysOf(rows: seq<Row>): (keys: seq<Key>)
    ensures |keys| == |rows| && forall i :: 0 <= i < |rows| ==> keys[i] == rows[i].key
  {
    seq(|rows|, i requires 0 <= i < |rows| => rows[i].key)
  }

  ghost function DelsOf(rows: seq<Row>): (dels: seq<bool>)
    ensures |dels| == |rows| && forall i :: 0 <= i < |rows| ==> dels[i] == rows[i].deleted
  {
    seq(|rows|, i requires 0 <= i < |rows| => rows[i].deleted)
  }

  /** A source with the keys of rows, and their deletions. */
  ghost predicate Holds(s: Source, packed: bool, priority: int, rows: seq<Row>)
  {
    s.packed == packed && s.priority == priority && s.keys == KeysOf(rows) && s.dels == DelsOf(rows)
  }

  /** No row has the empty key. */
  predicate Keyed(rows: seq<Row>)
  {
    forall i :: 0 <= i < |rows| ==> rows[i].key != []
  }

  /** A file that can be a source: not empty, and without the empty key. */
  ghost predicate Sourced(file: InFile, rows: seq<Row>)
  {
    Indexed(file.buf, file.index, rows) && rows != [] && Keyed(rows)
  }

  ghost predicate AllSourced(files: seq<InFile>, inputs: seq<seq<Row>>)
  {
    |files| == |inputs| && forall i :: 0 <= i < |files| ==> Sourced(files[i], inputs[i])
  }

  /** The first n files are the sources of the iterator. */
  ghost predicate Feeds(sources: seq<Source>, files: seq<InFile>, inputs: seq<seq<Row>>, n: nat)
    requires n <= |files| == |inputs|
  {
    |sources| == n && forall i :: 0 <= i < n ==> Holds(sources[i], true, files[i].priority, inputs[i])
  }

  /** Reads the keys of a file through its pointers, and which of its records are deletions. */
  method ReadKeys(file: InFile, ghost rows: seq<Row>) returns (keys: seq<Key>, dels: seq<bool>)
    requires Indexed(file.buf, file.index, rows)
    ensures keys == KeysOf(rows) && dels == DelsOf(rows)
  {
    hide Encode, Writable, Passable, At;
    keys, dels := [], [];
    var i := 0;
    while i < |file.index|
      invariant i <= |rows| && keys == KeysOf(rows)[..i] && dels == DelsOf(rows)[..i]
    {
      assert Points(file.buf, file.index, rows, i);
      var key, deleted := GetKeyFromOffset(file.buf, file.index[i], rows[i]);
      keys, dels := keys + [key], dels + [deleted];
      i := i + 1;
    }
  }

  lemma KeysSorted(rows: seq<Row>)
    requires SortedRows(rows) && rows != [] && Keyed(rows)
    ensures SortedKeys(KeysOf(rows)) && KeysOf(rows) != []
    ensures forall j :: 0 <= j < |rows| ==> KeysOf(rows)[j] != []
  {
  }

  lemma FeedsMore(before: seq<Source>, after: seq<Source>, files: seq<InFile>, inputs: seq<seq<Row>>, n: nat)
    requires |files| == |inputs| && n < |files| && Feeds(before, files, inputs, n)
    requires |after| == n + 1 && MG.SameSources(before, after[..n])
    requires Holds(after[n], true, files[n].priority, inputs[n])
    ensures Feeds(after, files, inputs, n + 1)
  {
    forall i | 0 <= i < n ensures Holds(after[i], true, files[i].priority, inputs[i]) {
      assert after[..n][i] == after[i];
    }
  }

  /** What a source takes from sorted rows with keys. */
  ghost predicate ReadFrom(keys: seq<Key>, dels: seq<bool>, rows: seq<Row>)
  {
    && keys == KeysOf(rows) && dels == DelsOf(rows)
    && SortedKeys(keys) && forall j :: 0 <= j < |keys| ==> keys[j] != []
  }

  method ReadFileKeys(file: InFile, ghost rows: seq<Row>) returns (keys: seq<Key>, dels: seq<bool>)
    requires Sourced(file, rows)
    ensures ReadFrom(keys, dels, rows) && keys != []
  {
    KeysSorted(rows);
    keys, dels := ReadKeys(file, rows);
  }

  /** Adds every file to the iterator; marks says whether to look at the type of the first records. */
  method BeginAll(it: MG.Iterator, marks: bool, files: seq<InFile>, ghost inputs: seq<seq<Row>>)
    requires it.Valid() && it.Now() == State([], multiset{}, map[], []) && it.Now().Inv(None) && it.marks == marks
    requires AllSourced(files, inputs)
    modifies it, it.pq, it.ht.Repr()
    ensures it.Valid() && it.Now().Inv(None) && it.out == [] && Feeds(it.sources, files, inputs, |files|)
    ensures fresh(it.ht.Repr() - old(it.ht.Repr()))
  {
    hide State.Inv, Sourced;
    var i := 0;
    while i < |files|
      invariant i <= |files| && it.Valid() && it.Now().Inv(None) && it.out == []
      invariant Feeds(it.sources, files, inputs, i)
      invariant fresh(it.ht.Repr() - old(it.ht.Repr()))
    {
      assert Sourced(files[i], inputs[i]);
      var keys, dels := ReadFileKeys(files[i], inputs[i]);
      ghost var before := it.sources;
      it.Begin(true, files[i].priority, keys, dels, marks && dels[0]);
      FeedsMore(before, it.sources, files, inputs, i);
      i := i + 1;
    }
  }

  // ---------- packed files and memtrees ----------

  /** The priority of the last packed file, or 0. */
  function Last(files: seq<InFile>): int
  {
    if files == [] then 0 else files[|files| - 1].priority
  }

  /** The last packed file has the highest priority of them. */
  predicate Ranked(files: seq<InFile>)
  {
    forall i :: 0 <= i < |files| ==> files[i].priority <= Last(files)
  }

  /** Where the source of the active tree comes, after the packed files and the finalised tree, if any. */
  ghost function ActiveAt(files: seq<InFile>, fin: seq<Row>): nat
  {
    if fin == [] then |files| else |files| + 1
  }

  /** The sources are the packed files, then the finalised tree and then the active tree, if they hold anything. */
  ghost predicate Tiers(sources: seq<Source>, files: seq<InFile>, inputs: seq<seq<Row>>, fin: seq<Row>, act: seq<Row>)
    requires |files| == |inputs|
  {
    var (n, a) := (|files|, ActiveAt(files, fin));
    && |sources| == (if act == [] then a else a + 1)
    && Feeds(sources[..n], files, inputs, n)
    && (fin != [] ==> Holds(sources[n], false, Last(files) + 1, fin))
    && (act != [] ==> Holds(sources[a], false, Last(files) + 1 + a - n, act))
  }

  /** Reads the keys of a tree with a cursor, and which of its records are deletions. */
  method TreeKeys(tree: RT.RowTree) returns (keys: seq<Key>, dels: seq<bool>)
    requires tree.Valid() && tree.rows != [] && Keyed(tree.rows)
    ensures ReadFrom(keys, dels, tree.rows)
  {
    hide RT.RowTree.Valid, SortedRows, SortedKeys;
    tree.RowsSorted();
    KeysSorted(tree.rows);
    var walk := tree.WalkCursor();
    keys, dels := [], [];
    var i := 0;
    while i < |walk|
      invariant i <= |walk| && keys == KeysOf(walk)[..i] && dels == DelsOf(walk)[..i]
    {
      keys, dels := keys + [walk[i].key], dels + [walk[i].deleted];
      i := i + 1;
    }
  }

  lemma TiersFiles(sources: seq<Source>, files: seq<InFile>, inputs: seq<seq<Row>>)
    requires |files| == |inputs| && Feeds(sources, files, inputs, |files|)
    ensures Tiers(sources, files, inputs, [], [])
  {
    assert sources[..|files|] == sources;
  }

  lemma TiersTree(before: seq<Source>, after: seq<Source>, files: seq<InFile>, inputs: seq<seq<Row>>, fin: seq<Row>,
                  rows: seq<Row>)
    requires |files| == |inputs| && Tiers(before, files, inputs, fin, []) && rows != []
    requires |after| == |before| + 1 && MG.SameSources(before, after[..|before|])
    requires Holds(after[|before|], false, Last(files) + 1 + if fin == [] then 0 else 1, rows)
    ensures Tiers(after, files, inputs, fin, rows)
    ensures fin == [] ==> Tiers(after, files, inputs, rows, [])
  {
    var n := |files|;
    forall i | 0 <= i < |before| ensures MG.SameSource(before[i], after[i]) {
      assert after[..|before|][i] == after[i];
    }
    forall i | 0 <= i < n ensures Holds(after[..n][i], true, files[i].priority, inputs[i]) {
      assert Holds(before[..n][i], true, files[i].priority, inputs[i]);
    }
  }

  /** Adds the keys of a tree after the packed files, or after those and the finalised tree. */
  method AddTree(it: MG.Iterator, prio: int, keys: seq<Key>, dels: seq<bool>, ghost rows: seq<Row>,
                 ghost files: seq<InFile>, ghost inputs: seq<seq<Row>>, ghost fin: seq<Row>)
    requires it.Valid() && it.Now().Inv(None) && it.out == [] && it.marks && |files| == |inputs|
    requires Tiers(it.sources, files, inputs, fin, []) && prio == Last(files) + 1 + if fin == [] then 0 else 1
    requires rows != [] && ReadFrom(keys, dels, rows)
    modifies it`sources, it.pq, it.ht.Repr()
    ensures it.Valid() && it.Now().Inv(None) && fresh(it.ht.Repr() - old(it.ht.Repr()))
    ensures Tiers(it.sources, files, inputs, fin, rows)
    ensures fin == [] ==> Tiers(it.sources, files, inputs, rows, [])
  {
    hide State.Inv, Tiers, Last;
    ghost var before := it.sources;
    it.Begin(false, prio, keys, dels, dels[0]);
    TiersTree(before, it.sources, files, inputs, fin, rows);
  }

  /** Begins an iterator on packed files. */
  method BeginFiles(files: seq<InFile>, ghost inputs: seq<seq<Row>>) returns (it: MG.Iterator)
    requires AllSourced(files, inputs)
    ensures fresh(it) && fresh(it.pq) && fresh(it.ht.Repr()) && it.Valid() && it.Now().Inv(None) && it.out == []
    ensures Tiers(it.sources, files, inputs, [], []) && it.marks
  {
    assert |files| == |inputs|;
    hide State.Inv, AllSourced, Tiers, Feeds;
    it := new MG.Iterator(true);
    BeginAll(it, true, files, inputs);
    TiersFiles(it.sources, files, inputs);
  }

  /** Begins an iterator on packed files and then, if they have keys, on the finalised and the active tree. */
  method BeginTiers(files: seq<InFile>, ghost inputs: seq<seq<Row>>, fkeys: seq<Key>, fdels: seq<bool>,
                    ghost fin: seq<Row>, akeys: seq<Key>, adels: seq<bool>, ghost act: seq<Row>)
    returns (it: MG.Iterator)
    requires AllSourced(files, inputs) && ReadFrom(fkeys, fdels, fin) && ReadFrom(akeys, adels, act)
    ensures fresh(it) && fresh(it.pq) && fresh(it.ht.Repr()) && it.Valid() && it.Now().Inv(None) && it.out == []
    ensures Tiers(it.sources, files, inputs, fin, act) && it.marks
  {
    assert |files| == |inputs|;
    assert (fkeys == [] <==> fin == []) && (akeys == [] <==> act == []);
    hide *;
    it := BeginFiles(files, inputs);
    var prio := Last(files);
    if fkeys != [] {
      prio := prio + 1;
      AddTree(it, prio, fkeys, fdels, fin, files, inputs, []);
    }
    if akeys != [] {
      prio := prio + 1;
      AddTree(it, prio, akeys, adels, act, files, inputs, fin);
    }
  }

  /** The keys of a tree, unless it is left out. */
  method KeysIf(tree: RT.RowTree, there: bool) returns (keys: seq<Key>, dels: seq<bool>)
    requires tree.Valid() && Keyed(tree.rows) && (there ==> tree.rows != [])
    ensures ReadFrom(keys, dels, if there then tree.rows else [])
  {
    keys, dels := [], [];
    if there {
      hide RT.RowTree.Valid, SortedKeys;
      keys, dels := TreeKeys(tree);
    }
  }

  /** The rows of the finalised tree count only if finalised files were loaded. */
  ghost function FinRows(ffcount: nat, rows: seq<Row>): seq<Row>
  {
    if ffcount > 0 then rows else []
  }

  /**
   Begins an iterator on packed files, on the finalised tree if finalised files were loaded, and on
   the active tree unless it is empty.  There is none if the finalised tree is to be a source but has
   no record, for its first record is looked at without asking whether there is one.
   */
  method BeginDb(files: seq<InFile>, ghost inputs: seq<seq<Row>>, ffcount: nat, fmemtree: RT.RowTree,
                 memtree: RT.RowTree)
    returns (it: MG.Iterator?)
    requires AllSourced(files, inputs) && fmemtree.Valid() && memtree.Valid()
    requires Keyed(fmemtree.rows) && Keyed(memtree.rows)
    ensures it == null <==> ffcount > 0 && fmemtree.rows == []
    ensures it != null ==>
      && fresh(it) && fresh(it.pq) && fresh(it.ht.Repr()) && it.Valid() && it.Now().Inv(None) && it.out == []
      && Tiers(it.sources, files, inputs, FinRows(ffcount, fmemtree.rows), memtree.rows) && it.marks
  {
    assert |files| == |inputs|;
    ghost var fin := if ffcount > 0 then fmemtree.rows else [];
    assert fin == FinRows(ffcount, fmemtree.rows);
    hide *;
    var none := fmemtree.IsEmpty();
    if ffcount > 0 && none {
      return null;
    }
    var fkeys, fdels := KeysIf(fmemtree, ffcount > 0);
    var empty := memtree.IsEmpty();
    var akeys, adels := KeysIf(memtree, !empty);
    it := BeginTiers(files, inputs, fkeys, fdels, fin, akeys, adels, memtree.rows);
  }

  // ---------- which tree wins ----------

  lemma TierPriority(sources: seq<Source>, files: seq<InFile>, inputs: seq<seq<Row>>, fin: seq<Row>, act: seq<Row>,
                     i: nat)
    requires |files| == |inputs| && Tiers(sources, files, inputs, fin, act) && Ranked(files) && i < |sources|
    ensures i < |files| ==> sources[i].priority <= Last(files)
    ensures i >= |files| ==> sources[i].priority == Last(files) + 1 + i - |files|
  {
    if i < |files| {
      assert sources[..|files|][i] == sources[i];
    }
  }

  /** A key in the active tree comes from there, and any other key in the finalised tree from there. */
  lemma TierWins(m: State, files: seq<InFile>, inputs: seq<seq<Row>>, fin: seq<Row>, act: seq<Row>, o: nat)
    requires |files| == |inputs| && Tiers(m.sources, files, inputs, fin, act) && Ranked(files)
    requires o < |m.out| && m.Best(o)
    ensures m.out[o].key in KeysOf(act) ==> m.out[o].source == ActiveAt(files, fin)
    ensures m.out[o].key !in KeysOf(act) && m.out[o].key in KeysOf(fin) ==> m.out[o].source == |files|
  {
    hide Ranked;
    var s, a := m.out[o].source, ActiveAt(files, fin);
    TierPriority(m.sources, files, inputs, fin, act, s);
    if m.out[o].key in KeysOf(act) {
      TierPriority(m.sources, files, inputs, fin, act, a);
    } else if m.out[o].key in KeysOf(fin) {
      TierPriority(m.sources, files, inputs, fin, act, |files|);
    }
  }

  /** The key has been handed out from source s. */
  ghost predicate HandedFrom(out: seq<Emitted>, key: Key, s: nat)
  {
    exists o :: 0 <= o < |out| && out[o].key == key && out[o].source == s
  }

  /** What a key of a tree is handed out from. */
  ghost predicate FromTrees(out: seq<Emitted>, files: seq<InFile>, fin: seq<Row>, act: seq<Row>)
  {
    && (forall j :: 0 <= j < |act| ==> HandedFrom(out, act[j].key, ActiveAt(files, fin)))
    && (forall j :: 0 <= j < |fin| && fin[j].key !in KeysOf(act) ==> HandedFrom(out, fin[j].key, |files|))
  }

  lemma TreesWin(m: State, files: seq<InFile>, inputs: seq<seq<Row>>, fin: seq<Row>, act: seq<Row>)
    requires |files| == |inputs| && Tiers(m.sources, files, inputs, fin, act) && Ranked(files)
    requires AllHandedOut(m) && m.AllBest()
    ensures FromTrees(m.out, files, fin, act)
  {
    hide Ranked, State.Best;
    var a := ActiveAt(files, fin);
    forall j | 0 <= j < |act| ensures HandedFrom(m.out, act[j].key, a) {
      var o := Out(m, a, j);
      assert KeysOf(act)[j] == act[j].key;
      TierWins(m, files, inputs, fin, act, o);
      assert m.out[o].key == act[j].key && m.out[o].source == a;
    }
    forall j | 0 <= j < |fin| && fin[j].key !in KeysOf(act) ensures HandedFrom(m.out, fin[j].key, |files|) {
      var o := Out(m, |files|, j);
      assert KeysOf(fin)[j] == fin[j].key;
      TierWins(m, files, inputs, fin, act, o);
      assert m.out[o].key == fin[j].key && m.out[o].source == |files|;
    }
  }

  /** Where key j of source i was handed out. */
  lemma Out(m: State, i: nat, j: nat) returns (o: nat)
    requires AllHandedOut(m) && m.AllBest() && i < |m.sources| && j < |m.sources[i].keys|
    ensures o < |m.out| && m.out[o].key == m.sources[i].keys[j] && m.Best(o)
  {
    assert KeyOut(m, i, j);
    o :| o < |m.out| && m.out[o].key == m.sources[i].keys[j];
  }

  // ---------- which keys are shown ----------

  /** Packed file s has a live row p after a deletion, and its key is neither in a tree nor in a better file. */
  ghost predicate Hidden(files: seq<InFile>, inputs: seq<seq<Row>>, fin: seq<Row>, act: seq<Row>, s: nat, p: nat)
    requires |files| == |inputs|
  {
    && s < |files| && p < |inputs[s]| && !inputs[s][p].deleted && (exists j :: 0 <= j < p && inputs[s][j].deleted)
    && inputs[s][p].key !in KeysOf(fin) && inputs[s][p].key !in KeysOf(act)
    && forall i :: 0 <= i < |files| && inputs[s][p].key in KeysOf(inputs[i]) ==> files[i].priority <= files[s].priority
  }

  ghost predicate Distinct(files: seq<InFile>)
  {
    forall i, j :: 0 <= i < j < |files| ==> files[i].priority != files[j].priority
  }

  /** What source i of the tiers holds. */
  lemma TierHolds(sources: seq<Source>, files: seq<InFile>, inputs: seq<seq<Row>>, fin: seq<Row>, act: seq<Row>, i: nat)
    requires |files| == |inputs| && Tiers(sources, files, inputs, fin, act) && i < |sources|
    ensures i < |files| ==> Holds(sources[i], true, files[i].priority, inputs[i])
    ensures i >= |files| ==>
      Holds(sources[i], false, Last(files) + 1 + i - |files|, if i == |files| && fin != [] then fin else act)
  {
    if i < |files| {
      assert sources[..|files|][i] == sources[i];
    }
  }

  lemma HoldsProper(s: Source, packed: bool, priority: int, rows: seq<Row>)
    requires Holds(s, packed, priority, rows) && SortedRows(rows)
    ensures SortedKeys(s.keys) && |s.dels| == |s.keys|
  {
  }

  lemma TiersProper(sources: seq<Source>, files: seq<InFile>, inputs: seq<seq<Row>>, fin: seq<Row>, act: seq<Row>)
    requires |files| == |inputs| && Tiers(sources, files, inputs, fin, act) && Ranked(files) && Distinct(files)
    requires (forall i :: 0 <= i < |inputs| ==> SortedRows(inputs[i])) && SortedRows(fin) && SortedRows(act)
    ensures MG.Proper(sources)
  {
    hide Tiers, Ranked, SortedRows, SortedKeys, Last;
    forall i | 0 <= i < |sources| ensures SortedKeys(sources[i].keys) && |sources[i].dels| == |sources[i].keys| {
      TierHolds(sources, files, inputs, fin, act, i);
      var rows := if i < |files| then inputs[i] else if i == |files| && fin != [] then fin else act;
      HoldsProper(sources[i], i < |files|, sources[i].priority, rows);
    }
    forall i, j | 0 <= i < j < |sources| ensures sources[i].priority != sources[j].priority {
      TierPriority(sources, files, inputs, fin, act, i);
      TierPriority(sources, files, inputs, fin, act, j);
      TierHolds(sources, files, inputs, fin, act, i);
      TierHolds(sources, files, inputs, fin, act, j);
    }
  }

  lemma LostIsHidden(sources: seq<Source>, files: seq<InFile>, inputs: seq<seq<Row>>, fin: seq<Row>, act: seq<Row>,
                     s: nat, p: nat)
    requires |files| == |inputs| && Tiers(sources, files, inputs, fin, act) && Ranked(files)
    requires MG.Lost(sources, true, s, p)
    ensures Hidden(files, inputs, fin, act, s, p)
  {
    hide Tiers, Ranked, Last;
    TierHolds(sources, files, inputs, fin, act, s);
    TierPriority(sources, files, inputs, fin, act, s);
    var key := sources[s].keys[p];
    var j :| 0 <= j <= p && j < |sources[s].dels| && sources[s].dels[j] && (sources[s].packed || j == p);
    forall i | 0 <= i < |files| && key in KeysOf(inputs[i]) ensures files[i].priority <= files[s].priority {
      TiersLength(sources, files, inputs, fin, act);
      TierHolds(sources, files, inputs, fin, act, i);
    }
    if key in KeysOf(fin) || key in KeysOf(act) {
      var i := TreeAbove(sources, files, inputs, fin, act, key);
      assert false;
    }
  }

  /** A source that holds the key of a tree is above the packed files. */
  lemma TreeAbove(sources: seq<Source>, files: seq<InFile>, inputs: seq<seq<Row>>, fin: seq<Row>, act: seq<Row>,
                  key: Key)
    returns (i: nat)
    requires |files| == |inputs| && Tiers(sources, files, inputs, fin, act)
    requires key in KeysOf(fin) || key in KeysOf(act)
    ensures i < |sources| && key in sources[i].keys && sources[i].priority > Last(files)
  {
    i := if key in KeysOf(fin) then |files| else ActiveAt(files, fin);
  }

  lemma TiersLength(sources: seq<Source>, files: seq<InFile>, inputs: seq<seq<Row>>, fin: seq<Row>, act: seq<Row>)
    requires |files| == |inputs| && Tiers(sources, files, inputs, fin, act)
    ensures |sources| == |files| + (if fin == [] then 0 else 1) + (if act == [] then 0 else 1)
  {
  }

  lemma HiddenIsLost(sources: seq<Source>, files: seq<InFile>, inputs: seq<seq<Row>>, fin: seq<Row>, act: seq<Row>,
                     s: nat, p: nat)
    requires |files| == |inputs| && Tiers(sources, files, inputs, fin, act) && Ranked(files)
    requires Hidden(files, inputs, fin, act, s, p)
    ensures MG.Lost(sources, true, s, p)
  {
    hide Tiers, Ranked, Last;
    TiersLength(sources, files, inputs, fin, act);
    TierHolds(sources, files, inputs, fin, act, s);
    var j :| 0 <= j < p && inputs[s][j].deleted;
    assert sources[s].dels[j];
    assert MG.Marked(sources[s], true, p);
    forall i | 0 <= i < |sources| && sources[s].keys[p] in sources[i].keys
      ensures sources[i].priority <= sources[s].priority
    {
      TierHolds(sources, files, inputs, fin, act, i);
    }
  }

  /** Exactly the deletions are not shown if and only if no live row is hidden. */
  lemma DbShowsLive(m: State, files: seq<InFile>, inputs: seq<seq<Row>>, fin: seq<Row>, act: seq<Row>)
    requires |files| == |inputs| && Tiers(m.sources, files, inputs, fin, act) && Ranked(files) && Distinct(files)
    requires (forall i :: 0 <= i < |inputs| ==> SortedRows(inputs[i])) && SortedRows(fin) && SortedRows(act)
    requires MG.Ended(m, true)
    ensures (forall o :: 0 <= o < |m.out| ==> (m.out[o].deleted <==> MG.ForDeletion(m.out[o], m.sources))) <==>
            (forall s, p :: !Hidden(files, inputs, fin, act, s, p))
  {
    hide *;
    TiersProper(m.sources, files, inputs, fin, act);
    MG.LiveShownIff(m, true);
    forall o | 0 <= o < |m.out| && MG.ForDeletion(m.out[o], m.sources) ensures m.out[o].deleted {
      MG.DeletionsMarked(m, o);
    }
    if s, p :| MG.Lost(m.sources, true, s, p) {
      LostIsHidden(m.sources, files, inputs, fin, act, s, p);
    }
    if s, p :| Hidden(files, inputs, fin, act, s, p) {
      HiddenIsLost(m.sources, files, inputs, fin, act, s, p);
    }
  }

  lemma TiersStay(before: seq<Source>, after: seq<Source>, files: seq<InFile>, inputs: seq<seq<Row>>, fin: seq<Row>,
                  act: seq<Row>)
    requires |files| == |inputs| && Tiers(before, files, inputs, fin, act) && MG.SameSources(before, after)
    ensures Tiers(after, files, inputs, fin, act)
  {
    var n := |files|;
    forall i | 0 <= i < n ensures Holds(after[..n][i], true, files[i].priority, inputs[i]) {
      assert Holds(before[..n][i], true, files[i].priority, inputs[i]);
    }
  }

  /** Iterates over a whole database, if that can begin; shown are the keys whose source was not marked. */
  method RunDb(files: seq<InFile>, ghost inputs: seq<seq<Row>>, ffcount: nat, fmemtree: RT.RowTree, memtree: RT.RowTree)
    returns (it: MG.Iterator?, shown: seq<Emitted>)
    requires AllSourced(files, inputs) && Ranked(files) && fmemtree.Valid() && memtree.Valid()
    requires Keyed(fmemtree.rows) && Keyed(memtree.rows)
    ensures it == null <==> ffcount > 0 && fmemtree.rows == []
    ensures it != null ==>
      && fresh(it) && it.Valid()
      && Tiers(it.sources, files, inputs, FinRows(ffcount, fmemtree.rows), memtree.rows)
      && Ascending(it.out) && it.Now().AllBest() && AllHandedOut(it.Now())
      && MG.Ended(it.Now(), true) && shown == MG.Unmarked(it.out)
      && FromTrees(it.out, files, FinRows(ffcount, fmemtree.rows), memtree.rows)
  {
    assert |files| == |inputs|;
    hide State.Inv, AllSourced, Tiers, Ranked, FromTrees, AllHandedOut, RT.RowTree.Valid, State.AllBest, FinRows,
      MG.Iterator.Valid, MG.Ended, Ascending;
    shown := [];
    it := BeginDb(files, inputs, ffcount, fmemtree, memtree);
    if it != null {
      ghost var sources, fin := it.sources, FinRows(ffcount, fmemtree.rows);
      shown := it.Run();
      TiersStay(sources, it.sources, files, inputs, fin, memtree.rows);
      TreesWin(it.Now(), files, inputs, fin, memtree.rows);
    }
  }
}
