/**
 Repacking: merging packed files into one, and when that holds the live rows of their priority
 overlay.
 */
module Repack {
  import opened Begin
  import opened Bytes
  import opened Format
  import opened MergeState
  import opened Packed
  import opened PackedFormat
  import opened Rows
  import opened RowSizes
  import opened Wrappers
  import MF = MFile
  import MG = Merge
  import Record

  /** A file that can be merged; its deletions have no values. */
  ghost predicate Mergeable(file: InFile, rows: seq<Row>)
  {
    Sourced(file, rows) && forall i :: 0 <= i < |rows| && rows[i].deleted ==> rows[i].val == []
  }

  ghost predicate AllMergeable(files: seq<InFile>, inputs: seq<seq<Row>>)
  {
    |files| == |inputs| && forall i :: 0 <= i < |files| ==> Mergeable(files[i], inputs[i])
  }

  // ---------- what the new file holds ----------

  /** File s holds the key, and no file that holds it has a higher priority. */
  ghost predicate Wins(files: seq<InFile>, inputs: seq<seq<Row>>, s: nat, key: Key)
    requires |files| == |inputs|
  {
    && s < |inputs| && key in ToMap(inputs[s])
    && forall i :: 0 <= i < |inputs| && key in ToMap(inputs[i]) ==> files[i].priority <= files[s].priority
  }

  /** Row p is a deletion, or after one: the mark is not taken off, but the first row does not set it. */
  ghost predicate Skipped(rows: seq<Row>, p: nat)
  {
    exists j :: 1 <= j <= p && j < |rows| && rows[j].deleted
  }

  ghost predicate SkippedKey(rows: seq<Row>, key: Key)
  {
    exists p :: 0 <= p < |rows| && rows[p].key == key && Skipped(rows, p)
  }

  /** What is said about the key is what a winning file says that does not skip it. */
  ghost predicate Comes(row: Row, files: seq<InFile>, inputs: seq<seq<Row>>, s: nat, key: Key)
    requires |files| == |inputs|
  {
    Wins(files, inputs, s, key) && row == ToMap(inputs[s])[key] && !SkippedKey(inputs[s], key)
  }

  /** The key is missing because a winning file skips it. */
  ghost predicate Missed(files: seq<InFile>, inputs: seq<seq<Row>>, s: nat, key: Key)
    requires |files| == |inputs|
  {
    Wins(files, inputs, s, key) && SkippedKey(inputs[s], key)
  }

  /** Sorted rows: for the keys of all inputs what a winning file says, unless it skips the key. */
  ghost predicate Merged(rows: seq<Row>, files: seq<InFile>, inputs: seq<seq<Row>>)
    requires |files| == |inputs|
  {
    && SortedRows(rows)
    && (forall key :: key in ToMap(rows) ==> exists s: nat :: Comes(ToMap(rows)[key], files, inputs, s, key))
    && (forall i, key :: 0 <= i < |inputs| && key in ToMap(inputs[i]) && key !in ToMap(rows) ==>
      exists s: nat :: Missed(files, inputs, s, key))
  }

  lemma MergedEntry(rows: seq<Row>, files: seq<InFile>, inputs: seq<seq<Row>>, key: Key) returns (s: nat)
    requires |files| == |inputs| && Merged(rows, files, inputs) && key in ToMap(rows)
    ensures Comes(ToMap(rows)[key], files, inputs, s, key)
  {
    s :| Comes(ToMap(rows)[key], files, inputs, s, key);
  }

  /** With distinct priorities one file wins a key. */
  lemma OneWins(files: seq<InFile>, inputs: seq<seq<Row>>, s: nat, t: nat, key: Key)
    requires |files| == |inputs| && Distinct(files) && Wins(files, inputs, s, key) && Wins(files, inputs, t, key)
    ensures s == t
  {
    assert files[s].priority == files[t].priority;
  }

  /** With distinct priorities, the key is there exactly when the winning file does not skip it. */
  lemma MergedAt(rows: seq<Row>, files: seq<InFile>, inputs: seq<seq<Row>>, s: nat, key: Key)
    requires |files| == |inputs| && Merged(rows, files, inputs) && Distinct(files) && Wins(files, inputs, s, key)
    ensures key in ToMap(rows) <==> !SkippedKey(inputs[s], key)
    ensures key in ToMap(rows) ==> ToMap(rows)[key] == ToMap(inputs[s])[key]
  {
    if key in ToMap(rows) {
      var t := MergedEntry(rows, files, inputs, key);
      OneWins(files, inputs, s, t, key);
    } else {
      var t: nat :| Missed(files, inputs, t, key);
      OneWins(files, inputs, s, t, key);
    }
  }

  lemma MergedSorted(rows: seq<Row>, files: seq<InFile>, inputs: seq<seq<Row>>)
    requires |files| == |inputs| && Merged(rows, files, inputs)
    ensures SortedRows(rows)
  {
  }

  lemma MergedAgree(a: seq<Row>, b: seq<Row>, files: seq<InFile>, inputs: seq<seq<Row>>, key: Key)
    requires |files| == |inputs| && Merged(a, files, inputs) && Merged(b, files, inputs) && key in ToMap(a)
    requires Distinct(files)
    ensures key in ToMap(b) && ToMap(a)[key] == ToMap(b)[key]
  {
    hide Merged, ToMap, Wins, SkippedKey;
    var s := MergedEntry(a, files, inputs, key);
    MergedAt(b, files, inputs, s, key);
  }

  lemma SameMap<K, V>(a: map<K, V>, b: map<K, V>)
    requires forall k :: k in a ==> k in b && a[k] == b[k]
    requires forall k :: k in b ==> k in a
    ensures a == b
  {
  }

  /** With distinct priorities there is one result. */
  lemma MergedUnique(a: seq<Row>, b: seq<Row>, files: seq<InFile>, inputs: seq<seq<Row>>)
    requires |files| == |inputs| && Merged(a, files, inputs) && Merged(b, files, inputs) && Distinct(files)
    ensures a == b
  {
    hide ToMap, Merged, SortedRows, Distinct;
    forall key | key in ToMap(a) ensures key in ToMap(b) && ToMap(a)[key] == ToMap(b)[key] {
      MergedAgree(a, b, files, inputs, key);
    }
    forall key | key in ToMap(b) ensures key in ToMap(a) {
      MergedAgree(b, a, files, inputs, key);
    }
    SameMap(ToMap(a), ToMap(b));
    MergedSorted(a, files, inputs);
    MergedSorted(b, files, inputs);
    SortedRowsUnique(a, b);
  }

  // ---------- what it ought to hold ----------

  /** What a winning file says is live. */
  ghost predicate LiveAt(files: seq<InFile>, inputs: seq<seq<Row>>, s: nat, key: Key)
    requires |files| == |inputs|
  {
    Wins(files, inputs, s, key) && !ToMap(inputs[s])[key].deleted
  }

  /** The rows say about the key what file s says. */
  ghost predicate Same(rows: seq<Row>, inputs: seq<seq<Row>>, s: nat, key: Key)
  {
    s < |inputs| && key in ToMap(inputs[s]) && key in ToMap(rows) && ToMap(rows)[key] == ToMap(inputs[s])[key]
  }

  /** The live rows are the live rows of the files, each file covering those of lower priority. */
  ghost predicate Overlay(rows: seq<Row>, files: seq<InFile>, inputs: seq<seq<Row>>)
    requires |files| == |inputs|
  {
    && (forall key :: key in ToMap(rows) && !ToMap(rows)[key].deleted ==>
      exists s: nat :: LiveAt(files, inputs, s, key) && Same(rows, inputs, s, key))
    && (forall s: nat, key :: LiveAt(files, inputs, s, key) ==> Same(rows, inputs, s, key))
  }

  /** Row p of file s is live and wins, but comes after a deletion other than the first row. */
  ghost predicate Lost(files: seq<InFile>, inputs: seq<seq<Row>>, s: nat, p: nat)
    requires |files| == |inputs|
  {
    && s < |inputs| && p < |inputs[s]| && !inputs[s][p].deleted && Wins(files, inputs, s, inputs[s][p].key)
    && exists j :: 1 <= j < p && inputs[s][j].deleted
  }

  /** In sorted rows a key is skipped where it is. */
  lemma SkippedAt(rows: seq<Row>, p: nat)
    requires SortedRows(rows) && p < |rows|
    ensures SkippedKey(rows, rows[p].key) <==> Skipped(rows, p)
  {
    if q :| 0 <= q < |rows| && rows[q].key == rows[p].key && Skipped(rows, q) {
      LessTrichotomy(rows[p].key, rows[q].key);
    }
  }

  lemma LostMissed(rows: seq<Row>, files: seq<InFile>, inputs: seq<seq<Row>>, s: nat, p: nat)
    requires |files| == |inputs| && Merged(rows, files, inputs) && Distinct(files) && Lost(files, inputs, s, p)
    requires SortedRows(inputs[s])
    ensures LiveAt(files, inputs, s, inputs[s][p].key) && inputs[s][p].key !in ToMap(rows)
  {
    hide Merged, ToMap, Wins;
    SortedEntry(inputs[s], p);
    SkippedAt(inputs[s], p);
    MergedAt(rows, files, inputs, s, inputs[s][p].key);
  }

  lemma LiveThere(rows: seq<Row>, files: seq<InFile>, inputs: seq<seq<Row>>, s: nat, key: Key)
    requires |files| == |inputs| && Merged(rows, files, inputs) && Distinct(files) && LiveAt(files, inputs, s, key)
    requires SortedRows(inputs[s]) && forall p :: !Lost(files, inputs, s, p)
    ensures Same(rows, inputs, s, key)
  {
    hide Merged, ToMap;
    var p := MapEntry(inputs[s], key);
    SkippedAt(inputs[s], p);
    MergedAt(rows, files, inputs, s, key);
    assert !Lost(files, inputs, s, p);
  }

  lemma NotOverlay(rows: seq<Row>, files: seq<InFile>, inputs: seq<seq<Row>>, s: nat, key: Key)
    requires |files| == |inputs| && LiveAt(files, inputs, s, key) && key !in ToMap(rows)
    ensures !Overlay(rows, files, inputs)
  {
  }

  /** The new file has the live rows it ought to have if and only if no file has a row that is lost. */
  lemma OverlayIff(rows: seq<Row>, files: seq<InFile>, inputs: seq<seq<Row>>)
    requires |files| == |inputs| && Merged(rows, files, inputs) && Distinct(files)
    requires forall i :: 0 <= i < |inputs| ==> SortedRows(inputs[i])
    ensures Overlay(rows, files, inputs) <==> forall s, p :: !Lost(files, inputs, s, p)
  {
    hide Merged, SortedRows, Lost, Distinct, LiveAt, Same;
    if s: nat, p: nat :| Lost(files, inputs, s, p) {
      LostIn(files, inputs, s, p);
      LostMissed(rows, files, inputs, s, p);
      NotOverlay(rows, files, inputs, s, inputs[s][p].key);
    } else {
      forall s: nat, key | LiveAt(files, inputs, s, key) ensures Same(rows, inputs, s, key) {
        LiveIn(files, inputs, s, key);
        LiveThere(rows, files, inputs, s, key);
      }
      forall key | key in ToMap(rows) && !ToMap(rows)[key].deleted
        ensures exists s: nat :: LiveAt(files, inputs, s, key) && Same(rows, inputs, s, key)
      {
        var s := LiveFrom(rows, files, inputs, key);
      }
    }
  }

  lemma LiveFrom(rows: seq<Row>, files: seq<InFile>, inputs: seq<seq<Row>>, key: Key) returns (s: nat)
    requires |files| == |inputs| && Merged(rows, files, inputs) && key in ToMap(rows) && !ToMap(rows)[key].deleted
    ensures LiveAt(files, inputs, s, key) && Same(rows, inputs, s, key)
  {
    hide Merged, ToMap;
    s := MergedEntry(rows, files, inputs, key);
  }

  lemma LiveIn(files: seq<InFile>, inputs: seq<seq<Row>>, s: nat, key: Key)
    requires |files| == |inputs| && LiveAt(files, inputs, s, key)
    ensures s < |inputs|
  {
  }

  lemma LostIn(files: seq<InFile>, inputs: seq<seq<Row>>, s: nat, p: nat)
    requires |files| == |inputs| && Lost(files, inputs, s, p)
    ensures s < |inputs| && p < |inputs[s]|
  {
  }

  /** A deletion stays in the new file exactly when it is the first row of the file that wins. */
  lemma DeletionStays(rows: seq<Row>, files: seq<InFile>, inputs: seq<seq<Row>>, s: nat, p: nat)
    requires |files| == |inputs| && Merged(rows, files, inputs) && Distinct(files)
    requires s < |inputs| && SortedRows(inputs[s]) && p < |inputs[s]| && inputs[s][p].deleted
    requires Wins(files, inputs, s, inputs[s][p].key)
    ensures inputs[s][p].key in ToMap(rows) <==> p == 0
    ensures p == 0 ==> ToMap(rows)[inputs[s][0].key] == inputs[s][0]
  {
    hide Merged, ToMap, Wins;
    SortedEntry(inputs[s], p);
    SkippedAt(inputs[s], p);
    MergedAt(rows, files, inputs, s, inputs[s][p].key);
  }

  /** Two files, the first of which has a deletion between two live rows: the second of them is lost. */
  lemma RowLost(rows: seq<Row>, files: seq<InFile>)
    requires |files| == 2 && files[0].priority == 2 && files[1].priority == 1
    ensures var inputs := [[Row([1], [7], false), Row([2], [], true), Row([3], [8], false)], [Row([4], [9], false)]];
      Merged(rows, files, inputs) ==> [3] !in ToMap(rows) && !Overlay(rows, files, inputs)
  {
    var first, second := [Row([1], [7], false), Row([2], [], true), Row([3], [8], false)], [Row([4], [9], false)];
    var inputs := [first, second];
    if Merged(rows, files, inputs) {
      ThreeSorted(first);
      SortedEntry(first, 2);
      hide ToMap, Merged, Overlay;
      if [3] in ToMap(second) {
        var q := MapEntry(second, [3]);
      }
      assert Wins(files, inputs, 0, [3]);
      assert first[1].deleted;
      assert Lost(files, inputs, 0, 2);
      LostMissed(rows, files, inputs, 0, 2);
      NotOverlay(rows, files, inputs, 0, [3]);
    }
  }

  lemma ThreeSorted(rows: seq<Row>)
    requires |rows| == 3 && rows[0].key == [1] && rows[1].key == [2] && rows[2].key == [3]
    ensures SortedRows(rows)
  {
  }

  // ---------- the size of the new file ----------

  /** The rows of all files, one after the other. */
  ghost function Join(inputs: seq<seq<Row>>): seq<Row>
  {
    if inputs == [] then [] else Join(inputs[..|inputs| - 1]) + inputs[|inputs| - 1]
  }

  lemma {:induction false} InJoin(inputs: seq<seq<Row>>, s: nat, row: Row)
    requires s < |inputs| && row in inputs[s]
    ensures row in Join(inputs)
  {
    if s < |inputs| - 1 {
      InJoin(inputs[..|inputs| - 1], s, row);
    }
  }

  /** A row of the new file is a row of one of the files. */
  lemma MergedRow(rows: seq<Row>, files: seq<InFile>, inputs: seq<seq<Row>>, k: nat) returns (s: nat)
    requires AllMergeable(files, inputs) && Merged(rows, files, inputs) && k < |rows|
    ensures s < |inputs| && rows[k] in inputs[s] && Writable(ItemOf(rows[k])) && Passable(ItemOf(rows[k]))
  {
    hide Merged, ToMap, SortedRows, Writable, SkippedKey;
    MergedSorted(rows, files, inputs);
    SortedEntry(rows, k);
    s := MergedEntry(rows, files, inputs, rows[k].key);
    var i := MapEntry(inputs[s], rows[k].key);
    assert Mergeable(files[s], inputs[s]);
    assert Points(files[s].buf, files[s].index, inputs[s], i);
  }

  /** The rows fit a file if all files together do. */
  lemma MergedFits(rows: seq<Row>, files: seq<InFile>, inputs: seq<seq<Row>>)
    requires AllMergeable(files, inputs) && Merged(rows, files, inputs)
    requires HDR_SIZE + TotalSize(Join(inputs)) < TWO_64
    ensures Packable(rows) && |rows| < TWO_61 - 8 && AllPassable(Items(rows))
  {
    assert |files| == |inputs|;
    hide Merged, ToMap, Writable, Passable, AllMergeable, LogBytes;
    forall k | 0 <= k < |rows| ensures rows[k] in Join(inputs) && Writable(Items(rows)[k]) && Passable(Items(rows)[k]) {
      var s := MergedRow(rows, files, inputs, k);
      InJoin(inputs, s, rows[k]);
    }
    MergedSorted(rows, files, inputs);
    forall i, j | 0 <= i < j < |rows| ensures rows[i] != rows[j] {
      LessTrichotomy(rows[i].key, rows[j].key);
    }
    TotalDistinct(rows, Join(inputs));
    RecordsSize(rows, |rows|);
    assert rows[..|rows|] == rows;
    TotalLeast(rows);
  }

  // ---------- taking ----------

  /** Row o is the row that the o-th key handed out stands for. */
  ghost predicate Taken(rows: seq<Row>, out: seq<Emitted>, inputs: seq<seq<Row>>)
  {
    |rows| == |out| && forall o :: 0 <= o < |out| ==> TakenAt(rows[o], out[o], inputs)
  }

  ghost predicate TakenAt(row: Row, e: Emitted, inputs: seq<seq<Row>>)
  {
    row.key == e.key && e.source < |inputs| && row in inputs[e.source]
  }

  /** A row of sorted rows is what the map says. */
  lemma InMap(rows: seq<Row>, row: Row)
    requires SortedRows(rows) && row in rows
    ensures row.key in ToMap(rows) && ToMap(rows)[row.key] == row
  {
    var i :| 0 <= i < |rows| && rows[i] == row;
    SortedEntry(rows, i);
  }

  lemma TakenSorted(rows: seq<Row>, out: seq<Emitted>, inputs: seq<seq<Row>>)
    requires Ascending(out) && Taken(rows, out, inputs)
    ensures SortedRows(rows)
  {
    forall i, j | 0 <= i < j < |rows| ensures Less(rows[i].key, rows[j].key) {
      assert TakenAt(rows[i], out[i], inputs) && TakenAt(rows[j], out[j], inputs);
    }
  }

  /** The mark that a key was handed out with says whether its file skips it. */
  lemma MarkSkips(m: State, files: seq<InFile>, inputs: seq<seq<Row>>, o: nat)
    requires AllMergeable(files, inputs) && Feeds(m.sources, files, inputs, |files|) && MG.Ended(m, false)
    requires o < |m.out|
    ensures m.out[o].source < |inputs|
    ensures m.out[o].deleted <==> SkippedKey(inputs[m.out[o].source], m.out[o].key)
  {
    assert MG.OutRight(m.out[o], m.sources, false);
    var s := m.out[o].source;
    assert Mergeable(files[s], inputs[s]) && Holds(m.sources[s], true, files[s].priority, inputs[s]);
    var p :| MG.MarkedAs(m.out[o], m.sources[s], false, p);
    SkippedAt(inputs[s], p);
    MarkedSkipped(m.sources[s], files[s].priority, inputs[s], p);
  }

  lemma MarkedSkipped(s: Source, priority: int, rows: seq<Row>, p: nat)
    requires Holds(s, true, priority, rows)
    ensures MG.Marked(s, false, p) <==> Skipped(rows, p)
  {
    if j :| 1 <= j <= p && j < |rows| && rows[j].deleted {
      assert s.dels[j];
    }
    if j :| 0 <= j <= p && j < |s.dels| && s.dels[j] && j > 0 {
      assert rows[j].deleted;
    }
  }

  /** What was handed out came from a winning file. */
  lemma OutWins(m: State, files: seq<InFile>, inputs: seq<seq<Row>>, o: nat)
    requires AllMergeable(files, inputs) && Feeds(m.sources, files, inputs, |files|)
    requires o < |m.out| && m.Best(o)
    ensures Wins(files, inputs, m.out[o].source, m.out[o].key)
  {
    var s, key := m.out[o].source, m.out[o].key;
    assert Mergeable(files[s], inputs[s]) && Holds(m.sources[s], true, files[s].priority, inputs[s]);
    var p :| 0 <= p < |m.sources[s].keys| && m.sources[s].keys[p] == key;
    SortedEntry(inputs[s], p);
    forall i | 0 <= i < |inputs| && key in ToMap(inputs[i]) ensures files[i].priority <= files[s].priority {
      var j := MapEntry(inputs[i], key);
      assert Holds(m.sources[i], true, files[i].priority, inputs[i]) && m.sources[i].keys[j] == key;
    }
  }

  /** A row taken for a key that was handed out and not skipped comes from a winning file. */
  lemma TakenComes(m: State, files: seq<InFile>, inputs: seq<seq<Row>>, row: Row, o: nat)
    requires AllMergeable(files, inputs) && Feeds(m.sources, files, inputs, |files|) && MG.Ended(m, false)
    requires o < |m.out| && !m.out[o].deleted && TakenAt(row, m.out[o], inputs)
    ensures Comes(row, files, inputs, m.out[o].source, row.key)
  {
    var s := m.out[o].source;
    assert m.Best(o);
    hide Wins, SkippedKey, State.Best;
    assert Mergeable(files[s], inputs[s]);
    OutWins(m, files, inputs, o);
    MarkSkips(m, files, inputs, o);
    InMap(inputs[s], row);
  }

  /** A key is missing because it was handed out by a file that skips it. */
  lemma NotTaken(m: State, files: seq<InFile>, inputs: seq<seq<Row>>, rows: seq<Row>, i: nat, key: Key)
    requires AllMergeable(files, inputs) && Feeds(m.sources, files, inputs, |files|) && MG.Ended(m, false)
    requires Taken(rows, MG.Unmarked(m.out), inputs) && SortedRows(rows)
    requires i < |inputs| && key in ToMap(inputs[i]) && key !in ToMap(rows)
    ensures exists s: nat :: Missed(files, inputs, s, key)
  {
    hide Wins, SkippedKey, SortedRows, Mergeable, Sourced, State.Best, ToMap;
    var j := MapEntry(inputs[i], key);
    assert Holds(m.sources[i], true, files[i].priority, inputs[i]);
    assert KeyOut(m, i, j);
    var o :| 0 <= o < |m.out| && m.HandedOut(o, m.sources[i].keys[j], m.sources[i].priority);
    assert m.Best(o);
    OutWins(m, files, inputs, o);
    MarkSkips(m, files, inputs, o);
    if !m.out[o].deleted {
      MG.UnmarkedFrom(m.out, m.out[o]);
      var k :| 0 <= k < |rows| && MG.Unmarked(m.out)[k] == m.out[o];
      assert TakenAt(rows[k], MG.Unmarked(m.out)[k], inputs);
      SortedEntry(rows, k);
      assert false;
    }
    assert Missed(files, inputs, m.out[o].source, key);
  }

  /** When everything has been handed out, what was taken is the result. */
  lemma TakenIsMerged(m: State, files: seq<InFile>, inputs: seq<seq<Row>>, rows: seq<Row>)
    requires AllMergeable(files, inputs) && Feeds(m.sources, files, inputs, |files|)
    requires MG.Ended(m, false) && Taken(rows, MG.Unmarked(m.out), inputs)
    ensures Merged(rows, files, inputs)
  {
    assert |files| == |inputs|;
    var out := MG.Unmarked(m.out);
    MG.UnmarkedAscending(m.out);
    TakenSorted(rows, out, inputs);
    hide AllMergeable, Feeds, MG.Ended, SortedRows, MG.Unmarked, Comes, Missed, ToMap;
    forall key | key in ToMap(rows) ensures exists s: nat :: Comes(ToMap(rows)[key], files, inputs, s, key) {
      var k := MapEntry(rows, key);
      assert TakenAt(rows[k], out[k], inputs);
      MG.UnmarkedFrom(m.out, out[k]);
      var o :| 0 <= o < |m.out| && m.out[o] == out[k];
      TakenComes(m, files, inputs, rows[k], o);
    }
    forall i, key | 0 <= i < |inputs| && key in ToMap(inputs[i]) && key !in ToMap(rows)
      ensures exists s: nat :: Missed(files, inputs, s, key)
    {
      NotTaken(m, files, inputs, rows, i, key);
    }
  }

  // ---------- repacking ----------

  /** Reads the record that a source stands at. */
  method TakeRecord(files: seq<InFile>, ghost inputs: seq<seq<Row>>, sources: seq<Source>,
                    data: nat) returns (rows: seq<Row>)
    requires AllMergeable(files, inputs) && Feeds(sources, files, inputs, |files|)
    requires data < |sources| && sources[data].pos < |sources[data].keys|
    ensures |rows| == 1 && rows[0] == inputs[data][sources[data].pos]
      && rows[0].key == sources[data].keys[sources[data].pos]
  {
    hide Encode, Writable, At, SortedRows;
    var file, pos := files[data], sources[data].pos;
    ghost var row := inputs[data][pos];
    assert Mergeable(file, inputs[data]) && Points(file.buf, file.index, inputs[data], pos);
    rows := ReadRow(file.buf, file.index[pos], row);
  }

  method ReadRow(buf: seq<Byte>, offset: nat, ghost row: Row) returns (rows: seq<Row>)
    requires Writable(ItemOf(row)) && Passable(ItemOf(row)) && At(buf, offset, Encode(ItemOf(row)))
    requires row.deleted ==> row.val == []
    ensures rows == [row]
  {
    hide EncodeKey, EncodeVal, EncodeDelete;
    var ok, offset';
    EncodeAligned(ItemOf(row));
    ok, offset', rows := Record.RecordRead(buf, offset, Some(ItemOf(row)));
  }

  /** One round: the next key is handed out, its record is taken unless it is skipped, and its source moves on. */
  method Round(it: MG.Iterator, files: seq<InFile>, ghost inputs: seq<seq<Row>>, rows: seq<Row>)
    returns (more: bool, rows': seq<Row>)
    requires it.Valid() && it.Now().Inv(None) && it.Now().heap != multiset{}
    requires |files| == |inputs| && AllMergeable(files, inputs)
    requires Feeds(it.sources, files, inputs, |files|) && Taken(rows, MG.Unmarked(it.out), inputs)
    modifies it, it.pq, it.ht.Repr()
    ensures it.Valid() && it.Now().Inv(None) && (more <==> it.Now().heap != multiset{})
    ensures Feeds(it.sources, files, inputs, |files|) && Taken(rows', MG.Unmarked(it.out), inputs)
    ensures fresh(it.ht.Repr() - old(it.ht.Repr())) && MG.Unread(it.sources) < old(MG.Unread(it.sources))
  {
    hide State.Inv, State.Live, State.Leaving, State.Pending, AllMergeable, Feeds, Taken, MG.Right, MG.Unmarked,
      MG.Unread, AfterPop, MG.Iterator.Valid;
    ghost var out := it.out;
    var data := it.Get();
    MG.StandsAt(it.Now(), data.value);
    ghost var sources := it.sources;
    rows' := TakeNext(rows, out, files, inputs, it.sources, data.value);
    more := it.Next(data);
    FeedsStay(sources, it.sources, files, inputs);
  }

  /** Adds the record that a source stands at, unless the source is marked. */
  method TakeNext(rows: seq<Row>, ghost out: seq<Emitted>, files: seq<InFile>, ghost inputs: seq<seq<Row>>,
                  sources: seq<Source>, s: nat) returns (rows': seq<Row>)
    requires AllMergeable(files, inputs) && Feeds(sources, files, inputs, |files|)
    requires Taken(rows, MG.Unmarked(out), inputs) && s < |sources| && sources[s].pos < |sources[s].keys|
    ensures var e := Emitted(sources[s].keys[sources[s].pos], s, sources[s].deleted);
      Taken(rows', MG.Unmarked(out + [e]), inputs)
  {
    assert |files| == |inputs|;
    hide AllMergeable, MG.Unmarked;
    ghost var e := Emitted(sources[s].keys[sources[s].pos], s, sources[s].deleted);
    MG.UnmarkedMore(out, e);
    rows' := rows;
    if !sources[s].deleted {
      var add := TakeRecord(files, inputs, sources, s);
      TakenMore(rows, MG.Unmarked(out), inputs, add[0], e);
      rows' := rows' + add;
    }
  }

  lemma TakenMore(rows: seq<Row>, out: seq<Emitted>, inputs: seq<seq<Row>>, row: Row, e: Emitted)
    requires Taken(rows, out, inputs) && TakenAt(row, e, inputs)
    ensures Taken(rows + [row], out + [e], inputs)
  {
    forall o | 0 <= o < |out| + 1 ensures TakenAt((rows + [row])[o], (out + [e])[o], inputs) {
      if o < |out| {
        assert TakenAt(rows[o], out[o], inputs);
      }
    }
  }

  lemma FeedsStay(before: seq<Source>, after: seq<Source>, files: seq<InFile>, inputs: seq<seq<Row>>)
    requires |files| == |inputs| && Feeds(before, files, inputs, |files|) && MG.SameSources(before, after)
    ensures Feeds(after, files, inputs, |files|)
  {
  }

  /** Get, take and next, as long as there is more. */
  method TakeAll(it: MG.Iterator, files: seq<InFile>, ghost inputs: seq<seq<Row>>) returns (rows: seq<Row>)
    requires it.Valid() && it.Now().Inv(None) && it.out == [] && it.Now().heap != multiset{}
    requires |files| == |inputs| && AllMergeable(files, inputs) && Feeds(it.sources, files, inputs, |files|)
    modifies it, it.pq, it.ht.Repr()
    ensures it.Valid() && it.Now().Inv(None) && it.Now().heap == multiset{}
    ensures Feeds(it.sources, files, inputs, |files|) && Taken(rows, MG.Unmarked(it.out), inputs)
  {
    hide State.Inv, AllMergeable, Feeds, MG.Right;
    rows := [];
    var more := true;
    while more
      invariant it.Valid() && it.Now().Inv(None) && (more <==> it.Now().heap != multiset{})
      invariant Feeds(it.sources, files, inputs, |files|) && Taken(rows, MG.Unmarked(it.out), inputs)
      invariant fresh(it.ht.Repr() - old(it.ht.Repr()))
      decreases MG.Unread(it.sources), more
    {
      more, rows := Round(it, files, inputs, rows);
    }
  }

  /** Merges the files. */
  method MergeFiles(files: seq<InFile>, ghost inputs: seq<seq<Row>>) returns (rows: seq<Row>)
    requires AllMergeable(files, inputs) && files != []
    ensures Merged(rows, files, inputs)
  {
    assert |files| == |inputs|;
    hide State.Inv, AllMergeable, Feeds, Taken, Merged, MG.Right;
    var it := new MG.Iterator(false);
    AllAreSourced(files, inputs);
    BeginAll(it, false, files, inputs);
    StartPending(it.Now(), files, inputs);
    rows := TakeAll(it, files, inputs);
    Finished(it.Now());
    it.MarksKept();
    TakenIsMerged(it.Now(), files, inputs, rows);
  }

  lemma AllAreSourced(files: seq<InFile>, inputs: seq<seq<Row>>)
    requires AllMergeable(files, inputs)
    ensures AllSourced(files, inputs)
  {
    forall i | 0 <= i < |files| ensures Sourced(files[i], inputs[i]) {
      assert Mergeable(files[i], inputs[i]);
    }
  }

  /** A source that is not empty waits in the heap. */
  lemma StartPending(m: State, files: seq<InFile>, inputs: seq<seq<Row>>)
    requires m.Inv(None) && m.out == [] && AllMergeable(files, inputs) && files != []
      && Feeds(m.sources, files, inputs, |files|)
    ensures m.heap != multiset{}
  {
    if m.heap == multiset{} {
      Finished(m);
      assert Mergeable(files[0], inputs[0]) && Holds(m.sources[0], true, files[0].priority, inputs[0]);
      NothingOut(m, 0, 0);
      assert false;
    }
  }

  lemma NothingOut(m: State, i: nat, j: nat)
    requires m.out == [] && i < |m.sources| && j < |m.sources[i].keys|
    ensures !KeyOut(m, i, j)
  {
  }

  /** A packed file that holds the result of merging, and an index that leads to each of its records. */
  ghost predicate Repacked(hdr: seq<Byte>, buf: seq<Byte>, index: seq<Word>, files: seq<InFile>, inputs: seq<seq<Row>>)
    requires |files| == |inputs|
  {
    exists rows :: Merged(rows, files, inputs) && FileHolds(hdr, buf, index, rows)
  }

  ghost predicate FileHolds(hdr: seq<Byte>, buf: seq<Byte>, index: seq<Word>, rows: seq<Row>)
  {
    && Packable(rows) && |rows| < TWO_61 - 8
    && buf == File(hdr, rows) && index == Offsets(rows) && Indexed(buf, index, rows)
  }

  /** Repacks the files into one, given that the records of all of them would fit a 64-bit file. */
  method NewFromPackedFiles(hdr: seq<Byte>, files: seq<InFile>, ghost inputs: seq<seq<Row>>)
    returns (mf: MF.MFile, index: seq<Word>)
    requires AllMergeable(files, inputs) && files != [] && |hdr| == HDR_SIZE
    requires HDR_SIZE + TotalSize(Join(inputs)) < TWO_64
    ensures fresh(mf) && Repacked(hdr, mf.buf, index, files, inputs)
  {
    assert |files| == |inputs|;
    hide *;
    var rows := MergeFiles(files, inputs);
    MergedSorted(rows, files, inputs);
    MergedFits(rows, files, inputs);
    mf, index := WriteFile(hdr, rows);
    IsRepacked(hdr, mf.buf, index, rows, files, inputs);
  }

  lemma IsRepacked(hdr: seq<Byte>, buf: seq<Byte>, index: seq<Word>, rows: seq<Row>, files: seq<InFile>,
                   inputs: seq<seq<Row>>)
    requires |files| == |inputs| && Merged(rows, files, inputs) && SortedRows(rows) && |hdr| == HDR_SIZE
    requires Packable(rows) && |rows| < TWO_61 - 8 && AllPassable(Items(rows))
    requires buf == File(hdr, rows) && index == Offsets(rows)
    ensures Repacked(hdr, buf, index, files, inputs)
  {
    hide Merged, Packable, Indexed, AllPassable, SortedRows;
    FileIndexed(buf, hdr, rows, FinalCrc(Pointers(Offsets(rows), |rows|)));
    assert FileHolds(hdr, buf, index, rows);
  }
}
