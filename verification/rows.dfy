/**
 Rows: what a store says about its keys, as values.  A row binds a key to a value or marks it
 deleted.  Sorted rows and maps from keys say the same, and putting a row into sorted rows is
 updating the map.
 */
module Rows {
  import opened Bytes
  import opened Weave

  datatype Row = Row(key: Key, val: seq<Byte>, deleted: bool)

  ghost predicate SortedRows(rows: seq<Row>)
  {
    forall i, j :: 0 <= i < j < |rows| ==> Less(rows[i].key, rows[j].key)
  }

  /** The number of leading rows with smaller keys. */
  ghost function Rank(rows: seq<Row>, key: Key): (g: nat)
    ensures g <= |rows|
    ensures forall k :: 0 <= k < g ==> Less(rows[k].key, key)
    ensures g < |rows| ==> !Less(rows[g].key, key)
  {
    if rows != [] && Less(rows[0].key, key) then 1 + Rank(rows[1..], key) else 0
  }

  lemma RankIs(rows: seq<Row>, key: Key, g: nat)
    requires g <= |rows|
    requires forall k :: 0 <= k < g ==> Less(rows[k].key, key)
    requires g < |rows| ==> !Less(rows[g].key, key)
    ensures Rank(rows, key) == g
  {
    if g < Rank(rows, key) {
      assert !Less(rows[g].key, key);
    }
  }

  /** The rows have one for key. */
  ghost predicate Has(rows: seq<Row>, key: Key)
  {
    Rank(rows, key) < |rows| && rows[Rank(rows, key)].key == key
  }

  /** Puts a row where its key belongs, in place of a row with that key. */
  ghost function Upsert(rows: seq<Row>, row: Row): seq<Row>
  {
    var g := Rank(rows, row.key);
    if Has(rows, row.key) then rows[g := row] else Insert(rows, g, row)
  }

  /** Rows read from left to right, a later one for the same key replacing an earlier one. */
  ghost function ToMap(rows: seq<Row>): map<Key, Row>
  {
    if rows == [] then map[]
    else ToMap(rows[..|rows| - 1])[rows[|rows| - 1].key := rows[|rows| - 1]]
  }

  /** A run of puts, one after the other, into rows. */
  ghost function Put(rows: seq<Row>, log: seq<Row>): seq<Row>
  {
    if log == [] then rows else Upsert(Put(rows, log[..|log| - 1]), log[|log| - 1])
  }

  lemma {:induction false} PutConcat(rows: seq<Row>, a: seq<Row>, b: seq<Row>)
    ensures Put(rows, a + b) == Put(Put(rows, a), b)
  {
    if b == [] {
      assert a + b == a;
    } else {
      PutConcat(rows, a, b[..|b| - 1]);
      assert (a + b)[..|a + b| - 1] == a + b[..|b| - 1];
    }
  }

  // ---------- sorted rows and maps ----------

  /** Every entry of the map is a row, the last one for its key. */
  lemma {:induction false} MapEntry(rows: seq<Row>, key: Key) returns (i: nat)
    requires key in ToMap(rows)
    ensures i < |rows| && rows[i].key == key && ToMap(rows)[key] == rows[i]
    ensures forall j :: i < j < |rows| ==> rows[j].key != key
  {
    if key == rows[|rows| - 1].key {
      i := |rows| - 1;
    } else {
      i := MapEntry(rows[..|rows| - 1], key);
    }
  }

  /** In sorted rows every row counts. */
  lemma {:induction false} SortedEntry(rows: seq<Row>, i: nat)
    requires SortedRows(rows) && i < |rows|
    ensures rows[i].key in ToMap(rows) && ToMap(rows)[rows[i].key] == rows[i]
  {
    if i < |rows| - 1 {
      SortedEntry(rows[..|rows| - 1], i);
      LessTrichotomy(rows[i].key, rows[|rows| - 1].key);
    }
  }

  /** What the rows after a rank look like. */
  lemma AfterRank(rows: seq<Row>, key: Key, k: nat)
    requires SortedRows(rows) && k < |rows|
    ensures k < Rank(rows, key) ==> rows[k].key != key
    ensures k == Rank(rows, key) && rows[k].key != key ==> Less(key, rows[k].key)
    ensures k > Rank(rows, key) ==> Less(key, rows[k].key) && rows[k].key != key
  {
    var g := Rank(rows, key);
    LessTrichotomy(rows[k].key, key);
    if k > g {
      LessTrichotomy(rows[g].key, key);
      if rows[g].key != key {
        LessTransitive(key, rows[g].key, rows[k].key);
      }
    }
  }

  lemma UpsertSorted(rows: seq<Row>, row: Row)
    requires SortedRows(rows)
    ensures SortedRows(Upsert(rows, row))
  {
    var g, s := Rank(rows, row.key), Upsert(rows, row);
    var d := |s| - |rows|;
    hide Rank;
    forall i, j | 0 <= i < j < |s| ensures Less(s[i].key, s[j].key) {
      if g < j {
        AfterRank(rows, row.key, j - d);
      }
    }
  }

  lemma MapSnoc(rows: seq<Row>, r: Row)
    ensures ToMap(rows + [r]) == ToMap(rows)[r.key := r]
  {
    assert (rows + [r])[..|rows|] == rows;
  }

  lemma Commute(m: map<Key, Row>, a: Row, b: Row)
    requires a.key != b.key
    ensures m[a.key := a][b.key := b] == m[b.key := b][a.key := a]
  {
  }

  /** Putting a row between rows, or in place of one for its key, when no later row is for it. */
  lemma {:induction false} MapMiddle(a: seq<Row>, here: seq<Row>, b: seq<Row>, row: Row)
    requires here == [] || (|here| == 1 && here[0].key == row.key)
    requires forall k :: 0 <= k < |b| ==> b[k].key != row.key
    ensures ToMap(a + [row] + b) == ToMap(a + here + b)[row.key := row]
  {
    if b == [] {
      assert a + [row] + b == a + [row] && a + here + b == a + here;
      MapSnoc(a, row);
      if here == [] {
        assert a + here == a;
      } else {
        assert here == [here[0]];
        MapSnoc(a, here[0]);
      }
    } else {
      hide ToMap;
      var b', last := b[..|b| - 1], b[|b| - 1];
      MapMiddle(a, here, b', row);
      assert a + [row] + b == (a + [row] + b') + [last];
      assert a + here + b == (a + here + b') + [last];
      MapSnoc(a + [row] + b', last);
      MapSnoc(a + here + b', last);
      Commute(ToMap(a + here + b'), row, last);
    }
  }

  /** A key is in the map exactly when there is a row for it where it would go. */
  lemma HasMap(rows: seq<Row>, key: Key)
    requires SortedRows(rows)
    ensures Has(rows, key) <==> key in ToMap(rows)
    ensures Has(rows, key) ==> ToMap(rows)[key] == rows[Rank(rows, key)]
  {
    if Has(rows, key) {
      SortedEntry(rows, Rank(rows, key));
    } else if key in ToMap(rows) {
      var k := MapEntry(rows, key);
      AfterRank(rows, key, k);
    }
  }

  /** Rows around those from g to h, of which there is at most one, and with a row in their place. */
  lemma Cuts(rows: seq<Row>, g: nat, h: nat, row: Row)
    requires g <= h <= |rows| && h <= g + 1
    ensures rows == rows[..g] + rows[g..h] + rows[h..]
    ensures rows[..g] + [row] + rows[h..] == if h == g then Insert(rows, g, row) else rows[g := row]
  {
  }

  /** Putting a row into sorted rows is updating the map. */
  lemma UpsertMap(rows: seq<Row>, row: Row)
    requires SortedRows(rows)
    ensures ToMap(Upsert(rows, row)) == ToMap(rows)[row.key := row]
  {
    hide ToMap, SortedRows, Rank;
    var g := Rank(rows, row.key);
    var h := if Has(rows, row.key) then g + 1 else g;
    forall k | h <= k < |rows| ensures rows[k].key != row.key {
      AfterRank(rows, row.key, k);
    }
    Cuts(rows, g, h, row);
    MapMiddle(rows[..g], rows[g..h], rows[h..], row);
  }

  lemma MergeUpdate(a: map<Key, Row>, b: map<Key, Row>, r: Row)
    ensures (a + b)[r.key := r] == a + b[r.key := r]
  {
  }

  /** A run of puts into sorted rows adds to them what the run, read from left to right, says. */
  lemma {:induction false} PutIsReplay(rows: seq<Row>, log: seq<Row>)
    requires SortedRows(rows)
    ensures SortedRows(Put(rows, log)) && ToMap(Put(rows, log)) == ToMap(rows) + ToMap(log)
  {
    if log != [] {
      var rest := log[..|log| - 1];
      PutIsReplay(rows, rest);
      UpsertSorted(Put(rows, rest), log[|log| - 1]);
      UpsertMap(Put(rows, rest), log[|log| - 1]);
      MergeUpdate(ToMap(rows), ToMap(rest), log[|log| - 1]);
    }
  }

  /** Sorted rows are determined by their map. */
  lemma SortedRowsUnique(a: seq<Row>, b: seq<Row>)
    requires SortedRows(a) && SortedRows(b) && ToMap(a) == ToMap(b)
    ensures a == b
  {
    SameUpTo(a, b, |a|);
    SameUpTo(b, a, |b|);
  }

  lemma {:induction false} SameUpTo(a: seq<Row>, b: seq<Row>, n: nat)
    requires SortedRows(a) && SortedRows(b) && ToMap(a) == ToMap(b) && n <= |a|
    ensures n <= |b| && forall i :: 0 <= i < n ==> a[i] == b[i]
  {
    if n > 0 {
      SameUpTo(a, b, n - 1);
      var j := NotBefore(a, b, n - 1);
      var k := NotBefore(b, a, n - 1);
      LessTrichotomy(a[n - 1].key, b[n - 1].key);
    }
  }

  /** Where a[n] is in b, when the rows before it are the same. */
  lemma NotBefore(a: seq<Row>, b: seq<Row>, n: nat) returns (j: nat)
    requires SortedRows(a) && SortedRows(b) && ToMap(a) == ToMap(b) && n < |a|
    requires forall i :: 0 <= i < n && i < |b| ==> a[i] == b[i]
    ensures n <= j < |b| && b[j] == a[n]
  {
    SortedEntry(a, n);
    j := MapEntry(b, a[n].key);
    if j < n {
      LessTrichotomy(a[j].key, a[n].key);
    }
  }
}
