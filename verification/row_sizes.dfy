/** How many bytes rows take in a packed file. */
module RowSizes {
  import opened Format
  import opened PackedFormat
  import opened Rows

  function Size(row: Row): (n: nat)
    ensures n >= KEY_BASE_SIZE
  {
    KeyLen(row.key) + if row.deleted then 0 else ValLen(row.val)
  }

  function TotalSize(rows: seq<Row>): nat
  {
    if rows == [] then 0 else TotalSize(rows[..|rows| - 1]) + Size(rows[|rows| - 1])
  }

  /** The records of rows take their total size. */
  lemma {:induction false} RecordsSize(rows: seq<Row>, n: nat)
    requires AllWritable(Items(rows)) && n <= |rows|
    ensures |LogBytes(Items(rows), n)| == TotalSize(rows[..n])
  {
    hide Encode, Writable, Size, ItemOf;
    if n > 0 {
      RecordsSize(rows, n - 1);
      assert rows[..n][..n - 1] == rows[..n - 1];
      ItemSize(rows[n - 1], Items(rows)[n - 1]);
    }
  }

  lemma ItemSize(row: Row, item: Item)
    requires item == ItemOf(row) && Writable(item)
    ensures |Encode(item)| == Size(row)
  {
    hide EncodeKey, EncodeVal, EncodeDelete, EncodeCommit, EncodeLongCommit;
  }

  lemma {:induction false} TotalConcat(a: seq<Row>, b: seq<Row>)
    ensures TotalSize(a + b) == TotalSize(a) + TotalSize(b)
  {
    if b == [] {
      assert a + b == a;
    } else {
      TotalConcat(a, b[..|b| - 1]);
      assert (a + b)[..|a + b| - 1] == a + b[..|b| - 1];
    }
  }

  lemma TotalOne(row: Row)
    ensures TotalSize([row]) == Size(row)
  {
    assert [row][..0] == [];
  }

  /** Without row i. */
  lemma TotalWithout(rows: seq<Row>, i: nat)
    requires i < |rows|
    ensures TotalSize(rows) == TotalSize(rows[..i] + rows[i + 1..]) + Size(rows[i])
  {
    hide *;
    TotalOne(rows[i]);
    TotalConcat(rows[..i], [rows[i]]);
    TotalConcat(rows[..i] + [rows[i]], rows[i + 1..]);
    TotalConcat(rows[..i], rows[i + 1..]);
    Around(rows, i);
  }

  lemma Around<T>(s: seq<T>, i: nat)
    requires i < |s|
    ensures s == s[..i] + [s[i]] + s[i + 1..]
  {
  }

  /** Different rows that are all among others take no more than those. */
  lemma {:induction false} TotalDistinct(some: seq<Row>, all: seq<Row>)
    requires forall i, j :: 0 <= i < j < |some| ==> some[i] != some[j]
    requires forall i :: 0 <= i < |some| ==> some[i] in all
    ensures TotalSize(some) <= TotalSize(all)
  {
    if some != [] {
      var rest, row := some[..|some| - 1], some[|some| - 1];
      var i :| 0 <= i < |all| && all[i] == row;
      var all' := all[..i] + all[i + 1..];
      TotalWithout(all, i);
      forall k | 0 <= k < |rest| ensures rest[k] in all' {
        var j :| 0 <= j < |all| && all[j] == some[k];
        assert all'[if j < i then j else j - 1] == some[k];
      }
      TotalDistinct(rest, all');
    }
  }

  lemma {:induction false} TotalLeast(rows: seq<Row>)
    ensures TotalSize(rows) >= 24 * |rows|
  {
    if rows != [] {
      TotalLeast(rows[..|rows| - 1]);
    }
  }
}
