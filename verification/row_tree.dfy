/** A memtree seen from the database: sorted rows, and putting a row. */
module RowTree {
  import opened Rows
  import MT = MemTree
  import MN = MemTreeNode

  class RowTree {
    const tree: MT.MemTree
    ghost var rows: seq<Row>
    ghost var repr: set<object>

    /** The tree holds the rows; repr is what makes up the tree. */
    ghost predicate Valid()
      reads this, repr
    {
      && this in repr && tree in repr && tree.nodes <= repr
      && tree.Valid() && tree.Sorted() && repr == {this} + tree.Footprint() && tree.Rows() == rows
    }

    constructor ()
      ensures Valid() && rows == [] && fresh(repr)
    {
      tree := new MT.MemTree();
      rows, repr := [], {};
      new;
      Refresh([]);
    }

    /** record_new and memtree_replace. */
    method Replace(row: Row)
      requires Valid()
      modifies repr
      ensures Valid() && rows == Upsert(old(rows), row) && fresh(repr - old(repr))
    {
      var rec := new MN.Record(row.key, row.val, row.deleted);
      ReplaceRecord(rec);
    }

    method ReplaceRecord(rec: MN.Record)
      requires Valid()
      modifies repr
      ensures Valid() && rows == Upsert(old(rows), old(MT.RowOf(rec))) && fresh(repr - old(repr) - {rec})
    {
      ghost var before, rows' := repr, Upsert(rows, MT.RowOf(rec));
      tree.Replace(rec);
      assert fresh(tree.Footprint() - before - {rec});
      Refresh(rows');
    }

    lemma InRepr()
      requires Valid()
      ensures this in repr
    {
    }

    lemma RowsSorted()
      requires Valid()
      ensures SortedRows(rows)
    {
      assert rows == MT.RowsOf(tree.Contents());
    }

    /** Walks the tree forward. */
    method Walk() returns (walk: seq<Row>)
      requires Valid()
      ensures walk == rows
    {
      var recs := tree.WalkForward();
      walk := MT.RowsOf(recs);
    }

    /** Passes all rows with a cursor. */
    method WalkCursor() returns (walk: seq<Row>)
      requires Valid()
      ensures walk == rows
    {
      var recs := tree.WalkCursor();
      walk := MT.RowsOf(recs);
    }

    /** The tree's count says whether it holds anything. */
    method IsEmpty() returns (empty: bool)
      requires Valid()
      ensures empty <==> rows == []
    {
      empty := tree.count == 0;
    }

    /** Takes over what the tree now holds. */
    ghost method Refresh(rows': seq<Row>)
      requires tree.Valid() && tree.Sorted() && tree.Rows() == rows'
      modifies this
      ensures Valid() && rows == rows' && repr == {this} + tree.Footprint()
    {
      rows, repr := rows', {this} + tree.Footprint();
    }
  }
}
