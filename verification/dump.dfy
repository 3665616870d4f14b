/** Sessions and iteration together: what a database shows after a run. */
module Dump {
  import opened Begin
  import opened Bytes
  import opened Db
  import opened MergeState
  import opened Reference
  import opened Rows
  import opened Session
  import MG = Merge

  lemma KeyedOf(rows: seq<Row>)
    requires SortedRows(rows) && [] !in ToMap(rows)
    ensures Keyed(rows)
  {
    forall i | 0 <= i < |rows| ensures rows[i].key != [] {
      SortedEntry(rows, i);
    }
  }

  /** The rows of source s, when there are no packed files. */
  ghost function TreeOf(fin: seq<Row>, act: seq<Row>, s: nat): seq<Row>
  {
    if s == 0 && fin != [] then fin else act
  }

  lemma KeyIn(rows: seq<Row>, key: Key)
    requires SortedRows(rows)
    ensures key in KeysOf(rows) <==> key in ToMap(rows)
  {
    if key in ToMap(rows) {
      var i := MapEntry(rows, key);
      assert KeysOf(rows)[i] == key;
    }
    if key in KeysOf(rows) {
      var i :| 0 <= i < |rows| && KeysOf(rows)[i] == key;
      SortedEntry(rows, i);
    }
  }

  /** The tree that a key is handed out from is the one that counts. */
  lemma FromTree(m: State, fin: seq<Row>, act: seq<Row>, o: nat)
    requires SortedRows(fin) && SortedRows(act) && Tiers(m.sources, [], [], fin, act)
    requires o < |m.out| && m.Best(o)
    ensures var (key, rows) := (m.out[o].key, TreeOf(fin, act, m.out[o].source));
      key in ToMap(rows) && key in View(fin, act) && ToMap(rows)[key] == View(fin, act)[key]
  {
    hide Tiers, ToMap, SortedRows;
    var (key, s) := (m.out[o].key, m.out[o].source);
    TierHolds(m.sources, [], [], fin, act, s);
    TierWins(m, [], [], fin, act, o);
    KeyIn(fin, key);
    KeyIn(act, key);
  }

  /** A key is handed out with the mark that the row that counts has. */
  lemma MarkOfRow(m: State, fin: seq<Row>, act: seq<Row>, o: nat)
    requires SortedRows(fin) && SortedRows(act) && Tiers(m.sources, [], [], fin, act)
    requires MG.Ended(m, true) && o < |m.out|
    ensures m.out[o].key in View(fin, act) && (m.out[o].deleted <==> View(fin, act)[m.out[o].key].deleted)
  {
    hide Tiers, ToMap, SortedRows, State.Best, MG.Right;
    assert m.Best(o);
    FromTree(m, fin, act, o);
    DbShowsLive(m, [], [], fin, act);
    var (key, s) := (m.out[o].key, m.out[o].source);
    var rows := TreeOf(fin, act, s);
    TierHolds(m.sources, [], [], fin, act, s);
    var p := MapEntry(rows, key);
    if q :| MG.DeletionOf(m.sources[s], key, q) {
      SortedEntry(rows, q);
    }
    if rows[p].deleted {
      assert MG.DeletionOf(m.sources[s], key, p);
    }
  }

  ghost predicate Shown(shown: seq<Emitted>, key: Key)
  {
    exists o :: 0 <= o < |shown| && shown[o].key == key
  }

  /** In ascending order exactly the keys of live rows. */
  ghost predicate ShowsLive(shown: seq<Emitted>, now: map<Key, Row>)
  {
    Ascending(shown) && forall key :: Shown(shown, key) <==> key in now && !now[key].deleted
  }

  /** What is shown for a key comes from the tree with the row that counts. */
  ghost predicate FromRows(shown: seq<Emitted>, fin: seq<Row>, act: seq<Row>, now: map<Key, Row>)
  {
    forall o :: 0 <= o < |shown| ==>
      var (key, rows) := (shown[o].key, TreeOf(fin, act, shown[o].source));
      key in ToMap(rows) && key in now && ToMap(rows)[key] == now[key]
  }

  /** A key of either tree is handed out. */
  lemma KeyOut(m: State, fin: seq<Row>, act: seq<Row>, key: Key) returns (o: nat)
    requires SortedRows(fin) && SortedRows(act) && Tiers(m.sources, [], [], fin, act) && MG.Ended(m, true)
    requires key in View(fin, act)
    ensures o < |m.out| && m.out[o].key == key
  {
    hide Tiers, SortedRows, ToMap, State.Best, MG.Right;
    TreesWin(m, [], [], fin, act);
    KeyIn(act, key);
    var rows := if key in ToMap(act) then act else fin;
    var j := MapEntry(rows, key);
    var s := if key in ToMap(act) then ActiveAt([], fin) else 0;
    assert HandedFrom(m.out, key, s);
    o :| 0 <= o < |m.out| && m.out[o].key == key && m.out[o].source == s;
  }

  /** Exactly the live keys of the two trees together are shown. */
  lemma ShownIsLive(m: State, fin: seq<Row>, act: seq<Row>)
    requires SortedRows(fin) && SortedRows(act) && Tiers(m.sources, [], [], fin, act) && MG.Ended(m, true)
    ensures ShowsLive(MG.Unmarked(m.out), View(fin, act)) && FromRows(MG.Unmarked(m.out), fin, act, View(fin, act))
  {
    hide Tiers, SortedRows, ToMap, View, TreeOf, State.Best;
    var shown, now := MG.Unmarked(m.out), View(fin, act);
    MG.UnmarkedAscending(m.out);
    forall o | 0 <= o < |shown|
      ensures shown[o].key in now && !now[shown[o].key].deleted
      ensures shown[o].key in ToMap(TreeOf(fin, act, shown[o].source))
      ensures ToMap(TreeOf(fin, act, shown[o].source))[shown[o].key] == now[shown[o].key]
    {
      MG.UnmarkedFrom(m.out, shown[o]);
      var p :| 0 <= p < |m.out| && m.out[p] == shown[o];
      assert m.Best(p);
      MarkOfRow(m, fin, act, p);
      FromTree(m, fin, act, p);
    }
    forall key | key in now && !now[key].deleted ensures Shown(shown, key) {
      var o := KeyOut(m, fin, act, key);
      MarkOfRow(m, fin, act, o);
      MG.UnmarkedFrom(m.out, m.out[o]);
    }
  }

  /**
   Iterates over a database without packed files: its live keys in ascending order, each from the
   tree with the row that counts.  That cannot begin if finalised files were loaded and have no row.
   */
  method DumpDb(db: Db) returns (it: MG.Iterator?, shown: seq<Emitted>)
    requires db.Valid() && Named(db.State())
    ensures it == null <==> db.ffcount > 0 && db.fmemtree.rows == []
    ensures it != null ==>
      && ShowsLive(shown, db.State().now)
      && FromRows(shown, db.fmemtree.rows, db.tree.rows, db.State().now)
  {
    hide Db.Valid, ShowsLive, FromRows, Keyed, View, Tiers, ToMap, SortedRows, State.AllBest;
    db.ReadParts();
    ghost var fin, act := db.fmemtree.rows, db.tree.rows;
    NamedKeys(fin, act);
    it, shown := RunDb([], [], db.ffcount, db.fmemtree, db.tree);
    if it != null {
      ShownIsLive(it.Now(), fin, act);
    }
  }

  lemma NamedKeys(fin: seq<Row>, act: seq<Row>)
    requires SortedRows(fin) && SortedRows(act) && [] !in View(fin, act)
    ensures Keyed(fin) && Keyed(act)
  {
    hide ToMap, SortedRows, Keyed;
    KeyedOf(fin);
    KeyedOf(act);
  }

  /** A run on a new database, and then iterating over it: the live rows that the reference run leaves. */
  method RunAndDump(header: nat -> seq<Byte>, ops: seq<Op>) returns (db: Db, it: MG.Iterator?, shown: seq<Emitted>)
    requires Headers(header) && AllInScope(NewDatabase(), ops)
    ensures it != null ==> ShowsLive(shown, Steps(NewDatabase(), ops, |ops|).now)
    ensures it == null <==> db.ffcount > 0 && db.fmemtree.rows == []
  {
    hide Db.Valid, Db.State, ShowsLive, FromRows, Step, InScope;
    db := new Db(header);
    Run(db, ops);
    RunNamed(NewDatabase(), ops, |ops|);
    it, shown := DumpDb(db);
  }

  /** Finalising a new database, and closing and opening it, leaves it without rows. */
  lemma StaysEmpty(fin: seq<Row>, act: seq<Row>)
    ensures var m := Step(NewDatabase(), FinaliseOp);
      NewDatabase().pending < TWO_64 && InScope(m, ReopenOp) && Step(m, ReopenOp).now == map[]
      && Named(Step(m, ReopenOp))
    ensures View(fin, act) == map[] ==> fin == []
  {
    hide ToMap;
    NoneThere(fin);
    if View(fin, act) == map[] {
      assert forall key :: key in ToMap(fin) ==> key in View(fin, act);
    }
  }

  /** A new database that is finalised, closed and opened cannot be iterated over. */
  method FinalisedEmpty(header: nat -> seq<Byte>) returns (db: Db, it: MG.Iterator?)
    requires Headers(header)
    ensures it == null
  {
    hide Db.Valid, Db.State, Step, NewDatabase, InScope, Named, ShowsLive, FromRows, View;
    db := new Db(header);
    StaysEmpty([], []);
    db.Parts();
    db.Finalise();
    db.Reopen();
    db.ReadParts();
    StaysEmpty(db.fmemtree.rows, db.tree.rows);
    var shown;
    it, shown := DumpDb(db);
  }
}
