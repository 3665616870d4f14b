/** Loading the records of an active or finalised file into a memtree. */
module Active {
  import opened Bytes
  import opened Format
  import opened Rows
  import opened Words
  import opened Wrappers
  import Record
  import RT = RowTree

  // ---------- how far a log is read ----------

  /** Item k is read and gone past. */
  ghost predicate Passed(hdr: seq<Byte>, log: seq<Item>, k: nat)
    requires AllWritable(log) && k < |log|
  {
    Passable(log[k]) && SealedAt(hdr, log, k)
  }

  /** How many of the first n items come before the first one that is not gone past. */
  ghost function Good(hdr: seq<Byte>, log: seq<Item>, n: nat): (g: nat)
    requires AllWritable(log) && n <= |log|
    ensures g <= n
  {
    if n == 0 then 0
    else
      var g := Good(hdr, log, n - 1);
      if g == n - 1 && Passed(hdr, log, n - 1) then n else g
  }

  lemma {:induction false} GoodIff(hdr: seq<Byte>, log: seq<Item>, n: nat)
    requires AllWritable(log) && n <= |log|
    ensures Good(hdr, log, n) == n <==> forall k :: 0 <= k < n ==> Passed(hdr, log, k)
  {
    hide Passed, Writable;
    if n > 0 {
      GoodIff(hdr, log, n - 1);
    }
  }

  lemma {:induction false} GoodStops(hdr: seq<Byte>, log: seq<Item>, k: nat, n: nat)
    requires AllWritable(log) && k < n <= |log| && Good(hdr, log, k) == k && !Passed(hdr, log, k)
    ensures Good(hdr, log, n) == k
  {
    hide Passed, Writable;
    if k < n - 1 {
      GoodStops(hdr, log, k, n - 1);
    }
  }

  /** Everything before the stop is gone past, and the item there is not. */
  lemma {:induction false} GoodIs(hdr: seq<Byte>, log: seq<Item>, n: nat)
    requires AllWritable(log) && n <= |log|
    ensures forall k :: 0 <= k < Good(hdr, log, n) ==> Passed(hdr, log, k) && Good(hdr, log, k) == k
    ensures Good(hdr, log, n) < n ==> !Passed(hdr, log, Good(hdr, log, n))
    ensures Good(hdr, log, Good(hdr, log, n)) == Good(hdr, log, n)
  {
    hide Passed, Writable;
    if n > 0 {
      GoodIs(hdr, log, n - 1);
    }
  }

  lemma GoodNext(hdr: seq<Byte>, log: seq<Item>, k: nat)
    requires AllWritable(log) && k < |log| && Good(hdr, log, k) == k && Passed(hdr, log, k)
    ensures Good(hdr, log, k + 1) == k + 1
  {
  }

  /** Reading gets to the end of the file or to a commit that is not good. */
  ghost predicate Terminates(hdr: seq<Byte>, log: seq<Item>)
    requires AllWritable(log)
  {
    var g := Good(hdr, log, |log|);
    g < |log| ==> Passable(log[g])
  }

  /** It does exactly when every record that cannot be passed comes after a commit that is not good. */
  lemma TerminatesIff(hdr: seq<Byte>, log: seq<Item>)
    requires AllWritable(log)
    ensures Terminates(hdr, log) <==>
      forall k :: 0 <= k < |log| && !Passable(log[k]) ==> exists j :: 0 <= j < k && !SealedAt(hdr, log, j)
  {
    hide SealedAt, Writable, Good;
    var g := Good(hdr, log, |log|);
    GoodIs(hdr, log, |log|);
    if Terminates(hdr, log) {
      forall k | 0 <= k < |log| && !Passable(log[k]) ensures exists j :: 0 <= j < k && !SealedAt(hdr, log, j) {
        assert !Passed(hdr, log, k);
        assert g < k && !SealedAt(hdr, log, g);
      }
    } else {
      forall j | 0 <= j < g ensures SealedAt(hdr, log, j) {
        assert Passed(hdr, log, j);
      }
      assert !Passable(log[g]) && !exists j :: 0 <= j < g && !SealedAt(hdr, log, j);
    }
  }

  /** A log whose first record deletes a key of 65536 bytes is never read to its end. */
  lemma LongDeletionStops(hdr: seq<Byte>)
    ensures AllWritable([Delete(Zeros(MAX_SHORT_KEY_LEN + 1))])
    ensures !Terminates(hdr, [Delete(Zeros(MAX_SHORT_KEY_LEN + 1))])
  {
    var key := Zeros(MAX_SHORT_KEY_LEN + 1);
    assert Writable(Delete(key)) && !Passable(Delete(key)) && !Passed(hdr, [Delete(key)], 0);
    assert Good(hdr, [Delete(key)], 0) == 0;
  }

  // ---------- where the loop is ----------

  /** Where item k stands. */
  lemma ItemHere(buf: seq<Byte>, hdr: seq<Byte>, log: seq<Item>, k: nat)
    requires AllWritable(log) && k < |log| && buf == hdr + LogBytes(log, |log|)
    ensures var offset := |hdr| + |LogBytes(log, k)|;
      && offset + 8 <= |buf| && At(buf, offset, Encode(log[k])) && buf[..offset] == hdr + LogBytes(log, k)
      && offset + |Encode(log[k])| == |hdr| + |LogBytes(log, k + 1)|
  {
    hide Encode, Writable;
    EncodeAligned(log[k]);
    var rest := LogSplit(log, k + 1, |log|);
    assert buf == hdr + LogBytes(log, k) + Encode(log[k]) + rest by {
      assert hdr + (LogBytes(log, k) + Encode(log[k]) + rest) == hdr + LogBytes(log, k) + Encode(log[k]) + rest;
    }
    Middle(hdr + LogBytes(log, k), Encode(log[k]), rest);
  }

  lemma Middle<T>(a: seq<T>, b: seq<T>, c: seq<T>)
    ensures (a + b + c)[..|a|] == a && (a + b + c)[|a|..|a| + |b|] == b
  {
  }

  lemma InsideAt(hdr: seq<Byte>, log: seq<Item>, k: nat)
    requires AllWritable(log) && StaysInside(hdr, log) && k < |log|
    ensures !log[k].LongCommit? && (log[k].Commit? ==> log[k].length <= |hdr| + |LogBytes(log, k)|)
  {
    assert Inside(hdr, log, k);
  }

  lemma RowsNext(rows: seq<Row>, log: seq<Item>, k: nat)
    requires k < |log|
    ensures Put(Put(rows, LogRows(log, k)), ItemRows(log[k])) == Put(rows, LogRows(log, k + 1))
  {
    PutConcat(rows, LogRows(log, k), ItemRows(log[k]));
  }

  /**
   The loop is before item k, at offset; the rows of the items before it have been given to the
   callbacks, and the tree has them.
   */
  ghost predicate Reached(hdr: seq<Byte>, log: seq<Item>, k: nat, offset: nat, from: seq<Row>, rows: seq<Row>,
                          given: seq<Row>)
    requires AllWritable(log)
  {
    && k <= |log| && offset == |hdr| + |LogBytes(log, k)| && Good(hdr, log, k) == k
    && given == LogRows(log, k) && rows == Put(from, given)
  }

  /** What the loop leaves when it ends. */
  ghost predicate Ended(hdr: seq<Byte>, log: seq<Item>, ok: bool, from: seq<Row>, rows: seq<Row>, given: seq<Row>)
    requires AllWritable(log)
  {
    && given == LogRows(log, Good(hdr, log, |log|)) && rows == Put(from, given)
    && Terminates(hdr, log) && (ok <==> Good(hdr, log, |log|) == |log|)
  }

  lemma ReachedStart(hdr: seq<Byte>, log: seq<Item>, from: seq<Row>)
    requires AllWritable(log)
    ensures Reached(hdr, log, 0, |hdr|, from, from, [])
  {
  }

  lemma ReachedNext(hdr: seq<Byte>, log: seq<Item>, k: nat, offset: nat, from: seq<Row>, rows: seq<Row>,
                    given: seq<Row>)
    requires AllWritable(log) && k < |log| && Reached(hdr, log, k, offset, from, rows, given) && Passed(hdr, log, k)
    ensures Reached(hdr, log, k + 1, offset + |Encode(log[k])|, from, Put(rows, ItemRows(log[k])),
                    given + ItemRows(log[k]))
  {
    hide Encode, Writable, Passed, Put, ItemRows;
    GoodNext(hdr, log, k);
    RowsNext(from, log, k);
  }

  lemma BadEnd(hdr: seq<Byte>, log: seq<Item>, k: nat, offset: nat, from: seq<Row>, rows: seq<Row>, given: seq<Row>)
    requires AllWritable(log) && k < |log| && Reached(hdr, log, k, offset, from, rows, given)
    requires Passable(log[k]) && !SealedAt(hdr, log, k)
    ensures Ended(hdr, log, false, from, rows, given) && Good(hdr, log, |log|) == k
  {
    hide Writable, SealedAt, Put, LogRows;
    assert !Passed(hdr, log, k);
    GoodStops(hdr, log, k, |log|);
  }

  /** At the end of the file all items have been read. */
  lemma GoodEnd(buf: seq<Byte>, hdr: seq<Byte>, log: seq<Item>, k: nat, offset: nat, from: seq<Row>, rows: seq<Row>,
                given: seq<Row>)
    requires AllWritable(log) && Reached(hdr, log, k, offset, from, rows, given)
    requires buf == hdr + LogBytes(log, |log|) && offset >= |buf|
    ensures Ended(hdr, log, true, from, rows, given) && k == |log|
  {
    hide Writable, Put, LogRows;
    LogGrows(log, k, |log|);
  }

  /** At a record that cannot be passed the loop has stopped for good. */
  lemma StuckAt(hdr: seq<Byte>, log: seq<Item>, k: nat, offset: nat, from: seq<Row>, rows: seq<Row>, given: seq<Row>)
    requires AllWritable(log) && k < |log| && Reached(hdr, log, k, offset, from, rows, given) && !Passable(log[k])
    ensures !Terminates(hdr, log) && Good(hdr, log, |log|) == k
  {
    hide Writable, SealedAt, Put, LogRows;
    assert !Passed(hdr, log, k);
    GoodStops(hdr, log, k, |log|);
  }

  /** The loop has got no further than reading gets. */
  lemma ReachedBelow(buf: seq<Byte>, hdr: seq<Byte>, log: seq<Item>, k: nat, offset: nat, from: seq<Row>,
                     rows: seq<Row>, given: seq<Row>)
    requires AllWritable(log) && Reached(hdr, log, k, offset, from, rows, given) && buf == hdr + LogBytes(log, |log|)
    ensures k <= Good(hdr, log, |log|) && (offset < |buf| ==> k < |log|)
  {
    hide Writable, Passed, Put, LogRows;
    GoodGrows(hdr, log, k, |log|);
  }

  lemma {:induction false} GoodGrows(hdr: seq<Byte>, log: seq<Item>, k: nat, n: nat)
    requires AllWritable(log) && k <= n <= |log| && Good(hdr, log, k) == k
    ensures k <= Good(hdr, log, n)
  {
    hide Passed, Writable;
    if k < n {
      GoodGrows(hdr, log, k, n - 1);
    }
  }

  lemma EndedWhere(hdr: seq<Byte>, log: seq<Item>, ok: bool, from: seq<Row>, rows: seq<Row>, given: seq<Row>)
    requires AllWritable(log) && Ended(hdr, log, ok, from, rows, given)
    ensures Terminates(hdr, log) && (ok <==> Good(hdr, log, |log|) == |log|)
  {
    hide Writable, Good, Terminates;
  }

  // ---------- one round ----------

  /** What reading item k needs. */
  lemma Readable(buf: seq<Byte>, hdr: seq<Byte>, log: seq<Item>, k: nat, offset: nat, from: seq<Row>, rows: seq<Row>,
                 given: seq<Row>)
    requires AllWritable(log) && StaysInside(hdr, log) && buf == hdr + LogBytes(log, |log|)
    requires Reached(hdr, log, k, offset, from, rows, given) && offset < |buf|
    ensures k < |log| && offset + 8 <= |buf| && At(buf, offset, Encode(log[k])) && Writable(log[k])
    ensures !log[k].LongCommit? && (log[k].Commit? ==> log[k].length <= offset)
    ensures Sealed(buf[..offset], log[k]) <==> SealedAt(hdr, log, k)
    ensures offset < offset + |Encode(log[k])| <= |buf|
  {
    hide Encode, Writable, Sealed, Good, LogRows, Put, StaysInside, At;
    LogGrows(log, k, |log|);
    InsideAt(hdr, log, k);
    ItemHere(buf, hdr, log, k);
    EncodeAligned(log[k]);
    LogGrows(log, k + 1, |log|);
  }

  /** The dispatch does nothing for an item that cannot be passed. */
  lemma Unhandled(buf: seq<Byte>, offset: nat, item: Item)
    requires Writable(item) && !Passable(item) && !item.LongCommit? && At(buf, offset, Encode(item))
    ensures offset + 8 <= |buf| && !Record.Handled(TypeOf(ReadBe64(buf, offset)))
  {
    Record.DeleteHandled(buf, offset, item.key);
  }

  /** What a round of the loop comes to: the next item, the end, or where it was. */
  datatype Round = Moved | Over | Stuck

  /** Reads item k, if it can be passed; a commit that is not good ends the reading. */
  method ReadOne(buf: seq<Byte>, offset: nat, ghost hdr: seq<Byte>, ghost log: seq<Item>, ghost k: nat,
                 ghost from: seq<Row>, ghost rows: seq<Row>, ghost given: seq<Row>)
    returns (ok: bool, offset': nat, add: seq<Row>, ghost round: Round)
    requires AllWritable(log) && StaysInside(hdr, log) && buf == hdr + LogBytes(log, |log|)
    requires Reached(hdr, log, k, offset, from, rows, given) && offset < |buf|
    ensures |add| <= 1 && (ok <==> round != Over)
    ensures round == Moved ==>
      Reached(hdr, log, k + 1, offset', from, Put(rows, add), given + add) && offset < offset' <= |buf|
    ensures round == Over ==> Ended(hdr, log, false, from, rows, given) && Good(hdr, log, |log|) == k < |log|
    ensures round == Stuck ==>
      add == [] && offset' == offset && !Terminates(hdr, log) && Good(hdr, log, |log|) == k < |log|
  {
    hide Reached, Ended, LogBytes, Encode, StaysInside, Put, Sealed, SealedAt, Good, Terminates, Passable;
    Readable(buf, hdr, log, k, offset, from, rows, given);
    if !Passable(log[k]) {
      Unhandled(buf, offset, log[k]);
      StuckAt(hdr, log, k, offset, from, rows, given);
    }
    ok, offset', add := Record.RecordRead(buf, offset, if Passable(log[k]) then Some(log[k]) else None);
    round := if !Passable(log[k]) then Stuck else if ok then Moved else Over;
    if round == Moved {
      ReachedNext(hdr, log, k, offset, from, rows, given);
    } else if round == Over {
      BadEnd(hdr, log, k, offset, from, rows, given);
    }
  }

  /** Gives the rows of one record, of which there is at most one, to the tree. */
  method LoadRows(tree: RT.RowTree, add: seq<Row>)
    requires tree.Valid() && |add| <= 1
    modifies tree.repr
    ensures tree.Valid() && tree.rows == Put(old(tree.rows), add) && fresh(tree.repr - old(tree.repr))
  {
    if |add| == 1 {
      assert add[..0] == [];
      tree.Replace(add[0]);
    }
  }

  lemma GiveNone(rows: seq<Row>, given: seq<Row>)
    ensures Put(rows, []) == rows && given + [] == given
  {
  }

  /** One round of the loop: reads item k, and gives its row, if any, to the tree. */
  method LoadOne(buf: seq<Byte>, offset: nat, tree: RT.RowTree, given: seq<Row>, ghost hdr: seq<Byte>,
                 ghost log: seq<Item>, ghost k: nat, ghost from: seq<Row>)
    returns (ok: bool, offset': nat, given': seq<Row>, ghost round: Round)
    requires AllWritable(log) && StaysInside(hdr, log) && buf == hdr + LogBytes(log, |log|)
    requires tree.Valid() && Reached(hdr, log, k, offset, from, tree.rows, given) && offset < |buf|
    modifies tree.repr
    ensures tree.Valid() && fresh(tree.repr - old(tree.repr)) && (ok <==> round != Over)
    ensures round == Moved ==>
      Reached(hdr, log, k + 1, offset', from, tree.rows, given') && offset < offset' <= |buf|
    ensures round == Over ==> Ended(hdr, log, false, from, tree.rows, given') && Good(hdr, log, |log|) == k < |log|
    ensures round == Stuck ==>
      && Reached(hdr, log, k, offset', from, tree.rows, given') && offset' == offset
      && !Terminates(hdr, log) && Good(hdr, log, |log|) == k < |log|
  {
    hide *;
    var add;
    ok, offset', add, round := ReadOne(buf, offset, hdr, log, k, from, tree.rows, given);
    given' := given;
    if ok {
      GiveNone(tree.rows, given);
      LoadRows(tree, add);
      given' := given + add;
    }
  }

  // ---------- the loop ----------

  /**
   Reads record after record up to the end of the file, or up to a commit that is not good, and
   gives the keys, values and deletions to the tree one by one.  It is called for logs for which
   that ends.
   */
  method RecordForeach(buf: seq<Byte>, tree: RT.RowTree, ghost hdr: seq<Byte>, ghost log: seq<Item>)
    returns (ok: bool, given: seq<Row>)
    requires tree.Valid() && AllWritable(log) && StaysInside(hdr, log) && Terminates(hdr, log)
    requires |hdr| == HDR_SIZE && buf == hdr + LogBytes(log, |log|)
    modifies tree.repr
    ensures tree.Valid() && fresh(tree.repr - old(tree.repr))
    ensures Ended(hdr, log, ok, old(tree.rows), tree.rows, given)
  {
    hide *;
    var offset := HDR_SIZE;
    ghost var k, from := 0, tree.rows;
    ok, given := true, [];
    ReachedStart(hdr, log, from);
    while offset < |buf|
      invariant Reached(hdr, log, k, offset, from, tree.rows, given) && tree.Valid()
      invariant fresh(tree.repr - old(tree.repr))
      decreases |buf| - offset
    {
      ghost var round;
      ok, offset, given, round := LoadOne(buf, offset, tree, given, hdr, log, k, from);
      if !ok {
        return;
      }
      k := k + 1;
    }
    ok := true;
    GoodEnd(buf, hdr, log, k, offset, from, tree.rows, given);
  }

  /** How many rounds the loop takes if it ends: one for each item gone past, and one for a bad commit. */
  ghost function Rounds(hdr: seq<Byte>, log: seq<Item>): nat
    requires AllWritable(log)
  {
    var g := Good(hdr, log, |log|);
    if g < |log| then g + 1 else g
  }

  /**
   At most so many rounds of the same loop, for any log the encoders write.  It ends if and only if
   it terminates and the rounds suffice; otherwise it is before the item that so many rounds lead
   to, or, however many there are, before the first deletion that cannot be passed.
   */
  method ForeachRounds(buf: seq<Byte>, tree: RT.RowTree, rounds: nat, ghost hdr: seq<Byte>, ghost log: seq<Item>)
    returns (ended: bool, ok: bool, offset: nat, given: seq<Row>)
    requires tree.Valid() && AllWritable(log) && StaysInside(hdr, log)
    requires |hdr| == HDR_SIZE && buf == hdr + LogBytes(log, |log|)
    modifies tree.repr
    ensures tree.Valid() && fresh(tree.repr - old(tree.repr))
    ensures ended <==> Terminates(hdr, log) && rounds >= Rounds(hdr, log)
    ensures ended ==> Ended(hdr, log, ok, old(tree.rows), tree.rows, given)
    ensures !ended ==>
      var k := if rounds < Good(hdr, log, |log|) then rounds else Good(hdr, log, |log|);
      Reached(hdr, log, k, offset, old(tree.rows), tree.rows, given)
  {
    hide Ended, Reached, LogBytes, StaysInside, Good, Terminates, RT.RowTree.Valid;
    ghost var k, from := 0, tree.rows;
    offset, ok, given, ended := HDR_SIZE, true, [], false;
    ReachedStart(hdr, log, from);
    var i := 0;
    while offset < |buf| && i < rounds
      invariant i <= rounds && k <= i && tree.Valid() && fresh(tree.repr - old(tree.repr))
      invariant Reached(hdr, log, k, offset, from, tree.rows, given)
      invariant k < i ==> !Terminates(hdr, log) && Good(hdr, log, |log|) == k < |log|
    {
      ghost var round;
      ok, offset, given, round := LoadOne(buf, offset, tree, given, hdr, log, k, from);
      if !ok {
        ended := true;
        EndedWhere(hdr, log, ok, from, tree.rows, given);
        return;
      }
      i := i + 1;
      if round == Moved {
        k := k + 1;
        ReachedBelow(buf, hdr, log, k, offset, from, tree.rows, given);
      }
    }
    ReachedBelow(buf, hdr, log, k, offset, from, tree.rows, given);
    if offset >= |buf| {
      ended, ok := true, true;
      GoodEnd(buf, hdr, log, k, offset, from, tree.rows, given);
      EndedWhere(hdr, log, ok, from, tree.rows, given);
    }
  }
}
