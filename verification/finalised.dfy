/** Start-up: loading the finalised files in the order of their indexes. */
module Finalised {
  import opened Bytes
  import opened Format
  import opened Rows
  import opened Sequences
  import opened Wrappers
  import Active
  import Natural
  import PQ = PQueue
  import RT = RowTree

  /** A finalised file: its index, its bytes, and the header and log that the bytes are. */
  datatype FileData = FileData(index: nat, buf: seq<Byte>, hdr: seq<Byte>, log: seq<Item>)

  ghost predicate WellFormed(f: FileData)
  {
    && f.index < Natural.TWO_31 && |f.hdr| == HDR_SIZE && AllWritable(f.log)
    && StaysInside(f.hdr, f.log) && Active.Terminates(f.hdr, f.log)
    && f.buf == f.hdr + LogBytes(f.log, |f.log|)
  }

  const EMPTY_FILE := FileData(0, seq(HDR_SIZE, i => 0), seq(HDR_SIZE, i => 0), [])

  type File = f: FileData | WellFormed(f) witness EMPTY_FILE

  /** The rows that a file loads: those before the first commit in it that is not good. */
  ghost function Loads(f: File): seq<Row>
  {
    LogRows(f.log, Active.Good(f.hdr, f.log, |f.log|))
  }

  /** Files read from left to right. */
  ghost function Replay(rows: seq<Row>, files: seq<File>, n: nat): seq<Row>
    requires n <= |files|
  {
    if n == 0 then rows else Put(Replay(rows, files, n - 1), Loads(files[n - 1]))
  }

  predicate ByIndex(files: seq<File>)
  {
    forall i, j :: 0 <= i < j < |files| ==> files[i].index <= files[j].index
  }

  /** No two files have the same index. */
  ghost predicate IndexTells(files: multiset<File>)
  {
    forall f, g :: f in files && g in files && f.index == g.index ==> f == g
  }

  /** dbfname_cmp: the comparison of two files by name. */
  function FnameCmp(stem: string, f: File, g: File): int
  {
    Natural.Compare(Natural.Name(stem, f.index, f.index), Natural.Name(stem, g.index, g.index))
  }

  lemma CmpByIndex(stem: string, f: File, g: File)
    ensures FnameCmp(stem, f, g) <= 0 <==> f.index <= g.index
    ensures FnameCmp(stem, f, g) >= 0 <==> f.index >= g.index
  {
    hide WellFormed, Natural.Compare;
    InRange(f);
    InRange(g);
    Natural.NamesByIndex(stem, f.index, f.index, g.index, g.index);
  }

  lemma InRange(f: File)
    ensures f.index < Natural.TWO_31
  {
  }

  lemma CmpIsPreorder(stem: string)
    ensures PQ.TotalPreorder((f: File, g: File) => FnameCmp(stem, f, g))
  {
    hide FnameCmp, WellFormed;
    forall f: File, g: File
      ensures FnameCmp(stem, f, g) <= 0 <==> f.index <= g.index
      ensures FnameCmp(stem, f, g) >= 0 <==> f.index >= g.index
    {
      CmpByIndex(stem, f, g);
    }
  }

  /** The scan of the directory puts the files into the queue. */
  method Scan(stem: string, found: seq<File>) returns (pq: PQ.PQueue<File>)
    ensures pq.Valid() && fresh(pq) && multiset(pq.arr) == multiset(found)
    ensures pq.cmp == ((f: File, g: File) => FnameCmp(stem, f, g))
  {
    hide FnameCmp, WellFormed;
    CmpIsPreorder(stem);
    pq := new PQ.PQueue<File>((f: File, g: File) => FnameCmp(stem, f, g));
    var i := 0;
    while i < |found|
      invariant i <= |found| && pq.Valid() && fresh(pq) && multiset(pq.arr) == multiset(found[..i])
    {
      pq.Put(found[i]);
      i := i + 1;
      assert found[..i] == found[..i - 1] + [found[i - 1]];
    }
    assert found[..i] == found;
  }

  lemma AscendingByIndex(stem: string, cmp: (File, File) -> int, order: seq<File>)
    requires cmp == ((f: File, g: File) => FnameCmp(stem, f, g)) && PQ.Ascending(cmp, order)
    ensures ByIndex(order)
  {
    hide FnameCmp, WellFormed;
    forall i, j | 0 <= i < j < |order| ensures order[i].index <= order[j].index {
      assert cmp(order[i], order[j]) <= 0;
      CmpByIndex(stem, order[i], order[j]);
    }
  }

  /** The files taken out of the queue are listed the other way round, and none is after one still in it. */
  ghost predicate Listed(cmp: (File, File) -> int, order: seq<File>, fflist: seq<File>, rest: multiset<File>,
                         all: multiset<File>)
  {
    && multiset(order) + rest == all && fflist == Reverse(order) && multiset(fflist) == multiset(order)
    && PQ.Ascending(cmp, order) && PQ.Below(cmp, order, rest)
  }

  lemma ListedStart(cmp: (File, File) -> int, all: multiset<File>)
    ensures Listed(cmp, [], [], all, all)
  {
  }

  lemma ListedNext(cmp: (File, File) -> int, order: seq<File>, fflist: seq<File>, f: File, rest: multiset<File>,
                   all: multiset<File>)
    requires Listed(cmp, order, fflist, rest + multiset{f}, all)
    requires forall g :: g in rest ==> cmp(f, g) <= 0
    ensures Listed(cmp, order + [f], [f] + fflist, rest, all)
  {
    hide WellFormed;
    assert PQ.Ascending(cmp, order + [f]) && PQ.Below(cmp, order + [f], rest) by {
      hide PQ.Ascending, PQ.Below;
      PQ.TakeNext(cmp, order, f, rest);
    }
    hide PQ.Ascending, PQ.Below;
    ReverseSnoc(order, f);
  }

  lemma ListedAll(stem: string, cmp: (File, File) -> int, order: seq<File>, fflist: seq<File>, all: multiset<File>)
    requires cmp == ((f: File, g: File) => FnameCmp(stem, f, g)) && Listed(cmp, order, fflist, multiset{}, all)
    ensures multiset(fflist) == all && ByIndex(Reverse(fflist))
  {
    hide FnameCmp, WellFormed, ByIndex;
    ReverseTwice(order);
    AscendingByIndex(stem, cmp, order);
  }

  /** Takes file after file out of the queue and adds it at the head of the list. */
  method ListFiles(stem: string, pq: PQ.PQueue<File>) returns (fflist: seq<File>)
    requires pq.Valid() && pq.cmp == ((f: File, g: File) => FnameCmp(stem, f, g))
    modifies pq
    ensures multiset(fflist) == old(multiset(pq.arr)) && ByIndex(Reverse(fflist))
  {
    hide FnameCmp, WellFormed, ByIndex, Listed;
    fflist := [];
    ghost var order: seq<File>, all := [], multiset(pq.arr);
    ListedStart(pq.cmp, all);
    while true
      invariant pq.Valid() && Listed(pq.cmp, order, fflist, multiset(pq.arr), all)
      decreases |multiset(pq.arr)|
    {
      var f := pq.Get();
      if f == None {
        break;
      }
      ListedNext(pq.cmp, order, fflist, f.value, multiset(pq.arr), all);
      order, fflist := order + [f.value], [f.value] + fflist;
    }
    ListedAll(stem, pq.cmp, order, fflist, all);
  }

  /** Loads one file. */
  method LoadFile(f: File, tree: RT.RowTree)
    requires tree.Valid()
    modifies tree.repr
    ensures tree.Valid() && tree.rows == Put(old(tree.rows), Loads(f)) && fresh(tree.repr - old(tree.repr))
  {
    hide LogBytes, LogRows, StaysInside, Put, Active.Good, Active.Terminates;
    var ok, given := Active.RecordForeach(f.buf, tree, f.hdr, f.log);
  }

  /** The files from i on in the list have been loaded, the last one first. */
  ghost predicate Loaded(from: seq<Row>, fflist: seq<File>, i: nat, rows: seq<Row>)
  {
    i <= |fflist| && rows == Replay(from, Reverse(fflist), |fflist| - i)
  }

  lemma LoadedNone(from: seq<Row>, fflist: seq<File>)
    ensures Loaded(from, fflist, |fflist|, from)
  {
  }

  lemma LoadedNext(from: seq<Row>, fflist: seq<File>, i: nat, rows: seq<Row>)
    requires 0 < i && Loaded(from, fflist, i, rows)
    ensures Loaded(from, fflist, i - 1, Put(rows, Loads(fflist[i - 1])))
  {
    hide WellFormed, Loads, Put;
    assert Reverse(fflist)[|fflist| - i] == fflist[i - 1];
  }

  /** Loads the files of the list from its tail to its head. */
  method LoadFiles(fflist: seq<File>, tree: RT.RowTree)
    requires tree.Valid()
    modifies tree.repr
    ensures tree.Valid() && fresh(tree.repr - old(tree.repr)) && Loaded(old(tree.rows), fflist, 0, tree.rows)
  {
    hide *;
    var i: nat := |fflist|;
    ghost var from := tree.rows;
    LoadedNone(from, fflist);
    while i > 0
      invariant i <= |fflist| && tree.Valid() && fresh(tree.repr - old(tree.repr))
      invariant Loaded(from, fflist, i, tree.rows)
    {
      LoadedNext(from, fflist, i, tree.rows);
      i := i - 1;
      LoadFile(fflist[i], tree);
    }
  }

  /** The file with the highest index. */
  lemma LastSame(a: seq<File>, b: seq<File>)
    requires ByIndex(a) && ByIndex(b) && multiset(a) == multiset(b) && IndexTells(multiset(a)) && a != [] && b != []
    ensures a[|a| - 1] == b[|b| - 1]
  {
    hide WellFormed;
    var x, y := a[|a| - 1], b[|b| - 1];
    var i := Where(b, x);
    var j := Where(a, y);
    assert x.index == y.index;
    assert x in multiset(a) && y in multiset(a);
  }

  lemma Where<T>(s: seq<T>, x: T) returns (i: nat)
    requires x in multiset(s)
    ensures i < |s| && s[i] == x
  {
    i :| i < |s| && s[i] == x;
  }

  lemma LastCounts<T>(s: seq<T>)
    requires s != []
    ensures multiset(s) == multiset(s[..|s| - 1]) + multiset{s[|s| - 1]}
  {
    assert s == s[..|s| - 1] + [s[|s| - 1]];
  }

  lemma SameRest<T>(a: multiset<T>, b: multiset<T>, x: T)
    requires a + multiset{x} == b + multiset{x}
    ensures a == b
  {
    assert a == a + multiset{x} - multiset{x} && b == b + multiset{x} - multiset{x};
  }

  lemma CutLast<T>(a: seq<T>, b: seq<T>)
    requires multiset(a) == multiset(b) && a != [] && b != [] && a[|a| - 1] == b[|b| - 1]
    ensures multiset(a[..|a| - 1]) == multiset(b[..|b| - 1])
  {
    LastCounts(a);
    LastCounts(b);
    SameRest(multiset(a[..|a| - 1]), multiset(b[..|b| - 1]), a[|a| - 1]);
  }

  lemma CutTells(a: seq<File>)
    requires a != [] && IndexTells(multiset(a)) && ByIndex(a)
    ensures IndexTells(multiset(a[..|a| - 1])) && ByIndex(a[..|a| - 1])
  {
    hide WellFormed;
    assert a == a[..|a| - 1] + [a[|a| - 1]];
  }

  /** Two orders by index of the same files are the same. */
  lemma {:induction false} ByIndexUnique(a: seq<File>, b: seq<File>)
    requires ByIndex(a) && ByIndex(b) && multiset(a) == multiset(b) && IndexTells(multiset(a))
    ensures a == b
  {
    hide WellFormed, ByIndex, IndexTells;
    SameCount(a, b);
    if a != [] {
      LastSame(a, b);
      CutLast(a, b);
      CutTells(a);
      CutTells(b);
      ByIndexUnique(a[..|a| - 1], b[..|b| - 1]);
      assert a == a[..|a| - 1] + [a[|a| - 1]] && b == b[..|b| - 1] + [b[|b| - 1]];
    }
  }

  lemma SameCount<T>(a: seq<T>, b: seq<T>)
    requires multiset(a) == multiset(b)
    ensures |a| == |b|
  {
    assert |multiset(a)| == |a| && |multiset(b)| == |b|;
  }

  /** The list that is loaded does not depend on the scan. */
  lemma LoadOrder(fflist: seq<File>, order: seq<File>)
    requires ByIndex(Reverse(fflist)) && ByIndex(order) && multiset(fflist) == multiset(order)
    requires IndexTells(multiset(order))
    ensures Reverse(fflist) == order
  {
    hide WellFormed, ByIndex;
    ReverseCounts(fflist);
    ByIndexUnique(Reverse(fflist), order);
  }

  method LoadList(stem: string, found: seq<File>, tree: RT.RowTree) returns (fflist: seq<File>)
    requires tree.Valid()
    modifies tree.repr
    ensures tree.Valid() && Loaded(old(tree.rows), fflist, 0, tree.rows)
    ensures multiset(fflist) == multiset(found) && ByIndex(Reverse(fflist))
  {
    hide *;
    var pq := Scan(stem, found);
    fflist := ListFiles(stem, pq);
    LoadFiles(fflist, tree);
  }

  /**
   Whatever order the scan finds the files in, they are loaded as if read from the lowest index
   to the highest.
   */
  method Load(stem: string, found: seq<File>, tree: RT.RowTree) returns (fflist: seq<File>)
    requires tree.Valid()
    modifies tree.repr
    ensures tree.Valid() && multiset(fflist) == multiset(found) && ByIndex(Reverse(fflist))
    ensures IndexTells(multiset(found)) ==>
              forall order: seq<File> :: ByIndex(order) && multiset(order) == multiset(found) ==>
                tree.rows == Replay(old(tree.rows), order, |order|)
  {
    hide WellFormed, ByIndex, IndexTells, Replay;
    ghost var from := tree.rows;
    fflist := LoadList(stem, found, tree);
    if IndexTells(multiset(found)) {
      forall order: seq<File> | ByIndex(order) && multiset(order) == multiset(found)
        ensures tree.rows == Replay(from, order, |order|)
      {
        LoadOrder(fflist, order);
      }
    }
  }

  ghost predicate Mentions(f: File, key: Key)
  {
    key in ToMap(Loads(f))
  }

  /** The last of the first n files that says something about a key, or -1. */
  ghost function Newest(files: seq<File>, n: nat, key: Key): (h: int)
    requires n <= |files|
    ensures -1 <= h < n
  {
    if n == 0 then -1
    else if Mentions(files[n - 1], key) then n - 1
    else Newest(files, n - 1, key)
  }

  lemma {:induction false} NewestIs(files: seq<File>, n: nat, key: Key)
    requires n <= |files|
    ensures var h := Newest(files, n, key);
      (h >= 0 ==> Mentions(files[h], key)) && forall j :: h < j < n ==> !Mentions(files[j], key)
  {
    hide Mentions, WellFormed;
    if n > 0 {
      NewestIs(files, n - 1, key);
    }
  }

  /** What the files say about a key is what the newest file that has the key says. */
  lemma {:induction false} NewestWins(files: seq<File>, n: nat, key: Key)
    requires n <= |files|
    ensures SortedRows(Replay([], files, n))
    ensures var m, h := ToMap(Replay([], files, n)), Newest(files, n, key);
      (key in m <==> h >= 0) && (h >= 0 ==> Mentions(files[h], key) && m[key] == ToMap(Loads(files[h]))[key])
  {
    hide Loads, Put, WellFormed;
    NewestIs(files, n, key);
    if n > 0 {
      hide ToMap, SortedRows;
      NewestWins(files, n - 1, key);
      PutIsReplay(Replay([], files, n - 1), Loads(files[n - 1]));
    }
  }
}
