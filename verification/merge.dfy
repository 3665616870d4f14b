/**
 The merging iterator: a heap of pending keys, a hash table from each of them to its source,
 and two procedures that call each other to move sources on.
 */
module Merge {
  import opened Bytes
  import opened Wrappers
  import opened MergeState
  import PQ = PQueue
  import IT = IterTable

  /** What is left to read. */
  ghost function Unread(sources: seq<Source>): nat
  {
    if sources == [] then 0
    else
      var s := sources[|sources| - 1];
      Unread(sources[..|sources| - 1]) + if s.pos < |s.keys| then |s.keys| - s.pos else 0
  }

  lemma {:induction false} UnreadLess(sources: seq<Source>, f: nat)
    requires f < |sources| && sources[f].pos < |sources[f].keys|
    ensures Unread(sources[f := Advanced(sources[f])]) < Unread(sources)
  {
    var n, sources' := |sources| - 1, sources[f := Advanced(sources[f])];
    if f < n {
      UnreadLess(sources[..n], f);
      assert sources'[..n] == sources[..n][f := Advanced(sources[f])];
    } else {
      assert sources'[..n] == sources[..n];
    }
  }

  lemma RawOrder()
    ensures PQ.TotalPreorder(MemcmpRaw)
  {
    forall x, y ensures MemcmpRaw(x, y) <= 0 <==> MemcmpRaw(y, x) >= 0 {
      MemcmpRawIsDictionaryOrder(x, y);
      MemcmpRawIsDictionaryOrder(y, x);
    }
    forall x, y, z | MemcmpRaw(x, y) <= 0 && MemcmpRaw(y, z) <= 0 ensures MemcmpRaw(x, z) <= 0 {
      MemcmpRawIsDictionaryOrder(x, y);
      MemcmpRawIsDictionaryOrder(y, z);
      MemcmpRawIsDictionaryOrder(x, z);
      if x != y && y != z {
        LessTransitive(x, y, z);
      }
    }
  }

  /** The same sources, wherever they are read. */
  ghost predicate SameSources(a: seq<Source>, b: seq<Source>)
  {
    |a| == |b| && forall i :: 0 <= i < |a| ==> SameSource(a[i], b[i])
  }

  ghost predicate SameSource(a: Source, b: Source)
  {
    a.packed == b.packed && a.priority == b.priority && a.keys == b.keys && a.dels == b.dels
  }

  lemma SameAll(a: seq<Source>)
    ensures SameSources(a, a)
  {
  }

  lemma SameThrough(a: seq<Source>, b: seq<Source>)
    requires SameSources(a, b)
    ensures forall c :: SameSources(b, c) ==> SameSources(a, c)
  {
  }

  ghost predicate Named(sources: seq<Source>)
  {
    forall i, j :: 0 <= i < |sources| && 0 <= j < |sources[i].keys| ==> sources[i].keys[j] != []
  }

  // ---------- marks ----------

  /**
   Whether a source is marked at pos: a tree by its record there, a packed file by any record up to
   there.  The first record counts only if marks says so.
   */
  ghost predicate Marked(s: Source, marks: bool, pos: nat)
  {
    exists j :: (if s.packed then 0 else pos) <= j <= pos && j < |s.dels| && s.dels[j] && (j > 0 || marks)
  }

  /** The mark is that of the position. */
  ghost predicate MarkRight(s: Source, marks: bool)
  {
    |s.dels| == |s.keys| && (s.pos < |s.keys| ==> (s.deleted <==> Marked(s, marks, s.pos)))
  }

  ghost predicate MarksRight(sources: seq<Source>, marks: bool)
  {
    forall i :: 0 <= i < |sources| ==> MarkRight(sources[i], marks)
  }

  lemma MarkAdvanced(s: Source, marks: bool)
    requires MarkRight(s, marks)
    ensures MarkRight(Advanced(s), marks)
  {
    var pos := s.pos + 1;
    if pos < |s.keys| {
      if j :| 0 <= j <= s.pos && j < |s.dels| && s.dels[j] && (j > 0 || marks) {
        assert s.packed ==> Marked(s, marks, s.pos) && Marked(Advanced(s), marks, pos);
      }
      if s.dels[pos] {
        assert Marked(Advanced(s), marks, pos);
      }
    }
  }

  lemma MarkMoved(s: Source, s': Source, marks: bool, pos: nat)
    requires SameSource(s, s')
    ensures Marked(s, marks, pos) <==> Marked(s', marks, pos)
  {
  }

  /** A key was handed out with the mark that its source has there. */
  ghost predicate OutRight(e: Emitted, sources: seq<Source>, marks: bool)
  {
    e.source < |sources| && exists p :: MarkedAs(e, sources[e.source], marks, p)
  }

  ghost predicate MarkedAs(e: Emitted, s: Source, marks: bool, p: nat)
  {
    p < |s.keys| && s.keys[p] == e.key && (e.deleted <==> Marked(s, marks, p))
  }

  ghost predicate AllOutRight(out: seq<Emitted>, sources: seq<Source>, marks: bool)
  {
    forall o :: 0 <= o < |out| ==> OutRight(out[o], sources, marks)
  }

  lemma OutStays(out: seq<Emitted>, a: seq<Source>, b: seq<Source>, marks: bool)
    requires AllOutRight(out, a, marks) && SameSources(a, b)
    ensures AllOutRight(out, b, marks)
  {
    forall o | 0 <= o < |out| ensures OutRight(out[o], b, marks) {
      assert OutRight(out[o], a, marks);
      var s := out[o].source;
      var p :| MarkedAs(out[o], a[s], marks, p);
      MarkMoved(a[s], b[s], marks, p);
      assert MarkedAs(out[o], b[s], marks, p);
    }
  }

  /** Marks are right, now and when keys were handed out. */
  ghost predicate Right(out: seq<Emitted>, sources: seq<Source>, marks: bool)
  {
    MarksRight(sources, marks) && AllOutRight(out, sources, marks)
  }

  /** Source f moves on, and its mark with it. */
  lemma AdvanceRight(out: seq<Emitted>, sources: seq<Source>, marks: bool, f: nat)
    requires f < |sources| && Right(out, sources, marks)
    ensures var sources' := sources[f := Advanced(sources[f])];
      SameSources(sources, sources') && Right(out, sources', marks)
    ensures |sources[f].dels| == |sources[f].keys|
  {
    hide Marked, MarkRight, AllOutRight;
    var sources' := sources[f := Advanced(sources[f])];
    MarkLength(sources[f], marks);
    MarkAdvanced(sources[f], marks);
    OutStays(out, sources, sources', marks);
  }

  lemma MarkLength(s: Source, marks: bool)
    requires MarkRight(s, marks)
    ensures |s.dels| == |s.keys|
  {
  }

  lemma Nothing(marks: bool)
    ensures State([], multiset{}, map[], []).Inv(None) && Right([], [], marks) && Named([])
  {
  }

  /** Source f is added before anything is handed out. */
  lemma AddRight(sources: seq<Source>, marks: bool, s: Source)
    requires Right([], sources, marks) && s.pos == 0 && |s.dels| == |s.keys| > 0
    requires s.deleted <==> marks && s.dels[0]
    ensures Right([], sources + [s], marks)
  {
    assert marks && s.dels[0] ==> Marked(s, marks, 0);
  }

  /** The key that source f stands at is handed out. */
  lemma GetRight(out: seq<Emitted>, sources: seq<Source>, marks: bool, f: nat)
    requires f < |sources| && sources[f].pos < |sources[f].keys| && Right(out, sources, marks)
    ensures var s := sources[f]; Right(out + [Emitted(s.keys[s.pos], f, s.deleted)], sources, marks)
  {
    hide Marked;
    var s := sources[f];
    var e := Emitted(s.keys[s.pos], f, s.deleted);
    assert MarkRight(s, marks);
    assert MarkedAs(e, s, marks, s.pos);
    forall o | 0 <= o < |out + [e]| ensures OutRight((out + [e])[o], sources, marks) {
      assert o < |out| ==> OutRight(out[o], sources, marks);
    }
  }

  /** The keys handed out from sources that were not marked. */
  function Unmarked(out: seq<Emitted>): seq<Emitted>
  {
    if out == [] then []
    else
      var (rest, last) := (Unmarked(out[..|out| - 1]), out[|out| - 1]);
      if last.deleted then rest else rest + [last]
  }

  lemma UnmarkedMore(out: seq<Emitted>, e: Emitted)
    ensures Unmarked(out + [e]) == Unmarked(out) + if e.deleted then [] else [e]
  {
    assert (out + [e])[..|out|] == out;
  }

  /** What is shown was handed out, and unmarked. */
  lemma {:induction false} UnmarkedFrom(out: seq<Emitted>, e: Emitted)
    ensures e in Unmarked(out) <==> e in out && !e.deleted
  {
    if out != [] {
      UnmarkedFrom(out[..|out| - 1], e);
      assert out == out[..|out| - 1] + [out[|out| - 1]];
    }
  }

  lemma {:induction false} UnmarkedAscending(out: seq<Emitted>)
    requires Ascending(out)
    ensures Ascending(Unmarked(out))
  {
    if out != [] {
      var rest := out[..|out| - 1];
      UnmarkedAscending(rest);
      forall i | 0 <= i < |Unmarked(rest)| ensures Less(Unmarked(rest)[i].key, out[|out| - 1].key) {
        UnmarkedFrom(rest, Unmarked(rest)[i]);
      }
    }
  }

  // ---------- live keys that are not shown ----------

  /** Everything has been handed out, and marks were right. */
  ghost predicate Ended(m: State, marks: bool)
  {
    AllHandedOut(m) && Ascending(m.out) && m.AllBest() && AllOutRight(m.out, m.sources, marks)
  }

  /** The key was handed out for a deletion. */
  ghost predicate ForDeletion(e: Emitted, sources: seq<Source>)
  {
    e.source < |sources| && exists p :: DeletionOf(sources[e.source], e.key, p)
  }

  ghost predicate DeletionOf(s: Source, key: Key, p: nat)
  {
    p < |s.keys| && p < |s.dels| && s.keys[p] == key && s.dels[p]
  }

  /** Source s has a live key at p that no better source holds, and is marked there. */
  ghost predicate Lost(sources: seq<Source>, marks: bool, s: nat, p: nat)
  {
    && s < |sources| && p < |sources[s].keys| && p < |sources[s].dels|
    && !sources[s].dels[p] && Marked(sources[s], marks, p)
    && forall i :: 0 <= i < |sources| && sources[s].keys[p] in sources[i].keys ==>
      sources[i].priority <= sources[s].priority
  }

  /** Sorted keys, as many records as keys, and no two sources of the same priority. */
  ghost predicate Proper(sources: seq<Source>)
  {
    && (forall i :: 0 <= i < |sources| ==> SortedKeys(sources[i].keys) && |sources[i].dels| == |sources[i].keys|)
    && forall i, j :: 0 <= i < j < |sources| ==> sources[i].priority != sources[j].priority
  }

  lemma OnePlace(keys: seq<Key>, p: nat, q: nat)
    requires SortedKeys(keys) && p < |keys| && q < |keys| && keys[p] == keys[q]
    ensures p == q
  {
    LessTrichotomy(keys[p], keys[q]);
  }

  lemma LostIsOut(m: State, marks: bool, s: nat, p: nat)
    requires Ended(m, marks) && Proper(m.sources) && Lost(m.sources, marks, s, p)
    ensures exists o :: 0 <= o < |m.out| && m.out[o].deleted && !ForDeletion(m.out[o], m.sources)
  {
    hide Marked;
    assert KeyOut(m, s, p);
    var o :| 0 <= o < |m.out| && m.HandedOut(o, m.sources[s].keys[p], m.sources[s].priority);
    assert m.Best(o) && OutRight(m.out[o], m.sources, marks);
    assert m.out[o].source == s;
    var q :| MarkedAs(m.out[o], m.sources[s], marks, q);
    OnePlace(m.sources[s].keys, p, q);
    if r :| DeletionOf(m.sources[s], m.out[o].key, r) {
      OnePlace(m.sources[s].keys, p, r);
    }
  }

  /** Every key that is not shown stands for a deletion if and only if no source is marked at a live key of its own. */
  lemma LiveShownIff(m: State, marks: bool)
    requires Ended(m, marks) && Proper(m.sources)
    ensures (forall o :: 0 <= o < |m.out| && m.out[o].deleted ==> ForDeletion(m.out[o], m.sources)) <==>
            (forall s, p :: !Lost(m.sources, marks, s, p))
  {
    hide Marked;
    if s, p :| Lost(m.sources, marks, s, p) {
      LostIsOut(m, marks, s, p);
    } else {
      forall o | 0 <= o < |m.out| && m.out[o].deleted ensures ForDeletion(m.out[o], m.sources) {
        assert m.Best(o) && OutRight(m.out[o], m.sources, marks);
        var s := m.out[o].source;
        var p :| MarkedAs(m.out[o], m.sources[s], marks, p);
        assert !Lost(m.sources, marks, s, p);
        assert DeletionOf(m.sources[s], m.out[o].key, p);
      }
    }
  }

  /** When first records count, no deletion is shown. */
  lemma DeletionsMarked(m: State, o: nat)
    requires Ended(m, true) && Proper(m.sources) && o < |m.out| && ForDeletion(m.out[o], m.sources)
    ensures m.out[o].deleted
  {
    assert OutRight(m.out[o], m.sources, true);
    var s := m.sources[m.out[o].source];
    var p :| DeletionOf(s, m.out[o].key, p);
    var q :| MarkedAs(m.out[o], s, true, q);
    OnePlace(s.keys, p, q);
    assert Marked(s, true, q);
  }

  /** A packed file with a live key, a deletion and another live key: only the first is shown. */
  lemma LiveKeyLost(m: State, marks: bool)
    requires Ended(m, marks) && |m.sources| == 1
    requires m.sources[0].packed && m.sources[0].keys == [[1], [2], [3]] && m.sources[0].dels == [false, true, false]
    ensures exists o :: 0 <= o < |m.out| && m.out[o].key == [3] && m.out[o].deleted
  {
    var s := m.sources[0];
    assert Marked(s, marks, 2) by {
      assert s.dels[1];
    }
    assert KeyOut(m, 0, 2);
    var o :| 0 <= o < |m.out| && m.HandedOut(o, s.keys[2], s.priority);
    assert OutRight(m.out[o], m.sources, marks);
    var q :| MarkedAs(m.out[o], s, marks, q);
  }

  lemma LeastKey(key: Key, heap: multiset<Key>)
    requires forall x :: x in heap - multiset{key} ==> MemcmpRaw(key, x) <= 0
    ensures forall x :: x in heap ==> !Less(x, key)
  {
    forall x | x in heap ensures !Less(x, key) {
      MemcmpRawIsDictionaryOrder(key, x);
      LessTrichotomy(key, x);
      assert x != key ==> x in heap - multiset{key};
    }
  }

  /** Keys in the heap are keys of sources. */
  lemma HeapNamed(m: State)
    requires m.Inv(None) && Named(m.sources)
    ensures forall k :: k in m.heap ==> k in m.bound && k != []
  {
    forall k | k in m.heap ensures k in m.bound && k != [] {
      assert m.Owned(k, None);
    }
  }

  lemma Popped(m: State, k: Key)
    requires k in m.heap && k in m.bound && m.bound[k] < |m.sources|
    ensures var e := Emitted(k, m.bound[k], m.sources[m.bound[k]].deleted);
      AfterPop(m, k) == m.(heap := m.heap - multiset{k}, out := m.out + [e])
  {
  }

  lemma PoppedRight(m: State, k: Key, marks: bool)
    requires k in m.heap && k in m.bound && m.bound[k] < |m.sources| && Right(m.out, m.sources, marks)
    requires var m' := AfterPop(m, k); m'.Leaving(m.bound[k]) && m'.Pending(m.bound[k]) == k
    ensures var f := m.bound[k]; Right(m.out + [Emitted(k, f, m.sources[f].deleted)], m.sources, marks)
  {
    hide Right;
    GetRight(m.out, m.sources, marks, m.bound[k]);
  }

  lemma StandsAt(m: State, f: nat)
    requires m.Leaving(f)
    ensures f < |m.sources| && m.sources[f].pos < |m.sources[f].keys|
    ensures m.Pending(f) == m.sources[f].keys[m.sources[f].pos]
  {
  }

  /** The key that source f stands at, unless it is marked. */
  method Seen(s: Source, f: nat) returns (shown: seq<Emitted>)
    requires s.pos < |s.keys|
    ensures var e := Emitted(s.keys[s.pos], f, s.deleted); shown == if e.deleted then [] else [e]
  {
    shown := [];
    if !s.deleted {
      shown := [Emitted(s.keys[s.pos], f, false)];
    }
  }

  /** Goes to the next key, and sees whether its record is a deletion. */
  method MoveOn(s: Source) returns (s': Source)
    requires |s.dels| == |s.keys| && !s.done
    ensures s' == Advanced(s)
  {
    s' := s.(pos := s.pos + 1);
    if s'.pos >= |s'.keys| {
      s' := s'.(done := true);
    } else if !s'.packed {
      s' := s'.(deleted := s'.dels[s'.pos]);
    } else if s'.dels[s'.pos] {
      s' := s'.(deleted := true);
    }
  }

  class Iterator {
    const pq: PQ.PQueue<Key>
    const ht: IT.IterTable
    var sources: seq<Source>
    ghost const marks: bool
    ghost var out: seq<Emitted>

    ghost predicate Valid()
      reads this, pq, ht.Repr()
    {
      && pq.Valid() && pq.cmp == MemcmpRaw && ht.Valid() && Named(sources)
      && this !in ht.Repr() && pq !in ht.Repr()
      && Right(out, sources, marks)
    }

    lemma MarksKept()
      requires Valid()
      ensures AllOutRight(out, sources, marks)
    {
    }

    ghost function Now(): State
      reads this, pq, ht
    {
      State(sources, multiset(pq.arr), ht.bound, out)
    }

    /** A source begins with the mark of its first record only if marks says so. */
    constructor (ghost marks: bool)
      ensures Valid() && this.marks == marks && Now() == State([], multiset{}, map[], []) && Now().Inv(None)
      ensures fresh(pq) && fresh(ht.Repr())
    {
      hide State.Inv, Right, PQ.TotalPreorder;
      RawOrder();
      Nothing(marks);
      pq := new PQ.PQueue(MemcmpRaw);
      ht := new IT.IterTable();
      sources, out := [], [];
      this.marks := marks;
    }

    /** Binds a key to a source, whatever it was bound to. */
    method Rebind(key: Key, f: nat)
      requires Valid() && key != []
      modifies ht.Repr()
      ensures Valid() && Now() == old(Now()).(bound := old(ht.bound)[key := f])
      ensures fresh(ht.Repr() - old(ht.Repr()))
    {
      var removed := ht.Remove(key);
      ht.Put(key, f);
    }

    /** Binds a new key to a source and puts it into the heap. */
    method Enter(key: Key, f: nat)
      requires Valid() && key != []
      modifies pq, ht.Repr()
      ensures Valid() && fresh(ht.Repr() - old(ht.Repr()))
      ensures Now() == old(Now()).(heap := old(Now().heap) + multiset{key}, bound := old(ht.bound)[key := f])
    {
      hide Right, Named, PQ.HeapOrder, PQ.TotalPreorder;
      ht.Put(key, f);
      pq.Put(key);
    }

    /** Takes the least key out of the heap. */
    method TakeKey() returns (key: Option<Key>)
      requires Valid()
      modifies pq
      ensures Valid()
      ensures key == None ==> Now() == old(Now()) && Now().heap == multiset{}
      ensures key.Some? ==>
        && key.value in old(Now().heap)
        && Now() == old(Now()).(heap := old(Now().heap) - multiset{key.value})
        && forall x :: x in old(Now().heap) ==> !Less(x, key.value)
    {
      hide Right, Named, PQ.HeapOrder, PQ.TotalPreorder;
      ghost var heap := multiset(pq.arr);
      key := pq.Get();
      if key.Some? {
        assert multiset(pq.arr) == heap - multiset{key.value};
        LeastKey(key.value, heap);
      }
    }

    /** The source that a key is bound to. */
    method Bound(key: Key) returns (data: Option<nat>)
      requires Valid() && key != []
      ensures data == if key in ht.bound then Some(ht.bound[key]) else None
    {
      data := ht.Get(key);
    }

    /** Looks up the source of a key; its binding, which ought to go, stays. */
    method TakeSource(key: Key) returns (data: Option<nat>)
      requires Valid() && key != []
      modifies ht.Repr()
      ensures Valid() && Now() == old(Now()) && ht.Repr() == old(ht.Repr())
      ensures data == if key in ht.bound then Some(ht.bound[key]) else None
    {
      data := Bound(key);
      if data.Some? {
        var removed := ht.Remove(key);
      }
    }

    /** Notes what is handed out. */
    ghost method Record(e: Emitted)
      requires Valid() && Right(out + [e], sources, marks)
      modifies this`out
      ensures Valid() && Now() == old(Now()).(out := old(out) + [e])
    {
      out := out + [e];
    }

    lemma ArrivesNamed(f: nat)
      requires Valid() && Now().Arriving(f)
      ensures f < |sources| && Now().Live(f) && Now().Pending(f) != []
    {
    }

    /** Source f has arrived at a key: it goes into the heap, or one of the two sources there leaves. */
    method Process(key: Key, f: nat)
      requires Valid() && Now().Inv(Some(f)) && Now().Arriving(f) && key == Now().Pending(f)
      modifies this`sources, pq, ht.Repr()
      ensures Valid() && Now().Inv(None) && SameSources(old(sources), sources)
      ensures fresh(ht.Repr() - old(ht.Repr())) && Unread(sources) <= old(Unread(sources))
      decreases Unread(sources), 1
    {
      hide State.Inv, State.Covered, State.Live, State.Pending, State.Arriving, State.Leaving, State.Waits, SameSources,
        Iterator.Valid, Unread;
      SameAll(sources);
      ArrivesNamed(f);
      var other := Bound(key);
      if other.Some? {
        ArriveMeets(Now(), f);
        if sources[f].priority > sources[other.value].priority {
          ArriveHigher(Now(), f);
          Rebind(key, f);
          DataNext(other.value);
        } else {
          ArriveLower(Now(), f);
          DataNext(f);
        }
      } else {
        ArriveNew(Now(), f);
        Enter(key, f);
      }
    }

    /** Source f leaves its key for the next one, or ends. */
    method DataNext(f: nat)
      requires Valid() && Now().Inv(Some(f)) && Now().Leaving(f)
      modifies this`sources, pq, ht.Repr()
      ensures Valid() && Now().Inv(None) && SameSources(old(sources), sources)
      ensures fresh(ht.Repr() - old(ht.Repr())) && Unread(sources) < old(Unread(sources))
      decreases Unread(sources), 0
    {
      hide State.Inv, State.Covered, Right, SameSources;
      Advance(Now(), f);
      UnreadLess(sources, f);
      AdvanceRight(out, sources, marks, f);
      SameThrough(sources, sources[f := Advanced(sources[f])]);
      var s := MoveOn(sources[f]);
      sources := sources[f := s];
      if !s.done {
        Process(s.keys[s.pos], f);
      }
    }

    /** Adds a source before iteration starts. */
    method Begin(packed: bool, priority: int, keys: seq<Key>, dels: seq<bool>, deleted: bool)
      requires Valid() && Now().Inv(None) && out == [] && |dels| == |keys|
      requires SortedKeys(keys) && keys != [] && forall j :: 0 <= j < |keys| ==> keys[j] != []
      requires deleted <==> marks && dels[0]
      modifies this`sources, pq, ht.Repr()
      ensures Valid() && Now().Inv(None)
      ensures |sources| == |old(sources)| + 1 && SameSources(old(sources), sources[..|old(sources)|])
      ensures var s := sources[|old(sources)|];
        s.packed == packed && s.priority == priority && s.keys == keys && s.dels == dels
      ensures fresh(ht.Repr() - old(ht.Repr()))
    {
      hide Right, PQ.HeapOrder, PQ.TotalPreorder, State.Inv, State.Covered;
      var s := Source(packed, priority, keys, dels, 0, deleted, false);
      Add(Now(), s);
      AddRight(sources, marks, s);
      sources := sources + [s];
      Process(keys[0], |sources| - 1);
    }

    /** Hands out the least pending key and its source, which is to be moved on with Next. */
    method Get() returns (data: Option<nat>)
      requires Valid() && Now().Inv(None)
      modifies this`out, pq, ht.Repr()
      ensures Valid() && fresh(ht.Repr() - old(ht.Repr()))
      ensures data == None ==> Now() == old(Now()) && Now().heap == multiset{}
      ensures data.Some? ==>
        && Now().Inv(data) && Now().Leaving(data.value)
        && Now() == AfterPop(old(Now()), Now().Pending(data.value))
        && out == old(out) + [Emitted(Now().Pending(data.value), data.value, sources[data.value].deleted)]
    {
      hide State.Inv, State.Covered, State.Leaving, Named, AfterPop, Right;
      ghost var m := Now();
      HeapNamed(m);
      data := None;
      var key := TakeKey();
      if key.Some? {
        Pop(m, key.value);
        PoppedRight(m, key.value, marks);
        data := TakeSource(key.value);
        Record(Emitted(key.value, data.value, sources[data.value].deleted));
        Popped(m, key.value);
      }
    }

    /** Moves the source last handed out on; false when nothing is pending any more. */
    method Next(data: Option<nat>) returns (more: bool)
      requires Valid() && Now().Inv(data) && (data.Some? ==> Now().Leaving(data.value))
      modifies this`sources, pq, ht.Repr()
      ensures Valid() && Now().Inv(None) && SameSources(old(sources), sources)
      ensures fresh(ht.Repr() - old(ht.Repr())) && (data.Some? ==> Unread(sources) < old(Unread(sources)))
      ensures data == None ==> Now() == old(Now())
      ensures more <==> Now().heap != multiset{}
    {
      if data.Some? {
        DataNext(data.value);
      }
      more := |pq.arr| > 0;
      assert |pq.arr| > 0 ==> pq.arr[0] in multiset(pq.arr);
    }

    /** Get, and then Next; shown is the key that was handed out, unless its source is marked. */
    method Step() returns (more: bool, shown: seq<Emitted>)
      requires Valid() && Now().Inv(None)
      modifies this, pq, ht.Repr()
      ensures Valid() && Now().Inv(None) && SameSources(old(sources), sources)
      ensures fresh(ht.Repr() - old(ht.Repr())) && Unmarked(out) == Unmarked(old(out)) + shown
      ensures more <==> Now().heap != multiset{}
      ensures Unread(sources) <= old(Unread(sources)) && (more ==> Unread(sources) < old(Unread(sources)))
    {
      hide State.Inv, State.Live, State.Leaving, State.Pending, Right, AfterPop, Unmarked, SameSources, Iterator.Valid,
        Unread;
      SameAll(sources);
      ghost var before := out;
      shown := [];
      var data := Get();
      if data.Some? {
        StandsAt(Now(), data.value);
        shown := Seen(sources[data.value], data.value);
        UnmarkedMore(before, out[|out| - 1]);
      }
      more := Next(data);
    }

    /**
     Get and Next, as long as there is more: every key of every source is handed out once, in
     ascending order, from a source of the highest priority among those that hold it.  Shown are
     those whose source was not marked as standing at a deletion.
     */
    method Run() returns (shown: seq<Emitted>)
      requires Valid() && Now().Inv(None) && out == []
      modifies this, pq, ht.Repr()
      ensures Valid() && SameSources(old(sources), sources)
      ensures Ascending(out) && Now().AllBest() && AllHandedOut(Now()) && shown == Unmarked(out)
      ensures Ended(Now(), marks)
    {
      hide State.Inv, Iterator.Valid;
      shown := [];
      var more := true;
      while more
        invariant Valid() && Now().Inv(None) && SameSources(old(sources), sources)
        invariant fresh(ht.Repr() - old(ht.Repr())) && shown == Unmarked(out)
        invariant !more ==> Now().heap == multiset{}
        decreases Unread(sources), more
      {
        var add;
        more, add := Step();
        shown := shown + add;
      }
      Finished(Now());
      MarksKept();
    }
  }
}
