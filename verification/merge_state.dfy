/**
 The merging iterator's state as a value, the invariant that its heap, its hash bindings and
 its sources keep, and what each step does to it.
 */
module MergeState {
  import opened Bytes
  import opened Wrappers

  /**
   A source, a packed file or a tree: its keys in ascending order, which of their records are
   deletions, how far it has been read, and whether it is marked as standing at a deletion.
   */
  datatype Source = Source(packed: bool, priority: int, keys: seq<Key>, dels: seq<bool>, pos: nat, deleted: bool,
                           done: bool)

  /** A key handed out, the source it came from, and whether that was marked as standing at a deletion. */
  datatype Emitted = Emitted(key: Key, source: nat, deleted: bool)

  datatype State = State(sources: seq<Source>, heap: multiset<Key>, bound: map<Key, nat>, out: seq<Emitted>)
  {
    ghost predicate Live(i: nat) {
      i < |sources| && !sources[i].done && sources[i].pos < |sources[i].keys|
    }

    /** The key source i stands at. */
    ghost function Pending(i: nat): Key
      requires Live(i)
    {
      sources[i].keys[sources[i].pos]
    }

    /** A key of a source of this priority has been handed out, or waits, from no lower one. */
    ghost predicate Covered(k: Key, priority: int) {
      (k in heap && k in bound && bound[k] < |sources| && priority <= sources[bound[k]].priority)
      || (exists o :: 0 <= o < |out| && HandedOut(o, k, priority))
    }

    ghost predicate HandedOut(o: nat, k: Key, priority: int)
      requires o < |out|
    {
      out[o].key == k && out[o].source < |sources| && priority <= sources[out[o].source].priority
    }

    /** Source i, unless it is the one in flight, waits in the heap and is bound to its key. */
    ghost predicate Waits(i: nat) {
      Live(i) ==> Pending(i) in heap && Pending(i) in bound && bound[Pending(i)] == i && Ahead(out, Pending(i))
    }

    /** A key in the heap is there once, for the live source it is bound to. */
    ghost predicate Owned(k: Key, flight: Option<nat>) {
      k in heap ==>
        && heap[k] == 1 && k in bound && Live(bound[k]) && Some(bound[k]) != flight && Pending(bound[k]) == k
    }

    /** What source i has gone past is covered. */
    ghost predicate Past(i: nat)
      requires i < |sources|
    {
      forall j :: 0 <= j < sources[i].pos && j < |sources[i].keys| ==> Covered(sources[i].keys[j], sources[i].priority)
    }

    ghost predicate WellFormed(i: nat)
      requires i < |sources|
    {
      && SortedKeys(sources[i].keys) && sources[i].pos <= |sources[i].keys|
      && (sources[i].done <==> sources[i].pos == |sources[i].keys|)
    }

    /** No source holds the o-th key handed out with a higher priority than the one it came from. */
    ghost predicate Best(o: nat)
      requires o < |out|
    {
      var (k, s) := (out[o].key, out[o].source);
      && s < |sources| && k in sources[s].keys
      && forall i :: 0 <= i < |sources| && k in sources[i].keys ==> sources[i].priority <= sources[s].priority
    }

    ghost predicate Placed(flight: Option<nat>) {
      forall i :: 0 <= i < |sources| && Some(i) != flight ==> Waits(i)
    }

    ghost predicate AllPast() {
      forall i :: 0 <= i < |sources| ==> WellFormed(i) && Past(i)
    }

    ghost predicate AllOwned(flight: Option<nat>) {
      forall k :: k in heap ==> Owned(k, flight)
    }

    ghost predicate AllBest() {
      forall o :: 0 <= o < |out| ==> Best(o)
    }

    /** The invariant, flight being the source that is between two keys, if any. */
    ghost predicate Inv(flight: Option<nat>) {
      AllPast() && Placed(flight) && AllOwned(flight) && AllBest() && Stale(out, heap, bound) && Ascending(out)
    }

    /** Source f stands at a key that comes next for it. */
    ghost predicate Arriving(f: nat) {
      Live(f) && Ahead(out, Pending(f))
    }

    /** Source f stands at a key that it need not hand out (any more). */
    ghost predicate Leaving(f: nat) {
      && Live(f) && Covered(Pending(f), sources[f].priority)
      && (out != [] ==> !Less(Pending(f), out[|out| - 1].key))
    }
  }

  /** k has not been reached by what was handed out. */
  ghost predicate Ahead(out: seq<Emitted>, k: Key)
  {
    out != [] ==> Less(out[|out| - 1].key, k)
  }

  /** Bindings outlive their keys in the heap, but only for keys that have been reached. */
  ghost predicate Stale(out: seq<Emitted>, heap: multiset<Key>, bound: map<Key, nat>)
  {
    forall k :: k in bound && k !in heap ==> !Ahead(out, k)
  }

  ghost predicate Ascending(out: seq<Emitted>)
  {
    forall o, p :: 0 <= o < p < |out| ==> Less(out[o].key, out[p].key)
  }

  ghost predicate SortedKeys(keys: seq<Key>)
  {
    forall i, j :: 0 <= i < j < |keys| ==> Less(keys[i], keys[j])
  }

  /** Source f goes to its next key, or is done.  The mark of a packed file is never taken off again. */
  function Advanced(s: Source): (s': Source)
    ensures s'.keys == s.keys && s'.priority == s.priority
  {
    var pos := s.pos + 1;
    var deleted := if pos < |s.keys| && pos < |s.dels| then s.dels[pos] || (s.packed && s.deleted) else s.deleted;
    s.(pos := pos, deleted := deleted, done := pos >= |s.keys|)
  }

  /** Sources, priorities and what was handed out are the same; only who waits where may differ. */
  ghost predicate Kept(m: State, m': State)
  {
    && |m.sources| == |m'.sources| && m'.out == m.out
    && (forall i :: 0 <= i < |m.sources| ==>
      m'.sources[i].priority == m.sources[i].priority && m'.sources[i].keys == m.sources[i].keys)
    && (forall k :: k in m.heap ==> KeyKept(m, m', k))
  }

  /** A key that waits goes on waiting, from no lower a source. */
  ghost predicate KeyKept(m: State, m': State, k: Key)
  {
    k in m'.heap && (k in m.bound && m.bound[k] < |m.sources| ==>
      && k in m'.bound && m'.bound[k] < |m'.sources|
      && m.sources[m.bound[k]].priority <= m'.sources[m'.bound[k]].priority)
  }

  lemma CoveredKept(m: State, m': State, k: Key, priority: int)
    requires Kept(m, m') && m.Covered(k, priority)
    ensures m'.Covered(k, priority)
  {
    if o :| 0 <= o < |m.out| && m.HandedOut(o, k, priority) {
      assert m'.HandedOut(o, k, priority);
    } else {
      assert KeyKept(m, m', k);
    }
  }

  lemma PastKept(m: State, m': State, i: nat)
    requires Kept(m, m') && i < |m.sources| && m.Past(i)
    requires forall j :: m.sources[i].pos <= j < m'.sources[i].pos && j < |m.sources[i].keys| ==>
      m'.Covered(m.sources[i].keys[j], m.sources[i].priority)
    ensures m'.Past(i)
  {
    forall j | 0 <= j < m.sources[i].pos && j < |m.sources[i].keys|
      ensures m'.Covered(m.sources[i].keys[j], m.sources[i].priority)
    {
      CoveredKept(m, m', m.sources[i].keys[j], m.sources[i].priority);
    }
  }

  lemma BestKept(m: State, m': State, o: nat)
    requires Kept(m, m') && o < |m.out| && m.Best(o)
    ensures m'.Best(o)
  {
  }

  /** When no source moves, what is past and what is best stays so. */
  lemma NoneMoved(m: State, m': State)
    requires Kept(m, m') && m'.sources == m.sources && m.AllPast() && m.AllBest()
    ensures m'.AllPast() && m'.AllBest()
  {
    forall i | 0 <= i < |m'.sources| ensures m'.WellFormed(i) && m'.Past(i) {
      assert m.WellFormed(i) && m.Past(i);
      PastKept(m, m', i);
    }
    forall o | 0 <= o < |m'.out| ensures m'.Best(o) {
      BestKept(m, m', o);
    }
  }

  ghost function AfterAdvance(m: State, f: nat): State
    requires f < |m.sources|
  {
    m.(sources := m.sources[f := Advanced(m.sources[f])])
  }

  lemma AdvanceArrives(m: State, f: nat)
    requires m.Leaving(f) && m.WellFormed(f) && !Advanced(m.sources[f]).done
    ensures AfterAdvance(m, f).Arriving(f)
  {
    var s' := Advanced(m.sources[f]);
    if m.out != [] {
      var last := m.out[|m.out| - 1].key;
      LessTrichotomy(last, m.Pending(f));
      if last != m.Pending(f) {
        LessTransitive(last, m.Pending(f), s'.keys[s'.pos]);
      }
    }
  }

  lemma AdvancePast(m: State, f: nat)
    requires m.AllPast() && m.Leaving(f)
    ensures AfterAdvance(m, f).AllPast()
  {
    var m' := AfterAdvance(m, f);
    assert Kept(m, m');
    forall i | 0 <= i < |m'.sources| ensures m'.WellFormed(i) && m'.Past(i) {
      assert m.WellFormed(i) && m.Past(i);
      if i == f {
        CoveredKept(m, m', m.Pending(f), m.sources[f].priority);
      }
      PastKept(m, m', i);
    }
  }

  lemma AdvancePlaced(m: State, f: nat)
    requires f < |m.sources| && m.Placed(Some(f)) && m.AllOwned(Some(f)) && m.AllBest()
    ensures var m' := AfterAdvance(m, f);
      m'.Placed(Some(f)) && m'.AllOwned(Some(f)) && m'.AllOwned(None) && m'.AllBest()
  {
    var m' := AfterAdvance(m, f);
    forall i | 0 <= i < |m'.sources| && i != f ensures m'.Waits(i) {
      assert m.Waits(i);
    }
    forall k | k in m'.heap ensures m'.Owned(k, Some(f)) && m'.Owned(k, None) {
      assert m.Owned(k, Some(f));
    }
    forall o | 0 <= o < |m'.out| ensures m'.Best(o) {
      BestKept(m, m', o);
    }
  }

  /** The source in flight, leaving its key, goes on to the next one or ends. */
  lemma Advance(m: State, f: nat)
    requires m.Inv(Some(f)) && m.Leaving(f)
    ensures var m' := AfterAdvance(m, f);
      if m'.sources[f].done then m'.Inv(None) else m'.Inv(Some(f)) && m'.Arriving(f)
  {
    var m' := AfterAdvance(m, f);
    assert m.WellFormed(f);
    AdvancePast(m, f);
    AdvancePlaced(m, f);
    if m'.sources[f].done {
      assert m'.Waits(f);
    } else {
      AdvanceArrives(m, f);
    }
  }

  // ---------- a source arrives at a key ----------

  ghost function AfterEnter(m: State, f: nat): State
    requires m.Live(f)
  {
    m.(heap := m.heap + multiset{m.Pending(f)}, bound := m.bound[m.Pending(f) := f])
  }

  lemma EnterPlaced(m: State, f: nat)
    requires m.Placed(Some(f)) && m.Arriving(f) && m.Pending(f) !in m.bound
    ensures AfterEnter(m, f).Placed(None)
  {
    hide Ahead;
    var m' := AfterEnter(m, f);
    forall i | 0 <= i < |m'.sources| ensures m'.Waits(i) {
      assert i != f ==> m.Waits(i);
    }
  }

  lemma EnterOwned(m: State, f: nat)
    requires m.AllOwned(Some(f)) && m.Arriving(f) && m.Pending(f) !in m.bound
    ensures AfterEnter(m, f).AllOwned(None) && Kept(m, AfterEnter(m, f))
  {
    hide Ahead;
    var (m', key) := (AfterEnter(m, f), m.Pending(f));
    assert key in m.heap ==> m.Owned(key, Some(f));
    forall k | k in m'.heap ensures m'.Owned(k, None) {
      assert k != key ==> m.Owned(k, Some(f));
    }
  }

  lemma EnterStale(m: State, f: nat)
    requires Stale(m.out, m.heap, m.bound) && m.Live(f)
    ensures var m' := AfterEnter(m, f); Stale(m'.out, m'.heap, m'.bound)
  {
    hide Ahead;
  }

  /** The key is new: it goes into the heap. */
  lemma ArriveNew(m: State, f: nat)
    requires m.Inv(Some(f)) && m.Arriving(f) && m.Pending(f) !in m.bound
    ensures m.(heap := m.heap + multiset{m.Pending(f)}, bound := m.bound[m.Pending(f) := f]).Inv(None)
  {
    hide State.Placed, State.AllOwned, State.AllPast, State.AllBest, Stale, Ascending, Kept, State.Arriving;
    Flies(m, f);
    EnterPlaced(m, f);
    EnterOwned(m, f);
    EnterStale(m, f);
    NoneMoved(m, AfterEnter(m, f));
  }

  lemma Flies(m: State, f: nat)
    requires m.Arriving(f)
    ensures m.Live(f) && Ahead(m.out, m.Pending(f))
  {
  }

  /** A source waits at the key already: its key is in the heap, for it is ahead. */
  lemma ArriveMeets(m: State, f: nat)
    requires m.Inv(Some(f)) && m.Arriving(f) && m.Pending(f) in m.bound
    ensures var k, other := m.Pending(f), m.bound[m.Pending(f)];
      k in m.heap && other != f && m.Live(other) && m.Pending(other) == k && m.Waits(other)
  {
    var k := m.Pending(f);
    assert k in m.heap;
    assert m.Owned(k, Some(f));
  }

  ghost function AfterRebind(m: State, f: nat): State
    requires m.Live(f)
  {
    m.(bound := m.bound[m.Pending(f) := f])
  }

  lemma RebindPlaced(m: State, f: nat, other: nat)
    requires m.Placed(Some(f)) && m.Arriving(f) && m.Pending(f) in m.heap && m.Live(other)
    requires m.Pending(other) == m.Pending(f) && m.Waits(other)
    ensures AfterRebind(m, f).Placed(Some(other))
  {
    hide Ahead;
    var m' := AfterRebind(m, f);
    forall i | 0 <= i < |m'.sources| && i != other ensures m'.Waits(i) {
      assert i != f ==> m.Waits(i);
    }
  }

  lemma RebindOwned(m: State, f: nat, other: nat)
    requires m.AllOwned(Some(f)) && m.Live(f) && m.Pending(f) in m.heap && m.Live(other) && other != f
    requires m.Pending(f) in m.bound && m.bound[m.Pending(f)] == other
    requires m.sources[f].priority > m.sources[other].priority
    ensures AfterRebind(m, f).AllOwned(Some(other)) && Kept(m, AfterRebind(m, f))
  {
    var m' := AfterRebind(m, f);
    forall k | k in m'.heap ensures m'.Owned(k, Some(other)) {
      assert m.Owned(k, Some(f));
    }
  }

  lemma RebindLeaves(m: State, f: nat, other: nat)
    requires m.Arriving(f) && m.Pending(f) in m.heap && m.Live(other) && m.Pending(other) == m.Pending(f)
    requires m.sources[f].priority > m.sources[other].priority
    ensures AfterRebind(m, f).Leaving(other)
  {
    hide Ahead;
    LeaveAhead(AfterRebind(m, f), other);
  }

  lemma RebindStale(m: State, f: nat)
    requires Stale(m.out, m.heap, m.bound) && m.Live(f) && m.Pending(f) in m.bound
    ensures var m' := AfterRebind(m, f); Stale(m'.out, m'.heap, m'.bound)
  {
    hide Ahead;
  }

  /** The source that waits has the lower priority: the new one takes its place, and it leaves. */
  lemma ArriveHigher(m: State, f: nat)
    requires m.Inv(Some(f)) && m.Arriving(f) && m.Pending(f) in m.bound
    requires m.bound[m.Pending(f)] < |m.sources|
    requires m.sources[f].priority > m.sources[m.bound[m.Pending(f)]].priority
    ensures var k, other := m.Pending(f), m.bound[m.Pending(f)];
      var m' := m.(bound := m.bound[k := f]);
      m'.Inv(Some(other)) && m'.Leaving(other)
  {
    hide State.Placed, State.AllOwned, State.AllPast, State.AllBest, Stale, Ascending, Kept, State.Arriving,
      State.Leaving, State.Waits;
    Flies(m, f);
    ArriveMeets(m, f);
    var other := m.bound[m.Pending(f)];
    RebindPlaced(m, f, other);
    RebindOwned(m, f, other);
    RebindStale(m, f);
    RebindLeaves(m, f, other);
    NoneMoved(m, AfterRebind(m, f));
  }

  /** The source that waits has no lower priority: the new one leaves. */
  lemma ArriveLower(m: State, f: nat)
    requires m.Inv(Some(f)) && m.Arriving(f) && m.Pending(f) in m.bound
    requires m.bound[m.Pending(f)] < |m.sources|
    requires m.sources[f].priority <= m.sources[m.bound[m.Pending(f)]].priority
    ensures m.Leaving(f)
  {
    ArriveMeets(m, f);
    LeaveAhead(m, f);
  }

  lemma LeaveAhead(m: State, f: nat)
    requires m.Live(f) && m.Covered(m.Pending(f), m.sources[f].priority) && Ahead(m.out, m.Pending(f))
    ensures m.Leaving(f)
  {
    if m.out != [] {
      LessTrichotomy(m.Pending(f), m.out[|m.out| - 1].key);
    }
  }

  // ---------- a key is handed out ----------

  ghost function AfterPop(m: State, k: Key): State
    requires k in m.heap && k in m.bound && m.bound[k] < |m.sources|
  {
    m.(heap := m.heap - multiset{k}, out := m.out + [Emitted(k, m.bound[k], m.sources[m.bound[k]].deleted)])
  }

  /** No source that holds the least key of the heap has a higher priority than the one bound to it. */
  lemma NoBetter(m: State, k: Key, i: nat, j: nat)
    requires m.Inv(None) && k in m.heap && m.Owned(k, None) && forall x :: x in m.heap ==> !Less(x, k)
    requires i < |m.sources| && j < |m.sources[i].keys| && m.sources[i].keys[j] == k
    ensures m.sources[i].priority <= m.sources[m.bound[k]].priority
  {
    assert m.WellFormed(i) && m.Past(i) && m.Waits(i) && m.Waits(m.bound[k]);
    if j < m.sources[i].pos {
      assert m.Covered(k, m.sources[i].priority);
      NotOutYet(m, k, m.sources[i].priority);
    }
  }

  lemma PopBest(m: State, k: Key)
    requires m.Inv(None) && k in m.heap && forall x :: x in m.heap ==> !Less(x, k)
    ensures k in m.bound && AfterPop(m, k).Best(|m.out|)
  {
    assert m.Owned(k, None);
    forall i | 0 <= i < |m.sources| && k in m.sources[i].keys
      ensures m.sources[i].priority <= m.sources[m.bound[k]].priority
    {
      var j :| 0 <= j < |m.sources[i].keys| && m.sources[i].keys[j] == k;
      NoBetter(m, k, i, j);
    }
  }

  lemma NotOutYet(m: State, k: Key, priority: int)
    requires Ascending(m.out) && Ahead(m.out, k)
    ensures forall o :: 0 <= o < |m.out| ==> !m.HandedOut(o, k, priority)
  {
    forall o | 0 <= o < |m.out| ensures m.out[o].key != k {
      var last := |m.out| - 1;
      LessTrichotomy(m.out[o].key, k);
      if o < last {
        LessTransitive(m.out[o].key, m.out[last].key, k);
      }
    }
  }

  lemma PopPast(m: State, k: Key)
    requires m.AllPast() && k in m.heap && k in m.bound && m.bound[k] < |m.sources|
    ensures AfterPop(m, k).AllPast()
  {
    var m' := AfterPop(m, k);
    forall i | 0 <= i < |m'.sources| ensures m'.WellFormed(i) && m'.Past(i) {
      assert m.WellFormed(i) && m.Past(i);
      forall j | 0 <= j < m.sources[i].pos && j < |m.sources[i].keys|
        ensures m'.Covered(m.sources[i].keys[j], m.sources[i].priority)
      {
        PopCovered(m, k, m.sources[i].keys[j], m.sources[i].priority);
      }
    }
  }

  lemma PopCovered(m: State, k: Key, key: Key, priority: int)
    requires k in m.heap && k in m.bound && m.bound[k] < |m.sources| && m.Covered(key, priority)
    ensures AfterPop(m, k).Covered(key, priority)
  {
    var m' := AfterPop(m, k);
    if o :| 0 <= o < |m.out| && m.HandedOut(o, key, priority) {
      assert m'.HandedOut(o, key, priority);
    } else if key == k {
      assert m'.HandedOut(|m.out|, key, priority);
    }
  }

  lemma PopPlaced(m: State, k: Key)
    requires m.Placed(None) && k in m.heap && m.Owned(k, None) && forall x :: x in m.heap ==> !Less(x, k)
    ensures AfterPop(m, k).Placed(Some(m.bound[k]))
  {
    var m' := AfterPop(m, k);
    forall i | 0 <= i < |m'.sources| && i != m.bound[k] ensures m'.Waits(i) {
      assert m.Waits(i);
      if m.Live(i) {
        LessTrichotomy(k, m.Pending(i));
      }
    }
  }

  lemma PopOwned(m: State, k: Key)
    requires m.AllOwned(None) && k in m.heap && m.Owned(k, None)
    ensures AfterPop(m, k).AllOwned(Some(m.bound[k]))
  {
    var m' := AfterPop(m, k);
    forall x | x in m'.heap ensures m'.Owned(x, Some(m.bound[k])) {
      assert m.Owned(x, None);
    }
  }

  lemma PopStale(m: State, k: Key)
    requires Stale(m.out, m.heap, m.bound) && Ahead(m.out, k) && k in m.bound && m.heap[k] == 1
      && m.bound[k] < |m.sources|
    ensures var m' := AfterPop(m, k); Stale(m'.out, m'.heap, m'.bound)
  {
    var m' := AfterPop(m, k);
    forall x | x in m'.bound && x !in m'.heap ensures !Ahead(m'.out, x) {
      LessTrichotomy(k, x);
      if x != k && m.out != [] && Less(k, x) {
        LessTransitive(m.out[|m.out| - 1].key, k, x);
      }
    }
  }

  lemma PopAscending(m: State, k: Key)
    requires Ascending(m.out) && Ahead(m.out, k) && k in m.heap && k in m.bound && m.bound[k] < |m.sources|
    ensures Ascending(AfterPop(m, k).out)
  {
    var out, n := AfterPop(m, k).out, |m.out|;
    forall o | 0 <= o < n ensures Less(out[o].key, k) {
      if o < n - 1 {
        LessTransitive(out[o].key, out[n - 1].key, k);
      }
    }
  }

  lemma PopAllBest(m: State, k: Key)
    requires m.AllBest() && k in m.heap && k in m.bound && m.bound[k] < |m.sources|
    requires AfterPop(m, k).Best(|m.out|)
    ensures AfterPop(m, k).AllBest()
  {
    var m' := AfterPop(m, k);
    forall o | 0 <= o < |m'.out| ensures m'.Best(o) {
      assert o < |m.out| ==> m.Best(o);
    }
  }

  lemma PopLeaves(m: State, k: Key)
    requires k in m.heap && m.Owned(k, None)
    ensures var (m', f) := (AfterPop(m, k), m.bound[k]); m'.Leaving(f) && m'.Pending(f) == k
  {
    var (m', f) := (AfterPop(m, k), m.bound[k]);
    assert m'.HandedOut(|m.out|, k, m.sources[f].priority);
    LessTrichotomy(k, k);
  }

  /** The source that the least key is bound to. */
  lemma PopOwner(m: State, k: Key)
    requires m.AllOwned(None) && m.Placed(None) && k in m.heap
    ensures m.Owned(k, None) && k in m.bound && m.bound[k] < |m.sources| && m.heap[k] == 1 && Ahead(m.out, k)
  {
    assert m.Owned(k, None);
    assert m.Waits(m.bound[k]);
  }

  /** The least key is handed out; the source bound to it is in flight, and leaves the key. */
  lemma Pop(m: State, k: Key)
    requires m.Inv(None) && k in m.heap && forall x :: x in m.heap ==> !Less(x, k)
    ensures k in m.bound && m.bound[k] < |m.sources|
    ensures var m' := AfterPop(m, k); m'.Inv(Some(m.bound[k])) && m'.Leaving(m.bound[k]) && m'.Pending(m.bound[k]) == k
  {
    hide State.Placed, State.AllOwned, State.AllPast, State.AllBest, Stale, Ascending, State.Owned, State.Leaving,
      State.Best, Less, Ahead;
    PopOwner(m, k);
    PopBest(m, k);
    PopAllBest(m, k);
    PopPast(m, k);
    PopPlaced(m, k);
    PopOwned(m, k);
    PopStale(m, k);
    PopAscending(m, k);
    PopLeaves(m, k);
  }

  // ---------- the first and the last state ----------

  /** One more source, at its first key. */
  lemma Add(m: State, s: Source)
    requires m.Inv(None) && m.out == []
    requires SortedKeys(s.keys) && s.keys != [] && s.pos == 0 && !s.done
    ensures var m' := m.(sources := m.sources + [s]); m'.Inv(Some(|m.sources|)) && m'.Arriving(|m.sources|)
  {
    var m' := m.(sources := m.sources + [s]);
    forall i | 0 <= i < |m'.sources| ensures m'.WellFormed(i) && m'.Past(i) {
      if i < |m.sources| {
        assert m.WellFormed(i) && m.Past(i);
        forall j | 0 <= j < m.sources[i].pos && j < |m.sources[i].keys|
          ensures m'.Covered(m.sources[i].keys[j], m.sources[i].priority)
        {
          assert m.Covered(m.sources[i].keys[j], m.sources[i].priority);
        }
      }
    }
    forall i | 0 <= i < |m.sources| ensures m'.Waits(i) {
      assert m.Waits(i);
    }
    forall k | k in m'.heap ensures m'.Owned(k, Some(|m.sources|)) {
      assert m.Owned(k, None);
    }
  }

  /** Key j of source i has been handed out, from a source of no lower priority. */
  ghost predicate KeyOut(m: State, i: nat, j: nat)
    requires i < |m.sources| && j < |m.sources[i].keys|
  {
    exists o :: 0 <= o < |m.out| && m.HandedOut(o, m.sources[i].keys[j], m.sources[i].priority)
  }

  ghost predicate AllHandedOut(m: State)
  {
    forall i, j :: 0 <= i < |m.sources| && 0 <= j < |m.sources[i].keys| ==> KeyOut(m, i, j)
  }

  /** An empty heap means that everything has been handed out. */
  lemma Finished(m: State)
    requires m.Inv(None) && m.heap == multiset{}
    ensures AllHandedOut(m) && Ascending(m.out) && m.AllBest()
  {
    forall i, j | 0 <= i < |m.sources| && 0 <= j < |m.sources[i].keys| ensures KeyOut(m, i, j) {
      assert m.WellFormed(i) && m.Past(i) && m.Waits(i);
      assert m.Covered(m.sources[i].keys[j], m.sources[i].priority);
    }
  }
}
