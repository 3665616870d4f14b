/** What the operations of a session do, as its callers see it. */
module Reference {
  import opened Bytes
  import opened Format
  import opened Rows
  import opened Words

  const TWO_MB: nat := 2 * 1024 * 1024

  /**
   A database as its callers see it: what it says now and what an abort would bring back, how long
   its active file is now and after an abort, how many bytes the next commit covers, whether the
   active file is dirty, and whether its files can be read back.
   */
  datatype Model = Model(now: map<Key, Row>, saved: map<Key, Row>, size: nat, savedSize: nat, pending: nat,
                         dirty: bool, readable: bool, savedReadable: bool)

  datatype Op = AddOp(key: Key, val: seq<Byte>) | RemoveOp(key: Key) | CommitOp | AbortOp | FinaliseOp |
    ReopenOp

  /** A database without rows, whose active file has only a header. */
  function NewDatabase(): Model
  {
    Model(map[], map[], HDR_SIZE, HDR_SIZE, 0, false, true, true)
  }

  /** The active file is finalised with all that is in it, committed or not, and a new one is begun. */
  function Rolled(m: Model): Model
  {
    var readable := m.readable && m.pending <= MAX_SHORT_VAL_LEN;
    m.(saved := m.now, size := HDR_SIZE, savedSize := HDR_SIZE, pending := 0,
       readable := readable, savedReadable := readable)
  }

  /** A record is appended. */
  function WithRow(m: Model, row: Row, len: nat, pending: nat): Model
  {
    m.(now := m.now[row.key := row], size := m.size + len, pending := pending, dirty := true,
       readable := m.readable && (row.deleted ==> |row.key| <= MAX_SHORT_KEY_LEN))
  }

  /** There is nothing to commit. */
  predicate Clean(m: Model)
  {
    m.pending == 0 && !m.dirty
  }

  /** A commit is written; what an abort would bring back stays. */
  function Closed(m: Model): Model
  {
    var short := m.pending <= MAX_SHORT_VAL_LEN;
    m.(size := m.size + if short then SHORT_COMMIT_SIZE else LONG_COMMIT_SIZE, pending := 0, dirty := false,
       readable := m.readable && short)
  }

  /** What an operation does. */
  function Step(m: Model, op: Op): Model
  {
    match op
    case AddOp(key, val) =>
      var m' := if m.size >= TWO_MB then Rolled(m) else m;
      var len := KeyLen(key) + ValLen(val);
      WithRow(m', Row(key, val, false), len, m'.pending + len)
    case RemoveOp(key) => WithRow(m, Row(key, [], true), KeyLen(key), KeyLen(key))
    case CommitOp =>
      if Clean(m) then m
      else
        var m' := Closed(m);
        m'.(saved := m'.now, savedSize := m'.size, savedReadable := m'.readable)
    case AbortOp => m.(now := m.saved, size := m.savedSize, pending := 0, dirty := false, readable := m.savedReadable)
    case FinaliseOp => Rolled(m)
    case ReopenOp => if m.dirty then Closed(m) else m.(pending := 0)
  }

  lemma RemoveStep(m: Model, key: Key)
    ensures Step(m, RemoveOp(key)) == WithRow(m, Row(key, [], true), KeyLen(key), KeyLen(key))
  {
  }

  ghost function Steps(m: Model, ops: seq<Op>, n: nat): Model
    requires n <= |ops|
  {
    if n == 0 then m else Step(Steps(m, ops, n - 1), ops[n - 1])
  }

  /** Lengths are those of records and of commits, and an abort or a new session can read back what is there. */
  predicate InScope(m: Model, op: Op)
  {
    match op
    case AddOp(key, val) =>
      key != [] && |key| <= TWO_61 - 8 && |val| <= TWO_61 - 8 && (m.size >= TWO_MB ==> m.pending < TWO_64)
    case RemoveOp(key) => key != [] && |key| <= TWO_61 - 8
    case CommitOp => m.pending < TWO_64
    case AbortOp => m.savedReadable
    case FinaliseOp => m.pending < TWO_64
    case ReopenOp => m.readable && (m.dirty ==> m.pending <= MAX_SHORT_VAL_LEN)
  }

  ghost predicate AllInScope(m: Model, ops: seq<Op>)
  {
    forall n :: 0 <= n < |ops| ==> InScope(Steps(m, ops, n), ops[n])
  }

  /** No row has the empty key. */
  predicate Named(m: Model)
  {
    [] !in m.now && [] !in m.saved
  }

  lemma StaysNamed(m: Model, op: Op)
    requires Named(m) && InScope(m, op)
    ensures Named(Step(m, op))
  {
  }

  lemma {:induction false} RunNamed(m: Model, ops: seq<Op>, n: nat)
    requires n <= |ops| && AllInScope(m, ops) && Named(m)
    ensures Named(Steps(m, ops, n))
  {
    hide Step, Named, InScope;
    if n > 0 {
      RunNamed(m, ops, n - 1);
      StaysNamed(Steps(m, ops, n - 1), ops[n - 1]);
    }
  }

  // ---------- what a run says about a key ----------

  predicate Touches(op: Op, key: Key)
  {
    match op
    case AddOp(k, _) => k == key
    case RemoveOp(k) => k == key
    case CommitOp => false
    case AbortOp => false
    case FinaliseOp => false
    case ReopenOp => false
  }

  /** An operation that does not name the key, and is no abort, changes nothing about it. */
  lemma Untouched(m: Model, op: Op, key: Key)
    requires !Touches(op, key) && op != AbortOp
    ensures key in Step(m, op).now <==> key in m.now
    ensures key in m.now ==> Step(m, op).now[key] == m.now[key]
  {
  }

  lemma {:induction false} StaysUntouched(m: Model, ops: seq<Op>, k: nat, n: nat, key: Key)
    requires k <= n <= |ops| && forall i :: k <= i < n ==> !Touches(ops[i], key) && ops[i] != AbortOp
    ensures key in Steps(m, ops, n).now <==> key in Steps(m, ops, k).now
    ensures key in Steps(m, ops, k).now ==> Steps(m, ops, n).now[key] == Steps(m, ops, k).now[key]
  {
    hide Step, Touches;
    if k < n {
      StaysUntouched(m, ops, k, n - 1, key);
      Untouched(Steps(m, ops, n - 1), ops[n - 1], key);
    }
  }

  /**
   After the last operation that names a key, up to the next abort, the database says of it exactly
   what that operation said.
   */
  lemma LastTouchCounts(m: Model, ops: seq<Op>, k: nat, n: nat, key: Key)
    requires k < n <= |ops| && forall i :: k < i < n ==> !Touches(ops[i], key) && ops[i] != AbortOp
    ensures forall val :: ops[k] == AddOp(key, val) ==>
      key in Steps(m, ops, n).now && Steps(m, ops, n).now[key] == Row(key, val, false)
    ensures ops[k] == RemoveOp(key) ==>
      key in Steps(m, ops, n).now && Steps(m, ops, n).now[key] == Row(key, [], true)
  {
    StaysUntouched(m, ops, k + 1, n, key);
  }

  // ---------- what an abort brings back ----------

  /** After the operation an abort brings back what the database said before it. */
  predicate Saves(m: Model, op: Op)
  {
    (op.CommitOp? && !Clean(m)) || op.FinaliseOp? || (op.AddOp? && m.size >= TWO_MB)
  }

  /** The last of the first n operations that saves, or -1. */
  ghost function LastSave(m: Model, ops: seq<Op>, n: nat): (k: int)
    requires n <= |ops|
    ensures -1 <= k < n
  {
    if n == 0 then -1
    else if Saves(Steps(m, ops, n - 1), ops[n - 1]) then n - 1
    else LastSave(m, ops, n - 1)
  }

  lemma SaveStep(m: Model, op: Op)
    ensures Step(m, op).saved == if Saves(m, op) then m.now else m.saved
  {
  }

  lemma {:induction false} SavedAtLast(m: Model, ops: seq<Op>, n: nat)
    requires n <= |ops|
    ensures var k := LastSave(m, ops, n);
      Steps(m, ops, n).saved == if k < 0 then m.saved else Steps(m, ops, k).now
  {
    hide Step, Saves;
    if n > 0 {
      SavedAtLast(m, ops, n - 1);
      SaveStep(Steps(m, ops, n - 1), ops[n - 1]);
    }
  }

  /** An abort brings back what the database said when the last operation that saves came. */
  lemma AbortBringsBack(m: Model, ops: seq<Op>, n: nat)
    requires n < |ops| && ops[n] == AbortOp
    ensures var k := LastSave(m, ops, n);
      Steps(m, ops, n + 1).now == if k < 0 then m.saved else Steps(m, ops, k).now
  {
    SavedAtLast(m, ops, n);
  }

  /** An add and an abort undo what is not committed, unless the add finalises a file with some of that in it. */
  lemma AddAbort(m: Model, key: Key, val: seq<Byte>)
    ensures var m' := Steps(m, [AddOp(key, val), AbortOp], 2);
      m'.now == m.saved <==> m.size < TWO_MB || m.now == m.saved
  {
    var ops := [AddOp(key, val), AbortOp];
    assert Steps(m, ops, 1) == Step(Steps(m, ops, 0), ops[0]);
  }

  /**
   In a new database, without any commit: a value with which the active file has 2097152 bytes, that
   is 2 MB, outlives the abort after the next add.
   */
  lemma AddNotUndone()
    ensures var ops := [AddOp([1], Zeros(2097064)), AddOp([2], []), AbortOp];
      && AllInScope(NewDatabase(), ops) && Steps(NewDatabase(), ops, 1).size == 2097152
      && Steps(NewDatabase(), ops, 3).now == map[[1] := Row([1], Zeros(2097064), false)]
  {
    var m, ops := NewDatabase(), [AddOp([1], Zeros(2097064)), AddOp([2], []), AbortOp];
    var row := Row([1], Zeros(2097064), false);
    assert Steps(m, ops, 1).now == map[[1] := row] && Steps(m, ops, 1).size == 2097152;
    assert Steps(m, ops, 2).saved == map[[1] := row] && Steps(m, ops, 2).savedReadable;
  }

  /** With eight bytes less it does not. */
  lemma AddUndone()
    ensures var ops := [AddOp([1], Zeros(2097056)), AddOp([2], []), AbortOp];
      && AllInScope(NewDatabase(), ops) && Steps(NewDatabase(), ops, 1).size == 2097144
      && Steps(NewDatabase(), ops, 3).now == map[]
  {
    var m, ops := NewDatabase(), [AddOp([1], Zeros(2097056)), AddOp([2], []), AbortOp];
    assert Steps(m, ops, 1).size == 2097144 && Steps(m, ops, 1).saved == map[];
    assert Steps(m, ops, 2).saved == map[] && Steps(m, ops, 2).savedReadable;
  }

  // ---------- what the next commit covers ----------

  /** All that was appended since the good offset. */
  predicate CoversAll(m: Model)
  {
    m.pending == m.size - m.savedSize
  }

  /** Adding keeps it so, also with a rollover, and so do a commit, an abort and a finalise. */
  lemma KeepsCovering(m: Model, op: Op)
    requires CoversAll(m) && !op.RemoveOp? && !op.ReopenOp?
    ensures CoversAll(Step(m, op))
    ensures op.AddOp? && m.size < TWO_MB ==>
      Step(m, op).pending == m.pending + KeyLen(op.key) + ValLen(op.val)
  {
  }

  /** A removal does only when nothing was appended before it: the next commit covers it alone. */
  lemma RemoveCoversIff(m: Model, key: Key)
    requires m.savedSize <= m.size
    ensures Step(m, RemoveOp(key)).pending == KeyLen(key)
    ensures CoversAll(Step(m, RemoveOp(key))) <==> m.size == m.savedSize
  {
  }

  /** The added row is not covered by the commit, of the 32 bytes of the removal alone, although all is saved by it. */
  lemma AddNotCovered()
    ensures var m, ops := NewDatabase(), [AddOp([1], [7]), RemoveOp([2]), CommitOp];
      && AllInScope(m, ops) && Steps(m, ops, 2).size - Steps(m, ops, 2).savedSize == 88
      && Steps(m, ops, 2).pending == 32 && [1] in Steps(m, ops, 3).saved
  {
    var m, ops := NewDatabase(), [AddOp([1], [7]), RemoveOp([2]), CommitOp];
    assert Steps(m, ops, 1).size == 96 && Steps(m, ops, 1).dirty;
    assert Steps(m, ops, 2).size == 128 && Steps(m, ops, 2).dirty && Steps(m, ops, 2).savedSize == 40;
  }

  // ---------- closing and opening again ----------

  /** With nothing to commit, an abort would change nothing. */
  predicate Settled(m: Model)
  {
    !m.dirty ==> m.saved == m.now && m.savedSize == m.size && m.savedReadable == m.readable
  }

  /** Only closing a dirty database breaks that. */
  lemma StaysSettled(m: Model, op: Op)
    requires Settled(m) && (m.dirty || m.pending == 0)
    requires op.ReopenOp? ==> !m.dirty
    ensures var m' := Step(m, op); Settled(m') && (m'.dirty || m'.pending == 0)
  {
  }

  lemma {:induction false} RunSettled(m: Model, ops: seq<Op>, n: nat)
    requires n <= |ops| && Settled(m) && (m.dirty || m.pending == 0)
    requires forall k :: 0 <= k < n && ops[k].ReopenOp? ==> !Steps(m, ops, k).dirty
    ensures var m' := Steps(m, ops, n); Settled(m') && (m'.dirty || m'.pending == 0)
  {
    hide Step, Settled;
    if n > 0 {
      RunSettled(m, ops, n - 1);
      StaysSettled(Steps(m, ops, n - 1), ops[n - 1]);
    }
  }

  /**
   Closing writes a commit but does not move the good offset, and a database just opened has nothing
   to commit: neither an abort nor a commit and an abort keep what was not committed before.
   */
  lemma ReopenAbort(m: Model)
    requires m.dirty
    ensures Step(m, ReopenOp).now == m.now && Step(Step(m, ReopenOp), CommitOp) == Step(m, ReopenOp)
    ensures Steps(m, [ReopenOp, AbortOp], 2).now == m.saved
    ensures Steps(m, [ReopenOp, CommitOp, AbortOp], 3).now == m.saved
  {
    var a, b := [ReopenOp, AbortOp], [ReopenOp, CommitOp, AbortOp];
    assert Steps(m, a, 1) == Step(m, ReopenOp) && Steps(m, b, 1) == Step(m, ReopenOp);
    assert Steps(m, b, 2) == Step(m, ReopenOp);
  }

  /** A row that is added, found again after closing and opening, and committed then, is lost by an abort. */
  lemma CommittedRowLost()
    ensures var m, ops := NewDatabase(), [AddOp([1], []), ReopenOp, CommitOp, AbortOp];
      AllInScope(m, ops) && [1] in Steps(m, ops, 2).now && [1] in Steps(m, ops, 3).now && Steps(m, ops, 4).now == map[]
  {
    var m, ops := NewDatabase(), [AddOp([1], []), ReopenOp, CommitOp, AbortOp];
    assert Steps(m, ops, 1) == Step(m, ops[0]);
    assert Steps(m, ops, 2) == Step(Steps(m, ops, 1), ops[1]);
    assert Steps(m, ops, 3) == Steps(m, ops, 2);
  }
}
