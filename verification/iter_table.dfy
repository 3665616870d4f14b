/** The iterator's hash table, from keys to sources: a table of 64 buckets that never rehashes. */
module IterTable {
  import opened Bytes
  import opened Wrappers
  import opened HTable

  class IterTable {
    const table: HTable<nat>
    /** The newest binding of every key that was ever put. */
    ghost var bound: map<Key, nat>

    ghost function Repr(): set<object>
      reads this, table
    {
      {this, table} + table.Entries()
    }

    ghost predicate Valid()
      reads Repr()
    {
      && table.Valid() && table.Counted() && table.Marked() && |table.table| == INIT_SIZE
      && (forall e :: e in table.Entries() ==> Keyed(e))
      && (forall k: Key :: Binds(k))
    }

    /** The table never grows beyond 64 buckets. */
    lemma Size()
      requires Valid()
      ensures |table.table| == 64
    {
    }

    static ghost predicate Keyed(e: Entry<nat>)
    {
      e.key != [] && e.hash == HashOf(e.key)
    }

    /** What a lookup of k finds is its newest binding. */
    ghost predicate Binds(k: Key)
      requires |table.chains| > 0
      reads this`bound, table`chains
    {
      var e := Found(table.chains, HashOf(k), k);
      if k in bound then e != null && e.value == bound[k] else e == null
    }

    constructor ()
      ensures Valid() && fresh(Repr()) && bound == map[]
    {
      table := new HTable<nat>();
      bound := map[];
    }

    method Get(key: Key) returns (value: Option<nat>)
      requires Valid()
      ensures value == if key in bound then Some(bound[key]) else None
    {
      var hash := HashOf(key);
      assert Binds(key);
      var e := table.Get(hash, key);
      assert e == Found(table.chains, HashOf(key), key);
      value := if e == null then None else Some(e.value);
    }

    /** Puts a binding in front of older ones for the key. */
    method Put(key: Key, value: nat)
      requires Valid() && key != []
      modifies Repr()
      ensures Valid() && fresh(Repr() - old(Repr())) && bound == old(bound)[key := value]
    {
      var hash := HashOf(key);
      var e := new Entry<nat>(hash, key, value);
      ghost var was := table.chains;
      table.Put(e);
      bound := bound[key := value];
      forall k: Key ensures Binds(k) {
        assert old(Binds(k));
        FrontFound(was, e, HashOf(k), k);
        MemcmpRawIsDictionaryOrder(e.key, k);
      }
    }

    /**
     Means to remove the binding of key, but the probe it builds has the hash of key and no
     key: for a key that is not empty it finds nothing, and the binding stays.
     */
    method Remove(key: Key) returns (removed: bool)
      requires Valid() && key != []
      modifies Repr()
      ensures Valid() && Repr() == old(Repr()) && bound == old(bound) && !removed
    {
      var hash := HashOf(key);
      NoEmptyKey(table.chains, hash);
      var e := table.Remove(hash, []);
      removed := e != null;
    }
  }

  /** A probe without a key matches no entry that has one. */
  lemma NoEmptyKey<V>(chains: seq<seq<Entry<V>>>, hash: Hash)
    requires |chains| > 0 && forall e :: e in EntriesOf(chains) ==> e.key != []
    ensures Found(chains, hash, []) == null
  {
    var b := Bucket(hash, |chains|);
    var i := FirstMatch(chains[b], hash, []);
    if i < |chains[b]| {
      var e := chains[b][i];
      assert e in EntriesOf(chains);
      MemcmpRawIsDictionaryOrder(e.key, []);
    }
  }
}
