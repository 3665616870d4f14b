/** The chained hash table. */
module HTable {
  import opened Bytes
  import opened Sequences
  import Words

  const FNV32_BASE: Hash := 0x811c9dc5
  const FNV32_PRIME: nat := 0x01000193

  const INIT_SIZE: nat := 64
  const RESIZE_FACTOR: nat := 4
  const RESIZE_THRESHOLD: nat := 80

  type Hash = h: nat | h < TWO_32

  function XorByte(n: nat, c: Byte): (r: nat)
    requires n < TWO_8
    ensures r < TWO_8
  {
    ((n as bv8) ^ c) as nat
  }

  function XorLow(h: Hash, c: Byte): Hash
  {
    var high := h / TWO_8;
    assert high < TWO_24;
    high * TWO_8 + XorByte(h % TWO_8, c)
  }

  /** hash * FNV32_PRIME in 32 bits, with c xor-ed into the low byte. */
  function FnvStep(hash: Hash, c: Byte): Hash
  {
    XorLow(hash * FNV32_PRIME % TWO_32, c)
  }

  /** The hash of the first n bytes. */
  function Fnv(buf: seq<Byte>, n: nat): Hash
    requires n <= |buf|
  {
    if n == 0 then FNV32_BASE else FnvStep(Fnv(buf, n - 1), buf[n - 1])
  }

  function HashOf(buf: seq<Byte>): Hash
  {
    Fnv(buf, |buf|)
  }

  lemma XorValues()
    ensures XorByte(0x1F, 0x61) == 0x7E
    ensures XorByte(0x1F, 0x66) == 0x79
    ensures XorByte(0x7B, 0x6F) == 0x14
    ensures XorByte(0x7C, 0x6F) == 0x13
    ensures XorByte(0xE9, 0x62) == 0x8B
    ensures XorByte(0xD1, 0x61) == 0xB0
    ensures XorByte(0x10, 0x72) == 0x62
  {
  }

  /** Published values of the FNV-1 hash, of "a" and of "foobar". */
  lemma HashValues()
    ensures HashOf([0x61]) == 0x050C_5D7E
    ensures HashOf([0x66, 0x6F, 0x6F, 0x62, 0x61, 0x72]) == 0x31F0_B262
  {
    var a: seq<Byte>, s: seq<Byte> := [0x61], [0x66, 0x6F, 0x6F, 0x62, 0x61, 0x72];
    XorValues();
    hide XorByte;
    assert Fnv(a, 1) == 0x050C_5D7E;
    assert Fnv(s, 1) == 0x050C_5D79;
    assert Fnv(s, 2) == 0x6B77_2514;
    assert Fnv(s, 3) == 0x408F_5E13;
    assert Fnv(s, 4) == 0xB4B1_178B;
    assert Fnv(s, 5) == 0xFDC8_0FB0;
  }

  method BufHash(buf: seq<Byte>) returns (hash: Hash)
    ensures hash == HashOf(buf)
  {
    hash := FNV32_BASE;
    var i := 0;
    while i < |buf|
      invariant i <= |buf| && hash == Fnv(buf, i)
    {
      hash := FnvStep(hash, buf[i]);
      i := i + 1;
    }
  }

  /** An entry; next links the entries of a bucket. */
  class Entry<V> {
    const hash: Hash
    const key: Key
    const value: V
    var next: Entry?<V>

    constructor (hash: Hash, key: Key, value: V)
      ensures this.hash == hash && this.key == key && this.value == value && next == null
    {
      this.hash, this.key, this.value, next := hash, key, value, null;
    }

    /** Equal for the table: the hash first, then the key. */
    predicate Matches(hash: Hash, key: Key)
    {
      this.hash == hash && MemcmpRaw(this.key, key) == 0
    }
  }

  /** The bits that two numbers have in common. */
  function And(a: nat, b: nat): (r: nat)
    ensures r <= b
  {
    if a == 0 || b == 0 then 0 else (if a % 2 == 1 && b % 2 == 1 then 1 else 0) + 2 * And(a / 2, b / 2)
  }

  function Bucket(hash: Hash, size: nat): (b: nat)
    requires size > 0
    ensures b < size
  {
    And(hash, size - 1)
  }

  function Power(k: nat): (p: nat)
    ensures p > 0
  {
    if k == 0 then 1 else 2 * Power(k - 1)
  }

  lemma Halves(a: nat, m: nat)
    requires m > 0
    ensures a % (2 * m) == a % 2 + 2 * (a / 2 % m)
  {
    var q, r := a / 2 / m, a / 2 % m;
    Words.Divided(a / 2, m);
    assert q * (2 * m) == 2 * (q * m);
    Words.Parts(q, a % 2 + 2 * r, 2 * m);
  }

  lemma AndStep(a: nat, m: nat)
    requires m > 0
    ensures And(a, 2 * m - 1) == a % 2 + 2 * And(a / 2, m - 1)
  {
    assert (2 * m - 1) % 2 == 1 && (2 * m - 1) / 2 == m - 1;
  }

  /** For a power of two the common bits are the remainder. */
  lemma {:induction false} AndRemainder(a: nat, k: nat)
    ensures And(a, Power(k) - 1) == a % Power(k)
  {
    if k > 0 {
      hide And;
      AndRemainder(a / 2, k - 1);
      AndStep(a, Power(k - 1));
      Halves(a, Power(k - 1));
    }
  }

  /** The buckets of a table of 2^k are the remainders of the hashes. */
  lemma BucketIsRemainder(hash: Hash, k: nat)
    ensures Bucket(hash, Power(k)) == hash % Power(k)
  {
    AndRemainder(hash, k);
  }

  ghost function At<V>(es: seq<Entry<V>>, i: nat): Entry?<V>
  {
    if i < |es| then es[i] else null
  }

  /** Following next from e gives the entries es from `from` on, and then null. */
  ghost predicate Chain<V>(e: Entry?<V>, es: seq<Entry<V>>, from: nat)
    reads es
  {
    e == At(es, from) && forall i :: from <= i < |es| ==> es[i].next == At(es, i + 1)
  }

  ghost predicate Distinct<T>(es: seq<T>)
  {
    forall i, j :: 0 <= i < j < |es| ==> es[i] != es[j]
  }

  /** The entries of the first n chains, bucket after bucket. */
  ghost function Upto<V>(chains: seq<seq<Entry<V>>>, n: nat): seq<Entry<V>>
    requires n <= |chains|
  {
    if n == 0 then [] else Upto(chains, n - 1) + chains[n - 1]
  }

  ghost function Flatten<V>(chains: seq<seq<Entry<V>>>): seq<Entry<V>>
  {
    Upto(chains, |chains|)
  }

  ghost function InFront<V>(chains: seq<seq<Entry<V>>>, e: Entry<V>): (chains': seq<seq<Entry<V>>>)
    requires |chains| > 0
    ensures |chains'| == |chains|
  {
    var b := Bucket(e.hash, |chains|);
    chains[b := [e] + chains[b]]
  }

  /** The chains after entries es go in one after the other, each in front of its bucket. */
  ghost function Spread<V>(chains: seq<seq<Entry<V>>>, es: seq<Entry<V>>): (chains': seq<seq<Entry<V>>>)
    requires |chains| > 0
    ensures |chains'| == |chains|
  {
    if es == [] then chains else InFront(Spread(chains, es[..|es| - 1]), es[|es| - 1])
  }

  lemma SpreadOne<V>(chains: seq<seq<Entry<V>>>, es: seq<Entry<V>>, k: nat)
    requires |chains| > 0 && k < |es|
    ensures Spread(chains, es[..k + 1]) == InFront(Spread(chains, es[..k]), es[k])
  {
    assert es[..k + 1][..k] == es[..k];
  }

  ghost function SetOf<T>(es: seq<T>): set<T>
  {
    set x | x in es
  }

  lemma SetOne<T>(es: seq<T>, k: nat)
    requires k < |es|
    ensures SetOf(es[..k + 1]) == SetOf(es[..k]) + {es[k]}
  {
    assert es[..k + 1] == es[..k] + [es[k]];
  }

  ghost function Empty<V>(size: nat): (chains: seq<seq<Entry<V>>>)
    ensures |chains| == size && forall b :: 0 <= b < size ==> chains[b] == []
  {
    seq(size, _ => [])
  }

  /** Bucket b holds its own entries, once each. */
  ghost predicate Housed<V>(chains: seq<seq<Entry<V>>>, b: nat)
    requires b < |chains|
  {
    Distinct(chains[b]) && forall i :: 0 <= i < |chains[b]| ==> Bucket(chains[b][i].hash, |chains|) == b
  }

  ghost predicate AllHoused<V>(chains: seq<seq<Entry<V>>>)
  {
    forall b :: 0 <= b < |chains| ==> Housed(chains, b)
  }

  lemma HousedAt<V>(chains: seq<seq<Entry<V>>>, b: nat)
    requires AllHoused(chains) && b < |chains|
    ensures Housed(chains, b) && Distinct(chains[b])
  {
  }

  /** The index of the first entry that matches, or the length. */
  ghost function FirstMatch<V>(es: seq<Entry<V>>, hash: Hash, key: Key): (i: nat)
    ensures i <= |es| && (i < |es| ==> es[i].Matches(hash, key))
    ensures forall j :: 0 <= j < i ==> !es[j].Matches(hash, key)
  {
    if es == [] || es[0].Matches(hash, key) then 0 else 1 + FirstMatch(es[1..], hash, key)
  }

  /** The chains without entry i of bucket b. */
  ghost function Without<V>(chains: seq<seq<Entry<V>>>, b: nat, i: nat): (chains': seq<seq<Entry<V>>>)
    requires b < |chains| && i < |chains[b]|
    ensures |chains'| == |chains|
  {
    chains[b := chains[b][..i] + chains[b][i + 1..]]
  }

  /** What a lookup finds. */
  ghost function Found<V>(chains: seq<seq<Entry<V>>>, hash: Hash, key: Key): Entry?<V>
    requires |chains| > 0
  {
    var es := chains[Bucket(hash, |chains|)];
    At(es, FirstMatch(es, hash, key))
  }

  lemma {:induction false} SpreadOn<V>(chains: seq<seq<Entry<V>>>, a: seq<Entry<V>>, b: seq<Entry<V>>)
    requires |chains| > 0
    ensures Spread(Spread(chains, a), b) == Spread(chains, a + b)
  {
    if b == [] {
      assert a + b == a;
    } else {
      SpreadOn(chains, a, b[..|b| - 1]);
      assert (a + b)[..|a + b| - 1] == a + b[..|b| - 1];
    }
  }

  /** All entries from bucket `from` on. */
  ghost function Flat<V>(chains: seq<seq<Entry<V>>>, from: nat): seq<Entry<V>>
    requires from <= |chains|
    decreases |chains| - from
  {
    if from == |chains| then [] else chains[from] + Flat(chains, from + 1)
  }

  lemma {:induction false} FlatIsFlatten<V>(chains: seq<seq<Entry<V>>>, from: nat)
    requires from <= |chains|
    ensures Flatten(chains) == Upto(chains, from) + Flat(chains, from)
    decreases |chains| - from
  {
    if from < |chains| {
      FlatIsFlatten(chains, from + 1);
    }
  }

  /** What the chains hold, seen from bucket b, when the chain there is es. */
  lemma {:induction false} FlatAround<V>(chains: seq<seq<Entry<V>>>, b: nat, es: seq<Entry<V>>)
    requires b < |chains|
    ensures Flatten(chains[b := es]) == Upto(chains, b) + (es + Flat(chains, b + 1))
  {
    var chains' := chains[b := es];
    FlatIsFlatten(chains', b);
    SameUpto(chains, chains', b);
    SameFlat(chains, chains', b + 1);
  }

  lemma {:induction false} SameUpto<V>(chains: seq<seq<Entry<V>>>, chains': seq<seq<Entry<V>>>, n: nat)
    requires n <= |chains| == |chains'| && forall k :: 0 <= k < n ==> chains[k] == chains'[k]
    ensures Upto(chains, n) == Upto(chains', n)
  {
    if n > 0 {
      SameUpto(chains, chains', n - 1);
    }
  }

  lemma {:induction false} SameFlat<V>(chains: seq<seq<Entry<V>>>, chains': seq<seq<Entry<V>>>, from: nat)
    requires from <= |chains| == |chains'| && forall k :: from <= k < |chains| ==> chains[k] == chains'[k]
    ensures Flat(chains, from) == Flat(chains', from)
    decreases |chains| - from
  {
    if from < |chains| {
      SameFlat(chains, chains', from + 1);
    }
  }

  lemma BagInsert<T>(a: seq<T>, x: T, b: seq<T>)
    ensures multiset(a + ([x] + b)) == multiset(a + b) + multiset{x}
  {
  }

  lemma FrontFlat<V>(chains: seq<seq<Entry<V>>>, e: Entry<V>)
    requires |chains| > 0
    ensures multiset(Flatten(InFront(chains, e))) == multiset(Flatten(chains)) + multiset{e}
    ensures |Flatten(InFront(chains, e))| == |Flatten(chains)| + 1
  {
    var b := Bucket(e.hash, |chains|);
    var l, es, r := Upto(chains, b), chains[b], Flat(chains, b + 1);
    FlatAround(chains, b, es);
    FlatAround(chains, b, [e] + es);
    assert chains[b := es] == chains;
    assert l + (([e] + es) + r) == l + ([e] + (es + r));
    BagInsert(l, e, es + r);
  }

  lemma FlatWithout<V>(chains: seq<seq<Entry<V>>>, b: nat, i: nat)
    requires b < |chains| && i < |chains[b]|
    ensures multiset(Flatten(chains)) == multiset(Flatten(Without(chains, b, i))) + multiset{chains[b][i]}
    ensures |Flatten(Without(chains, b, i))| == |Flatten(chains)| - 1
  {
    var l, es, r := Upto(chains, b), chains[b], Flat(chains, b + 1);
    FlatAround(chains, b, es);
    FlatAround(chains, b, es[..i] + es[i + 1..]);
    assert chains[b := es] == chains;
    assert l + (es + r) == (l + es[..i]) + ([es[i]] + (es[i + 1..] + r));
    assert l + (es[..i] + es[i + 1..] + r) == (l + es[..i]) + (es[i + 1..] + r);
    BagInsert(l + es[..i], es[i], es[i + 1..] + r);
  }

  lemma {:induction false} SpreadFlat<V>(chains: seq<seq<Entry<V>>>, es: seq<Entry<V>>)
    requires |chains| > 0
    ensures multiset(Flatten(Spread(chains, es))) == multiset(Flatten(chains)) + multiset(es)
    ensures |Flatten(Spread(chains, es))| == |Flatten(chains)| + |es|
  {
    if es != [] {
      SpreadFlat(chains, es[..|es| - 1]);
      FrontFlat(Spread(chains, es[..|es| - 1]), es[|es| - 1]);
      assert es == es[..|es| - 1] + [es[|es| - 1]];
    }
  }

  lemma {:induction false} EmptyFlat<V>(size: nat, n: nat)
    requires n <= size
    ensures Upto(Empty<V>(size), n) == []
  {
    if n > 0 {
      EmptyFlat<V>(size, n - 1);
    }
  }

  lemma SpreadNext<V>(chains: seq<seq<Entry<V>>>, es: seq<seq<Entry<V>>>, i: nat)
    requires |chains| > 0 && i < |es|
    ensures Spread(Spread(chains, Upto(es, i)), es[i]) == Spread(chains, Upto(es, i + 1))
  {
    SpreadOn(chains, Upto(es, i), es[i]);
  }

  ghost function EntriesOf<V>(chains: seq<seq<Entry<V>>>): set<Entry<V>>
  {
    set b, i | 0 <= b < |chains| && 0 <= i < |chains[b]| :: chains[b][i]
  }

  lemma FrontEntries<V>(chains: seq<seq<Entry<V>>>, e: Entry<V>)
    requires |chains| > 0
    ensures EntriesOf(InFront(chains, e)) == EntriesOf(chains) + {e}
  {
    var chains', c := InFront(chains, e), Bucket(e.hash, |chains|);
    assert chains'[c][0] == e;
    forall x | x in EntriesOf(chains) ensures x in EntriesOf(chains') {
      var b, i :| 0 <= b < |chains| && 0 <= i < |chains[b]| && chains[b][i] == x;
      assert chains'[b][if b == c then i + 1 else i] == x;
    }
    forall x | x in EntriesOf(chains') ensures x in EntriesOf(chains) + {e} {
      var b, i :| 0 <= b < |chains'| && 0 <= i < |chains'[b]| && chains'[b][i] == x;
      if b == c && i > 0 {
        assert chains[b][i - 1] == x;
      }
    }
  }

  /** The entries of one more chain are not among those before. */
  lemma EarlierChains<V>(chains: seq<seq<Entry<V>>>, i: nat)
    requires AllHoused(chains) && i < |chains|
    ensures forall k :: 0 <= k < |chains[i]| ==> chains[i][k] !in EntriesOf(chains[..i])
    ensures EntriesOf(chains[..i + 1]) == EntriesOf(chains[..i]) + SetOf(chains[i])
    ensures EntriesOf(chains[..i + 1]) <= EntriesOf(chains)
    ensures forall b, k :: i < b < |chains| && 0 <= k < |chains[b]| ==> chains[b][k] !in chains[i]
  {
    assert Housed(chains, i);
    forall x | x in EntriesOf(chains[..i]) ensures Bucket(x.hash, |chains|) < i {
      var b, k :| 0 <= b < i && 0 <= k < |chains[..i][b]| && chains[..i][b][k] == x;
      assert Housed(chains, b);
    }
    forall x | x in EntriesOf(chains[..i]) ensures x in EntriesOf(chains[..i + 1]) {
      var b, k :| 0 <= b < i && 0 <= k < |chains[..i][b]| && chains[..i][b][k] == x;
      assert chains[..i + 1][b][k] == x;
    }
    forall k | 0 <= k < |chains[i]| ensures chains[i][k] in EntriesOf(chains[..i + 1]) {
      assert chains[..i + 1][i][k] == chains[i][k];
    }
    forall x | x in EntriesOf(chains[..i + 1])
      ensures x in EntriesOf(chains[..i]) + SetOf(chains[i])
      ensures x in EntriesOf(chains)
    {
      var b, k :| 0 <= b <= i && 0 <= k < |chains[..i + 1][b]| && chains[..i + 1][b][k] == x;
      assert chains[b][k] == x;
      assert b < i ==> chains[..i][b][k] == x;
    }
    forall b, k | i < b < |chains| && 0 <= k < |chains[b]| ensures chains[b][k] !in chains[i] {
      assert Housed(chains, b);
    }
  }

  /** The first n chains hold each of their entries once. */
  lemma {:induction false} FlatOnce<V>(chains: seq<seq<Entry<V>>>, n: nat)
    requires AllHoused(chains) && n <= |chains|
    ensures Distinct(Upto(chains, n)) && SetOf(Upto(chains, n)) == EntriesOf(chains[..n])
  {
    if n > 0 {
      FlatOnce(chains, n - 1);
      EarlierChains(chains, n - 1);
      HousedAt(chains, n - 1);
      hide EntriesOf, AllHoused, Housed;
      DistinctConcat(Upto(chains, n - 1), chains[n - 1]);
    }
  }

  lemma DistinctConcat<T>(a: seq<T>, b: seq<T>)
    requires Distinct(a) && Distinct(b) && forall k :: 0 <= k < |b| ==> b[k] !in SetOf(a)
    ensures Distinct(a + b) && SetOf(a + b) == SetOf(a) + SetOf(b)
  {
  }

  lemma WithoutHoused<V>(chains: seq<seq<Entry<V>>>, b: nat, i: nat)
    requires b < |chains| && i < |chains[b]| && AllHoused(chains)
    ensures AllHoused(Without(chains, b, i))
    ensures EntriesOf(Without(chains, b, i)) == EntriesOf(chains) - {chains[b][i]}
  {
    var chains', e := Without(chains, b, i), chains[b][i];
    assert Housed(chains, b);
    forall c | 0 <= c < |chains| ensures Housed(chains', c) {
      assert Housed(chains, c);
    }
    forall x | x in EntriesOf(chains) && x != e ensures x in EntriesOf(chains') {
      var c, j :| 0 <= c < |chains| && 0 <= j < |chains[c]| && chains[c][j] == x;
      assert chains'[c][if c == b && j > i then j - 1 else j] == x;
    }
    forall x | x in EntriesOf(chains') ensures x in EntriesOf(chains) && x != e {
      var c, j :| 0 <= c < |chains'| && 0 <= j < |chains'[c]| && chains'[c][j] == x;
      assert chains[c][if c == b && j >= i then j + 1 else j] == x;
      assert Housed(chains, c);
    }
  }

  lemma FrontHoused<V>(chains: seq<seq<Entry<V>>>, e: Entry<V>)
    requires |chains| > 0 && AllHoused(chains) && e !in EntriesOf(chains)
    ensures AllHoused(InFront(chains, e))
  {
    forall b | 0 <= b < |chains| ensures Housed(InFront(chains, e), b) {
      assert Housed(chains, b);
    }
  }

  /** The chains from bucket `from` on hang where table says. */
  ghost predicate Chained<V>(table: seq<Entry?<V>>, chains: seq<seq<Entry<V>>>, from: nat)
    reads EntriesOf(chains)
  {
    |table| == |chains| && forall b :: from <= b < |table| ==> Chain(table[b], chains[b], 0)
  }

  // ---------- which of several entries for a key is found ----------

  /** Putting an entry makes it the one found for its hash and key, and changes no other lookup. */
  lemma FrontFound<V>(chains: seq<seq<Entry<V>>>, e: Entry<V>, hash: Hash, key: Key)
    requires |chains| > 0
    ensures Found(InFront(chains, e), hash, key) == if e.Matches(hash, key) then e else Found(chains, hash, key)
  {
    var b := Bucket(hash, |chains|);
    if b == Bucket(e.hash, |chains|) {
      assert ([e] + chains[b])[1..] == chains[b];
    }
  }

  /** The entries that match among the first n, in order. */
  ghost function Matches<V>(es: seq<Entry<V>>, n: nat, hash: Hash, key: Key): seq<Entry<V>>
    requires n <= |es|
  {
    if n == 0 then []
    else Matches(es, n - 1, hash, key) + if es[n - 1].Matches(hash, key) then [es[n - 1]] else []
  }

  ghost function Matching<V>(es: seq<Entry<V>>, hash: Hash, key: Key): seq<Entry<V>>
  {
    Matches(es, |es|, hash, key)
  }

  lemma {:induction false} MatchesConcat<V>(a: seq<Entry<V>>, b: seq<Entry<V>>, n: nat, hash: Hash, key: Key)
    requires n <= |b|
    ensures Matches(a + b, |a| + n, hash, key) == Matching(a, hash, key) + Matches(b, n, hash, key)
  {
    if n == 0 {
      MatchesPrefix(a + b, a, |a|, hash, key);
    } else {
      MatchesConcat(a, b, n - 1, hash, key);
    }
  }

  lemma {:induction false} MatchesPrefix<V>(a: seq<Entry<V>>, b: seq<Entry<V>>, n: nat, hash: Hash, key: Key)
    requires n <= |a| && n <= |b| && forall i :: 0 <= i < n ==> a[i] == b[i]
    ensures Matches(a, n, hash, key) == Matches(b, n, hash, key)
  {
    if n > 0 {
      MatchesPrefix(a, b, n - 1, hash, key);
    }
  }

  lemma MatchingConcat<V>(a: seq<Entry<V>>, b: seq<Entry<V>>, hash: Hash, key: Key)
    ensures Matching(a + b, hash, key) == Matching(a, hash, key) + Matching(b, hash, key)
  {
    MatchesConcat(a, b, |b|, hash, key);
  }

  lemma MatchingOne<V>(e: Entry<V>, hash: Hash, key: Key)
    ensures Matching([e], hash, key) == if e.Matches(hash, key) then [e] else []
  {
    assert Matches([e], 0, hash, key) == [];
    assert Matches([e], 1, hash, key) == Matching([e], hash, key);
  }

  lemma {:induction false} FoundIsFirst<V>(es: seq<Entry<V>>, hash: Hash, key: Key)
    ensures At(es, FirstMatch(es, hash, key)) == At(Matching(es, hash, key), 0)
  {
    hide Matching, Matches, Entry.Matches;
    if es == [] {
      MatchingNone<V>(hash, key);
    } else {
      var rest := es[1..];
      FoundIsFirst(rest, hash, key);
      MatchingConcat([es[0]], rest, hash, key);
      MatchingOne(es[0], hash, key);
      assert es == [es[0]] + rest;
    }
  }

  lemma MatchingNone<V>(hash: Hash, key: Key)
    ensures Matching<V>([], hash, key) == []
  {
  }

  /** Entries put into an empty table one after the other come to stand in reverse. */
  lemma {:induction false} SpreadReverses<V>(es: seq<Entry<V>>, size: nat, hash: Hash, key: Key)
    requires size > 0
    ensures Matching(Spread(Empty(size), es)[Bucket(hash, size)], hash, key) == Reverse(Matching(es, hash, key))
  {
    hide Matching, Entry.Matches;
    if es == [] {
      MatchingNone<V>(hash, key);
    } else {
      var e, rest, b := es[|es| - 1], es[..|es| - 1], Bucket(hash, size);
      var chain := Spread(Empty(size), rest)[b];
      SpreadReverses(rest, size, hash, key);
      assert es == rest + [e];
      MatchingConcat(rest, [e], hash, key);
      MatchingOne(e, hash, key);
      if Bucket(e.hash, size) == b {
        MatchingConcat([e], chain, hash, key);
        ReverseSnoc(Matching(rest, hash, key), e);
      } else {
        Elsewhere(e, hash, key, size);
      }
      assert Matching(rest, hash, key) + [] == Matching(rest, hash, key);
      assert [] + Matching(chain, hash, key) == Matching(chain, hash, key);
    }
  }

  lemma Elsewhere<V>(e: Entry<V>, hash: Hash, key: Key, size: nat)
    requires size > 0 && Bucket(e.hash, size) != Bucket(hash, size)
    ensures !e.Matches(hash, key)
  {
  }

  lemma {:induction false} NoMatching<V>(es: seq<Entry<V>>, n: nat, hash: Hash, key: Key)
    requires n <= |es| && forall i :: 0 <= i < |es| ==> es[i].hash != hash
    ensures Matches(es, n, hash, key) == []
  {
    if n > 0 {
      NoMatching(es, n - 1, hash, key);
    }
  }

  lemma OtherBucket<V>(chains: seq<seq<Entry<V>>>, b: nat, hash: Hash, key: Key)
    requires AllHoused(chains) && b < |chains| && b != Bucket(hash, |chains|)
    ensures Matching(chains[b], hash, key) == []
  {
    assert Housed(chains, b);
    NoMatching(chains[b], |chains[b]|, hash, key);
  }

  /** The entries for a hash are all in its bucket. */
  lemma {:induction false} MatchingInBucket<V>(chains: seq<seq<Entry<V>>>, n: nat, hash: Hash, key: Key)
    requires AllHoused(chains) && n <= |chains| && |chains| > 0
    ensures Matching(Upto(chains, n), hash, key)
         == if Bucket(hash, |chains|) < n then Matching(chains[Bucket(hash, |chains|)], hash, key) else []
  {
    hide Matching, Matches, Entry.Matches, AllHoused, Bucket;
    if n == 0 {
      MatchingNone<V>(hash, key);
    } else {
      MatchingInBucket(chains, n - 1, hash, key);
      MatchingConcat(Upto(chains, n - 1), chains[n - 1], hash, key);
      if Bucket(hash, |chains|) != n - 1 {
        OtherBucket(chains, n - 1, hash, key);
      }
    }
  }

  /**
   Moving a table's entries to another size turns the order of the entries for a key around:
   a lookup that found the newest of several afterwards finds the oldest.
   */
  lemma RehashReverses<V>(chains: seq<seq<Entry<V>>>, size: nat, hash: Hash, key: Key)
    requires AllHoused(chains) && |chains| > 0 && size > 0
    ensures var es := Matching(chains[Bucket(hash, |chains|)], hash, key);
      var chains' := Spread(Empty(size), Flatten(chains));
      && Matching(chains'[Bucket(hash, size)], hash, key) == Reverse(es)
      && Found(chains, hash, key) == At(es, 0)
      && Found(chains', hash, key) == if es == [] then null else es[|es| - 1]
  {
    hide Matching, Matches, AllHoused, FirstMatch, Spread, Upto, Bucket, Reverse;
    MatchingInBucket(chains, |chains|, hash, key);
    SpreadReverses(Flatten(chains), size, hash, key);
    FoundIsFirst(chains[Bucket(hash, |chains|)], hash, key);
    FoundIsFirst(Spread(Empty(size), Flatten(chains))[Bucket(hash, size)], hash, key);
  }

  /** A chain without entry i, when the link before it leads past it. */
  lemma CutChain<V>(es: seq<Entry<V>>, i: nat)
    requires i < |es|
    requires forall j :: 0 <= j < |es| && j != i && j + 1 != i ==> es[j].next == At(es, j + 1)
    requires i > 0 ==> es[i - 1].next == At(es, i + 1)
    ensures Chain(if i > 0 then es[0] else At(es, 1), es[..i] + es[i + 1..], 0)
  {
    var es' := es[..i] + es[i + 1..];
    forall j | 0 <= j < |es'| ensures es'[j].next == At(es', j + 1) {
      assert es'[j] == es[if j < i then j else j + 1];
    }
  }

  /** An entry is in one bucket only. */
  lemma OneBucket<V>(chains: seq<seq<Entry<V>>>, b: nat, k: nat)
    requires b < |chains| && k < |chains| && b != k && AllHoused(chains)
    ensures forall i, j :: 0 <= i < |chains[b]| && 0 <= j < |chains[k]| ==> chains[b][i] != chains[k][j]
  {
    assert Housed(chains, b) && Housed(chains, k);
  }

  lemma Onward<T>(a: seq<T>, x: T, b: seq<T>)
    ensures a + [x] + b == a + ([x] + b)
  {
  }

  datatype Iter<V> = Iter(pos: nat, next: Entry?<V>)

  class HTable<V(!new)> {
    var table: seq<Entry?<V>>
    var count: nat
    var growMark: nat
    var shrinkMark: nat
    ghost var chains: seq<seq<Entry<V>>>

    ghost function Entries(): set<Entry<V>>
      reads this`chains
    {
      EntriesOf(chains)
    }

    ghost predicate Linked(b: nat)
      requires |table| == |chains| && b < |table|
      reads this`table, this`chains, Entries()
    {
      Chain(table[b], chains[b], 0)
    }

    ghost predicate Valid()
      reads this`table, this`chains, Entries()
    {
      && |table| == |chains| > 0
      && AllHoused(chains)
      && (forall b :: 0 <= b < |table| ==> Linked(b))
    }

    /** The marks of a table of the initial size, and of the next one. */
    lemma MarkValues()
      requires Marked()
      ensures |table| == 64 ==> growMark == 51 && shrinkMark == 0
      ensures |table| == 256 ==> growMark == 204 && shrinkMark == 40
    {
    }

    /** A table of the initial size. */
    constructor ()
      ensures Valid() && Counted() && Marked() && |table| == INIT_SIZE && Entries() == {}
      ensures chains == Empty(INIT_SIZE)
    {
      table, chains := seq(INIT_SIZE, _ => null), Empty(INIT_SIZE);
      count := 0;
      growMark := INIT_SIZE * RESIZE_THRESHOLD / 100;
      shrinkMark := 0;
      EmptyFlat<V>(INIT_SIZE, INIT_SIZE);
    }

    /** An empty table with its marks. */
    method Alloc(size: nat)
      requires size > 0
      modifies this`table, this`chains, this`growMark, this`shrinkMark
      ensures Valid() && chains == Empty(size) && |table| == size && Entries() == {}
      ensures Marked()
    {
      table, chains := seq(size, _ => null), Empty(size);
      growMark := size * RESIZE_THRESHOLD / 100;
      shrinkMark := if size <= INIT_SIZE then 0 else growMark / (RESIZE_FACTOR + 1);
    }

    /** Links an entry in front of its bucket. */
    method Link(e: Entry<V>)
      requires Valid() && e !in EntriesOf(chains)
      modifies this`table, this`chains, e`next
      ensures Valid() && chains == InFront(old(chains), e) && Entries() == old(Entries()) + {e}
    {
      var b := Bucket(e.hash, |table|);
      FrontHoused(chains, e);
      e.next := table[b];
      table := table[b := e];
      ghost var was := chains;
      chains := InFront(was, e);
      forall k | 0 <= k < |table| ensures Linked(k) {
        assert old(Linked(k));
      }
      FrontEntries(was, e);
    }

    /** Links the entries of a chain of another table, from its head on. */
    method LinkChain(head: Entry?<V>, ghost es: seq<Entry<V>>)
      requires Valid() && Chain(head, es, 0) && Distinct(es) && (forall i :: 0 <= i < |es| ==> es[i] !in Entries())
      modifies this`table, this`chains, es
      ensures Valid() && chains == Spread(old(chains), es) && Entries() == old(Entries()) + SetOf(es)
    {
      var e := head;
      ghost var k := 0;
      while e != null
        invariant Valid() && k <= |es| && Chain(e, es, k)
        invariant chains == Spread(old(chains), es[..k]) && Entries() == old(Entries()) + SetOf(es[..k])
        decreases |es| - k
      {
        var n := e.next;
        Link(e);
        SpreadOne(old(chains), es, k);
        SetOne(es, k);
        k := k + 1;
        e := n;
      }
      assert es[..k] == es;
    }

    /** Links the entries of one bucket of another table. */
    method LinkBucket(table': seq<Entry?<V>>, ghost chains': seq<seq<Entry<V>>>, i: nat)
      requires i < |table'| == |chains'| && Chained(table', chains', i)
      requires Valid() && Entries() == EntriesOf(chains'[..i]) && AllHoused(chains')
      modifies this`table, this`chains, chains'[i]
      ensures Valid() && Entries() == EntriesOf(chains'[..i + 1]) && chains == Spread(old(chains), chains'[i])
      ensures |table| == old(|table|) && Chained(table', chains', i + 1)
    {
      hide AllHoused, Housed, Distinct, Spread;
      HousedAt(chains', i);
      EarlierChains(chains', i);
      LinkChain(table'[i], chains'[i]);
    }

    /** Links the entries of the buckets of another table, bucket after bucket. */
    method LinkTable(table': seq<Entry?<V>>, ghost chains': seq<seq<Entry<V>>>)
      requires Valid() && Entries() == {} && AllHoused(chains') && Chained(table', chains', 0)
      modifies this`table, this`chains, EntriesOf(chains')
      ensures Valid() && Entries() == EntriesOf(chains') && |table| == old(|table|)
      ensures chains == Spread(old(chains), Flatten(chains'))
    {
      assert |table'| == |chains'|;
      hide AllHoused, Chained;
      var i := 0;
      while i < |table'|
        invariant i <= |table'| == |chains'| && Valid() && |table| == old(|table|)
        invariant Chained(table', chains', i)
        invariant Entries() == EntriesOf(chains'[..i])
        invariant chains == Spread(old(chains), Upto(chains', i))
      {
        LinkBucket(table', chains', i);
        SpreadNext(old(chains), chains', i);
        i := i + 1;
      }
      assert chains'[..i] == chains';
    }

    /** Moves every entry into a table of another size. */
    method Rehash(newSize: nat)
      requires Valid() && newSize > 0
      modifies this`table, this`chains, this`growMark, this`shrinkMark, Entries()
      ensures Valid() && Marked() && |table| == newSize && Entries() == old(Entries())
      ensures chains == Spread(Empty(newSize), Flatten(old(chains)))
      ensures multiset(Flatten(chains)) == multiset(Flatten(old(chains)))
      ensures |Flatten(chains)| == |Flatten(old(chains))|
    {
      SpreadFlat(Empty(newSize), Flatten(chains));
      EmptyFlat<V>(newSize, newSize);
      var oldTable := table;
      ghost var oldChains := chains;
      assert Chained(oldTable, oldChains, 0) by {
        forall b | 0 <= b < |table| ensures Chain(table[b], chains[b], 0) {
          assert Linked(b);
        }
      }
      Alloc(newSize);
      LinkTable(oldTable, oldChains);
    }

    /** The number of entries is count. */
    ghost predicate Counted()
      reads this`count, this`chains
    {
      count == |Flatten(chains)|
    }

    /** The marks are those of the size. */
    ghost predicate Marked()
      reads this`table, this`growMark, this`shrinkMark
    {
      && growMark == |table| * RESIZE_THRESHOLD / 100
      && shrinkMark == if |table| <= INIT_SIZE then 0 else growMark / (RESIZE_FACTOR + 1)
    }

    /** Puts an entry in front of its bucket; rehashes below the shrink mark. */
    method Put(e: Entry<V>)
      requires Valid() && Counted() && Marked() && e !in Entries()
      modifies this, Entries(), e
      ensures Valid() && Counted() && Marked() && Entries() == old(Entries()) + {e}
      ensures chains == if old(count) + 1 < old(shrinkMark)
        then Spread(Empty(old(|table|) * RESIZE_FACTOR), Flatten(InFront(old(chains), e)))
        else InFront(old(chains), e)
    {
      FrontFlat(chains, e);
      Link(e);
      count := count + 1;
      if count < shrinkMark {
        Rehash(|table| * RESIZE_FACTOR);
      }
    }

    /** The first entry of the bucket that matches, and the entry whose link leads to it. */
    method FindEntry(hash: Hash, key: Key) returns (pred: Entry?<V>, e: Entry?<V>, ghost i: nat)
      requires Valid()
      ensures var es := chains[Bucket(hash, |table|)];
        i == FirstMatch(es, hash, key) && e == At(es, i) && pred == if i == 0 then null else es[i - 1]
      ensures e == Found(chains, hash, key)
    {
      var b := Bucket(hash, |table|);
      pred, e, i := null, table[b], 0;
      ghost var es := chains[b];
      assert Linked(b);
      assert es[0..] == es;
      while e != null && !e.Matches(hash, key)
        invariant i <= |es| && Chain(e, es, i) && pred == if i == 0 then null else es[i - 1]
        invariant FirstMatch(es, hash, key) == i + FirstMatch(es[i..], hash, key)
        decreases |es| - i
      {
        assert es[i..][1..] == es[i + 1..];
        pred := e;
        e := e.next;
        i := i + 1;
      }
    }

    method Get(hash: Hash, key: Key) returns (e: Entry?<V>)
      requires Valid()
      ensures e == Found(chains, hash, key)
    {
      var pred;
      ghost var i;
      pred, e, i := FindEntry(hash, key);
    }

    /** Unlinks entry i of a bucket, pred being the entry before it, if any. */
    method Unlink(b: nat, pred: Entry?<V>, e: Entry<V>, ghost i: nat)
      requires Valid() && b < |table| && i < |chains[b]| && chains[b][i] == e
      requires if i == 0 then pred == null else pred == chains[b][i - 1]
      modifies this`table, this`chains, e`next, (if pred == null then {} else {pred})`next
      ensures Valid() && chains == Without(old(chains), b, i) && e.next == null
      ensures Entries() == old(Entries()) - {e}
    {
      ghost var es := chains[b];
      assert Linked(b) && Housed(chains, b);
      if pred == null {
        table := table[b := e.next];
      } else {
        pred.next := e.next;
      }
      e.next := null;
      ghost var was := chains;
      chains := Without(was, b, i);
      WithoutHoused(was, b, i);
      assert old(Linked(b));
      CutChain(es, i);
      forall k | 0 <= k < |table| ensures Linked(k) {
        if k != b {
          assert old(Linked(k));
          OneBucket(was, b, k);
        }
      }
    }

    /** Takes the first entry that matches out; rehashes below the shrink mark. */
    method Remove(hash: Hash, key: Key) returns (e: Entry?<V>)
      requires Valid() && Counted() && Marked()
      modifies this, Entries()
      ensures Valid() && Counted() && Marked() && e == Found(old(chains), hash, key)
      ensures e == null ==> chains == old(chains) && table == old(table)
      ensures e != null ==> Entries() == old(Entries()) - {e}
      ensures e != null ==>
        var b := Bucket(hash, |old(chains)|);
        var rest := Without(old(chains), b, FirstMatch(old(chains)[b], hash, key));
        chains == if old(count) <= old(shrinkMark) && old(shrinkMark) > 0
          then Spread(Empty(old(|table|) / RESIZE_FACTOR), Flatten(rest)) else rest
    {
      var pred;
      ghost var i;
      pred, e, i := FindEntry(hash, key);
      if e == null {
        return;
      }
      var b := Bucket(hash, |table|);
      hide Upto, Without, Spread, AllHoused, Bucket, FirstMatch;
      FlatWithout(chains, b, i);
      Unlink(b, pred, e, i);
      count := count - 1;
      if count < shrinkMark {
        Rehash(|table| / RESIZE_FACTOR);
      }
    }

    // ---------- iteration ----------

    /** The iterator is before entry k of the bucket es, and then before bucket pos. */
    ghost predicate Visiting(iter: Iter<V>, es: seq<Entry<V>>, k: nat)
      requires |table| == |chains|
      reads this`table, this`chains, es
    {
      iter.pos <= |table| && k <= |es| && Chain(iter.next, es, k)
    }

    /** What the iterator still has to visit. */
    ghost function Unvisited(iter: Iter<V>, es: seq<Entry<V>>, k: nat): seq<Entry<V>>
      requires iter.pos <= |chains| && k <= |es|
      reads this`chains
    {
      es[k..] + Flat(chains, iter.pos)
    }

    method IterNext(iter: Iter<V>, ghost es: seq<Entry<V>>, ghost k: nat)
      returns (e: Entry?<V>, iter': Iter<V>, ghost es': seq<Entry<V>>, ghost k': nat)
      requires Valid() && Visiting(iter, es, k)
      ensures Valid() && Visiting(iter', es', k')
      ensures e == null ==> Unvisited(iter, es, k) == []
      ensures e != null ==> Unvisited(iter, es, k) == [e] + Unvisited(iter', es', k')
    {
      e, es', k' := iter.next, es, k;
      var pos := iter.pos;
      while true
        invariant pos <= |table| && k' <= |es'| && Chain(e, es', k')
        invariant es'[k'..] + Flat(chains, pos) == Unvisited(iter, es, k)
        decreases |table| - pos
      {
        if e != null {
          iter' := Iter(pos, e.next);
          k' := k' + 1;
          return;
        }
        if pos >= |table| {
          iter' := Iter(pos, null);
          return;
        }
        assert Linked(pos);
        e, es', k' := table[pos], chains[pos], 0;
        pos := pos + 1;
      }
    }

    /** The table iterator passes every entry once. */
    method Walk() returns (walk: seq<Entry<V>>)
      requires Valid()
      ensures walk == Flatten(chains) && Distinct(walk) && SetOf(walk) == Entries()
    {
      FlatOnce(chains, |chains|);
      assert chains[..|chains|] == chains;
      walk := [];
      ghost var es, k, all := [], 0, Flatten(chains);
      var iter, e := Iter(0, null), null;
      FlatIsFlatten(chains, 0);
      while true
        invariant Valid() && Visiting(iter, es, k) && walk + Unvisited(iter, es, k) == all
        decreases |all| - |walk|
      {
        e, iter, es, k := IterNext(iter, es, k);
        if e == null {
          break;
        }
        Onward(walk, e, Unvisited(iter, es, k));
        walk := walk + [e];
      }
    }
  }
}
