/**
 The contents of a tree node as a sequence: the records of a node woven between the
 contents of its children, and what inserting, replacing and splitting do to it.
 */
module Weave {

  ghost function Insert<T>(s: seq<T>, i: nat, x: T): (r: seq<T>)
    requires i <= |s|
    ensures |r| == |s| + 1
  {
    s[..i] + [x] + s[i..]
  }

  /** kids[0] recs[0] kids[1] recs[1] ...: everything before the child that follows. */
  ghost function Before<T>(recs: seq<T>, kids: seq<seq<T>>): seq<T>
    requires |recs| == |kids|
  {
    if |recs| == 0 then []
    else Before(recs[..|recs| - 1], kids[..|recs| - 1]) + kids[|recs| - 1] + [recs[|recs| - 1]]
  }

  /** recs[0] kids[0] recs[1] kids[1] ...: everything after the child that precedes. */
  ghost function After<T>(recs: seq<T>, kids: seq<seq<T>>): seq<T>
    requires |recs| == |kids|
  {
    if |recs| == 0 then [] else [recs[0]] + kids[0] + After(recs[1..], kids[1..])
  }

  /** The in-order contents of a node with records recs and children kids. */
  ghost function Woven<T>(recs: seq<T>, kids: seq<seq<T>>): seq<T>
    requires |kids| == |recs| + 1
  {
    kids[0] + After(recs, kids[1..])
  }

  /** Children and records take turns. */
  lemma WovenInTurn<T>(x: T, y: T, a: seq<T>, b: seq<T>, c: seq<T>)
    ensures Woven([], [a]) == a && Woven([x], [a, b]) == a + [x] + b
    ensures Woven([x, y], [a, b, c]) == a + [x] + b + [y] + c
  {
    assert [x][1..] == [] && [x, y][1..] == [y] && [b, c][1..] == [c];
    assert [a][1..] == [] && [a, b][1..] == [b] && [a, b, c][1..] == [b, c];
    assert After([y], [c]) == [y] + c + After([], []);
  }

  /** A node's contents, seen from its i-th child. */
  lemma {:induction false} WovenAround<T>(recs: seq<T>, kids: seq<seq<T>>, i: nat)
    requires |kids| == |recs| + 1 && i < |kids|
    ensures Woven(recs, kids) == Before(recs[..i], kids[..i]) + kids[i] + After(recs[i..], kids[i + 1..])
  {
    if i == 0 {
      assert recs[0..] == recs;
    } else {
      WovenAround(recs, kids, i - 1);
      assert recs[..i][..i - 1] == recs[..i - 1] && kids[..i][..i - 1] == kids[..i - 1];
      assert recs[i - 1..][1..] == recs[i..] && kids[i..][1..] == kids[i + 1..];
    }
  }

  lemma BeforeNext<T>(recs: seq<T>, kids: seq<seq<T>>, i: nat)
    requires i < |recs| && |recs| <= |kids|
    ensures Before(recs[..i + 1], kids[..i + 1]) == Before(recs[..i], kids[..i]) + kids[i] + [recs[i]]
  {
    assert recs[..i + 1][..i] == recs[..i] && kids[..i + 1][..i] == kids[..i];
  }

  /** Replacing the i-th child by l, m, r replaces its contents by l + [m] + r. */
  lemma WovenGraft<T>(recs: seq<T>, kids: seq<seq<T>>, i: nat, l: seq<T>, m: T, r: seq<T>)
    requires |kids| == |recs| + 1 && i < |kids|
    ensures Woven(recs[..i] + [m] + recs[i..], kids[..i] + [l, r] + kids[i + 1..])
         == Before(recs[..i], kids[..i]) + (l + [m] + r) + After(recs[i..], kids[i + 1..])
  {
    var recs', kids' := recs[..i] + [m] + recs[i..], kids[..i] + [l, r] + kids[i + 1..];
    WovenAround(recs', kids', i);
    assert recs'[..i] == recs[..i] && kids'[..i] == kids[..i];
    assert recs'[i..] == [m] + recs[i..] && kids'[i + 1..] == [r] + kids[i + 1..];
    assert recs'[i..][1..] == recs[i..] && kids'[i + 1..][1..] == kids[i + 1..];
    assert After(recs'[i..], kids'[i + 1..]) == [m] + r + After(recs[i..], kids[i + 1..]);
  }

  /** Cutting a node at its i-th record cuts its contents there. */
  lemma {:induction false} WovenCut<T>(recs: seq<T>, kids: seq<seq<T>>, i: nat)
    requires |kids| == |recs| + 1 && i < |recs|
    ensures Woven(recs, kids)
         == Woven(recs[..i], kids[..i + 1]) + [recs[i]] + Woven(recs[i + 1..], kids[i + 1..])
  {
    WovenAround(recs, kids, i);
    WovenAround(recs[..i], kids[..i + 1], i);
    assert recs[..i][..i] == recs[..i] && kids[..i + 1][..i] == kids[..i];
    assert recs[..i][i..] == [] && kids[..i + 1][i + 1..] == [];
    assert recs[i..][1..] == recs[i + 1..] && kids[i + 1..][1..] == kids[i + 2..];
    assert kids[i + 1..][0] == kids[i + 1];
  }

  /** Where the i-th record and the next child start. */
  lemma WovenOffsets<T>(recs: seq<T>, kids: seq<seq<T>>, i: nat)
    requires |kids| == |recs| + 1 && i < |recs|
    ensures |Before(recs[..i + 1], kids[..i + 1])| == |Before(recs[..i], kids[..i])| + |kids[i]| + 1
         <= |Woven(recs, kids)|
    ensures Woven(recs, kids)[|Before(recs[..i], kids[..i])| + |kids[i]|] == recs[i]
  {
    WovenAround(recs, kids, i + 1);
    assert recs[..i + 1][..i] == recs[..i] && kids[..i + 1][..i] == kids[..i];
    assert Before(recs[..i + 1], kids[..i + 1]) == Before(recs[..i], kids[..i]) + kids[i] + [recs[i]];
  }

  /** Inserting inside the i-th child inserts into the node's contents. */
  lemma InsertInside<T>(b: seq<T>, k: seq<T>, a: seq<T>, g: nat, x: T)
    requires g <= |k|
    ensures b + Insert(k, g, x) + a == Insert(b + k + a, |b| + g, x)
  {
    var s := b + k + a;
    assert s[..|b| + g] == b + k[..g];
    assert s[|b| + g..] == k[g..] + a;
  }

  /** The contents of a leaf (no kids) or of an internal node. */
  ghost function Total<T>(recs: seq<T>, kids: seq<seq<T>>): seq<T>
    requires kids == [] || |kids| == |recs| + 1
  {
    if kids == [] then recs else Woven(recs, kids)
  }

  /** The contents after x, and right of it a child holding side, go in at pos. */
  ghost function Graft<T>(recs: seq<T>, kids: seq<seq<T>>, pos: nat, x: T, side: seq<T>): seq<T>
    requires kids == [] || |kids| == |recs| + 1
    requires pos <= |recs|
  {
    Total(recs[..pos] + [x] + recs[pos..], if kids == [] then [] else kids[..pos + 1] + [side] + kids[pos + 1..])
  }

  /** Element i of s with x put in at pos. */
  function Spliced<T>(s: seq<T>, pos: nat, x: T, i: nat): T
    requires pos <= |s| && i <= |s|
  {
    if i < pos then s[i] else if i == pos then x else s[i - 1]
  }

  lemma SplicedSeq<T>(s: seq<T>, s': seq<T>, pos: nat, x: T)
    requires pos <= |s| && |s'| == |s| + 1
    requires forall i :: 0 <= i <= |s| ==> s'[i] == Spliced(s, pos, x, i)
    ensures s' == s[..pos] + [x] + s[pos..]
  {
  }

  /**
   One level up.  The child at pos held k before x0 went in at g; now it holds l, and m and
   a child holding r still have to go in next to it.  Grafting them is inserting x0.
   */
  lemma GraftInserts<T>(recs: seq<T>, kids: seq<seq<T>>, pos: nat, k: seq<T>, g: nat, x0: T, m: T, r: seq<T>)
    requires |kids| == |recs| + 1 && pos < |kids| && g <= |k|
    requires kids[pos] + [m] + r == Insert(k, g, x0)
    ensures Woven(recs, kids[pos := k]) == Before(recs[..pos], kids[..pos]) + k + After(recs[pos..], kids[pos + 1..])
    ensures Graft(recs, kids, pos, m, r)
         == Insert(Woven(recs, kids[pos := k]), |Before(recs[..pos], kids[..pos])| + g, x0)
  {
    var b, a := Before(recs[..pos], kids[..pos]), After(recs[pos..], kids[pos + 1..]);
    WovenAround(recs, kids[pos := k], pos);
    assert kids[pos := k][..pos] == kids[..pos] && kids[pos := k][pos + 1..] == kids[pos + 1..];
    WovenGraft(recs, kids, pos, kids[pos], m, r);
    assert kids[..pos] + [kids[pos], r] + kids[pos + 1..] == kids[..pos + 1] + [r] + kids[pos + 1..];
    InsertInside(b, k, a, g, x0);
  }

  /** One level up, when nothing is left to graft. */
  lemma WovenInserts<T>(recs: seq<T>, kids: seq<seq<T>>, pos: nat, k: seq<T>, g: nat, x0: T)
    requires |kids| == |recs| + 1 && pos < |kids| && g <= |k|
    requires kids[pos] == Insert(k, g, x0)
    ensures Woven(recs, kids[pos := k]) == Before(recs[..pos], kids[..pos]) + k + After(recs[pos..], kids[pos + 1..])
    ensures Woven(recs, kids) == Insert(Woven(recs, kids[pos := k]), |Before(recs[..pos], kids[..pos])| + g, x0)
  {
    var b, a := Before(recs[..pos], kids[..pos]), After(recs[pos..], kids[pos + 1..]);
    WovenAround(recs, kids[pos := k], pos);
    assert kids[pos := k][..pos] == kids[..pos] && kids[pos := k][pos + 1..] == kids[pos + 1..];
    WovenAround(recs, kids, pos);
    InsertInside(b, k, a, g, x0);
  }
}
