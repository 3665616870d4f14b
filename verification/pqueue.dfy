/** The priority queue: a binary heap in a growable array. */
module PQueue {
  import opened Wrappers

  /** What the queue asks of its comparator. */
  ghost predicate TotalPreorder<T(!new)>(cmp: (T, T) -> int)
  {
    && (forall x, y :: cmp(x, y) <= 0 <==> cmp(y, x) >= 0)
    && (forall x, y, z :: cmp(x, y) <= 0 && cmp(y, z) <= 0 ==> cmp(x, z) <= 0)
  }

  function Parent(i: nat): nat
    requires i > 0
  {
    (i - 1) / 2
  }

  /** Slot i is not before its parent. */
  ghost predicate InOrder<T>(cmp: (T, T) -> int, arr: seq<T>, i: nat)
    requires i < |arr|
  {
    i > 0 ==> cmp(arr[Parent(i)], arr[i]) <= 0
  }

  ghost predicate HeapOrder<T>(cmp: (T, T) -> int, arr: seq<T>)
  {
    forall i :: 0 <= i < |arr| ==> InOrder(cmp, arr, i)
  }

  /** Every slot but `hole` is in order, and the children of `hole` are not before its parent. */
  ghost predicate Rising<T>(cmp: (T, T) -> int, arr: seq<T>, hole: nat)
  {
    && (forall i :: 0 <= i < |arr| && i != hole ==> InOrder(cmp, arr, i))
    && Bridged(cmp, arr, hole)
  }

  /** Every slot but the children of `hole` is in order, and those are not before its parent. */
  ghost predicate Sinking<T>(cmp: (T, T) -> int, arr: seq<T>, hole: nat)
  {
    && (forall i :: 0 <= i < |arr| && (i > 0 ==> Parent(i) != hole) ==> InOrder(cmp, arr, i))
    && Bridged(cmp, arr, hole)
  }

  ghost predicate Bridged<T>(cmp: (T, T) -> int, arr: seq<T>, hole: nat)
  {
    hole > 0 ==>
      Parent(hole) < |arr| ==>
      forall i :: 0 < i < |arr| && Parent(i) == hole ==> cmp(arr[Parent(hole)], arr[i]) <= 0
  }

  /** The first slot of a heap holds a minimum. */
  lemma {:induction false} TopIsMinimum<T(!new)>(cmp: (T, T) -> int, arr: seq<T>, i: nat)
    requires TotalPreorder(cmp) && HeapOrder(cmp, arr) && i < |arr|
    ensures cmp(arr[0], arr[i]) <= 0
    decreases i
  {
    if i != 0 {
      TopIsMinimum(cmp, arr, Parent(i));
      assert InOrder(cmp, arr, i);
    }
  }

  function Swapped<T>(arr: seq<T>, i: nat, j: nat): (r: seq<T>)
    requires i < |arr| && j < |arr|
    ensures |r| == |arr| && multiset(r) == multiset(arr)
    ensures r[i] == arr[j] && r[j] == arr[i]
    ensures forall k :: 0 <= k < |arr| && k != i && k != j ==> r[k] == arr[k]
  {
    arr[i := arr[j]][j := arr[i]]
  }

  /** One step of sifting up. */
  lemma SwapUp<T(!new)>(cmp: (T, T) -> int, arr: seq<T>, i: nat)
    requires TotalPreorder(cmp) && 0 < i < |arr| && Rising(cmp, arr, i) && !InOrder(cmp, arr, i)
    ensures Rising(cmp, Swapped(arr, Parent(i), i), Parent(i))
  {
    var j := Parent(i);
    var r := Swapped(arr, j, i);
    forall k | 0 <= k < |r| && k != j ensures InOrder(cmp, r, k) {
      assert InOrder(cmp, arr, k) || k == i;
    }
    assert InOrder(cmp, arr, j);
    forall k | 0 < k < |r| && Parent(k) == j ensures j > 0 ==> cmp(r[Parent(j)], r[k]) <= 0 {
      assert k != i ==> InOrder(cmp, arr, k);
    }
  }

  /** One step of sifting down, to a child that is not after the other one. */
  lemma SwapDown<T(!new)>(cmp: (T, T) -> int, arr: seq<T>, i: nat, j: nat)
    requires TotalPreorder(cmp) && 0 < j < |arr| && Parent(j) == i && Sinking(cmp, arr, i) && !InOrder(cmp, arr, j)
    requires forall k :: 0 < k < |arr| && Parent(k) == i ==> cmp(arr[j], arr[k]) <= 0
    ensures Sinking(cmp, Swapped(arr, i, j), j)
  {
    var r := Swapped(arr, i, j);
    forall k | 0 <= k < |r| && (k > 0 ==> Parent(k) != j) ensures InOrder(cmp, r, k) {
      assert (k > 0 && Parent(k) == i) || InOrder(cmp, arr, k);
      if k == i && i > 0 {
        assert cmp(arr[Parent(i)], arr[j]) <= 0;
      }
    }
    forall k | 0 < k < |r| && Parent(k) == j ensures cmp(r[Parent(j)], r[k]) <= 0 {
      assert InOrder(cmp, arr, k);
    }
  }

  /** The child that sifting down goes to. */
  function LesserChild<T(!new)>(cmp: (T, T) -> int, arr: seq<T>, i: nat): (j: nat)
    requires TotalPreorder(cmp) && i * 2 + 1 < |arr|
    ensures 0 < j < |arr| && Parent(j) == i
    ensures forall k :: 0 < k < |arr| && Parent(k) == i ==> cmp(arr[j], arr[k]) <= 0
  {
    var j := i * 2 + 1;
    assert forall k :: 0 < k && Parent(k) == i ==> k == j || k == j + 1;
    assert cmp(arr[j], arr[j]) <= 0 <==> cmp(arr[j], arr[j]) >= 0;
    if j + 1 < |arr| && cmp(arr[j], arr[j + 1]) >= 0 then
      assert cmp(arr[j + 1], arr[j + 1]) <= 0 <==> cmp(arr[j + 1], arr[j + 1]) >= 0;
      j + 1
    else j
  }

  /** Sifting down may stop at a slot without children or one not after its lesser child. */
  lemma Sunk<T(!new)>(cmp: (T, T) -> int, arr: seq<T>, i: nat)
    requires TotalPreorder(cmp) && Sinking(cmp, arr, i)
    requires i * 2 + 1 < |arr| ==> cmp(arr[i], arr[LesserChild(cmp, arr, i)]) <= 0
    ensures HeapOrder(cmp, arr)
  {
    forall k | 0 <= k < |arr| ensures InOrder(cmp, arr, k) {
      if k > 0 && Parent(k) == i {
        assert k == i * 2 + 1 || k == i * 2 + 2;
        assert cmp(arr[LesserChild(cmp, arr, i)], arr[k]) <= 0;
      }
    }
  }

  lemma TopIsLeast<T(!new)>(cmp: (T, T) -> int, arr: seq<T>)
    requires TotalPreorder(cmp) && HeapOrder(cmp, arr) && arr != []
    ensures forall x :: x in multiset(arr) ==> cmp(arr[0], x) <= 0
  {
    forall x | x in arr ensures cmp(arr[0], x) <= 0 {
      var i :| 0 <= i < |arr| && arr[i] == x;
      TopIsMinimum(cmp, arr, i);
    }
  }

  /** The last element in the place of the first one: only the top may be out of order. */
  lemma LastOnTop<T(!new)>(cmp: (T, T) -> int, arr: seq<T>)
    requires HeapOrder(cmp, arr) && |arr| > 1
    ensures var arr' := arr[..|arr| - 1][0 := arr[|arr| - 1]];
      Sinking(cmp, arr', 0) && multiset(arr') + multiset{arr[0]} == multiset(arr)
  {
    var n := |arr| - 1;
    var arr' := arr[..n][0 := arr[n]];
    forall k | 0 < k < n && Parent(k) != 0 ensures InOrder(cmp, arr', k) {
      assert InOrder(cmp, arr, k);
    }
    assert arr == [arr[0]] + arr[1..n] + [arr[n]];
    assert arr' == [arr[n]] + arr[1..n];
  }

  class PQueue<T(!new, ==)> {
    const cmp: (T, T) -> int
    var arr: seq<T>

    ghost predicate Valid()
      reads this
    {
      TotalPreorder(cmp) && HeapOrder(cmp, arr)
    }

    constructor (cmp: (T, T) -> int)
      requires TotalPreorder(cmp)
      ensures Valid() && arr == [] && this.cmp == cmp
    {
      this.cmp, arr := cmp, [];
    }

    /** Adds an element at the end and sifts it up. */
    method Put(data: T)
      requires Valid()
      modifies this
      ensures Valid() && multiset(arr) == old(multiset(arr)) + multiset{data}
    {
      arr := arr + [data];
      var i: nat := |arr| - 1;
      forall k | 0 <= k < i ensures InOrder(cmp, arr, k) {
        assert InOrder(cmp, old(arr), k);
      }
      while i != 0
        invariant i < |arr| && Rising(cmp, arr, i) && multiset(arr) == old(multiset(arr)) + multiset{data}
        decreases i
      {
        var j: nat := (i - 1) / 2;
        if cmp(arr[j], arr[i]) <= 0 {
          break;
        }
        SwapUp(cmp, arr, i);
        arr := Swapped(arr, j, i);
        i := j;
      }
    }

    /** Takes a minimum out: the last element moves to the top and sifts down. */
    method Get() returns (data: Option<T>)
      requires Valid()
      modifies this
      ensures Valid()
      ensures data == None <==> old(arr) == []
      ensures data == None ==> arr == []
      ensures data.Some? ==> multiset(arr) + multiset{data.value} == old(multiset(arr))
      ensures data.Some? ==> forall x :: x in multiset(arr) ==> cmp(data.value, x) <= 0
    {
      if |arr| == 0 {
        return None;
      }
      data := Some(arr[0]);
      TopIsLeast(cmp, arr);
      ghost var before := arr;
      var last := arr[|arr| - 1];
      arr := arr[..|arr| - 1];
      if |arr| == 0 {
        assert before == [data.value];
        return;
      }
      arr := arr[0 := last];
      LastOnTop(cmp, before);
      SiftDown();
    }

    /** Restores the heap order when only the first slot may be too large. */
    method SiftDown()
      requires TotalPreorder(cmp) && Sinking(cmp, arr, 0)
      modifies this
      ensures HeapOrder(cmp, arr) && multiset(arr) == old(multiset(arr))
    {
      var i: nat := 0;
      while i * 2 + 1 < |arr|
        invariant Sinking(cmp, arr, i) && multiset(arr) == old(multiset(arr))
        decreases |arr| - i
      {
        var j := LesserChild(cmp, arr, i);
        if cmp(arr[i], arr[j]) <= 0 {
          break;
        }
        SwapDown(cmp, arr, i, j);
        arr := Swapped(arr, i, j);
        i := j;
      }
      Sunk(cmp, arr, i);
    }

    function Peek(): (data: Option<T>)
      requires Valid()
      reads this
      ensures data == None <==> arr == []
      ensures data.Some? ==> data.value in arr && forall x :: x in arr ==> cmp(data.value, x) <= 0
    {
      if |arr| == 0 then None
      else
        (assert forall x :: x in arr ==> cmp(arr[0], x) <= 0 by {
          forall x | x in arr ensures cmp(arr[0], x) <= 0 {
            var i :| 0 <= i < |arr| && arr[i] == x;
            TopIsMinimum(cmp, arr, i);
          }
        }
        Some(arr[0]))
    }
  }

  ghost predicate Ascending<T>(cmp: (T, T) -> int, s: seq<T>)
  {
    forall i, j :: 0 <= i < j < |s| ==> cmp(s[i], s[j]) <= 0
  }

  /** No element of s is after one of rest. */
  ghost predicate Below<T>(cmp: (T, T) -> int, s: seq<T>, rest: multiset<T>)
  {
    forall x :: x in rest ==> forall i :: 0 <= i < |s| ==> cmp(s[i], x) <= 0
  }

  lemma TakeNext<T(!new)>(cmp: (T, T) -> int, s: seq<T>, x: T, rest: multiset<T>)
    requires Ascending(cmp, s) && Below(cmp, s, rest + multiset{x})
    requires forall y :: y in rest ==> cmp(x, y) <= 0
    ensures Ascending(cmp, s + [x]) && Below(cmp, s + [x], rest)
  {
    assert x in rest + multiset{x};
    forall y | y in rest ensures forall i :: 0 <= i < |s + [x]| ==> cmp((s + [x])[i], y) <= 0 {
      assert y in rest + multiset{x};
    }
  }

  /** Takes everything out, one minimum after the other. */
  method Drain<T(!new, ==)>(pq: PQueue<T>) returns (sorted: seq<T>)
    requires pq.Valid()
    modifies pq
    ensures pq.Valid() && pq.arr == [] && multiset(sorted) == old(multiset(pq.arr)) && Ascending(pq.cmp, sorted)
  {
    sorted := [];
    while true
      invariant pq.Valid() && multiset(sorted) + multiset(pq.arr) == old(multiset(pq.arr))
      invariant Ascending(pq.cmp, sorted) && Below(pq.cmp, sorted, multiset(pq.arr))
      decreases |multiset(pq.arr)|
    {
      var data := pq.Get();
      if data == None {
        break;
      }
      TakeNext(pq.cmp, sorted, data.value, multiset(pq.arr));
      sorted := sorted + [data.value];
    }
  }
}
