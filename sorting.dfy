/** `messages.sort((a, b) => new Date(a.timestamp) - new Date(b.timestamp))` and
    its newest-first mirror image. `Array.prototype.sort` is stable, so the
    result is the unique sorted rearrangement that keeps messages with equal
    timestamps in their previous order; `SortByTime` defines it as an insertion
    sort and `SortInPlace` computes it on an array. */
module Sorting {
  import opened Messages

  datatype Order = Ascending | Descending

  /** `a` may stay before `b`: the comparator does not return a positive number. */
  predicate InOrder(a: Message, b: Message, order: Order) {
    match order
    case Ascending => a.timestamp <= b.timestamp
    case Descending => a.timestamp >= b.timestamp
  }

  ghost predicate Sorted(s: seq<Message>, order: Order) {
    forall i, j :: 0 <= i < j < |s| ==> InOrder(s[i], s[j], order)
  }

  /** The messages of `s` whose timestamp is `t`, in their order in `s`. */
  function WithTime(s: seq<Message>, t: int): (r: seq<Message>)
    ensures forall i :: 0 <= i < |r| ==> r[i].timestamp == t
  {
    if s == [] then []
    else WithTime(s[..|s| - 1], t) + (if s[|s| - 1].timestamp == t then [s[|s| - 1]] else [])
  }

  /** Places `x` after every trailing element that may precede it. */
  function Insert(s: seq<Message>, x: Message, order: Order): (r: seq<Message>)
    ensures |r| == |s| + 1
  {
    if s == [] || InOrder(s[|s| - 1], x, order) then s + [x]
    else Insert(s[..|s| - 1], x, order) + [s[|s| - 1]]
  }

  /** The stable sort of `s` by timestamp. */
  function SortByTime(s: seq<Message>, order: Order): (r: seq<Message>)
    ensures |r| == |s|
  {
    if s == [] then []
    else Insert(SortByTime(s[..|s| - 1], order), s[|s| - 1], order)
  }

  lemma {:induction false} InsertPermutes(s: seq<Message>, x: Message, order: Order)
    ensures multiset(Insert(s, x, order)) == multiset(s) + multiset{x}
  {
    if s != [] && !InOrder(s[|s| - 1], x, order) {
      InsertPermutes(s[..|s| - 1], x, order);
      MultisetSnoc(s);
    }
  }

  lemma MultisetSnoc(s: seq<Message>)
    requires s != []
    ensures multiset(s) == multiset(s[..|s| - 1]) + multiset{s[|s| - 1]}
  {
    assert s == s[..|s| - 1] + [s[|s| - 1]];
  }

  /** The sort rearranges without adding or losing anything. */
  lemma {:induction false} SortByTimePermutes(s: seq<Message>, order: Order)
    ensures multiset(SortByTime(s, order)) == multiset(s)
  {
    if s != [] {
      var init := s[..|s| - 1];
      SortByTimePermutes(init, order);
      InsertPermutes(SortByTime(init, order), s[|s| - 1], order);
      MultisetSnoc(s);
    }
  }

  lemma {:induction false} InsertSorted(s: seq<Message>, x: Message, order: Order)
    requires Sorted(s, order)
    ensures Sorted(Insert(s, x, order), order)
  {
    if s != [] && !InOrder(s[|s| - 1], x, order) {
      var init, last := s[..|s| - 1], s[|s| - 1];
      InsertSorted(init, x, order);
      var r := Insert(init, x, order);
      InsertPermutes(init, x, order);
      // every element of `r` is `x` or comes from `init`, and may precede `last`
      forall k | 0 <= k < |r| ensures InOrder(r[k], last, order) {
        assert r[k] in multiset(init) + multiset{x};
        if r[k] != x {
          assert r[k] in init;
        }
      }
    }
  }

  /** The result is ordered by timestamp. */
  lemma {:induction false} SortByTimeSorted(s: seq<Message>, order: Order)
    ensures Sorted(SortByTime(s, order), order)
  {
    if s != [] {
      SortByTimeSorted(s[..|s| - 1], order);
      InsertSorted(SortByTime(s[..|s| - 1], order), s[|s| - 1], order);
    }
  }

  lemma {:induction false} WithTimeConcat(a: seq<Message>, b: seq<Message>, t: int)
    ensures WithTime(a + b, t) == WithTime(a, t) + WithTime(b, t)
    decreases |b|
  {
    if b == [] {
      assert a + b == a;
    } else {
      assert (a + b)[..|a + b| - 1] == a + b[..|b| - 1];
      WithTimeConcat(a, b[..|b| - 1], t);
    }
  }

  lemma {:induction false} InsertStable(s: seq<Message>, x: Message, order: Order, t: int)
    ensures WithTime(Insert(s, x, order), t) ==
      WithTime(s, t) + (if x.timestamp == t then [x] else [])
  {
    if s == [] || InOrder(s[|s| - 1], x, order) {
      WithTimeConcat(s, [x], t);
      WithTimeSingle(x, t);
    } else {
      var init, last := s[..|s| - 1], s[|s| - 1];
      var ri := Insert(init, x, order);
      var xs := if x.timestamp == t then [x] else [];
      var ls := if last.timestamp == t then [last] else [];
      InsertStable(init, x, order, t);
      WithTimeSingle(x, t);
      WithTimeSingle(last, t);
      WithTimeConcat(ri, [last], t);
      assert WithTime(Insert(s, x, order), t) == WithTime(init, t) + xs + ls;
      assert WithTime(s, t) == WithTime(init, t) + ls;
      // `last` is strictly out of order with `x`, so their timestamps differ
      OutOfOrderDiffer(last, x, order);
      SwapEither(WithTime(init, t), xs, ls);
    }
  }

  lemma OutOfOrderDiffer(a: Message, b: Message, order: Order)
    requires !InOrder(a, b, order)
    ensures a.timestamp != b.timestamp
  {
  }

  lemma SwapEither<T>(w: seq<T>, xs: seq<T>, ys: seq<T>)
    requires xs == [] || ys == []
    ensures w + xs + ys == w + ys + xs
  {
    if xs == [] {
      assert w + xs == w;
    } else {
      assert w + ys == w;
    }
  }

  lemma WithTimeSingle(x: Message, t: int)
    ensures WithTime([x], t) == (if x.timestamp == t then [x] else [])
  {
    assert [x][..0] == [];
  }

  /** Stability: messages with equal timestamps keep their relative order. */
  lemma {:induction false} SortByTimeStable(s: seq<Message>, order: Order, t: int)
    ensures WithTime(SortByTime(s, order), t) == WithTime(s, t)
  {
    if s != [] {
      var init, last := s[..|s| - 1], s[|s| - 1];
      SortByTimeStable(init, order, t);
      InsertStable(SortByTime(init, order), last, order, t);
    }
  }

  /** An already sorted list is left as it is. */
  lemma {:induction false} SortByTimeOfSorted(s: seq<Message>, order: Order)
    requires Sorted(s, order)
    ensures SortByTime(s, order) == s
  {
    if s != [] {
      var init := s[..|s| - 1];
      SortByTimeOfSorted(init, order);
      assert s == init + [s[|s| - 1]];
    }
  }

  /** `a.sort(comparator)` in place: an insertion sort that shifts each element
      left past the elements the comparator puts after it. */
  method SortInPlace(a: array<Message>, order: Order)
    modifies a
    ensures a[..] == SortByTime(old(a[..]), order)
  {
    ghost var s0 := a[..];
    var i := 0;
    assert s0[..0] == [] && s0[0..] == s0;
    while i < a.Length
      invariant 0 <= i <= a.Length
      invariant a[..] == SortByTime(s0[..i], order) + s0[i..]
    {
      ghost var before := a[..];
      InsertLast(a, i, order);
      SortStep(s0, i, before, a[..], order);
      i := i + 1;
    }
    assert s0[..a.Length] == s0;
  }

  /** After inserting `s0[i]` into the sorted prefix, the first `i + 1`
      elements are sorted and the rest is untouched. */
  lemma SortStep(s0: seq<Message>, i: nat, before: seq<Message>, after: seq<Message>, order: Order)
    requires i < |s0| && |before| == |s0| && |after| == |s0|
    requires before == SortByTime(s0[..i], order) + s0[i..]
    requires after[..i + 1] == Insert(before[..i], before[i], order)
    requires after[i + 1..] == before[i + 1..]
    ensures after == SortByTime(s0[..i + 1], order) + s0[i + 1..]
  {
    assert before[..i] == SortByTime(s0[..i], order);
    assert before[i] == s0[i];
    assert s0[..i + 1][..i] == s0[..i];
    assert before[i + 1..] == s0[i + 1..];
    assert after == after[..i + 1] + after[i + 1..];
  }

  /** One step of the insertion sort: `a[i]` joins the sorted prefix `a[..i]`. */
  method InsertLast(a: array<Message>, i: nat, order: Order)
    requires i < a.Length
    modifies a
    ensures a[..i + 1] == Insert(old(a[..])[..i], old(a[..])[i], order)
    ensures a[i + 1..] == old(a[..])[i + 1..]
  {
    ghost var s := a[..];
    var x := a[i];
    var j := ShiftUp(a, i, x, order);
    a[j] := x;
    Reassemble(a[..], s, i, j, order);
  }

  /** Moves the elements of `a[..i]` that may not precede `x` one place up,
      from the right, and returns the place left free. */
  method ShiftUp(a: array<Message>, i: nat, x: Message, order: Order) returns (j: nat)
    requires i < a.Length
    modifies a
    ensures j <= i
    ensures forall k :: 0 <= k < j ==> a[k] == old(a[k])
    ensures forall k :: j < k <= i ==> a[k] == old(a[k - 1])
    ensures forall k :: i < k < a.Length ==> a[k] == old(a[k])
    ensures j == 0 || InOrder(old(a[j - 1]), x, order)
    ensures forall k :: j <= k < i ==> !InOrder(old(a[k]), x, order)
  {
    j := i;
    while j > 0 && !InOrder(a[j - 1], x, order)
      invariant 0 <= j <= i
      invariant forall k :: 0 <= k < j ==> a[k] == old(a[k])
      invariant forall k :: j < k <= i ==> a[k] == old(a[k - 1])
      invariant forall k :: i < k < a.Length ==> a[k] == old(a[k])
      invariant forall k :: j <= k < i ==> !InOrder(old(a[k]), x, order)
    {
      a[j] := a[j - 1];
      j := j - 1;
    }
  }

  /** The array after the shifting loop, read as a sequence: `x` sits at the
      stopping place `j`, the greater elements moved one up. */
  lemma Reassemble(r: seq<Message>, s: seq<Message>, i: nat, j: nat, order: Order)
    requires |r| == |s| && j <= i < |s| && r[j] == s[i]
    requires forall k :: 0 <= k < j ==> r[k] == s[k]
    requires forall k :: j < k <= i ==> r[k] == s[k - 1]
    requires forall k :: i < k < |r| ==> r[k] == s[k]
    requires j == 0 || InOrder(s[j - 1], s[i], order)
    requires forall k :: j <= k < i ==> !InOrder(s[k], s[i], order)
    ensures r[..i + 1] == Insert(s[..i], s[i], order)
    ensures r[i + 1..] == s[i + 1..]
  {
    var sorted := s[..i];
    InsertAfterRun(sorted, j, s[i], order);
    InsertStop(sorted, j, s[i], order);
    assert r[..i + 1] == sorted[..j] + [s[i]] + sorted[j..];
  }

  /** Inserting `x` past a run of elements that may not precede it puts it
      before the run. */
  lemma {:induction false} InsertAfterRun(sorted: seq<Message>, j: nat, x: Message, order: Order)
    requires j <= |sorted|
    requires forall k :: j <= k < |sorted| ==> !InOrder(sorted[k], x, order)
    ensures Insert(sorted, x, order) == Insert(sorted[..j], x, order) + sorted[j..]
    decreases |sorted| - j
  {
    if j < |sorted| {
      InsertAfterRun(sorted, j + 1, x, order);
      InsertShift(sorted, j + 1, x, order);
    } else {
      assert sorted[..j] == sorted && sorted[j..] == [];
    }
  }

  lemma InsertShift(sorted: seq<Message>, j: nat, x: Message, order: Order)
    requires 0 < j <= |sorted| && !InOrder(sorted[j - 1], x, order)
    ensures Insert(sorted[..j], x, order) + sorted[j..] ==
            Insert(sorted[..j - 1], x, order) + sorted[j - 1..]
  {
    assert sorted[..j][..j - 1] == sorted[..j - 1];
    assert sorted[j - 1..] == [sorted[j - 1]] + sorted[j..];
  }

  lemma InsertStop(sorted: seq<Message>, j: nat, x: Message, order: Order)
    requires j <= |sorted| && (j == 0 || InOrder(sorted[j - 1], x, order))
    ensures Insert(sorted[..j], x, order) == sorted[..j] + [x]
  {
  }

  /** Sorts a copy of `s`, as the scripts do on the array they hold. */
  method SortCopy(s: seq<Message>, order: Order) returns (r: seq<Message>)
    ensures r == SortByTime(s, order)
  {
    var a := new Message[|s|](i requires 0 <= i < |s| => s[i]);
    assert a[..] == s;
    SortInPlace(a, order);
    r := a[..];
  }
}
