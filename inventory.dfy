/** The escape-plan backpack: up to ten components kept in the first `count`
    slots of a fixed array, three in-place sorts that also report how many
    comparisons they counted, a binary search by name that is only trusted
    while the backpack is known to be ordered by name, an append that refuses
    when the backpack is full, and a discard that closes the gap it leaves. */
module Inventory {
  import opened StringOrder

  /** Number of slots in the backpack. */
  const Capacity := 10

  /** One collected component. */
  datatype Component = Component(name: string, kind: string, priority: int, quantity: int)

  // ----- Orderings -----

  ghost predicate NamesAscending(s: seq<Component>) {
    forall i, j :: 0 <= i < j < |s| ==> LessEq(s[i].name, s[j].name)
  }

  ghost predicate KindsAscending(s: seq<Component>) {
    forall i, j :: 0 <= i < j < |s| ==> LessEq(s[i].kind, s[j].kind)
  }

  ghost predicate PrioritiesAscending(s: seq<Component>) {
    forall i, j :: 0 <= i < j < |s| ==> s[i].priority <= s[j].priority
  }

  /** The names in the backpack, slot by slot. */
  ghost function Names(s: seq<Component>): (names: seq<string>)
    ensures |names| == |s|
    ensures forall i :: 0 <= i < |s| ==> names[i] == s[i].name
  {
    seq(|s|, i requires 0 <= i < |s| => s[i].name)
  }

  // ----- Insertion by kind, on values -----

  /** Places `c` into `sorted` the way one pass of the insertion sort does:
      walking from the right, every element whose kind compares strictly
      greater than `c`'s moves one place to the right. */
  function InsertByKind(sorted: seq<Component>, c: Component): (r: seq<Component>)
    ensures |r| == |sorted| + 1
    decreases |sorted|
  {
    if sorted == [] then [c]
    else if Compare(sorted[|sorted| - 1].kind, c.kind) > 0 then
      InsertByKind(sorted[..|sorted| - 1], c) + [sorted[|sorted| - 1]]
    else sorted + [c]
  }

  /** How many elements that pass moves. */
  function ShiftsToInsert(sorted: seq<Component>, c: Component): (n: nat)
    ensures n <= |sorted|
    decreases |sorted|
  {
    if sorted == [] then 0
    else if Compare(sorted[|sorted| - 1].kind, c.kind) > 0 then
      ShiftsToInsert(sorted[..|sorted| - 1], c) + 1
    else 0
  }

  /** The order the insertion sort by kind leaves: the elements inserted one
      by one, left to right. */
  function KindOrder(s: seq<Component>): (r: seq<Component>)
    ensures |r| == |s|
    decreases |s|
  {
    if s == [] then [] else InsertByKind(KindOrder(s[..|s| - 1]), s[|s| - 1])
  }

  /** The number of shifts the insertion sort by kind performs on `s`. */
  function KindOrderShifts(s: seq<Component>): (n: nat)
    decreases |s|
  {
    if s == [] then 0
    else KindOrderShifts(s[..|s| - 1]) + ShiftsToInsert(KindOrder(s[..|s| - 1]), s[|s| - 1])
  }

  /** The scan from the right stops at the first element (from the right)
      whose kind does not compare greater; the new element goes just after it
      and everything beyond it was shifted once. */
  lemma {:induction false} InsertByKindAt(sorted: seq<Component>, c: Component, m: int)
    requires 0 <= m <= |sorted|
    requires forall k :: m <= k < |sorted| ==> Compare(sorted[k].kind, c.kind) > 0
    requires m == 0 || Compare(sorted[m - 1].kind, c.kind) <= 0
    ensures InsertByKind(sorted, c) == sorted[..m] + [c] + sorted[m..]
    decreases |sorted|
  {
    if m < |sorted| {
      var front := sorted[..|sorted| - 1];
      ScanContinues(sorted, front, c, m);
      InsertByKindAt(front, c, m);
      RejoinAfterLast(sorted, front, c, m);
    } else {
      RejoinAtEnd(sorted, c);
    }
  }

  lemma RejoinAfterLast(sorted: seq<Component>, front: seq<Component>, c: Component, m: int)
    requires 0 <= m < |sorted| && front == sorted[..|sorted| - 1]
    ensures front[..m] + [c] + front[m..] + [sorted[|sorted| - 1]] == sorted[..m] + [c] + sorted[m..]
  {
    assert front[..m] == sorted[..m];
    assert front[m..] + [sorted[|sorted| - 1]] == sorted[m..];
  }

  lemma RejoinAtEnd(sorted: seq<Component>, c: Component)
    ensures sorted + [c] == sorted[..|sorted|] + [c] + sorted[|sorted|..]
  {
    assert sorted[..|sorted|] == sorted;
  }

  /** A listing that agrees with `sorted` up to slot `m`, holds `c` at `m`
      and `sorted` shifted by one after it is what inserting `c` gives. */
  lemma InsertedAt(sorted: seq<Component>, c: Component, m: int, r: seq<Component>)
    requires 0 <= m <= |sorted| && |r| == |sorted| + 1
    requires forall k :: m <= k < |sorted| ==> Compare(sorted[k].kind, c.kind) > 0
    requires m == 0 || Compare(sorted[m - 1].kind, c.kind) <= 0
    requires forall k :: 0 <= k < m ==> r[k] == sorted[k]
    requires r[m] == c
    requires forall k :: m < k < |r| ==> r[k] == sorted[k - 1]
    ensures r == InsertByKind(sorted, c)
    ensures ShiftsToInsert(sorted, c) == |sorted| - m
  {
    InsertByKindAt(sorted, c, m);
    ShiftsToInsertAt(sorted, c, m);
    assert r == sorted[..m] + [c] + sorted[m..];
  }

  /** One round of the insertion sort over a listing whose first `i`
      slots are already in kind order extends that order by one slot. */
  lemma RoundAdvances(start: seq<Component>, i: int)
    requires 0 < i < |start|
    ensures var prev := KindOrder(start[..i]) + start[i..];
      InsertByKind(prev[..i], prev[i]) + prev[i + 1..] == KindOrder(start[..i + 1]) + start[i + 1..] &&
      KindOrderShifts(start[..i]) + ShiftsToInsert(prev[..i], prev[i]) == KindOrderShifts(start[..i + 1])
  {
    var prev := KindOrder(start[..i]) + start[i..];
    assert prev[..i] == KindOrder(start[..i]);
    assert prev[i] == start[i];
    assert prev[i + 1..] == start[i + 1..];
    assert start[..i + 1][..i] == start[..i];
  }

  lemma PrefixOfJoin(a: seq<Component>, b: seq<Component>)
    ensures (a + b)[..|a|] == a
  {
  }

  /** The array part-way through one insertion round over slots `0 .. i`:
      slots up to `j + 1` as they were, slots `j + 2 .. i` holding what was
      one place to their left, and the rest untouched. */
  ghost function MidShift(start: seq<Component>, j: int, i: int): (r: seq<Component>)
    requires -1 <= j < i < |start|
    ensures |r| == |start|
    ensures forall k :: 0 <= k <= j + 1 ==> r[k] == start[k]
    ensures forall k :: j + 1 < k <= i ==> r[k] == start[k - 1]
    ensures forall k :: i < k < |start| ==> r[k] == start[k]
  {
    start[..j + 2] + start[j + 1..i] + start[i + 1..]
  }

  /** Copying slot `j` into slot `j + 1` moves the round one place left. */
  lemma ShiftStep(start: seq<Component>, j: int, i: int)
    requires 0 <= j < i < |start|
    ensures MidShift(start, j, i)[j + 1 := MidShift(start, j, i)[j]] == MidShift(start, j - 1, i)
  {
    var before := MidShift(start, j, i);
    var after := MidShift(start, j - 1, i);
    forall k | 0 <= k < |start|
      ensures before[j + 1 := before[j]][k] == after[k]
    {
      if k <= j + 1 {
      } else if k <= i {
        assert after[k] == start[k - 1];
        assert before[k] == start[k - 1];
      } else {
        assert after[k] == start[k] && before[k] == start[k];
      }
    }
  }

  /** The round's final write puts the lifted element in the gap, which
      completes `InsertByKind` on the slots before it. */
  lemma RoundResult(start: seq<Component>, sorted: seq<Component>, j: int, i: int)
    requires -1 <= j < i < |start| && sorted == start[..i]
    requires forall k :: j + 1 <= k < i ==> Compare(sorted[k].kind, start[i].kind) > 0
    requires j == -1 || Compare(sorted[j].kind, start[i].kind) <= 0
    ensures MidShift(start, j, i)[j + 1 := start[i]] == InsertByKind(sorted, start[i]) + start[i + 1..]
    ensures ShiftsToInsert(sorted, start[i]) == i - 1 - j
  {
    var r := MidShift(start, j, i)[j + 1 := start[i]];
    RoundLayout(start, j, i, sorted, r, r[..i + 1]);
    InsertedAt(sorted, start[i], j + 1, r[..i + 1]);
  }

  /** Where each element sits after the round's final write. */
  lemma RoundLayout(start: seq<Component>, j: int, i: int, sorted: seq<Component>,
                    r: seq<Component>, head: seq<Component>)
    requires -1 <= j < i < |start| && sorted == start[..i]
    requires r == MidShift(start, j, i)[j + 1 := start[i]] && head == r[..i + 1]
    ensures |head| == |sorted| + 1
    ensures forall k :: 0 <= k < j + 1 ==> head[k] == sorted[k]
    ensures head[j + 1] == start[i]
    ensures forall k :: j + 1 < k < i + 1 ==> head[k] == sorted[k - 1]
    ensures r == head + start[i + 1..]
  {
    var tail := start[i + 1..];
    forall k | 0 <= k < |r|
      ensures r[k] == (head + tail)[k]
    {
      if k > i {
        assert r[k] == MidShift(start, j, i)[k] == start[k] == tail[k - i - 1];
      }
    }
  }

  /** The elements the scan walks past are exactly the ones it shifts. */
  lemma {:induction false} ShiftsToInsertAt(sorted: seq<Component>, c: Component, m: int)
    requires 0 <= m <= |sorted|
    requires forall k :: m <= k < |sorted| ==> Compare(sorted[k].kind, c.kind) > 0
    requires m == 0 || Compare(sorted[m - 1].kind, c.kind) <= 0
    ensures ShiftsToInsert(sorted, c) == |sorted| - m
    decreases |sorted|
  {
    if m < |sorted| {
      var front := sorted[..|sorted| - 1];
      ScanContinues(sorted, front, c, m);
      ShiftsToInsertAt(front, c, m);
    }
  }

  /** One step of the scan: the last element moves, and the scan goes on
      over the rest under the same conditions. */
  lemma ScanContinues(sorted: seq<Component>, front: seq<Component>, c: Component, m: int)
    requires 0 <= m < |sorted| && front == sorted[..|sorted| - 1]
    requires forall k :: m <= k < |sorted| ==> Compare(sorted[k].kind, c.kind) > 0
    requires m == 0 || Compare(sorted[m - 1].kind, c.kind) <= 0
    ensures InsertByKind(sorted, c) == InsertByKind(front, c) + [sorted[|sorted| - 1]]
    ensures ShiftsToInsert(sorted, c) == ShiftsToInsert(front, c) + 1
    ensures forall k :: m <= k < |front| ==> Compare(front[k].kind, c.kind) > 0
    ensures m == 0 || Compare(front[m - 1].kind, c.kind) <= 0
  {
    var last := sorted[|sorted| - 1];
    assert Compare(last.kind, c.kind) > 0;
    assert sorted == front + [last];
    forall k | m <= k < |front|
      ensures Compare(front[k].kind, c.kind) > 0
    {
      assert front[k] == sorted[k];
    }
    if m > 0 {
      assert front[m - 1] == sorted[m - 1];
    }
  }

  lemma {:induction false} InsertByKindKeepsPieces(sorted: seq<Component>, c: Component)
    ensures multiset(InsertByKind(sorted, c)) == multiset(sorted) + multiset{c}
    decreases |sorted|
  {
    if sorted != [] && Compare(sorted[|sorted| - 1].kind, c.kind) > 0 {
      var front := sorted[..|sorted| - 1];
      InsertByKindKeepsPieces(front, c);
      assert sorted == front + [sorted[|sorted| - 1]];
    }
  }

  lemma {:induction false} InsertByKindKeepsOrder(sorted: seq<Component>, c: Component)
    requires KindsAscending(sorted)
    ensures KindsAscending(InsertByKind(sorted, c))
    decreases |sorted|
  {
    if sorted == [] {
    } else if Compare(sorted[|sorted| - 1].kind, c.kind) > 0 {
      var front := sorted[..|sorted| - 1];
      InsertByKindKeepsOrder(front, c);
      InsertBeforeLast(sorted, front, c);
      AppendKeepsKindOrder(InsertByKind(front, c), sorted[|sorted| - 1]);
    } else {
      LastIsLargest(sorted, c);
      AppendKeepsKindOrder(sorted, c);
    }
  }

  lemma AppendKeepsKindOrder(s: seq<Component>, x: Component)
    requires KindsAscending(s)
    requires forall i :: 0 <= i < |s| ==> LessEq(s[i].kind, x.kind)
    ensures KindsAscending(s + [x])
  {
    var r := s + [x];
    forall i, j | 0 <= i < j < |r|
      ensures LessEq(r[i].kind, r[j].kind)
    {
      if j < |s| {
        assert r[i] == s[i] && r[j] == s[j];
      }
    }
  }

  /** When `c` goes before the last element, everything ahead of that element
      (including `c`) has a kind no greater than it. */
  lemma InsertBeforeLast(sorted: seq<Component>, front: seq<Component>, c: Component)
    requires sorted != [] && KindsAscending(sorted) && front == sorted[..|sorted| - 1]
    requires Compare(sorted[|sorted| - 1].kind, c.kind) > 0
    ensures forall i :: 0 <= i < |InsertByKind(front, c)| ==>
      LessEq(InsertByKind(front, c)[i].kind, sorted[|sorted| - 1].kind)
  {
    var last := sorted[|sorted| - 1];
    var inner := InsertByKind(front, c);
    InsertByKindKeepsPieces(front, c);
    forall i | 0 <= i < |inner|
      ensures LessEq(inner[i].kind, last.kind)
    {
      assert inner[i] in multiset(inner);
      if inner[i] == c {
        NotLessIsLessEq(c.kind, last.kind);
      } else {
        assert inner[i] in multiset(front);
        var k :| 0 <= k < |front| && front[k] == inner[i];
        assert sorted[k] == inner[i];
      }
    }
  }

  /** When the scan stops at once, every kind present is no greater than `c`'s. */
  lemma LastIsLargest(sorted: seq<Component>, c: Component)
    requires sorted != [] && KindsAscending(sorted)
    requires Compare(sorted[|sorted| - 1].kind, c.kind) <= 0
    ensures forall i :: 0 <= i < |sorted| ==> LessEq(sorted[i].kind, c.kind)
  {
    forall i | 0 <= i < |sorted|
      ensures LessEq(sorted[i].kind, c.kind)
    {
      if i < |sorted| - 1 {
        LessEqTransitive(sorted[i].kind, sorted[|sorted| - 1].kind, c.kind);
      }
    }
  }

  /** The insertion sort by kind yields the same components... */
  lemma {:induction false} KindOrderKeepsPieces(s: seq<Component>)
    ensures multiset(KindOrder(s)) == multiset(s)
    decreases |s|
  {
    if s != [] {
      var front := s[..|s| - 1];
      var x := s[|s| - 1];
      calc {
        multiset(KindOrder(s));
        multiset(InsertByKind(KindOrder(front), x));
        { InsertByKindKeepsPieces(KindOrder(front), x); }
        multiset(KindOrder(front)) + multiset{x};
        { KindOrderKeepsPieces(front); }
        multiset(front) + multiset{x};
        { assert s == front + [x]; }
        multiset(s);
      }
    }
  }

  /** ...ascending by kind. */
  lemma {:induction false} KindOrderIsSorted(s: seq<Component>)
    ensures KindsAscending(KindOrder(s))
    decreases |s|
  {
    if s != [] {
      var front := s[..|s| - 1];
      KindOrderIsSorted(front);
      InsertByKindKeepsOrder(KindOrder(front), s[|s| - 1]);
    }
  }

  // ----- Stability -----

  /** The components of kind `k`, in their order of appearance. */
  function OfKind(s: seq<Component>, k: string): (r: seq<Component>)
    decreases |s|
  {
    if s == [] then []
    else OfKind(s[..|s| - 1], k) + (if s[|s| - 1].kind == k then [s[|s| - 1]] else [])
  }

  lemma {:induction false} OfKindAppend(a: seq<Component>, b: seq<Component>, k: string)
    ensures OfKind(a + b, k) == OfKind(a, k) + OfKind(b, k)
    decreases |b|
  {
    if b != [] {
      OfKindAppend(a, b[..|b| - 1], k);
      assert (a + b)[..|a + b| - 1] == a + b[..|b| - 1];
      assert (a + b)[|a + b| - 1] == b[|b| - 1];
    } else {
      assert a + b == a;
    }
  }

  /** Inserting `c` adds it after every component of its own kind. */
  lemma {:induction false} InsertByKindIsStable(sorted: seq<Component>, c: Component, k: string)
    ensures OfKind(InsertByKind(sorted, c), k) == OfKind(sorted, k) + (if c.kind == k then [c] else [])
    decreases |sorted|
  {
    if sorted == [] {
    } else if Compare(sorted[|sorted| - 1].kind, c.kind) > 0 {
      var front := sorted[..|sorted| - 1];
      var last := sorted[|sorted| - 1];
      InsertByKindIsStable(front, c, k);
      OfKindAppend(InsertByKind(front, c), [last], k);
      OfKindAppend(front, [last], k);
      assert front + [last] == sorted;
      CompareZeroIffEqual(last.kind, c.kind);
    } else {
      OfKindAppend(sorted, [c], k);
    }
  }

  /** Stability: among components of one kind, the sort keeps their order. */
  lemma {:induction false} KindOrderIsStable(s: seq<Component>, k: string)
    ensures OfKind(KindOrder(s), k) == OfKind(s, k)
    decreases |s|
  {
    if s != [] {
      KindOrderIsStable(s[..|s| - 1], k);
      InsertByKindIsStable(KindOrder(s[..|s| - 1]), s[|s| - 1], k);
    }
  }

  // ----- What the insertion sort's counter counts -----

  /** How many elements of `s` have a kind comparing greater than `c`'s. */
  function CountAbove(s: seq<Component>, c: Component): (n: nat)
    ensures n <= |s|
    decreases |s|
  {
    if s == [] then 0
    else CountAbove(s[..|s| - 1], c) + (if Compare(s[|s| - 1].kind, c.kind) > 0 then 1 else 0)
  }

  /** Pairs `i < j` whose kinds are out of order. */
  function Inversions(s: seq<Component>): (n: nat)
    decreases |s|
  {
    if s == [] then 0 else Inversions(s[..|s| - 1]) + CountAbove(s[..|s| - 1], s[|s| - 1])
  }

  lemma {:induction false} CountAboveAppend(a: seq<Component>, b: seq<Component>, c: Component)
    ensures CountAbove(a + b, c) == CountAbove(a, c) + CountAbove(b, c)
    decreases |b|
  {
    if b != [] {
      CountAboveAppend(a, b[..|b| - 1], c);
      assert (a + b)[..|a + b| - 1] == a + b[..|b| - 1];
      assert (a + b)[|a + b| - 1] == b[|b| - 1];
    } else {
      assert a + b == a;
    }
  }

  lemma CountAboveRemove(b: seq<Component>, i: int, c: Component)
    requires 0 <= i < |b|
    ensures CountAbove(b, c) == CountAbove(b[..i] + b[i + 1..], c) + CountAbove([b[i]], c)
  {
    assert b == b[..i] + ([b[i]] + b[i + 1..]);
    CountAboveAppend(b[..i], [b[i]] + b[i + 1..], c);
    CountAboveAppend([b[i]], b[i + 1..], c);
    CountAboveAppend(b[..i], b[i + 1..], c);
  }

  /** The count depends only on which components there are. */
  lemma {:induction false} CountAboveIgnoresOrder(a: seq<Component>, b: seq<Component>, c: Component)
    requires multiset(a) == multiset(b)
    ensures CountAbove(a, c) == CountAbove(b, c)
    decreases |a|
  {
    if a != [] {
      var x := a[|a| - 1];
      var front := a[..|a| - 1];
      assert x in multiset(b);
      var i :| 0 <= i < |b| && b[i] == x;
      var rest := b[..i] + b[i + 1..];
      SameAfterRemoval(a, b, i);
      CountAboveIgnoresOrder(front, rest, c);
      CountAboveRemove(b, i, c);
      assert a == front + [x];
      CountAboveAppend(front, [x], c);
    }
  }

  lemma SameAfterRemoval(a: seq<Component>, b: seq<Component>, i: int)
    requires a != [] && multiset(a) == multiset(b)
    requires 0 <= i < |b| && b[i] == a[|a| - 1]
    ensures multiset(a[..|a| - 1]) == multiset(b[..i] + b[i + 1..])
  {
    var x := b[i];
    assert a == a[..|a| - 1] + [x];
    assert b == b[..i] + [x] + b[i + 1..];
    assert multiset(a[..|a| - 1]) == multiset(a) - multiset{x};
    assert multiset(b[..i] + b[i + 1..]) == multiset(b) - multiset{x};
  }

  /** On a kind-ascending listing the pass moves exactly the elements whose
      kind is greater. */
  lemma {:induction false} ShiftsAreCountAbove(sorted: seq<Component>, c: Component)
    requires KindsAscending(sorted)
    ensures ShiftsToInsert(sorted, c) == CountAbove(sorted, c)
    decreases |sorted|
  {
    if sorted != [] {
      var front := sorted[..|sorted| - 1];
      var last := sorted[|sorted| - 1];
      if Compare(last.kind, c.kind) > 0 {
        ShiftsAreCountAbove(front, c);
      } else {
        NoneAbove(sorted, c);
      }
    }
  }

  lemma {:induction false} NoneAbove(sorted: seq<Component>, c: Component)
    requires sorted != [] && KindsAscending(sorted)
    requires Compare(sorted[|sorted| - 1].kind, c.kind) <= 0
    ensures CountAbove(sorted, c) == 0
    decreases |sorted|
  {
    var front := sorted[..|sorted| - 1];
    if front != [] {
      LessEqTransitive(front[|front| - 1].kind, sorted[|sorted| - 1].kind, c.kind);
      NoneAbove(front, c);
    }
  }

  /** The counter of the insertion sort by kind ends at the number of
      out-of-order pairs of its input: it counts shifts, not comparisons. */
  lemma {:induction false} ShiftsAreInversions(s: seq<Component>)
    ensures KindOrderShifts(s) == Inversions(s)
    decreases |s|
  {
    if s != [] {
      var front := s[..|s| - 1];
      ShiftsAreInversions(front);
      KindOrderIsSorted(front);
      KindOrderKeepsPieces(front);
      ShiftsAreCountAbove(KindOrder(front), s[|s| - 1]);
      CountAboveIgnoresOrder(KindOrder(front), front, s[|s| - 1]);
    }
  }

  // ----- Discarding by name, on values -----

  /** The listing without its first component called `name`, if any. */
  function WithoutFirst(s: seq<Component>, name: string): (r: seq<Component>)
    ensures |r| == if IndexOfName(s, name) < |s| then |s| - 1 else |s|
    decreases |s|
  {
    if s == [] then []
    else if s[0].name == name then s[1..]
    else [s[0]] + WithoutFirst(s[1..], name)
  }

  lemma {:induction false} WithoutFirstAt(s: seq<Component>, name: string, i: int)
    requires 0 <= i < |s| && s[i].name == name
    requires forall k :: 0 <= k < i ==> s[k].name != name
    ensures WithoutFirst(s, name) == s[..i] + s[i + 1..]
    decreases i
  {
    if i > 0 {
      WithoutFirstAt(s[1..], name, i - 1);
      assert s[1..][..i - 1] == s[1..i];
      assert s[1..][i..] == s[i + 1..];
      assert s[..i] == [s[0]] + s[1..i];
    }
  }

  lemma {:induction false} WithoutFirstAbsent(s: seq<Component>, name: string)
    requires name !in Names(s)
    ensures WithoutFirst(s, name) == s
    decreases |s|
  {
    if s != [] {
      assert s[0].name == Names(s)[0];
      assert Names(s[1..]) == Names(s)[1..];
      WithoutFirstAbsent(s[1..], name);
    }
  }

  /** Where the scan for `name` stops: the first slot holding it, or the
      length when there is none. */
  function IndexOfName(s: seq<Component>, name: string): (i: nat)
    ensures i <= |s|
    ensures i < |s| ==> s[i].name == name
    ensures forall k :: 0 <= k < i ==> s[k].name != name
    decreases |s|
  {
    if s == [] then 0
    else if s[0].name == name then 0
    else IndexOfName(s[1..], name) + 1
  }

  /** Discarding one component leaves a name-ascending listing ascending, so
      the "sorted by name" flag may stay as it was. */
  lemma WithoutFirstKeepsNameOrder(s: seq<Component>, name: string)
    requires NamesAscending(s)
    ensures NamesAscending(WithoutFirst(s, name))
  {
    var i := IndexOfName(s, name);
    if i < |s| {
      WithoutFirstAt(s, name, i);
      var r := s[..i] + s[i + 1..];
      forall a, b | 0 <= a < b < |r|
        ensures LessEq(r[a].name, r[b].name)
      {
        var a' := if a < i then a else a + 1;
        var b' := if b < i then b else b + 1;
        assert r[a] == s[a'] && r[b] == s[b'];
      }
    } else {
      assert name !in Names(s);
      WithoutFirstAbsent(s, name);
    }
  }

  /** From slot `b` on the listing is ascending by name, and no name before
      slot `b` is greater than one from `b` on. */
  ghost predicate SettledFrom(s: seq<Component>, b: int) {
    forall k, l :: 0 <= k < l < |s| && b <= l ==> LessEq(s[k].name, s[l].name)
  }

  /** A pass that only permuted the unsettled prefix and left its largest
      name at the end of it settles one more slot. */
  lemma Settle(before: seq<Component>, after: seq<Component>, bound: int)
    requires 2 <= bound <= |before| == |after|
    requires SettledFrom(before, bound)
    requires forall k :: bound <= k < |after| ==> after[k] == before[k]
    requires multiset(after[..bound]) == multiset(before[..bound])
    requires forall k :: 0 <= k < bound - 1 ==> LessEq(after[k].name, after[bound - 1].name)
    ensures SettledFrom(after, bound - 1)
    ensures multiset(after) == multiset(before)
  {
    assert after == after[..bound] + after[bound..];
    assert before == before[..bound] + before[bound..];
    assert after[bound..] == before[bound..];
    forall k, l | 0 <= k < l < |after| && bound - 1 <= l
      ensures LessEq(after[k].name, after[l].name)
    {
      if l >= bound {
        if k >= bound {
          assert after[k] == before[k];
        } else {
          assert after[k] in multiset(before[..bound]);
          var k' :| 0 <= k' < bound && before[..bound][k'] == after[k];
          assert LessEq(before[k'].name, before[l].name);
        }
      }
    }
  }

  lemma SettledIsAscending(s: seq<Component>, b: int)
    requires b <= 1 && SettledFrom(s, b)
    ensures NamesAscending(s)
  {
  }

  /** Comparisons counted by the first `passes` passes of the bubble sort
      over `n` slots: pass `p` visits `n - 1 - p` adjacent pairs. */
  function PairsVisited(n: int, passes: nat): int
  {
    if passes == 0 then 0 else PairsVisited(n, passes - 1) + (n - passes)
  }

  /** A full bubble sort over `n` slots makes n(n-1)/2 comparisons. */
  lemma EveryPairVisited(n: nat)
    requires n > 0
    ensures 2 * PairsVisited(n, n - 1) == n * (n - 1)
  {
    PairsVisitedClosedForm(n, n - 1);
  }

  lemma {:induction false} PairsVisitedClosedForm(n: int, passes: nat)
    ensures 2 * PairsVisited(n, passes) == passes * (2 * n - 1 - passes)
  {
    if passes > 0 {
      PairsVisitedClosedForm(n, passes - 1);
    }
  }

  /** The first `b` slots hold the smallest priorities, in ascending order. */
  ghost predicate PlacedUpTo(s: seq<Component>, b: int) {
    forall k, l :: 0 <= k < l < |s| && k < b ==> s[k].priority <= s[l].priority
  }

  lemma PlacedIsAscending(s: seq<Component>, b: int)
    requires PlacedUpTo(s, b) && b >= |s| - 1
    ensures PrioritiesAscending(s)
  {
  }

  /** Exchanging the smallest remaining priority into slot `i` places one
      more slot and keeps the same components. */
  lemma SelectStep(s: seq<Component>, i: int, m: int)
    requires 0 <= i <= m < |s| && PlacedUpTo(s, i)
    requires forall k :: i <= k < |s| ==> s[m].priority <= s[k].priority
    ensures PlacedUpTo(s[i := s[m]][m := s[i]], i + 1)
    ensures multiset(s[i := s[m]][m := s[i]]) == multiset(s)
  {
    var r := s[i := s[m]][m := s[i]];
    forall k, l | 0 <= k < l < |r| && k < i + 1
      ensures r[k].priority <= r[l].priority
    {
      if k < i {
        assert r[k] == s[k];
        if l == m {
          assert r[l] == s[i];
        } else if l == i {
          assert r[l] == s[m];
        } else {
          assert r[l] == s[l];
        }
      } else {
        assert r[k] == s[m];
        if l == m {
          assert r[l] == s[i];
        } else {
          assert r[l] == s[l];
        }
      }
    }
  }

  // ----- The backpack -----

  class Backpack {
    /** The ten slots; only the first `count` hold components. */
    const items: array<Component>
    var count: int
    /** Set by the bubble sort, cleared by the other sorts and by an append. */
    var sortedByName: bool

    ghost predicate Valid()
      reads this, items
    {
      items.Length == Capacity && 0 <= count <= Capacity &&
      (sortedByName ==> NamesAscending(items[..count]))
    }

    ghost function Contents(): (s: seq<Component>)
      reads this, items
      requires Valid()
      ensures |s| == count
    {
      items[..count]
    }

    /** An empty backpack, not known to be sorted. */
    constructor ()
      ensures Valid() && Contents() == [] && !sortedByName
      ensures fresh(items)
    {
      items := new Component[Capacity](_ => Component("", "", 0, 0));
      count := 0;
      sortedByName := false;
    }

    /** Appends `c` when a slot is free; earlier slots stay as they were and
        the name order is no longer assumed. */
    method Add(c: Component) returns (added: bool)
      requires Valid()
      modifies this`count, this`sortedByName, items
      ensures Valid()
      ensures added <==> old(count) < Capacity
      ensures added ==> Contents() == old(Contents()) + [c] && !sortedByName
      ensures !added ==> count == old(count) && sortedByName == old(sortedByName) && items[..] == old(items[..])
    {
      if count >= Capacity {
        return false;
      }
      items[count] := c;
      count := count + 1;
      sortedByName := false;
      added := true;
    }

    /** Removes the first component called `name`, closing the gap; with no
        such component, or an empty backpack, nothing changes. */
    method Discard(name: string) returns (removed: bool)
      requires Valid()
      modifies this`count, items
      ensures Valid() && sortedByName == old(sortedByName)
      ensures removed <==> name in Names(old(Contents()))
      ensures Contents() == WithoutFirst(old(Contents()), name)
    {
      if count == 0 {
        return false;
      }
      ghost var before := items[..count];
      var i := 0;
      while i < count
        invariant 0 <= i <= count && count == old(count)
        invariant items[..count] == before
        invariant forall k :: 0 <= k < i ==> before[k].name != name
      {
        CompareZeroIffEqual(items[i].name, name);
        if Compare(items[i].name, name) == 0 {
          CloseGap(i);
          WithoutFirstAt(before, name, i);
          if sortedByName {
            WithoutFirstKeepsNameOrder(before, name);
          }
          assert Names(before)[i] == name;
          return true;
        }
        i := i + 1;
      }
      WithoutFirstAbsent(before, name);
      removed := false;
    }

    /** Shifts the components after slot `i` one place to the left, dropping
        the one in slot `i`; the others keep their order. */
    method CloseGap(i: int)
      requires Valid() && 0 <= i < count
      modifies this`count, items
      ensures items.Length == Capacity && count == old(count) - 1
      ensures items[..count] == old(items[..count])[..i] + old(items[..count])[i + 1..]
    {
      ghost var before := items[..count];
      var j := i;
      while j < count - 1
        invariant i <= j <= count - 1 && count == |before|
        invariant forall k :: 0 <= k < i ==> items[k] == before[k]
        invariant forall k :: i <= k < j ==> items[k] == before[k + 1]
        invariant forall k :: j < k < count ==> items[k] == before[k]
      {
        items[j] := items[j + 1];
        j := j + 1;
      }
      count := count - 1;
      assert items[..count] == before[..i] + before[i + 1..];
    }

    /** Binary search by name. Without the "sorted by name" flag it answers
        -1 at once; with it, it answers a slot holding `name` when one
        exists and -1 exactly when none does. */
    method FindByName(name: string) returns (index: int)
      requires Valid()
      ensures !sortedByName ==> index == -1
      ensures sortedByName && index != -1 ==> 0 <= index < count && items[index].name == name
      ensures sortedByName && index == -1 ==> name !in Names(Contents())
    {
      if !sortedByName {
        return -1;
      }
      var low, high := 0, count - 1;
      while low <= high
        invariant 0 <= low && high < count && low <= high + 1
        invariant forall k :: 0 <= k < low ==> Less(items[k].name, name)
        invariant forall k :: high < k < count ==> Less(name, items[k].name)
      {
        var middle := (low + high) / 2;
        var order := Compare(items[middle].name, name);
        if order == 0 {
          CompareZeroIffEqual(items[middle].name, name);
          return middle;
        } else if order < 0 {
          forall k | 0 <= k <= middle
            ensures Less(items[k].name, name)
          {
            if k < middle {
              LessEqLess(items[k].name, items[middle].name, name);
            }
          }
          low := middle + 1;
        } else {
          CompareFlips(items[middle].name, name);
          forall k | middle <= k < count
            ensures Less(name, items[k].name)
          {
            if middle < k {
              LessLessEq(name, items[middle].name, items[k].name);
            }
          }
          high := middle - 1;
        }
      }
      forall k | 0 <= k < count
        ensures items[k].name != name
      {
        Trichotomy(items[k].name, name);
      }
      index := -1;
    }

    /** Bubble sort by name. Every pass counts one comparison per adjacent
        pair it visits, so `n` components cost n(n-1)/2 comparisons; the
        result is the same components, ascending by name, and the flag says so. */
    method BubbleSortByName() returns (comparisons: int)
      requires Valid()
      modifies this`sortedByName, items
      ensures Valid() && sortedByName
      ensures NamesAscending(Contents())
      ensures multiset(Contents()) == multiset(old(Contents()))
      ensures 2 * comparisons == count * (count - 1)
    {
      comparisons := 0;
      var n := count;
      var i := 0;
      while i < n - 1
        invariant 0 <= i && (i == 0 || i <= n - 1)
        invariant multiset(items[..n]) == multiset(old(items[..n]))
        invariant SettledFrom(items[..n], n - i)
        invariant comparisons == PairsVisited(n, i)
      {
        var visited := BubblePass(n - i);
        comparisons := comparisons + visited;
        i := i + 1;
      }
      if n > 0 {
        EveryPairVisited(n);
      }
      SettledIsAscending(items[..n], n - i);
      sortedByName := true;
    }

    /** One pass of the bubble sort over slots `0 .. bound-1`: it visits
        `bound - 1` adjacent pairs and carries the largest name to slot
        `bound - 1`, so one more slot at the end is settled. */
    method BubblePass(bound: int) returns (visited: int)
      requires items.Length == Capacity && 2 <= bound <= count <= Capacity
      requires SettledFrom(items[..count], bound)
      modifies items
      ensures visited == bound - 1
      ensures multiset(items[..count]) == multiset(old(items[..count]))
      ensures SettledFrom(items[..count], bound - 1)
    {
      visited := 0;
      var j := 0;
      while j < bound - 1
        invariant 0 <= j <= bound - 1 && visited == j
        invariant forall k :: 0 <= k < j ==> LessEq(items[k].name, items[j].name)
        invariant forall k :: bound <= k < count ==> items[k] == old(items[k])
        invariant multiset(items[..bound]) == multiset(old(items[..bound]))
      {
        visited := visited + 1;
        BubbleStep(j, bound);
        j := j + 1;
      }
      assert items[..count][..bound] == items[..bound];
      assert old(items[..count])[..bound] == old(items[..bound]);
      Settle(old(items[..count]), items[..count], bound);
    }

    /** One comparison of the bubble pass: orders slots `j` and `j + 1` so
        that slot `j + 1` holds the largest name seen so far in the pass. */
    method BubbleStep(j: int, bound: int)
      requires items.Length == Capacity && 0 <= j && j + 1 < bound <= count <= Capacity
      requires forall k :: 0 <= k < j ==> LessEq(items[k].name, items[j].name)
      modifies items
      ensures forall k :: 0 <= k < j + 1 ==> LessEq(items[k].name, items[j + 1].name)
      ensures forall k :: bound <= k < count ==> items[k] == old(items[k])
      ensures multiset(items[..bound]) == multiset(old(items[..bound]))
    {
      if Compare(items[j].name, items[j + 1].name) > 0 {
        CompareFlips(items[j].name, items[j + 1].name);
        items[j], items[j + 1] := items[j + 1], items[j];
        assert items[..bound] == old(items[..bound])[j := old(items[j + 1])][j + 1 := old(items[j])];
      } else {
        forall k | 0 <= k < j
          ensures LessEq(items[k].name, items[j + 1].name)
        {
          LessEqTransitive(items[k].name, items[j].name, items[j + 1].name);
        }
      }
      CompareZeroIffEqual(items[j + 1].name, items[j + 1].name);
    }

    /** Insertion sort by kind. Each component in turn is lifted out and the
        ones before it whose kind compares strictly greater move one place
        right; the counter counts those moves. The result is `KindOrder` of
        the input (see `KindOrderIsSorted`, `KindOrderKeepsPieces`, `KindOrderIsStable` and
        `ShiftsAreInversions`), and the name order is no longer assumed. */
    method InsertionSortByKind() returns (comparisons: int)
      requires Valid()
      modifies this`sortedByName, items
      ensures Valid() && !sortedByName
      ensures Contents() == KindOrder(old(Contents()))
      ensures comparisons == KindOrderShifts(old(Contents()))
    {
      ghost var start := items[..];
      comparisons := 0;
      var n := count;
      if n > 0 {
        assert items[..] == KindOrder(start[..1]) + start[1..] by {
          assert start[..1][..0] == [];
          assert start == start[..1] + start[1..];
        }
      }
      var i := 1;
      while i < n
        invariant 1 <= i && (n == 0 || i <= n) && n == count && items.Length == Capacity
        invariant n > 0 ==> items[..] == KindOrder(start[..i]) + start[i..]
        invariant comparisons == if n == 0 then 0 else KindOrderShifts(start[..i])
      {
        var shifted := InsertNext(i);
        comparisons := comparisons + shifted;
        RoundAdvances(start, i);
        i := i + 1;
      }
      assert old(Contents()) == start[..n];
      if n > 0 {
        PrefixOfJoin(KindOrder(start[..n]), start[n..]);
      }
      sortedByName := false;
    }

    /** Copies slot `j` one place right during an insertion round. */
    method MoveRight(ghost start: seq<Component>, j: int, i: int)
      requires 0 <= j < i < |start| == items.Length
      requires items[..] == MidShift(start, j, i)
      modifies items
      ensures items[..] == MidShift(start, j - 1, i)
    {
      ShiftStep(start, j, i);
      items[j + 1] := items[j];
    }

    /** One round of the insertion sort: slot `i` is inserted into the slots
        before it, as `InsertByKind` describes, and the moves are counted. */
    method InsertNext(i: int) returns (shifted: int)
      requires items.Length == Capacity && 1 <= i < count <= Capacity
      modifies items
      ensures items[..] == InsertByKind(old(items[..i]), old(items[i])) + old(items[i + 1..])
      ensures shifted == ShiftsToInsert(old(items[..i]), old(items[i]))
    {
      ghost var start := items[..];
      ghost var sorted := items[..i];
      var key := items[i];
      assert key == start[i];
      var j := i - 1;
      shifted := 0;
      while j >= 0 && Compare(items[j].kind, key.kind) > 0
        invariant -1 <= j <= i - 1 && shifted == i - 1 - j
        invariant items[..] == MidShift(start, j, i)
        invariant forall k :: j + 1 <= k < i ==> Compare(sorted[k].kind, key.kind) > 0
      {
        assert items[j] == sorted[j];
        shifted := shifted + 1;
        MoveRight(start, j, i);
        j := j - 1;
      }
      assert j >= 0 ==> items[j] == sorted[j];
      ghost var mid := items[..];
      items[j + 1] := key;
      assert items[..] == mid[j + 1 := key];
      RoundResult(start, sorted, j, i);
    }

    /** Selection sort by priority. Pass `i` scans the slots after `i` for
        the first smallest priority, counting one comparison per slot
        scanned, and exchanges it into slot `i`. The result is the same
        components, ascending by priority, after n(n-1)/2 comparisons, and
        the name order is no longer assumed. */
    method SelectionSortByPriority() returns (comparisons: int)
      requires Valid()
      modifies this`sortedByName, items
      ensures Valid() && !sortedByName
      ensures PrioritiesAscending(Contents())
      ensures multiset(Contents()) == multiset(old(Contents()))
      ensures 2 * comparisons == count * (count - 1)
    {
      comparisons := 0;
      var n := count;
      var i := 0;
      while i < n - 1
        invariant 0 <= i && (i == 0 || i <= n - 1)
        invariant multiset(items[..n]) == multiset(old(items[..n]))
        invariant PlacedUpTo(items[..n], i)
        invariant comparisons == PairsVisited(n, i)
      {
        var scanned := SelectPass(i);
        comparisons := comparisons + scanned;
        i := i + 1;
      }
      if n > 0 {
        EveryPairVisited(n);
      }
      PlacedIsAscending(items[..n], i);
      sortedByName := false;
    }

    /** One pass of the selection sort: the smallest remaining priority is
        exchanged into slot `i`. */
    method SelectPass(i: int) returns (scanned: int)
      requires 0 <= i < count <= items.Length && PlacedUpTo(items[..count], i)
      modifies items
      ensures scanned == count - 1 - i
      ensures PlacedUpTo(items[..count], i + 1)
      ensures multiset(items[..count]) == multiset(old(items[..count]))
    {
      var smallest;
      smallest, scanned := SmallestFrom(i);
      ghost var before := items[..count];
      Exchange(i, smallest);
      SelectStep(before, i, smallest);
    }

    /** The scan of one selection pass: the first slot from `i` on holding
        the smallest priority, and how many slots after `i` were compared. */
    method SmallestFrom(i: int) returns (smallest: int, scanned: int)
      requires 0 <= i < count <= items.Length
      ensures i <= smallest < count && scanned == count - 1 - i
      ensures forall k :: i <= k < count ==> items[smallest].priority <= items[k].priority
      ensures forall k :: i <= k < smallest ==> items[smallest].priority < items[k].priority
    {
      smallest, scanned := i, 0;
      var j := i + 1;
      while j < count
        invariant i < j <= count && i <= smallest < j && scanned == j - 1 - i
        invariant forall k :: i <= k < j ==> items[smallest].priority <= items[k].priority
        invariant forall k :: i <= k < smallest ==> items[smallest].priority < items[k].priority
      {
        scanned := scanned + 1;
        if items[j].priority < items[smallest].priority {
          smallest := j;
        }
        j := j + 1;
      }
    }

    /** Exchanges two occupied slots. */
    method Exchange(a: int, b: int)
      requires 0 <= a < count <= items.Length && 0 <= b < count
      modifies items
      ensures items[..count] == old(items[..count])[a := old(items[b])][b := old(items[a])]
    {
      items[a], items[b] := items[b], items[a];
    }
  }
}
