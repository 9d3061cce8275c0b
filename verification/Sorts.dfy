/** dlib's array sorts: insertion sort, heapsort on a range that need not begin at index 0, and
    quicksort, which calls heapsort on short ranges and when its depth budget is used up. */
module Sorts {
  import opened Arith
  import opened Ordering

  function Exchanged<T>(s: seq<T>, i: int, j: int): (t: seq<T>)
    requires 0 <= i < |s| && 0 <= j < |s|
    ensures |t| == |s|
  {
    s[i := s[j]][j := s[i]]
  }

  /** Exchanges two elements of a range. */
  method Exchange<T>(a: array<T>, i: nat, j: nat, ghost lo: nat, ghost hi: nat)
    requires lo <= i < hi <= a.Length && lo <= j < hi
    modifies a
    ensures a[..] == Exchanged(old(a[..]), i, j)
    ensures Rearranged(old(a[..]), a[..], lo, hi)
  {
    SwapRearranges(a[..], i, j, lo, hi);
    a[i], a[j] := a[j], a[i];
  }

  // ---- insertion sort ----

  /** The sum of the numbers up to k. */
  function Triangle(k: nat): (r: nat)
    ensures 2 * r == k * (k + 1)
  {
    if k == 0 then 0 else Triangle(k - 1) + k
  }

  /** s[lo..hi] is sorted, but the element at position pos may be less than those before it. */
  ghost predicate SortedBut<T(!new)>(comp: (T, T) -> bool, s: seq<T>, lo: int, hi: int, pos: int)
    requires 0 <= lo && hi <= |s|
  {
    forall i, j :: lo <= i < j < hi && j != pos ==> !comp(s[j], s[i])
  }

  lemma SinkStarts<T(!new)>(comp: (T, T) -> bool, s: seq<T>, lo: int, i: int)
    requires 0 <= lo <= i < |s| && Sorted(comp, s, lo, i)
    ensures SortedBut(comp, s, lo, i + 1, i)
  {
  }

  lemma SinkStep<T(!new)>(comp: (T, T) -> bool, s: seq<T>, lo: int, hi: int, pos: int)
    requires StrictWeak(comp) && 0 <= lo < pos < hi <= |s| && SortedBut(comp, s, lo, hi, pos)
    requires comp(s[pos], s[pos - 1])
    ensures SortedBut(comp, Exchanged(s, pos, pos - 1), lo, hi, pos - 1)
  {
  }

  lemma SinkEnds<T(!new)>(comp: (T, T) -> bool, s: seq<T>, lo: int, hi: int, pos: int)
    requires StrictWeak(comp) && 0 <= lo <= pos < hi <= |s| && SortedBut(comp, s, lo, hi, pos)
    requires pos > lo ==> !comp(s[pos], s[pos - 1])
    ensures Sorted(comp, s, lo, hi)
  {
    forall i, j | lo <= i < j < hi
      ensures !comp(s[j], s[i])
    {
      if j == pos && i < pos - 1 {
        assert !comp(s[pos - 1], s[i]);
      }
    }
  }

  /** Moves a[i] down to its place among the sorted elements before it. */
  method Sink<T(!new)>(a: array<T>, left: nat, i: nat, comp: (T, T) -> bool) returns (ghost count: nat)
    requires StrictWeak(comp) && left < i < a.Length && Sorted(comp, a[..], left, i)
    modifies a
    ensures Rearranged(old(a[..]), a[..], left, i + 1) && Sorted(comp, a[..], left, i + 1)
    ensures count <= i - left
  {
    hide StrictWeak, Exchanged, Rearranged, Sorted, SortedBut;
    count := 0;
    ghost var was := a[..];
    Unmoved(was, left, i + 1);
    SinkStarts(comp, was, left, i);
    var pos := i;
    var j := i - 1;
    while comp(a[pos], a[j])
      invariant left <= j && pos == j + 1 <= i && count + pos == i
      invariant Rearranged(was, a[..], left, i + 1) && SortedBut(comp, a[..], left, i + 1, pos)
      decreases pos
    {
      ghost var before := a[..];
      count := count + 1;
      SinkStep(comp, before, left, i + 1, pos);
      Exchange(a, pos, j, left, i + 1);
      RearrangedAgain(was, before, a[..], left, i + 1);
      pos := j;
      if j == left {
        break;
      }
      j := j - 1;
    }
    SinkEnds(comp, a[..], left, i + 1, pos);
    count := if pos == left then count else count + 1;
  }

  method InsertionSort<T(!new)>(a: array<T>, left: nat, right: nat, comp: (T, T) -> bool) returns (ghost count: nat)
    requires StrictWeak(comp) && left <= right < a.Length
    modifies a
    ensures Rearranged(old(a[..]), a[..], left, right + 1) && Sorted(comp, a[..], left, right + 1)
    ensures count <= Triangle(right - left)
  {
    hide StrictWeak, Exchanged, Rearranged, Sorted;
    count := 0;
    ghost var was := a[..];
    Unmoved(was, left, right + 1);
    OneIsSorted(comp, was, left);
    var i := left + 1;
    while i <= right
      invariant left < i <= right + 1 && count <= Triangle(i - 1 - left)
      invariant Rearranged(was, a[..], left, right + 1) && Sorted(comp, a[..], left, i)
    {
      ghost var before := a[..];
      ghost var n := Sink(a, left, i, comp);
      PartRearranged(was, before, a[..], left, i + 1, left, right + 1);
      count := count + n;
      i := i + 1;
    }
  }

  lemma OneIsSorted<T(!new)>(comp: (T, T) -> bool, s: seq<T>, lo: int)
    requires 0 <= lo < |s|
    ensures Sorted(comp, s, lo, lo + 1)
  {
  }

  lemma Unmoved<T>(s: seq<T>, lo: int, hi: int)
    requires 0 <= lo <= hi <= |s|
    ensures Rearranged(s, s, lo, hi)
  {
  }

  /** One more permutation, of a part of the range. */
  lemma PartRearranged<T>(s: seq<T>, t: seq<T>, u: seq<T>, lo: int, hi: int, left: int, to: int)
    requires 0 <= left <= lo <= hi <= to <= |s| && |t| == |s| && Rearranged(s, t, left, to) && Rearranged(t, u, lo, hi)
    ensures Rearranged(s, u, left, to)
  {
    hide Rearranged;
    Widen(t, u, lo, hi, left, to);
    RearrangedAgain(s, t, u, left, to);
  }

  lemma RearrangedAgain<T>(s: seq<T>, t: seq<T>, u: seq<T>, lo: int, hi: int)
    requires 0 <= lo <= hi <= |s| && Rearranged(s, t, lo, hi) && Rearranged(t, u, lo, hi)
    ensures Rearranged(s, u, lo, hi)
  {
  }

  // ---- heapsort ----

  /** c is one of the places below place i of a heap that begins at index start. */
  predicate Below(start: int, i: int, c: int) {
    c == 2 * i + 1 - start || c == 2 * i + 2 - start
  }

  /** No element at or after index from is less than one of those below it, except perhaps the
      one at index but. */
  ghost predicate HeapBut<T(!new)>(comp: (T, T) -> bool, s: seq<T>, start: int, end: int, from: int, but: int)
    requires 0 <= start <= from && end < |s|
  {
    && (forall i, c :: from <= i <= end && start <= c <= end && Below(start, i, c) && i != but ==> !comp(s[i], s[c]))
    && forall i, c :: from <= i && i <= but <= end && start <= c <= end && Below(start, i, but) && Below(start, but, c) ==>
         !comp(s[i], s[c])
  }

  /** s[start..end + 1] is a heap as far as the places at or after index from go. */
  ghost predicate Heap<T(!new)>(comp: (T, T) -> bool, s: seq<T>, start: int, end: int, from: int)
    requires 0 <= start <= from && end < |s|
  {
    forall i, c :: from <= i <= end && start <= c <= end && Below(start, i, c) ==> !comp(s[i], s[c])
  }

  lemma HeapifyStarts<T(!new)>(comp: (T, T) -> bool, s: seq<T>, start: int, end: int, i: int)
    requires 0 <= start <= i && end < |s| && Heap(comp, s, start, end, i + 1)
    ensures HeapBut(comp, s, start, end, i, i)
  {
  }

  /** None of the elements below place i is greater than s[k]. */
  ghost predicate Tops<T(!new)>(comp: (T, T) -> bool, s: seq<T>, start: int, end: int, i: int, k: int)
    requires 0 <= start && end < |s| && 0 <= k < |s|
  {
    forall d :: start <= d <= end && Below(start, i, d) ==> !comp(s[k], s[d])
  }

  lemma HeapifyStep<T(!new)>(comp: (T, T) -> bool, s: seq<T>, start: int, end: int, from: int, i: int, c: int)
    requires StrictWeak(comp) && 0 <= start <= from <= i <= end < |s| && HeapBut(comp, s, start, end, from, i)
    requires start <= c <= end && Below(start, i, c) && comp(s[i], s[c])
    requires Tops(comp, s, start, end, i, c)
    ensures HeapBut(comp, Exchanged(s, i, c), start, end, from, c)
  {
    var t := Exchanged(s, i, c);
    forall p, q | from <= p <= end && start <= q <= end && Below(start, p, q) && p != c
      ensures !comp(t[p], t[q])
    {
      if p == i {
        assert Below(start, i, q);
      } else if q == i {
        assert Below(start, p, i);
      }
    }
  }

  lemma HeapifyEnds<T(!new)>(comp: (T, T) -> bool, s: seq<T>, start: int, end: int, from: int, i: int)
    requires 0 <= start <= from <= i <= end < |s| && HeapBut(comp, s, start, end, from, i)
    requires Tops(comp, s, start, end, i, i)
    ensures Heap(comp, s, start, end, from)
  {
  }

  /** Moves a[i0] down until the elements from index i0 on are a heap. */
  method Heapify<T(!new)>(a: array<T>, start: nat, end: nat, i0: nat, comp: (T, T) -> bool) returns (ghost count: nat)
    requires StrictWeak(comp) && start <= i0 <= end < a.Length && Heap(comp, a[..], start, end, i0 + 1)
    modifies a
    ensures Rearranged(old(a[..]), a[..], i0, end + 1) && Heap(comp, a[..], start, end, i0)
    ensures count <= 2 * Bits(end + 1 - start)
  {
    hide StrictWeak, Exchanged, Rearranged, Heap, HeapBut, Tops, Below, Pow2, Bits;
    count := 0;
    ghost var was, steps: nat := a[..], 0;
    Unmoved(was, i0, end + 1);
    HeapifyStarts(comp, was, start, end, i0);
    Pow2Small();
    var i := i0;
    var keepGoing := true;
    while keepGoing
      invariant i0 <= i <= end && Rearranged(was, a[..], i0, end + 1)
      invariant HeapBut(comp, a[..], start, end, i0, i)
      invariant !keepGoing ==> Tops(comp, a[..], start, end, i, i)
      invariant keepGoing ==> Pow2(steps) <= i - start + 1 && count <= 2 * steps
      invariant count <= 2 * Bits(end + 1 - start)
      decreases end - i, keepGoing
    {
      BitsOfPower(steps, end + 1 - start);
      keepGoing := false;
      var left := 2 * i + 1 - start;
      var right := left + 1;
      count := count + (if left <= end then 1 else 0) + (if right <= end then 1 else 0);
      var largest := Largest(a, start, end, i, left, comp);
      if largest != i {
        HeapifyStep(comp, a[..], start, end, i0, i, largest);
        ghost var before := a[..];
        Exchange(a, i, largest, i0, end + 1);
        RearrangedAgain(was, before, a[..], i0, end + 1);
        Pow2Double(steps);
        steps := steps + 1;
        i := largest;
        keepGoing := true;
      }
    }
    HeapifyEnds(comp, a[..], start, end, i0, i);
  }

  /** The index of a greatest element among a[i] and those below it. */
  method Largest<T(!new)>(a: array<T>, ghost start: nat, end: nat, i: nat, left: nat, comp: (T, T) -> bool) returns (largest: nat)
    requires StrictWeak(comp) && start <= i <= end < a.Length && left == 2 * i + 1 - start
    ensures i <= largest <= end
    ensures largest == i || (left <= largest && Below(start, i, largest) && comp(a[i], a[largest]))
    ensures Tops(comp, a[..], start, end, i, largest)
  {
    var right := left + 1;
    if left <= end && comp(a[i], a[left]) {
      largest := left;
    } else {
      largest := i;
    }
    if right <= end && comp(a[largest], a[right]) {
      largest := right;
    }
  }

  /** Where a place hangs in the heap. */
  function Above(start: int, c: int): (i: int)
    requires start < c
    ensures start <= i < c && Below(start, i, c)
  {
    start + (c - start - 1) / 2
  }

  /** The element at the top of a heap is a greatest one. */
  lemma {:induction false} TopIsGreatest<T(!new)>(comp: (T, T) -> bool, s: seq<T>, start: int, end: int, k: int)
    requires StrictWeak(comp) && 0 <= start <= k <= end < |s| && Heap(comp, s, start, end, start)
    ensures !comp(s[start], s[k])
    decreases k
  {
    if k > start {
      TopIsGreatest(comp, s, start, end, Above(start, k));
    }
  }

  /** The range is sorted from index i on, and no element there is less than one before index i. */
  ghost predicate Settled<T(!new)>(comp: (T, T) -> bool, s: seq<T>, left: int, right: int, i: int)
    requires 0 <= left <= i && right < |s|
  {
    && Sorted(comp, s, i, right + 1)
    && forall p, q :: left <= p < i <= q <= right ==> !comp(s[q], s[p])
  }

  lemma NoneBelow<T(!new)>(comp: (T, T) -> bool, s: seq<T>, left: int, right: int)
    requires 0 <= left <= right < |s|
    ensures Heap(comp, s, left, right, left + (right - left) / 2 + 1)
    ensures Settled(comp, s, left, right, right + 1)
  {
  }

  /** Taking the top of the heap to the end. */
  lemma TopSettles<T(!new)>(comp: (T, T) -> bool, s: seq<T>, left: int, right: int, i: int)
    requires StrictWeak(comp) && 0 <= left < i <= right < |s|
    requires Heap(comp, s, left, i, left) && Settled(comp, s, left, right, i + 1)
    ensures var t := Exchanged(s, i, left);
            Heap(comp, t, left, i - 1, left + 1) && Settled(comp, t, left, right, i)
  {
    var t := Exchanged(s, i, left);
    hide StrictWeak;
    forall p | left <= p <= i
      ensures !comp(s[left], s[p])
    {
      TopIsGreatest(comp, s, left, i, p);
    }
    forall p, q | left <= p < i <= q <= right
      ensures !comp(t[q], t[p])
    {
      if q == i {
        if p == left {
        }
      } else {
        assert s[q] == t[q];
      }
    }
  }

  lemma SettledKept<T(!new)>(comp: (T, T) -> bool, s: seq<T>, t: seq<T>, left: int, right: int, i: int)
    requires 0 <= left < i <= right < |s| && Settled(comp, s, left, right, i) && Rearranged(s, t, left, i)
    ensures Settled(comp, t, left, right, i)
  {
    hide Rearranged;
    Kept(s, t, left, i);
    forall q | i <= q <= right
      ensures forall p :: left <= p < i ==> !comp(t[q], t[p])
    {
      var notLess := x => !comp(s[q], x);
      AllKept(notLess, s, t, left, i);
      assert forall p :: left <= p < i ==> notLess(t[p]);
    }
  }

  /** The bound on comparisons for n elements. */
  function HeapCost(n: nat): nat {
    3 * n * Bits(n)
  }

  lemma ShortCost(k: nat)
    requires k < 30
    ensures Triangle(k) <= HeapCost(k + 1)
  {
    FewSteps(k);
    MulMonotone(k, 6 * Bits(k + 1), k + 1);
    Six(k + 1, Bits(k + 1));
  }

  lemma FewSteps(k: nat)
    requires k < 30
    ensures k <= 6 * Bits(k + 1)
  {
    if k >= 15 {
      BitsMonotone(16, k + 1);
      assert Bits(16) == 5;
    } else if k >= 7 {
      BitsMonotone(8, k + 1);
    } else if k >= 1 {
      BitsMonotone(2, k + 1);
    }
  }

  lemma Six(n: int, b: int)
    ensures 6 * b * n == 2 * (3 * n * b)
  {
  }

  lemma LongCost(k: nat)
    ensures Passes(k / 2 + 1, k + 1) + Passes(k, k + 1) <= HeapCost(k + 1)
  {
    hide Bits;
    var b := Bits(k + 1);
    Distribute(k / 2 + 1, k, 2 * b);
    MulMonotone(2 * ((k / 2 + 1) + k), 3 * (k + 1), b);
    Twice((k / 2 + 1) + k, b);
  }

  lemma Twice(x: int, b: int)
    ensures x * (2 * b) == (2 * x) * b
  {
  }

  lemma OneMore(x: int, y: int)
    ensures (x + 1) * y == x * y + y
  {
  }

  /** The comparisons of so many passes through a heap of n elements. */
  function Passes(calls: nat, n: nat): nat {
    calls * (2 * Bits(n))
  }

  lemma NoPass(n: nat)
    ensures Passes(0, n) == 0
  {
  }

  lemma OnePass(calls: nat, m: nat, n: nat)
    requires m <= n
    ensures Passes(calls, n) + 2 * Bits(m) <= Passes(calls + 1, n)
  {
    BitsMonotone(m, n);
    OneMore(calls, 2 * Bits(n));
  }

  /** Sorts a range of a by heapsort, or by insertion sort if it is short. */
  method HeapSort<T(!new)>(a: array<T>, left: nat, right: nat, comp: (T, T) -> bool) returns (ghost count: nat)
    requires StrictWeak(comp) && left <= right < a.Length
    modifies a
    ensures Rearranged(old(a[..]), a[..], left, right + 1) && Sorted(comp, a[..], left, right + 1)
    ensures count <= HeapCost(right + 1 - left)
  {
    hide StrictWeak, Exchanged, Rearranged, Heap, Settled, Sorted, Bits, Passes, HeapCost, Triangle;
    if right - left < 30 {
      count := InsertionSort(a, left, right, comp);
      ShortCost(right - left);
    } else {
      var n := MakeHeap(a, left, right, comp);
      ghost var made := a[..];
      var m := UnmakeHeap(a, left, right, comp);
      RearrangedAgain(old(a[..]), made, a[..], left, right + 1);
      count := n + m;
      LongCost(right - left);
    }
  }

  lemma Distribute(x: int, y: int, z: int)
    ensures (x + y) * z == x * z + y * z
  {
  }

  /** Turns a range into a heap, from its last inner place back to its first. */
  method MakeHeap<T(!new)>(a: array<T>, left: nat, right: nat, comp: (T, T) -> bool) returns (ghost count: nat)
    requires StrictWeak(comp) && left <= right < a.Length
    modifies a
    ensures Rearranged(old(a[..]), a[..], left, right + 1) && Heap(comp, a[..], left, right, left)
    ensures count <= Passes((right - left) / 2 + 1, right + 1 - left)
  {
    hide StrictWeak, Exchanged, Rearranged, Heap, Settled, Bits, Passes;
    count := 0;
    ghost var was, calls: nat := a[..], 0;
    NoPass(right + 1 - left);
    Unmoved(was, left, right + 1);
    NoneBelow(comp, was, left, right);
    var i := left + (right - left) / 2;
    while true
      invariant left <= i <= right && calls + i == left + (right - left) / 2
      invariant Rearranged(was, a[..], left, right + 1) && Heap(comp, a[..], left, right, i + 1)
      invariant count <= Passes(calls, right + 1 - left)
      decreases i
    {
      ghost var before := a[..];
      var n := Heapify(a, left, right, i, comp);
      PartRearranged(was, before, a[..], i, right + 1, left, right + 1);
      OnePass(calls, right + 1 - left, right + 1 - left);
      count, calls := count + n, calls + 1;
      if i == left {
        break;
      }
      i := i - 1;
    }
  }

  /** Sorts a heap: its top goes to its end, again and again. */
  method UnmakeHeap<T(!new)>(a: array<T>, left: nat, right: nat, comp: (T, T) -> bool) returns (ghost count: nat)
    requires StrictWeak(comp) && left <= right < a.Length && Heap(comp, a[..], left, right, left)
    modifies a
    ensures Rearranged(old(a[..]), a[..], left, right + 1) && Sorted(comp, a[..], left, right + 1)
    ensures count <= Passes(right - left, right + 1 - left)
  {
    hide StrictWeak, Exchanged, Rearranged, Heap, Settled, Sorted, Bits, Passes, HeapCost, Triangle;
    count := 0;
    ghost var was, calls: nat := a[..], 0;
    NoPass(right + 1 - left);
    Unmoved(was, left, right + 1);
    NoneBelow(comp, was, left, right);
    var i := right;
    while i > left
      invariant left <= i <= right && calls + i == right
      invariant Rearranged(was, a[..], left, right + 1)
      invariant Heap(comp, a[..], left, i, left) && Settled(comp, a[..], left, right, i + 1)
      invariant count <= Passes(calls, right + 1 - left)
    {
      ghost var before := a[..];
      TopSettles(comp, before, left, right, i);
      Exchange(a, i, left, left, right + 1);
      ghost var swapped := a[..];
      i := i - 1;
      var n := Heapify(a, left, i, left, comp);
      TopTaken(comp, was, before, swapped, a[..], left, right, i + 1);
      OnePass(calls, i + 1 - left, right + 1 - left);
      count, calls := count + n, calls + 1;
    }
    SettledIsSorted(comp, a[..], left, right);
  }

  lemma TopTaken<T(!new)>(comp: (T, T) -> bool, was: seq<T>, s: seq<T>, swapped: seq<T>, t: seq<T>, left: int, right: int, i: int)
    requires 0 <= left < i <= right < |s|
    requires |was| == |s| && Rearranged(was, s, left, right + 1) && Rearranged(s, swapped, left, right + 1)
    requires Settled(comp, swapped, left, right, i) && Rearranged(swapped, t, left, i)
    ensures Rearranged(was, t, left, right + 1) && Settled(comp, t, left, right, i)
  {
    hide Rearranged, Settled;
    Kept(s, swapped, left, right + 1);
    Kept(swapped, t, left, i);
    SettledKept(comp, swapped, t, left, right, i);
    Widen(swapped, t, left, i, left, right + 1);
    RearrangedAgain(was, s, swapped, left, right + 1);
    RearrangedAgain(was, swapped, t, left, right + 1);
  }

  lemma SettledIsSorted<T(!new)>(comp: (T, T) -> bool, s: seq<T>, left: int, right: int)
    requires 0 <= left <= right < |s| && Settled(comp, s, left, right, left + 1)
    ensures Sorted(comp, s, left, right + 1)
  {
  }

  // ---- quicksort ----

  /** The pivot is at the end of the range; up to index p elements are less than it, and from
      there up to index j they are not. */
  ghost predicate Parted<T(!new)>(comp: (T, T) -> bool, s: seq<T>, left: int, right: int, p: int, j: int)
    requires 0 <= left && j <= right < |s|
  {
    && (forall k :: left <= k < p && k < j ==> comp(s[k], s[right]))
    && forall k :: left <= k && p <= k < j ==> !comp(s[k], s[right])
  }

  lemma PartedStep<T(!new)>(comp: (T, T) -> bool, s: seq<T>, left: int, right: int, p: int, j: int)
    requires 0 <= left <= p <= j < right < |s| && Parted(comp, s, left, right, p, j)
    ensures if comp(s[j], s[right]) then Parted(comp, Exchanged(s, p, j), left, right, p + 1, j + 1)
            else Parted(comp, s, left, right, p, j + 1)
  {
  }

  lemma PartedSplits<T(!new)>(comp: (T, T) -> bool, s: seq<T>, left: int, right: int, p: int)
    requires StrictWeak(comp) && 0 <= left <= p <= right < |s| && Parted(comp, s, left, right, p, right)
    ensures Split(comp, Exchanged(s, p, right), left, right, p)
  {
  }

  /** Splits a range at a pivot: what is less comes before it, what is not less behind it. */
  method Partition<T(!new)>(a: array<T>, left: nat, right: nat, comp: (T, T) -> bool) returns (p: nat, ghost count: nat)
    requires StrictWeak(comp) && left < right < a.Length
    modifies a
    ensures left <= p <= right && Rearranged(old(a[..]), a[..], left, right + 1)
    ensures Split(comp, a[..], left, right, p)
    ensures count == right - left
  {
    hide StrictWeak, Exchanged, Rearranged, Parted, Split;
    ghost var was := a[..];
    Exchange(a, left + (right - left) / 2, right, left, right + 1);
    p, count := left, 0;
    ghost var now := a[..];
    NonePart(comp, now, left, right);
    var j := left;
    while j < right
      invariant left <= p <= j <= right && count == j - left
      invariant a[..] == now && |now| == |was|
      invariant Rearranged(was, now, left, right + 1) && Parted(comp, now, left, right, p, j)
    {
      PartedStep(comp, now, left, right, p, j);
      count := count + 1;
      if comp(a[j], a[right]) {
        Exchange(a, p, j, left, right + 1);
        RearrangedAgain(was, now, a[..], left, right + 1);
        now := a[..];
        p := p + 1;
      }
      j := j + 1;
    }
    PartedSplits(comp, now, left, right, p);
    Exchange(a, p, right, left, right + 1);
    RearrangedAgain(was, now, a[..], left, right + 1);
  }

  lemma NonePart<T(!new)>(comp: (T, T) -> bool, s: seq<T>, left: int, right: int)
    requires 0 <= left <= right < |s|
    ensures Parted(comp, s, left, right, left, left)
  {
  }

  ghost predicate Split<T(!new)>(comp: (T, T) -> bool, s: seq<T>, left: int, right: int, p: int)
    requires 0 <= left <= p <= right < |s|
  {
    (forall k :: left <= k < p ==> comp(s[k], s[p])) && forall k :: p < k <= right ==> !comp(s[k], s[p])
  }

  /** Sorting both sides of a split keeps it, and then the range is sorted. */
  lemma SplitKept<T(!new)>(comp: (T, T) -> bool, s: seq<T>, t: seq<T>, left: int, right: int, p: int, lo: int, hi: int)
    requires 0 <= left <= p <= right < |s| && Split(comp, s, left, right, p)
    requires left <= lo <= hi <= right + 1 && (hi <= p || p < lo) && Rearranged(s, t, lo, hi)
    ensures Split(comp, t, left, right, p)
  {
    hide Rearranged;
    Kept(s, t, lo, hi);
    if hi <= p {
      var less := x => comp(x, s[p]);
      AllKept(less, s, t, lo, hi);
      assert forall k :: lo <= k < hi ==> less(t[k]);
    } else {
      var notLess := x => !comp(x, s[p]);
      AllKept(notLess, s, t, lo, hi);
      assert forall k :: lo <= k < hi ==> notLess(t[k]);
    }
  }

  lemma SortedKept<T(!new)>(comp: (T, T) -> bool, s: seq<T>, t: seq<T>, left: int, hi: int, lo: int, to: int)
    requires 0 <= left <= hi <= lo <= to <= |s| && Sorted(comp, s, left, hi) && Rearranged(s, t, lo, to)
    ensures Sorted(comp, t, left, hi)
  {
    hide Rearranged;
    Kept(s, t, lo, to);
  }

  lemma SplitIsSorted<T(!new)>(comp: (T, T) -> bool, s: seq<T>, left: int, right: int, p: int)
    requires StrictWeak(comp) && 0 <= left <= p <= right < |s| && Split(comp, s, left, right, p)
    requires Sorted(comp, s, left, p) && Sorted(comp, s, p + 1, right + 1)
    ensures Sorted(comp, s, left, right + 1)
  {
    forall i, j | left <= i < j <= right
      ensures !comp(s[j], s[i])
    {
      if i < p < j {
        assert comp(s[i], s[p]) && !comp(s[j], s[p]);
      }
    }
  }

  /** The bound on comparisons for n elements with depth budget d, where heapsort takes at most
      3 * b of them for each element. */
  function QuickCost(n: nat, d: nat, b: nat): nat {
    n * (Levels(d) + 3 * b)
  }

  lemma CostSplits(n: nat, m: nat, d: nat, b: nat)
    requires d > 0
    ensures Levels(d) == 1 + Levels(Shrunk(d))
    ensures n + m + QuickCost(n, Shrunk(d), b) + QuickCost(m, Shrunk(d), b) <= QuickCost(n + m + 1, d, b)
  {
    hide Shrunk;
    ShareCost(n, m, Levels(Shrunk(d)) + 3 * b);
  }

  lemma ShareCost(n: nat, m: nat, c: nat)
    ensures n + m + n * c + m * c <= (n + m + 1) * (1 + c)
  {
    Distribute(n, m, c);
    assert (n + m + 1) * (1 + c) == (n + m) * c + (n + m) + c + 1;
  }

  lemma CostOfHeap(n: nat, d: nat, b: nat)
    requires Bits(n) <= b
    ensures HeapCost(n) <= QuickCost(n, d, b)
  {
    MulMonotone(3 * Bits(n), Levels(d) + 3 * b, n);
    Thrice(n, Bits(n));
    assert n * (Levels(d) + 3 * b) == (Levels(d) + 3 * b) * n;
  }

  lemma Thrice(n: int, b: int)
    ensures 3 * n * b == 3 * b * n
  {
  }

  /** Sorts the range from left to right, which may be empty. */
  method QuickSortMain<T(!new)>(a: array<T>, left: nat, right: int, budget: nat, comp: (T, T) -> bool, ghost b: nat)
    returns (ghost count: nat, ghost nested: nat)
    requires StrictWeak(comp) && left <= right + 1 <= a.Length && Bits(right + 1 - left) <= b
    modifies a
    ensures Rearranged(old(a[..]), a[..], left, right + 1) && Sorted(comp, a[..], left, right + 1)
    ensures count <= QuickCost(right + 1 - left, budget, b)
    ensures nested <= Levels(budget)
    decreases right - left
  {
    hide StrictWeak, Exchanged, Rearranged, Sorted, Split, Bits, HeapCost, QuickCost, Levels;
    count, nested := 0, 0;
    ghost var was := a[..];
    Unmoved(was, left, right + 1);
    if left < right {
      if right - left < 30 || budget == 0 {
        count := HeapSort(a, left, right, comp);
        CostOfHeap(right + 1 - left, budget, b);
      } else {
        var budget' := budget / 2;
        budget' := budget' + budget' / 16;
        var p, n := Partition(a, left, right, comp);
        ghost var split, m, k, deep, deep' := a[..], 0, 0, 0, 0;
        BitsMonotone(p - left, right + 1 - left);
        BitsMonotone(right - p, right + 1 - left);
        Unmoved(split, left, p);
        if p > 0 {
          m, deep := QuickSortMain(a, left, p - 1, budget', comp, b);
        } else {
          NothingToSort(comp, split, left, p);
        }
        ghost var half := a[..];
        k, deep' := QuickSortMain(a, p + 1, right, budget', comp, b);
        BothSides(comp, was, split, half, a[..], left, right, p);
        CostSplits(p - left, right - p, budget, b);
        count := n + m + k;
        nested := 1 + if deep > deep' then deep else deep';
      }
    } else {
      NothingToSort(comp, was, left, right + 1);
    }
  }

  /** A split whose sides have been sorted one after the other. */
  lemma BothSides<T(!new)>(comp: (T, T) -> bool, s: seq<T>, split: seq<T>, half: seq<T>, t: seq<T>, left: int, right: int, p: int)
    requires StrictWeak(comp) && 0 <= left <= p <= right < |s|
    requires Rearranged(s, split, left, right + 1) && Split(comp, split, left, right, p)
    requires Rearranged(split, half, left, p) && Sorted(comp, half, left, p)
    requires Rearranged(half, t, p + 1, right + 1) && Sorted(comp, t, p + 1, right + 1)
    ensures Rearranged(s, t, left, right + 1) && Sorted(comp, t, left, right + 1)
  {
    hide StrictWeak, Rearranged, Sorted, Split;
    Kept(s, split, left, right + 1);
    Kept(split, half, left, p);
    Widen(split, half, left, p, left, right + 1);
    RearrangedAgain(s, split, half, left, right + 1);
    SplitKept(comp, split, half, left, right, p, left, p);
    Kept(half, t, p + 1, right + 1);
    Widen(half, t, p + 1, right + 1, left, right + 1);
    RearrangedAgain(s, half, t, left, right + 1);
    SplitKept(comp, half, t, left, right, p, p + 1, right + 1);
    SortedKept(comp, half, t, left, p, p + 1, right + 1);
    SplitIsSorted(comp, t, left, right, p);
  }

  lemma NothingToSort<T(!new)>(comp: (T, T) -> bool, s: seq<T>, lo: int, hi: int)
    requires 0 <= lo && hi <= lo + 1 && hi <= |s|
    ensures Sorted(comp, s, lo, hi)
  {
  }

  /** qsort_array: sorts any range under any strict weak order, and touches nothing else. With n
      elements it nests at most twice as many quicksort levels as n has binary digits, and
      compares at most five times that many times n. */
  method QuickSort<T(!new)>(a: array<T>, left: nat, right: nat, comp: (T, T) -> bool)
    returns (ghost count: nat, ghost nested: nat)
    requires StrictWeak(comp) && left <= right < a.Length
    modifies a
    ensures Rearranged(old(a[..]), a[..], left, right + 1) && Sorted(comp, a[..], left, right + 1)
    ensures nested <= 2 * Bits(right - left)
    ensures count <= 5 * (right + 1 - left) * Bits(right + 1 - left)
  {
    hide StrictWeak, Exchanged, Rearranged, Sorted, Bits, QuickCost, Levels;
    count, nested := QuickSortMain(a, left, right, right - left, comp, Bits(right + 1 - left));
    LevelsBound(right - left);
    BitsMonotone(right - left, right + 1 - left);
    TotalCost(right + 1 - left, right - left, Bits(right + 1 - left));
  }

  lemma TotalCost(n: nat, d: nat, b: nat)
    requires Levels(d) <= 2 * b
    ensures QuickCost(n, d, b) <= 5 * n * b
  {
    hide Levels;
    MulMonotone(Levels(d) + 3 * b, 5 * b, n);
    Five(n, b);
  }

  lemma Five(n: int, b: int)
    ensures 5 * b * n == 5 * n * b
  {
  }
}
