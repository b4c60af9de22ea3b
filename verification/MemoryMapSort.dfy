/** Sorting a memory map in place by physical address, with Hoare's partition. */
module MemoryMapSort {

  /** A descriptor: its physical start address and the rest of its bytes. */
  datatype Descriptor = Descriptor(physStart: nat, rest: seq<int>)

  const ADDRESS_MAX: nat := 0xffff_ffff_ffff_ffff

  ghost predicate Within(a: array<Descriptor>, low: int, high: int, lower: nat, upper: nat)
    reads a
    requires 0 <= low && high < a.Length
  {
    forall k :: low <= k <= high ==> lower <= a[k].physStart <= upper
  }

  ghost predicate SortedRange(a: array<Descriptor>, low: int, high: int)
    reads a
    requires 0 <= low && high < a.Length
  {
    forall j, k :: low <= j <= k <= high ==> a[j].physStart <= a[k].physStart
  }

  twostate predicate OnlyInside(a: array<Descriptor>, low: int, high: int)
    reads a
  {
    && (forall k :: 0 <= k < a.Length && !(low <= k <= high) ==> a[k] == old(a[k]))
    && multiset(a[..]) == old(multiset(a[..]))
  }

  method Swap(a: array<Descriptor>, i: int, j: int)
    requires 0 <= i < a.Length && 0 <= j < a.Length
    modifies a
    ensures a[i] == old(a[j]) && a[j] == old(a[i])
    ensures forall k :: 0 <= k < a.Length && k != i && k != j ==> a[k] == old(a[k])
    ensures multiset(a[..]) == old(multiset(a[..]))
  {
    if i != j {
      a[i], a[j] := a[j], a[i];
    }
  }

  /** Skip entries below the pivot; one that is not is known to lie ahead. */
  method ScanUp(a: array<Descriptor>, from: int, pivot: nat, ghost stop: int) returns (i: int)
    requires -1 <= from < stop < a.Length && a[stop].physStart >= pivot
    ensures from < i <= stop && a[i].physStart >= pivot
    ensures forall k :: from < k < i ==> a[k].physStart < pivot
  {
    i := from + 1;
    while a[i].physStart < pivot
      invariant from < i <= stop
      invariant forall k :: from < k < i ==> a[k].physStart < pivot
      decreases stop - i
    {
      i := i + 1;
    }
  }

  method ScanDown(a: array<Descriptor>, from: int, pivot: nat, ghost stop: int) returns (j: int)
    requires 0 <= stop < from <= a.Length && a[stop].physStart <= pivot
    ensures stop <= j < from && a[j].physStart <= pivot
    ensures forall k :: j < k < from ==> a[k].physStart > pivot
  {
    j := from - 1;
    while a[j].physStart > pivot
      invariant stop <= j < from
      invariant forall k :: j < k < from ==> a[k].physStart > pivot
      decreases j - stop
    {
      j := j - 1;
    }
  }

  /** Between rounds: entries left of the gap are at most the pivot, those right of it at least the pivot. */
  ghost predicate Parted(a: array<Descriptor>, low: int, high: int, left: int, right: int, pivot: nat)
    reads a
    requires 0 <= low && high < a.Length
  {
    && low - 1 <= left < right <= high + 1
    && (forall k :: low <= k <= left ==> a[k].physStart <= pivot)
    && (forall k :: right <= k <= high ==> a[k].physStart >= pivot)
  }

  /** One round: both scans, then a swap unless they have met. */
  method Round(a: array<Descriptor>, low: int, high: int, left: int, right: int, pivot: nat,
               ghost up: int, ghost down: int, ghost lower: nat, ghost upper: nat)
    returns (left': int, right': int)
    requires 0 <= low < high < a.Length && Parted(a, low, high, left, right, pivot)
    requires Within(a, low, high, lower, upper)
    requires left < up <= high && a[up].physStart >= pivot
    requires low <= down < right && a[down].physStart <= pivot
    modifies a
    ensures left < left' <= up && down <= right' < right
    ensures OnlyInside(a, low, high) && Within(a, low, high, lower, upper)
    ensures left' < right' ==>
              && Parted(a, low, high, left', right', pivot)
              && a[right'].physStart >= pivot && a[left'].physStart <= pivot
    ensures left' >= right' ==>
              && (forall k :: low <= k <= right' ==> a[k].physStart <= pivot)
              && (forall k :: right' < k <= high ==> a[k].physStart >= pivot)
  {
    left' := ScanUp(a, left, pivot, up);
    right' := ScanDown(a, right, pivot, down);
    if left' < right' {
      Swap(a, left', right');
    }
  }

  /** Hoare's partition: everything up to `p` is at most the pivot, everything after at least the pivot. */
  method Partition(a: array<Descriptor>, low: int, high: int, ghost lower: nat, ghost upper: nat)
    returns (p: int, ghost pivot: nat)
    requires 0 <= low < high < a.Length && Within(a, low, high, lower, upper)
    modifies a
    ensures low <= p < high && lower <= pivot <= upper
    ensures Within(a, low, p, lower, pivot) && Within(a, p + 1, high, pivot, upper)
    ensures OnlyInside(a, low, high)
  {
    var mid := low + (high - low) / 2;
    var v := a[mid].physStart;
    pivot := v;
    var left, right := Round(a, low, high, low - 1, high + 1, v, mid, mid, lower, upper);
    while left < right
      invariant low <= left && right <= high && (left >= right ==> right < high)
      invariant Within(a, low, high, lower, upper) && OnlyInside(a, low, high)
      invariant left < right ==>
                  && Parted(a, low, high, left, right, v)
                  && a[right].physStart >= v && a[left].physStart <= v
      invariant left >= right ==>
                  && low <= right
                  && (forall k :: low <= k <= right ==> a[k].physStart <= v)
                  && (forall k :: right < k <= high ==> a[k].physStart >= v)
      decreases right - left
    {
      left, right := Round(a, low, high, left, right, v, right, left, lower, upper);
    }
    p := right;
  }

  /** Recursive quicksort of the entries from `low` to `high`. */
  method QSort(a: array<Descriptor>, low: int, high: int, ghost lower: nat, ghost upper: nat)
    requires 0 <= low && -1 <= high < a.Length && low <= high + 1 && Within(a, low, high, lower, upper)
    modifies a
    ensures SortedRange(a, low, high) && Within(a, low, high, lower, upper)
    ensures OnlyInside(a, low, high)
    decreases high - low + 1
  {
    if low >= high {
      return;
    }
    var p;
    ghost var pivot;
    p, pivot := Partition(a, low, high, lower, upper);
    QSort(a, low, p, lower, pivot);
    QSort(a, p + 1, high, pivot, upper);
  }

  /** `sort`: a sorted permutation of the map.  The index of the last entry of an empty map does not exist. */
  method Sort(a: array<Descriptor>) returns (panicked: bool)
    requires forall k :: 0 <= k < a.Length ==> a[k].physStart <= ADDRESS_MAX
    modifies a
    ensures panicked <==> a.Length == 0
    ensures SortedRange(a, 0, a.Length - 1) && multiset(a[..]) == old(multiset(a[..]))
  {
    if a.Length == 0 {
      return true;
    }
    QSort(a, 0, a.Length - 1, 0, ADDRESS_MAX);
    panicked := false;
  }

  /** `is_sorted`: neighbouring entries are in order, hence all are. */
  method IsSorted(a: array<Descriptor>) returns (r: bool)
    ensures r <==> SortedRange(a, 0, a.Length - 1)
  {
    var i := 1;
    while i < a.Length
      invariant 1 <= i && (i <= a.Length ==> SortedRange(a, 0, i - 1)) && (i > a.Length ==> a.Length == 0)
    {
      if a[i].physStart < a[i - 1].physStart {
        return false;
      }
      i := i + 1;
    }
    r := true;
  }
}
