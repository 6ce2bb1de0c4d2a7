/**
  Sorting of XPath node sets: insertion sort for small ranges, quicksort with a three-way partition for large ones.
 */
module NodeSetSort {
  import opened Common

  // ----- orders and permutations -----

  /** The comparator orders any two distinct elements; what it says of an element and itself does not matter. */
  ghost predicate Orders<T>(less: (T, T) -> bool, dom: set<T>)
  {
    && (forall x, y | x in dom && y in dom && x != y :: less(x, y) != less(y, x))
    && (forall x, y, z | x in dom && y in dom && z in dom && x != z && less(x, y) && less(y, z) :: less(x, z))
  }

  /** The elements of a range. */
  ghost predicate In<T>(s: seq<T>, lo: nat, hi: nat, dom: set<T>)
  {
    hi <= |s| && forall i | lo <= i < hi :: s[i] in dom
  }

  ghost predicate Leq<T>(less: (T, T) -> bool, x: T, y: T)
  {
    x == y || less(x, y)
  }

  lemma Trichotomy<T>(less: (T, T) -> bool, dom: set<T>, x: T, y: T)
    requires Orders(less, dom) && x in dom && y in dom
    ensures x == y || less(x, y) || less(y, x)
    ensures x != y ==> !(less(x, y) && less(y, x))
    ensures Leq(less, x, y) && Leq(less, y, x) ==> x == y
  {
  }

  lemma LeqTwice<T>(less: (T, T) -> bool, dom: set<T>, x: T, y: T, z: T)
    requires Orders(less, dom) && x in dom && y in dom && z in dom && Leq(less, x, y) && Leq(less, y, z)
    ensures Leq(less, x, z)
  {
  }

  ghost predicate Sorted<T>(s: seq<T>, lo: nat, hi: nat, less: (T, T) -> bool)
    requires hi <= |s|
  {
    forall i, j | lo <= i < j < hi :: Leq(less, s[i], s[j])
  }

  /** `t` permutes `s` inside `[lo, hi)` and agrees with it elsewhere. */
  ghost predicate Permuted<T>(s: seq<T>, t: seq<T>, lo: nat, hi: nat)
  {
    && lo <= hi <= |s| == |t|
    && multiset(s[lo..hi]) == multiset(t[lo..hi])
    && (forall i | 0 <= i < lo || hi <= i < |s| :: s[i] == t[i])
  }

  lemma Pieces<T>(s: seq<T>, lo: nat, a: nat, b: nat, hi: nat)
    requires lo <= a <= b <= hi <= |s|
    ensures multiset(s[lo..hi]) == multiset(s[lo..a]) + multiset(s[a..b]) + multiset(s[b..hi])
  {
    assert s[lo..hi] == s[lo..a] + s[a..b] + s[b..hi];
  }

  /** A permutation of a part is a permutation of the whole. */
  lemma PermutedPart<T>(s: seq<T>, t: seq<T>, a: nat, b: nat, lo: nat, hi: nat)
    requires Permuted(s, t, a, b) && lo <= a && b <= hi <= |s|
    ensures Permuted(s, t, lo, hi)
  {
    Pieces(s, lo, a, b, hi);
    Pieces(t, lo, a, b, hi);
    assert s[lo..a] == t[lo..a];
    assert s[b..hi] == t[b..hi];
  }

  lemma PermutedTwice<T>(s: seq<T>, t: seq<T>, u: seq<T>, lo: nat, hi: nat)
    requires Permuted(s, t, lo, hi) && Permuted(t, u, lo, hi)
    ensures Permuted(s, u, lo, hi)
  {
  }

  /** What stands in the range afterwards stood in it before. */
  lemma PermutedFrom<T>(s: seq<T>, t: seq<T>, lo: nat, hi: nat, i: nat) returns (j: nat)
    requires Permuted(s, t, lo, hi) && lo <= i < hi
    ensures lo <= j < hi && s[j] == t[i]
  {
    assert t[lo..hi][i - lo] == t[i];
    assert t[i] in multiset(s[lo..hi]);
    var k :| 0 <= k < |s[lo..hi]| && s[lo..hi][k] == t[i];
    j := lo + k;
  }

  lemma InPermuted<T>(s: seq<T>, t: seq<T>, lo: nat, hi: nat, dom: set<T>)
    requires In(s, lo, hi, dom) && Permuted(s, t, lo, hi)
    ensures In(t, lo, hi, dom)
  {
    forall i | lo <= i < hi ensures t[i] in dom {
      var j := PermutedFrom(s, t, lo, hi, i);
    }
  }

  lemma InPart<T>(s: seq<T>, lo: nat, hi: nat, dom: set<T>, a: nat, b: nat)
    requires In(s, lo, hi, dom) && lo <= a && b <= hi
    ensures In(s, a, b, dom)
  {
  }

  lemma InAt<T>(s: seq<T>, lo: nat, hi: nat, dom: set<T>, i: nat)
    requires In(s, lo, hi, dom) && lo <= i < hi
    ensures s[i] in dom
  {
  }

  function Swapped<T>(s: seq<T>, i: nat, j: nat): (t: seq<T>)
    requires i < |s| && j < |s|
    ensures |t| == |s|
  {
    s[i := s[j]][j := s[i]]
  }

  method Swap<T>(a: array<T>, i: nat, j: nat, ghost lo: nat, ghost hi: nat)
    requires lo <= i < hi <= a.Length && lo <= j < hi
    modifies a
    ensures a[..] == Swapped(old(a[..]), i, j) && Permuted(old(a[..]), a[..], lo, hi)
    ensures forall k | 0 <= k < a.Length && k != i && k != j :: a[k] == old(a[k])
  {
    a[i], a[j] := a[j], a[i];
    SwapPermutes(old(a[..]), a[..], i, j, lo, hi);
  }

  lemma SwapPermutes<T>(s: seq<T>, t: seq<T>, i: nat, j: nat, lo: nat, hi: nat)
    requires lo <= i < hi <= |s| && lo <= j < hi && t == Swapped(s, i, j)
    ensures Permuted(s, t, lo, hi)
  {
    var p := s[lo..hi];
    var q := p[i - lo := p[j - lo]][j - lo := p[i - lo]];
    assert t[lo..hi] == q;
    assert multiset(q) == multiset(p);
  }

  // ----- partition -----

  /** Less, equal, greater around the pivot, in the scanned part `[lo, hi)`. */
  ghost predicate Zones<T>(s: seq<T>, pivot: T, less: (T, T) -> bool, lo: nat, eqbeg: nat, eqend: nat, hi: nat)
  {
    && lo <= eqbeg <= eqend <= hi <= |s|
    && (forall i | lo <= i < eqbeg :: less(s[i], pivot))
    && (forall i | eqbeg <= i < eqend :: s[i] == pivot)
    && (forall i | eqend <= i < hi :: less(pivot, s[i]))
  }

  /** The scan met an equal element on the right. */
  lemma EqualOnRight<T>(s: seq<T>, pivot: T, less: (T, T) -> bool, lo: nat, eqbeg: nat, eqend: nat, hi: nat)
    requires Zones(s, pivot, less, lo, eqbeg, eqend, hi) && hi < |s| && s[hi] == pivot
    ensures Zones(Swapped(s, hi, eqend), pivot, less, lo, eqbeg, eqend + 1, hi + 1)
  {
  }

  /** The scan met an equal element on the left. */
  lemma EqualOnLeft<T>(s: seq<T>, pivot: T, less: (T, T) -> bool, lo: nat, eqbeg: nat, eqend: nat, hi: nat)
    requires Zones(s, pivot, less, lo, eqbeg, eqend, hi) && lo > 0 && s[lo - 1] == pivot
    ensures eqbeg > 0 && Zones(Swapped(s, lo - 1, eqbeg - 1), pivot, less, lo - 1, eqbeg - 1, eqend, hi)
  {
  }

  /** Both scans stopped: the two elements change sides. */
  lemma ChangeSides<T>(s: seq<T>, pivot: T, less: (T, T) -> bool, lo: nat, eqbeg: nat, eqend: nat, hi: nat)
    requires Zones(s, pivot, less, lo, eqbeg, eqend, hi) && 0 < lo && hi < |s|
    requires less(pivot, s[lo - 1]) && less(s[hi], pivot)
    ensures Zones(Swapped(s, hi, lo - 1), pivot, less, lo - 1, eqbeg, eqend, hi + 1)
  {
  }

  /** The equal zone moves down by one to make room for a greater element. */
  lemma EqualZoneDown<T>(s: seq<T>, pivot: T, less: (T, T) -> bool, lo: nat, eqbeg: nat, eqend: nat, hi: nat)
    requires Zones(s, pivot, less, lo, eqbeg, eqend, hi) && 0 < lo && eqbeg < eqend && less(pivot, s[lo - 1])
    ensures Zones(Swapped(Swapped(s, lo - 1, eqbeg - 1), eqbeg - 1, eqend - 1), pivot, less,
                  lo - 1, eqbeg - 1, eqend - 1, hi)
  {
  }

  /** The equal zone moves up by one to make room for a smaller element. */
  lemma EqualZoneUp<T>(s: seq<T>, pivot: T, less: (T, T) -> bool, lo: nat, eqbeg: nat, eqend: nat, hi: nat)
    requires Zones(s, pivot, less, lo, eqbeg, eqend, hi) && hi < |s| && eqbeg < eqend && less(s[hi], pivot)
    ensures var t := if eqend != hi then Swapped(s, eqbeg, eqend) else s;
            Zones(Swapped(t, hi, eqbeg), pivot, less, lo, eqbeg + 1, eqend + 1, hi + 1)
  {
  }

  method Partition<T(==)>(a: array<T>, begin: nat, middle: nat, end: nat, less: (T, T) -> bool, ghost dom: set<T>)
    returns (eqbeg: nat, eqend: nat)
    requires Orders(less, dom) && begin <= middle < end <= a.Length && In(a[..], begin, end, dom)
    modifies a
    ensures begin <= eqbeg < eqend <= end
    ensures Zones(a[..], old(a[middle]), less, begin, eqbeg, eqend, end)
    ensures Permuted(old(a[..]), a[..], begin, end)
  {
    hide Orders, Swapped, Permuted, Zones, In;
    ghost var s, pivot := a[..], a[middle];
    InAt(s, begin, end, dom, middle);
    eqbeg, eqend := middle, middle + 1;
    while eqbeg != begin && a[eqbeg - 1] == a[eqbeg]
      invariant begin <= eqbeg <= middle && forall i | eqbeg <= i <= middle :: a[i] == pivot
    {
      eqbeg := eqbeg - 1;
    }
    while eqend != end && a[eqend] == a[eqbeg]
      invariant middle < eqend <= end && forall i | eqbeg <= i < eqend :: a[i] == pivot
    {
      eqend := eqend + 1;
    }
    var ltend, gtbeg := eqbeg, eqend;
    EqualZone(a[..], pivot, less, eqbeg, eqend);
    SamePermuted(s, begin, end);
    while true
      invariant begin <= ltend <= eqbeg < eqend <= gtbeg <= end
      invariant Zones(a[..], pivot, less, ltend, eqbeg, eqend, gtbeg) && Permuted(s, a[..], begin, end)
      decreases end - gtbeg + ltend - begin
    {
      ghost var s0 := a[..];
      InPermuted(s, s0, begin, end, dom);
      eqend, gtbeg := ScanRight(a, begin, ltend, eqbeg, eqend, gtbeg, end, less, pivot, dom);
      ghost var s1 := a[..];
      InPermuted(s0, s1, begin, end, dom);
      ltend, eqbeg := ScanLeft(a, begin, ltend, eqbeg, eqend, gtbeg, end, less, pivot, dom);
      ghost var s2 := a[..];
      PermutedTwice(s, s0, s1, begin, end);
      PermutedTwice(s, s1, s2, begin, end);
      if gtbeg == end && ltend == begin {
        return;
      }
      ltend, eqbeg, eqend, gtbeg := MakeRoom(a, begin, ltend, eqbeg, eqend, gtbeg, end, less, pivot);
      PermutedTwice(s, s2, a[..], begin, end);
    }
  }

  /** Both scans have stopped: elements change sides, and the equal zone moves where one side is exhausted. */
  method MakeRoom<T(==)>(a: array<T>, begin: nat, ltend0: nat, eqbeg0: nat, eqend0: nat, gtbeg0: nat, end: nat,
                               less: (T, T) -> bool, ghost pivot: T)
    returns (ltend: nat, eqbeg: nat, eqend: nat, gtbeg: nat)
    requires begin <= ltend0 <= eqbeg0 < eqend0 <= gtbeg0 <= end <= a.Length
    requires Zones(a[..], pivot, less, ltend0, eqbeg0, eqend0, gtbeg0)
    requires begin < ltend0 ==> less(pivot, a[ltend0 - 1])
    requires gtbeg0 < end ==> less(a[gtbeg0], pivot)
    requires begin < ltend0 || gtbeg0 < end
    modifies a
    ensures begin <= ltend <= eqbeg < eqend <= gtbeg <= end
    ensures Zones(a[..], pivot, less, ltend, eqbeg, eqend, gtbeg) && Permuted(old(a[..]), a[..], begin, end)
    ensures end - gtbeg + ltend < end - gtbeg0 + ltend0
  {
    hide Swapped, Permuted, Zones;
    ltend, eqbeg, eqend, gtbeg := ltend0, eqbeg0, eqend0, gtbeg0;
    if gtbeg == end {
      ltend, eqbeg, eqend := EqualsDown(a, begin, ltend, eqbeg, eqend, end, less, pivot);
    } else if ltend == begin {
      eqbeg, eqend, gtbeg := EqualsUp(a, begin, eqbeg, eqend, gtbeg, end, less, pivot);
    } else {
      ChangeSides(a[..], pivot, less, ltend, eqbeg, eqend, gtbeg);
      Swap(a, gtbeg, ltend - 1, begin, end);
      gtbeg, ltend := gtbeg + 1, ltend - 1;
    }
  }

  method EqualsDown<T(==)>(a: array<T>, begin: nat, ltend0: nat, eqbeg0: nat, eqend0: nat, end: nat,
                                 less: (T, T) -> bool, ghost pivot: T)
    returns (ltend: nat, eqbeg: nat, eqend: nat)
    requires begin < ltend0 <= eqbeg0 < eqend0 <= end <= a.Length
    requires Zones(a[..], pivot, less, ltend0, eqbeg0, eqend0, end) && less(pivot, a[ltend0 - 1])
    modifies a
    ensures ltend == ltend0 - 1 && eqbeg == eqbeg0 - 1 && eqend == eqend0 - 1
    ensures Zones(a[..], pivot, less, ltend, eqbeg, eqend, end) && Permuted(old(a[..]), a[..], begin, end)
  {
    hide Swapped, Permuted, Zones;
    ghost var s := a[..];
    EqualZoneDown(s, pivot, less, ltend0, eqbeg0, eqend0, end);
    ltend, eqbeg := ltend0 - 1, eqbeg0 - 1;
    SwappedSame(s, ltend);
    SamePermuted(s, begin, end);
    if ltend != eqbeg {
      Swap(a, ltend, eqbeg, begin, end);
    }
    ghost var t := a[..];
    eqend := eqend0 - 1;
    Swap(a, eqbeg, eqend, begin, end);
    PermutedTwice(s, t, a[..], begin, end);
  }

  method EqualsUp<T(==)>(a: array<T>, begin: nat, eqbeg0: nat, eqend0: nat, gtbeg0: nat, end: nat,
                               less: (T, T) -> bool, ghost pivot: T)
    returns (eqbeg: nat, eqend: nat, gtbeg: nat)
    requires begin <= eqbeg0 < eqend0 <= gtbeg0 < end <= a.Length
    requires Zones(a[..], pivot, less, begin, eqbeg0, eqend0, gtbeg0) && less(a[gtbeg0], pivot)
    modifies a
    ensures eqbeg == eqbeg0 + 1 && eqend == eqend0 + 1 && gtbeg == gtbeg0 + 1
    ensures Zones(a[..], pivot, less, begin, eqbeg, eqend, gtbeg) && Permuted(old(a[..]), a[..], begin, end)
  {
    hide Swapped, Permuted, Zones;
    ghost var s := a[..];
    EqualZoneUp(s, pivot, less, begin, eqbeg0, eqend0, gtbeg0);
    SamePermuted(s, begin, end);
    if eqend0 != gtbeg0 {
      Swap(a, eqbeg0, eqend0, begin, end);
    }
    ghost var t := a[..];
    eqend := eqend0 + 1;
    Swap(a, gtbeg0, eqbeg0, begin, end);
    gtbeg, eqbeg := gtbeg0 + 1, eqbeg0 + 1;
    PermutedTwice(s, t, a[..], begin, end);
  }

  lemma EqualZone<T>(s: seq<T>, pivot: T, less: (T, T) -> bool, eqbeg: nat, eqend: nat)
    requires eqbeg <= eqend <= |s| && forall i | eqbeg <= i < eqend :: s[i] == pivot
    ensures Zones(s, pivot, less, eqbeg, eqbeg, eqend, eqend)
  {
  }

  lemma SwappedSame<T>(s: seq<T>, i: nat)
    requires i < |s|
    ensures Swapped(s, i, i) == s
  {
  }

  /** Finds the element from the right side that belongs to the left one. */
  method ScanRight<T(==)>(a: array<T>, begin: nat, ltend: nat, eqbeg: nat, eqend0: nat, gtbeg0: nat, end: nat,
                                less: (T, T) -> bool, ghost pivot: T, ghost dom: set<T>)
    returns (eqend: nat, gtbeg: nat)
    requires Orders(less, dom) && pivot in dom && In(a[..], begin, end, dom)
    requires begin <= ltend <= eqbeg < eqend0 <= gtbeg0 <= end <= a.Length
    requires Zones(a[..], pivot, less, ltend, eqbeg, eqend0, gtbeg0)
    modifies a
    ensures eqend0 <= eqend <= gtbeg <= end && gtbeg0 <= gtbeg
    ensures Zones(a[..], pivot, less, ltend, eqbeg, eqend, gtbeg)
    ensures Permuted(old(a[..]), a[..], begin, end)
    ensures gtbeg < end ==> less(a[gtbeg], pivot)
  {
    hide Orders, Swapped, Permuted, In;
    ghost var s := a[..];
    eqend, gtbeg := eqend0, gtbeg0;
    SamePermuted(s, begin, end);
    while gtbeg != end
      invariant eqend0 <= eqend <= gtbeg <= end && gtbeg0 <= gtbeg
      invariant Zones(a[..], pivot, less, ltend, eqbeg, eqend, gtbeg) && Permuted(s, a[..], begin, end)
      decreases end - gtbeg
    {
      assert a[eqbeg] == pivot;
      if !less(a[eqbeg], a[gtbeg]) {
        if a[gtbeg] == a[eqbeg] {
          ghost var t := a[..];
          EqualOnRight(t, pivot, less, ltend, eqbeg, eqend, gtbeg);
          Swap(a, gtbeg, eqend, begin, end);
          PermutedTwice(s, t, a[..], begin, end);
          eqend := eqend + 1;
        } else {
          InPermuted(s, a[..], begin, end, dom);
          InAt(a[..], begin, end, dom, gtbeg);
          Trichotomy(less, dom, a[gtbeg], pivot);
          break;
        }
      }
      gtbeg := gtbeg + 1;
    }
  }

  /** Finds the element from the left side that belongs to the right one. */
  method ScanLeft<T(==)>(a: array<T>, begin: nat, ltend0: nat, eqbeg0: nat, eqend: nat, gtbeg: nat, end: nat,
                               less: (T, T) -> bool, ghost pivot: T, ghost dom: set<T>)
    returns (ltend: nat, eqbeg: nat)
    requires Orders(less, dom) && pivot in dom && In(a[..], begin, end, dom)
    requires begin <= ltend0 <= eqbeg0 < eqend <= gtbeg <= end <= a.Length
    requires Zones(a[..], pivot, less, ltend0, eqbeg0, eqend, gtbeg)
    modifies a
    ensures begin <= ltend <= eqbeg <= eqbeg0 && ltend <= ltend0
    ensures Zones(a[..], pivot, less, ltend, eqbeg, eqend, gtbeg)
    ensures Permuted(old(a[..]), a[..], begin, end)
    ensures begin < ltend ==> less(pivot, a[ltend - 1])
    ensures gtbeg < a.Length ==> a[gtbeg] == old(a[gtbeg])
  {
    hide Orders, Swapped, Permuted, In;
    ghost var s := a[..];
    ltend, eqbeg := ltend0, eqbeg0;
    SamePermuted(s, begin, end);
    while ltend != begin
      invariant begin <= ltend <= eqbeg <= eqbeg0 && ltend <= ltend0
      invariant Zones(a[..], pivot, less, ltend, eqbeg, eqend, gtbeg) && Permuted(s, a[..], begin, end)
      invariant gtbeg < a.Length ==> a[gtbeg] == old(a[gtbeg])
      decreases ltend
    {
      assert a[eqbeg] == pivot;
      if !less(a[ltend - 1], a[eqbeg]) {
        if a[eqbeg] == a[ltend - 1] {
          ghost var t := a[..];
          EqualOnLeft(t, pivot, less, ltend, eqbeg, eqend, gtbeg);
          eqbeg := eqbeg - 1;
          Swap(a, ltend - 1, eqbeg, begin, end);
          PermutedTwice(s, t, a[..], begin, end);
        } else {
          InPermuted(s, a[..], begin, end, dom);
          InAt(a[..], begin, end, dom, ltend - 1);
          Trichotomy(less, dom, a[ltend - 1], pivot);
          break;
        }
      }
      ltend := ltend - 1;
    }
  }

  lemma SamePermuted<T>(s: seq<T>, lo: nat, hi: nat)
    requires lo <= hi <= |s|
    ensures Permuted(s, s, lo, hi)
  {
  }

  // ----- insertion sort -----

  /** `copy_backwards`: the range moves up by one. */
  method ShiftUp<T>(a: array<T>, begin: nat, it: nat)
    requires begin <= it < a.Length
    modifies a
    ensures a[..] == old(a[..])[..begin + 1] + old(a[..])[begin..it] + old(a[..])[it + 1..]
  {
    ghost var s := a[..];
    var i := it;
    while i != begin
      invariant begin <= i <= it
      invariant forall j | 0 <= j <= i || it < j < a.Length :: a[j] == s[j]
      invariant forall j | i < j <= it :: a[j] == s[j - 1]
    {
      a[i] := a[i - 1];
      i := i - 1;
    }
    assert a[..] == s[..begin + 1] + s[begin..it] + s[it + 1..];
  }

  /** `val` inserted at `k` into the sorted range `[begin, it)`, in place of the element at `it`. */
  function Inserted<T>(s: seq<T>, k: nat, it: nat): (t: seq<T>)
    requires k <= it < |s|
    ensures |t| == |s|
  {
    s[..k] + [s[it]] + s[k..it] + s[it + 1..]
  }

  lemma InsertedPermutes<T>(s: seq<T>, begin: nat, k: nat, it: nat, end: nat)
    requires begin <= k <= it < end <= |s|
    ensures Permuted(s, Inserted(s, k, it), begin, end)
  {
    var t := Inserted(s, k, it);
    assert s[begin..end] == s[begin..k] + s[k..it] + [s[it]] + s[it + 1..end];
    assert t[begin..end] == s[begin..k] + [s[it]] + s[k..it] + s[it + 1..end];
  }

  lemma InsertedSorts<T>(s: seq<T>, begin: nat, k: nat, it: nat, less: (T, T) -> bool, dom: set<T>)
    requires Orders(less, dom) && In(s, begin, it + 1, dom) && begin <= k <= it < |s| && Sorted(s, begin, it, less)
    requires k > begin ==> !less(s[it], s[k - 1])
    requires forall j | k <= j < it :: less(s[it], s[j])
    ensures Sorted(Inserted(s, k, it), begin, it + 1, less)
  {
    hide Orders;
    var t := Inserted(s, k, it);
    if k > begin {
      Trichotomy(less, dom, s[it], s[k - 1]);
    }
    forall i, j | begin <= i < j < it + 1
      ensures Leq(less, t[i], t[j])
    {
      if i < k - 1 && j == k {
        assert Leq(less, s[i], s[k - 1]);
        LeqTwice(less, dom, s[i], s[k - 1], s[it]);
      }
    }
  }

  method InsertionSort<T(==)>(a: array<T>, begin: nat, end: nat, less: (T, T) -> bool, ghost dom: set<T>)
    requires Orders(less, dom) && begin < end <= a.Length && In(a[..], begin, end, dom)
    modifies a
    ensures Sorted(a[..], begin, end, less) && Permuted(old(a[..]), a[..], begin, end)
  {
    hide Orders, Permuted, In;
    ghost var s := a[..];
    SamePermuted(s, begin, end);
    var it := begin + 1;
    while it != end
      invariant begin < it <= end
      invariant Sorted(a[..], begin, it, less) && Permuted(s, a[..], begin, end)
      decreases end - it
    {
      ghost var t := a[..];
      InPermuted(s, t, begin, end, dom);
      InPart(t, begin, end, dom, begin, it + 1);
      ghost var k := Insert(a, begin, it, less, dom);
      InsertedPermutes(t, begin, k, it, end);
      PermutedTwice(s, t, a[..], begin, end);
      it := it + 1;
    }
  }

  /** One element finds its place; the unguarded search never goes below `begin`. */
  method Insert<T(==)>(a: array<T>, begin: nat, it: nat, less: (T, T) -> bool, ghost dom: set<T>) returns (ghost k: nat)
    requires Orders(less, dom) && begin < it < a.Length && Sorted(a[..], begin, it, less) && In(a[..], begin, it + 1, dom)
    modifies a
    ensures begin <= k <= it && a[..] == Inserted(old(a[..]), k, it)
    ensures Sorted(a[..], begin, it + 1, less)
  {
    hide Orders, Inserted, Sorted, In;
    ghost var s := a[..];
    var val := a[it];
    if less(val, a[begin]) {
      LessThanAll(s, begin, it, less, dom);
      k := begin;
      ShiftUp(a, begin, it);
      a[begin] := val;
      assert a[..] == Inserted(s, begin, it) by {
        InsertedInPlace(s, a[..], begin, it);
      }
    } else {
      k := FillHole(a, begin, it, less);
    }
    InsertedSorts(s, begin, k, it, less, dom);
  }

  lemma InsertedInPlace<T>(s: seq<T>, t: seq<T>, k: nat, it: nat)
    requires k <= it < |s|
    requires t == (s[..k + 1] + s[k..it] + s[it + 1..])[k := s[it]]
    ensures t == Inserted(s, k, it)
  {
  }

  /** Moves the hole backwards until the element fits. */
  method FillHole<T(==)>(a: array<T>, begin: nat, it: nat, less: (T, T) -> bool) returns (hole: nat)
    requires begin < it < a.Length && !less(a[it], a[begin])
    modifies a
    ensures begin < hole <= it && a[..] == Inserted(old(a[..]), hole, it)
    ensures !less(old(a[it]), old(a[hole - 1]))
    ensures forall j | hole <= j < it :: less(old(a[it]), old(a[j]))
  {
    hide Inserted;
    ghost var s := a[..];
    var val := a[it];
    hole := it;
    while less(val, a[hole - 1])
      invariant begin < hole <= it
      invariant a[..] == s[..hole + 1] + s[hole..it] + s[it + 1..]
      invariant forall j | hole <= j < it :: less(val, s[j])
      decreases hole
    {
      a[hole] := a[hole - 1];
      hole := hole - 1;
    }
    assert a[hole - 1] == s[hole - 1];
    a[hole] := val;
    InsertedInPlace(s, a[..], hole, it);
  }

  lemma LessThanAll<T>(s: seq<T>, begin: nat, it: nat, less: (T, T) -> bool, dom: set<T>)
    requires Orders(less, dom) && begin < it < |s| && Sorted(s, begin, it, less) && In(s, begin, it + 1, dom)
    requires less(s[it], s[begin])
    ensures forall j | begin <= j < it :: less(s[it], s[j])
  {
    forall j | begin <= j < it
      ensures less(s[it], s[j])
    {
      if j > begin {
        assert Leq(less, s[begin], s[j]);
        Trichotomy(less, dom, s[begin], s[j]);
      }
    }
  }

  // ----- quicksort -----

  /** The median of three elements. */
  function Middle<T>(less: (T, T) -> bool, x: T, y: T, z: T): T
  {
    var lo, hi := if less(y, x) then y else x, if less(y, x) then x else y;
    if !less(z, hi) then hi else if less(z, lo) then lo else z
  }

  /** At least two of the three are not greater and at least two are not less. */
  lemma MiddleIsMedian<T>(less: (T, T) -> bool, dom: set<T>, x: T, y: T, z: T)
    requires Orders(less, dom) && x in dom && y in dom && z in dom
    ensures var m := Middle(less, x, y, z);
            && (m == x || m == y || m == z)
            && One(Leq(less, x, m)) + One(Leq(less, y, m)) + One(Leq(less, z, m)) >= 2
            && One(Leq(less, m, x)) + One(Leq(less, m, y)) + One(Leq(less, m, z)) >= 2
  {
    Trichotomy(less, dom, x, y);
    Trichotomy(less, dom, y, z);
    Trichotomy(less, dom, x, z);
  }

  /** The median of three elements, or that of the medians of nine, depending on the size of the range. */
  function Pivot<T>(less: (T, T) -> bool, s: seq<T>, first: nat, middle: nat, last: nat): T
    requires first < last < |s| && middle == first + (last - first + 1) / 2 && last - first >= 32
  {
    if last - first <= 40 then Middle(less, s[first], s[middle], s[last]) else
    MiddleOf9(less, s, first, middle, last, (last - first + 1) / 8)
  }

  function MiddleOf9<T>(less: (T, T) -> bool, s: seq<T>, first: nat, middle: nat, last: nat, step: nat): T
    requires last < |s| && first + 3 * step < middle && middle + 3 * step < last
  {
    Middle(less,
           Middle(less, s[first], s[first + step], s[first + 2 * step]),
           Middle(less, s[middle - step], s[middle], s[middle + step]),
           Middle(less, s[last - 2 * step], s[last - step], s[last]))
  }

  /** What is left to do after the first group. */
  function MiddleOf6<T>(less: (T, T) -> bool, s: seq<T>, l: nat, middle: nat, r: nat, step: nat): T
    requires r + step < |s| && l + 2 * step < middle && middle + 2 * step < r
  {
    Middle(less,
           s[l],
           Middle(less, s[middle - step], s[middle], s[middle + step]),
           Middle(less, s[r - step], s[r], s[r + step]))
  }

  lemma AfterFirstGroup<T>(less: (T, T) -> bool, s: seq<T>, t: seq<T>, first: nat, middle: nat, last: nat, step: nat)
    requires last < |s| && first + 3 * step < middle && middle + 3 * step < last
    requires MedianMoved(less, s, t, first, first + step, first + 2 * step)
    ensures MiddleOf6(less, t, first + step, middle, last - step, step) == MiddleOf9(less, s, first, middle, last, step)
  {
    hide Middle;
    assert last - step - step == last - 2 * step;
  }

  lemma AfterLastGroups<T>(less: (T, T) -> bool, s: seq<T>, t: seq<T>, u: seq<T>, l: nat, middle: nat, r: nat, step: nat)
    requires 0 < step && r + step < |s| && l + 2 * step < middle && middle + 2 * step < r
    requires MedianMoved(less, s, t, middle - step, middle, middle + step) && MedianMoved(less, t, u, r - step, r, r + step)
    ensures Middle(less, u[l], u[middle], u[r]) == MiddleOf6(less, s, l, middle, r, step)
  {
    hide Middle;
  }

  /** The median of three elements is in the middle, and all elements apart from the three are where they were. */
  ghost predicate MedianMoved<T>(less: (T, T) -> bool, s: seq<T>, t: seq<T>, first: nat, middle: nat, last: nat)
  {
    && first < middle < last < |s| == |t|
    && t[middle] == Middle(less, s[first], s[middle], s[last])
    && forall i | 0 <= i < |s| && i != first && i != middle && i != last :: t[i] == s[i]
  }

  lemma MovedHere<T>(less: (T, T) -> bool, s: seq<T>, t: seq<T>, first: nat, middle: nat, last: nat)
    requires MedianMoved(less, s, t, first, middle, last)
    ensures last < |s| == |t| && t[middle] == Middle(less, s[first], s[middle], s[last])
  {
  }

  /** Sorts three elements. */
  method Median3<T(==)>(a: array<T>, first: nat, middle: nat, last: nat, less: (T, T) -> bool,
                        ghost begin: nat, ghost end: nat, ghost dom: set<T>)
    requires Orders(less, dom) && begin <= first < middle < last < end <= a.Length && In(a[..], begin, end, dom)
    modifies a
    ensures Permuted(old(a[..]), a[..], begin, end) && MedianMoved(less, old(a[..]), a[..], first, middle, last)
    ensures Leq(less, a[first], a[middle]) && Leq(less, a[middle], a[last])
  {
    hide Permuted, Swapped;
    ghost var s := a[..];
    SamePermuted(s, begin, end);
    if less(a[middle], a[first]) {
      SwapTwo(a, middle, first, begin, end);
    }
    ghost var t := a[..];
    if less(a[last], a[middle]) {
      SwapTwo(a, last, middle, begin, end);
      PermutedTwice(s, t, a[..], begin, end);
    }
    ghost var u := a[..];
    if less(a[middle], a[first]) {
      SwapTwo(a, middle, first, begin, end);
      PermutedTwice(s, u, a[..], begin, end);
    }
  }

  method SwapTwo<T>(a: array<T>, i: nat, j: nat, ghost lo: nat, ghost hi: nat)
    requires lo <= i < hi <= a.Length && lo <= j < hi
    modifies a
    ensures Permuted(old(a[..]), a[..], lo, hi)
    ensures a[i] == old(a[j]) && a[j] == old(a[i])
    ensures forall k | 0 <= k < a.Length && k != i && k != j :: a[k] == old(a[k])
  {
    Swap(a, i, j, lo, hi);
  }

  /** Brings a median of three or nine elements to the middle. */
  method Median<T(==)>(a: array<T>, first: nat, middle: nat, last: nat, less: (T, T) -> bool, ghost dom: set<T>)
    requires Orders(less, dom) && In(a[..], first, last + 1, dom)
    requires first < last < a.Length && middle == first + (last - first + 1) / 2 && last - first >= 32
    modifies a
    ensures Permuted(old(a[..]), a[..], first, last + 1)
    ensures a[middle] == Pivot(less, old(a[..]), first, middle, last)
  {
    hide Permuted, Orders, Middle, In, MiddleOf9;
    if last - first <= 40 {
      Median3(a, first, middle, last, less, first, last + 1, dom);
    } else {
      MedianOf9(a, first, middle, last, (last - first + 1) / 8, less, dom);
    }
  }

  method MedianOf9<T(==)>(a: array<T>, first: nat, middle: nat, last: nat, step: nat, less: (T, T) -> bool,
                          ghost dom: set<T>)
    requires Orders(less, dom) && 0 < step && last < a.Length && In(a[..], first, last + 1, dom)
    requires first + 3 * step < middle && middle + 3 * step < last
    modifies a
    ensures Permuted(old(a[..]), a[..], first, last + 1)
    ensures a[middle] == MiddleOf9(less, old(a[..]), first, middle, last, step)
  {
    hide Permuted, Orders, Middle, Leq, In, MedianMoved, MiddleOf9, MiddleOf6;
    ghost var s := a[..];
    Median3(a, first, first + step, first + 2 * step, less, first, last + 1, dom);
    ghost var t := a[..];
    InPermuted(s, t, first, last + 1, dom);
    AfterFirstGroup(less, s, t, first, middle, last, step);
    MedianOf6(a, first + step, middle, last - step, step, less, first, last + 1, dom);
    PermutedTwice(s, t, a[..], first, last + 1);
  }

  /** The middle and the last group, after the first one. */
  method MedianOf6<T(==)>(a: array<T>, l: nat, middle: nat, r: nat, step: nat, less: (T, T) -> bool,
                          ghost begin: nat, ghost end: nat, ghost dom: set<T>)
    requires Orders(less, dom) && 0 < step && begin <= l && r + step < end <= a.Length && In(a[..], begin, end, dom)
    requires l + 2 * step < middle && middle + 2 * step < r
    modifies a
    ensures Permuted(old(a[..]), a[..], begin, end)
    ensures a[middle] == MiddleOf6(less, old(a[..]), l, middle, r, step)
  {
    hide Permuted, Orders, Middle, Leq, In, MedianMoved, MiddleOf6;
    ghost var s := a[..];
    Median3(a, middle - step, middle, middle + step, less, begin, end, dom);
    ghost var t := a[..];
    InPermuted(s, t, begin, end, dom);
    Median3(a, r - step, r, r + step, less, begin, end, dom);
    ghost var u := a[..];
    InPermuted(t, u, begin, end, dom);
    AfterLastGroups(less, s, t, u, l, middle, r, step);
    Median3(a, l, middle, r, less, begin, end, dom);
    MovedHere(less, u, a[..], l, middle, r);
    PermutedTwice(s, t, u, begin, end);
    PermutedTwice(s, u, a[..], begin, end);
  }

  /** Any two elements of `[lo, hi)` are in order unless both stand in `[b, e)`. */
  ghost predicate OrderedAround<T>(s: seq<T>, lo: nat, b: nat, e: nat, hi: nat, less: (T, T) -> bool)
  {
    && lo <= b <= e <= hi <= |s|
    && forall i, j | lo <= i < j < hi && (i < b || e <= j) :: Leq(less, s[i], s[j])
  }

  lemma AroundPermuted<T>(s: seq<T>, t: seq<T>, lo: nat, b: nat, e: nat, hi: nat, less: (T, T) -> bool)
    requires OrderedAround(s, lo, b, e, hi, less) && Permuted(s, t, b, e)
    ensures OrderedAround(t, lo, b, e, hi, less)
  {
    forall i, j | lo <= i < j < hi && (i < b || e <= j)
      ensures Leq(less, t[i], t[j])
    {
      var p, q := i, j;
      if b <= i < e {
        p := PermutedFrom(s, t, b, e, i);
      }
      if b <= j < e {
        q := PermutedFrom(s, t, b, e, j);
      }
      assert Leq(less, s[p], s[q]);
    }
  }

  /** After a partition, the part on one side of the pivot may be sorted on its own. */
  lemma AroundPartition<T>(s: seq<T>, pivot: T, lo: nat, b: nat, eqbeg: nat, eqend: nat, e: nat, hi: nat,
                           less: (T, T) -> bool, dom: set<T>)
    requires Orders(less, dom) && pivot in dom && In(s, b, e, dom)
    requires OrderedAround(s, lo, b, e, hi, less) && Zones(s, pivot, less, b, eqbeg, eqend, e)
    ensures Sorted(s, eqend, e, less) ==> OrderedAround(s, lo, b, eqbeg, hi, less)
    ensures Sorted(s, b, eqbeg, less) ==> OrderedAround(s, lo, eqend, e, hi, less)
  {
    hide Orders;
    forall i, j | b <= i < j < e && (i < eqend && eqbeg <= j)
      ensures Leq(less, s[i], s[j])
    {
      LeqTwice(less, dom, s[i], pivot, s[j]);
    }
  }

  lemma ZonesPermuted<T>(s: seq<T>, t: seq<T>, pivot: T, less: (T, T) -> bool, b: nat, eqbeg: nat, eqend: nat, e: nat)
    requires Zones(s, pivot, less, b, eqbeg, eqend, e)
    requires Permuted(s, t, b, eqbeg) || Permuted(s, t, eqend, e)
    ensures Zones(t, pivot, less, b, eqbeg, eqend, e)
  {
    if Permuted(s, t, b, eqbeg) {
      forall i | b <= i < eqbeg
        ensures less(t[i], pivot)
      {
        var j := PermutedFrom(s, t, b, eqbeg, i);
      }
    } else {
      forall i | eqend <= i < e
        ensures less(pivot, t[i])
      {
        var j := PermutedFrom(s, t, eqend, e, i);
      }
    }
  }

  lemma AllInside<T>(s: seq<T>, lo: nat, hi: nat, less: (T, T) -> bool)
    requires lo <= hi <= |s|
    ensures OrderedAround(s, lo, lo, hi, hi, less)
  {
  }

  lemma AroundSorted<T>(s: seq<T>, lo: nat, b: nat, e: nat, hi: nat, less: (T, T) -> bool)
    requires OrderedAround(s, lo, b, e, hi, less) && (Sorted(s, b, e, less) || b == e)
    ensures Sorted(s, lo, hi, less)
  {
  }

  /** One side of the pivot has been sorted: what is left to sort is the other side. */
  lemma SideSorted<T>(v: seq<T>, w: seq<T>, pivot: T, lo: nat, b: nat, eqbeg: nat, eqend: nat, e: nat, hi: nat,
                      less: (T, T) -> bool, dom: set<T>)
    requires Orders(less, dom) && pivot in dom && In(v, b, e, dom)
    requires OrderedAround(v, lo, b, e, hi, less) && Zones(v, pivot, less, b, eqbeg, eqend, e)
    requires Permuted(v, w, b, eqbeg) || Permuted(v, w, eqend, e)
    ensures Permuted(v, w, b, e)
    ensures Sorted(w, eqend, e, less) ==> OrderedAround(w, lo, b, eqbeg, hi, less)
    ensures Sorted(w, b, eqbeg, less) ==> OrderedAround(w, lo, eqend, e, hi, less)
  {
    hide Orders, OrderedAround, In;
    ZonesPermuted(v, w, pivot, less, b, eqbeg, eqend, e);
    if Permuted(v, w, b, eqbeg) {
      PermutedPart(v, w, b, eqbeg, b, e);
    } else {
      PermutedPart(v, w, eqend, e, b, e);
    }
    AroundPermuted(v, w, lo, b, e, hi, less);
    InPermuted(v, w, b, e, dom);
    AroundPartition(w, pivot, lo, b, eqbeg, eqend, e, hi, less, dom);
  }

  /** The smaller side has less than half of the elements, so one more nested call is covered. */
  lemma DepthBounded(d: nat, side: nat, all: nat)
    requires (Pow2(d) <= side || d == 0) && 2 * side <= all && all >= 2
    ensures Pow2(d + 1) <= all
  {
    assert Pow2(1) == 2 * Pow2(0);
  }

  /** Sorts the range; `depth` counts the nested calls, which are made for the smaller side only. */
  method Sort<T(==)>(a: array<T>, begin0: nat, end0: nat, less: (T, T) -> bool, ghost dom: set<T>)
    returns (ghost depth: nat)
    requires Orders(less, dom) && begin0 <= end0 <= a.Length && In(a[..], begin0, end0, dom)
    modifies a
    ensures Sorted(a[..], begin0, end0, less)
    ensures Permuted(old(a[..]), a[..], begin0, end0)
    ensures Pow2(depth) <= end0 - begin0 || depth == 0
    decreases end0 - begin0, 1
  {
    hide Orders, Permuted, OrderedAround, Sorted, Pow2, In;
    ghost var s := a[..];
    SamePermuted(s, begin0, end0);
    AllInside(s, begin0, end0, less);
    var begin, end := begin0, end0;
    depth := 0;
    while end - begin > 32
      invariant begin0 <= begin <= end <= end0
      invariant OrderedAround(a[..], begin0, begin, end, end0, less) && Permuted(s, a[..], begin0, end0)
      invariant Pow2(depth) <= end0 - begin0 || depth == 0
    {
      ghost var t, d := a[..], 0;
      InPermuted(s, t, begin0, end0, dom);
      begin, end, d := SplitOff(a, begin, end, less, begin0, end0, dom);
      PermutedTwice(s, t, a[..], begin0, end0);
      depth := if d > depth then d else depth;
    }
    ghost var t := a[..];
    SamePermuted(t, begin0, end0);
    if begin != end {
      InPermuted(s, t, begin0, end0, dom);
      InPart(t, begin0, end0, dom, begin, end);
      InsertionSort(a, begin, end, less, dom);
      AroundPermuted(t, a[..], begin0, begin, end, end0, less);
      PermutedPart(t, a[..], begin, end, begin0, end0);
    }
    PermutedTwice(s, t, a[..], begin0, end0);
    AroundSorted(a[..], begin0, begin, end, end0, less);
  }

  /** One round of the loop: partitions, sorts the smaller side and goes on with the larger one. */
  method SplitOff<T(==)>(a: array<T>, b: nat, e: nat, less: (T, T) -> bool, ghost lo: nat, ghost hi: nat,
                         ghost dom: set<T>)
    returns (begin: nat, end: nat, ghost depth: nat)
    requires Orders(less, dom) && e - b > 32 && hi <= a.Length && OrderedAround(a[..], lo, b, e, hi, less)
    requires In(a[..], lo, hi, dom)
    modifies a
    ensures b <= begin <= end <= e && end - begin < e - b
    ensures OrderedAround(a[..], lo, begin, end, hi, less) && Permuted(old(a[..]), a[..], lo, hi)
    ensures Pow2(depth) <= e - b
    decreases e - b, 0
  {
    hide Orders, Permuted, Zones, Sorted, Pow2, In, OrderedAround;
    ghost var t := a[..];
    AroundWithin(t, lo, b, e, hi, less);
    InPart(t, lo, hi, dom, b, e);
    var eqbeg, eqend := MedianPartition(a, b, e, less, lo, hi, dom);
    ghost var v, pivot := a[..], a[eqbeg];
    InPermuted(t, v, b, e, dom);
    InAt(v, b, e, dom, eqbeg);
    begin, end := b, e;
    if eqbeg - begin > end - eqend {
      InPart(v, b, e, dom, eqend, end);
      depth := Sort(a, eqend, end, less, dom);
      DepthBounded(depth, end - eqend, e - b);
      end := eqbeg;
    } else {
      InPart(v, b, e, dom, begin, eqbeg);
      depth := Sort(a, begin, eqbeg, less, dom);
      DepthBounded(depth, eqbeg - begin, e - b);
      begin := eqend;
    }
    SideSorted(v, a[..], pivot, lo, b, eqbeg, eqend, e, hi, less, dom);
    PermutedTwice(t, v, a[..], b, e);
    PermutedPart(t, a[..], b, e, lo, hi);
    depth := depth + 1;
  }

  lemma AroundWithin<T>(s: seq<T>, lo: nat, b: nat, e: nat, hi: nat, less: (T, T) -> bool)
    requires OrderedAround(s, lo, b, e, hi, less)
    ensures lo <= b <= e <= hi <= |s|
  {
  }

  /** A median, and the partition around it. */
  method MedianPartition<T(==)>(a: array<T>, b: nat, e: nat, less: (T, T) -> bool, ghost lo: nat, ghost hi: nat,
                                ghost dom: set<T>)
    returns (eqbeg: nat, eqend: nat)
    requires Orders(less, dom) && e - b > 32 && hi <= a.Length && OrderedAround(a[..], lo, b, e, hi, less)
    requires In(a[..], b, e, dom)
    modifies a
    ensures b <= eqbeg < eqend <= e && Zones(a[..], a[eqbeg], less, b, eqbeg, eqend, e)
    ensures OrderedAround(a[..], lo, b, e, hi, less) && Permuted(old(a[..]), a[..], b, e)
  {
    hide Orders, Permuted, Zones, Sorted, In;
    ghost var t := a[..];
    var middle := b + (e - b) / 2;
    Median(a, b, middle, e - 1, less, dom);
    ghost var u, pivot := a[..], a[middle];
    InPermuted(t, u, b, e, dom);
    eqbeg, eqend := Partition(a, b, middle, e, less, dom);
    ghost var v := a[..];
    PermutedTwice(t, u, v, b, e);
    AroundPermuted(t, v, lo, b, e, hi, less);
    PivotAt(v, pivot, less, b, eqbeg, eqend, e);
  }

  lemma PivotAt<T>(s: seq<T>, pivot: T, less: (T, T) -> bool, b: nat, eqbeg: nat, eqend: nat, e: nat)
    requires Zones(s, pivot, less, b, eqbeg, eqend, e) && eqbeg < eqend
    ensures s[eqbeg] == pivot
  {
  }

  // ----- removing duplicates -----

  /** Without elements that equal their predecessor. */
  function Dedup<T(==)>(s: seq<T>): (t: seq<T>)
    ensures |t| <= |s|
    ensures s == [] <==> t == []
    ensures s != [] ==> t[|t| - 1] == s[|s| - 1]
  {
    if |s| < 2 then s
    else if s[|s| - 1] == s[|s| - 2] then Dedup(s[..|s| - 1])
    else Dedup(s[..|s| - 1]) + [s[|s| - 1]]
  }

  /** On a sorted range this leaves every element once, in ascending order. */
  lemma {:induction false} DedupOfSorted<T>(s: seq<T>, less: (T, T) -> bool, dom: set<T>)
    requires Orders(less, dom) && Sorted(s, 0, |s|, less) && In(s, 0, |s|, dom)
    ensures forall i, j | 0 <= i < j < |Dedup(s)| :: Dedup(s)[i] != Dedup(s)[j] && less(Dedup(s)[i], Dedup(s)[j])
    ensures forall x | x in dom :: x in Dedup(s) <==> x in s
    ensures forall x | x in Dedup(s) :: x in dom
  {
    hide Orders;
    if |s| >= 2 {
      var front, last := s[..|s| - 1], s[|s| - 1];
      DedupOfSorted(front, less, dom);
      var d := Dedup(front);
      assert s == front + [last];
      if last != s[|s| - 2] {
        forall i | 0 <= i < |d|
          ensures d[i] != last && less(d[i], last)
        {
          assert d[i] in d && d[i] in dom;
          assert d[i] in front;
          var k :| 0 <= k < |front| && front[k] == d[i];
          BeforeLast(s, k, less, dom);
        }
      }
    }
  }

  lemma BeforeLast<T>(s: seq<T>, k: nat, less: (T, T) -> bool, dom: set<T>)
    requires Orders(less, dom) && Sorted(s, 0, |s|, less) && In(s, 0, |s|, dom)
    requires |s| >= 2 && k < |s| - 1 && s[|s| - 1] != s[|s| - 2]
    ensures s[k] != s[|s| - 1] && less(s[k], s[|s| - 1])
  {
    var n := |s| - 1;
    assert Leq(less, s[k], s[n - 1]) || k == n - 1;
    assert Leq(less, s[n - 1], s[n]);
    Trichotomy(less, dom, s[k], s[n - 1]);
    Trichotomy(less, dom, s[n - 1], s[n]);
  }

  lemma DedupSnoc<T>(s: seq<T>, x: T)
    requires s != []
    ensures Dedup(s + [x]) == if x == s[|s| - 1] then Dedup(s) else Dedup(s) + [x]
  {
    assert (s + [x])[..|s|] == s;
  }

  method Unique<T(==)>(a: array<T>, begin0: nat, end: nat) returns (past: nat)
    requires begin0 <= end <= a.Length
    modifies a
    ensures begin0 <= past <= end && a[begin0..past] == Dedup(old(a[begin0..end]))
    ensures forall i | 0 <= i < begin0 || end <= i < a.Length :: a[i] == old(a[i])
  {
    hide Dedup;
    ghost var s := a[..];
    assert s[begin0..end] == a[begin0..end];
    if begin0 == end {
      DedupShort(s[begin0..end]);
      return begin0;
    }
    var begin := SkipHead(a, begin0, end);
    var write := begin;
    begin := begin + 1;
    assert a[begin0..begin] == s[begin0..begin];
    while begin != end
      invariant begin0 <= write < begin <= end && Compacted(a[..], s, begin0, write, begin)
      decreases end - begin
    {
      hide Compacted;
      ghost var t := a[..];
      CompactedNext(t, s, begin0, write, begin);
      if a[begin] != a[write] {
        write := write + 1;
        a[write] := a[begin];
        assert a[..] == t[write := t[begin]];
      }
      begin := begin + 1;
    }
    assert a[begin0..write + 1] == a[..][begin0..write + 1];
    past := write + 1;
  }

  /** The elements before `begin` have been compacted up to `write`; all others are as they were. */
  ghost predicate Compacted<T>(t: seq<T>, s: seq<T>, lo: nat, write: nat, begin: nat)
  {
    && |t| == |s| && lo <= write < begin <= |s|
    && t[lo..write + 1] == Dedup(s[lo..begin])
    && forall i | 0 <= i < lo || begin <= i < |s| :: t[i] == s[i]
  }

  /** `*++write = *begin`, unless the two are equal. */
  lemma CompactedNext<T>(t: seq<T>, s: seq<T>, lo: nat, write: nat, begin: nat)
    requires Compacted(t, s, lo, write, begin) && begin < |s|
    ensures |t| == |s| && if t[begin] == t[write] then Compacted(t, s, lo, write, begin + 1)
                          else Compacted(t[write + 1 := t[begin]], s, lo, write + 1, begin + 1)
  {
    hide Dedup;
    DedupNext(s, lo, begin);
    assert t[write] == t[lo..write + 1][write - lo] == s[lo..begin][begin - 1 - lo] == s[begin - 1];
    if t[begin] != t[write] {
      var u := t[write + 1 := t[begin]];
      assert u[lo..write + 2] == t[lo..write + 1] + [t[begin]];
    }
  }

  /** The head without adjacent duplicates stays where it is. */
  method SkipHead<T(==)>(a: array<T>, begin0: nat, end: nat) returns (begin: nat)
    requires begin0 < end <= a.Length
    ensures begin0 <= begin < end
    ensures Dedup(a[begin0..begin + 1]) == a[begin0..begin + 1]
  {
    hide Dedup;
    begin := begin0;
    DedupShort(a[begin0..begin + 1]);
    while begin + 1 < end && a[begin] != a[begin + 1]
      invariant begin0 <= begin < end
      invariant Dedup(a[begin0..begin + 1]) == a[begin0..begin + 1]
    {
      DedupNext(a[..], begin0, begin + 1);
      assert a[..][begin0..begin + 2] == a[begin0..begin + 2] == a[begin0..begin + 1] + [a[begin + 1]];
      assert a[..][begin0..begin + 1] == a[begin0..begin + 1];
      begin := begin + 1;
    }
  }

  lemma DedupNext<T>(s: seq<T>, lo: nat, i: nat)
    requires lo < i < |s|
    ensures Dedup(s[lo..i + 1]) == if s[i] == s[i - 1] then Dedup(s[lo..i]) else Dedup(s[lo..i]) + [s[i]]
  {
    hide Dedup;
    assert s[lo..i + 1] == s[lo..i] + [s[i]];
    DedupSnoc(s[lo..i], s[i]);
  }

  lemma DedupShort<T>(s: seq<T>)
    requires |s| < 2
    ensures Dedup(s) == s
  {
  }
}
