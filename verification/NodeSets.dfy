/**
  XPath node sets of one document: duplicates are found by sorting by address, and the set is then sorted in document
  order with the comparator that the sort is given.
 */
module NodeSets {
  import opened Documents
  import opened DocumentOrder
  import opened NodeSetSort

  datatype Order = Unsorted | Forward | Backward

  // ----- the two comparators -----

  /** `duplicate_comparator`: attributes first, then by address. */
  predicate AddressBefore(address: Item -> nat, x: Item, y: Item)
  {
    if x.AttributeItem? == y.AttributeItem? then address(x) < address(y) else x.AttributeItem?
  }

  /** No two items are at one address. */
  ghost predicate Apart(address: Item -> nat, dom: set<Item>)
  {
    forall x, y | x in dom && y in dom && x != y :: address(x) != address(y)
  }

  function Comparator(t: Tree, backward: bool): (Item, Item) -> bool
  {
    if backward then (x, y) => Precedes(t, y, x) else (x, y) => Precedes(t, x, y)
  }

  function Addresses(address: Item -> nat): (Item, Item) -> bool
  {
    (x, y) => AddressBefore(address, x, y)
  }

  lemma AddressesOrder(address: Item -> nat, dom: set<Item>)
    requires Apart(address, dom)
    ensures Orders(Addresses(address), dom)
  {
  }

  /** Document order orders the items of a document, although it puts an attribute before itself. */
  lemma ComparatorOrders(t: Tree, backward: bool, dom: set<Item>)
    requires forall x | x in dom :: InDocument(t, x)
    ensures Orders(Comparator(t, backward), dom)
  {
    hide InDocument, ItemBefore;
    var less := Comparator(t, backward);
    forall x, y | x in dom && y in dom && x != y ensures less(x, y) != less(y, x) {
      ItemOrderIsTotal(t, x, y, x);
    }
    forall x, y, z | x in dom && y in dom && z in dom && x != z && less(x, y) && less(y, z) ensures less(x, z) {
      ItemOrderIsTotal(t, x, y, z);
      ItemOrderIsTotal(t, z, y, x);
    }
  }

  // ----- `xpath_node_set_raw` -----

  function Members(xs: seq<Item>): set<Item>
  {
    set x | x in xs
  }

  class XpathNodeSet {
    const tree: Tree
    const items: array<Item>
    var end: nat
    var order: Order

    /** The items are of one document, and in the order that the set claims. */
    ghost predicate Valid()
      reads this, items
    {
      && end <= items.Length && DocumentItems(tree, items[..], end)
      && (!order.Unsorted? ==> Sorted(items[..], 0, end, Comparator(tree, order.Backward?)))
    }

    ghost function Items(): seq<Item>
      reads this, items
      requires end <= items.Length
    {
      items[..end]
    }

    constructor (tree: Tree, xs: seq<Item>)
      requires forall i | 0 <= i < |xs| :: InDocument(tree, xs[i])
      ensures Valid() && this.tree == tree && order == Unsorted && fresh(items) && Items() == xs
    {
      this.tree := tree;
      items := new Item[|xs|](i requires 0 <= i < |xs| => xs[i]);
      end := |xs|;
      order := Unsorted;
    }

    /** `xpath_sort` */
    method Sort(backward: bool)
      requires Valid()
      modifies this`order, items
      ensures Valid() && order == (if backward then Backward else Forward)
      ensures multiset(Items()) == multiset(old(Items()))
    {
      hide DocumentItems, Comparator, Sorted, Permuted;
      ghost var s := items[..];
      SamePermuted(s, 0, end);
      if order == Unsorted {
        SortItems(items, end, tree);
        order := Forward;
      }
      ghost var t := items[..];
      if order.Backward? != backward {
        Reverse(items, end);
        ItemsPermuted(tree, t, items[..], end);
        PermutedTwice(s, t, items[..], 0, end);
        Turned(tree, t, items[..], end, order.Backward?);
      }
      order := if backward then Backward else Forward;
      SameItems(s, items[..], end);
    }

    /** `remove_duplicates`: the order that the set claims is kept, and an unsorted set stays unsorted. */
    method RemoveDuplicates(address: Item -> nat)
      requires Valid() && Apart(address, Members(Items()))
      modifies this`end, items
      ensures Valid() && Distinct(Items())
      ensures forall x :: x in Items() <==> x in old(Items())
    {
      hide DocumentItems, Comparator, Sorted, Permuted, Addresses, Apart, Orders, In, Members, Dedup;
      ghost var s, dom := items[..], Members(items[..end]);
      ghost var less := if order.Unsorted? then Addresses(address) else Comparator(tree, order.Backward?);
      assert s[..end] == items[..end];
      ItemsIn(tree, s, end);
      AddressesOrder(address, dom);
      ComparatorOrders(tree, order.Backward?, dom);
      SamePermuted(s, 0, end);
      if order == Unsorted {
        ghost var depth := NodeSetSort.Sort(items, 0, end, Addresses(address), dom);
      }
      ghost var t, n := items[..], end;
      InPermuted(s, t, 0, n, dom);
      SameItems(s, t, n);
      ItemsPermuted(tree, s, t, n);
      Deduplicated(tree, t, n, less, dom);
      assert items[0..n] == t[..n];
      end := Unique(items, 0, end);
      ghost var u := items[..];
      assert u[..end] == items[..end] == items[0..end] == Dedup(t[..n]);
      StillSorted(tree, t, u, n, end, less);
    }
  }

  // ----- the items of a set, through sorting and removing duplicates -----

  ghost predicate DocumentItems(t: Tree, s: seq<Item>, n: nat)
  {
    n <= |s| && forall i | 0 <= i < n :: InDocument(t, s[i])
  }

  lemma ItemsIn(t: Tree, s: seq<Item>, n: nat)
    requires DocumentItems(t, s, n)
    ensures In(s, 0, n, Members(s[..n])) && forall x | x in Members(s[..n]) :: InDocument(t, x)
  {
    hide InDocument;
    forall i | 0 <= i < n ensures s[i] in Members(s[..n]) {
      assert s[..n][i] == s[i];
    }
  }

  lemma ItemsPermuted(t: Tree, s: seq<Item>, u: seq<Item>, n: nat)
    requires DocumentItems(t, s, n) && Permuted(s, u, 0, n)
    ensures DocumentItems(t, u, n)
  {
    hide InDocument;
    forall i | 0 <= i < n ensures InDocument(t, u[i]) {
      var j := PermutedFrom(s, u, 0, n, i);
    }
  }

  lemma SameItems(s: seq<Item>, t: seq<Item>, n: nat)
    requires Permuted(s, t, 0, n)
    ensures |s| == |t| && n <= |s| && multiset(s[..n]) == multiset(t[..n])
    ensures forall x :: x in t[..n] <==> x in s[..n]
  {
    assert s[0..n] == s[..n] && t[0..n] == t[..n];
    forall x ensures x in t[..n] <==> x in s[..n] {
      assert x in t[..n] <==> x in multiset(t[..n]);
      assert x in s[..n] <==> x in multiset(s[..n]);
    }
  }

  method SortItems(a: array<Item>, n: nat, t: Tree)
    requires n <= a.Length && DocumentItems(t, a[..], n)
    modifies a
    ensures DocumentItems(t, a[..], n) && Sorted(a[..], 0, n, Comparator(t, false)) && Permuted(old(a[..]), a[..], 0, n)
  {
    hide DocumentItems, Comparator, Sorted, Permuted, Orders, In, Members;
    ghost var s := a[..];
    ghost var dom := Members(s[..n]);
    ItemsIn(t, s, n);
    ComparatorOrders(t, false, dom);
    ghost var depth := NodeSetSort.Sort(a, 0, n, Comparator(t, false), dom);
    ItemsPermuted(t, s, a[..], n);
  }

  /** What is left of a sorted range is distinct, in order, and all that was there. */
  lemma Deduplicated(t: Tree, s: seq<Item>, n: nat, less: (Item, Item) -> bool, dom: set<Item>)
    requires Orders(less, dom) && n <= |s| && Sorted(s, 0, n, less) && In(s, 0, n, dom)
    ensures var d := Dedup(s[..n]);
            && Distinct(d) && Sorted(d, 0, |d|, less)
            && forall x :: x in d <==> x in s[..n]
  {
    hide Orders, Dedup;
    assert Sorted(s[..n], 0, n, less) && In(s[..n], 0, n, dom);
    DedupOfSorted(s[..n], less, dom);
    var d := Dedup(s[..n]);
    forall x ensures x in d <==> x in s[..n] {
      if x in s[..n] {
        assert x in dom;
      }
    }
  }

  lemma StillSorted(t: Tree, s: seq<Item>, u: seq<Item>, n: nat, m: nat, less: (Item, Item) -> bool)
    requires n <= |s| && m <= |u| && forall x :: x in u[..m] ==> x in s[..n]
    ensures DocumentItems(t, s, n) ==> DocumentItems(t, u, m)
    ensures Sorted(u[..m], 0, m, less) ==> Sorted(u, 0, m, less)
  {
    hide InDocument;
    assert forall i | 0 <= i < m :: u[..m][i] == u[i];
    forall i | 0 <= i < m ensures u[i] in s[..n] {
      assert u[..m][i] in u[..m];
    }
  }

  ghost predicate Distinct(xs: seq<Item>)
  {
    forall i, j | 0 <= i < j < |xs| :: xs[i] != xs[j]
  }

  method Reverse(a: array<Item>, n: nat)
    requires n <= a.Length
    modifies a
    ensures Permuted(old(a[..]), a[..], 0, n)
    ensures forall i | 0 <= i < n :: a[i] == old(a[n - 1 - i])
  {
    hide Permuted, Swapped;
    ghost var s := a[..];
    SamePermuted(s, 0, n);
    var begin, end := 0, n;
    while begin + 1 < end
      invariant 0 <= begin <= n && end == n - begin && begin <= end + 1
      invariant Permuted(s, a[..], 0, n)
      invariant forall i | 0 <= i < begin || end <= i < n :: a[i] == s[n - 1 - i]
      invariant forall i | begin <= i < end :: a[i] == s[i]
    {
      ghost var t := a[..];
      end := end - 1;
      SwapTwo(a, begin, end, 0, n);
      PermutedTwice(s, t, a[..], 0, n);
      begin := begin + 1;
    }
  }

  /** What is in order in one direction is so in the other one after a reversal. */
  lemma Turned(tree: Tree, s: seq<Item>, t: seq<Item>, n: nat, backward: bool)
    requires n <= |s| == |t| && Sorted(s, 0, n, Comparator(tree, backward))
    requires forall i | 0 <= i < n :: t[i] == s[n - 1 - i]
    ensures Sorted(t, 0, n, Comparator(tree, !backward))
  {
    forall i, j | 0 <= i < j < n ensures Leq(Comparator(tree, !backward), t[i], t[j]) {
      assert Leq(Comparator(tree, backward), s[n - 1 - j], s[n - 1 - i]);
    }
  }

  // ----- a node set comes out in document order -----

  /** Every item once, and in document order. */
  ghost predicate InOrder(t: Tree, xs: seq<Item>)
  {
    && (forall i | 0 <= i < |xs| :: InDocument(t, xs[i]))
    && forall i, j | 0 <= i < j < |xs| :: ItemBefore(t, xs[i], xs[j])
  }

  /** Removing duplicates and sorting: the items of the set, each once, in document order. */
  method DocumentOrdered(t: Tree, xs: seq<Item>, address: Item -> nat) returns (ys: seq<Item>)
    requires (forall i | 0 <= i < |xs| :: InDocument(t, xs[i])) && Apart(address, Members(xs))
    ensures InOrder(t, ys)
    ensures forall x :: x in ys <==> x in xs
  {
    hide InDocument, ItemBefore, Apart;
    var ns := new XpathNodeSet(t, xs);
    ns.RemoveDuplicates(address);
    ghost var distinct := ns.Items();
    ns.Sort(false);
    ys := ns.items[..ns.end];
    StillDistinct(distinct, ys);
    SortedInOrder(t, ns.items[..], ns.end);
  }

  lemma StillDistinct(xs: seq<Item>, ys: seq<Item>)
    requires Distinct(xs) && multiset(xs) == multiset(ys)
    ensures Distinct(ys) && forall x :: x in ys <==> x in xs
  {
    forall x ensures x in ys <==> x in xs {
      assert x in multiset(xs) <==> x in xs;
    }
    DistinctIsSimple(xs);
    forall i, j | 0 <= i < j < |ys| ensures ys[i] != ys[j] {
      Twice(ys, i, j);
    }
  }

  lemma Twice(ys: seq<Item>, i: nat, j: nat)
    requires i < j < |ys|
    ensures ys[i] == ys[j] ==> multiset(ys)[ys[j]] >= 2
  {
    assert ys == ys[..j] + [ys[j]] + ys[j + 1..];
    assert ys[i] in ys[..j];
  }

  lemma {:induction false} DistinctIsSimple(xs: seq<Item>)
    requires Distinct(xs)
    ensures forall x :: multiset(xs)[x] <= 1
  {
    if xs != [] {
      var front, last := xs[..|xs| - 1], xs[|xs| - 1];
      assert xs == front + [last];
      DistinctIsSimple(front);
      assert last !in front;
    }
  }

  lemma SortedInOrder(t: Tree, s: seq<Item>, n: nat)
    requires n <= |s| && Sorted(s, 0, n, Comparator(t, false)) && Distinct(s[..n])
    requires forall i | 0 <= i < n :: InDocument(t, s[i])
    ensures InOrder(t, s[..n])
  {
    hide InDocument, ItemBefore;
    forall i, j | 0 <= i < j < n ensures ItemBefore(t, s[i], s[j]) {
      assert Leq(Comparator(t, false), s[i], s[j]);
      assert s[..n][i] != s[..n][j];
    }
  }

  /** There is only one such list. */
  lemma {:induction false} OnlyOneOrder(t: Tree, xs: seq<Item>, ys: seq<Item>)
    requires InOrder(t, xs) && InOrder(t, ys) && forall x :: x in xs <==> x in ys
    ensures xs == ys
  {
    hide InDocument, ItemBefore;
    FirstIsMember(xs);
    FirstIsMember(ys);
    if xs != [] {
      FirstIsLeast(t, xs, ys[0]);
      FirstIsLeast(t, ys, xs[0]);
      ItemOrderIsTotal(t, xs[0], ys[0], xs[0]);
      forall x ensures x in xs[1..] <==> x in ys[1..] {
        RestMembers(t, xs, x);
        RestMembers(t, ys, x);
      }
      RestInOrder(t, xs);
      RestInOrder(t, ys);
      OnlyOneOrder(t, xs[1..], ys[1..]);
    }
  }

  lemma FirstIsMember(xs: seq<Item>)
    ensures xs == [] || xs[0] in xs
  {
  }

  lemma FirstIsLeast(t: Tree, xs: seq<Item>, x: Item)
    requires InOrder(t, xs) && x in xs
    ensures InDocument(t, x) && InDocument(t, xs[0]) && (x == xs[0] || ItemBefore(t, xs[0], x))
  {
  }

  lemma RestMembers(t: Tree, xs: seq<Item>, x: Item)
    requires InOrder(t, xs) && xs != []
    ensures x in xs[1..] <==> x in xs && x != xs[0]
  {
    if x in xs[1..] {
      var i :| 0 <= i < |xs[1..]| && xs[1..][i] == x;
      ItemOrderIsTotal(t, xs[0], xs[i + 1], xs[0]);
    }
  }

  lemma RestInOrder(t: Tree, xs: seq<Item>)
    requires InOrder(t, xs) && xs != []
    ensures InOrder(t, xs[1..])
  {
  }
}
