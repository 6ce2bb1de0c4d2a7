/**
  The slow path of `document_order_comparator` on the nodes and attributes of one document.
 */
module DocumentOrder {
  import opened Documents

  /** What an XPath node set holds: a node, or an attribute of a node by its position. */
  datatype Item = NodeItem(node: Path) | AttributeItem(owner: Path, index: nat)

  predicate InDocument(t: Tree, x: Item)
  {
    match x
    case NodeItem(p) => Has(t, p)
    case AttributeItem(p, i) => Has(t, p) && i < Sub(t, p).attributes
  }

  // ----- document order of items, section 5 of XPath 1.0 -----

  /** Attributes go after their element and before its children: their last component is negative. */
  function Key(t: Tree, x: Item): seq<int>
    requires InDocument(t, x)
  {
    match x
    case NodeItem(p) => p
    case AttributeItem(p, i) => p + [i - Sub(t, p).attributes]
  }

  predicate ItemBefore(t: Tree, x: Item, y: Item)
    requires InDocument(t, x) && InDocument(t, y)
  {
    Before(Key(t, x), Key(t, y))
  }

  /** The key of a node has no negative component, the key of an attribute ends in one. */
  lemma LastOfKey(t: Tree, x: Item)
    requires InDocument(t, x)
    ensures var k := Key(t, x); x.AttributeItem? <==> k != [] && k[|k| - 1] < 0
  {
  }

  lemma KeysDiffer(t: Tree, x: Item, y: Item)
    requires InDocument(t, x) && InDocument(t, y) && Key(t, x) == Key(t, y)
    ensures x == y
  {
    LastOfKey(t, x);
    LastOfKey(t, y);
    if x.AttributeItem? {
      var k := Key(t, x);
      assert k[..|k| - 1] == x.owner == y.owner;
      assert k[|k| - 1] == x.index - Sub(t, x.owner).attributes;
    }
  }

  /** Document order of items is a strict total order. */
  lemma ItemOrderIsTotal(t: Tree, x: Item, y: Item, z: Item)
    requires InDocument(t, x) && InDocument(t, y) && InDocument(t, z)
    ensures x == y || ItemBefore(t, x, y) || ItemBefore(t, y, x)
    ensures !(ItemBefore(t, x, y) && ItemBefore(t, y, x)) && !ItemBefore(t, x, x)
    ensures ItemBefore(t, x, y) && ItemBefore(t, y, z) ==> ItemBefore(t, x, z)
  {
    BeforeTotal(Key(t, x), Key(t, y));
    BeforeIrreflexive(Key(t, x));
    if Key(t, x) == Key(t, y) {
      KeysDiffer(t, x, y);
    }
    if ItemBefore(t, x, y) && ItemBefore(t, y, z) {
      BeforeTransitive(Key(t, x), Key(t, y), Key(t, z));
    }
  }

  lemma KeysBelow(p: Path, i: int, j: int, b: Path)
    requires i < j < 0 && b != []
    ensures Before(p + [], p + [i]) && Before(p + [i], p + [j]) && Before(p + [j], p + b)
  {
    BeforeCommon(p, [], [i]);
    BeforeCommon(p, [i], [j]);
    BeforeCommon(p, [j], b);
  }

  /** An element, then its attributes, then what is below it. */
  lemma AttributesFollowElement(t: Tree, p: Path, i: nat, j: nat, q: Path)
    requires Has(t, p) && i < j < Sub(t, p).attributes && Has(t, q) && p <= q && p != q
    ensures ItemBefore(t, NodeItem(p), AttributeItem(p, i))
    ensures ItemBefore(t, AttributeItem(p, i), AttributeItem(p, j))
    ensures ItemBefore(t, AttributeItem(p, j), NodeItem(q))
  {
    var n := Sub(t, p).attributes;
    var b := q[|p|..];
    assert p == p + [] && q == p + b;
    KeysBelow(p, i - n, j - n, b);
  }

  // ----- the comparator -----

  method NodeHeight(n: Path) returns (height: nat)
    ensures height == |n| + 1
  {
    var cur := At(n);
    height := 0;
    while cur.At?
      invariant height + (if cur.At? then |cur.path| + 1 else 0) == |n| + 1
      decreases if cur.At? then |cur.path| + 1 else 0
    {
      height := height + 1;
      cur := Parent(cur);
    }
  }

  /** The ancestor `steps` levels up. */
  method Climb(p: Path, steps: nat) returns (q: Path)
    requires steps <= |p|
    ensures q == p[..|p| - steps]
  {
    q := p;
    for i := 0 to steps
      invariant q == p[..|p| - i]
    {
      q := Front(q);
    }
  }

  /** Whether `rn` is met on the way to the right from `ln`, which is a sibling of it. */
  method MeetsToTheRight(t: Tree, par: Path, i: nat, j: nat) returns (met: bool)
    requires Has(t, par + [i]) && Has(t, par + [j])
    ensures met <==> i <= j
  {
    HasExtended(t, par, i);
    HasExtended(t, par, j);
    ghost var n := |Sub(t, par).kids|;
    var cur := At(par + [i]);
    ghost var k := i;
    while cur.At?
      invariant Valid(t, cur) && (cur.At? ==> cur.path == par + [k])
      invariant i <= k && (i <= j ==> cur.At? && k <= j) && (cur.At? ==> k < n)
      decreases cur.At?, n - k
    {
      if cur.path == par + [j] {
        assert (par + [k])[|par|] == (par + [j])[|par|];
        return true;
      }
      MovesAreValid(t, cur);
      assert Front(par + [k]) == par && Last(par + [k]) == k;
      HasExtended(t, par, k + 1);
      cur := NextSibling(t, cur);
      k := k + 1;
    }
    return false;
  }

  /** Where two nodes of equal depth differ, what is below them does not matter. */
  lemma CutBack(p: Path, a: seq<int>, q: Path, b: seq<int>)
    requires |p| == |q| && p != q
    ensures Before(p + a, q + b) <==> Before(p, q)
  {
    assert (q + b)[..|p|] == q;
    assert !(p <= q + b);
    BeforeOutside(p, a, q + b);
    BeforeOutside(q, b, p);
  }

  lemma SiblingOrder(par: Path, i: nat, j: nat)
    ensures Before(par + [i], par + [j]) <==> i < j
  {
    BeforeCommon(par, [i], [j]);
    assert [i][1..] == [] && [j][1..] == [];
  }

  method NodeIsBefore(t: Tree, l: Path, lh: nat, r: Path, rh: nat) returns (before: bool)
    requires Has(t, l) && Has(t, r) && lh == |l| + 1 && rh == |r| + 1
    ensures before == Before(l, r)
  {
    // normalize heights
    var ln := Climb(l, if rh < lh then lh - rh else 0);
    var rn := Climb(r, if lh < rh then rh - lh else 0);
    if ln == rn {
      SameLine(l, r);
      return lh < rh;
    }
    ghost var a, b := l[|ln|..], r[|rn|..];
    HasPrefix(t, ln, l);
    HasPrefix(t, rn, r);
    before := BeforeBelow(t, ln, a, rn, b);
    assert l == ln + a && r == rn + b;
  }

  /** Nodes of equal depth: finds the common ancestor and looks along its children. */
  method BeforeBelow(t: Tree, l: Path, ghost a0: Path, r: Path, ghost b0: Path) returns (before: bool)
    requires |l| == |r| && l != r && Has(t, l) && Has(t, r)
    ensures before == Before(l + a0, r + b0)
  {
    hide Has, Sub, Before;
    var ln, rn := l, r;
    ghost var a, b := a0, b0;
    while Parent(At(ln)) != Parent(At(rn))
      invariant |ln| == |rn| && ln != rn && Has(t, ln) && Has(t, rn)
      invariant l + a0 == ln + a && r + b0 == rn + b
      decreases |ln|
    {
      FrontLast(ln);
      FrontLast(rn);
      HasPrefix(t, Front(ln), ln);
      HasPrefix(t, Front(rn), rn);
      assert Front(ln) + ([Last(ln)] + a) == ln + a && Front(rn) + ([Last(rn)] + b) == rn + b;
      a, b := [Last(ln)] + a, [Last(rn)] + b;
      ln, rn := Front(ln), Front(rn);
    }
    CutBack(ln, a, rn, b);
    FrontLast(ln);
    FrontLast(rn);
    SiblingOrder(Front(ln), Last(ln), Last(rn));
    before := MeetsToTheRight(t, Front(ln), Last(ln), Last(rn));
  }

  /** One node is the other or above it: the higher one comes first. */
  lemma SameLine(l: Path, r: Path)
    requires var n := if |l| < |r| then |l| else |r|; l[..n] == r[..n]
    ensures Before(l, r) <==> |l| < |r|
  {
    if |l| < |r| {
      PrefixIsBefore(l, r);
    } else if |r| < |l| {
      PrefixIsBefore(r, l);
    } else {
      assert l == l[..|l|] == r[..|r|] == r;
      BeforeIrreflexive(l);
    }
  }

  /** Whether the attribute at `j` is met from the one at `i` on. */
  method MeetsAttribute(n: nat, i: nat, j: nat) returns (met: bool)
    requires i < n && j < n
    ensures met <==> i <= j
  {
    for k := i to n
      invariant i <= j ==> k <= j
    {
      if k == j {
        return true;
      }
    }
    return false;
  }

  /** Items of different nodes compare as the nodes do. */
  lemma OwnersDecide(p: Path, a: seq<int>, q: Path, b: seq<int>)
    requires p != q && (a == [] || (|a| == 1 && a[0] < 0)) && (b == [] || (|b| == 1 && b[0] < 0))
    ensures Before(p + a, q + b) <==> Before(p, q)
  {
    if p <= q {
      var c := q[|p|..];
      assert q == p + c && q + b == p + (c + b) && p == p + [];
      BeforeCommon(p, a, c + b);
      BeforeCommon(p, [], c);
    } else if q <= p {
      var c := p[|q|..];
      assert p == q + c && p + a == q + (c + a) && q == q + [];
      BeforeCommon(q, c + a, b);
      BeforeCommon(q, c, []);
    } else {
      Beside(p, a, q, b);
    }
  }

  lemma Beside(p: Path, a: seq<int>, q: Path, b: seq<int>)
    requires !(p <= q) && !(q <= p)
    ensures Before(p + a, q + b) <==> Before(p, q)
  {
    if |p| <= |q| {
      assert (q + b)[..|p|] == q[..|p|];
    } else {
      assert (q + b)[..|q|] == q;
    }
    BeforeOutside(p, a, q + b);
    BeforeOutside(q, b, p);
  }

  /** What the comparator answers, on any two items. */
  predicate Precedes(t: Tree, x: Item, y: Item)
  {
    && InDocument(t, x) && InDocument(t, y)
    && if x == y then x.AttributeItem? else ItemBefore(t, x, y)
  }

  /** The comparator without its pointer shortcut: for distinct items it decides document order. */
  method Compare(t: Tree, lhs: Item, rhs: Item) returns (before: bool)
    requires InDocument(t, lhs) && InDocument(t, rhs)
    ensures lhs != rhs ==> before == ItemBefore(t, lhs, rhs)
    ensures lhs == rhs ==> before == lhs.AttributeItem?
    ensures before == Precedes(t, lhs, rhs)
  {
    var ln := if lhs.NodeItem? then lhs.node else lhs.owner;
    var rn := if rhs.NodeItem? then rhs.node else rhs.owner;
    ghost var n := Sub(t, ln).attributes;
    if lhs.AttributeItem? && rhs.AttributeItem? {
      if lhs.owner == rhs.owner {
        BeforeCommon(ln, [lhs.index - n], [rhs.index - n]);
        assert [lhs.index - n][1..] == [] && [rhs.index - n][1..] == [];
        before := MeetsAttribute(Sub(t, ln).attributes, lhs.index, rhs.index);
        return;
      }
    } else if lhs.AttributeItem? {
      if lhs.owner == rhs.node {
        PrefixIsBefore(rn, Key(t, lhs));
        return false;
      }
    } else if rhs.AttributeItem? {
      if rhs.owner == lhs.node {
        PrefixIsBefore(ln, Key(t, rhs));
        return true;
      }
    }
    if ln == rn {
      return false;
    }
    OwnersDecide(ln, Key(t, lhs)[|ln|..], rn, Key(t, rhs)[|rn|..]);
    assert Key(t, lhs) == ln + Key(t, lhs)[|ln|..] && Key(t, rhs) == rn + Key(t, rhs)[|rn|..];
    var lh := NodeHeight(ln);
    var rh := NodeHeight(rn);
    before := NodeIsBefore(t, ln, lh, rn, rh);
  }
}
