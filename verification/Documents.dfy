/**
  A document as a tree whose nodes are named by paths from the root, the moves of a node handle, and document order.
 */
module Documents {

  /** A node with the number of its attributes and its children. */
  datatype Tree = Node(attributes: nat, kids: seq<Tree>)

  type Path = seq<nat>

  /** A node handle; the null handle answers every move with itself. */
  datatype Handle = Null | At(path: Path)

  predicate Has(t: Tree, p: Path)
    decreases |p|
  {
    p == [] || (p[0] < |t.kids| && Has(t.kids[p[0]], p[1..]))
  }

  function Sub(t: Tree, p: Path): Tree
    requires Has(t, p)
    decreases |p|
  {
    if p == [] then t else Sub(t.kids[p[0]], p[1..])
  }

  // ----- moves -----

  predicate Valid(t: Tree, h: Handle)
  {
    h.At? ==> Has(t, h.path)
  }

  function Front(p: Path): Path
    requires p != []
  {
    p[..|p| - 1]
  }

  function Last(p: Path): nat
    requires p != []
  {
    p[|p| - 1]
  }

  function Parent(h: Handle): Handle
  {
    if h.Null? || h.path == [] then Null else At(Front(h.path))
  }

  function FirstChild(t: Tree, h: Handle): Handle
    requires Valid(t, h)
  {
    if h.Null? || Sub(t, h.path).kids == [] then Null else At(h.path + [0])
  }

  function LastChild(t: Tree, h: Handle): Handle
    requires Valid(t, h)
  {
    if h.Null? || Sub(t, h.path).kids == [] then Null else At(h.path + [|Sub(t, h.path).kids| - 1])
  }

  function NextSibling(t: Tree, h: Handle): Handle
    requires Valid(t, h)
  {
    if h.Null? || h.path == [] then Null else
    var next := Front(h.path) + [Last(h.path) + 1];
    if Has(t, next) then At(next) else Null
  }

  function PreviousSibling(t: Tree, h: Handle): Handle
    requires Valid(t, h)
  {
    if h.Null? || h.path == [] || Last(h.path) == 0 then Null else At(Front(h.path) + [Last(h.path) - 1])
  }

  lemma {:induction false} HasExtended(t: Tree, p: Path, i: nat)
    ensures Has(t, p + [i]) <==> Has(t, p) && i < |Sub(t, p).kids|
    decreases |p|
  {
    if p == [] {
      assert p + [i] == [i];
      assert [i][1..] == [];
    } else {
      assert (p + [i])[1..] == p[1..] + [i];
      if p[0] < |t.kids| {
        HasExtended(t.kids[p[0]], p[1..], i);
      }
    }
  }

  lemma {:induction false} HasPrefix(t: Tree, p: Path, q: Path)
    requires Has(t, q) && p <= q
    ensures Has(t, p)
    decreases |p|
  {
    if p != [] {
      HasPrefix(t.kids[p[0]], p[1..], q[1..]);
    }
  }

  lemma FrontLast(p: Path)
    requires p != []
    ensures Front(p) + [Last(p)] == p
  {
  }

  /** Every move leads to a node of the document. */
  lemma MovesAreValid(t: Tree, h: Handle)
    requires Valid(t, h)
    ensures Valid(t, Parent(h)) && Valid(t, FirstChild(t, h)) && Valid(t, LastChild(t, h))
    ensures Valid(t, NextSibling(t, h)) && Valid(t, PreviousSibling(t, h))
  {
    if h.At? {
      var p := h.path;
      HasExtended(t, p, 0);
      HasExtended(t, p, if Sub(t, p).kids == [] then 0 else |Sub(t, p).kids| - 1);
      if p != [] {
        FrontLast(p);
        HasExtended(t, Front(p), Last(p));
        HasExtended(t, Front(p), if Last(p) == 0 then 0 else Last(p) - 1);
      }
    }
  }

  // ----- document order -----

  /** Lexicographic order in which a prefix comes first. */
  predicate Before(p: seq<int>, q: seq<int>)
    decreases |p|
  {
    q != [] && (p == [] || p[0] < q[0] || (p[0] == q[0] && Before(p[1..], q[1..])))
  }

  /** At or behind. */
  predicate From(p: seq<int>, q: seq<int>)
  {
    p == q || Before(p, q)
  }

  /** Behind the whole subtree at `p`. */
  predicate Behind(p: Path, q: Path)
  {
    Before(p, q) && !(p <= q)
  }

  lemma {:induction false} BeforeTotal(p: seq<int>, q: seq<int>)
    ensures p == q || Before(p, q) || Before(q, p)
    ensures !(Before(p, q) && Before(q, p)) && !Before(p, p)
    decreases |p|
  {
    if p != [] {
      BeforeIrreflexive(p);
      if q != [] && p[0] == q[0] {
        BeforeTotal(p[1..], q[1..]);
        if p[1..] == q[1..] {
          assert p == [p[0]] + p[1..] == [q[0]] + q[1..] == q;
        }
      }
    }
  }

  lemma {:induction false} BeforeIrreflexive(p: seq<int>)
    ensures !Before(p, p)
    decreases |p|
  {
    if p != [] {
      BeforeIrreflexive(p[1..]);
    }
  }

  lemma {:induction false} BeforeTransitive(p: seq<int>, q: seq<int>, r: seq<int>)
    requires Before(p, q) && Before(q, r)
    ensures Before(p, r)
    decreases |p|
  {
    if p != [] && p[0] == q[0] && q[0] == r[0] {
      BeforeTransitive(p[1..], q[1..], r[1..]);
    }
  }

  /** A common prefix does not matter. */
  lemma {:induction false} BeforeCommon(p: seq<int>, a: seq<int>, b: seq<int>)
    ensures Before(p + a, p + b) <==> Before(a, b)
    decreases |p|
  {
    if p == [] {
      assert p + a == a && p + b == b;
    } else {
      assert (p + a)[1..] == p[1..] + a && (p + b)[1..] == p[1..] + b;
      BeforeCommon(p[1..], a, b);
    }
  }

  lemma PrefixTail(p: seq<int>, q: seq<int>)
    requires p != [] && q != [] && p[0] == q[0]
    ensures p <= q <==> p[1..] <= q[1..]
  {
    assert p == [p[0]] + p[1..] && q == [q[0]] + q[1..];
  }

  /** What is not below `p` compares with `p` as with anything below it. */
  lemma {:induction false} BeforeOutside(p: seq<int>, a: seq<int>, q: seq<int>)
    requires !(p <= q)
    ensures Before(p + a, q) <==> Before(p, q)
    ensures Before(q, p + a) <==> Before(q, p)
    decreases |p|
  {
    assert (p + a)[1..] == p[1..] + a;
    if q != [] && p[0] == q[0] {
      PrefixTail(p, q);
      BeforeOutside(p[1..], a, q[1..]);
    }
  }

  lemma PrefixIsBefore(p: seq<int>, q: seq<int>)
    requires p <= q && p != q
    ensures Before(p, q) && !Before(q, p)
  {
    var b := q[|p|..];
    assert q == p + b && p == p + [];
    BeforeCommon(p, [], b);
    BeforeTotal(p, q);
  }

  // ----- how the moves follow document order -----

  /** The first child is the next node. */
  lemma FirstChildIsNext(t: Tree, p: Path, q: Path)
    requires Has(t, p) && Sub(t, p).kids != [] && Has(t, q)
    ensures Before(p, q) <==> From(p + [0], q)
  {
    if p <= q {
      var b := q[|p|..];
      assert q == p + b && p == p + [];
      BeforeCommon(p, [], b);
      BeforeCommon(p, [0], b);
      assert b != [] && b[0] == 0 ==> ([0] == b || Before([0], b)) by {
        if b != [] && b[0] == 0 && |b| > 1 {
          assert Before([0][1..], b[1..]);
        }
      }
    } else {
      BeforeOutside(p, [0], q);
    }
  }

  /** Behind a leaf is the same as behind its subtree. */
  lemma LeafSubtree(t: Tree, p: Path, q: Path)
    requires Has(t, p) && Sub(t, p).kids == [] && Has(t, q)
    ensures Before(p, q) <==> Behind(p, q)
  {
    if p <= q && p != q {
      var i := q[|p|];
      assert p + [i] <= q;
      HasPrefix(t, p + [i], q);
      HasExtended(t, p, i);
    }
    BeforeTotal(p, q);
  }

  /** The next sibling is the next node behind the subtree. */
  lemma NextSiblingIsNext(t: Tree, p: Path, q: Path)
    requires p != []
    ensures Behind(p, q) <==> From(Front(p) + [Last(p) + 1], q)
  {
    var par, i := Front(p), Last(p);
    var next := par + [i + 1];
    FrontLast(p);
    if par <= q {
      var b := q[|par|..];
      assert q == par + b;
      BeforeCommon(par, [i], b);
      BeforeCommon(par, [i + 1], b);
      if b != [] {
        assert [i][1..] == [] && [i + 1][1..] == [];
        assert p <= q <==> b[0] == i;
        assert b == [b[0]] + b[1..];
        assert q == next <==> b == [i + 1];
      }
    } else {
      BeforeOutside(par, [i], q);
      BeforeOutside(par, [i + 1], q);
      assert !(p <= q);
    }
  }

  /** Which paths below a parent lie behind its child `i`. */
  lemma BehindChild(par: Path, i: nat, b: Path)
    ensures Behind(par + [i], par + b) <==> b != [] && b[0] > i
    ensures !Behind(par, par + b)
  {
    var p, q := par + [i], par + b;
    BeforeCommon(par, [i], b);
    if b != [] {
      assert [i][1..] == [];
      assert q[..|par|] == par && p[..|par|] == par && q[|par|] == b[0];
      assert q[..|p|] == par + [b[0]];
    }
  }

  /** Without a next sibling, behind the subtree is behind the parent's subtree. */
  lemma LastSiblingLeaves(t: Tree, p: Path, q: Path)
    requires p != [] && Has(t, p) && Has(t, q) && !Has(t, Front(p) + [Last(p) + 1])
    ensures Behind(p, q) <==> Behind(Front(p), q)
  {
    hide Has, Sub;
    var par, i := Front(p), Last(p);
    FrontLast(p);
    if par <= q {
      var b := q[|par|..];
      assert q == par + b;
      BehindChild(par, i, b);
      if b != [] {
        assert par + [b[0]] <= q;
        HasPrefix(t, par + [b[0]], q);
        HasExtended(t, par, b[0]);
        HasExtended(t, par, i + 1);
      }
    } else {
      BeforeOutside(par, [i], q);
    }
  }

  /** A first child follows its parent directly. */
  lemma FirstSiblingFollowsParent(t: Tree, p: Path, q: Path)
    requires p != [] && Has(t, p) && Has(t, q) && Last(p) == 0
    ensures From(p, q) <==> Before(Front(p), q)
  {
    FrontLast(p);
    HasExtended(t, Front(p), 0);
    FirstChildIsNext(t, Front(p), q);
  }

  /** Nothing lies behind the root's subtree, and everything from the root on. */
  lemma RootIsFirst(q: Path)
    ensures !Behind([], q) && From([], q)
  {
  }

  // ----- preorder -----

  function Prefixed(i: nat, ps: seq<Path>): (r: seq<Path>)
    ensures |r| == |ps| && forall k | 0 <= k < |ps| :: r[k] == [i] + ps[k]
  {
    seq(|ps|, k requires 0 <= k < |ps| => [i] + ps[k])
  }

  /** All nodes, each before its children, children from left to right. */
  function Preorder(t: Tree): seq<Path>
    decreases t, 0
  {
    [[]] + PreorderFrom(t, 0)
  }

  function PreorderFrom(t: Tree, i: nat): seq<Path>
    requires i <= |t.kids|
    decreases t, 0, |t.kids| - i
  {
    if i == |t.kids| then [] else Prefixed(i, Preorder(t.kids[i])) + PreorderFrom(t, i + 1)
  }

  predicate Ascending(ps: seq<Path>)
  {
    forall i, j | 0 <= i < j < |ps| :: Before(ps[i], ps[j])
  }

  /** Preorder lists exactly the nodes, in document order. */
  lemma {:induction false} PreorderIsDocumentOrder(t: Tree)
    ensures Ascending(Preorder(t))
    ensures forall p: Path :: p in Preorder(t) <==> Has(t, p)
    decreases t, 1
  {
    PreorderFromIsOrdered(t, 0);
    var ps := PreorderFrom(t, 0);
    assert Preorder(t) == [[]] + ps;
    forall i | 0 <= i < |ps|
      ensures Before([], ps[i])
    {
      assert ps[i] in ps;
    }
  }

  lemma {:induction false} PreorderFromIsOrdered(t: Tree, i: nat)
    requires i <= |t.kids|
    ensures Ascending(PreorderFrom(t, i))
    ensures forall p: Path :: p in PreorderFrom(t, i) <==> Has(t, p) && p != [] && p[0] >= i
    decreases t, 0, |t.kids| - i
  {
    if i < |t.kids| {
      PreorderIsDocumentOrder(t.kids[i]);
      PreorderFromIsOrdered(t, i + 1);
      var a, b := Preorder(t.kids[i]), PreorderFrom(t, i + 1);
      var pa := Prefixed(i, a);
      forall k, l | 0 <= k < l < |pa|
        ensures Before(pa[k], pa[l])
      {
        assert pa[k][1..] == a[k] && pa[l][1..] == a[l];
      }
      forall k, l | 0 <= k < |pa| && 0 <= l < |b|
        ensures Before(pa[k], b[l])
      {
        assert b[l] in b;
      }
      forall p: Path
        ensures p in pa <==> Has(t, p) && p != [] && p[0] == i
      {
        if p in pa {
          var k :| 0 <= k < |pa| && pa[k] == p;
          assert p[1..] == a[k] && a[k] in a;
        }
        if p != [] && p[0] == i && Has(t, p) {
          assert p[1..] in a;
          var k :| 0 <= k < |a| && a[k] == p[1..];
          assert pa[k] == [i] + p[1..] == p;
        }
      }
    }
  }
}
