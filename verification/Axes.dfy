/**
  The walks that fill an XPath node set along an axis, with a test that accepts every node.
 */
module Axes {
  import opened Common
  import opened Documents

  // ----- the axes of section 2.2 of XPath 1.0 -----

  predicate IsAncestor(n: Path, q: Path) { q <= n && q != n }
  predicate IsDescendant(n: Path, q: Path) { n <= q && q != n }
  predicate IsFollowing(n: Path, q: Path) { Behind(n, q) }
  predicate IsPreceding(n: Path, q: Path) { Behind(q, n) }

  /** Ancestor, descendant, following, preceding and self partition the nodes of a document. */
  lemma AxesPartition(n: Path, q: Path)
    ensures One(IsAncestor(n, q)) + One(IsDescendant(n, q)) + One(IsFollowing(n, q)) + One(IsPreceding(n, q))
      + One(q == n) == 1
  {
    BeforeTotal(n, q);
    if n <= q && n != q {
      PrefixIsBefore(n, q);
      assert !(q <= n);
    } else if q <= n && n != q {
      PrefixIsBefore(q, n);
      assert !(n <= q);
    }
  }

  predicate Descending(ps: seq<Path>)
  {
    forall i, j | 0 <= i < j < |ps| :: Before(ps[j], ps[i])
  }

  /** A list in either order names no node twice. */
  lemma OrderedIsDistinct(ps: seq<Path>)
    requires Ascending(ps) || Descending(ps)
    ensures forall i, j | 0 <= i < j < |ps| :: ps[i] != ps[j]
  {
    forall i, j | 0 <= i < j < |ps|
      ensures ps[i] != ps[j]
    {
      BeforeTotal(ps[i], ps[j]);
      BeforeIrreflexive(ps[i]);
    }
  }

  /** Two ascending lists of the same nodes are the same list; so a forward axis is a part of preorder. */
  lemma {:induction false} AscendingIsUnique(ps: seq<Path>, qs: seq<Path>)
    requires Ascending(ps) && Ascending(qs) && forall p: Path :: p in ps <==> p in qs
    ensures ps == qs
  {
    if ps == [] {
      FirstIsMember(qs);
    } else {
      assert ps[0] in qs;
      assert qs[0] in ps;
      FirstIsLeast(ps, qs[0]);
      FirstIsLeast(qs, ps[0]);
      BeforeTotal(ps[0], qs[0]);
      forall p: Path
        ensures p in ps[1..] <==> p in qs[1..]
      {
        TailMembers(ps, p);
        TailMembers(qs, p);
      }
      AscendingIsUnique(ps[1..], qs[1..]);
    }
  }

  lemma FirstIsMember(ps: seq<Path>)
    ensures ps == [] || ps[0] in ps
  {
  }

  lemma FirstIsLeast(ps: seq<Path>, p: Path)
    requires Ascending(ps) && p in ps
    ensures p == ps[0] || Before(ps[0], p)
  {
  }

  lemma TailMembers(ps: seq<Path>, p: Path)
    requires Ascending(ps) && ps != []
    ensures p in ps[1..] <==> p in ps && p != ps[0]
  {
    BeforeIrreflexive(ps[0]);
    if p in ps[1..] {
      var k :| 1 <= k < |ps| && ps[k] == p;
      assert Before(ps[0], ps[k]);
    }
  }

  // ----- what a cursor has in front of it -----

  predicate BehindCursor(h: Handle, q: Path)
  {
    h.At? && Behind(h.path, q)
  }

  predicate FromCursor(h: Handle, q: Path)
  {
    h.At? && From(h.path, q)
  }

  predicate AfterCursor(h: Handle, q: Path)
  {
    h.At? && Before(h.path, q)
  }

  ghost function Nodes(t: Tree): set<Path>
  {
    set q | q in Preorder(t)
  }

  ghost function After(t: Tree, h: Handle): set<Path>
  {
    set q | q in Nodes(t) && AfterCursor(h, q)
  }

  ghost function NotBehind(t: Tree, h: Handle): set<Path>
  {
    set q | q in Nodes(t) && !BehindCursor(h, q)
  }

  lemma NodesAreAll(t: Tree)
    ensures forall q: Path :: q in Nodes(t) <==> Has(t, q)
  {
    PreorderIsDocumentOrder(t);
  }

  lemma DownFirst(t: Tree, h: Handle)
    requires Valid(t, h) && FirstChild(t, h).At?
    ensures forall q: Path | Has(t, q) :: AfterCursor(h, q) <==> FromCursor(FirstChild(t, h), q)
  {
    forall q: Path | Has(t, q) {
      FirstChildIsNext(t, h.path, q);
    }
  }

  lemma AtLeaf(t: Tree, h: Handle)
    requires Valid(t, h) && h.At? && FirstChild(t, h).Null?
    ensures forall q: Path | Has(t, q) :: AfterCursor(h, q) <==> BehindCursor(h, q)
  {
    forall q: Path | Has(t, q) {
      LeafSubtree(t, h.path, q);
    }
  }

  lemma Across(t: Tree, h: Handle)
    requires Valid(t, h) && NextSibling(t, h).At?
    ensures forall q: Path | Has(t, q) :: BehindCursor(h, q) <==> FromCursor(NextSibling(t, h), q)
  {
    forall q: Path | Has(t, q) {
      NextSiblingIsNext(t, h.path, q);
    }
  }

  lemma Up(t: Tree, h: Handle)
    requires Valid(t, h) && h.At? && NextSibling(t, h).Null?
    ensures forall q: Path | Has(t, q) :: BehindCursor(h, q) <==> BehindCursor(Parent(h), q)
  {
    forall q: Path | Has(t, q)
      ensures BehindCursor(h, q) <==> BehindCursor(Parent(h), q)
    {
      if h.path == [] {
        RootIsFirst(q);
      } else {
        LastSiblingLeaves(t, h.path, q);
      }
    }
  }

  /** Going on to a later node leaves fewer nodes ahead. */
  lemma FewerAhead(t: Tree, h: Handle, g: Handle)
    requires Valid(t, h) && Valid(t, g) && h.At? && g.At? && Before(h.path, g.path)
    ensures After(t, g) < After(t, h)
  {
    NodesAreAll(t);
    forall q | q in After(t, g)
      ensures q in After(t, h)
    {
      BeforeTransitive(h.path, g.path, q);
    }
    BeforeIrreflexive(g.path);
    assert g.path in After(t, h) && g.path !in After(t, g);
  }

  /** A result that a walk has filled up to its cursor. */
  lemma PushedAscending(r: seq<Path>, p: Path)
    requires Ascending(r) && forall q | q in r :: Before(q, p)
    ensures Ascending(r + [p])
  {
    forall i, j | 0 <= i < j < |r + [p]|
      ensures Before((r + [p])[i], (r + [p])[j])
    {
      if j == |r| {
        assert r[i] in r;
      }
    }
  }

  lemma PushedDescending(r: seq<Path>, p: Path)
    requires Descending(r) && forall q | q in r :: Before(p, q)
    ensures Descending(r + [p])
  {
    forall i, j | 0 <= i < j < |r + [p]|
      ensures Before((r + [p])[j], (r + [p])[i])
    {
      if j == |r| {
        assert r[i] in r;
      }
    }
  }

  // ----- following -----

  /** Leaves the subtree of `h`: the next node that is not below it. */
  method LeaveSubtree(t: Tree, h: Handle) returns (cur: Handle)
    requires Valid(t, h)
    ensures Valid(t, cur)
    ensures forall q: Path | Has(t, q) :: BehindCursor(h, q) <==> FromCursor(cur, q)
  {
    cur := h;
    while cur.At? && NextSibling(t, cur).Null?
      invariant Valid(t, cur)
      invariant forall q: Path | Has(t, q) :: BehindCursor(h, q) <==> BehindCursor(cur, q)
      decreases if cur.At? then |cur.path| + 1 else 0
    {
      Up(t, cur);
      MovesAreValid(t, cur);
      cur := Parent(cur);
    }
    if cur.At? {
      Across(t, cur);
    }
    MovesAreValid(t, cur);
    cur := NextSibling(t, cur);
  }

  method FollowingAxis(t: Tree, n: Path) returns (r: seq<Path>)
    requires Has(t, n)
    ensures Ascending(r) && forall q: Path :: q in r <==> Has(t, q) && IsFollowing(n, q)
  {
    hide Before, Has, Sub, FirstChild, NextSibling, Ascending, Behind;
    r := [];
    var cur := LeaveSubtree(t, At(n));
    NothingYet();
    while cur.At?
      invariant Valid(t, cur) && Ascending(r)
      invariant forall q: Path :: q in r <==> Has(t, q) && IsFollowing(n, q) && !FromCursor(cur, q)
      invariant forall q: Path | Has(t, q) && FromCursor(cur, q) :: IsFollowing(n, q)
      decreases cur.At?, After(t, cur)
    {
      PushCursor(t, r, cur);
      BeforeIrreflexive(cur.path);
      r := r + [cur.path];
      cur := NextNode(t, cur);
    }
  }

  lemma NothingYet()
    ensures Ascending([]) && Descending([])
  {
  }

  /** The cursor is behind everything that has been pushed. */
  lemma PushCursor(t: Tree, r: seq<Path>, cur: Handle)
    requires Valid(t, cur) && cur.At? && Ascending(r) && forall q | q in r :: Has(t, q) && !FromCursor(cur, q)
    ensures Ascending(r + [cur.path])
  {
    forall q | q in r
      ensures Before(q, cur.path)
    {
      BeforeTotal(q, cur.path);
    }
    PushedAscending(r, cur.path);
  }

  /** The node after `h` in document order. */
  method NextNode(t: Tree, h: Handle) returns (cur: Handle)
    requires Valid(t, h) && h.At?
    ensures Valid(t, cur)
    ensures forall q: Path | Has(t, q) :: AfterCursor(h, q) <==> FromCursor(cur, q)
    ensures cur.At? ==> After(t, cur) < After(t, h)
  {
    MovesAreValid(t, h);
    if FirstChild(t, h).At? {
      DownFirst(t, h);
      cur := FirstChild(t, h);
    } else {
      AtLeaf(t, h);
      if NextSibling(t, h).At? {
        Across(t, h);
        cur := NextSibling(t, h);
      } else {
        cur := LeaveSubtree(t, h);
      }
    }
    if cur.At? {
      assert FromCursor(cur, cur.path);
      FewerAhead(t, h, cur);
    }
  }

  // ----- descendants -----

  /** Goes on from a node below `n` without leaving the subtree of `n`; back at `n` the walk is over. */
  method NextBelow(t: Tree, n: Path, h: Handle) returns (cur: Handle)
    requires Valid(t, h) && h.At? && IsDescendant(n, h.path)
    ensures Valid(t, cur) && cur.At? && n <= cur.path
    ensures forall q: Path | Has(t, q) && IsDescendant(n, q) ::
              AfterCursor(h, q) <==> cur.path != n && FromCursor(cur, q)
    ensures cur.path != n ==> After(t, cur) < After(t, h)
  {
    MovesAreValid(t, h);
    if FirstChild(t, h).At? {
      DownFirst(t, h);
      cur := FirstChild(t, h);
    } else {
      AtLeaf(t, h);
      cur := h;
      while NextSibling(t, cur).Null? && cur != At(n)
        invariant Valid(t, cur) && cur.At? && n <= cur.path
        invariant forall q: Path | Has(t, q) && IsDescendant(n, q) :: AfterCursor(h, q) <==> BehindCursor(cur, q)
        decreases |cur.path|
      {
        Up(t, cur);
        MovesAreValid(t, cur);
        cur := Parent(cur);
      }
      if cur != At(n) {
        Across(t, cur);
        MovesAreValid(t, cur);
        cur := NextSibling(t, cur);
      }
    }
    if cur.path != n {
      assert FromCursor(cur, cur.path);
      FewerAhead(t, h, cur);
    }
  }

  method DescendantAxis(t: Tree, n: Path) returns (r: seq<Path>)
    requires Has(t, n)
    ensures Ascending(r) && forall q: Path :: q in r <==> Has(t, q) && IsDescendant(n, q)
  {
    hide Before, Has, Sub, NextSibling, Ascending, Behind;
    r := [];
    NothingYet();
    var cur := FirstChild(t, At(n));
    FirstBelow(t, n);
    while cur.At? && cur.path != n
      invariant Valid(t, cur) && Ascending(r) && (cur.At? ==> n <= cur.path)
      invariant forall q: Path :: q in r <==>
                  Has(t, q) && IsDescendant(n, q) && (cur.At? && cur.path != n ==> !FromCursor(cur, q))
      decreases cur.At? && cur.path != n, After(t, cur)
    {
      PushCursor(t, r, cur);
      BeforeIrreflexive(cur.path);
      r := r + [cur.path];
      cur := NextBelow(t, n, cur);
    }
  }

  lemma FirstBelow(t: Tree, n: Path)
    requires Has(t, n)
    ensures var c := FirstChild(t, At(n));
            && Valid(t, c)
            && (c.At? ==> n <= c.path && n != c.path)
            && forall q: Path | Has(t, q) && IsDescendant(n, q) :: FromCursor(c, q)
  {
    MovesAreValid(t, At(n));
    forall q: Path | Has(t, q) && IsDescendant(n, q)
      ensures FromCursor(FirstChild(t, At(n)), q)
    {
      PrefixIsBefore(n, q);
      if FirstChild(t, At(n)).Null? {
        LeafSubtree(t, n, q);
        assert false;
      } else {
        FirstChildIsNext(t, n, q);
      }
    }
  }

  // ----- ancestors -----

  method AncestorAxis(t: Tree, n: Path) returns (r: seq<Path>)
    requires Has(t, n)
    ensures Descending(r) && forall q: Path :: q in r <==> Has(t, q) && IsAncestor(n, q)
  {
    r := [];
    var cur := Parent(At(n));
    while cur.At?
      invariant cur.At? ==> cur.path <= n && cur.path != n
      invariant Descending(r)
      invariant forall q: Path :: q in r <==> q <= n && q != n && (cur.At? ==> |q| > |cur.path|)
      decreases if cur.At? then |cur.path| + 1 else 0
    {
      forall q | q in r
        ensures Before(cur.path, q)
      {
        assert cur.path == n[..|cur.path|] && q == n[..|q|];
        PrefixIsBefore(cur.path, q);
      }
      PushedDescending(r, cur.path);
      forall q: Path | q <= n && |q| == |cur.path|
        ensures q == cur.path
      {
        assert q == n[..|q|] == cur.path;
      }
      r := r + [cur.path];
      cur := Parent(cur);
    }
    forall q: Path | q <= n {
      HasPrefix(t, q, n);
    }
  }

  // ----- preceding -----

  /** Walks up from `node` until it meets `parent` or runs out of nodes. */
  method NodeIsAncestor(parent: Path, node: Path) returns (b: bool)
    ensures b <==> parent <= node
  {
    var cur := At(node);
    while cur.At? && cur.path != parent
      invariant cur.At? ==> cur.path <= node
      invariant parent <= node ==> cur.At? && |parent| <= |cur.path|
      decreases if cur.At? then |cur.path| + 1 else 0
    {
      assert parent <= node ==> parent == node[..|parent|] && cur.path == node[..|cur.path|];
      cur := Parent(cur);
    }
    b := cur == At(parent);
  }

  lemma DownLast(t: Tree, h: Handle)
    requires Valid(t, h) && LastChild(t, h).At?
    ensures Valid(t, LastChild(t, h)) && Before(h.path, LastChild(t, h).path)
    ensures forall q: Path | Has(t, q) :: BehindCursor(h, q) <==> BehindCursor(LastChild(t, h), q)
  {
    MovesAreValid(t, h);
    var c := LastChild(t, h).path;
    PrefixIsBefore(h.path, c);
    assert Front(c) == h.path;
    HasExtended(t, h.path, Last(c) + 1);
    forall q: Path | Has(t, q) {
      LastSiblingLeaves(t, c, q);
    }
  }

  lemma BackAcross(t: Tree, h: Handle)
    requires Valid(t, h) && PreviousSibling(t, h).At?
    ensures Valid(t, PreviousSibling(t, h))
    ensures forall q: Path | Has(t, q) :: BehindCursor(PreviousSibling(t, h), q) <==> FromCursor(h, q)
  {
    MovesAreValid(t, h);
    var p := PreviousSibling(t, h).path;
    assert Front(p) == Front(h.path) && Last(p) + 1 == Last(h.path);
    FrontLast(h.path);
    forall q: Path | Has(t, q) {
      NextSiblingIsNext(t, p, q);
    }
  }

  lemma BackUp(t: Tree, h: Handle)
    requires Valid(t, h) && h.At? && PreviousSibling(t, h).Null?
    ensures Valid(t, Parent(h))
    ensures forall q: Path | Has(t, q) && (Parent(h).At? ==> q != Parent(h).path) ::
              FromCursor(h, q) <==> Parent(h).Null? || FromCursor(Parent(h), q)
    ensures forall q: Path | Has(t, q) && Parent(h).At? && q == Parent(h).path :: !FromCursor(h, q)
  {
    MovesAreValid(t, h);
    forall q: Path | Has(t, q)
      ensures (Parent(h).At? ==> q != Parent(h).path) ==> (FromCursor(h, q) <==> Parent(h).Null? || FromCursor(Parent(h), q))
      ensures Parent(h).At? && q == Parent(h).path ==> !FromCursor(h, q)
    {
      if h.path == [] {
        RootIsFirst(q);
      } else {
        FirstSiblingFollowsParent(t, h.path, q);
        BeforeIrreflexive(Front(h.path));
      }
    }
  }

  /** A node on the way up from a preceding node is preceding itself, unless it is an ancestor. */
  lemma OnTheWayUp(n: Path, p: Path)
    requires p != [] && (p <= n || IsPreceding(n, p))
    ensures Front(p) <= n || IsPreceding(n, Front(p))
  {
    FrontLast(p);
    if !(Front(p) <= n) {
      BeforeOutside(Front(p), [Last(p)], n);
    }
  }

  /** The last node before `n` whose subtree does not contain `n`, with its whole subtree still to be walked. */
  method StartPreceding(t: Tree, n: Path) returns (cur: Handle)
    requires Has(t, n)
    ensures Valid(t, cur) && (cur.At? ==> IsPreceding(n, cur.path))
    ensures forall q: Path | Has(t, q) && IsPreceding(n, q) :: cur.At? && !BehindCursor(cur, q)
  {
    hide Before, Has, Sub, PreviousSibling;
    cur := At(n);
    forall q: Path | IsPreceding(n, q) {
      BeforeTotal(q, n);
    }
    while cur.At? && PreviousSibling(t, cur).Null?
      invariant Valid(t, cur) && (cur.At? ==> cur.path <= n)
      invariant forall q: Path | Has(t, q) && IsPreceding(n, q) :: cur.At? && !FromCursor(cur, q)
      decreases if cur.At? then |cur.path| + 1 else 0
    {
      BackUp(t, cur);
      cur := Parent(cur);
    }
    NullMoves(t);
    if cur.At? {
      BackAcross(t, cur);
      AncestorIsFrom(cur.path, n);
      BackAcrossPrecedes(t, n, cur);
    }
    cur := PreviousSibling(t, cur);
  }

  lemma NullMoves(t: Tree)
    ensures PreviousSibling(t, Null) == Null
  {
  }

  lemma AncestorIsFrom(p: Path, n: Path)
    requires p <= n || IsPreceding(n, p)
    ensures From(p, n)
  {
    if p <= n && p != n {
      PrefixIsBefore(p, n);
    }
  }

  lemma PushBackwards(t: Tree, r: seq<Path>, cur: Handle)
    requires Valid(t, cur) && cur.At? && Descending(r) && forall q | q in r :: AfterCursor(cur, q)
    ensures Descending(r + [cur.path])
  {
    PushedDescending(r, cur.path);
  }

  /** A leaf is pushed, then the ancestors of the leaf that it was the first child of, unless `n` is below them. */
  method LeafBackwards(t: Tree, n: Path, r0: seq<Path>, h: Handle) returns (r: seq<Path>, cur: Handle)
    requires Has(t, n) && Valid(t, h) && h.At? && LastChild(t, h).Null? && IsPreceding(n, h.path) && Descending(r0)
    requires forall q: Path :: q in r0 <==> Has(t, q) && IsPreceding(n, q) && BehindCursor(h, q)
    ensures Valid(t, cur) && (cur.At? ==> IsPreceding(n, cur.path)) && Descending(r)
    ensures forall q: Path :: q in r <==> Has(t, q) && IsPreceding(n, q) && (cur.At? ==> BehindCursor(cur, q))
    ensures cur.At? ==> NotBehind(t, cur) < NotBehind(t, h)
  {
    hide Before, Has, Sub, PreviousSibling, Descending, IsPreceding;
    AtLastLeaf(t, h);
    PushBackwards(t, r0, h);
    r := r0 + [h.path];
    cur := h;
    while cur.At? && PreviousSibling(t, cur).Null?
      invariant Valid(t, cur) && Descending(r) && (cur.At? ==> cur.path <= n || IsPreceding(n, cur.path))
      invariant forall q: Path :: q in r <==> Has(t, q) && IsPreceding(n, q) && (cur.At? ==> FromCursor(cur, q))
      invariant forall q: Path | Has(t, q) && FromCursor(h, q) :: cur.Null? || FromCursor(cur, q)
      decreases if cur.At? then |cur.path| + 1 else 0
    {
      BackUp(t, cur);
      ghost var below := cur;
      cur := Parent(cur);
      if cur.At? {
        OnTheWayUp(n, below.path);
        var ancestor := NodeIsAncestor(cur.path, n);
        AncestorIsNotPreceding(cur.path, n);
        if !ancestor {
          PushBackwards(t, r, cur) by {
            FromParent(r, below, cur);
          }
          r := r + [cur.path];
        }
      }
    }
    NullMoves(t);
    if cur.At? {
      BackAcross(t, cur);
      AncestorIsFrom(cur.path, n);
      BackAcrossPrecedes(t, n, cur);
      FewerBehind(t, h, cur, PreviousSibling(t, cur));
    }
    cur := PreviousSibling(t, cur);
  }

  lemma AtLastLeaf(t: Tree, h: Handle)
    requires Valid(t, h) && h.At? && LastChild(t, h).Null?
    ensures forall q: Path | Has(t, q) :: AfterCursor(h, q) <==> BehindCursor(h, q)
  {
    AtLeaf(t, h);
  }

  lemma AncestorIsNotPreceding(p: Path, n: Path)
    ensures p <= n ==> !IsPreceding(n, p)
  {
  }

  lemma BackAcrossPrecedes(t: Tree, n: Path, h: Handle)
    requires Has(t, n) && Valid(t, h) && PreviousSibling(t, h).At? && FromCursor(h, n)
    ensures IsPreceding(n, PreviousSibling(t, h).path)
  {
    BackAcross(t, h);
  }

  lemma FromParent(r: seq<Path>, below: Handle, cur: Handle)
    requires below.At? && below.path != [] && cur == Parent(below) && forall q | q in r :: FromCursor(below, q)
    ensures forall q | q in r :: AfterCursor(cur, q)
  {
    forall q | q in r
      ensures Before(cur.path, q)
    {
      PrefixIsBefore(cur.path, below.path);
      if q != below.path {
        BeforeTransitive(cur.path, below.path, q);
      }
    }
  }

  lemma FewerBehind(t: Tree, h: Handle, c: Handle, g: Handle)
    requires Valid(t, h) && h.At?
    requires forall q: Path | Has(t, q) && FromCursor(h, q) :: FromCursor(c, q)
    requires forall q: Path | Has(t, q) :: BehindCursor(g, q) <==> FromCursor(c, q)
    ensures NotBehind(t, g) < NotBehind(t, h)
  {
    hide Before;
    NodesAreAll(t);
    BeforeIrreflexive(h.path);
    assert h.path in NotBehind(t, h) && h.path !in NotBehind(t, g);
    assert forall q: Path | Has(t, q) :: BehindCursor(h, q) ==> FromCursor(h, q);
  }

  lemma SameBehind(t: Tree, h: Handle, g: Handle)
    requires forall q: Path | Has(t, q) :: BehindCursor(h, q) <==> BehindCursor(g, q)
    ensures NotBehind(t, h) == NotBehind(t, g)
  {
    NodesAreAll(t);
  }

  /** Below a preceding node everything is preceding. */
  lemma BelowPreceding(n: Path, p: Path, c: Path)
    requires IsPreceding(n, p) && p <= c
    ensures IsPreceding(n, c)
  {
    var a := c[|p|..];
    assert c == p + a;
    BeforeOutside(p, a, n);
    assert c <= n ==> p <= n;
  }

  method PrecedingAxis(t: Tree, n: Path) returns (r: seq<Path>)
    requires Has(t, n)
    ensures Descending(r) && forall q: Path :: q in r <==> Has(t, q) && IsPreceding(n, q)
  {
    hide Before, Has, Sub, PreviousSibling, Descending, IsPreceding;
    r := [];
    NothingYet();
    var cur := StartPreceding(t, n);
    while cur.At?
      invariant Valid(t, cur) && Descending(r) && (cur.At? ==> IsPreceding(n, cur.path))
      invariant forall q: Path :: q in r <==> Has(t, q) && IsPreceding(n, q) && (cur.At? ==> BehindCursor(cur, q))
      decreases cur.At?, NotBehind(t, cur), After(t, cur)
    {
      if LastChild(t, cur).At? {
        DownLast(t, cur);
        FewerAhead(t, cur, LastChild(t, cur));
        SameBehind(t, cur, LastChild(t, cur));
        BelowPreceding(n, cur.path, LastChild(t, cur).path);
        cur := LastChild(t, cur);
      } else {
        r, cur := LeafBackwards(t, n, r, cur);
      }
    }
  }
}
