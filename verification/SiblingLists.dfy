/**
  The child lists of the document tree: `prev_sibling_c` is cyclic and `next_sibling` is not. Every edit acts on the
  sequence of children of one node, and keeps the whole document well linked.
 */
module SiblingLists {

  datatype Kind = Null | Document | Element | Pcdata | Cdata | Comment | Pi | Declaration | Doctype

  class Node {
    const kind: Kind
    var parent: Node?
    var firstChild: Node?
    var prevSiblingC: Node?
    var nextSibling: Node?
    ghost const depth: nat
    ghost var children: seq<Node>

    constructor (kind: Kind, ghost depth: nat)
      ensures this.kind == kind && this.depth == depth && children == []
      ensures parent == null && firstChild == null && prevSiblingC == null && nextSibling == null
    {
      this.kind, this.depth := kind, depth;
      parent, firstChild, prevSiblingC, nextSibling, children := null, null, null, null, [];
    }
  }

  ghost function NextOf(cs: seq<Node>, i: nat): Node?
    requires i < |cs|
  {
    if i + 1 < |cs| then cs[i + 1] else null
  }

  ghost function PrevOf(cs: seq<Node>, i: nat): Node
    requires i < |cs|
  {
    if i > 0 then cs[i - 1] else cs[|cs| - 1]
  }

  ghost predicate Distinct(cs: seq<Node>)
  {
    forall i, j | 0 <= i < j < |cs| :: cs[i] != cs[j]
  }

  /** The pointers of `p` and `cs` represent the sequence `cs` of children. */
  ghost predicate LinkedAs(p: Node, cs: seq<Node>)
    reads p`firstChild, cs`parent, cs`nextSibling, cs`prevSiblingC
  {
    && p.firstChild == (if cs == [] then null else cs[0])
    && Distinct(cs)
    && (forall i | 0 <= i < |cs| :: cs[i].parent == p)
    && (forall i | 0 <= i < |cs| :: cs[i].nextSibling == NextOf(cs, i))
    && (forall i | 0 <= i < |cs| :: cs[i].prevSiblingC == PrevOf(cs, i))
  }

  ghost predicate Linked(p: Node)
    reads p`firstChild, p`children, p.children`parent, p.children`nextSibling, p.children`prevSiblingC
  {
    LinkedAs(p, p.children)
  }

  ghost function Insert(cs: seq<Node>, i: nat, n: Node): seq<Node>
    requires i <= |cs|
  {
    cs[..i] + [n] + cs[i..]
  }

  ghost function Delete(cs: seq<Node>, i: nat): seq<Node>
    requires i < |cs|
  {
    cs[..i] + cs[i + 1..]
  }

  lemma Only(cs: seq<Node>, i: nat)
    requires Distinct(cs) && i < |cs|
    ensures forall k | 0 <= k < |cs| :: cs[k] == cs[i] ==> k == i
  {
  }

  lemma Neighbours(cs: seq<Node>, i: nat)
    requires i < |cs|
    ensures NextOf(cs, i) == if i + 1 < |cs| then cs[i + 1] else null
    ensures PrevOf(cs, i) == if i > 0 then cs[i - 1] else cs[|cs| - 1]
  {
  }

  lemma DistinctInsert(cs: seq<Node>, i: nat, n: Node)
    requires Distinct(cs) && i <= |cs| && n !in cs
    ensures Distinct(Insert(cs, i, n))
  {
    var ds := Insert(cs, i, n);
    forall a, b | 0 <= a < b < |ds| ensures ds[a] != ds[b] {
      assert ds[a] == if a < i then cs[a] else if a == i then n else cs[a - 1];
      assert ds[b] == if b < i then cs[b] else if b == i then n else cs[b - 1];
    }
  }

  lemma DistinctDelete(cs: seq<Node>, i: nat)
    requires Distinct(cs) && i < |cs|
    ensures Distinct(Delete(cs, i))
  {
    var ds := Delete(cs, i);
    forall a, b | 0 <= a < b < |ds| ensures ds[a] != ds[b] {
      assert ds[a] == cs[if a < i then a else a + 1] && ds[b] == cs[if b < i then b else b + 1];
    }
  }

  // ----- what the pointers must be for a list to have been edited -----

  /** `n` stands between the children `i - 1` and `i`: the cyclic neighbours of the gap point to it. */
  lemma InsertedAt(p: Node, cs: seq<Node>, i: nat, n: Node)
    requires Distinct(cs) && n !in cs && i <= |cs|
    requires forall k | 0 <= k < |cs| :: cs[k].parent == p
    requires n.parent == p
    requires p.firstChild == if i == 0 then n else cs[0]
    requires forall k | 0 <= k < |cs| :: cs[k].nextSibling == if k + 1 == i then n else NextOf(cs, k)
    requires n.nextSibling == if i < |cs| then cs[i] else null
    requires forall k | 0 <= k < |cs| :: cs[k].prevSiblingC == if k == i || (k == 0 && i == |cs|) then n else PrevOf(cs, k)
    requires n.prevSiblingC == if cs == [] then n else if i == 0 then cs[|cs| - 1] else cs[i - 1]
    ensures LinkedAs(p, Insert(cs, i, n))
  {
    hide Distinct;
    var ds := Insert(cs, i, n);
    DistinctInsert(cs, i, n);
    forall k | 0 <= k < |ds|
      ensures ds[k].parent == p && ds[k].nextSibling == NextOf(ds, k) && ds[k].prevSiblingC == PrevOf(ds, k)
    {
      if k < i {
        assert ds[k] == cs[k];
      } else if k == i {
        assert ds[k] == n;
      } else {
        assert ds[k] == cs[k - 1];
      }
    }
  }

  /** Child `i` has been bypassed in both directions. */
  lemma DeletedAt(p: Node, cs: seq<Node>, i: nat)
    requires Distinct(cs) && i < |cs|
    requires forall k | 0 <= k < |cs| :: cs[k].parent == p
    requires p.firstChild == if i > 0 then cs[0] else NextOf(cs, 0)
    requires forall k | 0 <= k < |cs| && k != i :: cs[k].nextSibling == if k + 1 == i then NextOf(cs, i) else NextOf(cs, k)
    requires forall k | 0 <= k < |cs| && k != i ::
      cs[k].prevSiblingC == if k == i + 1 || (k == 0 && i == |cs| - 1) then PrevOf(cs, i) else PrevOf(cs, k)
    ensures LinkedAs(p, Delete(cs, i))
  {
    hide Distinct;
    var ds := Delete(cs, i);
    DistinctDelete(cs, i);
    forall k | 0 <= k < |ds|
      ensures ds[k].parent == p && ds[k].nextSibling == NextOf(ds, k) && ds[k].prevSiblingC == PrevOf(ds, k)
    {
      if k < i {
        assert ds[k] == cs[k];
      } else {
        assert ds[k] == cs[k + 1];
      }
    }
  }

  // ----- pointer surgery on one list -----

  /** The end of `append_node`. */
  method LinkLast(p: Node, child: Node)
    requires Linked(p) && child !in p.children && child != p && child.parent == p && child.nextSibling == null
    modifies p`firstChild, p`children, p.children`nextSibling, p.children`prevSiblingC
    modifies child`prevSiblingC
    ensures Linked(p) && p.children == old(p.children) + [child]
  {
    hide Distinct, NextOf, PrevOf;
    ghost var cs := p.children;
    var first := p.firstChild;
    if first != null {
      Neighbours(cs, 0);
      Neighbours(cs, |cs| - 1);
      Only(cs, 0);
      Only(cs, |cs| - 1);
      var last := first.prevSiblingC;
      last.nextSibling := child;
      child.prevSiblingC := last;
      first.prevSiblingC := child;
    } else {
      p.firstChild := child;
      child.prevSiblingC := child;
    }
    InsertedAt(p, cs, |cs|, child);
    assert Insert(cs, |cs|, child) == cs + [child];
    p.children := cs + [child];
  }

  /** The end of `prepend_child`. */
  method LinkFirst(p: Node, n: Node)
    requires Linked(p) && n !in p.children && n != p && n.parent == p
    modifies p`firstChild, p`children, p.children`prevSiblingC
    modifies n`prevSiblingC, n`nextSibling
    ensures Linked(p) && p.children == [n] + old(p.children)
  {
    hide Distinct, NextOf, PrevOf;
    ghost var cs := p.children;
    var head := p.firstChild;
    if head != null {
      Neighbours(cs, 0);
      n.prevSiblingC := head.prevSiblingC;
      head.prevSiblingC := n;
    } else {
      n.prevSiblingC := n;
    }
    assert forall k | 0 <= k < |cs| :: cs[k].prevSiblingC == if k == 0 then n else PrevOf(cs, k) by {
      if cs != [] {
        Only(cs, 0);
      }
    }
    n.nextSibling := head;
    p.firstChild := n;
    InsertedAt(p, cs, 0, n);
    assert Insert(cs, 0, n) == [n] + cs;
    p.children := [n] + cs;
  }

  /** The end of `insert_child_before`. */
  method LinkBefore(p: Node, n: Node, node: Node, ghost i: nat)
    requires Linked(p) && n !in p.children && n != p && n.parent == p
    requires i < |p.children| && p.children[i] == node
    modifies p`firstChild, p`children, p.children`nextSibling, p.children`prevSiblingC
    modifies n`prevSiblingC, n`nextSibling
    ensures Linked(p) && p.children == Insert(old(p.children), i, n)
  {
    hide Distinct, NextOf, PrevOf, Insert;
    ghost var cs := p.children;
    Neighbours(cs, i);
    Neighbours(cs, if i > 0 then i - 1 else |cs| - 1);
    if node.prevSiblingC.nextSibling != null {
      node.prevSiblingC.nextSibling := n;
    } else {
      p.firstChild := n;
    }
    assert forall k | 0 <= k < |cs| :: cs[k].nextSibling == if k + 1 == i then n else NextOf(cs, k) by {
      Only(cs, if i > 0 then i - 1 else |cs| - 1);
    }
    n.prevSiblingC := node.prevSiblingC;
    n.nextSibling := node;
    node.prevSiblingC := n;
    assert forall k | 0 <= k < |cs| :: cs[k].prevSiblingC == if k == i then n else PrevOf(cs, k) by {
      Only(cs, i);
    }
    InsertedAt(p, cs, i, n);
    p.children := Insert(cs, i, n);
  }

  /** The end of `insert_child_after`. */
  method LinkAfter(p: Node, n: Node, node: Node, ghost i: nat)
    requires Linked(p) && n !in p.children && n != p && n.parent == p
    requires i < |p.children| && p.children[i] == node
    modifies p`firstChild, p`children, p.children`nextSibling, p.children`prevSiblingC
    modifies n`prevSiblingC, n`nextSibling
    ensures Linked(p) && p.children == Insert(old(p.children), i + 1, n)
  {
    hide Distinct, NextOf, PrevOf, Insert;
    ghost var cs := p.children;
    Neighbours(cs, i);
    Neighbours(cs, 0);
    if node.nextSibling != null {
      node.nextSibling.prevSiblingC := n;
    } else {
      p.firstChild.prevSiblingC := n;
    }
    assert forall k | 0 <= k < |cs| ::
        cs[k].prevSiblingC == if k == i + 1 || (k == 0 && i == |cs| - 1) then n else PrevOf(cs, k) by {
      Only(cs, if i + 1 < |cs| then i + 1 else 0);
    }
    n.nextSibling := node.nextSibling;
    n.prevSiblingC := node;
    node.nextSibling := n;
    assert forall k | 0 <= k < |cs| :: cs[k].nextSibling == if k + 1 == i + 1 then n else NextOf(cs, k) by {
      Only(cs, i);
    }
    InsertedAt(p, cs, i + 1, n);
    p.children := Insert(cs, i + 1, n);
  }

  /** The beginning of `remove_child`. */
  method Unlink(p: Node, n: Node, ghost i: nat)
    requires Linked(p) && i < |p.children| && p.children[i] == n
    modifies p`firstChild, p`children, p.children`nextSibling, p.children`prevSiblingC
    ensures Linked(p) && p.children == Delete(old(p.children), i)
  {
    hide Distinct, NextOf, PrevOf, Delete;
    ghost var cs := p.children;
    Neighbours(cs, i);
    Neighbours(cs, if i > 0 then i - 1 else |cs| - 1);
    Neighbours(cs, 0);
    if n.nextSibling != null {
      n.nextSibling.prevSiblingC := n.prevSiblingC;
    } else if p.firstChild != null {
      p.firstChild.prevSiblingC := n.prevSiblingC;
    }
    assert forall k | 0 <= k < |cs| ::
      cs[k].prevSiblingC == if k == i + 1 || (k == 0 && i == |cs| - 1) then PrevOf(cs, i) else PrevOf(cs, k) by {
      Only(cs, if i + 1 < |cs| then i + 1 else 0);
    }
    if n.prevSiblingC.nextSibling != null {
      n.prevSiblingC.nextSibling := n.nextSibling;
    } else {
      p.firstChild := n.nextSibling;
    }
    assert forall k | 0 <= k < |cs| && k != i ::
      cs[k].nextSibling == if k + 1 == i then NextOf(cs, i) else NextOf(cs, k) by {
      Only(cs, if i > 0 then i - 1 else |cs| - 1);
    }
    DeletedAt(p, cs, i);
    p.children := Delete(cs, i);
  }

  // ----- the document -----

  predicate AllowInsertChild(parent: Kind, child: Kind)
  {
    && (parent == Document || parent == Element)
    && child != Document && child != Null
    && (parent != Document ==> child != Declaration && child != Doctype)
  }

  /** Section 2.8 of XML 1.0: the declaration and the document type belong to the document; only elements nest. */
  lemma AllowedChildren(parent: Kind, child: Kind)
    ensures AllowInsertChild(parent, child) <==>
              || (parent == Document && child in {Declaration, Doctype, Element, Pcdata, Cdata, Comment, Pi})
              || (parent == Element && child in {Element, Pcdata, Cdata, Comment, Pi})
  {
  }

  /** Children belong to the same set of nodes, one level further down. */
  ghost predicate Nested(nodes: set<Node>)
    reads nodes`children
  {
    forall n | n in nodes :: forall c | c in n.children :: c in nodes && c.depth == n.depth + 1
  }

  ghost predicate AllLinked(nodes: set<Node>)
    reads nodes`firstChild, nodes`children, nodes`parent, nodes`nextSibling, nodes`prevSiblingC
  {
    forall n | n in nodes :: LinkedIn(n, nodes)
  }

  ghost predicate LinkedIn(n: Node, nodes: set<Node>)
    requires n in nodes
    reads nodes`firstChild, nodes`children, nodes`parent, nodes`nextSibling, nodes`prevSiblingC
  {
    (forall c | c in n.children :: c in nodes) && Linked(n)
  }

  /** Every node but the root is in the list of its parent. */
  ghost predicate Housed(nodes: set<Node>, root: Node)
    reads nodes`parent, nodes`children
  {
    && root in nodes && root.parent == null && root.depth == 0
    && forall n | n in nodes && n != root :: n.parent != null && n.parent in nodes && n in n.parent.children
  }

  lemma ParentOfChildren(m: Node)
    requires Linked(m)
    ensures forall c | c in m.children :: c.parent == m
  {
  }

  /** An edit of the children of `p` changes no other list and no parent. */
  twostate predicate EditsOnly(nodes: set<Node>, p: Node)
    requires p in nodes
    reads nodes
  {
    && (forall m | m in nodes :: m.parent == old(m.parent))
    && (forall m | m in nodes && m != p :: m.children == old(m.children) && m.firstChild == old(m.firstChild))
    && (forall m | m in nodes && m !in old(p.children) ::
          m.nextSibling == old(m.nextSibling) && m.prevSiblingC == old(m.prevSiblingC))
  }

  /** All lists but that of `p`, and what is known of the parents. */
  ghost predicate Elsewhere(nodes: set<Node>, root: Node, p: Node, was: seq<Node>)
    reads nodes
  {
    && p in nodes && root in nodes && root.parent == null && root.depth == 0
    && (forall m | m in nodes && m != p :: LinkedIn(m, nodes))
    && (forall m | m in nodes && m != p :: forall c | c in m.children :: c.depth == m.depth + 1)
    && (forall m | m in nodes && m != root :: m.parent != null && m.parent in nodes)
    && (forall m | m in nodes && m != root :: m in if m.parent == p then was else m.parent.children)
    && (forall c | c in was :: c in nodes && c.depth == p.depth + 1 && c.parent == p)
  }

  lemma Grown(nodes: set<Node>, root: Node, p: Node, was: seq<Node>, n: Node)
    requires Elsewhere(nodes, root, p, was) && n !in nodes && Linked(p)
    requires n.children == [] && n.firstChild == null && n.parent == p && n.depth == p.depth + 1
    requires forall c | c in p.children :: c in was || c == n
    requires n in p.children && forall c | c in was :: c in p.children
    ensures Nested(nodes + {n}) && AllLinked(nodes + {n}) && Housed(nodes + {n}, root)
  {
    hide Linked;
    NothingLinked(n);
    forall m | m in nodes + {n} ensures LinkedIn(m, nodes + {n}) {
      if m != n && m != p {
        assert LinkedIn(m, nodes);
      }
    }
  }

  lemma NothingLinked(n: Node)
    requires n.children == [] && n.firstChild == null
    ensures Linked(n)
  {
  }

  // ----- destroying a subtree -----

  ghost function Members(s: seq<Node>): set<Node>
  {
    set x | x in s
  }

  /** `sub` is `n` with everything below it. */
  ghost predicate IsSubtree(nodes: set<Node>, n: Node, sub: set<Node>)
    reads nodes`parent, nodes`children
  {
    && n in sub && sub <= nodes
    && (forall x | x in sub :: forall c | c in x.children :: c in sub)
    && (forall x | x in sub && x != n ::
          x.depth > n.depth && x.parent != null && x.parent in sub && x in x.parent.children)
  }

  lemma SubtreeWithin(nodes: set<Node>, n: Node, sub: set<Node>)
    requires IsSubtree(nodes, n, sub)
    ensures sub <= nodes && nodes - (nodes - sub) == sub
  {
  }

  /** There is only one such set. */
  lemma {:induction false} SubtreeIsUnique(nodes: set<Node>, n: Node, a: set<Node>, b: set<Node>, x: Node)
    requires Nested(nodes) && IsSubtree(nodes, n, a) && IsSubtree(nodes, n, b) && x in a
    ensures x in b
    decreases x.depth
  {
    if x != n {
      SubtreeIsUnique(nodes, n, a, b, x.parent);
    }
  }

  /** The subtrees of the first `k` children of `n`. */
  ghost predicate AreSubtrees(nodes: set<Node>, n: Node, k: nat, sub: set<Node>)
    requires n in nodes && k <= |n.children|
    reads nodes`parent, nodes`children
  {
    && sub <= nodes
    && (forall c | c in n.children[..k] :: c in sub)
    && (forall x | x in sub :: forall c | c in x.children :: c in sub)
    && (forall x | x in sub :: x.depth > n.depth && x.parent != null)
    && (forall x | x in sub && x !in n.children[..k] :: x.parent in sub && x in x.parent.children)
  }

  lemma {:induction false} SubtreesApart(nodes: set<Node>, n: Node, k: nat, sub: set<Node>, next: set<Node>, x: Node)
    requires n in nodes && Nested(nodes) && Linked(n) && k < |n.children|
    requires AreSubtrees(nodes, n, k, sub) && IsSubtree(nodes, n.children[k], next)
    requires x in sub
    ensures x !in next
    decreases x.depth
  {
    hide NextOf, PrevOf, Distinct;
    ParentOfChildren(n);
    var c := n.children[k];
    assert c in n.children;
    EarlierDiffer(n.children, k);
    if x in next {
      if x in n.children[..k] {
        assert false;
      } else if x == c {
        assert false;
      } else {
        SubtreesApart(nodes, n, k, sub, next, x.parent);
        assert false;
      }
    }
  }

  lemma EarlierDiffer(cs: seq<Node>, k: nat)
    requires Distinct(cs) && k < |cs|
    ensures forall c | c in cs[..k] :: c in cs && c != cs[k]
  {
  }

  lemma OneMoreSubtree(nodes: set<Node>, n: Node, k: nat, sub: set<Node>, next: set<Node>)
    requires n in nodes && Nested(nodes) && Linked(n) && k < |n.children|
    requires AreSubtrees(nodes, n, k, sub) && IsSubtree(nodes, n.children[k], next)
    ensures AreSubtrees(nodes, n, k + 1, sub + next)
  {
    hide NextOf, PrevOf, Distinct;
    ParentOfChildren(n);
    var c := n.children[k];
    assert c in n.children;
    assert n.children[..k + 1] == n.children[..k] + [c];
  }

  lemma WholeSubtree(nodes: set<Node>, n: Node, sub: set<Node>)
    requires n in nodes && Linked(n) && AreSubtrees(nodes, n, |n.children|, sub)
    ensures IsSubtree(nodes, n, sub + {n})
  {
    hide NextOf, PrevOf;
    ParentOfChildren(n);
    assert n.children[..|n.children|] == n.children;
  }

  lemma DistinctConcat(a: seq<Node>, b: seq<Node>)
    requires Distinct(a) && Distinct(b) && forall x | x in a :: x !in b
    ensures Distinct(a + b)
  {
    forall i, j | 0 <= i < j < |a + b| ensures (a + b)[i] != (a + b)[j] {
      if i < |a| <= j {
        assert a[i] in a && b[j - |a|] in b;
      }
    }
  }

  /** `destroy_node`: the children are destroyed before the node; the result lists the nodes in the order they are freed. */
  method DestroyNode(n: Node, ghost nodes: set<Node>, ghost limit: nat) returns (freed: seq<Node>)
    requires n in nodes && Nested(nodes) && AllLinked(nodes) && forall m | m in nodes :: m.depth <= limit
    ensures IsSubtree(nodes, n, Members(freed)) && Distinct(freed)
    ensures freed[|freed| - 1] == n
    decreases limit - n.depth
  {
    hide Linked, Distinct, IsSubtree, AreSubtrees, Nested, AllLinked;
    freed := [];
    var child := n.firstChild;
    ghost var k := 0;
    Start(nodes, n);
    while child != null
      invariant k <= |n.children| && child == if k < |n.children| then n.children[k] else null
      invariant AreSubtrees(nodes, n, k, Members(freed)) && Distinct(freed)
      decreases |n.children| - k
    {
      Child(nodes, n, k, limit);
      var next := child.nextSibling;
      var more := DestroyNode(child, nodes, limit);
      forall x | x in freed ensures x !in more {
        SubtreesApart(nodes, n, k, Members(freed), Members(more), x);
      }
      OneMoreSubtree(nodes, n, k, Members(freed), Members(more));
      DistinctConcat(freed, more);
      assert Members(freed + more) == Members(freed) + Members(more);
      freed := freed + more;
      child := next;
      k := k + 1;
    }
    Last(nodes, n, freed);
    assert Members(freed + [n]) == Members(freed) + {n};
    freed := freed + [n];
  }

  lemma Start(nodes: set<Node>, n: Node)
    requires n in nodes && AllLinked(nodes)
    ensures n.firstChild == (if n.children == [] then null else n.children[0])
    ensures AreSubtrees(nodes, n, 0, Members([])) && Distinct([])
  {
    assert LinkedIn(n, nodes);
  }

  lemma Child(nodes: set<Node>, n: Node, k: nat, limit: nat)
    requires n in nodes && Nested(nodes) && AllLinked(nodes) && k < |n.children|
    requires forall m | m in nodes :: m.depth <= limit
    ensures Linked(n) && var c := n.children[k];
            c in nodes && n.depth < c.depth <= limit
            && c.nextSibling == if k + 1 < |n.children| then n.children[k + 1] else null
  {
    assert LinkedIn(n, nodes);
    assert n.children[k] in n.children;
  }

  lemma Last(nodes: set<Node>, n: Node, freed: seq<Node>)
    requires n in nodes && AllLinked(nodes) && AreSubtrees(nodes, n, |n.children|, Members(freed)) && Distinct(freed)
    ensures IsSubtree(nodes, n, Members(freed) + {n}) && Distinct(freed + [n])
  {
    hide Linked;
    assert LinkedIn(n, nodes);
    WholeSubtree(nodes, n, Members(freed));
    assert n !in Members(freed);
    assert forall x | x in freed :: x in Members(freed);
  }

  /** What is left when `n` has left the list of `p` and its subtree is gone. */
  lemma Shrunk(nodes: set<Node>, root: Node, p: Node, was: seq<Node>, i: nat, sub: set<Node>)
    requires Elsewhere(nodes, root, p, was) && Linked(p)
    requires i < |was| && Distinct(was) && p.children == Delete(was, i) && IsSubtree(nodes, was[i], sub)
    ensures Nested(nodes - sub) && AllLinked(nodes - sub) && Housed(nodes - sub, root)
    ensures p !in sub && root !in sub
  {
    hide Linked, Distinct;
    var n := was[i];
    assert n in was;
    DeletedOnly(was, i);
    forall m | m in nodes - sub
      ensures Linked(m) && forall c | c in m.children :: c in nodes - sub && c.depth == m.depth + 1
    {
      if m != p {
        assert LinkedIn(m, nodes);
      }
      ParentOfChildren(m);
    }
    assert forall m | m in nodes - sub :: LinkedIn(m, nodes - sub);
  }

  lemma StillNested(nodes: set<Node>, root: Node, p: Node, was: seq<Node>)
    requires Elsewhere(nodes, root, p, was) && Linked(p) && forall c | c in p.children :: c in was
    ensures Nested(nodes) && AllLinked(nodes)
  {
    hide Linked;
    forall m | m in nodes ensures LinkedIn(m, nodes) {
    }
  }

  lemma DeletedOnly(was: seq<Node>, i: nat)
    requires i < |was| && Distinct(was)
    ensures forall c :: c in Delete(was, i) <==> c in was && c != was[i]
  {
    Only(was, i);
    assert was == was[..i] + [was[i]] + was[i + 1..];
    forall c | c in Delete(was, i) ensures c != was[i] {
      var k :| 0 <= k < |Delete(was, i)| && Delete(was, i)[k] == c;
      assert c == was[if k < i then k else k + 1];
    }
  }

  class XmlDocument {
    const root: Node
    ghost var nodes: set<Node>
    ghost var limit: nat

    ghost predicate Valid()
      reads this, nodes
    {
      && (forall n | n in nodes :: n.depth <= limit)
      && Nested(nodes) && AllLinked(nodes) && Housed(nodes, root)
    }

    constructor ()
      ensures Valid() && nodes == {root} && fresh(root) && root.children == [] && root.kind == Document
    {
      root := new Node(Document, 0);
      nodes, limit := {root}, 0;
    }

    method Allocate(p: Node, kind: Kind) returns (n: Node)
      requires Valid() && p in nodes
      modifies this`limit
      ensures Valid() && limit > p.depth && fresh(n)
      ensures n.kind == kind && n.depth == p.depth + 1 && n.children == [] && n.parent == p
      ensures n.firstChild == null && n.nextSibling == null
    {
      hide Nested, AllLinked, Housed;
      n := new Node(kind, p.depth + 1);
      n.parent := p;
      limit := if limit > p.depth then limit else p.depth + 1;
    }

    lemma InList(p: Node)
      requires Valid() && p in nodes
      ensures Linked(p) && Distinct(p.children)
      ensures forall c | c in p.children :: c in nodes
    {
      hide NextOf, PrevOf, Distinct;
      assert LinkedIn(p, nodes);
    }

    twostate lemma OtherListKept(p: Node, new m: Node)
      requires p in nodes && m in nodes && m != p && nodes == old(nodes) && EditsOnly(nodes, p)
      requires old(LinkedIn(m, nodes)) && old(LinkedIn(p, nodes))
      ensures LinkedIn(m, nodes)
    {
      hide Distinct, NextOf, PrevOf;
      var cs := m.children;
      forall i | 0 <= i < |cs|
        ensures cs[i].parent == old(cs[i].parent)
        ensures cs[i].nextSibling == old(cs[i].nextSibling) && cs[i].prevSiblingC == old(cs[i].prevSiblingC)
      {
        assert cs[i] in cs && cs[i] in nodes;
        assert old(cs[i].parent) == m;
      }
    }

    twostate lemma AfterEdit(p: Node)
      requires old(Valid()) && p in old(nodes) && nodes == old(nodes) && EditsOnly(nodes, p)
      ensures Elsewhere(nodes, root, p, old(p.children))
    {
      hide Linked, LinkedIn;
      forall m | m in nodes && m != p ensures LinkedIn(m, nodes) {
        assert old(LinkedIn(m, nodes)) && old(LinkedIn(p, nodes));
        OtherListKept(p, m);
      }
      assert old(LinkedIn(p, nodes));
      ChildrenBefore(p);
    }

    twostate lemma ChildrenBefore(p: Node)
      requires p in nodes && nodes == old(nodes) && EditsOnly(nodes, p) && old(LinkedIn(p, nodes))
      ensures forall c | c in old(p.children) :: c in nodes && c.parent == p
    {
      hide Distinct, NextOf, PrevOf;
    }

    lemma PlaceOf(p: Node, n: Node) returns (i: nat)
      requires Valid() && p in nodes && n in nodes && n.parent == p
      ensures i < |p.children| && p.children[i] == n
    {
      hide Linked, AllLinked;
      assert n in p.children;
      i :| 0 <= i < |p.children| && p.children[i] == n;
    }

    /** `append_child` */
    method AppendChild(p: Node?, kind: Kind, memory: bool) returns (child: Node?)
      requires Valid() && (p != null ==> p in nodes)
      modifies this, nodes
      ensures Valid()
      ensures child != null <==> p != null && AllowInsertChild(p.kind, kind) && memory
      ensures child == null ==> nodes == old(nodes) && (p != null ==> p.children == old(p.children))
      ensures child != null ==> fresh(child) && child.kind == kind && child.children == [] && nodes == old(nodes) + {child}
      ensures child != null ==> p.children == old(p.children) + [child]
      ensures forall m | m in old(nodes) && m != p :: m.children == old(m.children)
    {
      hide Linked, Nested, AllLinked, Housed, Elsewhere, LinkedIn;
      if p == null || !AllowInsertChild(p.kind, kind) || !memory { return null; }
      var n := Allocate(p, kind);
      InList(p);
      LinkLast(p, n);
      AfterEdit(p);
      Grown(nodes, root, p, old(p.children), n);
      nodes := nodes + {n};
      return n;
    }

    /** `prepend_child` */
    method PrependChild(p: Node?, kind: Kind, memory: bool) returns (n: Node?)
      requires Valid() && (p != null ==> p in nodes)
      modifies this, nodes
      ensures Valid()
      ensures n != null <==> p != null && AllowInsertChild(p.kind, kind) && memory
      ensures n == null ==> nodes == old(nodes) && (p != null ==> p.children == old(p.children))
      ensures n != null ==> fresh(n) && n.kind == kind && n.children == [] && nodes == old(nodes) + {n}
      ensures n != null ==> p.children == [n] + old(p.children)
      ensures forall m | m in old(nodes) && m != p :: m.children == old(m.children)
    {
      hide Linked, Nested, AllLinked, Housed, Elsewhere, LinkedIn;
      if p == null || !AllowInsertChild(p.kind, kind) { return null; }
      if !memory { return null; }
      n := Allocate(p, kind);
      InList(p);
      LinkFirst(p, n);
      AfterEdit(p);
      Grown(nodes, root, p, old(p.children), n);
      nodes := nodes + {n};
    }

    /** `insert_child_before`; `at` is where `node` was. */
    method InsertChildBefore(p: Node?, kind: Kind, node: Node?, memory: bool) returns (n: Node?, ghost at: nat)
      requires Valid() && (p != null ==> p in nodes) && (node != null ==> node in nodes)
      modifies this, nodes
      ensures Valid()
      ensures n != null <==> p != null && AllowInsertChild(p.kind, kind) && memory && node != null && old(node.parent) == p
      ensures n == null ==> nodes == old(nodes) && (p != null ==> p.children == old(p.children))
      ensures n != null ==> fresh(n) && n.kind == kind && n.children == [] && nodes == old(nodes) + {n}
      ensures n != null ==> at < |old(p.children)| && old(p.children)[at] == node
                            && p.children == Insert(old(p.children), at, n)
      ensures forall m | m in old(nodes) && m != p :: m.children == old(m.children)
    {
      hide Linked, Nested, AllLinked, Housed, Elsewhere, LinkedIn;
      if p == null || !AllowInsertChild(p.kind, kind) { return null, 0; }
      if node == null || node.parent != p { return null, 0; }
      at := PlaceOf(p, node);
      if !memory { return null, 0; }
      n := Allocate(p, kind);
      InList(p);
      LinkBefore(p, n, node, at);
      AfterEdit(p);
      Grown(nodes, root, p, old(p.children), n);
      nodes := nodes + {n};
    }

    /** `insert_child_after`; `at` is where `node` was. */
    method InsertChildAfter(p: Node?, kind: Kind, node: Node?, memory: bool) returns (n: Node?, ghost at: nat)
      requires Valid() && (p != null ==> p in nodes) && (node != null ==> node in nodes)
      modifies this, nodes
      ensures Valid()
      ensures n != null <==> p != null && AllowInsertChild(p.kind, kind) && memory && node != null && old(node.parent) == p
      ensures n == null ==> nodes == old(nodes) && (p != null ==> p.children == old(p.children))
      ensures n != null ==> fresh(n) && n.kind == kind && n.children == [] && nodes == old(nodes) + {n}
      ensures n != null ==> at < |old(p.children)| && old(p.children)[at] == node
                            && p.children == Insert(old(p.children), at + 1, n)
      ensures forall m | m in old(nodes) && m != p :: m.children == old(m.children)
    {
      hide Linked, Nested, AllLinked, Housed, Elsewhere, LinkedIn;
      if p == null || !AllowInsertChild(p.kind, kind) { return null, 0; }
      if node == null || node.parent != p { return null, 0; }
      at := PlaceOf(p, node);
      if !memory { return null, 0; }
      n := Allocate(p, kind);
      InList(p);
      LinkAfter(p, n, node, at);
      AfterEdit(p);
      Grown(nodes, root, p, old(p.children), n);
      nodes := nodes + {n};
    }

    /** `last_child`: the cyclic pointer of the first child. */
    method LastChild(p: Node) returns (r: Node?)
      requires Valid() && p in nodes
      ensures r == if p.children == [] then null else p.children[|p.children| - 1]
    {
      InListLinked(p);
      r := if p.firstChild != null then p.firstChild.prevSiblingC else null;
    }

    /** `previous_sibling`: the cycle is cut where the pointed node has no next sibling. */
    method PreviousSibling(n: Node) returns (r: Node?, ghost i: nat)
      requires Valid() && n in nodes && n != root
      ensures n.parent != null && i < |n.parent.children| && n.parent.children[i] == n
      ensures r == if i > 0 then n.parent.children[i - 1] else null
    {
      hide AllLinked, Distinct, NextOf, PrevOf;
      i := PlaceOf(n.parent, n);
      ghost var cs := n.parent.children;
      InListLinked(n.parent);
      Neighbours(cs, i);
      Neighbours(cs, if i > 0 then i - 1 else |cs| - 1);
      r := if n.prevSiblingC.nextSibling != null then n.prevSiblingC else null;
    }

    lemma InListLinked(p: Node)
      requires Valid() && p in nodes
      ensures Linked(p)
    {
      hide Linked;
      assert LinkedIn(p, nodes);
    }

    /** What `remove_child` does to the list, and which nodes it frees. */
    twostate predicate Removed(p: Node, n: Node, at: nat, new freed: seq<Node>)
      reads this, p
    {
      && at < |old(p.children)| && old(p.children)[at] == n && p.children == Delete(old(p.children), at)
      && nodes <= old(nodes) && Distinct(freed)
      && var gone := old(nodes) - nodes; gone == Members(freed) && old(IsSubtree(nodes, n, gone))
    }

    method RemoveFrom(p: Node, n: Node) returns (freed: seq<Node>, ghost at: nat)
      requires Valid() && p in nodes && n in nodes && n.parent == p
      modifies this, nodes
      ensures Valid() && Removed(p, n, at, freed)
      ensures forall m | m in old(nodes) && m != p :: m.children == old(m.children)
    {
      hide Linked, Nested, AllLinked, Housed, Elsewhere, LinkedIn, Distinct, IsSubtree;
      at := PlaceOf(p, n);
      InList(p);
      Unlink(p, n, at);
      AfterEdit(p);
      DeletedOnly(old(p.children), at);
      StillNested(nodes, root, p, old(p.children));
      freed := DestroyNode(n, nodes, limit);
      Shrunk(nodes, root, p, old(p.children), at, Members(freed));
      SubtreeBefore(p, n, Members(freed));
      nodes := nodes - Members(freed);
      SubtreeWithin(old(nodes), n, Members(freed));
    }

    /** The subtree was the same before the edit. */
    twostate lemma SubtreeBefore(p: Node, new n: Node, new sub: set<Node>)
      requires nodes == old(nodes) && p in nodes && EditsOnly(nodes, p) && IsSubtree(nodes, n, sub) && p !in sub
      ensures old(IsSubtree(nodes, n, sub))
    {
    }

    /** `remove_child`: the node leaves the list it is in, and its subtree is freed, every node once. */
    method RemoveChild(p: Node?, n: Node?) returns (removed: bool, freed: seq<Node>, ghost at: nat)
      requires Valid() && (p != null ==> p in nodes) && (n != null ==> n in nodes)
      modifies this, nodes
      ensures Valid()
      ensures removed <==> p != null && n != null && old(n.parent) == p
      ensures !removed ==> freed == [] && nodes == old(nodes) && (p != null ==> p.children == old(p.children))
      ensures removed ==> Removed(p, n, at, freed)
      ensures forall m | m in old(nodes) && m != p :: m.children == old(m.children)
    {
      hide *;
      if p == null || n == null || n.parent != p { return false, [], 0; }
      freed, at := RemoveFrom(p, n);
      removed := true;
    }
  }
}
