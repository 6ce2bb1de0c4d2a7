/**
  The page allocator of the XML documents: pages are handed back by byte accounting alone, and still exactly when
  their last block has been freed.
 */
module PageAllocator {

  /** A block of a page, in the order of allocation; a freed block keeps its place. */
  datatype Block = Block(size: nat, live: bool)

  function Total(bs: seq<Block>): nat
  {
    if bs == [] then 0 else Total(bs[..|bs| - 1]) + bs[|bs| - 1].size
  }

  function Freed(bs: seq<Block>): nat
  {
    if bs == [] then 0 else Freed(bs[..|bs| - 1]) + (if bs[|bs| - 1].live then 0 else bs[|bs| - 1].size)
  }

  ghost predicate Positive(bs: seq<Block>)
  {
    forall k | 0 <= k < |bs| :: bs[k].size > 0
  }

  /** Where block `k` lies in its page. */
  function Offset(bs: seq<Block>, k: nat): nat
    requires k <= |bs|
  {
    Total(bs[..k])
  }

  /** Blocks do not overlap, and lie within the bytes that are in use. */
  lemma {:induction false} BlocksApart(bs: seq<Block>, i: nat, j: nat)
    requires i < j <= |bs|
    ensures Offset(bs, i) + bs[i].size <= Offset(bs, j) <= Total(bs)
    decreases |bs| + j
  {
    assert bs[..|bs|] == bs;
    if j < |bs| {
      var front := bs[..|bs| - 1];
      BlocksApart(front, i, j);
      assert front[..i] == bs[..i] && front[..j] == bs[..j];
    } else if i + 1 < j {
      BlocksApart(bs[..j - 1], i, j - 1);
      assert bs[..j - 1][..i] == bs[..i] && bs[..j - 1][..j - 1] == bs[..j - 1];
    }
  }

  /** No two live blocks begin at the same place. */
  lemma OffsetsDiffer(bs: seq<Block>, i: nat, j: nat)
    requires Positive(bs) && i < |bs| && j < |bs| && Offset(bs, i) == Offset(bs, j)
    ensures i == j
  {
    if i < j {
      BlocksApart(bs, i, j);
    } else if j < i {
      BlocksApart(bs, j, i);
    }
  }

  lemma Allocated(bs: seq<Block>, size: nat)
    ensures var cs := bs + [Block(size, true)];
            && Total(cs) == Total(bs) + size && Freed(cs) == Freed(bs)
            && (Positive(bs) && size > 0 ==> Positive(cs))
  {
    var cs := bs + [Block(size, true)];
    assert cs[..|cs| - 1] == bs;
  }

  /** Freeing a block moves its bytes, and no others. */
  lemma {:induction false} Deallocated(bs: seq<Block>, k: nat)
    requires k < |bs| && bs[k].live
    ensures var cs := bs[k := Block(bs[k].size, false)];
            Total(cs) == Total(bs) && Freed(cs) == Freed(bs) + bs[k].size && (Positive(bs) ==> Positive(cs))
    decreases |bs|
  {
    var cs := bs[k := Block(bs[k].size, false)];
    if k == |bs| - 1 {
      assert cs[..|cs| - 1] == bs[..|bs| - 1];
    } else {
      Deallocated(bs[..|bs| - 1], k);
      assert cs[..|cs| - 1] == bs[..|bs| - 1][k := Block(bs[k].size, false)];
    }
  }

  /** The bytes balance exactly when no block is live. */
  lemma {:induction false} Balance(bs: seq<Block>)
    requires Positive(bs)
    ensures Freed(bs) <= Total(bs)
    ensures Freed(bs) == Total(bs) <==> forall k | 0 <= k < |bs| :: !bs[k].live
  {
    if bs != [] {
      var front := bs[..|bs| - 1];
      Balance(front);
      assert forall k | 0 <= k < |front| :: front[k] == bs[k];
    }
  }

  // ----- pages -----

  function PageSize(): nat { 32768 }
  function Threshold(): nat { 8192 }

  class Page {
    const dataSize: nat
    var busySize: nat
    var freedSize: nat
    var prev: Page?
    var next: Page?
    var headers: map<nat, nat>       // the `full_size` of strings, by their offset
    ghost var blocks: seq<Block>

    constructor (dataSize: nat)
      ensures this.dataSize == dataSize && busySize == 0 && freedSize == 0 && prev == null && next == null
      ensures headers == map[] && blocks == []
    {
      this.dataSize := dataSize;
      busySize, freedSize, prev, next, headers, blocks := 0, 0, null, null, map[], [];
    }
  }

  ghost predicate Distinct(ps: seq<Page>)
  {
    forall i, j | 0 <= i < j < |ps| :: ps[i] != ps[j]
  }

  ghost function NextOf(ps: seq<Page>, i: nat): Page?
    requires i < |ps|
  {
    if i + 1 < |ps| then ps[i + 1] else null
  }

  ghost function PrevOf(ps: seq<Page>, i: nat): Page?
    requires i < |ps|
  {
    if i > 0 then ps[i - 1] else null
  }

  ghost predicate Linked(ps: seq<Page>)
    reads ps`prev, ps`next
  {
    && Distinct(ps)
    && (forall i | 0 <= i < |ps| :: ps[i].next == NextOf(ps, i))
    && (forall i | 0 <= i < |ps| :: ps[i].prev == PrevOf(ps, i))
  }

  lemma Neighbours(ps: seq<Page>, i: nat)
    requires i < |ps|
    ensures NextOf(ps, i) == if i + 1 < |ps| then ps[i + 1] else null
    ensures PrevOf(ps, i) == if i > 0 then ps[i - 1] else null
  {
  }

  lemma Only(ps: seq<Page>, i: nat)
    requires Distinct(ps) && i < |ps|
    ensures forall k | 0 <= k < |ps| :: ps[k] == ps[i] ==> k == i
  {
  }

  lemma DistinctInsert(ps: seq<Page>, i: nat, p: Page)
    requires Distinct(ps) && p !in ps && i <= |ps|
    ensures Distinct(ps[..i] + [p] + ps[i..])
  {
    var qs := ps[..i] + [p] + ps[i..];
    forall a, b | 0 <= a < b < |qs| ensures qs[a] != qs[b] {
      assert qs[a] == if a < i then ps[a] else if a == i then p else ps[a - 1];
      assert qs[b] == if b < i then ps[b] else if b == i then p else ps[b - 1];
    }
  }

  lemma DistinctDelete(ps: seq<Page>, i: nat)
    requires Distinct(ps) && i < |ps|
    ensures Distinct(ps[..i] + ps[i + 1..]) && ps[i] !in ps[..i] + ps[i + 1..]
  {
    var qs := ps[..i] + ps[i + 1..];
    forall a, b | 0 <= a < b < |qs| ensures qs[a] != qs[b] {
      assert qs[a] == ps[if a < i then a else a + 1] && qs[b] == ps[if b < i then b else b + 1];
    }
    forall a | 0 <= a < |qs| ensures qs[a] != ps[i] {
      assert qs[a] == ps[if a < i then a else a + 1];
    }
  }

  lemma DistinctMore(ps: seq<Page>, p: Page)
    requires Distinct(ps) && p !in ps
    ensures Distinct(ps + [p])
  {
  }

  /** `p` has been put before the page that was at `i`, or at the end. */
  lemma InsertedAt(ps: seq<Page>, i: nat, p: Page)
    requires Distinct(ps) && p !in ps && 0 < i <= |ps|
    requires forall k | 0 <= k < |ps| :: ps[k].next == if k + 1 == i then p else NextOf(ps, k)
    requires forall k | 0 <= k < |ps| :: ps[k].prev == if k == i then p else PrevOf(ps, k)
    requires p.prev == ps[i - 1] && p.next == if i < |ps| then ps[i] else null
    ensures Linked(ps[..i] + [p] + ps[i..])
  {
    hide Distinct;
    var qs := ps[..i] + [p] + ps[i..];
    DistinctInsert(ps, i, p);
    forall k | 0 <= k < |qs| ensures qs[k].next == NextOf(qs, k) && qs[k].prev == PrevOf(qs, k) {
      if k < i {
        assert qs[k] == ps[k];
      } else if k == i {
        assert qs[k] == p;
      } else {
        assert qs[k] == ps[k - 1];
      }
    }
  }

  lemma DeletedAt(ps: seq<Page>, i: nat)
    requires Distinct(ps) && 0 < i < |ps| - 1
    requires forall k | 0 <= k < |ps| && k != i :: ps[k].next == if k + 1 == i then ps[i + 1] else NextOf(ps, k)
    requires forall k | 0 <= k < |ps| && k != i :: ps[k].prev == if k == i + 1 then ps[i - 1] else PrevOf(ps, k)
    ensures Linked(ps[..i] + ps[i + 1..])
  {
    hide Distinct;
    var qs := ps[..i] + ps[i + 1..];
    DistinctDelete(ps, i);
    forall k | 0 <= k < |qs| ensures qs[k].next == NextOf(qs, k) && qs[k].prev == PrevOf(qs, k) {
      assert qs[k] == ps[if k < i then k else k + 1];
    }
  }

  /** The end of `allocate_memory_oob` for a page of ordinary size. */
  method LinkLast(ghost ps: seq<Page>, root: Page, page: Page)
    requires Linked(ps) && ps != [] && ps[|ps| - 1] == root && page !in ps && page.next == null
    modifies root`next, page`prev
    ensures Linked(ps + [page])
  {
    hide Distinct, NextOf, PrevOf;
    Only(ps, |ps| - 1);
    Neighbours(ps, |ps| - 1);
    page.prev := root;
    root.next := page;
    InsertedAt(ps, |ps|, page);
    assert ps[..|ps|] + [page] + ps[|ps|..] == ps + [page];
  }

  /** ... and for a large one, which goes before the newest page. */
  method LinkBeforeLast(ghost ps: seq<Page>, root: Page, page: Page)
    requires Linked(ps) && |ps| >= 2 && ps[|ps| - 1] == root && page !in ps
    modifies ps`prev, ps`next, page`prev, page`next
    ensures Linked(ps[..|ps| - 1] + [page] + ps[|ps| - 1..])
  {
    hide Distinct, NextOf, PrevOf;
    ghost var i := |ps| - 1;
    Only(ps, i);
    Only(ps, i - 1);
    Neighbours(ps, i);
    Neighbours(ps, i - 1);
    page.prev := root.prev;
    page.next := root;
    root.prev.next := page;
    root.prev := page;
    InsertedAt(ps, i, page);
  }

  /** The end of `deallocate_memory` for a page that is neither the first nor the newest. */
  method Unlink(ghost ps: seq<Page>, page: Page, ghost i: nat)
    requires Linked(ps) && 0 < i < |ps| - 1 && ps[i] == page
    modifies ps`next, ps`prev
    ensures Linked(ps[..i] + ps[i + 1..])
  {
    hide Distinct, NextOf, PrevOf;
    Only(ps, i - 1);
    Only(ps, i + 1);
    Neighbours(ps, i);
    Neighbours(ps, i - 1);
    Neighbours(ps, i + 1);
    page.prev.next := page.next;
    page.next.prev := page.prev;
    DeletedAt(ps, i);
  }

  // ----- accounting -----

  ghost predicate AnyLive(bs: seq<Block>)
  {
    exists k :: 0 <= k < |bs| && bs[k].live
  }

  /** `busy` and `freed_size` are the bytes of all blocks, and of those that have been freed. */
  ghost predicate Accounts(p: Page, busy: nat)
    reads p`blocks, p`freedSize
  {
    && busy == Total(p.blocks) <= p.dataSize && p.freedSize == Freed(p.blocks) && Positive(p.blocks)
  }

  /** The header of a string gives the size of its block; a block that occupies a whole page has 0. */
  ghost predicate HeaderOf(p: Page, o: nat, k: nat)
    requires o in p.headers
    reads p`blocks, p`headers
  {
    && k < |p.blocks| && p.blocks[k].live && Offset(p.blocks, k) == o
    && p.headers[o] == (if p.blocks[k].size < 0x1_0000 then p.blocks[k].size else 0)
    && (p.blocks[k].size >= 0x1_0000 ==> |p.blocks| == 1)
  }

  ghost predicate StringsHaveHeaders(p: Page)
    reads p`blocks, p`headers
  {
    forall o | o in p.headers :: exists k: nat :: HeaderOf(p, o, k)
  }

  /** A page between the first and the newest: it is there for a live block. */
  ghost predicate InUse(p: Page)
    reads p`blocks, p`headers, p`freedSize, p`busySize
  {
    Accounts(p, p.busySize) && AnyLive(p.blocks) && StringsHaveHeaders(p)
  }

  ghost predicate Newest(p: Page, busy: nat)
    reads p`blocks, p`headers, p`freedSize
  {
    Accounts(p, busy) && (p.blocks == [] || AnyLive(p.blocks)) && StringsHaveHeaders(p) && p.dataSize == PageSize()
  }

  lemma LiveUnbalanced(bs: seq<Block>)
    requires Positive(bs)
    ensures AnyLive(bs) <==> Freed(bs) < Total(bs)
  {
    Balance(bs);
  }

  /** A block at the end of the newest page. */
  method PutBlock(p: Page, busy: nat, size: nat)
    requires Newest(p, busy) && size > 0 && busy + size <= PageSize()
    modifies p`blocks
    ensures Newest(p, busy + size) && p.blocks == old(p.blocks) + [Block(size, true)]
    ensures busy == Offset(p.blocks, |p.blocks| - 1) && busy !in p.headers
  {
    ghost var bs := p.blocks;
    ghost var cs := bs + [Block(size, true)];
    Allocated(bs, size);
    assert cs[..|bs|] == bs && cs[|bs|].live;
    forall o | o in p.headers ensures o != busy && exists k: nat :: HeaderOf(p, o, k) && k < |bs| {
      var k: nat :| HeaderOf(p, o, k);
      BlocksApart(bs, k, |bs|);
      assert bs[..|bs|] == bs;
    }
    p.blocks := cs;
    forall o | o in p.headers ensures exists k: nat :: HeaderOf(p, o, k) {
      var k: nat :| k < |bs| && old(HeaderOf(p, o, k));
      assert cs[..k] == bs[..k] && cs[k] == bs[k];
      assert HeaderOf(p, o, k);
    }
  }

  /** The first block of a page. */
  method PutFirst(p: Page, size: nat)
    requires size > 0 && p.blocks == [] && p.freedSize == 0 && p.headers == map[] && size <= p.dataSize
    modifies p`blocks, p`busySize
    ensures p.blocks == [Block(size, true)] && p.busySize == size && InUse(p)
    ensures p.dataSize == PageSize() ==> Newest(p, size)
  {
    p.busySize := size;
    p.blocks := [Block(size, true)];
    Allocated([], size);
    assert [] + [Block(size, true)] == [Block(size, true)];
    assert p.blocks[0].live;
  }

  lemma FullEnough(p: Page, busy: nat, size: nat)
    requires Newest(p, busy) && p.busySize == busy && size <= Threshold() && busy + size > PageSize()
    ensures InUse(p)
  {
  }

  /** The accounting part of `deallocate_memory`. */
  method FreeBlock(p: Page, size: nat, ghost k: nat)
    requires Accounts(p, p.busySize) && StringsHaveHeaders(p)
    requires k < |p.blocks| && p.blocks[k] == Block(size, true) && Offset(p.blocks, k) !in p.headers
    modifies p`freedSize, p`blocks
    ensures Accounts(p, p.busySize) && StringsHaveHeaders(p) && p.blocks == old(p.blocks)[k := Block(size, false)]
  {
    ghost var bs := p.blocks;
    ghost var cs := bs[k := Block(size, false)];
    Deallocated(bs, k);
    forall o | o in p.headers ensures exists j: nat :: HeaderOf(p, o, j) && j != k {
      var j: nat :| HeaderOf(p, o, j);
    }
    p.freedSize := p.freedSize + size;
    p.blocks := cs;
    forall o | o in p.headers ensures exists j: nat :: HeaderOf(p, o, j) {
      var j: nat :| j != k && old(HeaderOf(p, o, j));
      SameOffsets(bs, k, Block(size, false), j);
      assert HeaderOf(p, o, j);
    }
  }

  lemma {:induction false} SameTotals(bs: seq<Block>, cs: seq<Block>)
    requires |bs| == |cs| && forall i | 0 <= i < |bs| :: bs[i].size == cs[i].size
    ensures Total(bs) == Total(cs)
  {
    if bs != [] {
      SameTotals(bs[..|bs| - 1], cs[..|cs| - 1]);
    }
  }

  lemma SameOffsets(bs: seq<Block>, k: nat, b: Block, j: nat)
    requires k < |bs| && b.size == bs[k].size && j <= |bs|
    ensures Offset(bs[k := b], j) == Offset(bs, j)
  {
    SameTotals(bs[k := b][..j], bs[..j]);
  }

  lemma HeadersAreLive(p: Page)
    requires StringsHaveHeaders(p)
    ensures p.headers == map[] || AnyLive(p.blocks)
  {
    if p.headers != map[] {
      assert p.headers.Keys != {};
      var o :| o in p.headers;
      var k: nat :| HeaderOf(p, o, k);
    }
  }

  ghost function Members(ps: seq<Page>): set<Page>
  {
    set p | p in ps
  }

  lemma OneCreated(a: set<Page>, s: Page, r: set<Page>, p: Page)
    requires p != s
    ensures a + {p} - {s} + r == a - {s} + r + {p}
  {
  }

  lemma OneReleased(a: set<Page>, s: Page, r: set<Page>, p: Page)
    requires p != s && p in a
    ensures a - {p} - {s} + (r + {p}) == a - {s} + r
  {
  }

  lemma MembersInsert(ps: seq<Page>, i: nat, p: Page)
    requires i <= |ps|
    ensures Members(ps[..i] + [p] + ps[i..]) == Members(ps) + {p}
  {
    assert ps == ps[..i] + ps[i..];
  }

  lemma IsMember(ps: seq<Page>, p: Page)
    requires p in ps
    ensures p in Members(ps)
  {
  }

  lemma MembersDelete(ps: seq<Page>, i: nat)
    requires i < |ps| && Distinct(ps)
    ensures Members(ps[..i] + ps[i + 1..]) == Members(ps) - {ps[i]}
  {
    DistinctDelete(ps, i);
    assert ps == ps[..i] + [ps[i]] + ps[i + 1..];
  }

  /** The size of a string's block: the header and the text, rounded up to the size of a pointer. */
  function FullSize(length: nat): (n: nat)
    ensures 4 + length <= n < 12 + length && n % 8 == 0
  {
    (4 + length + 7) / 8 * 8
  }

  /** The headers before are still there, beside the one at `o`. */
  ghost predicate KeepsHeaders(before: map<nat, nat>, after: map<nat, nat>, o: nat)
  {
    forall q | q in before && q != o :: q in after && after[q] == before[q]
  }

  /** Sizes beyond 16 bits are stored as 0. */
  method SetHeader(p: Page, o: nat, size: nat)
    requires StringsHaveHeaders(p) && o !in p.headers
    requires p.blocks != [] && o == Offset(p.blocks, |p.blocks| - 1) && p.blocks[|p.blocks| - 1] == Block(size, true)
    requires size >= 0x1_0000 ==> |p.blocks| == 1
    modifies p`headers
    ensures StringsHaveHeaders(p) && p.headers.Keys == old(p.headers.Keys) + {o}
    ensures HeaderOf(p, o, |p.blocks| - 1) && KeepsHeaders(old(p.headers), p.headers, o)
  {
    p.headers := p.headers[o := if size < 0x1_0000 then size else 0];
    assert HeaderOf(p, o, |p.blocks| - 1);
    forall q | q in p.headers ensures exists k: nat :: HeaderOf(p, q, k) {
      if q != o {
        var k: nat :| old(HeaderOf(p, q, k));
        assert HeaderOf(p, q, k);
      }
    }
  }

  class Allocator {
    const sentinel: Page
    var root: Page
    var busySize: nat
    ghost var pages: seq<Page>
    ghost var released: seq<Page>    // the pages handed back, in order
    ghost var created: set<Page>     // the pages that were ever allocated

    ghost predicate Shape()
      reads this, pages
    {
      && pages != [] && pages[0] == sentinel && pages[|pages| - 1] == root && Linked(pages)
    }

    /** The pages between the first and the newest. */
    ghost predicate AllInUse()
      reads this, pages
    {
      forall i | 0 < i < |pages| - 1 :: InUse(pages[i])
    }

    ghost predicate Valid()
      reads this, pages
    {
      && Shape()
      && AllInUse() && sentinel.blocks == []
      && (if |pages| == 1 then busySize == PageSize() else Newest(root, busySize))
      && (forall p | p in released :: p !in pages) && Distinct(released)
      && created == Members(pages) - {sentinel} + Members(released)
    }

    /** `xml_document::create`: the sentinel is full from the start. */
    constructor ()
      ensures Valid() && pages == [sentinel] && released == [] && fresh(sentinel)
    {
      sentinel := new Page(0);
      root := sentinel;
      busySize := PageSize();
      pages, released, created := [sentinel], [], {};
      new;
      sentinel.busySize := PageSize();
    }

    lemma RootIsLast()
      requires Shape()
      ensures forall i | 0 <= i < |pages| - 1 :: pages[i] != root
      ensures root in pages
    {
    }

    /** `allocate_memory`. A large block must not be the first (`assert(_root->prev)`). */
    method AllocateMemory(size: nat, memory: bool) returns (page: Page?, offset: nat)
      requires Valid() && size > 0
      requires size > Threshold() && busySize + size > PageSize() ==> |pages| > 1
      modifies this, pages
      ensures Valid() && released == old(released)
      ensures page == null <==> old(busySize) + size > PageSize() && !memory
      ensures page == null ==> pages == old(pages)
      ensures page != null ==> page in pages && (page in old(pages) || fresh(page))
                               && page.blocks == (if page in old(pages) then old(page.blocks) else []) + [Block(size, true)]
                               && offset == Offset(page.blocks, |page.blocks| - 1) && offset !in page.headers
                               && offset <= PageSize() && (size > PageSize() ==> page.blocks == [Block(size, true)])
      ensures page != null && page !in old(pages) ==> page.headers == map[]
      ensures forall p | p in old(pages) :: p in pages && p.headers == old(p.headers)
                                            && (p != page ==> p.blocks == old(p.blocks))
    {
      hide Linked, InUse, Newest;
      if busySize + size > PageSize() {
        if !memory { return null, 0; }
        page := AllocateOob(size);
        assert page.blocks[..0] == [];
        return page, 0;
      }
      RootIsLast();
      offset := busySize;
      page := root;
      PutBlock(root, busySize, size);
      busySize := busySize + size;
    }

    /** `allocate_memory_oob`, when a page can be had. */
    method AllocateOob(size: nat) returns (page: Page)
      requires Valid() && size > 0 && busySize + size > PageSize()
      requires size > Threshold() ==> |pages| > 1
      modifies this, pages
      ensures Valid() && released == old(released)
      ensures fresh(page) && page in pages && page.blocks == [Block(size, true)] && page.headers == map[]
      ensures forall p | p in old(pages) :: p in pages && p.blocks == old(p.blocks) && p.headers == old(p.headers)
    {
      if size <= Threshold() {
        page := NewRoot(size);
      } else {
        page := NewLarge(size);
      }
    }

    /** The newest page becomes one of the others. */
    method CloseRoot(ghost size: nat)
      requires Valid() && size <= Threshold() && busySize + size > PageSize()
      modifies root`busySize
      ensures Shape() && AllInUse() && (|pages| > 1 ==> InUse(root))
    {
      hide Linked, InUse, Newest, Members;
      RootIsLast();
      root.busySize := busySize;
      if |pages| > 1 {
        FullEnough(root, busySize, size);
      }
    }

    method AppendPage(page: Page)
      requires Shape() && page !in pages && page.next == null
      requires created == Members(pages) - {sentinel} + Members(released)
      modifies this`root, this`pages, this`created, root`next, page`prev
      ensures Shape() && root == page && pages == old(pages) + [page] && created == old(created) + {page}
      ensures created == Members(pages) - {sentinel} + Members(released)
    {
      hide Linked, Members;
      ghost var ps := pages;
      assert ps[0] in ps;
      LinkLast(ps, root, page);
      MembersInsert(ps, |ps|, page);
      OneCreated(Members(ps), sentinel, Members(released), page);
      assert ps[..|ps|] + [page] + ps[|ps|..] == ps + [page];
      root, pages, created := page, ps + [page], created + {page};
    }

    method NewRoot(size: nat) returns (page: Page)
      requires Valid() && 0 < size <= Threshold() && busySize + size > PageSize()
      modifies this, pages
      ensures Valid() && released == old(released)
      ensures fresh(page) && pages == old(pages) + [page] && page.blocks == [Block(size, true)] && page.headers == map[]
      ensures forall p | p in old(pages) :: p.blocks == old(p.blocks) && p.headers == old(p.headers)
    {
      hide Linked, InUse, Newest, Members, Distinct;
      page := new Page(PageSize());
      RootIsLast();
      ghost var ps := pages;
      CloseRoot(size);
      AppendPage(page);
      busySize := size;
      PutFirst(page, size);
      forall i | 0 < i < |pages| - 1 ensures InUse(pages[i]) {
        assert pages[i] == ps[i] != page;
      }
    }

    method NewLarge(size: nat) returns (page: Page)
      requires Valid() && size > Threshold() && |pages| > 1
      modifies this, pages
      ensures Valid() && released == old(released)
      ensures fresh(page) && pages == old(pages)[..|old(pages)| - 1] + [page] + old(pages)[|old(pages)| - 1..]
      ensures page.blocks == [Block(size, true)] && page.headers == map[]
      ensures forall p | p in old(pages) :: p.blocks == old(p.blocks) && p.headers == old(p.headers)
    {
      hide Linked, InUse, Newest, Members, Distinct;
      page := new Page(size);
      RootIsLast();
      LinkBeforeLast(pages, root, page);
      ghost var ps := pages;
      MembersInsert(ps, |ps| - 1, page);
      OneCreated(Members(ps), sentinel, Members(released), page);
      pages, created := ps[..|ps| - 1] + [page] + ps[|ps| - 1..], created + {page};
      PutFirst(page, size);
      forall i | 0 < i < |pages| - 1 ensures InUse(pages[i]) {
        assert pages[i] == if i == |ps| - 1 then page else ps[i];
      }
    }

    /** `allocate_string`; the text begins after the header, at `offset + 4`. */
    method AllocateString(length: nat, memory: bool) returns (page: Page?, offset: nat)
      requires Valid()
      requires FullSize(length) > Threshold() && busySize + FullSize(length) > PageSize() ==> |pages| > 1
      modifies this, pages
      ensures Valid() && released == old(released)
      ensures page == null <==> old(busySize) + FullSize(length) > PageSize() && !memory
      ensures page == null ==> pages == old(pages)
      ensures page != null ==> page in pages && (page in old(pages) || fresh(page)) && offset < 0x1_0000
                               && page.blocks == (if page in old(pages) then old(page.blocks) else [])
                                                 + [Block(FullSize(length), true)]
                               && page.headers.Keys == (if page in old(pages) then old(page.headers.Keys) else {}) + {offset}
                               && HeaderOf(page, offset, |page.blocks| - 1)
                               && (page in old(pages) ==> KeepsHeaders(old(page.headers), page.headers, offset))
      ensures forall p | p in old(pages) :: p in pages
                                            && (p != page ==> p.blocks == old(p.blocks) && p.headers == old(p.headers))
    {
      hide Linked, Members, InUse, Newest, HeaderOf, Offset, Distinct;
      var size := FullSize(length);
      page, offset := AllocateMemory(size, memory);
      if page != null {
        StoreHeader(page, offset, size);
      }
    }

    /** The header of a string that has just been allocated. */
    method StoreHeader(page: Page, offset: nat, size: nat)
      requires Valid() && page in pages && page.blocks != [] && offset !in page.headers
      requires offset == Offset(page.blocks, |page.blocks| - 1) && page.blocks[|page.blocks| - 1] == Block(size, true)
      requires size > PageSize() ==> page.blocks == [Block(size, true)]
      modifies page`headers
      ensures Valid() && page.headers.Keys == old(page.headers.Keys) + {offset}
      ensures HeaderOf(page, offset, |page.blocks| - 1) && KeepsHeaders(old(page.headers), page.headers, offset)
    {
      hide Linked, Members, StringsHaveHeaders, HeaderOf;
      ghost var i := PageOfBlock(page);
      SetHeader(page, offset, size);
      RootIsLast();
    }

    lemma PageOfBlock(page: Page) returns (i: nat)
      requires Valid() && page in pages && page.blocks != []
      ensures 0 < i < |pages| && pages[i] == page && (i == |pages| - 1 <==> page == root)
      ensures page != root ==> InUse(page)
      ensures page == root ==> Newest(page, busySize)
    {
      hide Linked, InUse, Newest;
      RootIsLast();
      i :| 0 <= i < |pages| && pages[i] == page;
    }

    /** `deallocate_memory` of block `k`: its page goes exactly when no live block is left in it. */
    method DeallocateMemory(offset: nat, size: nat, page: Page, ghost k: nat)
      requires Valid() && page in pages && k < |page.blocks| && page.blocks[k] == Block(size, true)
      requires offset == Offset(page.blocks, k) && offset !in page.headers
      modifies this, pages
      ensures Valid() && root == old(root)
      ensures var after := old(page.blocks)[k := Block(size, false)];
              if AnyLive(after) then page.blocks == after && pages == old(pages) && released == old(released)
              else if page == root then page.blocks == [] && pages == old(pages) && released == old(released)
              else Without(old(pages), page, pages) && released == old(released) + [page]
      ensures forall p | p in old(pages) :: p.headers == old(p.headers) && (p != page ==> p.blocks == old(p.blocks))
    {
      hide Linked, InUse, Newest, Accounts, StringsHaveHeaders, AnyLive;
      ghost var i := PageOfBlock(page);
      ghost var after := page.blocks[k := Block(size, false)];
      RootIsLast();
      if page == root {
        FreeInNewest(size, k);
      } else {
        FreeElsewhere(size, page, i, k);
      }
    }

    method FreeInNewest(size: nat, ghost k: nat)
      requires Valid() && |pages| > 1 && k < |root.blocks| && root.blocks[k] == Block(size, true)
      requires Offset(root.blocks, k) !in root.headers
      modifies this`busySize, root`busySize, root`freedSize, root`blocks
      ensures Valid()
      ensures var after := old(root.blocks)[k := Block(size, false)];
              root.blocks == if AnyLive(after) then after else []
    {
      hide Linked, InUse;
      RootIsLast();
      root.busySize := busySize;
      FreeBlock(root, size, k);
      LiveUnbalanced(root.blocks);
      assert AnyLive(root.blocks) <==> root.freedSize != root.busySize by {
        Balance(root.blocks);
      }
      if root.freedSize == root.busySize {
        HeadersAreLive(root);
        root.busySize, root.freedSize, busySize := 0, 0, 0;
        root.blocks := [];
      }
    }

    method FreeElsewhere(size: nat, page: Page, ghost i: nat, ghost k: nat)
      requires Valid() && 0 < i < |pages| - 1 && pages[i] == page && InUse(page)
      requires k < |page.blocks| && page.blocks[k] == Block(size, true) && Offset(page.blocks, k) !in page.headers
      modifies this, pages
      ensures Valid() && root == old(root)
      ensures var after := old(page.blocks)[k := Block(size, false)];
              if AnyLive(after) then page.blocks == after && pages == old(pages) && released == old(released)
              else pages == old(pages)[..i] + old(pages)[i + 1..] && released == old(released) + [page]
      ensures forall p | p in old(pages) :: p.headers == old(p.headers) && (p != page ==> p.blocks == old(p.blocks))
    {
      hide Linked, Newest, AnyLive;
      MiddlePage(i);
      FreeBlock(page, size, k);
      LiveUnbalanced(page.blocks);
      Balance(page.blocks);
      if page.freedSize == page.busySize {
        ReleasePage(page, i);
      }
    }

    /** The page is taken out of the list and handed back. */
    method ReleasePage(page: Page, ghost i: nat)
      requires Shape() && 0 < i < |pages| - 1 && pages[i] == page && sentinel.blocks == []
      requires (forall j | 0 < j < |pages| - 1 && j != i :: InUse(pages[j])) && Newest(root, busySize)
      requires (forall p | p in released :: p !in pages) && Distinct(released)
      requires created == Members(pages) - {sentinel} + Members(released)
      modifies this`pages, this`released, pages`next, pages`prev
      ensures Valid()
      ensures pages == old(pages)[..i] + old(pages)[i + 1..] && released == old(released) + [page]
    {
      hide Linked, InUse, Newest, Distinct, Members;
      ListIsDistinct();
      MembersDelete(pages, i);
      MembersInsert(released, |released|, page);
      IsMember(pages, page);
      OneReleased(Members(pages), sentinel, Members(released), page);
      assert released[..|released|] + [page] + released[|released|..] == released + [page];
      ghost var qs := pages[..i] + pages[i + 1..];
      MiddlePage(i);
      Unlink(pages, page, i);
      DistinctMore(released, page);
      forall j | 0 < j < |qs| - 1 ensures InUse(qs[j]) {
        assert qs[j] == pages[if j < i then j else j + 1];
      }
      assert forall p | p in qs :: p in pages;
      pages, released := qs, released + [page];
    }

    lemma ListIsDistinct()
      requires Shape()
      ensures Distinct(pages)
    {
    }

    lemma MiddlePage(i: nat)
      requires Shape() && 0 < i < |pages| - 1
      ensures pages[i] != sentinel && pages[i] != root && pages[i].next != null
      ensures forall j | 0 <= j < |pages| && j != i :: pages[j] != pages[i]
      ensures Distinct(pages[..i] + pages[i + 1..]) && pages[i] !in pages[..i] + pages[i + 1..]
    {
      DistinctDelete(pages, i);
    }

    /** `deallocate_string`: the size is found again from the header, or from the page. */
    method DeallocateString(page: Page, offset: nat, ghost k: nat)
      requires Valid() && page in pages && offset in page.headers && HeaderOf(page, offset, k)
      modifies this, pages
      ensures Valid() && root == old(root)
      ensures var after := old(page.blocks)[k := Block(old(page.blocks)[k].size, false)];
              if AnyLive(after) then page.blocks == after && pages == old(pages) && released == old(released)
              else if page == root then page.blocks == [] && pages == old(pages) && released == old(released)
              else Without(old(pages), page, pages) && released == old(released) + [page]
      ensures page.headers == old(page.headers) - {offset}
      ensures forall p | p in old(pages) && p != page :: p.blocks == old(p.blocks) && p.headers == old(p.headers)
    {
      hide Linked, Members;
      ghost var i := PageOfBlock(page);
      SizeFromHeader(page, offset, k, busySize);
      RootIsLast();
      var size := if page.headers[offset] == 0 then page.busySize else page.headers[offset];
      DropHeader(page, offset, k);
      DeallocateMemory(offset, size, page, k);
    }

    /** `xml_document::destroy`: every page but the sentinel is handed back. */
    method Destroy()
      requires Valid()
      modifies this`released, this`pages
      ensures released == old(released) + old(pages)[1..] && pages == [sentinel]
      ensures Distinct(released) && Members(released) == created
    {
      hide InUse, Newest, NextOf, PrevOf, Members;
      ghost var n := 1;
      Neighbours(pages, 0);
      var page := sentinel.next;
      while page != null
        invariant 1 <= n <= |pages| && page == if n < |pages| then pages[n] else null
        invariant pages == old(pages) && released == old(released) + pages[1..n]
        decreases |pages| - n
      {
        Neighbours(pages, n);
        var next := page.next;
        released := released + [page];
        page := next;
        n := n + 1;
      }
      assert pages[1..n] == pages[1..];
      AllReleased(old(released), pages, created);
      pages := [sentinel];
    }
  }

  /** What is freed is as large as what was allocated. */
  lemma SizeFromHeader(p: Page, o: nat, k: nat, busy: nat)
    requires o in p.headers && HeaderOf(p, o, k) && Positive(p.blocks)
    requires InUse(p) || Newest(p, busy)
    ensures p.blocks[k].size == if p.headers[o] == 0 then p.busySize else p.headers[o]
  {
    var bs := p.blocks;
    BlocksApart(bs, k, |bs|);
    assert bs[..|bs|] == bs;
    if bs[k].size >= 0x1_0000 {
      assert bs[..1][..0] == [];
    }
  }

  method DropHeader(p: Page, o: nat, ghost k: nat)
    requires StringsHaveHeaders(p) && o in p.headers && Positive(p.blocks) && HeaderOf(p, o, k)
    modifies p`headers
    ensures StringsHaveHeaders(p) && o !in p.headers && p.headers == old(p.headers) - {o}
  {
    p.headers := p.headers - {o};
    forall q | q in p.headers ensures exists j: nat :: HeaderOf(p, q, j) {
      var j: nat :| old(HeaderOf(p, q, j));
      assert HeaderOf(p, q, j);
    }
  }

  lemma AllReleased(released: seq<Page>, pages: seq<Page>, created: set<Page>)
    requires pages != [] && Distinct(pages) && Distinct(released) && forall p | p in released :: p !in pages
    requires created == Members(pages) - {pages[0]} + Members(released)
    ensures Distinct(released + pages[1..]) && Members(released + pages[1..]) == created
  {
    var rs := released + pages[1..];
    forall i, j | 0 <= i < j < |rs| ensures rs[i] != rs[j] {
      if i < |released| <= j {
        assert released[i] in released && rs[j] == pages[j - |released| + 1];
      }
    }
    MembersDelete(pages, 0);
    assert pages[..0] + pages[1..] == pages[1..];
  }

  /** `qs` is `ps` without `p`. */
  ghost predicate Without(ps: seq<Page>, p: Page, qs: seq<Page>)
  {
    exists i :: 0 <= i < |ps| && ps[i] == p && qs == ps[..i] + ps[i + 1..]
  }
}
