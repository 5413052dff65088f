/**
 * The memory behind the allocator, as values: block headers by address, the list of all blocks in address
 * order, the free list, the layout of headers and payloads, and the byte accounting.
 */
module HeapModel {
  import opened Seqs

  /** sizeof(metadata_t) with 8-byte pointers and size_t, and a padded int. */
  const H: nat := 56

  /** metadata_t. Addresses are numbers and 0 is NULL. */
  datatype Header = Header(next: nat, prev: nat, freenext: nat, freeprev: nat, ptr: nat, size: nat, free: bool)

  type Headers = map<nat, Header>

  /** The i-th address of a list, NULL beyond either end. */
  function At(s: seq<nat>, i: int): nat {
    if 0 <= i < |s| then s[i] else 0
  }

  // ----- the two linked lists

  /** next and prev link the blocks in the order of the list, and tail is its last. */
  ghost predicate BlockList(hdr: Headers, blocks: seq<nat>, tail: nat) {
    (forall i :: 0 <= i < |blocks| ==>
      blocks[i] in hdr && hdr[blocks[i]].prev == At(blocks, i - 1) && hdr[blocks[i]].next == At(blocks, i + 1))
    && tail == At(blocks, |blocks| - 1)
  }

  /** freenext and freeprev link the free blocks, each once, from freehead. */
  ghost predicate FreeList(hdr: Headers, frees: seq<nat>, freehead: nat) {
    (forall i :: 0 <= i < |frees| ==>
      frees[i] in hdr && frees[i] > 0
      && hdr[frees[i]].freeprev == At(frees, i - 1) && hdr[frees[i]].freenext == At(frees, i + 1))
    && freehead == At(frees, 0)
    && Distinct(frees)
  }

  // ----- the layout

  function End(hdr: Headers, b: nat): nat
    requires b in hdr
  {
    b + H + hdr[b].size
  }

  /**
   * Header, then payload, then the next block: the list is in strictly increasing address order, nothing
   * overlaps, and everything lies between base and the program break.
   */
  ghost predicate Layout(hdr: Headers, blocks: seq<nat>, base: nat, brk: nat) {
    && base > 0
    && base <= brk
    && (forall i :: 0 <= i < |blocks| ==>
          blocks[i] in hdr && hdr[blocks[i]].ptr == blocks[i] + H && base <= blocks[i] && End(hdr, blocks[i]) <= brk)
    && (forall i, j :: 0 <= i < j < |blocks| ==> End(hdr, blocks[i]) <= blocks[j])
  }

  ghost predicate NoAdjacentFree(hdr: Headers, blocks: seq<nat>) {
    forall i :: 0 <= i < |blocks| && i + 1 < |blocks| && blocks[i] in hdr && blocks[i + 1] in hdr ==>
      !(hdr[blocks[i]].free && hdr[blocks[i + 1]].free)
  }

  /** The free list holds exactly the blocks marked free. */
  ghost predicate FreeExact(hdr: Headers, blocks: seq<nat>, frees: seq<nat>) {
    (forall f :: f in frees ==> f in blocks)
    && (forall b :: b in blocks && b in hdr ==> (b in frees <==> hdr[b].free))
  }

  /** Bytes taken by headers and payloads. */
  ghost function Taken(hdr: Headers, blocks: seq<nat>): nat
    requires forall b :: b in blocks ==> b in hdr
  {
    if blocks == [] then 0 else Taken(hdr, blocks[..|blocks| - 1]) + H + hdr[blocks[|blocks| - 1]].size
  }

  lemma {:induction false} TakenConcat(hdr: Headers, a: seq<nat>, b: seq<nat>)
    requires forall x :: x in a ==> x in hdr
    requires forall x :: x in b ==> x in hdr
    ensures forall x :: x in a + b ==> x in hdr
    ensures Taken(hdr, a + b) == Taken(hdr, a) + Taken(hdr, b)
    decreases |b|
  {
    if b == [] {
      assert a + b == a;
    } else {
      assert (a + b)[..|a + b| - 1] == a + b[..|b| - 1];
      TakenConcat(hdr, a, b[..|b| - 1]);
    }
  }

  lemma {:induction false} TakenSame(h1: Headers, h2: Headers, blocks: seq<nat>)
    requires forall b :: b in blocks ==> b in h1 && b in h2 && h1[b].size == h2[b].size
    ensures Taken(h1, blocks) == Taken(h2, blocks)
    decreases |blocks|
  {
    if blocks != [] {
      TakenSame(h1, h2, blocks[..|blocks| - 1]);
    }
  }

  lemma TakenNone(hdr: Headers)
    ensures Taken(hdr, []) == 0
  {
  }

  lemma TakenAround(hdr: Headers, blocks: seq<nat>, k: nat)
    requires forall b :: b in blocks ==> b in hdr
    requires k < |blocks|
    ensures Taken(hdr, blocks) == Taken(hdr, blocks[..k]) + (H + hdr[blocks[k]].size) + Taken(hdr, blocks[k + 1..])
  {
    var a, p, c := blocks[..k], blocks[k], blocks[k + 1..];
    assert blocks == a + [p] + c;
    TakenConcat(hdr, a + [p], c);
    TakenConcat(hdr, a, [p]);
    TakenOne(hdr, p);
  }

  lemma TakenOne(hdr: Headers, b: nat)
    requires b in hdr
    ensures Taken(hdr, [b]) == H + hdr[b].size
  {
    assert [b][..0] == [];
  }

  // ----- the blocks in use

  /** Block address to payload size, for the blocks not free; the payload starts H beyond the block. */
  ghost function LiveOf(hdr: Headers, blocks: seq<nat>): map<nat, nat> {
    map b | b in blocks && b in hdr && !hdr[b].free :: hdr[b].size
  }

  /** Live payloads are disjoint from one another and from the header of every block. */
  lemma LivePayloadsDisjoint(hdr: Headers, blocks: seq<nat>, base: nat, brk: nat, p: nat, q: nat)
    requires Layout(hdr, blocks, base, brk)
    requires p in LiveOf(hdr, blocks) && q in blocks && p != q
    ensures ghost var live := LiveOf(hdr, blocks);
            base <= p && p + H + live[p] <= brk
            && (p + H + live[p] <= q || q + H <= p)
            && (q in live ==> p + H + live[p] <= q || q + H + live[q] <= p)
  {
    var i :| 0 <= i < |blocks| && blocks[i] == p;
    var j :| 0 <= j < |blocks| && blocks[j] == q;
    assert End(hdr, blocks[i]) <= brk;
    if i < j {
      assert End(hdr, blocks[i]) <= blocks[j];
    } else {
      assert End(hdr, blocks[j]) <= blocks[i];
    }
  }

  lemma BlocksDistinct(hdr: Headers, blocks: seq<nat>, base: nat, brk: nat)
    requires Layout(hdr, blocks, base, brk)
    ensures Distinct(blocks)
  {
  }

  // ----- headers that agree except in one kind of link

  /** Same headers up to the free-list links. */
  ghost predicate SameCore(h1: Headers, h2: Headers) {
    h1.Keys == h2.Keys
    && forall a :: a in h1 && a in h2 ==>
         h1[a].next == h2[a].next && h1[a].prev == h2[a].prev && h1[a].ptr == h2[a].ptr
         && h1[a].size == h2[a].size && h1[a].free == h2[a].free
  }

  lemma CoreKeepsLayout(h1: Headers, h2: Headers, blocks: seq<nat>, base: nat, brk: nat)
    requires SameCore(h1, h2) && Layout(h1, blocks, base, brk)
    ensures Layout(h2, blocks, base, brk)
  {
    assert forall i :: 0 <= i < |blocks| ==> End(h1, blocks[i]) == End(h2, blocks[i]);
  }

  lemma CoreKeepsList(h1: Headers, h2: Headers, blocks: seq<nat>, tail: nat)
    requires SameCore(h1, h2) && BlockList(h1, blocks, tail)
    ensures BlockList(h2, blocks, tail)
  {
  }

  // ----- list surgery on addresses

  function Without(s: seq<nat>, k: nat): (t: seq<nat>)
    requires k < |s|
    ensures |t| == |s| - 1
  {
    s[..k] + s[k + 1..]
  }

  lemma AtWithout(s: seq<nat>, k: nat, i: int)
    requires k < |s|
    ensures At(Without(s, k), i) == At(s, if i < k then i else i + 1)
  {
  }

  lemma AtPrepend(p: nat, s: seq<nat>, i: int)
    ensures At([p] + s, i) == if i == 0 then p else At(s, i - 1)
  {
  }

  lemma WithoutMembers(s: seq<nat>, k: nat)
    requires k < |s| && Distinct(s)
    ensures Distinct(Without(s, k))
    ensures forall x :: x in Without(s, k) <==> x in s && x != s[k]
  {
    var t := Without(s, k);
    forall x
      ensures x in t <==> x in s && x != s[k]
    {
      if x in s && x != s[k] {
        var i :| 0 <= i < |s| && s[i] == x;
        assert t[if i < k then i else i - 1] == x;
      }
      if x in t {
        var i :| 0 <= i < |t| && t[i] == x;
        assert s[if i < k then i else i + 1] == x;
      }
    }
    forall i, j | 0 <= i < j < |t|
      ensures t[i] != t[j]
    {
      assert t[i] == s[if i < k then i else i + 1] && t[j] == s[if j < k then j else j + 1];
    }
  }

  /** What the links of the k-th free block lead to. */
  lemma FreeNode(hdr: Headers, frees: seq<nat>, head: nat, k: nat)
    requires FreeList(hdr, frees, head) && k < |frees|
    ensures forall a :: a in frees ==> a in hdr && a > 0
    ensures hdr[frees[k]].freeprev == At(frees, k - 1) && hdr[frees[k]].freenext == At(frees, k + 1)
    ensures At(frees, k - 1) != 0 ==> At(frees, k - 1) in frees && At(frees, k - 1) != frees[k]
    ensures At(frees, k + 1) != 0 ==> At(frees, k + 1) in frees && At(frees, k + 1) != frees[k]
    ensures At(frees, k + 1) != 0 ==> At(frees, k - 1) != At(frees, k + 1)
    ensures frees[k] == head <==> k == 0
  {
  }

  lemma FreeMembers(hdr: Headers, frees: seq<nat>, head: nat)
    requires FreeList(hdr, frees, head)
    ensures forall a :: a in frees ==> a in hdr && a > 0
    ensures head != 0 ==> head in frees
    ensures head == 0 ==> frees == []
  {
  }

  /** The free-list links of a header. */
  function FreeLinks(h: Header): (nat, nat) {
    (h.freeprev, h.freenext)
  }

  function SetFreePrev(hdr: Headers, a: nat, v: nat): Headers
    requires a in hdr
  {
    hdr[a := hdr[a].(freeprev := v)]
  }

  function SetFreeNext(hdr: Headers, a: nat, v: nat): Headers
    requires a in hdr
  {
    hdr[a := hdr[a].(freenext := v)]
  }

  /** The header updates that take p, between before and after, out of the free list. */
  function Bypass(hdr: Headers, p: nat, before: nat, after: nat): Headers
    requires p in hdr && (before != 0 ==> before in hdr) && (after != 0 ==> after in hdr)
  {
    var h := SetFreeNext(SetFreePrev(hdr, p, 0), p, 0);
    var h := if after != 0 then SetFreePrev(h, after, before) else h;
    if before != 0 then SetFreeNext(h, before, after) else h
  }

  lemma BypassLinks(hdr: Headers, p: nat, before: nat, after: nat, a: nat)
    requires p in hdr && (before != 0 ==> before in hdr) && (after != 0 ==> after in hdr)
    requires a in hdr && a > 0 && a != p
    ensures FreeLinks(Bypass(hdr, p, before, after)[a])
         == (if a == after then before else hdr[a].freeprev, if a == before then after else hdr[a].freenext)
  {
  }

  lemma BypassCore(hdr: Headers, p: nat, before: nat, after: nat)
    requires p in hdr && (before != 0 ==> before in hdr) && (after != 0 ==> after in hdr)
    ensures SameCore(hdr, Bypass(hdr, p, before, after))
  {
  }

  /** Bypassing the k-th element in both directions, and clearing its own links, unlinks it. */
  lemma UnlinkFree(h0: Headers, h1: Headers, frees: seq<nat>, head: nat, k: nat)
    requires FreeList(h0, frees, head) && k < |frees|
    requires (At(frees, k - 1) != 0 ==> At(frees, k - 1) in h0) && (At(frees, k + 1) != 0 ==> At(frees, k + 1) in h0)
    requires h1 == Bypass(h0, frees[k], At(frees, k - 1), At(frees, k + 1))
    ensures FreeList(h1, Without(frees, k), if k == 0 then At(frees, 1) else head)
    ensures SameCore(h0, h1)
  {
    BypassCore(h0, frees[k], At(frees, k - 1), At(frees, k + 1));
    forall a | a in frees && a != frees[k]
      ensures FreeLinks(h1[a]) == (if a == At(frees, k + 1) then At(frees, k - 1) else h0[a].freeprev,
                                   if a == At(frees, k - 1) then At(frees, k + 1) else h0[a].freenext)
    {
      BypassLinks(h0, frees[k], At(frees, k - 1), At(frees, k + 1), a);
    }
    UnlinkedList(h0, h1, frees, head, k);
  }

  lemma UnlinkedList(h0: Headers, h1: Headers, frees: seq<nat>, head: nat, k: nat)
    requires FreeList(h0, frees, head) && k < |frees|
    requires h1.Keys == h0.Keys
    requires forall a :: a in frees && a != frees[k] ==>
               FreeLinks(h1[a]) == (if a == At(frees, k + 1) then At(frees, k - 1) else h0[a].freeprev,
                                    if a == At(frees, k - 1) then At(frees, k + 1) else h0[a].freenext)
    ensures FreeList(h1, Without(frees, k), if k == 0 then At(frees, 1) else head)
  {
    hide At, Without;
    var t := Without(frees, k);
    WithoutMembers(frees, k);
    AtWithout(frees, k, 0);
    forall i | 0 <= i < |t|
      ensures t[i] in h1 && t[i] > 0 && h1[t[i]].freeprev == At(t, i - 1) && h1[t[i]].freenext == At(t, i + 1)
    {
      AtWithout(frees, k, i - 1);
      AtWithout(frees, k, i);
      AtWithout(frees, k, i + 1);
      var j := if i < k then i else i + 1;
      IndexAt(t, i);
      IndexAt(frees, j);
      SameIndex(frees, j, k + 1);
      SameIndex(frees, j, k - 1);
      SameIndex(frees, j, k);
    }
  }

  lemma IndexAt(s: seq<nat>, i: int)
    requires 0 <= i < |s|
    ensures At(s, i) == s[i] && s[i] in s
  {
  }

  /** In a list of distinct addresses, equal (non-null) addresses have equal indices. */
  lemma SameIndex(s: seq<nat>, i: nat, j: int)
    requires Distinct(s) && i < |s| && s[i] > 0
    ensures s[i] == At(s, j) <==> i == j
  {
  }

  /** The header updates that put p in front of the free list. */
  function Linked(hdr: Headers, p: nat, head: nat): Headers
    requires p in hdr && (head != 0 ==> head in hdr)
  {
    var h := SetFreeNext(SetFreePrev(hdr, p, 0), p, head);
    if head != 0 then SetFreePrev(h, head, p) else h
  }

  lemma LinkedLinks(hdr: Headers, p: nat, head: nat, a: nat)
    requires p in hdr && (head != 0 ==> head in hdr) && p != head && a in hdr && a > 0
    ensures FreeLinks(Linked(hdr, p, head)[a])
         == if a == p then (0, head) else (if a == head then p else hdr[a].freeprev, hdr[a].freenext)
  {
  }

  lemma LinkedCore(hdr: Headers, p: nat, head: nat)
    requires p in hdr && (head != 0 ==> head in hdr)
    ensures SameCore(hdr, Linked(hdr, p, head))
  {
  }

  /** Putting p in front: p points to the old head, which points back. */
  lemma LinkFree(hdr: Headers, frees: seq<nat>, head: nat, p: nat)
    requires FreeList(hdr, frees, head) && p > 0 && p in hdr && p !in frees && (head != 0 ==> head in hdr)
    ensures FreeList(Linked(hdr, p, head), [p] + frees, p)
    ensures SameCore(hdr, Linked(hdr, p, head))
  {
    var h1 := Linked(hdr, p, head);
    LinkedCore(hdr, p, head);
    assert p != head;
    forall a | a in frees || a == p
      ensures FreeLinks(h1[a]) == if a == p then (0, head) else (if a == head then p else hdr[a].freeprev, hdr[a].freenext)
    {
      LinkedLinks(hdr, p, head, a);
    }
    LinkedList(hdr, h1, frees, head, p);
  }

  lemma LinkedList(h0: Headers, h1: Headers, frees: seq<nat>, head: nat, p: nat)
    requires FreeList(h0, frees, head) && p > 0 && p !in frees
    requires h1.Keys == h0.Keys && p in h1 && FreeLinks(h1[p]) == (0, head)
    requires forall a :: a in frees ==> FreeLinks(h1[a]) == (if a == head then p else h0[a].freeprev, h0[a].freenext)
    ensures FreeList(h1, [p] + frees, p)
  {
    var t := [p] + frees;
    forall i | 0 <= i < |t|
      ensures t[i] in h1 && t[i] > 0 && h1[t[i]].freeprev == At(t, i - 1) && h1[t[i]].freenext == At(t, i + 1)
    {
      AtPrepend(p, frees, i - 1);
      AtPrepend(p, frees, i + 1);
      if i > 0 {
        assert t[i] == frees[i - 1] && frees[i - 1] in frees;
        assert frees[i - 1] == frees[0] <==> i == 1;
      }
    }
  }

  // ----- block surgery

  function SetNext(hdr: Headers, a: nat, v: nat): Headers
    requires a in hdr
  {
    hdr[a := hdr[a].(next := v)]
  }

  function SetPrev(hdr: Headers, a: nat, v: nat): Headers
    requires a in hdr
  {
    hdr[a := hdr[a].(prev := v)]
  }

  function SetSize(hdr: Headers, a: nat, v: nat): Headers
    requires a in hdr
  {
    hdr[a := hdr[a].(size := v)]
  }

  function SetFlag(hdr: Headers, a: nat, v: bool): Headers
    requires a in hdr
  {
    hdr[a := hdr[a].(free := v)]
  }

  /** The free list depends on the free links of its members only. */
  lemma FreeListFrame(h0: Headers, h1: Headers, frees: seq<nat>, head: nat)
    requires FreeList(h0, frees, head)
    requires forall f :: f in frees ==> f in h0 && f in h1 && FreeLinks(h1[f]) == FreeLinks(h0[f])
    ensures FreeList(h1, frees, head)
  {
  }

  lemma LayoutMember(hdr: Headers, blocks: seq<nat>, base: nat, brk: nat, k: nat)
    requires Layout(hdr, blocks, base, brk) && k < |blocks|
    ensures base > 0 && forall b :: b in blocks ==> b in hdr && b > 0
    ensures hdr[blocks[k]].ptr == blocks[k] + H && base <= blocks[k] && End(hdr, blocks[k]) <= brk
  {
  }

  lemma LayoutPair(hdr: Headers, blocks: seq<nat>, base: nat, brk: nat, i: nat, j: nat)
    requires Layout(hdr, blocks, base, brk) && i < j < |blocks|
    ensures blocks[i] in hdr && End(hdr, blocks[i]) <= blocks[j]
  {
  }

  /** What the links of the k-th block lead to. */
  lemma BlockNode(hdr: Headers, blocks: seq<nat>, tail: nat, base: nat, brk: nat, k: nat)
    requires BlockList(hdr, blocks, tail) && Layout(hdr, blocks, base, brk) && k < |blocks|
    ensures forall b :: b in blocks ==> b in hdr && b > 0
    ensures hdr[blocks[k]].prev == At(blocks, k - 1) && hdr[blocks[k]].next == At(blocks, k + 1)
    ensures k > 0 ==> At(blocks, k - 1) in blocks && At(blocks, k - 1) < blocks[k]
    ensures k + 1 < |blocks| ==> At(blocks, k + 1) in blocks && End(hdr, blocks[k]) <= At(blocks, k + 1)
    ensures At(blocks, k - 1) == 0 <==> k == 0
    ensures At(blocks, k + 1) == 0 <==> k + 1 == |blocks|
    ensures tail == blocks[|blocks| - 1]
    ensures hdr[blocks[k]].ptr == blocks[k] + H && End(hdr, blocks[k]) <= brk
  {
    LayoutMember(hdr, blocks, base, brk, k);
    if k > 0 {
      LayoutPair(hdr, blocks, base, brk, k - 1, k);
    }
    if k + 1 < |blocks| {
      LayoutPair(hdr, blocks, base, brk, k, k + 1);
    }
  }

  /** Block l absorbs its right neighbour r: r is bypassed and its bytes are added to l. */
  ghost predicate Merged(h0: Headers, h1: Headers, l: nat, r: nat) {
    l in h0 && r in h0 && h1.Keys == h0.Keys
    && forall a :: a in h0 && a in h1 && a != r ==>
         h1[a].next == (if a == l then h0[r].next else h0[a].next)
         && h1[a].prev == (if a == h0[r].next then l else h0[a].prev)
         && h1[a].size == (if a == l then h0[l].size + h0[r].size + H else h0[a].size)
         && h1[a].ptr == h0[a].ptr && h1[a].free == h0[a].free
  }

  lemma MergedList(h0: Headers, h1: Headers, blocks: seq<nat>, tail: nat, base: nat, brk: nat, k: nat)
    requires BlockList(h0, blocks, tail) && Layout(h0, blocks, base, brk) && k + 1 < |blocks|
    requires Merged(h0, h1, blocks[k], blocks[k + 1])
    ensures BlockList(h1, Without(blocks, k + 1), if At(blocks, k + 2) == 0 then blocks[k] else tail)
  {
    hide At, Without, Merged;
    var t := Without(blocks, k + 1);
    forall i | 0 <= i < |t|
      ensures t[i] in h1 && h1[t[i]].prev == At(t, i - 1) && h1[t[i]].next == At(t, i + 1)
    {
      MergedNode(h0, h1, blocks, tail, base, brk, k, i);
    }
    MergedTail(h0, blocks, tail, base, brk, k);
  }

  lemma MergedTail(h0: Headers, blocks: seq<nat>, tail: nat, base: nat, brk: nat, k: nat)
    requires BlockList(h0, blocks, tail) && Layout(h0, blocks, base, brk) && k + 1 < |blocks|
    ensures At(Without(blocks, k + 1), |blocks| - 2) == if At(blocks, k + 2) == 0 then blocks[k] else tail
  {
    hide At, Without, Layout, BlockList;
    AtWithout(blocks, k + 1, |blocks| - 2);
    BlockNode(h0, blocks, tail, base, brk, k + 1);
    IndexAt(blocks, |blocks| - 1);
    IndexAt(blocks, k);
  }

  lemma MergedNode(h0: Headers, h1: Headers, blocks: seq<nat>, tail: nat, base: nat, brk: nat, k: nat, i: nat)
    requires BlockList(h0, blocks, tail) && Layout(h0, blocks, base, brk) && k + 1 < |blocks| && i < |blocks| - 1
    requires Merged(h0, h1, blocks[k], blocks[k + 1])
    ensures ghost var t := Without(blocks, k + 1);
            t[i] in h1 && h1[t[i]].prev == At(t, i - 1) && h1[t[i]].next == At(t, i + 1)
  {
    hide At, Without, Layout, BlockList, Distinct;
    var t := Without(blocks, k + 1);
    var j := if i < k + 1 then i else i + 1;
    AtWithout(blocks, k + 1, i - 1);
    AtWithout(blocks, k + 1, i);
    AtWithout(blocks, k + 1, i + 1);
    IndexAt(t, i);
    IndexAt(blocks, j);
    BlockNode(h0, blocks, tail, base, brk, j);
    BlockNode(h0, blocks, tail, base, brk, k);
    BlockNode(h0, blocks, tail, base, brk, k + 1);
    BlocksDistinct(h0, blocks, base, brk);
    SameIndex(blocks, j, k);
    SameIndex(blocks, j, k + 1);
    SameIndex(blocks, j, k + 2);
    IndexAt(blocks, k);
    IndexAt(blocks, k + 1);
  }

  lemma MergedLayout(h0: Headers, h1: Headers, blocks: seq<nat>, base: nat, brk: nat, k: nat)
    requires Layout(h0, blocks, base, brk) && k + 1 < |blocks|
    requires Merged(h0, h1, blocks[k], blocks[k + 1])
    ensures Layout(h1, Without(blocks, k + 1), base, brk)
  {
    var t := Without(blocks, k + 1);
    forall i | 0 <= i < |t|
      ensures t[i] in h1 && h1[t[i]].ptr == t[i] + H && base <= t[i] && End(h1, t[i]) <= brk
    {
      MergedEnd(h0, h1, blocks, base, brk, k, i);
    }
    forall i, j | 0 <= i < j < |t|
      ensures End(h1, t[i]) <= t[j]
    {
      hide Layout;
      MergedEnd(h0, h1, blocks, base, brk, k, i);
      LayoutPair(h0, blocks, base, brk, if i < k then i else i + 1, if j <= k then j else j + 1);
    }
  }

  lemma MergedEnd(h0: Headers, h1: Headers, blocks: seq<nat>, base: nat, brk: nat, k: nat, i: nat)
    requires Layout(h0, blocks, base, brk) && k + 1 < |blocks| && i < |blocks| - 1
    requires Merged(h0, h1, blocks[k], blocks[k + 1])
    ensures ghost var b := Without(blocks, k + 1)[i];
            b in h1 && h1[b].ptr == b + H && base <= b && b == blocks[if i <= k then i else i + 1]
            && blocks[if i < k then i else i + 1] in h0
            && End(h1, b) <= End(h0, blocks[if i < k then i else i + 1]) <= brk
  {
    assert blocks[k] < blocks[k + 1];
    if i < k {
      assert blocks[i] < blocks[k];
    } else if i > k {
      assert blocks[k + 1] < blocks[i + 1];
    }
  }

  lemma MergedMembers(h0: Headers, h1: Headers, blocks: seq<nat>, base: nat, brk: nat, k: nat)
    requires Layout(h0, blocks, base, brk) && k + 1 < |blocks|
    requires Merged(h0, h1, blocks[k], blocks[k + 1])
    ensures ghost var t := Without(blocks, k + 1);
            t[..k] == blocks[..k] && t[k] == blocks[k] && t[k + 1..] == blocks[k + 2..]
    ensures forall b :: b in Without(blocks, k + 1) <==> b in blocks && b != blocks[k + 1]
    ensures forall b :: b in blocks ==> b in h0 && b in h1
    ensures h1[blocks[k]].size == h0[blocks[k]].size + h0[blocks[k + 1]].size + H
    ensures forall b :: b in blocks && b != blocks[k] && b != blocks[k + 1] ==> h1[b].size == h0[b].size && h1[b].free == h0[b].free
    ensures forall b :: b in blocks[..k] || b in blocks[k + 2..] ==> b in blocks && b != blocks[k] && b != blocks[k + 1]
  {
    BlocksDistinct(h0, blocks, base, brk);
    WithoutMembers(blocks, k + 1);
  }

  lemma MergedTaken(h0: Headers, h1: Headers, blocks: seq<nat>, base: nat, brk: nat, k: nat)
    requires Layout(h0, blocks, base, brk) && k + 1 < |blocks|
    requires Merged(h0, h1, blocks[k], blocks[k + 1])
    ensures forall b :: b in Without(blocks, k + 1) ==> b in h1
    ensures Taken(h1, Without(blocks, k + 1)) == Taken(h0, blocks)
  {
    hide Layout, Merged, Taken, Without;
    LayoutMember(h0, blocks, base, brk, k);
    MergedMembers(h0, h1, blocks, base, brk, k);
    var t := Without(blocks, k + 1);
    var a, c := blocks[..k], blocks[k + 2..];
    TakenAround(h0, blocks, k);
    assert blocks[k + 1..] == [blocks[k + 1]] + c;
    TakenAround(h0, [blocks[k + 1]] + c, 0);
    assert ([blocks[k + 1]] + c)[..0] == [] && ([blocks[k + 1]] + c)[1..] == c;
    TakenNone(h0);
    TakenAround(h1, t, k);
    TakenSame(h0, h1, a);
    TakenSame(h0, h1, c);
  }

  /** No two free neighbours among the pairs that do not involve x. */
  ghost predicate ApartFrom(hdr: Headers, blocks: seq<nat>, x: nat) {
    forall i :: 0 <= i < |blocks| && i + 1 < |blocks| && blocks[i] != x && blocks[i + 1] != x
                && blocks[i] in hdr && blocks[i + 1] in hdr ==>
      !(hdr[blocks[i]].free && hdr[blocks[i + 1]].free)
  }

  lemma MergedApart(h0: Headers, h1: Headers, blocks: seq<nat>, k: nat, x: nat)
    requires k + 1 < |blocks| && Distinct(blocks)
    requires forall i :: 0 <= i < |blocks| ==> blocks[i] in h0
    requires Merged(h0, h1, blocks[k], blocks[k + 1])
    requires ApartFrom(h0, blocks, x) && (x == blocks[k] || x == blocks[k + 1])
    ensures ApartFrom(h1, Without(blocks, k + 1), blocks[k])
  {
    var t := Without(blocks, k + 1);
    forall i | 0 <= i < |t| && i + 1 < |t| && t[i] != blocks[k] && t[i + 1] != blocks[k] && t[i] in h1 && t[i + 1] in h1
      ensures !(h1[t[i]].free && h1[t[i + 1]].free)
    {
      var j := if i <= k then i else i + 1;
      assert t[i] == blocks[j] && t[i + 1] == blocks[j + 1];
    }
  }

  lemma ApartEverywhere(hdr: Headers, blocks: seq<nat>, k: nat)
    requires k < |blocks| && forall i :: 0 <= i < |blocks| ==> blocks[i] in hdr
    requires Distinct(blocks) && ApartFrom(hdr, blocks, blocks[k])
    requires k > 0 ==> !(hdr[blocks[k - 1]].free && hdr[blocks[k]].free)
    requires k + 1 < |blocks| ==> !(hdr[blocks[k]].free && hdr[blocks[k + 1]].free)
    ensures NoAdjacentFree(hdr, blocks)
  {
    forall i | 0 <= i < |blocks| && i + 1 < |blocks|
      ensures !(hdr[blocks[i]].free && hdr[blocks[i + 1]].free)
    {
      if i != k && i + 1 != k {
        assert blocks[i] != blocks[k] && blocks[i + 1] != blocks[k];
      }
    }
  }

  // ----- splitting a block, and reusing one without splitting

  function Inserted(s: seq<nat>, k: nat, n: nat): (t: seq<nat>)
    requires k <= |s|
    ensures |t| == |s| + 1
  {
    s[..k] + [n] + s[k..]
  }

  lemma AtInserted(s: seq<nat>, k: nat, n: nat, i: int)
    requires k <= |s|
    ensures At(Inserted(s, k, n), i) == if i < k then At(s, i) else if i == k then n else At(s, i - 1)
  {
  }

  /** Block p keeps sz bytes for use; a new free block n takes the rest, to its right. */
  ghost predicate SplitInto(h0: Headers, h1: Headers, p: nat, n: nat, sz: nat) {
    p in h0 && p in h1 && n in h1 && n == p + H + sz && h0[p].size > sz + 3 * H
    && h1[n] == Header(h0[p].next, p, h1[n].freenext, h1[n].freeprev, n + H, h0[p].size - sz - H, true)
    && forall a :: a in h0 && a != n ==>
         (a in h1
          && h1[a].next == (if a == p then n else h0[a].next)
          && h1[a].prev == (if a == h0[p].next then n else h0[a].prev)
          && h1[a].size == (if a == p then sz else h0[a].size)
          && h1[a].ptr == h0[a].ptr && h1[a].free == (h0[a].free && a != p))
  }

  lemma SplitFresh(h0: Headers, blocks: seq<nat>, base: nat, brk: nat, k: nat, n: nat, sz: nat)
    requires Layout(h0, blocks, base, brk) && k < |blocks| && n == blocks[k] + H + sz && h0[blocks[k]].size > sz + 3 * H
    ensures n !in blocks
  {
    forall j | 0 <= j < |blocks|
      ensures blocks[j] != n
    {
      if j < k {
        LayoutPair(h0, blocks, base, brk, j, k);
      } else if k < j {
        LayoutPair(h0, blocks, base, brk, k, j);
      }
    }
  }

  lemma SplitNode(h0: Headers, h1: Headers, blocks: seq<nat>, tail: nat, base: nat, brk: nat, k: nat, n: nat, sz: nat, i: nat)
    requires BlockList(h0, blocks, tail) && Layout(h0, blocks, base, brk) && k < |blocks| && i < |blocks| + 1
    requires SplitInto(h0, h1, blocks[k], n, sz)
    ensures ghost var t := Inserted(blocks, k + 1, n);
            t[i] in h1 && h1[t[i]].prev == At(t, i - 1) && h1[t[i]].next == At(t, i + 1)
  {
    hide At, Inserted, Layout, BlockList, Distinct;
    var t := Inserted(blocks, k + 1, n);
    AtInserted(blocks, k + 1, n, i - 1);
    AtInserted(blocks, k + 1, n, i);
    AtInserted(blocks, k + 1, n, i + 1);
    IndexAt(t, i);
    BlockNode(h0, blocks, tail, base, brk, k);
    BlocksDistinct(h0, blocks, base, brk);
    SplitFresh(h0, blocks, base, brk, k, n, sz);
    IndexAt(blocks, k);
    if i != k + 1 {
      var j := if i < k + 1 then i else i - 1;
      IndexAt(blocks, j);
      BlockNode(h0, blocks, tail, base, brk, j);
      SameIndex(blocks, j, k);
      SameIndex(blocks, j, k + 1);
    }
  }

  lemma SplitList(h0: Headers, h1: Headers, blocks: seq<nat>, tail: nat, base: nat, brk: nat, k: nat, n: nat, sz: nat)
    requires BlockList(h0, blocks, tail) && Layout(h0, blocks, base, brk) && k < |blocks|
    requires SplitInto(h0, h1, blocks[k], n, sz)
    ensures BlockList(h1, Inserted(blocks, k + 1, n), if h0[blocks[k]].next == 0 then n else tail)
  {
    hide At, Inserted, SplitInto;
    var t := Inserted(blocks, k + 1, n);
    forall i | 0 <= i < |t|
      ensures t[i] in h1 && h1[t[i]].prev == At(t, i - 1) && h1[t[i]].next == At(t, i + 1)
    {
      SplitNode(h0, h1, blocks, tail, base, brk, k, n, sz, i);
    }
    SplitTail(h0, blocks, tail, base, brk, k, n);
  }

  lemma SplitTail(h0: Headers, blocks: seq<nat>, tail: nat, base: nat, brk: nat, k: nat, n: nat)
    requires BlockList(h0, blocks, tail) && Layout(h0, blocks, base, brk) && k < |blocks|
    ensures At(Inserted(blocks, k + 1, n), |blocks|) == if h0[blocks[k]].next == 0 then n else tail
  {
    hide Layout, BlockList, Inserted;
    BlockNode(h0, blocks, tail, base, brk, k);
    hide At;
    AtInserted(blocks, k + 1, n, |blocks|);
    IndexAt(blocks, |blocks| - 1);
  }

  lemma SplitEnd(h0: Headers, h1: Headers, blocks: seq<nat>, base: nat, brk: nat, k: nat, n: nat, sz: nat, i: nat)
    requires Layout(h0, blocks, base, brk) && k < |blocks| && i < |blocks| + 1
    requires SplitInto(h0, h1, blocks[k], n, sz)
    ensures ghost var b := Inserted(blocks, k + 1, n)[i]; ghost var j := if i <= k then i else i - 1;
            b in h1 && h1[b].ptr == b + H && base <= b && blocks[j] in h0
            && blocks[j] <= b && End(h1, b) <= End(h0, blocks[j]) <= brk
            && (i == k ==> End(h1, b) == n) && (i == k + 1 ==> b == n)
  {
    var j := if i <= k then i else i - 1;
    SplitFresh(h0, blocks, base, brk, k, n, sz);
    if i < k {
      LayoutPair(h0, blocks, base, brk, i, k);
    } else if i > k + 1 {
      LayoutPair(h0, blocks, base, brk, k, j);
    }
    assert blocks[j] in blocks;
  }

  lemma SplitLayout(h0: Headers, h1: Headers, blocks: seq<nat>, base: nat, brk: nat, k: nat, n: nat, sz: nat)
    requires Layout(h0, blocks, base, brk) && k < |blocks|
    requires SplitInto(h0, h1, blocks[k], n, sz)
    ensures Layout(h1, Inserted(blocks, k + 1, n), base, brk)
  {
    hide SplitInto, Inserted;
    var t := Inserted(blocks, k + 1, n);
    forall i | 0 <= i < |t|
      ensures t[i] in h1 && h1[t[i]].ptr == t[i] + H && base <= t[i] && End(h1, t[i]) <= brk
    {
      SplitEnd(h0, h1, blocks, base, brk, k, n, sz, i);
    }
    forall i, j | 0 <= i < j < |t|
      ensures End(h1, t[i]) <= t[j]
    {
      SplitEnd(h0, h1, blocks, base, brk, k, n, sz, i);
      SplitEnd(h0, h1, blocks, base, brk, k, n, sz, j);
      if !(i == k && j == k + 1) {
        LayoutPair(h0, blocks, base, brk, if i <= k then i else i - 1, if j <= k then j else j - 1);
      }
    }
  }

  lemma SplitMembers(h0: Headers, h1: Headers, blocks: seq<nat>, base: nat, brk: nat, k: nat, n: nat, sz: nat)
    requires Layout(h0, blocks, base, brk) && k < |blocks|
    requires SplitInto(h0, h1, blocks[k], n, sz)
    ensures forall b :: b in Inserted(blocks, k + 1, n) <==> b == n || b in blocks
    ensures n in h1 && forall b :: b in blocks ==> b in h1 && b in h0
    ensures h1[n].size == h0[blocks[k]].size - sz - H && h1[blocks[k]].size == sz
    ensures forall b :: b in blocks && b != blocks[k] ==> h1[b].size == h0[b].size
    ensures forall b :: b in blocks[..k] || b in blocks[k + 1..] ==> b in blocks && b != blocks[k]
  {
    BlocksDistinct(h0, blocks, base, brk);
    SplitFresh(h0, blocks, base, brk, k, n, sz);
    var t := Inserted(blocks, k + 1, n);
    forall b | b in blocks
      ensures b in t
    {
      var i :| 0 <= i < |blocks| && blocks[i] == b;
      assert t[if i <= k then i else i + 1] == b;
    }
    assert t[k + 1] == n;
  }

  lemma SplitTaken(h0: Headers, h1: Headers, blocks: seq<nat>, base: nat, brk: nat, k: nat, n: nat, sz: nat)
    requires Layout(h0, blocks, base, brk) && k < |blocks|
    requires SplitInto(h0, h1, blocks[k], n, sz)
    ensures forall b :: b in Inserted(blocks, k + 1, n) ==> b in h1
    ensures Taken(h1, Inserted(blocks, k + 1, n)) == Taken(h0, blocks)
  {
    hide Layout, SplitInto, Taken;
    LayoutMember(h0, blocks, base, brk, k);
    SplitMembers(h0, h1, blocks, base, brk, k, n, sz);
    var t := Inserted(blocks, k + 1, n);
    var a, c := blocks[..k], blocks[k + 1..];
    TakenAround(h0, blocks, k);
    TakenAround(h1, t, k);
    assert t[..k] == a && t[k] == blocks[k] && t[k + 1..] == [n] + c;
    TakenAround(h1, [n] + c, 0);
    assert ([n] + c)[..0] == [] && ([n] + c)[1..] == c;
    TakenSame(h0, h1, a);
    TakenSame(h0, h1, c);
    TakenNone(h1);
  }

  lemma SplitApart(h0: Headers, h1: Headers, blocks: seq<nat>, base: nat, brk: nat, k: nat, n: nat, sz: nat)
    requires Layout(h0, blocks, base, brk) && k < |blocks|
    requires SplitInto(h0, h1, blocks[k], n, sz)
    requires NoAdjacentFree(h0, blocks) && h0[blocks[k]].free
    ensures NoAdjacentFree(h1, Inserted(blocks, k + 1, n))
  {
    var t := Inserted(blocks, k + 1, n);
    BlocksDistinct(h0, blocks, base, brk);
    SplitFresh(h0, blocks, base, brk, k, n, sz);
    forall i | 0 <= i < |t| && i + 1 < |t| && t[i] in h1 && t[i + 1] in h1
      ensures !(h1[t[i]].free && h1[t[i + 1]].free)
    {
      if i < k {
        assert t[i] == blocks[i] && t[i + 1] == blocks[i + 1];
      } else if i == k + 1 {
        assert t[i + 1] == blocks[k + 1];
      } else if i > k + 1 {
        assert t[i] == blocks[i - 1] && t[i + 1] == blocks[i];
      }
    }
  }

  /** Block p is shrunk to sz bytes and taken into use; the bytes beyond are accounted for no more. */
  ghost predicate Shrunk(h0: Headers, h1: Headers, p: nat, sz: nat) {
    p in h0 && sz <= h0[p].size && h1 == h0[p := h0[p].(size := sz, free := false)]
  }

  lemma ShrunkLayout(h0: Headers, h1: Headers, blocks: seq<nat>, base: nat, brk: nat, p: nat, sz: nat)
    requires Layout(h0, blocks, base, brk) && Shrunk(h0, h1, p, sz)
    ensures Layout(h1, blocks, base, brk)
  {
    forall i | 0 <= i < |blocks|
      ensures blocks[i] in h1 && h1[blocks[i]].ptr == blocks[i] + H && base <= blocks[i]
      ensures End(h1, blocks[i]) <= End(h0, blocks[i]) <= brk
    {
    }
  }

  lemma ShrunkList(h0: Headers, h1: Headers, blocks: seq<nat>, tail: nat, p: nat, sz: nat)
    requires BlockList(h0, blocks, tail) && NoAdjacentFree(h0, blocks) && Shrunk(h0, h1, p, sz)
    ensures BlockList(h1, blocks, tail) && NoAdjacentFree(h1, blocks)
  {
  }

  lemma ShrunkTaken(h0: Headers, h1: Headers, blocks: seq<nat>, base: nat, brk: nat, k: nat, sz: nat)
    requires Layout(h0, blocks, base, brk) && k < |blocks|
    requires Shrunk(h0, h1, blocks[k], sz)
    ensures forall b :: b in blocks ==> b in h1
    ensures Taken(h1, blocks) == Taken(h0, blocks) - (h0[blocks[k]].size - sz)
  {
    BlocksDistinct(h0, blocks, base, brk);
    TakenAround(h0, blocks, k);
    TakenAround(h1, blocks, k);
    TakenSame(h0, h1, blocks[..k]);
    TakenSame(h0, h1, blocks[k + 1..]);
  }

  // ----- a new block at the break

  ghost predicate Appended(h0: Headers, h1: Headers, tail: nat, n: nat, sz: nat) {
    n in h1 && h1[n] == Header(0, tail, 0, 0, n + H, sz, false)
    && forall a :: a in h0 && a != n ==> a in h1 && h1[a] == (if a == tail then h0[a].(next := n) else h0[a])
  }

  lemma AppendedNode(h0: Headers, h1: Headers, blocks: seq<nat>, tail: nat, base: nat, brk: nat, sz: nat, i: nat)
    requires BlockList(h0, blocks, tail) && Layout(h0, blocks, base, brk) && i <= |blocks|
    requires Appended(h0, h1, tail, brk, sz)
    ensures ghost var t := blocks + [brk];
            t[i] in h1 && h1[t[i]].prev == At(t, i - 1) && h1[t[i]].next == At(t, i + 1)
            && h1[t[i]].ptr == t[i] + H && base <= t[i] && End(h1, t[i]) <= (if i < |blocks| then brk else brk + H + sz)
            && (i < |blocks| ==> t[i] == blocks[i] < brk && End(h1, t[i]) == End(h0, t[i]))
  {
    hide At, Layout, BlockList, Distinct;
    AtAppended(blocks, brk, i - 1);
    AtAppended(blocks, brk, i + 1);
    if |blocks| > 0 {
      BlockNode(h0, blocks, tail, base, brk, |blocks| - 1);
      IndexAt(blocks, |blocks| - 1);
    }
    if i < |blocks| {
      BlockNode(h0, blocks, tail, base, brk, i);
      LayoutMember(h0, blocks, base, brk, i);
      BlocksDistinct(h0, blocks, base, brk);
      IndexAt(blocks, i);
      SameIndex(blocks, i, |blocks| - 1);
    } else {
      EmptyTail(h0, blocks, tail, base, brk);
    }
  }

  lemma EmptyTail(hdr: Headers, blocks: seq<nat>, tail: nat, base: nat, brk: nat)
    requires BlockList(hdr, blocks, tail) && Layout(hdr, blocks, base, brk)
    ensures base <= brk && tail == At(blocks, |blocks| - 1) && At(blocks, |blocks| + 1) == 0
  {
  }

  lemma AtAppended(s: seq<nat>, n: nat, i: int)
    ensures At(s + [n], i) == if i == |s| then n else At(s, i)
  {
  }

  lemma AppendedBlocks(h0: Headers, h1: Headers, blocks: seq<nat>, tail: nat, base: nat, brk: nat, sz: nat)
    requires BlockList(h0, blocks, tail) && Layout(h0, blocks, base, brk)
    requires Appended(h0, h1, tail, brk, sz)
    ensures brk !in blocks
    ensures BlockList(h1, blocks + [brk], brk)
    ensures Layout(h1, blocks + [brk], base, brk + H + sz)
  {
    var t := blocks + [brk];
    forall i | 0 <= i < |t|
      ensures t[i] in h1 && h1[t[i]].prev == At(t, i - 1) && h1[t[i]].next == At(t, i + 1)
      ensures h1[t[i]].ptr == t[i] + H && base <= t[i] && End(h1, t[i]) <= if i < |blocks| then brk else brk + H + sz
      ensures i < |blocks| ==> t[i] == blocks[i] < brk && End(h1, t[i]) == End(h0, t[i])
    {
      AppendedNode(h0, h1, blocks, tail, base, brk, sz, i);
    }
  }

  lemma AppendedTaken(h0: Headers, h1: Headers, blocks: seq<nat>, tail: nat, base: nat, brk: nat, sz: nat)
    requires Layout(h0, blocks, base, brk) && Appended(h0, h1, tail, brk, sz)
    ensures forall b :: b in blocks + [brk] ==> b in h1
    ensures Taken(h1, blocks + [brk]) == Taken(h0, blocks) + H + sz
    ensures NoAdjacentFree(h0, blocks) ==> NoAdjacentFree(h1, blocks + [brk])
  {
    assert forall i :: 0 <= i < |blocks| ==> End(h0, blocks[i]) <= brk;
    TakenConcat(h1, blocks, [brk]);
    TakenOne(h1, brk);
    TakenSame(h0, h1, blocks);
  }

  // ----- the header updates of each operation, as values

  /** split: a header at n for the upper part of p, linked between p and its right neighbour. */
  function Carve(hdr: Headers, p: nat, n: nat, sz: nat): Headers
    requires p in hdr && (hdr[p].next != 0 ==> hdr[p].next in hdr) && hdr[p].size >= sz + H
  {
    var tmp := hdr[p].next;
    var h := hdr[n := Header(tmp, p, 0, 0, n + H, hdr[p].size - sz - H, true)];
    var h := if tmp != 0 then SetPrev(h, tmp, n) else h;
    SetNext(h, p, n)
  }

  lemma CarveSplits(h0: Headers, h1: Headers, p: nat, n: nat, sz: nat)
    requires p in h0 && (h0[p].next != 0 ==> h0[p].next in h0) && h0[p].size > sz + 3 * H
    requires n == p + H + sz && h0[p].next != p && n != h0[p].next && n > 0
    requires SameCore(Carve(h0, p, n, sz), h1) && 0 !in h0
    ensures p in h1 && SplitInto(h0, h1[p := h1[p].(size := sz, free := false)], p, n, sz)
  {
  }

  /** Bypassing r to the right of l, as free and realloc write it; the size of l is set before. */
  function Bridge(hdr: Headers, l: nat, r: nat): Headers
    requires l in hdr && r in hdr && (hdr[r].next != 0 ==> hdr[r].next in hdr)
  {
    var n := hdr[r].next;
    var h := SetNext(hdr, l, n);
    if n != 0 then SetPrev(h, n, l) else h
  }

  function ClearLinks(hdr: Headers, a: nat): Headers
    requires a in hdr
  {
    SetPrev(SetNext(hdr, a, 0), a, 0)
  }

  /** Absorbing the right neighbour: the size first, then the free list (any links), then the bridge. */
  lemma BridgeMerges(h0: Headers, h: Headers, l: nat, r: nat)
    requires l in h0 && r in h0 && l != r && h0[r].next != l && h0[r].next != r && 0 !in h0
    requires h0[r].next != 0 ==> h0[r].next in h0
    requires SameCore(SetSize(h0, l, h0[l].size + h0[r].size + H), h)
    ensures h.Keys == h0.Keys && h[r].next == h0[r].next
    ensures Merged(h0, ClearLinks(Bridge(h, l, r), r), l, r)
    ensures forall a :: a in h0 ==> FreeLinks(ClearLinks(Bridge(h, l, r), r)[a]) == FreeLinks(h[a])
  {
  }

  /** The same merge, seen from the right block: the free list first, the size after the bridge. */
  lemma BridgeMergesLeft(h0: Headers, h: Headers, l: nat, r: nat)
    requires l in h0 && r in h0 && l != r && h0[r].next != l && h0[r].next != r && 0 !in h0
    requires h0[r].next != 0 ==> h0[r].next in h0
    requires SameCore(h0, h)
    ensures h.Keys == h0.Keys && h[r].next == h0[r].next
    ensures ghost var h1 := Bridge(h, l, r); ghost var h2 := ClearLinks(SetSize(h1, l, h1[l].size + h1[r].size + H), r);
            Merged(h0, h2, l, r) && forall a :: a in h0 ==> FreeLinks(h2[a]) == FreeLinks(h[a])
  {
  }

  /** Between the free-list update and the end of a call, every block but x is listed exactly when free. */
  ghost predicate FreeExactBut(hdr: Headers, blocks: seq<nat>, frees: seq<nat>, x: nat) {
    (forall f :: f in frees ==> f in blocks && f != x)
    && (forall b :: b in blocks && b in hdr && b != x ==> (b in frees <==> hdr[b].free))
  }

  lemma MergedFree(h0: Headers, h1: Headers, blocks: seq<nat>, frees: seq<nat>, base: nat, brk: nat, k: nat, f: nat, x: nat)
    requires Layout(h0, blocks, base, brk) && k + 1 < |blocks| && Merged(h0, h1, blocks[k], blocks[k + 1])
    requires f < |frees| && Distinct(frees) && FreeExactBut(h0, blocks, frees, x)
    requires {blocks[k], blocks[k + 1]} == {x, frees[f]}
    ensures FreeExactBut(h1, Without(blocks, k + 1), Without(frees, f), blocks[k])
  {
    MergedMembers(h0, h1, blocks, base, brk, k);
    WithoutMembers(frees, f);
  }

  lemma MergedLive(h0: Headers, h1: Headers, blocks: seq<nat>, base: nat, brk: nat, k: nat)
    requires Layout(h0, blocks, base, brk) && k + 1 < |blocks| && Merged(h0, h1, blocks[k], blocks[k + 1])
    requires h0[blocks[k + 1]].free
    ensures LiveOf(h1, Without(blocks, k + 1))
         == if h0[blocks[k]].free then LiveOf(h0, blocks) else LiveOf(h0, blocks)[blocks[k] := h1[blocks[k]].size]
  {
    MergedMembers(h0, h1, blocks, base, brk, k);
  }

  lemma FreeExactFrom(hdr: Headers, blocks: seq<nat>, frees: seq<nat>, p: nat)
    requires p in hdr && p in blocks && hdr[p].free && FreeExactBut(hdr, blocks, frees, p)
    ensures FreeExact(hdr, blocks, [p] + frees)
  {
  }

  lemma CarveKeys(hdr: Headers, h: Headers, p: nat, n: nat, sz: nat)
    requires p in hdr && (hdr[p].next != 0 ==> hdr[p].next in hdr) && hdr[p].size >= sz + H
    requires SameCore(Carve(hdr, p, n, sz), h)
    ensures h.Keys == hdr.Keys + {n}
  {
  }

  lemma BlockIn(hdr: Headers, blocks: seq<nat>, base: nat, brk: nat, k: nat, p: nat)
    requires Layout(hdr, blocks, base, brk) && k < |blocks| && blocks[k] == p
    ensures p in hdr && p > 0 && p in blocks && hdr[p].ptr == p + H && End(hdr, p) <= brk
  {
  }

  lemma SplitFits(hdr: Headers, blocks: seq<nat>, tail: nat, base: nat, brk: nat, k: nat, p: nat, n: nat, sz: nat)
    requires BlockList(hdr, blocks, tail) && Layout(hdr, blocks, base, brk) && k < |blocks| && blocks[k] == p
    requires hdr[p].size > sz + 3 * H && n == p + H + sz
    ensures p in hdr && p > 0 && hdr[p].ptr == p + H && n !in blocks && n > 0
    ensures hdr[p].size >= sz + H
    ensures (hdr[p].next != 0 ==> hdr[p].next in hdr) && hdr[p].next != p && hdr[p].next != n
  {
    hide BlockList, Layout;
    BlockNode(hdr, blocks, tail, base, brk, k);
    SplitFresh(hdr, blocks, base, brk, k, n, sz);
    LayoutMember(hdr, blocks, base, brk, k);
    IndexAt(blocks, k);
  }

  lemma CarveKeepsFree(h0: Headers, p: nat, n: nat, sz: nat, frees: seq<nat>, head: nat)
    requires p in h0 && (h0[p].next != 0 ==> h0[p].next in h0) && h0[p].size >= sz + H
    requires FreeList(h0, frees, head) && n !in frees
    ensures FreeList(Carve(h0, p, n, sz), frees, head)
  {
    FreeListFrame(h0, Carve(h0, p, n, sz), frees, head);
  }

  /** The blocks around a merge are pairwise different. */
  lemma MergeNeighbours(hdr: Headers, blocks: seq<nat>, tail: nat, base: nat, brk: nat, k: nat, l: nat, r: nat)
    requires BlockList(hdr, blocks, tail) && Layout(hdr, blocks, base, brk)
    requires k + 1 < |blocks| && blocks[k] == l && blocks[k + 1] == r
    ensures l in hdr && r in hdr && 0 < l < r
    ensures hdr[r].next == At(blocks, k + 2)
    ensures At(blocks, k + 2) != 0 ==> At(blocks, k + 2) in hdr && At(blocks, k + 2) > r
  {
    if k + 2 < |blocks| {
      LayoutPair(hdr, blocks, base, brk, k + 1, k + 2);
    }
  }

  /** All of a right merge: h0 before, h1 after the size and the free list changed, h2 after the links changed. */
  lemma AbsorbedRight(h0: Headers, h1: Headers, h2: Headers, blocks: seq<nat>, tail: nat, base: nat, brk: nat,
                      frees: seq<nat>, head: nat, k: nat, l: nat, r: nat)
    requires BlockList(h0, blocks, tail) && Layout(h0, blocks, base, brk) && 0 !in h0
    requires k + 1 < |blocks| && blocks[k] == l && blocks[k + 1] == r
    requires l in h0 && r in h0 && SameCore(SetSize(h0, l, h0[l].size + h0[r].size + H), h1)
    requires FreeList(h1, frees, head)
    requires BridgeFits(h1, l, r) && h2 == ClearLinks(Bridge(h1, l, r), r)
    ensures Merged(h0, h2, l, r) && 0 !in h2
    ensures BlockList(h2, Without(blocks, k + 1), if h1[r].next == 0 then l else tail)
    ensures Layout(h2, Without(blocks, k + 1), base, brk)
    ensures FreeList(h2, frees, head)
  {
    MergeNeighbours(h0, blocks, tail, base, brk, k, l, r);
    BridgeMerges(h0, h1, l, r);
    FreeMembers(h1, frees, head);
    FreeListFrame(h1, h2, frees, head);
    MergedList(h0, h2, blocks, tail, base, brk, k);
    MergedLayout(h0, h2, blocks, base, brk, k);
  }

  predicate BridgeFits(hdr: Headers, l: nat, r: nat) {
    l in hdr && r in hdr && l != r && (hdr[r].next != 0 ==> hdr[r].next in hdr && hdr[r].next != l)
  }

  /** The neighbours are still fit for the bridge after the size and the free list changed. */
  lemma FitsBridge(h0: Headers, h1: Headers, blocks: seq<nat>, tail: nat, base: nat, brk: nat, k: nat, l: nat, r: nat)
    requires BlockList(h0, blocks, tail) && Layout(h0, blocks, base, brk)
    requires k + 1 < |blocks| && blocks[k] == l && blocks[k + 1] == r
    requires l in h0 && r in h0 && SameCore(SetSize(h0, l, h0[l].size + h0[r].size + H), h1)
    ensures BridgeFits(h1, l, r)
  {
    MergeNeighbours(h0, blocks, tail, base, brk, k, l, r);
  }

  lemma SizeKeepsFree(h0: Headers, p: nat, v: nat, frees: seq<nat>, head: nat)
    requires p in h0 && FreeList(h0, frees, head)
    ensures FreeList(SetSize(h0, p, v), frees, head)
  {
    FreeListFrame(h0, SetSize(h0, p, v), frees, head);
  }

  lemma SameCoreKeys(h0: Headers, h1: Headers)
    requires SameCore(h0, h1)
    ensures h0.Keys == h1.Keys
  {
  }

  // ----- the state of the allocator between calls

  /** The two linked lists and the layout are sound. */
  ghost predicate Shape(hdr: Headers, tail: nat, head: nat, blocks: seq<nat>, frees: seq<nat>, base: nat, brk: nat) {
    BlockList(hdr, blocks, tail) && Layout(hdr, blocks, base, brk) && FreeList(hdr, frees, head) && 0 !in hdr
  }

  ghost predicate Accounted(hdr: Headers, blocks: seq<nat>, base: nat, brk: nat, lost: nat) {
    (forall b :: b in blocks ==> b in hdr) && base <= brk && Taken(hdr, blocks) + lost == brk - base
  }

  /** What every call keeps. */
  ghost predicate Good(hdr: Headers, tail: nat, head: nat, blocks: seq<nat>, frees: seq<nat>, base: nat, brk: nat, lost: nat) {
    && Shape(hdr, tail, head, blocks, frees, base, brk)
    && FreeExact(hdr, blocks, frees)
    && NoAdjacentFree(hdr, blocks)
    && Accounted(hdr, blocks, base, brk, lost)
  }

  /** The bytes that drop out of the accounting when a block of size have is reused for want bytes. */
  function Dropped(have: nat, want: nat): nat
    requires want <= have
  {
    if have <= want + 3 * H then have - want else 0
  }

  /** The index of the first block on the free list that is large enough, or its length. */
  ghost function FirstFit(hdr: Headers, frees: seq<nat>, size: nat): (k: nat)
    requires forall f :: f in frees ==> f in hdr
    ensures k <= |frees|
    ensures k < |frees| ==> hdr[frees[k]].size >= size
    ensures forall i :: 0 <= i < k ==> hdr[frees[i]].size < size
    decreases |frees|
  {
    if frees == [] then 0
    else if hdr[frees[0]].size >= size then 0
    else
      var k := FirstFit(hdr, frees[1..], size);
      assert forall i :: 0 < i < k + 1 ==> frees[i] == frees[1..][i - 1];
      k + 1
  }

  // ----- reusing a free block

  lemma ReusedCore(h0: Headers, h1: Headers, tail: nat, head: nat, blocks: seq<nat>, frees: seq<nat>, base: nat, brk: nat, lost: nat)
    requires Good(h0, tail, head, blocks, frees, base, brk, lost) && SameCore(h0, h1)
    ensures BlockList(h1, blocks, tail) && Layout(h1, blocks, base, brk) && 0 !in h1
    ensures NoAdjacentFree(h1, blocks) && Accounted(h1, blocks, base, brk, lost)
    ensures LiveOf(h1, blocks) == LiveOf(h0, blocks)
    ensures forall f :: f in frees ==> f in blocks && f in h1 && h1[f].free
    ensures forall b :: b in blocks ==> b in h1 && (b in frees <==> h1[b].free)
  {
    CoreKeepsLayout(h0, h1, blocks, base, brk);
    CoreKeepsList(h0, h1, blocks, tail);
    CoreKeepsRest(h0, h1, blocks);
  }

  lemma CoreKeepsRest(h0: Headers, h1: Headers, blocks: seq<nat>)
    requires SameCore(h0, h1) && forall b :: b in blocks ==> b in h0
    ensures NoAdjacentFree(h0, blocks) ==> NoAdjacentFree(h1, blocks)
    ensures LiveOf(h1, blocks) == LiveOf(h0, blocks)
    ensures Taken(h0, blocks) == Taken(h1, blocks)
  {
    TakenSame(h0, h1, blocks);
  }

  lemma SplitMembership(h1: Headers, h2: Headers, blocks: seq<nat>, frees: seq<nat>, base: nat, brk: nat,
                        k: nat, f: nat, p: nat, n: nat, sz: nat)
    requires Layout(h1, blocks, base, brk) && k < |blocks| && blocks[k] == p
    requires Distinct(frees) && f < |frees| && frees[f] == p
    requires forall x :: x in frees ==> x in blocks
    requires forall b :: b in blocks ==> b in h1 && (b in frees <==> h1[b].free)
    requires SplitInto(h1, h2, p, n, sz)
    ensures FreeExact(h2, Inserted(blocks, k + 1, n), [n] + Without(frees, f))
    ensures LiveOf(h2, Inserted(blocks, k + 1, n)) == LiveOf(h1, blocks)[p := sz]
  {
    hide Layout, Inserted, Distinct, Without;
    SplitMembers(h1, h2, blocks, base, brk, k, n, sz);
    SplitFresh(h1, blocks, base, brk, k, n, sz);
    WithoutMembers(frees, f);
    forall b | b in blocks
      ensures b in h2 && h2[b].free == (h1[b].free && b != p)
    {
    }
  }

  /** Taking the first fit p and splitting off its upper part n. */
  lemma ReusedSplit(h0: Headers, h1: Headers, h2: Headers, tail: nat, tail2: nat, head: nat, head2: nat,
                    blocks: seq<nat>, frees: seq<nat>, base: nat, brk: nat, lost: nat, k: nat, f: nat, p: nat, n: nat, sz: nat)
    requires Good(h0, tail, head, blocks, frees, base, brk, lost) && SameCore(h0, h1)
    requires k < |blocks| && blocks[k] == p && f < |frees| && frees[f] == p && Distinct(frees)
    requires SplitInto(h1, h2, p, n, sz) && tail2 == (if h1[p].next == 0 then n else tail)
    requires FreeList(h2, [n] + Without(frees, f), head2) && 0 !in h2
    ensures Good(h2, tail2, head2, Inserted(blocks, k + 1, n), [n] + Without(frees, f), base, brk, lost)
    ensures LiveOf(h2, Inserted(blocks, k + 1, n)) == LiveOf(h0, blocks)[p := sz]
  {
    hide Layout, BlockList, FreeList, Taken, NoAdjacentFree, FreeExact, Distinct, Without, Inserted, SplitInto, Shrunk, Appended;
    ReusedCore(h0, h1, tail, head, blocks, frees, base, brk, lost);
    assert p in frees;
    SplitList(h1, h2, blocks, tail, base, brk, k, n, sz);
    SplitLayout(h1, h2, blocks, base, brk, k, n, sz);
    SplitTaken(h1, h2, blocks, base, brk, k, n, sz);
    SplitApart(h1, h2, blocks, base, brk, k, n, sz);
    SplitMembership(h1, h2, blocks, frees, base, brk, k, f, p, n, sz);
  }

  lemma ShrunkMembership(h1: Headers, h2: Headers, blocks: seq<nat>, frees: seq<nat>, f: nat, p: nat, sz: nat)
    requires Distinct(frees) && f < |frees| && frees[f] == p && p in blocks
    requires forall x :: x in frees ==> x in blocks
    requires forall b :: b in blocks ==> b in h1 && (b in frees <==> h1[b].free)
    requires Shrunk(h1, h2, p, sz)
    ensures FreeExact(h2, blocks, Without(frees, f))
    ensures LiveOf(h2, blocks) == LiveOf(h1, blocks)[p := sz]
  {
    WithoutMembers(frees, f);
  }

  lemma ShrunkFree(h1: Headers, h2: Headers, frees: seq<nat>, head: nat, p: nat, sz: nat)
    requires FreeList(h1, frees, head) && Shrunk(h1, h2, p, sz)
    ensures FreeList(h2, frees, head)
  {
    FreeListFrame(h1, h2, frees, head);
  }

  lemma ShrunkSize(h0: Headers, h1: Headers, h2: Headers, p: nat, sz: nat)
    requires SameCore(h0, h1) && Shrunk(h1, h2, p, sz)
    ensures p in h0 && p in h1 && h1[p].size == h0[p].size >= sz && h2.Keys == h1.Keys
  {
  }

  /** Taking the first fit p whole: what is beyond sz drops out of the accounting. */
  lemma ReusedWhole(h0: Headers, h1: Headers, h2: Headers, tail: nat, head: nat, head1: nat,
                    blocks: seq<nat>, frees: seq<nat>, base: nat, brk: nat, lost: nat, k: nat, f: nat, p: nat, sz: nat)
    requires Good(h0, tail, head, blocks, frees, base, brk, lost) && SameCore(h0, h1)
    requires k < |blocks| && blocks[k] == p && f < |frees| && frees[f] == p && Distinct(frees)
    requires FreeList(h1, Without(frees, f), head1) && Shrunk(h1, h2, p, sz)
    ensures p in h0 && sz <= h0[p].size
    ensures Good(h2, tail, head1, blocks, Without(frees, f), base, brk, lost + (h0[p].size - sz))
    ensures LiveOf(h2, blocks) == LiveOf(h0, blocks)[p := sz]
  {
    hide Layout, BlockList, FreeList, Taken, NoAdjacentFree, FreeExact, Distinct, Without, Inserted, SplitInto, Shrunk, Appended;
    ReusedCore(h0, h1, tail, head, blocks, frees, base, brk, lost);
    ShrunkFree(h1, h2, Without(frees, f), head1, p, sz);
    ShrunkList(h1, h2, blocks, tail, p, sz);
    ShrunkLayout(h1, h2, blocks, base, brk, p, sz);
    ShrunkTaken(h1, h2, blocks, base, brk, k, sz);
    assert p in blocks;
    ShrunkMembership(h1, h2, blocks, frees, f, p, sz);
    ShrunkSize(h0, h1, h2, p, sz);
  }

  // ----- a new block

  lemma AppendedFree(h0: Headers, h1: Headers, tail: nat, head: nat, blocks: seq<nat>, frees: seq<nat>, base: nat, brk: nat, sz: nat)
    requires Layout(h0, blocks, base, brk) && FreeList(h0, frees, head) && FreeExact(h0, blocks, frees)
    requires Appended(h0, h1, tail, brk, sz)
    ensures FreeList(h1, frees, head) && FreeExact(h1, blocks + [brk], frees)
  {
    BelowBreak(h0, blocks, base, brk);
    hide Layout;
    FreeMembers(h0, frees, head);
    FreeListFrame(h0, h1, frees, head);
  }

  lemma BelowBreak(hdr: Headers, blocks: seq<nat>, base: nat, brk: nat)
    requires Layout(hdr, blocks, base, brk)
    ensures forall b :: b in blocks ==> b in hdr && b < brk
  {
    assert forall i :: 0 <= i < |blocks| ==> End(hdr, blocks[i]) <= brk;
  }

  lemma AppendedLive(h0: Headers, h1: Headers, tail: nat, blocks: seq<nat>, base: nat, brk: nat, sz: nat)
    requires Layout(h0, blocks, base, brk) && Appended(h0, h1, tail, brk, sz)
    ensures brk !in LiveOf(h0, blocks)
    ensures LiveOf(h1, blocks + [brk]) == LiveOf(h0, blocks)[brk := sz]
  {
    BelowBreak(h0, blocks, base, brk);
    hide Layout;
    forall b | b in blocks
      ensures b in h1 && h1[b].free == h0[b].free && h1[b].size == h0[b].size
    {
    }
  }

  lemma AppendedGood(h0: Headers, h1: Headers, tail: nat, head: nat, blocks: seq<nat>, frees: seq<nat>,
                     base: nat, brk: nat, lost: nat, sz: nat)
    requires Good(h0, tail, head, blocks, frees, base, brk, lost)
    requires Appended(h0, h1, tail, brk, sz) && 0 !in h1
    ensures Good(h1, brk, head, blocks + [brk], frees, base, brk + H + sz, lost)
    ensures brk !in LiveOf(h0, blocks)
    ensures LiveOf(h1, blocks + [brk]) == LiveOf(h0, blocks)[brk := sz]
  {
    hide Layout, BlockList, FreeList, Taken, NoAdjacentFree, FreeExact, Distinct, Without, Inserted, SplitInto, Shrunk, Appended;
    AppendedBlocks(h0, h1, blocks, tail, base, brk, sz);
    AppendedTaken(h0, h1, blocks, tail, base, brk, sz);
    AppendedFree(h0, h1, tail, head, blocks, frees, base, brk, sz);
    AppendedLive(h0, h1, tail, blocks, base, brk, sz);
  }

  // ----- freeing

  /** The state while p, the k-th block, is free but not on the free list and may have free neighbours. */
  ghost predicate Freeing(hdr: Headers, tail: nat, head: nat, blocks: seq<nat>, frees: seq<nat>,
                          base: nat, brk: nat, lost: nat, k: nat, p: nat) {
    && Shape(hdr, tail, head, blocks, frees, base, brk)
    && k < |blocks| && blocks[k] == p && p in hdr && hdr[p].free
    && FreeExactBut(hdr, blocks, frees, p)
    && ApartFrom(hdr, blocks, p)
    && Accounted(hdr, blocks, base, brk, lost)
  }

  lemma StartFreeing(h0: Headers, tail: nat, head: nat, blocks: seq<nat>, frees: seq<nat>,
                     base: nat, brk: nat, lost: nat, k: nat, p: nat)
    requires Good(h0, tail, head, blocks, frees, base, brk, lost)
    requires k < |blocks| && blocks[k] == p && p in h0 && !h0[p].free
    ensures Freeing(SetFlag(h0, p, true), tail, head, blocks, frees, base, brk, lost, k, p)
    ensures LiveOf(SetFlag(h0, p, true), blocks) == LiveOf(h0, blocks) - {p}
  {
    hide Layout, BlockList, FreeList, Taken, NoAdjacentFree, Distinct;
    var h1 := SetFlag(h0, p, true);
    TakenSame(h0, h1, blocks);
    FlagKeepsFree(h0, h1, frees, head, p);
    FlagKeepsLayout(h0, h1, blocks, base, brk, p);
    FlagKeepsList(h0, h1, blocks, tail, p);
    FlagLive(h0, h1, blocks, p);
    assert p in blocks;
  }

  lemma FlagKeepsFree(h0: Headers, h1: Headers, frees: seq<nat>, head: nat, p: nat)
    requires FreeList(h0, frees, head) && p in h0 && h1 == SetFlag(h0, p, true)
    ensures FreeList(h1, frees, head)
  {
    FreeListFrame(h0, h1, frees, head);
  }

  lemma FlagKeepsList(h0: Headers, h1: Headers, blocks: seq<nat>, tail: nat, p: nat)
    requires BlockList(h0, blocks, tail) && NoAdjacentFree(h0, blocks) && p in h0 && h1 == SetFlag(h0, p, true)
    ensures BlockList(h1, blocks, tail) && ApartFrom(h1, blocks, p)
  {
  }

  lemma FlagLive(h0: Headers, h1: Headers, blocks: seq<nat>, p: nat)
    requires p in h0 && h1 == SetFlag(h0, p, true)
    ensures LiveOf(h1, blocks) == LiveOf(h0, blocks) - {p}
  {
  }

  lemma FlagKeepsLayout(h0: Headers, h1: Headers, blocks: seq<nat>, base: nat, brk: nat, p: nat)
    requires Layout(h0, blocks, base, brk) && p in h0 && h1 == SetFlag(h0, p, true)
    ensures Layout(h1, blocks, base, brk)
  {
    forall i | 0 <= i < |blocks|
      ensures blocks[i] in h1 && h1[blocks[i]].ptr == blocks[i] + H && End(h1, blocks[i]) == End(h0, blocks[i])
    {
    }
  }

  /** Merging the pair at k keeps the freeing state; x is the block being freed, the other one came off the list. */
  lemma MergedFreeing(h0: Headers, h1: Headers, tail: nat, head: nat, tail1: nat, head1: nat, blocks: seq<nat>, frees: seq<nat>,
                      base: nat, brk: nat, lost: nat, kx: nat, x: nat, k: nat, f: nat, l: nat, r: nat)
    requires Freeing(h0, tail, head, blocks, frees, base, brk, lost, kx, x) && (x == l || x == r)
    requires k + 1 < |blocks| && blocks[k] == l && blocks[k + 1] == r && l != r
    requires l in h0 && r in h0 && h0[l].free && h0[r].free
    requires f < |frees| && frees[f] == (if x == l then r else l)
    requires Merged(h0, h1, l, r) && Shape(h1, tail1, head1, Without(blocks, k + 1), Without(frees, f), base, brk)
    ensures Freeing(h1, tail1, head1, Without(blocks, k + 1), Without(frees, f), base, brk, lost, k, l)
    ensures LiveOf(h1, Without(blocks, k + 1)) == LiveOf(h0, blocks)
  {
    hide Layout, BlockList, FreeList, Taken, FreeExactBut, ApartFrom, Distinct, Merged, Without;
    BlocksDistinct(h0, blocks, base, brk);
    LayoutMember(h0, blocks, base, brk, k);
    FreeDistinct(h0, frees, head);
    MergedApart(h0, h1, blocks, k, x);
    MergedTaken(h0, h1, blocks, base, brk, k);
    MergedFree(h0, h1, blocks, frees, base, brk, k, f, x);
    MergedLive(h0, h1, blocks, base, brk, k);
    MergedMembers(h0, h1, blocks, base, brk, k);
    MergedFlags(h0, h1, l, r);
  }

  lemma MergedFlags(h0: Headers, h1: Headers, l: nat, r: nat)
    requires Merged(h0, h1, l, r) && l != r
    ensures l in h1 && h1[l].free == h0[l].free && h1.Keys == h0.Keys
  {
  }

  lemma FreeDistinct(hdr: Headers, frees: seq<nat>, head: nat)
    requires FreeList(hdr, frees, head)
    ensures Distinct(frees)
  {
  }

  /** With both neighbours in use, putting p on the free list ends the call. */
  lemma EndFreeing(h0: Headers, h1: Headers, tail: nat, head: nat, head1: nat, blocks: seq<nat>, frees: seq<nat>,
                   base: nat, brk: nat, lost: nat, k: nat, p: nat)
    requires Freeing(h0, tail, head, blocks, frees, base, brk, lost, k, p)
    requires k > 0 ==> blocks[k - 1] in h0 && !h0[blocks[k - 1]].free
    requires k + 1 < |blocks| ==> blocks[k + 1] in h0 && !h0[blocks[k + 1]].free
    requires SameCore(h0, h1) && FreeList(h1, [p] + frees, head1)
    ensures Good(h1, tail, head1, blocks, [p] + frees, base, brk, lost)
    ensures LiveOf(h1, blocks) == LiveOf(h0, blocks)
  {
    hide Layout, BlockList, FreeList, Taken, Distinct, NoAdjacentFree, FreeExact, FreeExactBut, ApartFrom, SameCore;
    BlocksDistinct(h0, blocks, base, brk);
    LayoutMember(h0, blocks, base, brk, k);
    ApartEverywhere(h0, blocks, k);
    CoreKeepsLayout(h0, h1, blocks, base, brk);
    CoreKeepsList(h0, h1, blocks, tail);
    CoreKeepsRest(h0, h1, blocks);
    assert p in blocks;
    FreeExactFrom(h0, blocks, frees, p);
    CoreKeepsExact(h0, h1, blocks, [p] + frees);
    SameCoreKeys(h0, h1);
  }

  lemma CoreKeepsExact(h0: Headers, h1: Headers, blocks: seq<nat>, frees: seq<nat>)
    requires SameCore(h0, h1) && FreeExact(h0, blocks, frees)
    ensures FreeExact(h1, blocks, frees)
  {
  }

  lemma FitsBridgeLeft(h0: Headers, h1: Headers, blocks: seq<nat>, tail: nat, base: nat, brk: nat, k: nat, l: nat, r: nat)
    requires BlockList(h0, blocks, tail) && Layout(h0, blocks, base, brk)
    requires k + 1 < |blocks| && blocks[k] == l && blocks[k + 1] == r && SameCore(h0, h1)
    ensures BridgeFits(h1, l, r)
  {
    MergeNeighbours(h0, blocks, tail, base, brk, k, l, r);
  }

  /** All of a left merge: h0 before, h1 after the free list changed, h2 after the links and the size changed. */
  lemma AbsorbedLeft(h0: Headers, h1: Headers, h2: Headers, blocks: seq<nat>, tail: nat, base: nat, brk: nat,
                     frees: seq<nat>, head: nat, k: nat, l: nat, r: nat)
    requires BlockList(h0, blocks, tail) && Layout(h0, blocks, base, brk) && 0 !in h0
    requires k + 1 < |blocks| && blocks[k] == l && blocks[k + 1] == r && SameCore(h0, h1)
    requires FreeList(h1, frees, head) && BridgeFits(h1, l, r)
    requires ghost var hb := Bridge(h1, l, r);
             l in hb && r in hb && h2 == ClearLinks(SetSize(hb, l, hb[l].size + hb[r].size + H), r)
    ensures Merged(h0, h2, l, r) && 0 !in h2
    ensures BlockList(h2, Without(blocks, k + 1), if h1[r].next == 0 then l else tail)
    ensures Layout(h2, Without(blocks, k + 1), base, brk)
    ensures FreeList(h2, frees, head)
  {
    hide BlockList, Layout, FreeList, Without;
    MergeNeighbours(h0, blocks, tail, base, brk, k, l, r);
    BridgeMergesLeft(h0, h1, l, r);
    FreeMembers(h1, frees, head);
    FreeListFrame(h1, h2, frees, head);
    MergedList(h0, h2, blocks, tail, base, brk, k);
    MergedLayout(h0, h2, blocks, base, brk, k);
  }

  // ----- small facts for the operations

  lemma FitIndex(hdr: Headers, blocks: seq<nat>, frees: seq<nat>, f: nat, p: nat) returns (k: nat)
    requires FreeExact(hdr, blocks, frees) && f < |frees| && frees[f] == p && p in hdr
    ensures k < |blocks| && blocks[k] == p && hdr[p].free && p !in LiveOf(hdr, blocks)
  {
    assert p in frees;
    k :| 0 <= k < |blocks| && blocks[k] == p;
  }

  lemma SameFields(h0: Headers, h1: Headers, p: nat)
    requires SameCore(h0, h1) && p in h0
    ensures p in h1 && h1[p].size == h0[p].size && h1[p].ptr == h0[p].ptr && h1[p].free == h0[p].free
    ensures h1[p].next == h0[p].next && h1[p].prev == h0[p].prev
  {
  }

  lemma RemainInBlocks(blocks: seq<nat>, frees: seq<nat>, f: nat)
    requires f < |frees| && forall x :: x in frees ==> x in blocks
    ensures forall x :: x in Without(frees, f) ==> x in blocks
  {
  }

  /** The free list after a split is untouched by marking p used and cutting its size. */
  lemma SplitFree(h1: Headers, h2: Headers, h3: Headers, blocks: seq<nat>, frees: seq<nat>, head: nat, base: nat, brk: nat,
                  k: nat, f: nat, p: nat, n: nat, sz: nat)
    requires Distinct(frees) && f < |frees| && frees[f] == p
    requires FreeList(h2, [n] + Without(frees, f), head) && p in h2 && 0 !in h2 && n != p
    requires h3 == h2[p := h2[p].(size := sz, free := false)]
    ensures FreeList(h3, [n] + Without(frees, f), head) && 0 !in h3
  {
    FreeMembers(h2, [n] + Without(frees, f), head);
    FreeListFrame(h2, h3, [n] + Without(frees, f), head);
  }

  lemma ShrunkBy(h1: Headers, h2: Headers, p: nat, sz: nat)
    requires p in h1 && sz <= h1[p].size && h2 == h1[p := h1[p].(size := sz, free := false)]
    ensures Shrunk(h1, h2, p, sz)
  {
  }

  lemma PayloadAddress(h0: Headers, h1: Headers, blocks: seq<nat>, base: nat, brk: nat, k: nat, p: nat)
    requires Layout(h0, blocks, base, brk) && k < |blocks| && blocks[k] == p && SameCore(h0, h1)
    ensures p in h1 && h1[p].ptr == p + H
  {
  }

  lemma KeptPointer(h1: Headers, h2: Headers, p: nat, sz: nat)
    requires p in h1
    requires Shrunk(h1, h2, p, sz) || exists n :: SplitInto(h1, h2, p, n, sz)
    ensures p in h2 && h2[p].ptr == h1[p].ptr
  {
    if !Shrunk(h1, h2, p, sz) {
      var n :| SplitInto(h1, h2, p, n, sz);
    }
  }

  lemma TailBelow(hdr: Headers, blocks: seq<nat>, tail: nat, base: nat, brk: nat)
    requires BlockList(hdr, blocks, tail) && Layout(hdr, blocks, base, brk)
    ensures brk > 0 && (tail != 0 ==> tail in hdr && tail < brk && tail in blocks)
  {
    BelowBreak(hdr, blocks, base, brk);
  }

  /** The neighbours of the block being freed. */
  lemma NextOf(hdr: Headers, tail: nat, head: nat, blocks: seq<nat>, frees: seq<nat>,
               base: nat, brk: nat, lost: nat, k: nat, p: nat)
    requires Freeing(hdr, tail, head, blocks, frees, base, brk, lost, k, p)
    ensures hdr[p].next == 0 <==> k + 1 == |blocks|
    ensures hdr[p].prev == 0 <==> k == 0
    ensures k + 1 < |blocks| ==> hdr[p].next == blocks[k + 1] && blocks[k + 1] in hdr && blocks[k + 1] in blocks && blocks[k + 1] != p
    ensures k > 0 ==> hdr[p].prev == blocks[k - 1] && blocks[k - 1] in hdr && blocks[k - 1] in blocks && blocks[k - 1] != p
  {
    BlockNode(hdr, blocks, tail, base, brk, k);
  }

  lemma ListedAt(hdr: Headers, blocks: seq<nat>, frees: seq<nat>, x: nat, b: nat) returns (f: nat)
    requires FreeExactBut(hdr, blocks, frees, x) && b in blocks && b in hdr && b != x && hdr[b].free
    ensures f < |frees| && frees[f] == b
  {
    f :| 0 <= f < |frees| && frees[f] == b;
  }

  lemma Unlisted(hdr: Headers, blocks: seq<nat>, frees: seq<nat>, tail: nat, head: nat, base: nat, brk: nat, lost: nat, k: nat, p: nat)
    requires Freeing(hdr, tail, head, blocks, frees, base, brk, lost, k, p)
    ensures p !in frees && p > 0
  {
    LayoutMember(hdr, blocks, base, brk, k);
  }

  /** After a free right neighbour r is absorbed, the block beyond it is in use. */
  lemma AfterMerge(h0: Headers, h1: Headers, blocks: seq<nat>, base: nat, brk: nat, tail: nat, head: nat, frees: seq<nat>, lost: nat,
                   k: nat, p: nat, r: nat)
    requires Freeing(h0, tail, head, blocks, frees, base, brk, lost, k, p)
    requires k + 1 < |blocks| && blocks[k + 1] == r && r in h0 && h0[r].free && Merged(h0, h1, p, r)
    ensures ghost var t := Without(blocks, k + 1);
            k + 1 < |t| ==> t[k + 1] in h1 && !h1[t[k + 1]].free
    ensures ghost var t := Without(blocks, k + 1);
            k > 0 ==> t[k - 1] == blocks[k - 1]
  {
    BlocksDistinct(h0, blocks, base, brk);
    LayoutMember(h0, blocks, base, brk, k);
    if k + 2 < |blocks| {
      assert blocks[k + 1] != p && blocks[k + 2] != p;
    }
  }

  /** After the block being freed is absorbed by its free left neighbour l, both blocks around l are in use. */
  lemma AfterLeftMerge(h0: Headers, h1: Headers, blocks: seq<nat>, base: nat, brk: nat, tail: nat, head: nat, frees: seq<nat>, lost: nat,
                       k: nat, l: nat, p: nat)
    requires Freeing(h0, tail, head, blocks, frees, base, brk, lost, k, p)
    requires 0 < k && blocks[k - 1] == l && l in h0 && h0[l].free && Merged(h0, h1, l, p)
    requires k + 1 < |blocks| ==> blocks[k + 1] in h0 && !h0[blocks[k + 1]].free
    ensures ghost var t := Without(blocks, k);
            (k - 1 > 0 ==> t[k - 2] in h1 && !h1[t[k - 2]].free) && (k < |t| ==> t[k] in h1 && !h1[t[k]].free)
  {
    BlocksDistinct(h0, blocks, base, brk);
    LayoutMember(h0, blocks, base, brk, k);
    if k - 1 > 0 {
      assert blocks[k - 2] != p && blocks[k - 1] != p;
    }
  }

  lemma GoodMembers(hdr: Headers, tail: nat, head: nat, blocks: seq<nat>, frees: seq<nat>, base: nat, brk: nat, lost: nat)
    requires Good(hdr, tail, head, blocks, frees, base, brk, lost)
    ensures FreeList(hdr, frees, head) && Layout(hdr, blocks, base, brk)
    ensures forall f :: f in frees ==> f in hdr && f > 0
    ensures forall b :: b in blocks ==> b in hdr && b > 0
    ensures base <= brk
  {
    FreeMembers(hdr, frees, head);
    BelowBreak(hdr, blocks, base, brk);
  }

  lemma FreeNotLive(hdr: Headers, blocks: seq<nat>, p: nat)
    requires p in hdr
    ensures hdr[p].free ==> LiveOf(hdr, blocks) == LiveOf(hdr, blocks) - {p}
  {
  }

  lemma LiveMember(hdr: Headers, blocks: seq<nat>, p: nat)
    requires p in LiveOf(hdr, blocks)
    ensures p in blocks && p in hdr && !hdr[p].free && LiveOf(hdr, blocks)[p] == hdr[p].size
  {
  }

  lemma LivePositive(hdr: Headers, tail: nat, head: nat, blocks: seq<nat>, frees: seq<nat>, base: nat, brk: nat, lost: nat, p: nat)
    requires Good(hdr, tail, head, blocks, frees, base, brk, lost) && p in LiveOf(hdr, blocks)
    ensures p > 0
  {
    LiveMember(hdr, blocks, p);
    GoodMembers(hdr, tail, head, blocks, frees, base, brk, lost);
  }

  lemma DroppedBound()
    ensures forall have: nat, want: nat :: want <= have ==> Dropped(have, want) <= 3 * H
  {
  }

  lemma GrowIndices(hdr: Headers, tail: nat, head: nat, blocks: seq<nat>, frees: seq<nat>, base: nat, brk: nat, lost: nat, p: nat, next: nat)
    returns (k: nat, f: nat)
    requires Good(hdr, tail, head, blocks, frees, base, brk, lost)
    requires p in LiveOf(hdr, blocks) && p in hdr && hdr[p].next == next != 0 && next in hdr && hdr[next].free
    ensures k + 1 < |blocks| && blocks[k] == p && blocks[k + 1] == next
    ensures f < |frees| && frees[f] == next && !hdr[p].free && hdr[p].ptr == p + H && p > 0 && p != next
  {
    LiveMember(hdr, blocks, p);
    k :| 0 <= k < |blocks| && blocks[k] == p;
    BlockNode(hdr, blocks, tail, base, brk, k);
    LayoutMember(hdr, blocks, base, brk, k);
    assert next in blocks;
    f :| 0 <= f < |frees| && frees[f] == next;
  }

  /** Growing a block in use over its free right neighbour keeps the state good. */
  lemma GrownGood(h0: Headers, h1: Headers, tail: nat, head: nat, tail1: nat, head1: nat, blocks: seq<nat>, frees: seq<nat>,
                  base: nat, brk: nat, lost: nat, k: nat, f: nat, p: nat, next: nat)
    requires Good(h0, tail, head, blocks, frees, base, brk, lost)
    requires k + 1 < |blocks| && blocks[k] == p && blocks[k + 1] == next && f < |frees| && frees[f] == next && p != next
    requires p in h0 && next in h0 && !h0[p].free && h0[next].free
    requires Merged(h0, h1, p, next) && Shape(h1, tail1, head1, Without(blocks, k + 1), Without(frees, f), base, brk)
    ensures Good(h1, tail1, head1, Without(blocks, k + 1), Without(frees, f), base, brk, lost)
    ensures p in h1 && h1[p].ptr == h0[p].ptr
    ensures LiveOf(h1, Without(blocks, k + 1)) == LiveOf(h0, blocks)[p := h0[p].size + h0[next].size + H]
  {
    hide Layout, BlockList, FreeList, Taken, FreeExact, Distinct, NoAdjacentFree, ApartFrom, LiveOf, Without, Merged;
    BlocksDistinct(h0, blocks, base, brk);
    LayoutMember(h0, blocks, base, brk, k);
    FreeDistinct(h0, frees, head);
    ApartWeaker(h0, blocks, next);
    MergedApart(h0, h1, blocks, k, next);
    MergedTaken(h0, h1, blocks, base, brk, k);
    MergedLive(h0, h1, blocks, base, brk, k);
    MergedMembers(h0, h1, blocks, base, brk, k);
    MergedFlags(h0, h1, p, next);
    GrownPointer(h0, h1, p, next);
    GrownExact(h0, h1, blocks, frees, base, brk, k, f, p, next);
    UsedApart(h1, Without(blocks, k + 1), p);
  }

  lemma ApartWeaker(hdr: Headers, blocks: seq<nat>, x: nat)
    requires NoAdjacentFree(hdr, blocks)
    ensures ApartFrom(hdr, blocks, x)
  {
  }

  lemma GrownPointer(h0: Headers, h1: Headers, l: nat, r: nat)
    requires Merged(h0, h1, l, r) && l != r
    ensures l in h1 && h1[l].ptr == h0[l].ptr && h1[l].size == h0[l].size + h0[r].size + H
  {
  }

  lemma GrownExact(h0: Headers, h1: Headers, blocks: seq<nat>, frees: seq<nat>, base: nat, brk: nat, k: nat, f: nat, p: nat, next: nat)
    requires Layout(h0, blocks, base, brk) && FreeExact(h0, blocks, frees) && Distinct(frees)
    requires k + 1 < |blocks| && blocks[k] == p && blocks[k + 1] == next && f < |frees| && frees[f] == next && p != next
    requires p in h0 && Merged(h0, h1, p, next)
    ensures FreeExact(h1, Without(blocks, k + 1), Without(frees, f))
  {
    MergedMembers(h0, h1, blocks, base, brk, k);
    MergedFlags(h0, h1, p, next);
    WithoutMembers(frees, f);
    hide Layout, Distinct, Merged;
  }

  /** A block in use has no free pair around it. */
  lemma UsedApart(hdr: Headers, blocks: seq<nat>, p: nat)
    requires ApartFrom(hdr, blocks, p) && p in hdr && !hdr[p].free
    ensures NoAdjacentFree(hdr, blocks)
  {
  }

  /** The payload of block b in use is disjoint from every other payload in use. */
  lemma MovedApart(hdr: Headers, tail: nat, head: nat, blocks: seq<nat>, frees: seq<nat>, base: nat, brk: nat, lost: nat, b: nat)
    requires Good(hdr, tail, head, blocks, frees, base, brk, lost) && b in LiveOf(hdr, blocks)
    ensures ghost var live := LiveOf(hdr, blocks);
            forall q :: q in live && q != b ==> b + H + live[b] <= q || q + H + live[q] <= b
  {
    LiveMember(hdr, blocks, b);
    forall q | q in LiveOf(hdr, blocks) && q != b
      ensures b + H + LiveOf(hdr, blocks)[b] <= q || q + H + LiveOf(hdr, blocks)[q] <= b
    {
      LiveMember(hdr, blocks, q);
      LivePayloadsDisjoint(hdr, blocks, base, brk, b, q);
    }
  }

  // ----- which headers are written

  /** Between h0 and h1 no header was written or made outside S. */
  ghost predicate WrittenWithin(h0: Headers, h1: Headers, S: set<nat>) {
    forall a :: a !in S ==> (a in h1 <==> a in h0) && (a in h0 && a in h1 ==> h1[a] == h0[a])
  }

  lemma NotWritten(h: Headers, S: set<nat>)
    ensures WrittenWithin(h, h, S)
  {
  }

  lemma WrittenThen(h0: Headers, h1: Headers, h2: Headers, S: set<nat>, T: set<nat>, U: set<nat>)
    requires WrittenWithin(h0, h1, S) && WrittenWithin(h1, h2, T) && S <= U && T <= U
    ensures WrittenWithin(h0, h2, U)
  {
  }

  lemma InsertWrites(hdr: Headers, p: nat, head: nat, S: set<nat>)
    requires p in hdr && (head != 0 ==> head in hdr && head in S) && p in S
    ensures WrittenWithin(hdr, Linked(hdr, p, head), S)
  {
  }

  lemma BypassWrites(hdr: Headers, p: nat, before: nat, after: nat, S: set<nat>)
    requires p in hdr && (before != 0 ==> before in hdr && before in S) && (after != 0 ==> after in hdr && after in S) && p in S
    ensures WrittenWithin(hdr, Bypass(hdr, p, before, after), S)
  {
  }

  lemma CarveWrites(hdr: Headers, p: nat, n: nat, sz: nat, S: set<nat>)
    requires p in hdr && (hdr[p].next != 0 ==> hdr[p].next in hdr && hdr[p].next in S) && hdr[p].size >= sz + H
    requires p in S && n in S
    ensures WrittenWithin(hdr, Carve(hdr, p, n, sz), S)
  {
  }

  /** The header writes of a right merge after the free list, and of a left merge. */
  lemma MergeWrites(h0: Headers, h1: Headers, h2: Headers, h3: Headers, l: nat, r: nat, S: set<nat>)
    requires WrittenWithin(h0, h1, S) && BridgeFits(h1, l, r) && h2 == Bridge(h1, l, r)
    requires l in S && r in S && (h1[r].next != 0 ==> h1[r].next in S)
    requires r in h2 && h3 == ClearLinks(h2, r)
    ensures WrittenWithin(h0, h3, S)
  {
  }

  lemma MergeLeftWrites(h0: Headers, h1: Headers, h2: Headers, h3: Headers, h4: Headers, l: nat, r: nat, S: set<nat>)
    requires WrittenWithin(h0, h1, S) && BridgeFits(h1, l, r) && h2 == Bridge(h1, l, r)
    requires l in S && r in S && (h1[r].next != 0 ==> h1[r].next in S)
    requires l in h2 && r in h2 && h3 == SetSize(h2, l, h2[l].size + h2[r].size + H)
    requires r in h3 && h4 == ClearLinks(h3, r)
    ensures WrittenWithin(h0, h4, S)
  {
  }

  // The right neighbour of a block, if any, is on the list too.
  lemma NextListed(hdr: Headers, blocks: seq<nat>, tail: nat, base: nat, brk: nat, k: nat, p: nat)
    requires BlockList(hdr, blocks, tail) && Layout(hdr, blocks, base, brk) && k < |blocks| && blocks[k] == p
    ensures p in hdr && p in Elements(blocks) && (hdr[p].next != 0 ==> hdr[p].next in Elements(blocks))
  {
    BlockNode(hdr, blocks, tail, base, brk, k);
  }

  // One header is replaced.
  lemma OneWrite(hdr: Headers, a: nat, x: Header, S: set<nat>)
    requires a in S
    ensures WrittenWithin(hdr, hdr[a := x], S)
  {
  }

  /** Two neighbours, and what follows them, are blocks. */
  lemma MergeListed(hdr: Headers, blocks: seq<nat>, tail: nat, base: nat, brk: nat, k: nat, l: nat, r: nat)
    requires BlockList(hdr, blocks, tail) && Layout(hdr, blocks, base, brk)
    requires k + 1 < |blocks| && blocks[k] == l && blocks[k + 1] == r
    ensures l in Elements(blocks) && r in Elements(blocks) && r in hdr && (hdr[r].next != 0 ==> hdr[r].next in Elements(blocks))
  {
    NextListed(hdr, blocks, tail, base, brk, k + 1, r);
  }

  /** All header writes of absorbing the right neighbour: the size of l, then the free list, then the links. */
  lemma RightWrites(h0: Headers, h1: Headers, h2: Headers, v: nat, frees: seq<nat>, l: nat, r: nat, S: set<nat>)
    requires l in h0 && l in S && r in S && Elements(frees) <= S
    requires WrittenWithin(SetSize(h0, l, v), h1, Elements(frees))
    requires BridgeFits(h1, l, r) && (h1[r].next != 0 ==> h1[r].next in S)
    requires r in Bridge(h1, l, r) && h2 == ClearLinks(Bridge(h1, l, r), r)
    ensures WrittenWithin(h0, h2, S)
  {
    hide WrittenWithin, Bridge, ClearLinks, Elements;
    OneWrite(h0, l, h0[l].(size := v), S);
    WrittenThen(h0, SetSize(h0, l, v), h1, S, Elements(frees), S);
    MergeWrites(h0, h1, Bridge(h1, l, r), h2, l, r, S);
  }

  /** A step of free writes headers that were on the lists when the step began, and all those are blocks. */
  lemma ReleaseWrites(h0: Headers, h1: Headers, tail: nat, head: nat, blocks: seq<nat>, frees: seq<nat>,
                      base: nat, brk: nat, lost: nat, k: nat, p: nat, T: set<nat>)
    requires Freeing(h0, tail, head, blocks, frees, base, brk, lost, k, p)
    requires WrittenWithin(h0, h1, T) && T <= Elements(blocks) + Elements(frees) + {p}
    ensures WrittenWithin(h0, h1, Elements(blocks))
  {
    hide Shape, ApartFrom, Accounted;
    assert p in blocks;
    assert Elements(frees) <= Elements(blocks);
  }

  /** The four steps of free, each within the blocks of its own time. */
  lemma WrittenInTurn(h0: Headers, h1: Headers, h2: Headers, h3: Headers, h4: Headers, S: set<nat>, T: set<nat>, U: set<nat>)
    requires WrittenWithin(h0, h1, S) && WrittenWithin(h1, h2, S) && WrittenWithin(h2, h3, T) && WrittenWithin(h3, h4, U)
    requires U <= T <= S
    ensures WrittenWithin(h0, h4, S)
  {
    hide WrittenWithin;
    WrittenThen(h0, h1, h2, S, S, S);
    WrittenThen(h0, h2, h3, S, T, S);
    WrittenThen(h0, h3, h4, S, U, S);
  }

  /** The blocks absorbed by a growing block were free, and so on both lists. */
  lemma GrowWrites(h0: Headers, h1: Headers, tail: nat, head: nat, blocks: seq<nat>, frees: seq<nat>, base: nat, brk: nat, lost: nat,
                   blocks1: seq<nat>)
    requires Good(h0, tail, head, blocks, frees, base, brk, lost)
    requires WrittenWithin(h0, h1, Elements(blocks) + Elements(frees))
    ensures WrittenWithin(h0, h1, Elements(blocks) + Elements(blocks1))
  {
    assert FreeExact(h0, blocks, frees);
    assert Elements(frees) <= Elements(blocks);
    hide Good, FreeExact;
  }

  lemma WithoutWithin(s: seq<nat>, k: nat, S: set<nat>)
    requires k < |s| && Elements(s) <= S
    ensures Elements(Without(s, k)) <= S
  {
    forall x | x in Without(s, k)
      ensures x in s
    {
    }
  }

  /** The header at a has come, gone or changed: the call has written it. */
  ghost predicate Written(h0: Headers, h1: Headers, a: nat) {
    (a in h0 || a in h1) && (a in h0 && a in h1 ==> h1[a] != h0[a])
  }

  /** Every header written lies outside the bytes of every payload that is in use both before and after. */
  ghost predicate HeadersApart(h0: Headers, h1: Headers, live0: map<nat, nat>, live1: map<nat, nat>) {
    forall a: nat, b: nat :: Written(h0, h1, a) && b in live0 && b in live1 ==>
      a + H <= b + H || b + H + live0[b] <= a || b + H + live1[b] <= a
  }

  lemma NoneWritten(h: Headers, live: map<nat, nat>)
    ensures HeadersApart(h, h, live, live)
  {
  }

  lemma {:induction false} ListedApart(hdr: Headers, blocks: seq<nat>, base: nat, brk: nat, a: nat, b: nat)
    requires Layout(hdr, blocks, base, brk) && a in blocks && b in LiveOf(hdr, blocks)
    ensures a + H <= b + H || b + H + LiveOf(hdr, blocks)[b] <= a
  {
    if a != b {
      LivePayloadsDisjoint(hdr, blocks, base, brk, b, a);
    }
  }

  /** Headers of blocks on the list, before or after, are apart from such payloads. */
  lemma WrittenApart(h0: Headers, h1: Headers, blocks0: seq<nat>, blocks1: seq<nat>, base: nat, brk0: nat, brk1: nat)
    requires Layout(h0, blocks0, base, brk0) && Layout(h1, blocks1, base, brk1)
    requires WrittenWithin(h0, h1, Elements(blocks0) + Elements(blocks1))
    ensures HeadersApart(h0, h1, LiveOf(h0, blocks0), LiveOf(h1, blocks1))
  {
    hide Layout;
    var live0, live1 := LiveOf(h0, blocks0), LiveOf(h1, blocks1);
    hide LiveOf;
    forall a: nat, b: nat | Written(h0, h1, a) && b in live0 && b in live1
      ensures a + H <= b + H || b + H + live0[b] <= a || b + H + live1[b] <= a
    {
      if a in blocks0 {
        ListedApart(h0, blocks0, base, brk0, a, b);
      } else {
        assert a in Elements(blocks0) + Elements(blocks1);
        ListedApart(h1, blocks1, base, brk1, a, b);
      }
    }
  }

  /** Two calls in a row, where what is in use at both ends is in use, as large, in between. */
  lemma ApartThen(h0: Headers, h1: Headers, h2: Headers, live0: map<nat, nat>, live1: map<nat, nat>, live2: map<nat, nat>)
    requires HeadersApart(h0, h1, live0, live1) && HeadersApart(h1, h2, live1, live2)
    requires forall b :: b in live0 && b in live2 ==> b in live1 && live1[b] == live0[b] == live2[b]
    ensures HeadersApart(h0, h2, live0, live2)
  {
    forall a: nat, b: nat | Written(h0, h2, a) && b in live0 && b in live2
      ensures a + H <= b + H || b + H + live0[b] <= a || b + H + live2[b] <= a
    {
      assert Written(h0, h1, a) || Written(h1, h2, a);
    }
  }
}
