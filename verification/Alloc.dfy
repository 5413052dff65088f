/** malloc, free and realloc over one address space: a first-fit allocator with coalescing. */
module Alloc {
  import opened HeapModel
  import opened Seqs

  // ----- the helpers of alloc.c; each takes the globals it changes and returns their new values

  /** insertfree: p becomes the head of the free list. */
  method InsertFree(hdr0: Headers, freehead0: nat, p: nat, ghost frees: seq<nat>)
    returns (hdr: Headers, freehead: nat)
    requires FreeList(hdr0, frees, freehead0) && p > 0 && p in hdr0 && p !in frees
    ensures FreeList(hdr, [p] + frees, freehead)
    ensures SameCore(hdr0, hdr) && WrittenWithin(hdr0, hdr, Elements(frees) + {p})
  {
    FreeMembers(hdr0, frees, freehead0);
    InsertWrites(hdr0, p, freehead0, Elements(frees) + {p});
    LinkFree(hdr0, frees, freehead0, p);
    hide FreeList, SameCore, WrittenWithin, Elements;
    hdr, freehead := hdr0, freehead0;
    hdr := SetFreePrev(hdr, p, 0);
    hdr := SetFreeNext(hdr, p, freehead);
    if freehead != 0 {
      hdr := SetFreePrev(hdr, freehead, p);
    }
    freehead := p;
    assert hdr == Linked(hdr0, p, freehead0);
  }

  /** removefree: p, the k-th of the free list, is taken out. */
  method RemoveFree(hdr0: Headers, freehead0: nat, p: nat, ghost frees: seq<nat>, ghost k: nat)
    returns (hdr: Headers, freehead: nat)
    requires FreeList(hdr0, frees, freehead0) && k < |frees| && frees[k] == p
    ensures FreeList(hdr, Without(frees, k), freehead)
    ensures SameCore(hdr0, hdr) && WrittenWithin(hdr0, hdr, Elements(frees))
  {
    FreeNode(hdr0, frees, freehead0, k);
    BypassWrites(hdr0, p, hdr0[p].freeprev, hdr0[p].freenext, Elements(frees));
    hide FreeList, At, Without, WrittenWithin;
    hdr, freehead := hdr0, freehead0;
    var tmpPrev := hdr[p].freeprev;
    var tmpNext := hdr[p].freenext;
    hdr := SetFreePrev(hdr, p, 0);
    hdr := SetFreeNext(hdr, p, 0);
    if tmpNext != 0 {
      hdr := SetFreePrev(hdr, tmpNext, tmpPrev);
    }
    if tmpPrev != 0 {
      hdr := SetFreeNext(hdr, tmpPrev, tmpNext);
    }
    if p == freehead {
      freehead := tmpNext;
    }
    assert hdr == Bypass(hdr0, p, tmpPrev, tmpNext);
    UnlinkFree(hdr0, hdr, frees, freehead0, k);
  }

  /** Writes the header of the upper part of p and links it after p. */
  method CarveBlock(hdr0: Headers, tail0: nat, p: nat, sz: nat) returns (hdr: Headers, tail: nat, newptr: nat)
    requires p in hdr0 && (hdr0[p].next != 0 ==> hdr0[p].next in hdr0) && hdr0[p].size >= sz + H && hdr0[p].ptr == p + H
    ensures newptr == p + H + sz && newptr in hdr && hdr == Carve(hdr0, p, newptr, sz)
    ensures tail == if hdr0[p].next == 0 then newptr else tail0
  {
    hdr, tail := hdr0, tail0;
    var tmp := hdr[p].next;
    newptr := hdr[p].ptr + sz;
    hdr := hdr[newptr := Header(tmp, p, 0, 0, newptr + H, hdr[p].size - sz - H, true)];
    if tmp != 0 {
      hdr := SetPrev(hdr, tmp, newptr);
    }
    if tmp == 0 {
      tail := newptr;
    }
    hdr := SetNext(hdr, p, newptr);
  }

  /** split: carves a free block off the end of p when more than three headers are left over. */
  method Split(hdr0: Headers, tail0: nat, freehead0: nat, p: nat, sz: nat,
               ghost blocks: seq<nat>, ghost frees: seq<nat>, ghost base: nat, ghost brk: nat, ghost k: nat)
    returns (hdr: Headers, tail: nat, freehead: nat)
    requires Shape(hdr0, tail0, freehead0, blocks, frees, base, brk) && k < |blocks| && blocks[k] == p
    requires forall f :: f in frees ==> f in blocks
    ensures p in hdr0 && p in hdr
    ensures hdr0[p].size <= sz + 3 * H ==> hdr == hdr0 && tail == tail0 && freehead == freehead0
    ensures hdr0[p].size > sz + 3 * H ==>
              ghost var n := p + H + sz;
              SplitInto(hdr0, hdr[p := hdr[p].(size := sz, free := false)], p, n, sz)
              && tail == (if hdr0[p].next == 0 then n else tail0)
              && FreeList(hdr, [n] + frees, freehead) && 0 !in hdr
    ensures hdr0[p].size > sz + 3 * H ==> WrittenWithin(hdr0, hdr, Elements(blocks) + {p + H + sz})
  {
    hide BlockList, Layout, FreeList, At, SameCore, SplitInto, Carve, WrittenWithin;
    hdr, tail, freehead := hdr0, tail0, freehead0;
    BlockIn(hdr0, blocks, base, brk, k, p);
    if hdr[p].size <= sz + 3 * H {
      return;
    }
    ghost var n := p + H + sz;
    SplitFits(hdr0, blocks, tail0, base, brk, k, p, n, sz);
    CarveKeepsFree(hdr0, p, n, sz, frees, freehead0);
    ghost var S := Elements(blocks) + {n};
    NextListed(hdr0, blocks, tail0, base, brk, k, p);
    CarveWrites(hdr0, p, n, sz, S);
    var newptr: nat;
    hdr, tail, newptr := CarveBlock(hdr, tail, p, sz);
    ghost var h1 := hdr;
    hdr, freehead := InsertFree(hdr, freehead, newptr, frees);
    assert WrittenWithin(h1, hdr, Elements(frees) + {newptr});
    assert newptr == n;
    assert Elements(frees) + {newptr} <= S;
    WrittenThen(hdr0, h1, hdr, S, Elements(frees) + {newptr}, S);
    CarveSplits(hdr0, hdr, p, n, sz);
    CarveKeys(hdr0, hdr, p, n, sz);
  }

  /** Links l to the right neighbour of r. */
  method BridgeOver(hdr0: Headers, tail0: nat, l: nat, r: nat) returns (hdr: Headers, tail: nat)
    requires BridgeFits(hdr0, l, r)
    ensures hdr == Bridge(hdr0, l, r) && hdr.Keys == hdr0.Keys
    ensures tail == if hdr0[r].next == 0 then l else tail0
  {
    hdr, tail := hdr0, tail0;
    hdr := SetNext(hdr, l, hdr[r].next);
    if hdr[l].next != 0 {
      hdr := SetPrev(hdr, hdr[l].next, l);
    }
    if hdr[l].next == 0 {
      tail := l;
    }
  }

  /** Takes r, the right neighbour of l, out of the block list and clears its links. */
  method CutOut(hdr0: Headers, tail0: nat, l: nat, r: nat) returns (hdr: Headers, tail: nat)
    requires BridgeFits(hdr0, l, r)
    ensures r in Bridge(hdr0, l, r) && hdr == ClearLinks(Bridge(hdr0, l, r), r)
    ensures tail == if hdr0[r].next == 0 then l else tail0
  {
    hide Bridge;
    hdr, tail := BridgeOver(hdr0, tail0, l, r);
    hdr := SetNext(hdr, r, 0);
    hdr := SetPrev(hdr, r, 0);
  }

  /** p absorbs its free right neighbour t, as free and realloc do. */
  method AbsorbNext(hdr0: Headers, tail0: nat, freehead0: nat, p: nat, t: nat,
                    ghost blocks: seq<nat>, ghost frees: seq<nat>, ghost base: nat, ghost brk: nat, ghost k: nat, ghost f: nat)
    returns (hdr: Headers, tail: nat, freehead: nat)
    requires Shape(hdr0, tail0, freehead0, blocks, frees, base, brk)
    requires k + 1 < |blocks| && blocks[k] == p && blocks[k + 1] == t
    requires f < |frees| && frees[f] == t
    ensures Merged(hdr0, hdr, p, t)
    ensures Shape(hdr, tail, freehead, Without(blocks, k + 1), Without(frees, f), base, brk)
    ensures WrittenWithin(hdr0, hdr, Elements(blocks) + Elements(frees))
  {
    MergeNeighbours(hdr0, blocks, tail0, base, brk, k, p, t);
    MergeListed(hdr0, blocks, tail0, base, brk, k, p, t);
    hide BlockList, Layout, FreeList, At, SameCore, Without, Merged, Bridge, WrittenWithin, Elements;
    hdr, tail, freehead := hdr0, tail0, freehead0;
    ghost var v := hdr[p].size + hdr[t].size + H;
    hdr := SetSize(hdr, p, hdr[p].size + hdr[t].size + H);
    SizeKeepsFree(hdr0, p, v, frees, freehead0);
    hdr, freehead := RemoveFree(hdr, freehead, t, frees, f);
    ghost var h1 := hdr;
    FitsBridge(hdr0, h1, blocks, tail0, base, brk, k, p, t);
    SameFields(SetSize(hdr0, p, v), h1, t);
    hdr, tail := CutOut(hdr, tail, p, t);
    RightWrites(hdr0, h1, hdr, v, frees, p, t, Elements(blocks) + Elements(frees));
    AbsorbedRight(hdr0, h1, hdr, blocks, tail0, base, brk, Without(frees, f), freehead, k, p, t);
  }

  /** l absorbs the block r being freed to its right, as free does when the left neighbour is free. */
  method AbsorbIntoPrev(hdr0: Headers, tail0: nat, freehead0: nat, l: nat, r: nat,
                        ghost blocks: seq<nat>, ghost frees: seq<nat>, ghost base: nat, ghost brk: nat, ghost k: nat, ghost f: nat)
    returns (hdr: Headers, tail: nat, freehead: nat)
    requires Shape(hdr0, tail0, freehead0, blocks, frees, base, brk)
    requires k + 1 < |blocks| && blocks[k] == l && blocks[k + 1] == r
    requires f < |frees| && frees[f] == l
    ensures Merged(hdr0, hdr, l, r)
    ensures Shape(hdr, tail, freehead, Without(blocks, k + 1), Without(frees, f), base, brk)
    ensures WrittenWithin(hdr0, hdr, Elements(blocks) + Elements(frees))
  {
    ghost var S := Elements(blocks) + Elements(frees);
    hide BlockList, Layout, FreeList, At, SameCore, Without, Merged, Bridge, WrittenWithin;
    NextListed(hdr0, blocks, tail0, base, brk, k + 1, r);
    MergeNeighbours(hdr0, blocks, tail0, base, brk, k, l, r);
    hdr, tail, freehead := hdr0, tail0, freehead0;
    hdr, freehead := RemoveFree(hdr, freehead, l, frees, f);
    ghost var h1 := hdr;
    FitsBridgeLeft(hdr0, h1, blocks, tail0, base, brk, k, l, r);
    NotWritten(hdr0, S);
    WrittenThen(hdr0, hdr0, h1, S, Elements(frees), S);
    hdr, tail := BridgeOver(hdr, tail, l, r);
    ghost var h2 := hdr;
    hdr := SetSize(hdr, l, hdr[l].size + hdr[r].size + H);
    ghost var h3 := hdr;
    hdr := SetNext(hdr, r, 0);
    hdr := SetPrev(hdr, r, 0);
    NextListed(hdr0, blocks, tail0, base, brk, k, l);
    SameFields(hdr0, h1, r);
    MergeLeftWrites(hdr0, h1, h2, h3, hdr, l, r, S);
    AbsorbedLeft(hdr0, h1, hdr, blocks, tail0, base, brk, Without(frees, f), freehead, k, l, r);
  }

  /** The walk of malloc along the free list. */
  method FindFit(hdr: Headers, freehead: nat, size: nat, ghost frees: seq<nat>) returns (chosen: nat, ghost k: nat)
    requires FreeList(hdr, frees, freehead) && forall f :: f in frees ==> f in hdr
    ensures k == FirstFit(hdr, frees, size)
    ensures chosen == At(frees, FirstFit(hdr, frees, size)) && (chosen == 0 <==> k == |frees|)
  {
    chosen := 0;
    var tmp := freehead;
    k := 0;
    while tmp != 0
      invariant k <= |frees| && tmp == At(frees, k)
      invariant forall i :: 0 <= i < k ==> hdr[frees[i]].size < size
      decreases |frees| - k
    {
      if hdr[tmp].size >= size {
        chosen := tmp;
        FirstFitUnique(hdr, frees, size, k);
        return;
      }
      tmp := hdr[tmp].freenext;
      k := k + 1;
    }
    FirstFitUnique(hdr, frees, size, k);
  }

  lemma FirstFitUnique(hdr: Headers, frees: seq<nat>, size: nat, k: nat)
    requires forall f :: f in frees ==> f in hdr
    requires k <= |frees| && (k < |frees| ==> hdr[frees[k]].size >= size)
    requires forall i :: 0 <= i < k ==> hdr[frees[i]].size < size
    ensures k == FirstFit(hdr, frees, size)
  {
    var j := FirstFit(hdr, frees, size);
    assert !(j < k) && !(k < j);
  }

  /** malloc on a fitting free block: taken off the list, split when large, marked used, cut to the size asked for. */
  method TakeFit(hdr0: Headers, tail0: nat, freehead0: nat, p: nat, size: nat, ghost blocks0: seq<nat>, ghost frees0: seq<nat>,
                 ghost base: nat, ghost brk: nat, ghost lost: nat, ghost f: nat)
    returns (hdr: Headers, tail: nat, freehead: nat, ghost blocks: seq<nat>, ghost frees: seq<nat>)
    requires Good(hdr0, tail0, freehead0, blocks0, frees0, base, brk, lost)
    requires f < |frees0| && frees0[f] == p && p in hdr0 && hdr0[p].size >= size
    ensures Good(hdr, tail, freehead, blocks, frees, base, brk, lost + Dropped(hdr0[p].size, size))
    ensures p !in LiveOf(hdr0, blocks0) && LiveOf(hdr, blocks) == LiveOf(hdr0, blocks0)[p := size]
    ensures p in hdr && hdr[p].ptr == p + H
    ensures WrittenWithin(hdr0, hdr, Elements(blocks0) + Elements(blocks))
  {
    hide BlockList, Layout, FreeList, At, SameCore, Without, SplitInto, Inserted, Taken, NoAdjacentFree, FreeExact, LiveOf, Distinct, Shrunk,
         WrittenWithin, Elements;
    ghost var k := FitIndex(hdr0, blocks0, frees0, f, p);
    FreeDistinct(hdr0, frees0, freehead0);
    hdr, tail, freehead := hdr0, tail0, freehead0;
    hdr, freehead := RemoveFree(hdr, freehead, p, frees0, f);
    ghost var h1, head1 := hdr, freehead;
    ReusedCore(hdr0, h1, tail0, freehead0, blocks0, frees0, base, brk, lost);
    SameFields(hdr0, h1, p);
    RemainInBlocks(blocks0, frees0, f);
    hdr, tail, freehead := Split(hdr, tail, freehead, p, size, blocks0, Without(frees0, f), base, brk, k);
    ghost var h2 := hdr;
    hdr := SetFlag(hdr, p, false);
    hdr := SetSize(hdr, p, size);
    assert hdr == h2[p := h2[p].(size := size, free := false)];
    if hdr0[p].size > size + 3 * H {
      ghost var n := p + H + size;
      blocks, frees := Inserted(blocks0, k + 1, n), [n] + Without(frees0, f);
      SplitFree(h1, h2, hdr, blocks0, frees0, freehead, base, brk, k, f, p, n, size);
      ReusedSplit(hdr0, h1, hdr, tail0, tail, freehead0, freehead, blocks0, frees0, base, brk, lost, k, f, p, n, size);
    } else {
      blocks, frees := blocks0, Without(frees0, f);
      ShrunkBy(h1, hdr, p, size);
      ReusedWhole(hdr0, h1, hdr, tail0, freehead0, freehead, blocks0, frees0, base, brk, lost, k, f, p, size);
    }
    TakeWrites(hdr0, h1, h2, hdr, p, blocks0, frees0, blocks, k, size);
    PayloadAddress(hdr0, h1, blocks0, base, brk, k, p);
    KeptPointer(h1, hdr, p, size);
  }

  // The header writes of taking a fit: the free list, the split, and the header of p itself.
  lemma TakeWrites(h0: Headers, h1: Headers, h2: Headers, h3: Headers, p: nat, blocks0: seq<nat>, frees0: seq<nat>, blocks: seq<nat>,
                   k: nat, size: nat)
    requires WrittenWithin(h0, h1, Elements(frees0)) && forall f :: f in frees0 ==> f in blocks0
    requires k < |blocks0| && blocks0[k] == p && p in h1 && p in h2
    requires h1[p].size <= size + 3 * H ==> h2 == h1
    requires h1[p].size > size + 3 * H ==>
      WrittenWithin(h1, h2, Elements(blocks0) + {p + H + size}) && blocks == Inserted(blocks0, k + 1, p + H + size)
    requires h3 == h2[p := h2[p].(size := size, free := false)]
    ensures WrittenWithin(h0, h3, Elements(blocks0) + Elements(blocks))
  {
    assert p in Elements(blocks0);
    if h1[p].size > size + 3 * H {
      assert blocks[k + 1] == p + H + size;
      assert p + H + size in Elements(blocks);
    }
  }

  /** sbrk has returned the old break: a header for the new block, linked after the last one. */
  method Extend(hdr0: Headers, tail0: nat, size: nat, ghost freehead: nat, ghost blocks: seq<nat>, ghost frees: seq<nat>,
                ghost base: nat, brk: nat, ghost lost: nat)
    returns (hdr: Headers, tail: nat)
    requires Good(hdr0, tail0, freehead, blocks, frees, base, brk, lost)
    ensures Good(hdr, tail, freehead, blocks + [brk], frees, base, brk + H + size, lost)
    ensures brk !in LiveOf(hdr0, blocks) && LiveOf(hdr, blocks + [brk]) == LiveOf(hdr0, blocks)[brk := size]
    ensures brk in hdr && hdr[brk].ptr == brk + H && hdr[brk].size == size
    ensures WrittenWithin(hdr0, hdr, Elements(blocks) + Elements(blocks + [brk]))
  {
    hide Layout, BlockList, FreeList, Taken, NoAdjacentFree, FreeExact, LiveOf, WrittenWithin;
    TailBelow(hdr0, blocks, tail0, base, brk);
    ExtendWrites(hdr0, Header(0, tail0, 0, 0, brk + H, size, false), tail0, blocks, brk);
    hdr, tail := hdr0, tail0;
    var chosen := brk;
    hdr := hdr[chosen := Header(0, tail, 0, 0, chosen + H, size, false)];
    if tail != 0 {
      hdr := SetNext(hdr, tail, chosen);
    }
    tail := chosen;
    AppendedGood(hdr0, hdr, tail0, freehead, blocks, frees, base, brk, lost, size);
  }

  lemma ExtendWrites(hdr: Headers, x: Header, tail: nat, blocks: seq<nat>, brk: nat)
    requires tail != 0 ==> tail in hdr && tail in blocks
    ensures ghost var h := hdr[brk := x];
            WrittenWithin(hdr, if tail != 0 then SetNext(h, tail, brk) else h, Elements(blocks) + Elements(blocks + [brk]))
  {
    assert (blocks + [brk])[|blocks|] == brk;
  }

  /** free, on a free right neighbour of the block being freed: p absorbs it. */
  method JoinRight(hdr0: Headers, tail0: nat, freehead0: nat, p: nat, ghost blocks0: seq<nat>, ghost frees0: seq<nat>,
                   ghost base: nat, ghost brk: nat, ghost lost: nat, ghost k: nat)
    returns (hdr: Headers, tail: nat, freehead: nat, ghost blocks: seq<nat>, ghost frees: seq<nat>)
    requires Freeing(hdr0, tail0, freehead0, blocks0, frees0, base, brk, lost, k, p)
    ensures Freeing(hdr, tail, freehead, blocks, frees, base, brk, lost, k, p)
    ensures k + 1 < |blocks| ==> blocks[k + 1] in hdr && !hdr[blocks[k + 1]].free
    ensures LiveOf(hdr, blocks) == LiveOf(hdr0, blocks0)
    ensures WrittenWithin(hdr0, hdr, Elements(blocks0)) && Elements(blocks) <= Elements(blocks0)
  {
    hide BlockList, Layout, FreeList, At, SameCore, Without, Taken, NoAdjacentFree, FreeExact, LiveOf, Distinct,
         Merged, FreeExactBut, ApartFrom, Accounted, WrittenWithin, Elements;
    hdr, tail, freehead, blocks, frees := hdr0, tail0, freehead0, blocks0, frees0;
    NotWritten(hdr0, Elements(blocks0));
    NextOf(hdr, tail, freehead, blocks, frees, base, brk, lost, k, p);
    var temp := hdr[p].next;
    if temp != 0 && hdr[temp].free {
      ghost var f := ListedAt(hdr, blocks, frees, p, temp);
      hdr, tail, freehead := AbsorbNext(hdr, tail, freehead, p, temp, blocks, frees, base, brk, k, f);
      ReleaseWrites(hdr0, hdr, tail0, freehead0, blocks, frees, base, brk, lost, k, p, Elements(blocks) + Elements(frees));
      WithoutWithin(blocks, k + 1, Elements(blocks0));
      MergedFreeing(hdr0, hdr, tail0, freehead0, tail, freehead, blocks, frees, base, brk, lost, k, p, k, f, p, temp);
      AfterMerge(hdr0, hdr, blocks, base, brk, tail0, freehead0, frees, lost, k, p, temp);
      blocks, frees := Without(blocks, k + 1), Without(frees, f);
    }
  }

  /** free, on a free left neighbour: it absorbs p and is the block being freed from then on. */
  method JoinLeft(hdr0: Headers, tail0: nat, freehead0: nat, p: nat, ghost blocks0: seq<nat>, ghost frees0: seq<nat>,
                  ghost base: nat, ghost brk: nat, ghost lost: nat, ghost k0: nat)
    returns (hdr: Headers, tail: nat, freehead: nat, freed: nat, ghost blocks: seq<nat>, ghost frees: seq<nat>, ghost k: nat)
    requires Freeing(hdr0, tail0, freehead0, blocks0, frees0, base, brk, lost, k0, p)
    requires k0 + 1 < |blocks0| ==> blocks0[k0 + 1] in hdr0 && !hdr0[blocks0[k0 + 1]].free
    ensures Freeing(hdr, tail, freehead, blocks, frees, base, brk, lost, k, freed)
    ensures k > 0 ==> blocks[k - 1] in hdr && !hdr[blocks[k - 1]].free
    ensures k + 1 < |blocks| ==> blocks[k + 1] in hdr && !hdr[blocks[k + 1]].free
    ensures LiveOf(hdr, blocks) == LiveOf(hdr0, blocks0)
    ensures WrittenWithin(hdr0, hdr, Elements(blocks0)) && Elements(blocks) <= Elements(blocks0)
  {
    hide BlockList, Layout, FreeList, At, SameCore, Without, Taken, NoAdjacentFree, FreeExact, LiveOf, Distinct,
         Merged, FreeExactBut, ApartFrom, Accounted, WrittenWithin, Elements;
    hdr, tail, freehead, freed, blocks, frees, k := hdr0, tail0, freehead0, p, blocks0, frees0, k0;
    NotWritten(hdr0, Elements(blocks0));
    NextOf(hdr, tail, freehead, blocks, frees, base, brk, lost, k, p);
    var temp := hdr[p].prev;
    if temp != 0 && hdr[temp].free {
      ghost var f := ListedAt(hdr, blocks, frees, p, temp);
      hdr, tail, freehead := AbsorbIntoPrev(hdr, tail, freehead, temp, p, blocks, frees, base, brk, k - 1, f);
      ReleaseWrites(hdr0, hdr, tail0, freehead0, blocks, frees, base, brk, lost, k, p, Elements(blocks) + Elements(frees));
      WithoutWithin(blocks, k, Elements(blocks0));
      MergedFreeing(hdr0, hdr, tail0, freehead0, tail, freehead, blocks, frees, base, brk, lost, k, p, k - 1, f, temp, p);
      AfterLeftMerge(hdr0, hdr, blocks, base, brk, tail0, freehead0, frees, lost, k, temp, p);
      freed, blocks, frees, k := temp, Without(blocks, k), Without(frees, f), k - 1;
    }
  }

  /** free, past its early exits: p is marked free, merged with free neighbours, and listed. */
  method Release(hdr0: Headers, tail0: nat, freehead0: nat, p: nat, ghost blocks0: seq<nat>, ghost frees0: seq<nat>,
                 ghost base: nat, ghost brk: nat, ghost lost: nat)
    returns (hdr: Headers, tail: nat, freehead: nat, ghost blocks: seq<nat>, ghost frees: seq<nat>)
    requires Good(hdr0, tail0, freehead0, blocks0, frees0, base, brk, lost)
    requires p in blocks0 && p in hdr0 && !hdr0[p].free
    ensures Good(hdr, tail, freehead, blocks, frees, base, brk, lost)
    ensures LiveOf(hdr, blocks) == LiveOf(hdr0, blocks0) - {p}
    ensures WrittenWithin(hdr0, hdr, Elements(blocks0))
  {
    ghost var k: nat :| k < |blocks0| && blocks0[k] == p;
    OneWrite(hdr0, p, hdr0[p].(free := true), Elements(blocks0));
    hide BlockList, Layout, FreeList, At, SameCore, Without, Taken, NoAdjacentFree, FreeExact, LiveOf, Distinct,
         Freeing, WrittenWithin, Elements;
    hdr, tail, freehead := hdr0, tail0, freehead0;
    hdr := SetFlag(hdr, p, true);
    ghost var h1 := hdr;
    StartFreeing(hdr0, tail, freehead, blocks0, frees0, base, brk, lost, k, p);
    hdr, tail, freehead, blocks, frees := JoinRight(hdr, tail, freehead, p, blocks0, frees0, base, brk, lost, k);
    ghost var h2, b2 := hdr, blocks;
    var freed;
    hdr, tail, freehead, freed, blocks, frees, k := JoinLeft(hdr, tail, freehead, p, blocks, frees, base, brk, lost, k);
    ghost var h3, head3 := hdr, freehead;
    Unlisted(hdr, blocks, frees, tail, freehead, base, brk, lost, k, freed);
    hdr, freehead := InsertFree(hdr, freehead, freed, frees);
    ReleaseWrites(h3, hdr, tail, head3, blocks, frees, base, brk, lost, k, freed, Elements(frees) + {freed});
    EndFreeing(h3, hdr, tail, head3, freehead, blocks, frees, base, brk, lost, k, freed);
    WrittenInTurn(hdr0, h1, h2, h3, hdr, Elements(blocks0), Elements(b2), Elements(blocks));
    frees := [freed] + frees;
  }
}
