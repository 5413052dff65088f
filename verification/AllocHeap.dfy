/** The allocator's globals, the three entry points that update them, and whole runs of calls. */
module AllocHeap {
  import opened Basics
  import opened Seqs
  import opened HeapModel
  import opened Alloc

  /** Addresses stay below 2^63. */
  const TOP: nat := 0x8000_0000_0000_0000

  /** What malloc passes to sbrk: a size_t sum, read as an intptr_t. */
  function Increment(size: nat): int {
    var sum := (H + size) % SIZES;
    if sum < TOP then sum else sum - SIZES
  }

  lemma IncrementOf(size: nat)
    requires size < SIZES
    ensures H + size < TOP ==> Increment(size) == H + size
    ensures H + size >= TOP ==> Increment(size) < H
  {}

  /** For 2^64 - 1 bytes malloc asks sbrk for one byte less than a header. */
  lemma LargestRequest()
    ensures Increment(SIZES - 1) == H - 1
  {}

  /** The new block lies below the new break exactly when header and payload together have less than 2^63 bytes. */
  lemma NewBlockFits(hdr: Headers, blocks: seq<nat>, base: nat, brk: nat, size: nat)
    requires Layout(hdr, blocks + [brk], base, brk + H + size) && brk in hdr && hdr[brk].size == size
    requires size < SIZES && base <= brk + Increment(size)
    ensures Layout(hdr, blocks + [brk], base, brk + Increment(size)) <==> H + size < TOP
  {
    IncrementOf(size);
    hide Increment;
    if H + size >= TOP {
      assert (blocks + [brk])[|blocks|] == brk;
      assert End(hdr, brk) > brk + Increment(size);
    }
  }

  /** Every block, and two neighbours together, have less than 2^63 bytes with their headers. */
  lemma BlocksBelowTop(hdr: Headers, blocks: seq<nat>, base: nat, brk: nat)
    requires Layout(hdr, blocks, base, brk) && brk < TOP
    ensures forall b :: b in blocks ==> b in hdr && H + hdr[b].size < TOP
  {}

  lemma NeighboursBelowTop(hdr: Headers, blocks: seq<nat>, base: nat, brk: nat, k: nat)
    requires Layout(hdr, blocks, base, brk) && brk < TOP && k + 1 < |blocks|
    ensures blocks[k] in hdr && blocks[k + 1] in hdr && H + hdr[blocks[k]].size + hdr[blocks[k + 1]].size < TOP
  {
    LayoutPair(hdr, blocks, base, brk, k, k + 1);
    LayoutMember(hdr, blocks, base, brk, k + 1);
  }

  /** Nothing in a good heap fits a request of 2^63 - 56 bytes or more. */
  lemma NothingFits(hdr: Headers, tail: nat, head: nat, blocks: seq<nat>, frees: seq<nat>, base: nat, brk: nat, lost: nat, size: nat)
    requires Good(hdr, tail, head, blocks, frees, base, brk, lost) && brk < TOP && H + size >= TOP
    ensures forall f :: f in frees ==> f in hdr && hdr[f].size < size
  {
    BlocksBelowTop(hdr, blocks, base, brk);
    assert FreeExact(hdr, blocks, frees);
    hide Good, Layout;
  }

  /** So it does not fit in place either, not even together with a right neighbour. */
  lemma NoRoomInPlace(hdr: Headers, tail: nat, head: nat, blocks: seq<nat>, frees: seq<nat>, base: nat, brk: nat, lost: nat,
                      p: nat, size: nat)
    requires Good(hdr, tail, head, blocks, frees, base, brk, lost) && brk < TOP && p in blocks && p in hdr
    ensures hdr[p].next != 0 ==> hdr[p].next in hdr
    ensures H + size >= TOP ==> hdr[p].size < size && (hdr[p].next != 0 ==> hdr[hdr[p].next].size + hdr[p].size < size)
  {
    var k :| 0 <= k < |blocks| && blocks[k] == p;
    BlockNode(hdr, blocks, tail, base, brk, k);
    BlocksBelowTop(hdr, blocks, base, brk);
    if k + 1 < |blocks| {
      NeighboursBelowTop(hdr, blocks, base, brk, k);
    }
  }

  type Bytes = map<nat, bv8>

  /** A byte of memory; one never written reads as 0. */
  function ByteAt(mem: Bytes, a: nat): bv8 {
    if a in mem then mem[a] else 0
  }

  /** The n bytes from address a on. */
  function Region(mem: Bytes, a: nat, n: nat): (r: seq<bv8>)
    ensures |r| == n
  {
    seq(n, i requires 0 <= i < n => ByteAt(mem, a + i))
  }

  /** memcpy of n bytes between ranges that do not overlap. */
  method CopyBytes(mem0: Bytes, dst: nat, src: nat, n: nat) returns (mem: Bytes)
    requires dst + n <= src || src + n <= dst
    ensures forall a: nat {:trigger ByteAt(mem, a)} :: ByteAt(mem, a) == if dst <= a < dst + n then ByteAt(mem0, src + (a - dst)) else ByteAt(mem0, a)
    ensures Region(mem, dst, n) == Region(mem0, src, n)
  {
    mem := mem0;
    var k := 0;
    while k < n
      invariant k <= n
      invariant forall a: nat {:trigger ByteAt(mem, a)} :: ByteAt(mem, a) == if dst <= a < dst + k then ByteAt(mem0, src + (a - dst)) else ByteAt(mem0, a)
    {
      ghost var m := mem;
      mem := mem[dst + k := ByteAt(mem, src + k)];
      assert !(dst <= src + k < dst + k);
      assert ByteAt(m, src + k) == ByteAt(mem0, src + k);
      forall a: nat
        ensures ByteAt(mem, a) == if a == dst + k then ByteAt(mem0, src + k) else ByteAt(m, a)
      {
      }
      k := k + 1;
    }
    SameRegion(mem, mem0, dst, src, n);
  }

  /** Regions are equal when their bytes are. */
  lemma SameRegion(mem1: Bytes, mem0: Bytes, a: nat, b: nat, n: nat)
    requires forall c: nat {:trigger ByteAt(mem1, c)} :: a <= c < a + n ==> ByteAt(mem1, c) == ByteAt(mem0, b + (c - a))
    ensures Region(mem1, a, n) == Region(mem0, b, n)
  {
    forall i | 0 <= i < n
      ensures Region(mem1, a, n)[i] == Region(mem0, b, n)[i]
    {
      assert ByteAt(mem1, a + i) == ByteAt(mem0, b + (a + i - a));
    }
  }

  /** The payloads of the blocks in use, except block x, are the same in both memories. */
  ghost predicate PayloadsKept(live: map<nat, nat>, mem0: Bytes, mem1: Bytes, x: nat) {
    forall b :: b in live && b != x ==> Region(mem1, b + H, live[b]) == Region(mem0, b + H, live[b])
  }

  /** Writing inside the payload of a new block touches no payload that was in use before. */
  lemma CopyKeeps(live0: map<nat, nat>, live: map<nat, nat>, mem0: Bytes, mem1: Bytes, r: nat, n: nat)
    requires r >= H && r - H !in live0 && r - H in live && n <= live[r - H]
    requires forall b :: b in live0 ==> b in live && live[b] == live0[b]
    requires forall q :: q in live && q != r - H ==> r + live[r - H] <= q || q + H + live[q] <= r - H
    requires forall a: nat {:trigger ByteAt(mem1, a)} :: a < r || r + n <= a ==> ByteAt(mem1, a) == ByteAt(mem0, a)
    ensures forall x :: PayloadsKept(live0, mem0, mem1, x)
  {
    forall b | b in live0
      ensures Region(mem1, b + H, live0[b]) == Region(mem0, b + H, live0[b])
    {
      assert b in live && b != r - H;
      SameRegion(mem1, mem0, b + H, b + H, live0[b]);
    }
  }

  lemma NothingMoved(live: map<nat, nat>, mem: Bytes, x: nat)
    ensures PayloadsKept(live, mem, mem, x)
  {
  }

  lemma StoreKeeps(live: map<nat, nat>, mem: Bytes, b: nat, at: nat, value: bv8)
    requires b in live && at < live[b]
    requires forall q :: q in live && q != b ==> b + H + live[b] <= q || q + H + live[q] <= b
    ensures PayloadsKept(live, mem, mem[b + H + at := value], b)
  {
    forall q | q in live && q != b
      ensures Region(mem[b + H + at := value], q + H, live[q]) == Region(mem, q + H, live[q])
    {
      SameRegion(mem[b + H + at := value], mem, q + H, q + H, live[q]);
    }
  }

  /** Copying the n payload bytes at ptr into the new block whose payload is r. */
  method CopyPayload(mem0: Bytes, r: nat, ptr: nat, n: nat, ghost live0: map<nat, nat>, ghost live: map<nat, nat>) returns (mem: Bytes)
    requires r >= H && ptr >= H && r - H !in live0 && ptr - H in live0 && live0[ptr - H] == n
    requires r - H in live && n <= live[r - H] && forall b :: b in live0 ==> b in live && live[b] == live0[b]
    requires forall q :: q in live && q != r - H ==> r + live[r - H] <= q || q + H + live[q] <= r - H
    ensures Region(mem, r, n) == Region(mem0, ptr, n)
    ensures PayloadsKept(live0, mem0, mem, ptr - H)
  {
    assert ptr - H in live && ptr != r;
    mem := CopyBytes(mem0, r, ptr, n);
    CopyKeeps(live0, live, mem0, mem, r, n);
  }

  /** A call that wrote headers of blocks only, from one good state to another, wrote into no payload that stayed in use. */
  lemma CallApart(h0: Headers, h1: Headers, blocks0: seq<nat>, blocks1: seq<nat>, base: nat, brk0: nat, brk1: nat,
                  tail: nat, head: nat, frees: seq<nat>, lost: nat)
    requires Layout(h0, blocks0, base, brk0)
    requires Good(h1, tail, head, blocks1, frees, base, brk1, lost)
    requires WrittenWithin(h0, h1, Elements(blocks0) + Elements(blocks1))
    ensures HeadersApart(h0, h1, LiveOf(h0, blocks0), LiveOf(h1, blocks1))
  {
    WrittenApart(h0, h1, blocks0, blocks1, base, brk0, brk1);
  }

  /** So the heap is good with the break where sbrk has put it exactly when header and payload have less than 2^63 bytes. */
  lemma NewBlockGood(hdr: Headers, tail: nat, head: nat, blocks: seq<nat>, frees: seq<nat>, base: nat, brk: nat, lost: nat, size: nat)
    requires Good(hdr, tail, head, blocks + [brk], frees, base, brk + H + size, lost) && brk in hdr && hdr[brk].size == size
    requires size < SIZES && base <= brk + Increment(size)
    ensures Good(hdr, tail, head, blocks + [brk], frees, base, brk + Increment(size), lost) <==> H + size < TOP
  {
    NewBlockFits(hdr, blocks, base, brk, size);
    IncrementOf(size);
    hide BlockList, Layout, FreeList, FreeExact, NoAdjacentFree, Increment;
  }

  /** The header of a new block at the break, with what that leaves of the heap if the break is moved past the block. */
  method AddBlock(hdr0: Headers, tail0: nat, size: nat, ghost freehead: nat, ghost blocks: seq<nat>, ghost frees: seq<nat>,
                  ghost base: nat, brk: nat, ghost lost: nat)
    returns (hdr: Headers, tail: nat)
    requires Good(hdr0, tail0, freehead, blocks, frees, base, brk, lost)
    ensures Good(hdr, tail, freehead, blocks + [brk], frees, base, brk + H + size, lost)
    ensures brk !in LiveOf(hdr0, blocks) && LiveOf(hdr, blocks + [brk]) == LiveOf(hdr0, blocks)[brk := size]
    ensures brk in hdr && hdr[brk].ptr == brk + H && hdr[brk].size == size
    ensures HeadersApart(hdr0, hdr, LiveOf(hdr0, blocks), LiveOf(hdr, blocks + [brk]))
  {
    hide Good, LiveOf, HeadersApart, WrittenWithin, Layout, FreeList, Elements;
    GoodMembers(hdr0, tail0, freehead, blocks, frees, base, brk, lost);
    hdr, tail := Extend(hdr0, tail0, size, freehead, blocks, frees, base, brk, lost);
    CallApart(hdr0, hdr, blocks, blocks + [brk], base, brk, brk + H + size, tail, freehead, frees, lost);
  }

  /** The block right after p, NULL at the end of the list. */
  function RightOf(blocks: seq<nat>, p: nat): nat {
    if |blocks| < 2 then 0 else if blocks[0] == p then blocks[1] else RightOf(blocks[1..], p)
  }

  lemma {:induction false} RightOfAt(blocks: seq<nat>, k: nat)
    requires k < |blocks| && forall i :: 0 <= i < k ==> blocks[i] != blocks[k]
    ensures RightOf(blocks, blocks[k]) == At(blocks, k + 1)
  {
    if k > 0 {
      RightOfAt(blocks[1..], k - 1);
    }
  }

  /** The block right after p is free, and p reaches the size with it. */
  ghost predicate GrowsOver(hdr: Headers, blocks: seq<nat>, p: nat, size: nat) {
    var n := RightOf(blocks, p);
    p in hdr && n != 0 && n in hdr && hdr[n].free && hdr[p].size + hdr[n].size >= size
  }

  /** The link of p leads to the block right after it. */
  lemma NextIsRight(hdr: Headers, tail: nat, head: nat, blocks: seq<nat>, frees: seq<nat>, base: nat, brk: nat, lost: nat, p: nat)
    requires Good(hdr, tail, head, blocks, frees, base, brk, lost) && p in blocks && p in hdr
    ensures hdr[p].next == RightOf(blocks, p) && (hdr[p].next != 0 ==> hdr[p].next in hdr)
  {
    var k :| 0 <= k < |blocks| && blocks[k] == p;
    BlockNode(hdr, blocks, tail, base, brk, k);
    BlocksDistinct(hdr, blocks, base, brk);
    RightOfAt(blocks, k);
  }

  class Heap {
    var hdr: Headers
    var tail: nat
    var freehead: nat
    var brk: nat            // the program break, which only sbrk moves
    var mem: Bytes          // what the program wrote into its payloads

    var base: nat           // where the break started: sbrk does not lower it further
    ghost var blocks: seq<nat>  // all blocks, in address order
    ghost var frees: seq<nat>   // the free list, from its head
    ghost var lost: nat         // bytes no header accounts for any more

    ghost predicate Valid()
      reads this
    {
      Good(hdr, tail, freehead, blocks, frees, base, brk, lost) && brk < TOP
    }

    /** Block address to payload size, for the blocks in use. */
    ghost function Live(): map<nat, nat>
      reads this
    {
      LiveOf(hdr, blocks)
    }

    constructor (start: nat)
      requires 0 < start < TOP
      ensures Valid() && Live() == map[] && base == brk == start && lost == 0 && blocks == []
    {
      hdr, tail, freehead, brk, mem := map[], 0, 0, start, map[];
      base, blocks, frees, lost := start, [], [], 0;
    }

    /** The operating system moves the break as asked: it is willing, and the new break is in its range. */
    predicate Granted(size: nat, willing: bool)
      reads this
    {
      willing && base <= brk + Increment(size) < TOP
    }

    /** Where malloc finds room: in the first free block that fits, else at the break if that is granted. */
    ghost function RoomFor(size: nat, willing: bool): nat
      requires forall f :: f in frees ==> f in hdr
      reads this
    {
      var k := FirstFit(hdr, frees, size);
      if size == 0 then 0 else if k < |frees| then frees[k] + H else if Granted(size, willing) then brk + H else 0
    }

    /**
     * malloc. When the size together with a header does not fit a signed 64-bit number and sbrk grants what
     * is left of it, the new header lies past the break (ok is false): C leaves undefined what writing it does.
     */
    method Malloc(size: nat, willing: bool) returns (r: nat, ok: bool)
      requires Valid() && size < SIZES
      modifies this
      ensures ok <==> Valid()
      ensures ok <==> !(old(Granted(size, willing)) && H + size >= TOP)
      ensures !ok ==> r == old(brk) + H && brk == old(brk) + Increment(size) < r
      ensures mem == old(mem) && base == old(base) && old(lost) <= lost <= old(lost) + 3 * H
      ensures r == 0 ==> ok && Live() == old(Live()) && lost == old(lost) && brk == old(brk) && (size == 0 || !old(Granted(size, willing)))
      ensures r != 0 ==> r >= H && r - H !in old(Live())
      ensures ok && r != 0 ==> Live() == old(Live())[r - H := size]
      ensures (forall f :: f in old(frees) ==> f in old(hdr))
      ensures r == old(RoomFor(size, willing))
      ensures ok ==> HeadersApart(old(hdr), hdr, old(Live()), Live())
      ensures ghost var k := FirstFit(old(hdr), old(frees), size);
              size > 0 && k < |old(frees)| ==>
                ok && r == old(frees)[k] + H && brk == old(brk)
                && lost == old(lost) + Dropped(old(hdr)[old(frees)[k]].size, size)
      ensures ghost var k := FirstFit(old(hdr), old(frees), size);
              size > 0 && k == |old(frees)| ==>
                lost == old(lost)
                && (if old(Granted(size, willing)) then r == old(brk) + H && brk == old(brk) + Increment(size) else r == 0)
    {
      hide Good, FreeList, LiveOf, Dropped, FirstFit, HeadersApart, WrittenWithin, Increment;
      DroppedBound();
      NoneWritten(hdr, Live());
      GoodMembers(hdr, tail, freehead, blocks, frees, base, brk, lost);
      if size == 0 {
        return 0, true;
      }
      var chosen, k := FindFit(hdr, freehead, size, frees);
      if chosen != 0 {
        if H + size >= TOP {
          NothingFits(hdr, tail, freehead, blocks, frees, base, brk, lost, size);
          assert false;
        }
        ghost var have := hdr[chosen].size;
        ghost var blocks1, frees1;
        hdr, tail, freehead, blocks1, frees1 := TakeFit(hdr, tail, freehead, chosen, size, blocks, frees, base, brk, lost, k);
        CallApart(old(hdr), hdr, old(blocks), blocks1, base, old(brk), brk, tail, freehead, frees1, lost + Dropped(have, size));
        blocks, frees, lost := blocks1, frees1, lost + Dropped(have, size);
        return hdr[chosen].ptr, true;
      }
      if !Granted(size, willing) {
        return 0, true;
      }
      r, ok := NewBlock(size);
    }

    /** The end of malloc, with the break moved by Increment(size). */
    method NewBlock(size: nat) returns (r: nat, ok: bool)
      requires Valid() && size < SIZES && base <= brk + Increment(size) < TOP
      modifies this
      ensures ok <==> Valid()
      ensures ok <==> H + size < TOP
      ensures r == old(brk) + H && brk == old(brk) + Increment(size)
      ensures !ok ==> brk < r
      ensures mem == old(mem) && base == old(base) && lost == old(lost)
      ensures r - H !in old(Live())
      ensures ok ==> Live() == old(Live())[r - H := size]
      ensures ok ==> HeadersApart(old(hdr), hdr, old(Live()), Live())
    {
      hide Good, LiveOf, HeadersApart, Increment;
      IncrementOf(size);
      var hdr1, tail1 := AddBlock(hdr, tail, size, freehead, blocks, frees, base, brk, lost);
      NewBlockGood(hdr1, tail1, freehead, blocks, frees, base, brk, lost, size);
      r, ok := hdr1[brk].ptr, H + size < TOP;
      hdr, tail, blocks, brk := hdr1, tail1, blocks + [brk], brk + Increment(size);
      // within the range the final split(chosen, size) finds nothing left over
    }

    /** free, of NULL or of a block the list knows; a block already free is left alone. */
    method Free(ptr: nat)
      requires Valid() && (ptr != 0 ==> ptr >= H && ptr - H in blocks)
      modifies this
      ensures Valid() && mem == old(mem) && base == old(base) && brk == old(brk) && lost == old(lost)
      ensures Live() == if ptr == 0 then old(Live()) else old(Live()) - {ptr - H}
      ensures HeadersApart(old(hdr), hdr, old(Live()), Live())
    {
      hide Good, LiveOf, HeadersApart, WrittenWithin;
      NoneWritten(hdr, Live());
      GoodMembers(hdr, tail, freehead, blocks, frees, base, brk, lost);
      if ptr == 0 {
        return;
      }
      var p := ptr - H;
      FreeNotLive(hdr, blocks, p);
      if hdr[p].free {
        return;
      }
      ghost var blocks1, frees1;
      hdr, tail, freehead, blocks1, frees1 := Release(hdr, tail, freehead, p, blocks, frees, base, brk, lost);
      NotWritten(hdr, Elements(blocks1));
      WrittenThen(old(hdr), hdr, hdr, Elements(blocks), Elements(blocks1), Elements(blocks) + Elements(blocks1));
      CallApart(old(hdr), hdr, blocks, blocks1, base, brk, brk, tail, freehead, frees1, lost);
      blocks, frees := blocks1, frees1;
    }

    /**
     * realloc: in place exactly when the block, or it and a free right neighbour, reach the size; otherwise by
     * moving to where malloc finds room. In place sbrk is not asked, and nothing moves.
     */
    method Realloc(ptr: nat, size: nat, willing: bool) returns (r: nat, ok: bool)
      requires Valid() && size < SIZES
      requires ptr != 0 ==> ptr >= H && ptr - H in Live()
      modifies this
      ensures ok <==> Valid()
      ensures ok <==> !(old(Granted(size, willing)) && H + size >= TOP)
      ensures !ok ==> r == old(brk) + H && brk == old(brk) + Increment(size) < r && mem == old(mem)
      ensures base == old(base) && old(lost) <= lost <= old(lost) + 3 * H
      ensures (forall f :: f in old(frees) ==> f in old(hdr)) && (ptr != 0 ==> ptr - H in old(hdr))
      // no block yet
      ensures ptr == 0 ==> r == old(RoomFor(size, willing)) && mem == old(mem)
      ensures ptr == 0 && r == 0 ==> Live() == old(Live())
      ensures ok && ptr == 0 && r != 0 ==> r >= H && r - H !in old(Live()) && Live() == old(Live())[r - H := size]
      // free
      ensures ptr != 0 && size == 0 ==> r == 0 && Live() == old(Live()) - {ptr - H} && mem == old(mem) && brk == old(brk)
      // in place
      ensures ptr != 0 && size > 0 ==>
                (r == ptr <==> old(hdr)[ptr - H].size >= size || GrowsOver(old(hdr), old(blocks), ptr - H, size))
      ensures ptr != 0 && size > 0 && r == ptr ==> ok && mem == old(mem) && brk == old(brk) && lost == old(lost)
      ensures ptr != 0 && size > 0 && old(hdr)[ptr - H].size >= size ==> Live() == old(Live())
      ensures ptr != 0 && old(hdr)[ptr - H].size < size && GrowsOver(old(hdr), old(blocks), ptr - H, size) ==>
                Live() == old(Live())[ptr - H := old(hdr)[ptr - H].size + old(hdr)[RightOf(old(blocks), ptr - H)].size + H]
      // moved, or refused
      ensures ptr != 0 && size > 0 && r != ptr ==> r == old(RoomFor(size, willing))
      ensures ptr != 0 && size > 0 && r == 0 ==> Live() == old(Live()) && mem == old(mem) && brk == old(brk)
      ensures ok && ptr != 0 && r != 0 && r != ptr ==>
                r >= H && r - H !in old(Live()) && Live() == old(Live())[r - H := size] - {ptr - H}
      // in each case
      ensures ok && ptr != 0 && r != 0 ==>
                size > 0 && r >= H && r - H in Live() && Live()[r - H] >= size && Live() - {r - H} == old(Live()) - {ptr - H}
      ensures ok && ptr != 0 && r != 0 ==>
                ghost var n := Min(size, old(Live())[ptr - H]); Region(mem, r, n) == Region(old(mem), ptr, n)
      ensures ok ==> PayloadsKept(old(Live()), old(mem), mem, if ptr < H then 0 else ptr - H)
      ensures ok ==> HeadersApart(old(hdr), hdr, old(Live()), Live())
    {
      hide Good, LiveOf, Dropped, Region, PayloadsKept, FirstFit, ByteAt, HeadersApart, Increment, Layout, FreeList, RightOf;
      NoneWritten(hdr, Live());
      GoodMembers(hdr, tail, freehead, blocks, frees, base, brk, lost);
      NothingMoved(Live(), mem, if ptr < H then 0 else ptr - H);
      if ptr == 0 {
        r, ok := Malloc(size, willing);
        return;
      }
      var p := ptr - H;
      LiveMember(hdr, blocks, p);
      if size == 0 {
        Free(ptr);
        return 0, true;
      }
      LivePositive(hdr, tail, freehead, blocks, frees, base, brk, lost, p);
      NoRoomInPlace(hdr, tail, freehead, blocks, frees, base, brk, lost, p, size);
      NextIsRight(hdr, tail, freehead, blocks, frees, base, brk, lost, p);
      var oldsz := hdr[p].size;
      if oldsz >= size {
        return ptr, true;
      }
      var next := hdr[p].next;
      if next != 0 && hdr[next].size + oldsz >= size && hdr[next].free {
        r := Grow(p, next);
        return r, true;
      }
      r, ok := Move(ptr, size, oldsz, willing);
    }

    /** The in-place growth of realloc. */
    method Grow(p: nat, next: nat) returns (r: nat)
      requires Valid() && p in Live() && p in hdr && hdr[p].next == next && next in hdr && next != 0 && hdr[next].free
      modifies this
      ensures Valid() && base == old(base) && lost == old(lost) && brk == old(brk) && mem == old(mem)
      ensures r == p + H && r != 0 && Live() == old(Live())[p := old(hdr)[p].size + old(hdr)[next].size + H]
      ensures HeadersApart(old(hdr), hdr, old(Live()), Live())
    {
      hide BlockList, Layout, FreeList, FreeExact, Taken, NoAdjacentFree, Without, Merged, LiveOf, Accounted, HeadersApart, WrittenWithin,
           Elements;
      ghost var k, f := GrowIndices(hdr, tail, freehead, blocks, frees, base, brk, lost, p, next);
      ghost var h0, t0, f0 := hdr, tail, freehead;
      hdr, tail, freehead := AbsorbNext(hdr, tail, freehead, p, next, blocks, frees, base, brk, k, f);
      GrownGood(h0, hdr, t0, f0, tail, freehead, blocks, frees, base, brk, lost, k, f, p, next);
      GrowWrites(h0, hdr, t0, f0, blocks, frees, base, brk, lost, Without(blocks, k + 1));
      CallApart(h0, hdr, blocks, Without(blocks, k + 1), base, brk, brk, tail, freehead, Without(frees, f), lost);
      blocks, frees := Without(blocks, k + 1), Without(frees, f);
      r := hdr[p].ptr;
    }

    /** The moving case of realloc: a new block, the old contents copied, the old block freed. */
    method Move(ptr: nat, size: nat, oldsz: nat, willing: bool) returns (r: nat, ok: bool)
      requires Valid() && size < SIZES
      requires ptr >= H && ptr - H in Live() && Live()[ptr - H] == oldsz < size
      modifies this
      ensures ok <==> Valid()
      ensures ok <==> !(old(Granted(size, willing)) && H + size >= TOP)
      ensures !ok ==> r == old(brk) + H && brk == old(brk) + Increment(size) < r && mem == old(mem)
      ensures base == old(base) && old(lost) <= lost <= old(lost) + 3 * H
      ensures (forall f :: f in old(frees) ==> f in old(hdr)) && r == old(RoomFor(size, willing))
      ensures r == 0 ==> ok && Live() == old(Live()) && mem == old(mem) && brk == old(brk)
      ensures r != 0 ==> r >= H && r - H !in old(Live())
      ensures ok && r != 0 ==> Live() == old(Live())[r - H := size] - {ptr - H}
      ensures ok && r != 0 ==> Region(mem, r, oldsz) == Region(old(mem), ptr, oldsz)
      ensures ok ==> PayloadsKept(old(Live()), old(mem), mem, ptr - H)
      ensures ok ==> HeadersApart(old(hdr), hdr, old(Live()), Live())
    {
      hide Good, LiveOf, Dropped, FirstFit, Region, PayloadsKept, ByteAt, HeadersApart, Increment;
      ghost var live0 := Live();
      NothingMoved(live0, mem, ptr - H);
      GoodMembers(hdr, tail, freehead, blocks, frees, base, brk, lost);
      r, ok := Malloc(size, willing);
      if r == 0 || !ok {
        return;
      }
      ghost var hdr1, live1 := hdr, Live();
      MovedApart(hdr, tail, freehead, blocks, frees, base, brk, lost, r - H);
      LiveMember(hdr, blocks, ptr - H);
      mem := CopyPayload(mem, r, ptr, oldsz, live0, live1);
      Free(ptr);
      ApartThen(old(hdr), hdr1, hdr, live0, live1, Live());
      assert live1 - {ptr - H} == live0[r - H := size] - {ptr - H};
    }

    /** The client program stores a byte in the payload of block b, at an offset. */
    method Store(b: nat, at: nat, value: bv8)
      requires Valid() && b in Live() && at < Live()[b]
      modifies this
      ensures Valid() && Live() == old(Live()) && lost == old(lost)
      ensures mem == old(mem)[b + H + at := value]
      ensures PayloadsKept(Live(), old(mem), mem, b)
    {
      hide Good, LiveOf, PayloadsKept;
      MovedApart(hdr, tail, freehead, blocks, frees, base, brk, lost, b);
      mem := mem[b + H + at := value];
      StoreKeeps(Live(), old(mem), b, at, value);
    }
  }

  // ----- whole runs

  /** A call of a client program, or a store of a byte into a payload it holds; slot n is the pointer that call n left it with. */
  datatype Call =
    | CallMalloc(size: nat, willing: bool)
    | CallFree(slot: nat)
    | CallRealloc(slot: nat, size: nat, willing: bool)
    | CallStore(slot: nat, at: nat, value: bv8)

  /** For each slot the pointer, the size asked for, and the bytes that have been stored and must still be there. */
  datatype Client = Client(ptrs: seq<nat>, wanted: seq<nat>, bytes: seq<map<nat, bv8>>)

  /** Every pointer a client holds is a payload in use, each once and each as large as asked for. */
  ghost predicate Owned(live: map<nat, nat>, ptrs: seq<nat>, wanted: seq<nat>) {
    && |ptrs| == |wanted|
    && (forall i :: 0 <= i < |ptrs| && ptrs[i] != 0 ==> ptrs[i] >= H && ptrs[i] - H in live && live[ptrs[i] - H] >= wanted[i])
    && (forall i, j :: 0 <= i < j < |ptrs| && ptrs[i] != 0 ==> ptrs[i] != ptrs[j])
  }

  /** Every payload in use belongs to some pointer of the client. */
  ghost predicate NoneLeaked(live: map<nat, nat>, ptrs: seq<nat>) {
    forall b :: b in live ==> b + H in ptrs
  }

  ghost predicate Holds(live: map<nat, nat>, ptrs: seq<nat>, wanted: seq<nat>) {
    Owned(live, ptrs, wanted) && NoneLeaked(live, ptrs)
  }

  lemma HoldsNew(live0: map<nat, nat>, live: map<nat, nat>, ptrs: seq<nat>, wanted: seq<nat>, r: nat, size: nat)
    requires Holds(live0, ptrs, wanted) && r >= H && r - H !in live0 && live == live0[r - H := size]
    ensures Holds(live, ptrs + [r], wanted + [size])
  {
    assert Owned(live, ptrs + [r], wanted + [size]) by { hide NoneLeaked; }
    assert NoneLeaked(live, ptrs + [r]) by { hide Owned; }
  }

  lemma HoldsNull(live: map<nat, nat>, ptrs: seq<nat>, wanted: seq<nat>)
    requires Holds(live, ptrs, wanted)
    ensures Holds(live, ptrs + [0], wanted + [0])
  {
    assert Owned(live, ptrs + [0], wanted + [0]) by { hide NoneLeaked; }
    assert NoneLeaked(live, ptrs + [0]) by { hide Owned; }
  }

  lemma HoldsLess(live0: map<nat, nat>, live: map<nat, nat>, ptrs: seq<nat>, wanted: seq<nat>, i: nat)
    requires Holds(live0, ptrs, wanted) && i < |ptrs| && ptrs[i] != 0 && live == live0 - {ptrs[i] - H}
    ensures Holds(live, ptrs[i := 0], wanted)
  {
    hide NoneLeaked, Owned;
    HeldPointer(live0, ptrs, wanted, i);
    OwnedElsewhere(live0, live, ptrs, wanted, i, 0, wanted[i]);
    assert wanted[i := wanted[i]] == wanted;
    StillReached(live0, live, ptrs, i, 0);
  }

  lemma HoldsMoved(live0: map<nat, nat>, live: map<nat, nat>, ptrs: seq<nat>, wanted: seq<nat>, i: nat, r: nat, size: nat)
    requires Holds(live0, ptrs, wanted) && i < |ptrs| && ptrs[i] != 0 && r >= H && r != 0
    requires r - H in live && live[r - H] >= size && live - {r - H} == live0 - {ptrs[i] - H} && (r == ptrs[i] || r - H !in live0)
    ensures Holds(live, ptrs[i := r], wanted[i := size])
  {
    hide NoneLeaked, Owned;
    HeldPointer(live0, ptrs, wanted, i);
    OwnedElsewhere(live0, live, ptrs, wanted, i, r, size);
    StillReached(live0, live, ptrs, i, r);
  }

  /** Slot i gives up its payload for r (or for NULL); the other slots keep theirs. */
  lemma OwnedElsewhere(live0: map<nat, nat>, live: map<nat, nat>, ptrs: seq<nat>, wanted: seq<nat>, i: nat, r: nat, size: nat)
    requires Owned(live0, ptrs, wanted) && i < |ptrs| && ptrs[i] != 0
    requires r != 0 ==> r >= H && r - H in live && live[r - H] >= size && (r == ptrs[i] || r - H !in live0)
    requires r != 0 ==> live - {r - H} == live0 - {ptrs[i] - H}
    requires r == 0 ==> live == live0 - {ptrs[i] - H}
    ensures Owned(live, ptrs[i := r], wanted[i := size])
  {
    var t := ptrs[i := r];
    forall j | 0 <= j < |t| && j != i && t[j] != 0
      ensures t[j] >= H && t[j] - H in live && live[t[j] - H] >= wanted[j] && t[j] != r
    {
      KeptEntry(live0, live, ptrs[i] - H, r, ptrs[j] - H);
    }
  }

  lemma KeptEntry(live0: map<nat, nat>, live: map<nat, nat>, gone: nat, r: nat, b: nat)
    requires b in live0 && b != gone
    requires r != 0 ==> r >= H && live - {r - H} == live0 - {gone} && (r - H == gone || r - H !in live0)
    requires r == 0 ==> live == live0 - {gone}
    ensures b in live && live[b] == live0[b] && b + H != r
  {
    assert b in live0 - {gone};
    if r != 0 {
      assert b in live - {r - H};
      assert live[b] == (live - {r - H})[b];
    }
  }

  lemma StillReached(live0: map<nat, nat>, live: map<nat, nat>, ptrs: seq<nat>, i: nat, r: nat)
    requires NoneLeaked(live0, ptrs) && i < |ptrs| && ptrs[i] >= H
    requires r != 0 ==> r >= H && live - {r - H} == live0 - {ptrs[i] - H}
    requires r == 0 ==> live == live0 - {ptrs[i] - H}
    ensures NoneLeaked(live, ptrs[i := r])
  {
    var t := ptrs[i := r];
    forall b | b in live
      ensures b + H in t
    {
      assert t[i] == r;
      if r == 0 || b != r - H {
        assert b in live0 - {ptrs[i] - H};
        var j :| 0 <= j < |ptrs| && ptrs[j] == b + H;
        assert t[j] == b + H;
      }
    }
  }

  // ----- what a client knows

  predicate Aligned(c: Client) {
    |c.ptrs| == |c.wanted| == |c.bytes|
  }

  predicate Held(c: Client, slot: nat) {
    slot < |c.ptrs| && c.ptrs[slot] != 0
  }

  function Opened(c: Client, r: nat, size: nat): Client {
    Client(c.ptrs + [r], c.wanted + [size], c.bytes + [map[]])
  }

  function Emptied(c: Client, i: nat): Client
    requires Aligned(c) && i < |c.ptrs|
  {
    Client(c.ptrs[i := 0], c.wanted, c.bytes[i := map[]])
  }

  function Resized(c: Client, i: nat, r: nat, size: nat): Client
    requires Aligned(c) && i < |c.ptrs|
  {
    Client(c.ptrs[i := r], c.wanted[i := size], c.bytes[i := map k | k in c.bytes[i] && k < size :: c.bytes[i][k]])
  }

  function Stored(c: Client, i: nat, at: nat, value: bv8): Client
    requires Aligned(c) && i < |c.ptrs|
  {
    var bytes: map<nat, bv8> := c.bytes[i][at := value];
    c.(bytes := c.bytes[i := bytes])
  }

  /** The client after a call that returned r. Each call opens a slot; a call on an empty slot passes NULL. */
  function AfterCall(c: Client, call: Call, r: nat): (d: Client)
    requires Aligned(c)
    ensures Aligned(d) && |d.ptrs| == |c.ptrs| + 1
  {
    match call
    case CallMalloc(size, _) => Opened(c, r, if r != 0 then size else 0)
    case CallFree(slot) => Opened(if Held(c, slot) then Emptied(c, slot) else c, 0, 0)
    case CallRealloc(slot, size, _) =>
      if !Held(c, slot) then Opened(c, r, if r != 0 then size else 0)
      else if r != 0 then Opened(Resized(c, slot, r, size), 0, 0)
      else if size == 0 then Opened(Emptied(c, slot), 0, 0)
      else Opened(c, 0, 0)
    case CallStore(slot, at, value) =>
      Opened(if Held(c, slot) && at < c.wanted[slot] then Stored(c, slot, at, value) else c, 0, 0)
  }

  const NOBODY := Client([], [], [])

  /** The client after all these calls and what they returned. */
  function Replay(calls: seq<Call>, results: seq<nat>): (c: Client)
    requires |calls| == |results|
    ensures Aligned(c) && |c.ptrs| == |calls|
  {
    if calls == [] then NOBODY
    else AfterCall(Replay(calls[..|calls| - 1], results[..|calls| - 1]), calls[|calls| - 1], results[|calls| - 1])
  }

  /** The memory holds, for each slot, every byte the client stored there and did not give up. */
  ghost predicate Remembers(mem: Bytes, c: Client)
    requires Aligned(c)
  {
    forall i, k :: 0 <= i < |c.ptrs| && k in c.bytes[i] ==>
      c.ptrs[i] != 0 && k < c.wanted[i] && ByteAt(mem, c.ptrs[i] + k) == c.bytes[i][k]
  }

  /** Every payload held before, except that of slot x, is held at the same place with the same contents. */
  ghost predicate OthersKept(mem0: Bytes, mem1: Bytes, c: Client, d: Client, x: int)
    requires Aligned(c) && Aligned(d)
  {
    |c.ptrs| <= |d.ptrs|
    && forall i :: 0 <= i < |c.ptrs| && i != x && c.ptrs[i] != 0 ==>
         d.ptrs[i] == c.ptrs[i] && Region(mem1, c.ptrs[i], c.wanted[i]) == Region(mem0, c.ptrs[i], c.wanted[i])
  }

  /** The slot a call is about, if any. */
  function Subject(call: Call): int {
    if call.CallMalloc? then -1 else call.slot
  }

  lemma RegionPrefix(mem0: Bytes, mem1: Bytes, a: nat, b: nat, n: nat, m: nat)
    requires Region(mem1, a, n) == Region(mem0, b, n) && m <= n
    ensures Region(mem1, a, m) == Region(mem0, b, m)
    ensures forall c: nat {:trigger ByteAt(mem1, c)} :: a <= c < a + m ==> ByteAt(mem1, c) == ByteAt(mem0, b + (c - a))
  {
    forall c: nat | a <= c < a + m
      ensures ByteAt(mem1, c) == ByteAt(mem0, b + (c - a))
    {
      assert Region(mem1, a, n)[c - a] == Region(mem0, b, n)[c - a];
    }
    SameRegion(mem1, mem0, a, b, m);
  }

  lemma SameByte(mem0: Bytes, mem1: Bytes, a: nat, n: nat, k: nat)
    requires Region(mem1, a, n) == Region(mem0, a, n) && k < n
    ensures ByteAt(mem1, a + k) == ByteAt(mem0, a + k)
  {
    assert Region(mem1, a, n)[k] == Region(mem0, a, n)[k];
  }

  /** Other payloads in use keep their contents, so the slots other than that of block x do. */
  lemma SlotsKept(live: map<nat, nat>, mem0: Bytes, mem1: Bytes, c: Client, d: Client, i: int, x: nat)
    requires Aligned(c) && Aligned(d) && |c.ptrs| <= |d.ptrs|
    requires Owned(live, c.ptrs, c.wanted) && PayloadsKept(live, mem0, mem1, x)
    requires forall j :: 0 <= j < |c.ptrs| && j != i && c.ptrs[j] != 0 ==> c.ptrs[j] != x + H && d.ptrs[j] == c.ptrs[j]
    ensures OthersKept(mem0, mem1, c, d, i)
  {
    hide Region, ByteAt;
    forall j | 0 <= j < |c.ptrs| && j != i && c.ptrs[j] != 0
      ensures d.ptrs[j] == c.ptrs[j] && Region(mem1, c.ptrs[j], c.wanted[j]) == Region(mem0, c.ptrs[j], c.wanted[j])
    {
      var b := c.ptrs[j] - H;
      assert b in live && b != x;
      RegionPrefix(mem0, mem1, b + H, b + H, live[b], c.wanted[j]);
    }
  }

  lemma NothingStored(mem: Bytes, c: Client, d: Client, x: int)
    requires Aligned(c) && Aligned(d) && |c.ptrs| <= |d.ptrs|
    requires forall j :: 0 <= j < |c.ptrs| && j != x ==> d.ptrs[j] == c.ptrs[j]
    ensures OthersKept(mem, mem, c, d, x)
  {}

  lemma RemembersOpened(mem: Bytes, c: Client, r: nat, size: nat)
    requires Aligned(c) && Remembers(mem, c)
    ensures Remembers(mem, Opened(c, r, size))
  {
    hide ByteAt;
  }

  lemma RemembersEmptied(mem: Bytes, c: Client, i: nat)
    requires Aligned(c) && i < |c.ptrs| && Remembers(mem, c)
    ensures Remembers(mem, Emptied(c, i))
  {
    hide ByteAt;
  }

  lemma RemembersOthers(mem0: Bytes, mem1: Bytes, c: Client, d: Client, i: nat)
    requires Aligned(c) && Aligned(d) && i < |c.ptrs| == |d.ptrs| && Remembers(mem0, c) && OthersKept(mem0, mem1, c, d, i)
    requires forall j :: 0 <= j < |c.ptrs| && j != i ==> d.wanted[j] == c.wanted[j] && d.bytes[j] == c.bytes[j]
    requires forall k :: k in d.bytes[i] ==>
               d.ptrs[i] != 0 && k < d.wanted[i] && ByteAt(mem1, d.ptrs[i] + k) == d.bytes[i][k]
    ensures Remembers(mem1, d)
  {
    hide ByteAt, Region;
    forall j, k | 0 <= j < |d.ptrs| && k in d.bytes[j]
      ensures d.ptrs[j] != 0 && k < d.wanted[j] && ByteAt(mem1, d.ptrs[j] + k) == d.bytes[j][k]
    {
      if j != i {
        SameByte(mem0, mem1, c.ptrs[j], c.wanted[j], k);
      }
    }
  }

  lemma RemembersResized(mem0: Bytes, mem1: Bytes, c: Client, i: nat, r: nat, size: nat, have: nat)
    requires Aligned(c) && Held(c, i) && r != 0 && c.wanted[i] <= have && Remembers(mem0, c)
    requires Region(mem1, r, Min(size, have)) == Region(mem0, c.ptrs[i], Min(size, have))
    requires OthersKept(mem0, mem1, c, Resized(c, i, r, size), i)
    ensures Remembers(mem1, Resized(c, i, r, size))
  {
    hide ByteAt, Region, OthersKept;
    RegionPrefix(mem0, mem1, r, c.ptrs[i], Min(size, have), Min(size, have));
    RemembersOthers(mem0, mem1, c, Resized(c, i, r, size), i);
  }

  lemma RemembersStored(mem: Bytes, c: Client, i: nat, at: nat, value: bv8)
    requires Aligned(c) && Held(c, i) && at < c.wanted[i] && Remembers(mem, c)
    requires OthersKept(mem, mem[c.ptrs[i] + at := value], c, Stored(c, i, at, value), i)
    ensures Remembers(mem[c.ptrs[i] + at := value], Stored(c, i, at, value))
  {
    hide Region, OthersKept;
    RemembersOthers(mem, mem[c.ptrs[i] + at := value], c, Stored(c, i, at, value), i);
  }

  /** A stored byte is known until its slot is freed or made smaller, or the same byte is stored again. */
  lemma StaysKnown(c: Client, call: Call, r: nat, i: nat, k: nat)
    requires Aligned(c) && Held(c, i) && k in c.bytes[i]
    requires call.CallFree? ==> call.slot != i
    requires call.CallRealloc? && call.slot == i ==> k < call.size
    requires call.CallStore? && call.slot == i ==> call.at != k
    ensures k in AfterCall(c, call, r).bytes[i] && AfterCall(c, call, r).bytes[i][k] == c.bytes[i][k]
  {}

  /** And it is known from the store on. */
  lemma StoreIsKnown(c: Client, call: Call, r: nat)
    requires Aligned(c) && call.CallStore? && Held(c, call.slot) && call.at < c.wanted[call.slot]
    ensures ghost var bytes := AfterCall(c, call, r).bytes[call.slot]; call.at in bytes && bytes[call.at] == call.value
  {}

  // ----- the runs

  /** A size that does not fit a signed 64-bit number together with a header. */
  predicate Oversized(call: Call) {
    (call.CallMalloc? || call.CallRealloc?) && H + call.size >= TOP
  }

  ghost predicate Serves(heap: Heap, c: Client)
    requires Aligned(c)
    reads heap
  {
    Holds(heap.Live(), c.ptrs, c.wanted) && Remembers(heap.mem, c)
  }

  /**
   * Any sequence of calls from an empty heap, up to the first whose header comes to lie past the break
   * (ok is false). Each pointer held is a different payload, large enough, nothing is leaked, and what the
   * client stored it finds again.
   */
  method Run(start: nat, calls: seq<Call>) returns (heap: Heap, c: Client, results: seq<nat>, ok: bool)
    requires 0 < start < TOP
    requires forall call :: call in calls ==> (call.CallMalloc? || call.CallRealloc?) ==> call.size < SIZES
    ensures fresh(heap)
    ensures ok <==> heap.Valid()
    ensures ok ==> |results| == |calls| && c == Replay(calls, results) && Serves(heap, c)
    ensures ok ==> heap.lost <= 3 * H * |calls|
    ensures !ok ==> 0 < |results| <= |calls| && Oversized(calls[|results| - 1])
  {
    hide Good, LiveOf, Serves, AfterCall, Replay, Oversized;
    heap := new Heap(start);
    c, results, ok := NOBODY, [], true;
    StartHolds(heap);
    var n := 0;
    assert calls[..0] == [];
    while n < |calls|
      invariant 0 <= n == |results| <= |calls| && ok
      invariant c == Replay(calls[..n], results)
      invariant fresh(heap) && heap.Valid() && Serves(heap, c)
      invariant heap.lost <= 3 * H * n
    {
      assert calls[n] in calls;
      ghost var before := results;
      var r;
      c, r, ok := Perform(heap, calls[n], c);
      results := results + [r];
      if !ok {
        return;
      }
      ReplayMore(calls[..n], before, calls[n], r);
      assert calls[..n] + [calls[n]] == calls[..n + 1];
      n := n + 1;
    }
    assert calls[..n] == calls;
  }

  lemma ReplayMore(calls: seq<Call>, results: seq<nat>, call: Call, r: nat)
    requires |calls| == |results|
    ensures Replay(calls + [call], results + [r]) == AfterCall(Replay(calls, results), call, r)
  {
    hide AfterCall;
    assert (calls + [call])[..|calls|] == calls && (results + [r])[..|calls|] == results;
  }

  lemma StartHolds(heap: Heap)
    requires heap.Live() == map[]
    ensures Serves(heap, NOBODY)
  {
  }

  lemma HeldPointer(live: map<nat, nat>, ptrs: seq<nat>, wanted: seq<nat>, i: nat)
    requires Holds(live, ptrs, wanted) && i < |ptrs| && ptrs[i] != 0
    ensures |ptrs| == |wanted| && ptrs[i] >= H && ptrs[i] - H in live
  {
  }

  /** What a call leaves: the client is served, and the other slots keep their contents. */
  ghost predicate Outcome(live: map<nat, nat>, mem0: Bytes, mem: Bytes, c: Client, d: Client, x: int)
    requires Aligned(c) && Aligned(d)
  {
    Holds(live, d.ptrs, d.wanted) && Remembers(mem, d) && OthersKept(mem0, mem, c, d, x)
  }

  lemma OutcomeMeans(live: map<nat, nat>, mem0: Bytes, mem: Bytes, c: Client, d: Client, x: int)
    requires Aligned(c) && Aligned(d) && Outcome(live, mem0, mem, c, d, x)
    ensures Holds(live, d.ptrs, d.wanted) && Remembers(mem, d) && OthersKept(mem0, mem, c, d, x)
  {}

  lemma Opens(live0: map<nat, nat>, live: map<nat, nat>, mem: Bytes, c: Client, call: Call, r: nat)
    requires Aligned(c) && Holds(live0, c.ptrs, c.wanted) && Remembers(mem, c)
    requires call.CallMalloc? || (call.CallRealloc? && !Held(c, call.slot))
    requires r == 0 ==> live == live0
    requires r != 0 ==> r >= H && r - H !in live0 && live == live0[r - H := call.size]
    ensures Outcome(live, mem, mem, c, AfterCall(c, call, r), Subject(call))
  {
    hide Holds, Remembers, OthersKept;
    if r != 0 {
      HoldsNew(live0, live, c.ptrs, c.wanted, r, call.size);
    } else {
      HoldsNull(live, c.ptrs, c.wanted);
    }
    RemembersOpened(mem, c, r, if r != 0 then call.size else 0);
    NothingStored(mem, c, AfterCall(c, call, r), Subject(call));
  }

  lemma DoesNothing(live: map<nat, nat>, mem: Bytes, c: Client, call: Call)
    requires Aligned(c) && Holds(live, c.ptrs, c.wanted) && Remembers(mem, c)
    requires (call.CallFree? && !Held(c, call.slot)) || (call.CallStore? && !(Held(c, call.slot) && call.at < c.wanted[call.slot]))
    ensures Outcome(live, mem, mem, c, AfterCall(c, call, 0), Subject(call))
  {
    hide Holds, Remembers, OthersKept;
    HoldsNull(live, c.ptrs, c.wanted);
    RemembersOpened(mem, c, 0, 0);
    NothingStored(mem, c, Opened(c, 0, 0), Subject(call));
  }

  lemma Frees(live0: map<nat, nat>, live: map<nat, nat>, mem: Bytes, c: Client, call: Call)
    requires Aligned(c) && Holds(live0, c.ptrs, c.wanted) && Remembers(mem, c)
    requires call.CallFree? || (call.CallRealloc? && call.size == 0)
    requires Held(c, call.slot) && c.ptrs[call.slot] >= H && live == live0 - {c.ptrs[call.slot] - H}
    ensures Outcome(live, mem, mem, c, AfterCall(c, call, 0), Subject(call))
  {
    hide Holds, Remembers, OthersKept;
    var e := Emptied(c, call.slot);
    HoldsLess(live0, live, c.ptrs, c.wanted, call.slot);
    HoldsNull(live, e.ptrs, e.wanted);
    RemembersEmptied(mem, c, call.slot);
    RemembersOpened(mem, e, 0, 0);
    NothingStored(mem, c, Opened(e, 0, 0), call.slot);
  }

  lemma Resizes(live0: map<nat, nat>, live: map<nat, nat>, mem0: Bytes, mem: Bytes, c: Client, call: Call, r: nat)
    requires Aligned(c) && Holds(live0, c.ptrs, c.wanted) && Remembers(mem0, c)
    requires call.CallRealloc? && Held(c, call.slot) && c.ptrs[call.slot] >= H && c.ptrs[call.slot] - H in live0
    requires r == 0 ==> mem == mem0 && live == if call.size == 0 then live0 - {c.ptrs[call.slot] - H} else live0
    requires r != 0 ==>
      r >= H && r - H in live && live[r - H] >= call.size && live - {r - H} == live0 - {c.ptrs[call.slot] - H}
      && (r == c.ptrs[call.slot] || r - H !in live0)
    requires r != 0 ==>
      ghost var n := Min(call.size, live0[c.ptrs[call.slot] - H]);
      Region(mem, r, n) == Region(mem0, c.ptrs[call.slot], n)
    requires PayloadsKept(live0, mem0, mem, c.ptrs[call.slot] - H)
    ensures Outcome(live, mem0, mem, c, AfterCall(c, call, r), call.slot)
  {
    hide Holds, Remembers, OthersKept, Outcome, Region, PayloadsKept;
    if r != 0 {
      Moves(live0, live, mem0, mem, c, call.slot, r, call.size);
    } else if call.size == 0 {
      Frees(live0, live, mem0, c, call);
    } else {
      Refuses(live, mem, c, call);
    }
  }

  lemma Refuses(live: map<nat, nat>, mem: Bytes, c: Client, call: Call)
    requires Aligned(c) && Holds(live, c.ptrs, c.wanted) && Remembers(mem, c)
    requires call.CallRealloc? && Held(c, call.slot) && call.size > 0
    ensures Outcome(live, mem, mem, c, AfterCall(c, call, 0), call.slot)
  {
    hide Holds, Remembers, OthersKept;
    HoldsNull(live, c.ptrs, c.wanted);
    RemembersOpened(mem, c, 0, 0);
    NothingStored(mem, c, Opened(c, 0, 0), call.slot);
  }

  lemma Moves(live0: map<nat, nat>, live: map<nat, nat>, mem0: Bytes, mem: Bytes, c: Client, i: nat, r: nat, size: nat)
    requires Aligned(c) && Holds(live0, c.ptrs, c.wanted) && Remembers(mem0, c) && Held(c, i)
    requires c.ptrs[i] >= H && c.ptrs[i] - H in live0
    requires r >= H && r - H in live && live[r - H] >= size && live - {r - H} == live0 - {c.ptrs[i] - H}
    requires r == c.ptrs[i] || r - H !in live0
    requires ghost var n := Min(size, live0[c.ptrs[i] - H]); Region(mem, r, n) == Region(mem0, c.ptrs[i], n)
    requires PayloadsKept(live0, mem0, mem, c.ptrs[i] - H)
    ensures Outcome(live, mem0, mem, c, Opened(Resized(c, i, r, size), 0, 0), i)
  {
    hide Holds, Remembers, OthersKept, Region, PayloadsKept, Min;
    MovesPointer(live0, live, c, i, r, size);
    MovesBytes(live0, mem0, mem, c, i, r, size);
  }

  lemma MovesPointer(live0: map<nat, nat>, live: map<nat, nat>, c: Client, i: nat, r: nat, size: nat)
    requires Aligned(c) && Holds(live0, c.ptrs, c.wanted) && Held(c, i) && c.ptrs[i] >= H
    requires r >= H && r - H in live && live[r - H] >= size && live - {r - H} == live0 - {c.ptrs[i] - H}
    requires r == c.ptrs[i] || r - H !in live0
    ensures ghost var d := Opened(Resized(c, i, r, size), 0, 0); Holds(live, d.ptrs, d.wanted)
  {
    hide Holds;
    HoldsMoved(live0, live, c.ptrs, c.wanted, i, r, size);
    HoldsNull(live, c.ptrs[i := r], c.wanted[i := size]);
  }

  lemma MovesBytes(live0: map<nat, nat>, mem0: Bytes, mem: Bytes, c: Client, i: nat, r: nat, size: nat)
    requires Aligned(c) && Holds(live0, c.ptrs, c.wanted) && Remembers(mem0, c) && Held(c, i) && r != 0
    requires c.ptrs[i] >= H && c.ptrs[i] - H in live0
    requires ghost var n := Min(size, live0[c.ptrs[i] - H]); Region(mem, r, n) == Region(mem0, c.ptrs[i], n)
    requires PayloadsKept(live0, mem0, mem, c.ptrs[i] - H)
    ensures ghost var d := Opened(Resized(c, i, r, size), 0, 0); Remembers(mem, d) && OthersKept(mem0, mem, c, d, i)
  {
    var e := Resized(c, i, r, size);
    var d := Opened(e, 0, 0);
    ResizedSlots(c, i, r, size);
    OwnedSlots(live0, c, i);
    hide Holds, Remembers, OthersKept, Region, PayloadsKept, Owned, Min, Resized, Opened;
    SlotsKept(live0, mem0, mem, c, e, i, c.ptrs[i] - H);
    SlotsKept(live0, mem0, mem, c, d, i, c.ptrs[i] - H);
    RemembersResized(mem0, mem, c, i, r, size, live0[c.ptrs[i] - H]);
    RemembersOpened(mem, e, 0, 0);
  }

  lemma ResizedSlots(c: Client, i: nat, r: nat, size: nat)
    requires Aligned(c) && i < |c.ptrs|
    ensures ghost var e := Resized(c, i, r, size);
            Aligned(e) && |e.ptrs| == |c.ptrs| && forall j :: 0 <= j < |c.ptrs| && j != i ==> e.ptrs[j] == c.ptrs[j]
    ensures ghost var d := Opened(Resized(c, i, r, size), 0, 0);
            Aligned(d) && |d.ptrs| == |c.ptrs| + 1 && forall j :: 0 <= j < |c.ptrs| && j != i ==> d.ptrs[j] == c.ptrs[j]
  {}

  lemma OwnedSlots(live: map<nat, nat>, c: Client, i: nat)
    requires Aligned(c) && Holds(live, c.ptrs, c.wanted) && Held(c, i)
    ensures Owned(live, c.ptrs, c.wanted) && c.ptrs[i] >= H && c.ptrs[i] - H in live && c.wanted[i] <= live[c.ptrs[i] - H]
    ensures forall j :: 0 <= j < |c.ptrs| && j != i && c.ptrs[j] != 0 ==> c.ptrs[j] != c.ptrs[i]
  {}

  lemma Stores(live: map<nat, nat>, mem: Bytes, c: Client, call: Call)
    requires Aligned(c) && Holds(live, c.ptrs, c.wanted) && Remembers(mem, c)
    requires call.CallStore? && Held(c, call.slot) && call.at < c.wanted[call.slot] && c.ptrs[call.slot] >= H
    requires PayloadsKept(live, mem, mem[c.ptrs[call.slot] + call.at := call.value], c.ptrs[call.slot] - H)
    ensures Outcome(live, mem, mem[c.ptrs[call.slot] + call.at := call.value], c, AfterCall(c, call, 0), call.slot)
  {
    hide Holds, Remembers, OthersKept, PayloadsKept;
    var i := call.slot;
    var e, mem1 := Stored(c, i, call.at, call.value), mem[c.ptrs[i] + call.at := call.value];
    HoldsNull(live, c.ptrs, c.wanted);
    OwnedSlots(live, c, i);
    SlotsKept(live, mem, mem1, c, e, i, c.ptrs[i] - H);
    RemembersStored(mem, c, i, call.at, call.value);
    RemembersOpened(mem1, e, 0, 0);
    SlotsKept(live, mem, mem1, c, Opened(e, 0, 0), i, c.ptrs[i] - H);
  }

  /** One call of a run. */
  method Perform(heap: Heap, call: Call, c: Client) returns (d: Client, r: nat, ok: bool)
    requires heap.Valid() && Aligned(c) && Serves(heap, c)
    requires call.CallMalloc? || call.CallRealloc? ==> call.size < SIZES
    modifies heap
    ensures d == AfterCall(c, call, r)
    ensures ok <==> heap.Valid()
    ensures ok ==> Serves(heap, d)
    ensures ok ==> OthersKept(old(heap.mem), heap.mem, c, d, Subject(call))
    ensures heap.lost <= old(heap.lost) + 3 * H
    ensures !ok ==> Oversized(call)
  {
    hide Good, LiveOf, Holds, Outcome, FirstFit, Dropped, PayloadsKept, Region, ByteAt, Remembers, OthersKept, Increment, HeadersApart,
         AfterCall;
    ghost var live, mem := heap.Live(), heap.mem;
    r, ok := 0, true;
    match call {
    case CallMalloc(size, willing) =>
      r, ok := heap.Malloc(size, willing);
      if ok { Opens(live, heap.Live(), mem, c, call, r); }
    case CallFree(slot) =>
      if Held(c, slot) {
        HeldPointer(live, c.ptrs, c.wanted, slot);
        LiveMember(heap.hdr, heap.blocks, c.ptrs[slot] - H);
        heap.Free(c.ptrs[slot]);
        Frees(live, heap.Live(), mem, c, call);
      } else {
        DoesNothing(live, mem, c, call);
      }
    case CallRealloc(slot, size, willing) =>
      if Held(c, slot) {
        HeldPointer(live, c.ptrs, c.wanted, slot);
        r, ok := heap.Realloc(c.ptrs[slot], size, willing);
        if ok { Resizes(live, heap.Live(), mem, heap.mem, c, call, r); }
      } else {
        r, ok := heap.Realloc(0, size, willing);
        if ok { Opens(live, heap.Live(), mem, c, call, r); }
      }
    case CallStore(slot, at, value) =>
      if Held(c, slot) && at < c.wanted[slot] {
        OwnedSlots(live, c, slot);
        heap.Store(c.ptrs[slot] - H, at, value);
        Stores(live, mem, c, call);
      } else {
        DoesNothing(live, mem, c, call);
      }
    }
    d := AfterCall(c, call, r);
    if ok { OutcomeMeans(heap.Live(), mem, heap.mem, c, d, Subject(call)); }
  }
}
