/**
 * finding_filesystems/minixfs.c, minixfs_read from line 323 on: reading a file whose blocks
 * are named first in the inode and then in an indirect block, into the caller's buffer.
 */
module MiniFs {
  import opened Basics
  import opened Bits

  /** minixfs.h: the size of a data block and the lengths of the two block tables. */
  datatype Geometry = Geometry(block: nat, direct: nat, indirect: nat) {
    predicate Valid() { block > 0 && direct > 0 }

    function Capacity(): nat { (direct + indirect) * block }
  }

  /** `tables` gives the block numbers stored in a block used as an indirect table. */
  datatype Disk = Disk(blocks: map<int, seq<byte>>, tables: map<int, seq<int>>)

  datatype Inode = Inode(size: nat, direct: seq<int>, indirect: int)

  // The block used as the file's indirect table; an unassigned one has no entries.
  function Table(disk: Disk, node: Inode): seq<int> {
    if node.indirect in disk.tables then disk.tables[node.indirect] else []
  }

  // -1: an entry that was never assigned
  function Entry(table: seq<int>, i: nat): int {
    if i < |table| then table[i] else -1
  }

  /** The number of block i of the file: from the inode's table, then from the indirect one. */
  function NumberOf(g: Geometry, disk: Disk, node: Inode, i: nat): int {
    if i < g.direct then Entry(node.direct, i) else Entry(Table(disk, node), i - g.direct)
  }

  ghost predicate WellFormedBlocks(g: Geometry, disk: Disk) {
    forall n :: n in disk.blocks ==> n >= 0 && |disk.blocks[n]| == g.block
  }

  /** The file fits in its tables, and each block that holds some byte of it is a full block on the disk. */
  ghost predicate WellFormed(g: Geometry, disk: Disk, node: Inode) {
    && g.Valid() && node.size <= g.Capacity()
    && WellFormedBlocks(g, disk)
    && (forall i: nat :: i * g.block < node.size ==> NumberOf(g, disk, node, i) in disk.blocks)
  }

  // The bytes at a block number. What an unassigned number points to is never copied.
  function Data(g: Geometry, disk: Disk, n: int): (b: seq<byte>)
    requires WellFormedBlocks(g, disk)
    ensures |b| == g.block
  {
    if n in disk.blocks then disk.blocks[n] else seq(g.block, _ => 0)
  }

  function BlockAt(g: Geometry, disk: Disk, node: Inode, i: nat): (b: seq<byte>)
    requires WellFormed(g, disk, node)
    ensures |b| == g.block
  {
    Data(g, disk, NumberOf(g, disk, node, i))
  }

  lemma OneMoreBlock(k: nat, b: nat)
    requires k > 0
    ensures (k - 1) * b + b == k * b
  {}

  /** The first k blocks of the file, one after the other. */
  function Flat(g: Geometry, disk: Disk, node: Inode, k: nat): (f: seq<byte>)
    requires WellFormed(g, disk, node) && k <= g.direct + g.indirect
    ensures |f| == k * g.block
  {
    if k == 0 then
      assert 0 * g.block == 0;
      []
    else
      OneMoreBlock(k, g.block);
      Flat(g, disk, node, k - 1) + BlockAt(g, disk, node, k - 1)
  }

  /** The bytes of the file, as a flat sequence cut at its size. */
  function Contents(g: Geometry, disk: Disk, node: Inode): (c: seq<byte>)
    requires WellFormed(g, disk, node)
    ensures |c| == node.size
  {
    Flat(g, disk, node, g.direct + g.indirect)[..node.size]
  }

  lemma {:induction false} FlatBlock(g: Geometry, disk: Disk, node: Inode, k: nat, i: nat, at: nat)
    requires WellFormed(g, disk, node) && i < k <= g.direct + g.indirect && at == i * g.block
    ensures at + g.block <= |Flat(g, disk, node, k)|
    ensures Flat(g, disk, node, k)[at..at + g.block] == BlockAt(g, disk, node, i)
  {
    hide BlockAt, WellFormed;
    var f := Flat(g, disk, node, k - 1);
    if i + 1 < k {
      FlatBlock(g, disk, node, k - 1, i, at);
      Prefix(f, BlockAt(g, disk, node, k - 1), at, at + g.block);
    } else {
      assert |f| == at;
      assert (f + BlockAt(g, disk, node, i))[at..at + g.block] == BlockAt(g, disk, node, i);
    }
  }

  lemma Prefix(f: seq<byte>, g: seq<byte>, lo: nat, hi: nat)
    requires lo <= hi <= |f|
    ensures (f + g)[lo..hi] == f[lo..hi]
  {}

  /** The part of a block that lies inside the file is the same part of its contents. */
  lemma BlockIsContents(g: Geometry, disk: Disk, node: Inode, i: nat, at: nat, from: nat, len: nat)
    requires WellFormed(g, disk, node) && i < g.direct + g.indirect && at == i * g.block
    requires from + len <= g.block && at + from + len <= node.size
    ensures BlockAt(g, disk, node, i)[from..from + len] ==
      Contents(g, disk, node)[at + from..at + from + len]
  {
    var all := g.direct + g.indirect;
    FlatBlock(g, disk, node, all, i, at);
    Slice(Flat(g, disk, node, all), node.size, at, g.block, from, len);
  }

  // Byte k of disk block n is c.
  ghost predicate OnDisk(disk: Disk, n: int, k: nat, c: byte) {
    n in disk.blocks && k < |disk.blocks[n]| && disk.blocks[n][k] == c
  }

  /** Byte k of the file's block i is byte k of the disk block that the tables name for i, if it lies in the file. */
  lemma ByteOfContents(g: Geometry, disk: Disk, node: Inode, i: nat, k: nat, j: nat)
    requires WellFormed(g, disk, node) && k < g.block && j == i * g.block + k && j < node.size
    ensures i < g.direct ==> i < |node.direct| && OnDisk(disk, node.direct[i], k, Contents(g, disk, node)[j])
    ensures i >= g.direct ==>
      && node.indirect in disk.tables && i - g.direct < |disk.tables[node.indirect]|
      && OnDisk(disk, disk.tables[node.indirect][i - g.direct], k, Contents(g, disk, node)[j])
  {
    InTables(g, i, j);
    assert NumberOf(g, disk, node, i) in disk.blocks;
    hide Contents;
    BlockIsContents(g, disk, node, i, i * g.block, k, 1);
    var b, c := BlockAt(g, disk, node, i), Contents(g, disk, node);
    assert b[k..k + 1][0] == b[k] && c[j..j + 1][0] == c[j];
  }

  lemma InTables(g: Geometry, i: nat, j: nat)
    requires g.Valid() && i * g.block <= j < g.Capacity()
    ensures i < g.direct + g.indirect
  {}

  lemma Slice(f: seq<byte>, size: nat, at: nat, block: nat, from: nat, len: nat)
    requires size <= |f| && at + block <= |f| && from + len <= block && at + from + len <= size
    ensures f[..size][at + from..at + from + len] == f[at..at + block][from..from + len]
  {
    var a, b := f[..size][at + from..at + from + len], f[at..at + block][from..from + len];
    forall k | 0 <= k < len ensures a[k] == b[k] {
      assert a[k] == f[at + from + k];
      assert b[k] == f[at..at + block][from + k];
    }
  }

  method Memcpy(buf: array<byte>, at: nat, src: seq<byte>, len: nat)
    requires at + len <= buf.Length && len <= |src|
    modifies buf
    ensures buf[..at] == old(buf[..at])
    ensures buf[at..at + len] == src[..len]
    ensures buf[at + len..] == old(buf[at + len..])
  {
    var k := 0;
    while k < len
      invariant 0 <= k <= len
      invariant forall j :: 0 <= j < at ==> buf[j] == old(buf[j])
      invariant forall j :: 0 <= j < k ==> buf[at + j] == src[j]
      invariant forall j :: at + k <= j < buf.Length ==> buf[j] == old(buf[j])
    {
      buf[at + k] := src[k];
      k := k + 1;
    }
    assert forall j :: at <= j < at + len ==> buf[j] == src[j - at];
  }

  // What has been read into the buffer so far, from offset `off` of the file.
  ghost predicate ReadSoFar(buf: seq<byte>, before: seq<byte>, c: seq<byte>, off: nat, done: nat) {
    && |before| == |buf| && done <= |buf| && off + done <= |c|
    && buf[..done] == c[off..off + done]
    && buf[done..] == before[done..]
  }

  /** One memcpy from a block, from the place where the read has got to. Only an assigned block is read. */
  method CopyPart(g: Geometry, disk: Disk, buf: array<byte>, ghost before: seq<byte>, number: int, from: nat, len: nat,
                  ghost c: seq<byte>, ghost off: nat, done: nat) returns (after: nat)
    requires WellFormedBlocks(g, disk) && (len > 0 ==> number in disk.blocks)
    requires ReadSoFar(buf[..], before, c, off, done)
    requires from + len <= g.block && off + done + len <= |c| && done + len <= buf.Length
    requires Data(g, disk, number)[from..from + len] == c[off + done..off + done + len]
    modifies buf
    ensures after == done + len
    ensures ReadSoFar(buf[..], before, c, off, after)
  {
    ghost var was := buf[..];
    var data := Data(g, disk, number);
    Memcpy(buf, done, data[from..], len);
    after := done + len;
    assert data[from..][..len] == data[from..from + len];
    assert buf[..] == was[..done] + data[from..from + len] + was[done + len..];
    ReadMore(was, buf[..], before, c, off, done, len, data[from..from + len]);
  }

  lemma ReadMore(was: seq<byte>, buf: seq<byte>, before: seq<byte>, c: seq<byte>, off: nat, done: nat, len: nat, part: seq<byte>)
    requires ReadSoFar(was, before, c, off, done)
    requires done + len <= |was| && off + done + len <= |c|
    requires part == c[off + done..off + done + len]
    requires buf == was[..done] + part + was[done + len..]
    ensures ReadSoFar(buf, before, c, off, done + len)
  {
    assert buf[..done + len] == was[..done] + part;
    assert c[off..off + done + len] == c[off..off + done] + part;
    assert was[done + len..] == was[done..][len..];
    assert before[done..][len..] == before[done + len..];
  }

  lemma BlockStart(g: Geometry, i: nat, b: nat)
    requires b == g.block
    ensures (i + 1) * b == i * b + b
  {}

  /** The copy loops: k whole blocks, whose numbers stand in a table from index `base` on. */
  method CopyBlocks(g: Geometry, disk: Disk, ghost node: Inode, buf: array<byte>, ghost before: seq<byte>,
                    table: seq<int>, base: nat, ghost first: nat, k: nat, ghost off: nat, start: nat) returns (done: nat)
    requires WellFormed(g, disk, node) && first + k <= g.direct + g.indirect
    requires forall j: nat :: base <= j < base + k ==> Entry(table, j) == NumberOf(g, disk, node, first + (j - base))
    requires ReadSoFar(buf[..], before, Contents(g, disk, node), off, start)
    requires off + start == first * g.block && off + start + k * g.block <= node.size
    requires start + k * g.block <= buf.Length
    modifies buf
    ensures done == start + k * g.block
    ensures ReadSoFar(buf[..], before, Contents(g, disk, node), off, done)
  {
    hide ReadSoFar, Contents;
    ghost var c := Contents(g, disk, node);
    done := start;
    var i := 0;
    while i < k
      invariant 0 <= i <= k
      invariant done == start + i * g.block && off + done == (first + i) * g.block
      invariant ReadSoFar(buf[..], before, c, off, done)
    {
      var n := Entry(table, base + i);
      assert n == NumberOf(g, disk, node, first + i);
      assert Data(g, disk, n) == BlockAt(g, disk, node, first + i);
      BlocksLeft(i, k, g.block);
      BlockIsContents(g, disk, node, first + i, (first + i) * g.block, 0, g.block);
      BlockStart(g, i, g.block);
      BlockStart(g, first + i, g.block);
      done := CopyPart(g, disk, buf, before, n, 0, g.block, c, off, done);
      i := i + 1;
    }
  }

  lemma BlocksLeft(i: nat, k: nat, b: nat)
    requires i < k
    ensures i * b + b <= k * b
  {
    MulMonotone(b, i + 1, k);
    assert b * (i + 1) == i * b + b;
  }

  /** The amounts of a read that runs past its first block. */
  lemma ReadPlan(b: nat, off: nat, count: nat, num: nat, remain: nat, blocknum: nat, newoff: nat, capacity: nat)
    requires b > 0 && num == off / b && remain == b - (off - num * b) && count > remain
    requires blocknum == (count - remain) / b && newoff == count - remain - blocknum * b
    requires off + count <= capacity * b
    ensures off + remain == (num + 1) * b && 0 < remain <= b && newoff < b
    ensures count == remain + blocknum * b + newoff
    ensures off + count == (num + 1 + blocknum) * b + newoff
    ensures num + 1 + blocknum <= capacity && (newoff > 0 ==> num + 1 + blocknum < capacity)
  {
    DivModSpec(off, b);
    DivModSpec(count - remain, b);
    assert (num + 1 + blocknum) * b == num * b + b + blocknum * b;
    BlocksFit(num + 1 + blocknum, b, newoff, capacity);
  }

  lemma BlocksFit(x: nat, b: nat, r: nat, capacity: nat)
    requires b > 0 && x * b + r <= capacity * b
    ensures x <= capacity && (r > 0 ==> x < capacity)
  {
    assert b * (capacity + 1) == capacity * b + b;
    if x > capacity {
      MulMonotone(b, capacity + 1, x);
    }
  }

  function Clipped(node: Inode, count: nat, off: nat): nat
    requires off < node.size
  {
    if off + count >= node.size then node.size - off else count
  }

  /** The clip as the code makes it, with a sum that wraps. */
  function CodeClip(size: nat, count: nat, off: nat): nat
    requires off < size
  {
    if (off + count) % SIZES >= size then size - off else count
  }

  /** The code stops at the end of the file exactly when the sum of offset and count does not wrap; when it does, nothing is clipped. */
  lemma ClipExact(node: Inode, count: nat, off: nat)
    requires off < node.size < SIZES && count < SIZES
    ensures CodeClip(node.size, count, off) == Clipped(node, count, off) <==> off + count < SIZES
    ensures off + count >= SIZES ==> CodeClip(node.size, count, off) == count > node.size - off
  {
    if off + count < SIZES {
      DivModUnique(off + count, SIZES, 0, off + count);
    } else {
      DivModUnique(off + count, SIZES, 1, off + count - SIZES);
    }
  }

  // What is left to read after the first block: blocknum whole blocks and newoff bytes.
  ghost predicate RestFits(g: Geometry, node: Inode, num: nat, blocknum: nat, newoff: nat, off: nat, start: nat) {
    && off + start == (num + 1) * g.block && newoff < g.block
    && off + start + blocknum * g.block + newoff <= node.size
    && off + start + blocknum * g.block == (num + 1 + blocknum) * g.block
    && num + 1 + blocknum <= g.direct + g.indirect
    && (newoff > 0 ==> num + 1 + blocknum < g.direct + g.indirect)
  }

  lemma TableNumbers(g: Geometry, disk: Disk, node: Inode)
    ensures forall i: nat :: i < g.direct ==> Entry(node.direct, i) == NumberOf(g, disk, node, i)
    ensures forall i: nat {:trigger Entry(Table(disk, node), i)} ::
      Entry(Table(disk, node), i) == NumberOf(g, disk, node, g.direct + i)
  {}

  /** Lines 369-384: the read started in an indirect block. */
  method RestFromIndirect(g: Geometry, disk: Disk, node: Inode, buf: array<byte>, ghost before: seq<byte>,
                  num: nat, blocknum: nat, newoff: nat, ghost off: nat, start: nat) returns (tmp: nat)
    requires WellFormed(g, disk, node) && RestFits(g, node, num, blocknum, newoff, off, start)
    requires start + blocknum * g.block + newoff <= buf.Length
    requires ReadSoFar(buf[..], before, Contents(g, disk, node), off, start)
    requires num >= g.direct
    modifies buf
    ensures tmp == start + blocknum * g.block + newoff
    ensures ReadSoFar(buf[..], before, Contents(g, disk, node), off, tmp)
  {
    hide ReadSoFar, Contents, NumberOf;
    TableNumbers(g, disk, node);
    var barray := Table(disk, node);
    tmp := CopyBlocks(g, disk, node, buf, before, barray, num - g.direct + 1, num + 1, blocknum, off, start);
    if num - g.direct + 1 + blocknum < g.indirect {
      tmp := CopyLast(g, disk, node, buf, before, Entry(barray, num - g.direct + 1 + blocknum), num + 1 + blocknum, newoff, off, tmp);
    }
  }

  /** Lines 387-400: the read stays in direct blocks. */
  method RestFromDirect(g: Geometry, disk: Disk, node: Inode, buf: array<byte>, ghost before: seq<byte>,
                  num: nat, blocknum: nat, newoff: nat, ghost off: nat, start: nat) returns (tmp: nat)
    requires WellFormed(g, disk, node) && RestFits(g, node, num, blocknum, newoff, off, start)
    requires start + blocknum * g.block + newoff <= buf.Length
    requires ReadSoFar(buf[..], before, Contents(g, disk, node), off, start)
    requires num + blocknum + 1 < g.direct
    modifies buf
    ensures tmp == start + blocknum * g.block + newoff
    ensures ReadSoFar(buf[..], before, Contents(g, disk, node), off, tmp)
  {
    hide ReadSoFar, Contents, NumberOf;
    TableNumbers(g, disk, node);
    tmp := CopyBlocks(g, disk, node, buf, before, node.direct, num + 1, num + 1, blocknum, off, start);
    tmp := CopyLast(g, disk, node, buf, before, Entry(node.direct, num + 1 + blocknum), num + 1 + blocknum, newoff, off, tmp);
  }

  /** Lines 401-422: the read goes on from direct into indirect blocks. */
  method RestCrossing(g: Geometry, disk: Disk, node: Inode, buf: array<byte>, ghost before: seq<byte>,
                  num: nat, blocknum: nat, newoff: nat, ghost off: nat, start: nat) returns (tmp: nat)
    requires WellFormed(g, disk, node) && RestFits(g, node, num, blocknum, newoff, off, start)
    requires start + blocknum * g.block + newoff <= buf.Length
    requires ReadSoFar(buf[..], before, Contents(g, disk, node), off, start)
    requires num < g.direct <= num + blocknum + 1
    modifies buf
    ensures tmp == start + blocknum * g.block + newoff
    ensures ReadSoFar(buf[..], before, Contents(g, disk, node), off, tmp)
  {
    hide ReadSoFar, Contents, NumberOf;
    TableNumbers(g, disk, node);
    var remainBlock := num + blocknum + 1 - g.direct;
    CrossingPlan(g.block, num, blocknum, g.direct, remainBlock);
    tmp := CopyBlocks(g, disk, node, buf, before, node.direct, num + 1, num + 1, g.direct - num - 1, off, start);
    var barray := Table(disk, node);
    tmp := CopyBlocks(g, disk, node, buf, before, barray, 0, g.direct, remainBlock, off, tmp);
    if remainBlock < g.indirect {
      tmp := CopyLast(g, disk, node, buf, before, Entry(barray, remainBlock), g.direct + remainBlock, newoff, off, tmp);
    }
  }

  /** Lines 328-330: the block of the offset, the place in it, and what remains of it. */
  method Locate(g: Geometry, off: nat, ghost size: nat) returns (num: nat, offset: nat, remain: nat)
    requires g.Valid() && off < size <= g.Capacity()
    ensures num == off / g.block && num < g.direct + g.indirect
    ensures off == num * g.block + offset && offset + remain == g.block && remain > 0
  {
    num := off / g.block;
    StartBlock(g, off, num, size);
    offset := off - num * g.block;
    remain := g.block - offset;
  }

  /** Lines 367-368: the whole blocks and the bytes that are left after the first block. */
  method Amounts(g: Geometry, ghost node: Inode, off: nat, num: nat, offset: nat, remain: nat, n: nat)
    returns (blocknum: nat, newoff: nat)
    requires g.Valid() && num == off / g.block && off == num * g.block + offset && offset + remain == g.block
    requires n > remain && off + n <= node.size <= g.Capacity()
    ensures n == remain + blocknum * g.block + newoff
    ensures RestFits(g, node, num, blocknum, newoff, off, remain)
  {
    blocknum := (n - remain) / g.block;
    DivModSpec(n - remain, g.block);
    newoff := n - remain - blocknum * g.block;
    ReadPlan(g.block, off, n, num, remain, blocknum, newoff, g.direct + g.indirect);
  }

  /** Lines 366-422: after the first block, the others, by where they are. */
  method CopyRest(g: Geometry, disk: Disk, node: Inode, buf: array<byte>, ghost before: seq<byte>,
                  fromIndirect: bool, num: nat, offset: nat, remain: nat, n: nat, off: nat) returns (tmp: nat)
    requires WellFormed(g, disk, node) && g.Valid()
    requires num == off / g.block && off == num * g.block + offset && offset + remain == g.block
    requires remain < n <= buf.Length && off + n <= node.size <= g.Capacity()
    requires ReadSoFar(buf[..], before, Contents(g, disk, node), off, remain)
    requires fromIndirect == (num >= g.direct)
    modifies buf
    ensures tmp == n && ReadSoFar(buf[..], before, Contents(g, disk, node), off, n)
  {
    hide Contents, ReadSoFar, RestFits, WellFormed;
    var blocknum, newoff := Amounts(g, node, off, num, offset, remain, n);
    tmp := remain;
    if fromIndirect {
      tmp := RestFromIndirect(g, disk, node, buf, before, num, blocknum, newoff, off, tmp);
    }
    if !fromIndirect {
      if num + blocknum + 1 < g.direct {
        tmp := RestFromDirect(g, disk, node, buf, before, num, blocknum, newoff, off, tmp);
      } else {
        tmp := RestCrossing(g, disk, node, buf, before, num, blocknum, newoff, off, tmp);
      }
    }
  }

  /**
   * minixfs_read on a file: it copies the bytes from `off` on, at most `count` of them and no
   * further than the end of the file, and advances the offset by as many.
   */
  method Read(g: Geometry, disk: Disk, node: Inode, buf: array<byte>, count: nat, off: nat)
    returns (result: nat, newOff: nat)
    requires WellFormed(g, disk, node) && off + count < SIZES
    requires off < node.size ==> Clipped(node, count, off) <= buf.Length
    modifies buf
    ensures result == (if off < node.size then Min(count, node.size - off) else 0)
    ensures newOff == off + result
    ensures off < node.size ==>
      && result <= buf.Length && buf[..result] == Contents(g, disk, node)[off..off + result]
      && buf[result..] == old(buf[..])[result..]
    ensures off >= node.size ==> buf[..] == old(buf[..])
  {
    if off >= node.size { return 0, off; }
    hide Contents, NumberOf, ReadSoFar, RestFits, WellFormed, Entry, Table, Geometry.Capacity;
    TableNumbers(g, disk, node);
    FileFits(g, disk, node);
    ghost var before := buf[..];
    var num, offset, remain := Locate(g, off, node.size);
    var fromIndirect := false;
    var number;
    // the block of the offset
    if num < g.direct {
      number := Entry(node.direct, num);
    } else if num < g.indirect + g.direct {
      fromIndirect := true;
      number := Entry(Table(disk, node), num - g.direct);
    } else {
      assert false;
      number := -1;
    }
    assert number == NumberOf(g, disk, node, num);
    // no further than the end
    DivModUnique(off + count, SIZES, 0, off + count);
    var n := count;
    if (off + count) % SIZES >= node.size { n := node.size - off; }
    // the part in the first block, then the others
    var tmp := 0;
    NothingRead(before, Contents(g, disk, node), off);
    if n <= remain {
      tmp := CopyFirst(g, disk, node, buf, before, number, num, offset, n, off);
    } else {
      tmp := CopyFirst(g, disk, node, buf, before, number, num, offset, remain, off);
      tmp := CopyRest(g, disk, node, buf, before, fromIndirect, num, offset, remain, n, off);
    }
    HaveRead(before, buf[..], Contents(g, disk, node), off, n);
    return n, off + n;
  }

  lemma HaveRead(before: seq<byte>, buf: seq<byte>, c: seq<byte>, off: nat, n: nat)
    requires ReadSoFar(buf, before, c, off, n)
    ensures n <= |buf| == |before| && off + n <= |c| && buf[..n] == c[off..off + n] && buf[n..] == before[n..]
  {}

  lemma FileFits(g: Geometry, disk: Disk, node: Inode)
    requires WellFormed(g, disk, node)
    ensures g.Valid() && node.size <= g.Capacity()
  {}

  lemma NothingRead(before: seq<byte>, c: seq<byte>, off: nat)
    requires off <= |c|
    ensures ReadSoFar(before, before, c, off, 0)
  {}

  /** The first copy, from `offset` inside the block of the offset. */
  method CopyFirst(g: Geometry, disk: Disk, ghost node: Inode, buf: array<byte>, ghost before: seq<byte>,
                   number: int, ghost num: nat, offset: nat, len: nat, ghost off: nat) returns (done: nat)
    requires WellFormed(g, disk, node) && num < g.direct + g.indirect && number == NumberOf(g, disk, node, num)
    requires ReadSoFar(buf[..], before, Contents(g, disk, node), off, 0)
    requires off == num * g.block + offset && offset + len <= g.block && off + len <= node.size && len <= buf.Length
    modifies buf
    ensures done == len
    ensures ReadSoFar(buf[..], before, Contents(g, disk, node), off, done)
  {
    hide ReadSoFar, Contents;
    assert Data(g, disk, number) == BlockAt(g, disk, node, num);
    BlockIsContents(g, disk, node, num, num * g.block, offset, len);
    done := CopyPart(g, disk, buf, before, number, offset, len, Contents(g, disk, node), off, 0);
  }

  lemma StartBlock(g: Geometry, off: nat, num: nat, size: nat)
    requires g.Valid() && num == off / g.block && off < size <= g.Capacity()
    ensures num * g.block <= off < num * g.block + g.block && num < g.direct + g.indirect
  {
    DivModSpec(off, g.block);
    DivBelow(off, g.block, g.direct + g.indirect);
  }

  /** A read that crosses into the indirect blocks: what is left of the direct ones, then the rest. */
  lemma CrossingPlan(b: nat, num: nat, blocknum: nat, direct: nat, remainBlock: nat)
    requires num < direct && num + blocknum + 1 == direct + remainBlock
    ensures blocknum * b == (direct - num - 1) * b + remainBlock * b
    ensures direct * b == (num + 1) * b + (direct - num - 1) * b
  {}

  /** The last, partial block. */
  method CopyLast(g: Geometry, disk: Disk, ghost node: Inode, buf: array<byte>, ghost before: seq<byte>,
                  number: int, ghost i: nat, newoff: nat, ghost off: nat, start: nat) returns (done: nat)
    requires WellFormed(g, disk, node) && i < g.direct + g.indirect && number == NumberOf(g, disk, node, i)
    requires ReadSoFar(buf[..], before, Contents(g, disk, node), off, start)
    requires off + start == i * g.block && newoff <= g.block && off + start + newoff <= node.size
    requires start + newoff <= buf.Length
    modifies buf
    ensures done == start + newoff
    ensures ReadSoFar(buf[..], before, Contents(g, disk, node), off, done)
  {
    hide ReadSoFar, Contents;
    assert Data(g, disk, number) == BlockAt(g, disk, node, i);
    BlockIsContents(g, disk, node, i, i * g.block, 0, newoff);
    done := CopyPart(g, disk, buf, before, number, 0, newoff, Contents(g, disk, node), off, start);
  }
}
