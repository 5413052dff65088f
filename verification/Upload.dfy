/**
 * PUT in nonstop_networking/server.c (put, from state READ_SIZE on) over reader in common.c:
 * a job that is resumed each time more of the client's byte stream has arrived. The stream
 * can be cut anywhere, by short reads, by EINTR and by EAGAIN.
 */
module Upload {
  import opened Basics

  const CHUNK: nat := 1024
  const HEADER: nat := 8

  // ---- read(2) on the socket -----------------------------------------------------------------

  /** What the next call of read does: fail for now, be interrupted, or deliver at most `most` + 1 bytes. */
  datatype Event = Again | Interrupted | Deliver(most: nat)

  datatype ReadResult = Eagain | Eintr | Got(data: seq<byte>)

  /** The bytes still to come before end of file, and what read will do; when `events` is used up, read delivers all it can. */
  class Connection {
    var rest: seq<byte>
    var events: seq<Event>

    method Recv(count: nat) returns (r: ReadResult)
      requires count > 0
      modifies this
      ensures r.Got? ==> r.data + rest == old(rest) && |r.data| <= count && (r.data == [] <==> old(rest) == [])
      ensures !r.Got? ==> rest == old(rest)
      ensures events == if old(events) == [] then [] else old(events)[1..]
      ensures r.Eagain? ==> Again in old(events)
      ensures r.Eintr? ==> old(events) != []
    {
      var most := count;
      if events != [] {
        var e := events[0];
        events := events[1..];
        if e.Again? { return Eagain; }
        if e.Interrupted? { return Eintr; }
        if e.most + 1 < count { most := e.most + 1; }
      }
      if most > |rest| { most := |rest|; }
      r := Got(rest[..most]);
      rest := rest[most..];
    }
  }

  // The buffer once the first n bytes of the stream are stored at a position.
  ghost function Received(before: seq<byte>, at: nat, stream: seq<byte>, n: nat): (after: seq<byte>)
    requires at + n <= |before| && n <= |stream|
    ensures |after| == |before|
  {
    before[..at] + stream[..n] + before[at + n..]
  }

  /**
   * common.c, lines 76-98: fill buf[at..at + count] until it is full, the stream ends (0) or
   * nothing more is there for now (1). Hard errors are left out.
   */
  method Reader(conn: Connection, buf: array<byte>, at: nat, count: nat) returns (ret: int, offset: nat)
    requires at + count <= buf.Length
    modifies conn, buf
    ensures offset <= count && offset <= |old(conn.rest)|
    ensures conn.rest == old(conn.rest)[offset..]
    ensures buf[..] == old(buf[..at]) + old(conn.rest)[..offset] + old(buf[at + offset..])
    ensures ret == 1 || (ret == 0 && (offset == count || conn.rest == []))
    ensures Again !in old(conn.events) ==> ret == 0 && Again !in conn.events
  {
    hide Received;
    offset := 0;
    ghost var stream := conn.rest;
    ghost var before := buf[..];
    NoneReceived(before, at, stream);
    while count - offset > 0
      invariant 0 <= offset <= count && offset <= |stream|
      invariant conn.rest == stream[offset..]
      invariant buf[..] == Received(before, at, stream, offset)
      invariant Again !in old(conn.events) ==> Again !in conn.events
      decreases |conn.events| + count - offset
    {
      ghost var left := conn.rest;
      var r := conn.Recv(count - offset);
      if r.Eagain? {
        AllReceived(before, at, stream, offset);
        return 1, offset;
      }
      if r.Eintr? { continue; }
      var data := r.data;
      if data == [] {
        AllReceived(before, at, stream, offset);
        return 0, offset;
      }
      assert data == left[..|data|];
      Store(buf, at + offset, data);
      ReceivedMore(before, at, stream, offset, data);
      offset := offset + |data|;
    }
    AllReceived(before, at, stream, offset);
    return 0, offset;
  }

  lemma NoneReceived(before: seq<byte>, at: nat, stream: seq<byte>)
    requires at <= |before|
    ensures Received(before, at, stream, 0) == before && stream[0..] == stream
  {}

  lemma AllReceived(before: seq<byte>, at: nat, stream: seq<byte>, n: nat)
    requires at + n <= |before| && n <= |stream|
    ensures Received(before, at, stream, n) == before[..at] + stream[..n] + before[at + n..]
  {}

  lemma ReceivedMore(before: seq<byte>, at: nat, stream: seq<byte>, offset: nat, data: seq<byte>)
    requires at + offset + |data| <= |before| && offset + |data| <= |stream| && data == stream[offset..][..|data|]
    ensures ghost var sofar := Received(before, at, stream, offset);
            Received(before, at, stream, offset + |data|) == sofar[..at + offset] + data + sofar[at + offset + |data|..]
    ensures stream[offset..][|data|..] == stream[offset + |data|..]
  {}

  method Store(buf: array<byte>, at: nat, data: seq<byte>)
    requires at + |data| <= buf.Length
    modifies buf
    ensures buf[..] == old(buf[..at]) + data + old(buf[at + |data|..])
  {
    var k := 0;
    while k < |data|
      invariant 0 <= k <= |data|
      invariant forall j :: 0 <= j < at ==> buf[j] == old(buf[j])
      invariant forall j :: 0 <= j < k ==> buf[at + j] == data[j]
      invariant forall j :: at + k <= j < buf.Length ==> buf[j] == old(buf[j])
    {
      buf[at + k] := data[k];
      k := k + 1;
    }
    assert forall j :: at <= j < at + |data| ==> buf[j] == data[j - at];
  }

  // ---- What a stream asks for -------------------------------------------------------------------

  function Zeros(n: nat): (z: seq<byte>)
    ensures |z| == n
  {
    seq(n, _ => 0)
  }

  /** The bytes of filesize once the stream's first eight bytes, or all there are, have been stored over zeros. */
  function SizeBytes(stream: seq<byte>): (b: seq<byte>)
    ensures |b| == HEADER
  {
    var k := Min(HEADER, |stream|);
    stream[..k] + Zeros(HEADER - k)
  }

  function LittleEndian(b: seq<byte>): nat {
    if b == [] then 0 else b[0] as int + 256 * LittleEndian(b[1..])
  }

  function Declared(stream: seq<byte>): nat {
    LittleEndian(SizeBytes(stream))
  }

  /** A byte of the stream, or the zero that the server has in its place. */
  ghost function ByteAt(stream: seq<byte>, i: nat): int {
    if i < |stream| then stream[i] as int else 0
  }

  /** The declared size in the bytes of the stream, the first of them counting one. */
  lemma DeclaredInBytes(stream: seq<byte>)
    ensures Declared(stream) ==
      ByteAt(stream, 0) + 0x100 * ByteAt(stream, 1) + 0x1_0000 * ByteAt(stream, 2) + 0x100_0000 * ByteAt(stream, 3)
      + 0x1_0000_0000 * ByteAt(stream, 4) + 0x100_0000_0000 * ByteAt(stream, 5)
      + 0x1_0000_0000_0000 * ByteAt(stream, 6) + 0x100_0000_0000_0000 * ByteAt(stream, 7)
  {
    var b := SizeBytes(stream);
    assert forall i :: 0 <= i < HEADER ==> b[i] as int == ByteAt(stream, i);
    hide LittleEndian, SizeBytes;
    FromByte(b, 7);
    FromByte(b, 6);
    FromByte(b, 5);
    FromByte(b, 4);
    FromByte(b, 3);
    FromByte(b, 2);
    FromByte(b, 1);
    FromByte(b, 0);
    assert b[0..] == b && b[8..] == [];
    NoBytes();
  }

  lemma FromByte(b: seq<byte>, i: nat)
    requires i < |b|
    ensures LittleEndian(b[i..]) == b[i] as int + 256 * LittleEndian(b[i + 1..])
  {
    assert b[i..][1..] == b[i + 1..];
  }

  lemma NoBytes()
    ensures LittleEndian([]) == 0
  {}

  function Body(stream: seq<byte>): seq<byte> {
    stream[Min(HEADER, |stream|)..]
  }

  /**
   * Whether an upload that declares n bytes and has `total` to come is accepted, once datasz of
   * them are stored: data is judged a chunk at a time.
   */
  predicate Accepted(n: nat, total: nat, datasz: nat)
    requires datasz <= total
    decreases total - datasz
  {
    var chunk := Min(CHUNK, total - datasz);
    var d := datasz + chunk;
    if d > n then false
    else if d == n then true
    else if chunk < CHUNK then false
    else Accepted(n, total, d)
  }

  /** Accepted exactly when the body has the declared size, or is longer and the size is a positive number of chunks. */
  lemma {:induction false} AcceptedExactly(n: nat, total: nat, datasz: nat)
    requires datasz <= total && datasz % CHUNK == 0 && (datasz == 0 || datasz < n)
    ensures Accepted(n, total, datasz) <==> total == n || (n > 0 && n % CHUNK == 0 && total >= n)
    decreases total - datasz
  {
    var chunk := Min(CHUNK, total - datasz);
    var d := datasz + chunk;
    if d < n && chunk == CHUNK {
      AcceptedExactly(n, total, d);
    }
  }

  // ---- The job --------------------------------------------------------------------------------------

  datatype JobState = ReadSize | Serving | ReadData | Done | WriteResponse | Error

  class Job {
    var state: JobState
    var readsz: nat
    var datasz: nat
    const filesize: array<byte>
    const buf: array<byte>
    var file: Option<seq<byte>> // what the file system holds under the job's name
    var listed: bool

    constructor ()
      ensures Shaped() && fresh(filesize) && fresh(buf)
      ensures state == ReadSize && readsz == 0 && datasz == 0 && filesize[..] == Zeros(HEADER)
    {
      state := ReadSize;
      readsz := 0;
      datasz := 0;
      filesize := new byte[HEADER](_ => 0);
      buf := new byte[CHUNK](_ => 0);
      file := None;
      listed := false;
      new;
      assert filesize[..] == Zeros(HEADER);
    }

    ghost predicate Shaped() {
      filesize.Length == HEADER && buf.Length == CHUNK && filesize != buf
    }

    // The stream has been consumed up to here, and what was consumed is where it belongs.
    ghost predicate Progress(conn: Connection, stream: seq<byte>)
      reads this, filesize, buf, conn
    {
      Shaped() &&
      var body := Body(stream);
      match state
      case ReadSize =>
        && datasz == 0 && readsz <= Min(HEADER, |stream|)
        && filesize[..] == stream[..readsz] + Zeros(HEADER - readsz)
        && conn.rest == stream[readsz..]
      case Serving =>
        && filesize[..] == SizeBytes(stream)
        && datasz == 0 && readsz <= Min(CHUNK, |body|)
        && buf[..readsz] == body[..readsz]
        && conn.rest == body[readsz..]
      case ReadData =>
        && filesize[..] == SizeBytes(stream)
        && readsz <= CHUNK && datasz + readsz <= |body| && datasz < Declared(stream)
        && buf[..readsz] == body[datasz..datasz + readsz]
        && conn.rest == body[datasz + readsz..]
        && file == Some(body[..datasz])
        && Accepted(Declared(stream), |body|, 0) == Accepted(Declared(stream), |body|, datasz)
      case _ => false
    }

    // The data is complete and accepted.
    ghost predicate Complete(stream: seq<byte>)
      reads this
    {
      && state == Done && Accepted(Declared(stream), |Body(stream)|, 0)
      && Declared(stream) <= |Body(stream)| && file == Some(Body(stream)[..Declared(stream)])
    }

    ghost predicate Refused(stream: seq<byte>)
      reads this
    {
      state == Error && !Accepted(Declared(stream), |Body(stream)|, 0) && file == None
    }

    /** The file is stored with exactly the declared bytes, or the upload is refused and no file is left. */
    ghost predicate Finished(stream: seq<byte>)
      reads this
    {
      || (state == WriteResponse && listed && Accepted(Declared(stream), |Body(stream)|, 0)
          && Declared(stream) <= |Body(stream)| && file == Some(Body(stream)[..Declared(stream)]))
      || Refused(stream)
    }

    method ClearBuf()
      requires Shaped()
      modifies buf
    {
      for i := 0 to buf.Length {
        buf[i] := 0;
      }
    }

    /** Lines 227-240. */
    method TakeSize(conn: Connection, ghost stream: seq<byte>) returns (ret: int)
      requires Progress(conn, stream) && state == ReadSize
      modifies this, filesize, buf, conn
      ensures Progress(conn, stream)
      ensures ret == 1 || (ret == 0 && state == Serving)
      ensures Again !in old(conn.events) ==> ret == 0 && Again !in conn.events
    {
      ghost var was := filesize[..];
      ghost var at := readsz;
      var offset;
      ret, offset := Reader(conn, filesize, readsz, HEADER - readsz);
      readsz := readsz + offset;
      SizeRead(stream, was, at, offset, filesize[..]);
      if ret == 1 { return 1; }
      assert readsz == Min(HEADER, |stream|);
      state := Serving;
      ClearBuf();
      readsz := 0;
      assert buf[..0] == Body(stream)[..0];
      return 0;
    }

    /** The reader call of lines 243 and 275: more of the current chunk, up to 1024 bytes of it. */
    method FillChunk(conn: Connection, ghost stream: seq<byte>) returns (ret: int)
      requires Progress(conn, stream) && (state == Serving || state == ReadData)
      modifies this, filesize, buf, conn
      ensures Progress(conn, stream)
      ensures state == old(state) && datasz == old(datasz)
      ensures ret == 1 || (ret == 0 && readsz == Min(CHUNK, |Body(stream)| - datasz))
      ensures Again !in old(conn.events) ==> ret == 0 && Again !in conn.events
    {
      hide Accepted, Declared, Body, SizeBytes;
      ghost var was := buf[..];
      ghost var at := readsz;
      ghost var body := Body(stream);
      ghost var size := filesize[..];
      var offset;
      ret, offset := Reader(conn, buf, readsz, CHUNK - readsz);
      assert filesize[..] == size;
      readsz := readsz + offset;
      ChunkRead(body, datasz, was, at, offset, buf[..]);
    }

    /** Lines 247-271: the first chunk creates the file. */
    method TakeFirst(conn: Connection, ghost stream: seq<byte>) returns (ret: int)
      requires Progress(conn, stream) && state == Serving
      modifies this, filesize, buf, conn
      ensures ret == 1 ==> state == Serving && Progress(conn, stream)
      ensures ret == 1 || ret == 0
      ensures ret == 0 ==>
        (state == ReadData && Progress(conn, stream)) || Complete(stream) || Refused(stream)
      ensures Again !in old(conn.events) ==> ret == 0 && Again !in conn.events
    {
      ghost var body := Body(stream);
      ret := FillChunk(conn, stream);
      if ret == 1 { return 1; }
      hide Body, SizeBytes;
      var n := LittleEndian(filesize[..]);
      datasz := datasz + readsz;
      file := Some(buf[..readsz]);
      if datasz > n {
        state := Error;
        file := None;
        return 0;
      }
      if datasz == n { state := Done; }
      if datasz < n && readsz < CHUNK {
        state := Error;
        file := None;
        return 0;
      }
      if datasz < n && readsz == CHUNK { state := ReadData; }
      readsz := 0;
      ClearBuf();
      assert buf[..0] == body[datasz..datasz];
    }

    /** Lines 275-301: every further chunk is appended. */
    method TakeMore(conn: Connection, ghost stream: seq<byte>) returns (ret: int)
      requires Progress(conn, stream) && state == ReadData
      modifies this, filesize, buf, conn
      ensures ret == 1 ==> state == ReadData && Progress(conn, stream)
      ensures ret == 1 || ret == 0
      ensures ret == 0 ==>
        (state == ReadData && Progress(conn, stream) && datasz > old(datasz)) || Complete(stream) || Refused(stream)
      ensures Again !in old(conn.events) ==> ret == 0 && Again !in conn.events
    {
      ghost var body := Body(stream);
      ret := FillChunk(conn, stream);
      if ret == 1 { return 1; }
      hide Body, SizeBytes;
      var n := LittleEndian(filesize[..]);
      assert body[..datasz] + body[datasz..datasz + readsz] == body[..datasz + readsz];
      datasz := datasz + readsz;
      file := Some((if file.Some? then file.value else []) + buf[..readsz]);
      if datasz > n {
        state := Error;
        file := None;
        return 0;
      } else if datasz == n {
        state := Done;
      } else {
        if readsz < CHUNK {
          state := Error;
          file := None;
          return 0;
        }
      }
      readsz := 0;
      ClearBuf();
      assert buf[..0] == body[datasz..datasz];
    }

    /** put: 1 when there is nothing more to read for now, 0 when the upload is decided. */
    method Put(conn: Connection, ghost stream: seq<byte>) returns (ret: int)
      requires Progress(conn, stream)
      modifies this, filesize, buf, conn
      ensures ret == 1 ==> Progress(conn, stream)
      ensures ret == 0 ==> Finished(stream)
      ensures ret == 1 || ret == 0
      ensures Again !in old(conn.events) ==> ret == 0
    {
      hide Accepted, Declared, Body, SizeBytes;
      if state == ReadSize {
        ret := TakeSize(conn, stream);
        if ret == 1 { return 1; }
      }
      if state == Serving {
        ret := TakeFirst(conn, stream);
        if ret == 1 { return 1; }
        if state == Error { return 0; }
      }
      while state == ReadData
        invariant if state == ReadData then Progress(conn, stream) else Complete(stream)
        invariant Again !in old(conn.events) ==> Again !in conn.events
        decreases if state == ReadData then |Body(stream)| + 1 - datasz else 0
      {
        ret := TakeMore(conn, stream);
        if ret == 1 { return 1; }
        if state == Error { return 0; }
      }
      // job done
      listed := true;
      state := WriteResponse;
      return 0;
    }
  }

  /**
   * The server's side of a whole upload: put is called again whenever more may have arrived,
   * and what read does during each call is anything at all.
   */
  method Serve(job: Job, conn: Connection, stream: seq<byte>, calls: seq<seq<Event>>) returns (decided: bool)
    requires job.Shaped() && job.state == ReadSize && job.readsz == 0 && job.datasz == 0
    requires job.filesize[..] == Zeros(HEADER) && conn.rest == stream
    modifies job, job.filesize, job.buf, conn
    ensures decided ==> job.Finished(stream)
    ensures (exists i :: 0 <= i < |calls| && Again !in calls[i]) ==> decided
  {
    hide Accepted, Declared, Body, SizeBytes;
    decided := false;
    assert stream[..0] + Zeros(HEADER) == Zeros(HEADER);
    var i := 0;
    while i < |calls|
      invariant 0 <= i <= |calls|
      invariant job.Progress(conn, stream)
      invariant forall k :: 0 <= k < i ==> Again in calls[k]
    {
      conn.events := calls[i];
      var ret := job.Put(conn, stream);
      if ret == 0 { return true; }
      i := i + 1;
    }
  }

  /** What Finished means in terms of the bytes alone: n is the declared size, and what follows it is the data. */
  lemma FinishedMeans(job: Job, stream: seq<byte>)
    requires job.Finished(stream)
    ensures var n, body := Declared(stream), if |stream| <= 8 then [] else stream[8..];
      && (job.state == WriteResponse <==> |body| == n || (n > 0 && n % 1024 == 0 && |body| >= n))
      && (job.state == WriteResponse ==> job.file == Some(body[..n]))
      && (job.state != WriteResponse ==> job.state == Error && job.file == None)
  {
    AcceptedExactly(Declared(stream), |Body(stream)|, 0);
  }

  lemma ChunkRead(body: seq<byte>, datasz: nat, was: seq<byte>, at: nat, offset: nat, now: seq<byte>)
    requires datasz + at + offset <= |body| && at + offset <= |was|
    requires was[..at] == body[datasz..datasz + at]
    requires now == was[..at] + body[datasz + at..][..offset] + was[at + offset..]
    ensures now[..at + offset] == body[datasz..datasz + at + offset]
    ensures body[datasz + at..][offset..] == body[datasz + at + offset..]
  {}

  lemma SizeRead(stream: seq<byte>, was: seq<byte>, at: nat, offset: nat, now: seq<byte>)
    requires at + offset <= Min(HEADER, |stream|)
    requires was == stream[..at] + Zeros(HEADER - at)
    requires now == was[..at] + stream[at..][..offset] + was[at + offset..]
    ensures now == stream[..at + offset] + Zeros(HEADER - at - offset)
    ensures stream[at..][offset..] == stream[at + offset..]
  {}
}
