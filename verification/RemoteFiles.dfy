/**
 RemoteFile: a remote file presented as an ordinary seekable file that is downloaded as it is read, and
 SlicedFile, which serves one HTTP byte range out of it.
 */
module RemoteFiles {
  import opened Wrappers
  import opened Chunks
  import opened ChunkedFiles
  import opened Downloads
  import opened ReadLoops

  /** What reading `size` bytes at `position` gives on a plain file; a negative size asks for all the rest. */
  function PlainRead(content: seq<Byte>, position: nat, size: int): seq<Byte> {
    if |content| <= position then []
    else if size < 0 || |content| < position + size then content[position..]
    else content[position..position + size]
  }

  /** An open handle on the finished file. */
  datatype Handle = Handle(bytes: seq<Byte>, position: nat)

  class RemoteFile {
    const disk: Disk
    const server: Server
    const file: ChunkedFile                // the ChunkedFile part of this object
    var handle: Option<Handle>             // `_dest_file_handle`

    /**
     Nothing is asked of the disk but that what is on it belongs to this file: chunks may come and go,
     be torn, the whole directory may be evicted, and the finished file may appear, at any time.
     */
    ghost predicate Valid()
      reads this, file, disk
    {
      && file.disk == disk && file.Of(server.content)
      && (disk.headers.Some? ==> disk.headers.value == Headers(server.compressed, server.sendsLength))
      && (handle.Some? ==> handle.value.bytes == server.content)
      && 0 <= file.position <= |server.content|
      && (file.knownSize.None? ==> file.position == 0)
    }

    /** The position that the user of this object is at. The `position` field is stale once there is a handle. */
    function Position(): int
      reads this, file
    {
      if handle.Some? then handle.value.position else file.position
    }

    constructor (disk: Disk, server: Server)
      requires disk.Of(server.content)
      requires disk.headers.Some? ==> disk.headers.value == Headers(server.compressed, server.sendsLength)
      modifies disk`chunkDir
      ensures Valid() && fresh(file) && this.disk == disk && this.server == server
      ensures Position() == 0 && handle.None? && disk.chunkDir
    {
      this.disk, this.server, handle := disk, server, None;
      file := new ChunkedFile(disk);
    }

    /** The `dest_file_handle` property: opens the finished file, at the current position, once it exists. */
    method OpenHandle()
      requires Valid()
      modifies this`handle
      ensures Valid() && Position() == old(Position())
      ensures handle.Some? <==> old(handle.Some?) || disk.dest.Some?
    {
      if handle.None? && disk.dest.Some? {
        handle := Some(Handle(disk.dest.value, file.position));
      }
    }

    /**
     Download what is missing of a range: `_start_transfer` and, if that says so, `_run_transfer`. A range out
     of order is an error, except where the size is not known yet and the download is not by byte ranges.
     */
    method Ensure(start: Option<int>, end: Option<int>) returns (r: Result<(), Error>)
      requires Valid()
      modifies file`knownSize, disk
      ensures Valid()
      ensures disk.dest == old(disk.dest)
      ensures old(file.Size()) == Failure(ChunkedFileDoesNotExist) ==> r == Failure(ChunkedFileDoesNotExist)
      ensures old(file.Size()) != Failure(ChunkedFileDoesNotExist) ==>
                if WindowFor(|server.content|, start, end).Failure? && (old(file.Size()).Success? || ByRanges())
                then r == Failure(ValueError) else r.Success?
      ensures r.Success? ==> file.Size().Success? && Fetched(start, end)
      ensures r.Success? && WindowFor(|server.content|, start, end).Success? ==>
                var w := WindowFor(|server.content|, start, end).value; disk.chunkDir == (w.lo < w.hi || old(disk.chunkDir))
      ensures r.Success? && WindowFor(|server.content|, start, end).Failure? ==> disk.chunkDir
    {
      hide Agrees, ExpectedSize, ChunksCount, Serves, Complete, AllComplete;
      WindowChunks(disk.chunks, start, end);
      var complete := file.IsComplete(start, end);
      if complete.Failure? { return Failure(complete.error); }
      if !complete.value {
        var transfer := NewTransfer(start, end);
        var ran := RunTransfer(transfer);
        if ran.Failure? { return Failure(ran.error); }
      }
      WindowChunks(disk.chunks, start, end);
      r := Success(());
    }

    /** A window without chunks is complete, and one with chunks only if there are chunk files. */
    lemma {:induction false} WindowChunks(files: Files, start: Option<int>, end: Option<int>)
      ensures WindowFor(|server.content|, start, end).Success? ==>
                var w := WindowFor(|server.content|, start, end).value;
                && (w.hi <= w.lo ==> AllComplete(files, |server.content|, w.lo, w.hi))
                && (w.lo < w.hi && AllComplete(files, |server.content|, w.lo, w.hi) ==> files != map[])
    {
      if WindowFor(|server.content|, start, end).Success? {
        var w := WindowFor(|server.content|, start, end).value;
        assert w.lo < w.hi && AllComplete(files, |server.content|, w.lo, w.hi) ==> Complete(files, |server.content|, w.lo);
      }
    }

    /** Downloads of this file go by byte ranges. */
    predicate ByRanges() {
      server.sendsLength && !server.compressed
    }

    /** The chunks of the range are there; when it is out of order, all are. */
    ghost predicate Fetched(start: Option<int>, end: Option<int>)
      reads disk
    {
      match WindowFor(|server.content|, start, end)
      case Success(w) => AllComplete(disk.chunks, |server.content|, w.lo, w.hi)
      case Failure(_) => AllComplete(disk.chunks, |server.content|, 0, ChunksCount(|server.content|))
    }

    /**
     The second half of `_start_transfer`: a started FileDownload of the range, which leaves the chunks in place.
     */
    method NewTransfer(start: Option<int>, end: Option<int>) returns (transfer: FileDownload<()>)
      requires Valid() && (WindowFor(|server.content|, start, end).Success? || file.Size() == Failure(ValueError))
      modifies disk`chunkDir, disk`size
      ensures Valid() && disk.chunkDir && (old(disk.size).Some? ==> disk.size == old(disk.size))
      ensures fresh(transfer) && fresh(transfer.file) && Serves(transfer)
      ensures transfer.rangeStart == start && transfer.rangeEnd == end
    {
      transfer := new FileDownload<()>(disk, server, start, end, true, false, None, (s: seq<Byte>) => (), []);
      var initialized := transfer.InitializeChunkedFile();
      if disk.headers.Some? {
        transfer.RestoreHeaders(disk.headers.value);
      }
      transfer.StartTransfer();
    }

    /** Its requests will be answered by any replies with which it reaches what it is asked for, failures that are retried included. */
    method Expect(transfer: FileDownload<()>)
      requires Serves(transfer)
      modifies transfer`replies
      ensures Serves(transfer)
    {
      hide transfer.Reachable, transfer.Held;
      var given: seq<Reply> := *;
      if transfer.Reachable(true, transfer.completed, transfer.TakesSize(), given)
         && transfer.Held(transfer.TakesSize(), given) == server.content {
        transfer.replies := given;
      }
    }

    /** A download of this file that will leave what it fetched with the chunks. */
    ghost predicate Serves(transfer: FileDownload<()>)
      reads this, disk, transfer, transfer.file, transfer.disk, transfer.file.disk
    {
      && transfer.disk == disk && transfer.server == server && transfer.file != file
      && transfer.Running() && transfer.started && transfer.keepChunks
      && transfer.Held(transfer.TakesSize(), transfer.replies) == server.content
      && (WindowFor(|server.content|, transfer.rangeStart, transfer.rangeEnd).Success? || !ByRanges() ==>
            transfer.Reachable(true, transfer.completed, transfer.TakesSize(), transfer.replies))
    }

    /** `_run_transfer`, which also saves the headers with the chunks. */
    method RunTransfer(transfer: FileDownload<()>) returns (r: Result<(), Error>)
      requires Valid() && disk.chunkDir && Serves(transfer)
      modifies disk, transfer, transfer.file
      ensures Valid() && disk.dest == old(disk.dest) && disk.chunkDir
      ensures WindowFor(|server.content|, transfer.rangeStart, transfer.rangeEnd).Success? || !ByRanges() ==>
                r.Success? && disk.size.Some? && Fetched(transfer.rangeStart, transfer.rangeEnd)
      ensures WindowFor(|server.content|, transfer.rangeStart, transfer.rangeEnd).Failure? && ByRanges() ==> r == Failure(ValueError)
    {
      Expect(transfer);
      r := transfer.Run();
      if r.Failure? { return; }
      disk.headers := Some(Headers(server.compressed, server.sendsLength));
    }

    /**
     A read returns exactly what a plain file with the remote content would give at this position, and
     moves there. It fails only if the chunk directory was evicted behind our back and there is nothing in it
     that this read has to fetch, or for a size below -1, which is taken for -1 where the size of the file is
     not known yet and the download is not by byte ranges.
     */
    method Read(size: int) returns (r: Result<seq<Byte>, Error>)
      requires Valid()
      modifies this`handle, file`position, file`knownSize, disk
      ensures Valid()
      ensures r.Success? ==> r.value == PlainRead(server.content, old(Position()), size)
      ensures r.Success? ==>
                var p := old(Position());
                && (|server.content| <= p ==> r.value == [])
                && (p <= |server.content| && size < 0 ==> r.value == server.content[p..])
                && (p <= |server.content| && 0 <= size <= |server.content| - p ==> r.value == server.content[p..p + size])
                && (p <= |server.content| && |server.content| - p <= size ==> r.value == server.content[p..])
      ensures r.Success? ==> Position() == old(Position()) + |r.value| && (handle.Some? || disk.chunkDir)
      ensures r.Failure? ==> Position() == old(Position())
      ensures r.Failure? ==>
                r.error == if old(handle.None? && disk.dest.None? && (file.Size() == Failure(ChunkedFileDoesNotExist) || -1 <= size))
                           then ChunkedFileDoesNotExist else ValueError
      ensures r.Success? <==>
                if old(handle.Some? || disk.dest.Some?) then -1 <= size
                else if size < -1 then old(file.Size()) == Failure(ValueError) && !ByRanges()
                else old(disk.chunkDir || (file.knownSize.Some? && file.position / CHUNK_SIZE < ChunksCount(|server.content|)))
    {
      OpenHandle();
      if handle.Some? {
        if size < -1 { return Failure(ValueError); }
        var Handle(bytes, position) := handle.value;
        var data := PlainRead(bytes, position, size);
        handle := Some(Handle(bytes, position + |data|));
        return Success(data);
      }
      r := ReadChunks(size);
    }

    /** The reading of chunks, downloaded first where they are missing, while there is no finished file. */
    method ReadChunks(size: int) returns (r: Result<seq<Byte>, Error>)
      requires Valid() && handle.None?
      modifies file`position, file`knownSize, disk
      ensures Valid()
      ensures r.Success? ==> r.value == PlainRead(server.content, old(file.position), size)
      ensures r.Success? ==> file.position == old(file.position) + |r.value| && disk.chunkDir
      ensures r.Failure? ==> file.position == old(file.position)
      ensures r.Failure? ==>
                r.error == if old(file.Size() == Failure(ChunkedFileDoesNotExist)) || -1 <= size then ChunkedFileDoesNotExist else ValueError
      ensures r.Success? <==>
                if size < -1 then old(file.Size()) == Failure(ValueError) && !ByRanges()
                else old(disk.chunkDir || (file.knownSize.Some? && file.position / CHUNK_SIZE < ChunksCount(|server.content|)))
    {
      hide Bounded, Stuck, AllPresent, Readable, Gathered, Agrees, Complete, ExpectedSize, AllComplete;
      var start, end := Some(file.position), if size != -1 then Some(file.position + size) else None;
      var fetched := Ensure(start, end);
      if fetched.Failure? { return Failure(fetched.error); }
      if -1 <= size {
        ReadableWindow(disk.chunks, server.content, file.position, size);
      } else {
        FinishedRead(disk.chunks, server.content, file.position, size);
      }
      r := file.Read(size);
    }

    /** The file size, asked of the server if need be, downloading the whole file if the server does not say. */
    method GetFileSize() returns (r: Result<nat, Error>)
      requires Valid()
      modifies file`knownSize, disk
      ensures Valid() && disk.dest == old(disk.dest)
      ensures r == if old(file.Size()) == Failure(ChunkedFileDoesNotExist) then Failure(ChunkedFileDoesNotExist) else Success(|server.content|)
      ensures file.knownSize == if r.Success? then Some(r.value) else None
      ensures disk.chunkDir == old(disk.chunkDir)
    {
      r := file.FileSize();
      if r != Failure(ValueError) { return r; }
      var transfer := NewTransfer(None, None);
      var total := transfer.file.FileSize();
      if total.Failure? || total.value == 0 {
        var run := RunTransfer(transfer);
      }
      r := file.FileSize();
    }

    /**
     Seeking to a position inside the file goes there, before and after the finished file appears.
     Outside they differ: chunks clip the position to the file, the finished file accepts any position
     beyond its end and refuses a negative one.
     */
    method Seek(offset: int, whence: Whence) returns (r: Result<(), Error>)
      requires Valid()
      modifies this`handle, file`position, file`knownSize, disk
      ensures Valid()
      ensures handle.Some? <==> old(handle.Some? || disk.dest.Some?)
      ensures var target := offset + (match whence
                                      case FromStart => 0
                                      case FromHere => old(Position())
                                      case FromEnd => |server.content|);
              && (handle.Some? ==> if 0 <= target then r.Success? && Position() == target
                                   else r == Failure(OSError) && Position() == old(Position()))
              && (handle.None? ==> if old(file.Size()) == Failure(ChunkedFileDoesNotExist) then
                                     r == Failure(ChunkedFileDoesNotExist) && Position() == old(Position())
                                   else
                                     r.Success? && Position() == Clamp(target, |server.content|) && file.knownSize.Some?)
      ensures handle.None? ==> disk.chunkDir == old(disk.chunkDir)
    {
      OpenHandle();
      if handle.Some? {
        var Handle(bytes, position) := handle.value;
        var target := offset + (match whence case FromStart => 0 case FromHere => position case FromEnd => |bytes|);
        if target < 0 { return Failure(OSError); }
        handle := Some(Handle(bytes, target));
        return Success(());
      }
      var size := GetFileSize();
      if size.Failure? { return Failure(size.error); }
      r := file.Seek(offset, whence);
    }
  }

  // ---- serving one byte range ----------------------------------------------------------------

  /** SlicedFile: at most the bytes start..end, inclusive at both ends, of a file. */
  class SlicedFile {
    const file: RemoteFile
    const start: nat
    const end: nat
    var remaining: int

    ghost predicate Valid()
      reads this, file, file.file, file.disk
    {
      && file.Valid() && start <= end < |file.server.content|
      && start <= file.Position() <= end + 1
      && remaining == end + 1 - file.Position()
    }

    /** The read cannot run into an evicted chunk directory: see `RemoteFile.Read`. */
    predicate Ready()
      reads this, file, file.file, file.disk
    {
      file.handle.Some? || file.disk.dest.Some? || file.disk.chunkDir || file.file.knownSize.Some?
    }

    constructor (file: RemoteFile, start: nat, end: nat)
      requires file.Valid() && start <= end < |file.server.content|
      requires file.handle.Some? || file.disk.dest.Some? || file.disk.chunkDir || file.file.knownSize.Some?
      modifies file`handle, file.file`position, file.file`knownSize, file.disk
      ensures Valid() && Ready() && this.file == file && this.start == start && this.end == end
      ensures file.Position() == start
    {
      this.file, this.start, this.end, this.remaining := file, start, end, end - start + 1;
      new;
      var sought := file.Seek(start, FromStart);
    }

    /** Every read returns the next bytes of the range, and as many as asked for, while there are any. */
    method Read(size: int) returns (r: Result<seq<Byte>, Error>)
      requires Valid() && Ready()
      modifies this`remaining, file`handle, file.file`position, file.file`knownSize, file.disk
      ensures Valid() && Ready() && r.Success?
      ensures |r.value| == if size < 0 then old(remaining) else Min(size, old(remaining))
      ensures file.Position() == old(file.Position()) + |r.value|
      ensures r.value == file.server.content[old(file.Position())..file.Position()]
    {
      if remaining <= 0 { return Success([]); }
      var n := if size < 0 then remaining else Min(size, remaining);
      r := file.Read(n);
      if r.Failure? { return r; }
      remaining := remaining - |r.value|;
    }
  }

  /**
   What other processes do to the disk between two calls: save the size and the headers, complete or tear
   chunks, finish the file and then remove its chunks. (Evicting chunks of an unfinished file is covered by `RemoteFile.Read` alone.)
   */
  method Interfere(disk: Disk, server: Server)
    requires disk.Of(server.content)
    requires disk.headers.Some? ==> disk.headers.value == Headers(server.compressed, server.sendsLength)
    modifies disk
    ensures disk.Of(server.content)
    ensures disk.headers.Some? ==> disk.headers.value == Headers(server.compressed, server.sendsLength)
    ensures disk.chunkDir || disk.dest.Some? || (!old(disk.chunkDir) && old(disk.dest).None?)
  {
    hide Slice, ExpectedSize;
    var chunks: Files := *;
    var size: bool, headers: bool, finish: bool, remove: bool := *, *, *, *;
    if disk.chunkDir && size {
      disk.size := Some(|server.content|);
    }
    if disk.size.Some? && headers {
      disk.headers := Some(Headers(server.compressed, server.sendsLength));
    }
    if disk.chunkDir && Agrees(chunks, server.content) {
      disk.chunks := chunks;
    }
    if finish {
      disk.dest := Some(server.content);
    }
    if remove && disk.dest.Some? {
      disk.chunkDir, disk.chunks, disk.size, disk.headers := false, map[], None, None;
    }
  }

  datatype Call = ReadCall(size: int) | SeekCall(offset: int, whence: Whence)

  /** The position that a seek asks for, from the position where the user is. */
  function Target(content: seq<Byte>, position: nat, offset: int, whence: Whence): int {
    offset + match whence case FromStart => 0 case FromHere => position case FromEnd => |content|
  }

  /** What is read is asked for with a size or with -1, and every seek stays inside the file. */
  predicate InRange(content: seq<Byte>, position: nat, calls: seq<Call>)
    decreases |calls|
  {
    calls == [] ||
    match calls[0]
    case ReadCall(size) => -1 <= size && InRange(content, position + |PlainRead(content, position, size)|, calls[1..])
    case SeekCall(offset, whence) =>
      var target := Target(content, position, offset, whence);
      0 <= target <= |content| && InRange(content, target, calls[1..])
  }

  /** What a plain file answers to a sequence of calls; a seek answers nothing. */
  function PlainAnswers(content: seq<Byte>, position: nat, calls: seq<Call>): seq<seq<Byte>>
    requires InRange(content, position, calls)
    decreases |calls|
  {
    if calls == [] then []
    else match calls[0]
      case ReadCall(size) =>
        var data := PlainRead(content, position, size);
        [data] + PlainAnswers(content, position + |data|, calls[1..])
      case SeekCall(offset, whence) => [[]] + PlainAnswers(content, Target(content, position, offset, whence), calls[1..])
  }

  /**
   For any sequence of reads and of seeks inside the file, from its start, its end or the current position,
   with any interference between the calls, a RemoteFile answers as a plain file with the remote content does.
   */
  method RefinesPlainFile(remote: RemoteFile, calls: seq<Call>) returns (answers: seq<seq<Byte>>)
    requires remote.Valid() && 0 <= remote.Position()
    requires remote.disk.chunkDir || remote.disk.dest.Some? || remote.handle.Some?
    requires InRange(remote.server.content, remote.Position(), calls)
    modifies remote`handle, remote.file`position, remote.file`knownSize, remote.disk
    ensures answers == PlainAnswers(remote.server.content, old(remote.Position()), calls)
    decreases |calls|
  {
    hide Agrees, ChunksCount, ExpectedSize, PlainRead;
    if calls == [] { return []; }
    Interfere(remote.disk, remote.server);
    match calls[0] {
      case ReadCall(size) =>
        var r := remote.Read(size);
        var rest := RefinesPlainFile(remote, calls[1..]);
        answers := [r.value] + rest;
      case SeekCall(offset, whence) =>
        var r := remote.Seek(offset, whence);
        var rest := RefinesPlainFile(remote, calls[1..]);
        answers := [[]] + rest;
    }
  }

  /** The number of bytes that reads of these sizes take out of a range with `remaining` bytes left. */
  function Served(remaining: nat, sizes: seq<int>): nat {
    if sizes == [] then 0
    else
      var n := if sizes[0] < 0 then remaining else Min(sizes[0], remaining);
      n + Served(remaining - n, sizes[1..])
  }

  lemma {:induction false} ServedAtMost(remaining: nat, sizes: seq<int>)
    ensures Served(remaining, sizes) <= remaining
  {
    if sizes != [] {
      ServedAtMost(remaining - if sizes[0] < 0 then remaining else Min(sizes[0], remaining), sizes[1..]);
    }
  }

  /** A read without a size takes all that is left. */
  lemma {:induction false} ServedAll(remaining: nat, sizes: seq<int>, k: nat)
    requires k < |sizes| && sizes[k] < 0
    ensures Served(remaining, sizes) == remaining
  {
    var n := if sizes[0] < 0 then remaining else Min(sizes[0], remaining);
    if k == 0 {
      ServedAtMost(0, sizes[1..]);
    } else {
      ServedAll(remaining - n, sizes[1..], k - 1);
    }
  }

  /** The reads of a server that keeps reading a SlicedFile: they add up to the bytes from where it stands. */
  method Serve(sliced: SlicedFile, sizes: seq<int>) returns (body: seq<Byte>)
    requires sliced.Valid() && sliced.Ready()
    modifies sliced`remaining, sliced.file`handle, sliced.file.file`position, sliced.file.file`knownSize, sliced.file.disk
    ensures sliced.Valid()
    ensures |body| == Served(old(sliced.remaining), sizes) && old(sliced.file.Position()) + |body| <= sliced.end + 1
    ensures body == sliced.file.server.content[old(sliced.file.Position())..old(sliced.file.Position()) + |body|]
    decreases |sizes|
  {
    hide Agrees, ChunksCount, ExpectedSize;
    ServedAtMost(sliced.remaining, sizes);
    if sizes == [] { return []; }
    Interfere(sliced.file.disk, sliced.file.server);
    var first := sliced.Read(sizes[0]);
    var rest := Serve(sliced, sizes[1..]);
    ghost var p := old(sliced.file.Position());
    PiecesJoin(sliced.file.server.content, p, p + |first.value|, p + |first.value| + |rest|);
    body := first.value + rest;
  }

  // ---- the response to a range request -------------------------------------------------------

  datatype Header = ContentLength(size: nat) | ContentRange(start: nat, end: nat, size: nat) | Other(name: string, value: string)

  datatype RangeAnswer = PartialContent(headers: seq<Header>) | NotSatisfiable(size: nat)

  function WithoutLength(headers: seq<Header>): seq<Header> {
    if headers == [] then []
    else WithoutLength(headers[..|headers| - 1]) + if headers[|headers| - 1].ContentLength? then [] else [headers[|headers| - 1]]
  }

  lemma {:induction false} OnlyLengthsGo(headers: seq<Header>)
    ensures forall h :: multiset(WithoutLength(headers))[h] == if h.ContentLength? then 0 else multiset(headers)[h]
  {
    if headers != [] {
      var front := headers[..|headers| - 1];
      OnlyLengthsGo(front);
      assert headers == front + [headers[|headers| - 1]];
    }
  }

  lemma {:induction false} RangeHeaders(base: seq<Header>, start: nat, end: nat, size: nat)
    requires start <= end
    ensures var headers := multiset(WithoutLength(base) + [ContentRange(start, end, size), ContentLength(end - start + 1)]);
            && (forall n :: headers[ContentLength(n)] == if n == end - start + 1 then 1 else 0)
            && (forall name, value :: headers[Other(name, value)] == multiset(base)[Other(name, value)])
  {
    OnlyLengthsGo(base);
  }

  /** The headers other than the length, and the length; all of them give the same one. */
  method SplitHeaders(base: seq<Header>, ghost length: nat) returns (headers: seq<Header>, size: nat)
    requires exists k :: 0 <= k < |base| && base[k].ContentLength?
    requires forall k :: 0 <= k < |base| && base[k].ContentLength? ==> base[k].size == length
    ensures headers == WithoutLength(base) && size == length
  {
    headers, size := [], 0;
    var k := 0;
    while k < |base|
      invariant k <= |base| && headers == WithoutLength(base[..k])
      invariant (exists j :: 0 <= j < k && base[j].ContentLength?) ==> size == length
    {
      assert base[..k + 1][..k] == base[..k];
      if base[k].ContentLength? {
        size := base[k].size;
      } else {
        headers := headers + [base[k]];
      }
      k := k + 1;
    }
    assert base[..k] == base;
  }

  /** Section 14.1.2 of RFC 9110: a byte range is satisfiable when its first position lies in the file. */
  predicate Satisfiable(size: nat, start: nat, end: nat) {
    start < size && start <= end
  }

  /**
   `get_range_response`, for the parsed range start..end of a file opened as `remote`: the body carries
   exactly as many bytes as the response announces, and they are the announced range. A range of a single
   byte is refused, although it is satisfiable: the code tests start >= end.
   */
  method GetRangeResponse(remote: RemoteFile, base: seq<Header>, start: nat, end: nat) returns (answer: RangeAnswer, sliced: SlicedFile?)
    requires remote.Valid() && (remote.disk.chunkDir || remote.disk.dest.Some? || remote.handle.Some?)
    requires start < |remote.server.content| && end < |remote.server.content|
    requires exists k :: 0 <= k < |base| && base[k].ContentLength?
    requires forall k :: 0 <= k < |base| && base[k].ContentLength? ==> base[k].size == |remote.server.content|
    modifies remote`handle, remote.file`position, remote.file`knownSize, remote.disk
    ensures answer.PartialContent? <==> Satisfiable(|remote.server.content|, start, end) && start != end
    ensures end <= start ==> answer == NotSatisfiable(|remote.server.content|) && sliced == null
    ensures start < end ==>
              && answer == PartialContent(WithoutLength(base)
                           + [ContentRange(start, end, |remote.server.content|), ContentLength(end - start + 1)])
              && sliced != null && fresh(sliced) && sliced.file == remote && sliced.end == end
              && sliced.Valid() && sliced.remaining == end - start + 1 && remote.Position() == start
    ensures start < end ==>
              && (forall n :: multiset(answer.headers)[ContentLength(n)] == if n == end - start + 1 then 1 else 0)
              && (forall name, value :: multiset(answer.headers)[Other(name, value)] == multiset(base)[Other(name, value)])
  {
    var headers, size := SplitHeaders(base, |remote.server.content|);
    hide WithoutLength;
    if end <= start {
      return NotSatisfiable(size), null;
    }
    RangeHeaders(base, start, end, size);
    sliced := new SlicedFile(remote, start, end);
    answer := PartialContent(headers + [ContentRange(start, end, size), ContentLength(end - start + 1)]);
  }

  /** The window of chunks that a read asks for contains every chunk that it goes through: so it reads the content. */
  /** Asked for the second of three bytes, which is in the file: the answer is that this cannot be satisfied. */
  method OneByteIsRefused(a: Byte, b: Byte, c: Byte) returns (answer: RangeAnswer)
    ensures Satisfiable(3, 1, 1) && answer == NotSatisfiable(3)
  {
    var disk := new Disk();
    assert Agrees(map[], [a, b, c]);
    var remote := new RemoteFile(disk, Server([a, b, c], true, false, true));
    var base := [ContentLength(3)];
    assert base[0].ContentLength?;
    var sliced;
    answer, sliced := GetRangeResponse(remote, base, 1, 1);
  }

  lemma {:induction false} ReadableWindow(files: Files, content: seq<Byte>, position: nat, size: int)
    requires -1 <= size && position <= |content| && Agrees(files, content)
    requires var w := WindowFor(|content|, Some(position), if size != -1 then Some(position + size) else None);
             w.Success? && AllComplete(files, |content|, w.value.lo, w.value.hi)
    ensures var n := ReadLength(|content|, position, size);
            && AllPresent(files, position, n) && Bounded(files, position, n) && !Stuck(files, position, n)
            && Readable(files, position, n) && Gathered(files, position, n) == PlainRead(content, position, size)
  {
    var w := WindowFor(|content|, Some(position), if size != -1 then Some(position + size) else None).value;
    var n := ReadLength(|content|, position, size);
    forall i | position / CHUNK_SIZE <= i < TouchEnd(position, n)
      ensures Complete(files, |content|, i)
    {
      assert w.lo <= i < w.hi;
    }
    CompleteIsReadable(files, |content|, position, n);
    GatheredIsContent(files, content, position, n);
  }
}
