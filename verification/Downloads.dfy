/** FileDownload: one worker fetching the missing chunks of a byte range, and finalising whole files. */
module Downloads {
  import opened Wrappers
  import opened Blocks
  import opened Chunks
  import opened ChunkedFiles

  /** The remote end: the file it serves, whether its headers carry a content length or an encoding, and whether it honours range requests. */
  datatype Server = Server(content: seq<Byte>, sendsLength: bool, compressed: bool, ranges: bool)

  /** How the blocks of a response come to an end: quietly, or with an exception where the next would come. */
  datatype Ending = Ends | Breaks(error: Error)

  /** How a request is answered: the body in blocks of these sizes, as far as they go. */
  datatype Reply = Reply(sizes: seq<nat>, ending: Ending)

  const RETRY_STATUS_CODE: set<nat> := {502, 503, 504, 521, 522, 523, 524}

  /** `retry_import`, of the exceptions that a download can raise. */
  predicate Retried(error: Error) {
    match error
    case ConnectionError => true
    case Timeout => true
    case ChunkedEncodingError => true
    case HTTPError(status) => status in RETRY_STATUS_CODE
    case SSLError(badRecordMac) => badRecordMac
    case _ => false
  }

  /** No exception of the chunks or of the transfer itself is retried, and of the requests those of a bad connection or gateway. */
  lemma {:induction false} OnlyConnectionsAreRetried(error: Error)
    ensures Retried(error) <==>
      || error in {ConnectionError, Timeout, ChunkedEncodingError, SSLError(true)}
      || (error.HTTPError? && (502 <= error.status <= 504 || 521 <= error.status <= 524))
  {
  }

  /** A reply that does no harm: cut at the borders of the chunks, and what breaks it off is retried. */
  predicate Harmless(reply: Reply) {
    (forall n <- reply.sizes :: n == CHUNK_SIZE) && (reply.ending.Breaks? ==> Retried(reply.ending.error))
  }

  function Cut(body: seq<Byte>, sizes: seq<nat>): seq<seq<Byte>>
    decreases |sizes|
  {
    if sizes == [] || body == [] then []
    else
      var n := Min(sizes[0], |body|);
      [body[..n]] + Cut(body[n..], sizes[1..])
  }

  lemma {:induction false} FlattenFirst(block: seq<Byte>, rest: seq<seq<Byte>>)
    ensures Flatten([block] + rest) == block + Flatten(rest)
  {
    if rest == [] {
      assert [block] + rest == [block] && [block][..0] == [];
    } else {
      var blocks := [block] + rest;
      FlattenFirst(block, rest[..|rest| - 1]);
      assert blocks[..|blocks| - 1] == [block] + rest[..|rest| - 1];
    }
  }

  /** However a body is cut, the blocks are together a beginning of it. */
  lemma {:induction false} CutIsPrefix(body: seq<Byte>, sizes: seq<nat>)
    ensures Flatten(Cut(body, sizes)) <= body
    decreases |sizes|
  {
    if sizes != [] && body != [] {
      var n := Min(sizes[0], |body|);
      CutIsPrefix(body[n..], sizes[1..]);
      FlattenFirst(body[..n], Cut(body[n..], sizes[1..]));
      assert body == body[..n] + body[n..];
    }
  }

  /** Cut at the borders of the chunks, the blocks are slices. */
  lemma {:induction false} CutIsSlices(body: seq<Byte>, sizes: seq<nat>)
    requires forall n <- sizes :: n == CHUNK_SIZE
    ensures |Cut(body, sizes)| <= ChunksCount(|body|)
    ensures forall k :: 0 <= k < |Cut(body, sizes)| ==> Cut(body, sizes)[k] == Slice(body, k)
    decreases |sizes|
  {
    if sizes != [] && body != [] {
      assert sizes[0] in sizes;
      assert forall n <- sizes[1..] :: n in sizes;
      var n := Min(CHUNK_SIZE, |body|);
      var rest := Cut(body[n..], sizes[1..]);
      CutIsSlices(body[n..], sizes[1..]);
      forall k | 0 < k < |rest| + 1 ensures rest[k - 1] == Slice(body, k) {
        assert rest[k - 1] == Slice(body[n..], k - 1);
        SliceOfRest(body, k);
      }
    }
  }

  lemma {:induction false} SliceOfRest(body: seq<Byte>, k: nat)
    requires 0 < k < ChunksCount(|body|) && CHUNK_SIZE <= |body|
    ensures Slice(body[CHUNK_SIZE..], k - 1) == Slice(body, k)
  {
    var rest := body[CHUNK_SIZE..];
    PieceOfPiece(body, CHUNK_SIZE, |body|, Start(|rest|, k - 1), Start(|rest|, k));
    assert body[CHUNK_SIZE..|body|] == rest;
  }

  /** The chunks of the body sent for a run of chunks are the slices of the file for these chunks. */
  lemma {:induction false} RunBody(content: seq<Byte>, first: nat, len: nat)
    requires first + len <= ChunksCount(|content|)
    ensures var body := content[Start(|content|, first)..Start(|content|, first + len)];
            && ChunksCount(|body|) == len
            && forall k :: 0 <= k < len ==> Slice(body, k) == Slice(content, first + k)
  {
    if len == 0 { return; }
    SliceSize(content, first + len - 1);
    var lo, hi := Start(|content|, first), Start(|content|, first + len);
    forall k | 0 <= k < len
      ensures Slice(content[lo..hi], k) == Slice(content, first + k)
    {
      StartInRun(|content|, first, len, k);
      StartInRun(|content|, first, len, k + 1);
      PieceOfPiece(content, lo, hi, Start(hi - lo, k), Start(hi - lo, k + 1));
    }
  }

  /** Where the k-th chunk of the body sent for a run starts. */
  lemma {:induction false} StartInRun(size: nat, first: nat, len: nat, k: nat)
    requires first + len <= ChunksCount(size) && k <= len && 0 < len
    ensures Start(size, first) <= Start(size, first + k) <= Start(size, first + len)
    ensures Start(Start(size, first + len) - Start(size, first), k) == Start(size, first + k) - Start(size, first)
  {
  }

  /** Writing all the slices of a run succeeds, and completes the run. */
  lemma {:induction false} SlicesFit(content: seq<Byte>, first: nat, blocks: seq<seq<Byte>>)
    requires first + |blocks| <= ChunksCount(|content|)
    requires forall k :: 0 <= k < |blocks| ==> blocks[k] == Slice(content, first + k)
    ensures forall k :: 0 <= k < |blocks| ==> Fits(|content|, first, blocks, k)
  {
    forall k | 0 <= k < |blocks|
      ensures Fits(|content|, first, blocks, k)
    {
      SliceSize(content, first + k);
    }
  }

  /** The blocks of a body that are slices of it fit the chunks that the body is for. */
  lemma {:induction false} BodyFits(content: seq<Byte>, first: nat, len: nat, blocks: seq<seq<Byte>>)
    requires first + len <= ChunksCount(|content|) && |blocks| <= len
    requires var body := content[Start(|content|, first)..Start(|content|, first + len)];
             forall k :: 0 <= k < |blocks| ==> blocks[k] == Slice(body, k)
    ensures forall k :: 0 <= k < |blocks| ==> Fits(|content|, first, blocks, k)
  {
    RunBody(content, first, len);
    SlicesFit(content, first, blocks);
  }

  // ---- what a download of unknown size takes for the file -------------------------------------------

  /** What comes of this body by the next reply; once the given replies are used up, bodies come whole. */
  function Came(body: seq<Byte>, given: seq<Reply>): (came: seq<Byte>)
    ensures came <= body
  {
    if given == [] then body
    else
      CutIsPrefix(body, given[0].sizes);
      Flatten(Cut(body, given[0].sizes))
  }

  predicate BreaksOff(given: seq<Reply>) {
    given != [] && given[0].ending.Breaks?
  }

  /** What comes by the first reply that does not break. */
  function Taken(content: seq<Byte>, given: seq<Reply>): (taken: seq<Byte>)
    ensures taken <= content
  {
    if BreaksOff(given) then Taken(content, given[1..]) else Came(content, given)
  }

  /** The replies before that one break in ways that are retried. */
  predicate Comes(given: seq<Reply>) {
    BreaksOff(given) ==> Retried(given[0].ending.error) && Comes(given[1..])
  }

  /** A body of three bytes of which only the first has come when it ends, without an exception. */
  lemma {:induction false} CutShort(a: Byte, b: Byte, c: Byte)
    ensures Comes([Reply([1], Ends)]) && Taken([a, b, c], [Reply([1], Ends)]) == [a]
  {
    var body, given := [a, b, c], [Reply([1], Ends)];
    assert [1][1..] == [] && body[..1] == [a];
    assert Cut(body[1..], [1][1..]) == [];
    assert Cut(body, [1]) == [body[..1]] + [] == [[a]];
    assert Flatten([[a]]) == Flatten([[a]][..0]) + [a];
    assert Taken(body, given) == Came(body, given) == Flatten(Cut(body, [1]));
    assert [[a]][..0] == [];
  }

  /** What `get_next_missing_range` promises about its result. */
  ghost predicate Planned(files: Files, size: nat, w: Window, full: bool, next: Option<Run>) {
    match next
    case None => AllComplete(files, size, w.lo, w.hi)
    case Some(run) =>
      && IsFirstRun(files, size, w, full, run.first, run.len)
      && run.startByte == run.first * CHUNK_SIZE
      && run.endByte + 1 == Start(size, run.first + run.len)
  }

  ghost function MissingSet(files: Files, size: nat): set<nat> {
    set i: nat | i < ChunksCount(size) && !Complete(files, size, i)
  }

  lemma {:induction false} MissingShrinks(files: Files, files': Files, size: nat, first: nat)
    requires Grew(files, files', size) && first < ChunksCount(size)
    requires !Complete(files, size, first) && Complete(files', size, first)
    ensures MissingSet(files', size) < MissingSet(files, size)
  {
    assert first in MissingSet(files, size) && first !in MissingSet(files', size);
  }

  class FileDownload<Digest(==)> {
    const disk: Disk
    const server: Server
    const rangeStart: Option<int>
    const rangeEnd: Option<int>
    const keepChunks: bool                 // not `finalize_download`
    const fullRanges: bool
    const checksum: Option<Digest>
    const hash: seq<Byte> -> Digest
    const file: ChunkedFile                // `dest_file_obj`
    var replies: seq<Reply>                // how the next requests will be answered
    var headersSet: bool
    var headers: Headers
    var started: bool
    var completed: bool
    var closed: bool
    var finalized: bool

    ghost predicate Valid()
      reads this, file, disk
    {
      && file.disk == disk && file.Of(server.content) && (file.knownSize.Some? ==> disk.size.Some?)
      && (headersSet ==> headers == Headers(server.compressed, server.sendsLength) && (server.sendsLength ==> disk.size.Some?))
      && (started && !completed ==> headersSet)
      && (finalized ==> completed && closed && disk.dest == Some(server.content))
    }

    constructor (disk: Disk, server: Server, rangeStart: Option<int>, rangeEnd: Option<int>,
                 keepChunks: bool, fullRanges: bool, checksum: Option<Digest>, hash: seq<Byte> -> Digest, replies: seq<Reply>)
      requires disk.Of(server.content)
      modifies disk`chunkDir
      ensures fresh(file) && this.disk == disk && this.server == server && file.knownSize.None?
      ensures this.rangeStart == rangeStart && this.rangeEnd == rangeEnd
      ensures this.keepChunks == keepChunks && this.fullRanges == fullRanges && this.checksum == checksum && this.hash == hash
      ensures this.replies == replies
      ensures Valid() && disk.chunkDir && !headersSet && !started && !completed && !closed && !finalized
    {
      this.disk, this.server, this.rangeStart, this.rangeEnd := disk, server, rangeStart, rangeEnd;
      this.keepChunks, this.fullRanges, this.checksum, this.hash := keepChunks, fullRanges, checksum, hash;
      file := new ChunkedFile(disk);
      this.replies := replies;
      headersSet, started, completed, closed, finalized := false, false, false, false, false;
      headers := Headers(false, false);
    }

    /** The end of `__init__`: a download whose range is already there is completed from the start. */
    method InitializeChunkedFile() returns (r: Result<(), Error>)
      requires Valid() && disk.chunkDir && !started && !finalized
      modifies this`completed, file`knownSize
      ensures Valid() && file.Size() == old(file.Size())
      ensures r.Failure? ==> r.error == ValueError && completed == old(completed)
      ensures r.Success? ==> (completed <==> old(file.Size()).Success? && RangeComplete(server.content))
      ensures r.Success? && completed ==> file.knownSize.Some?
      ensures r.Success? <==> old(file.Size()).Failure? || WindowFor(|server.content|, rangeStart, rangeEnd).Success?
    {
      var c := file.IsComplete(rangeStart, rangeEnd);
      if c.Failure? { return Failure(c.error); }
      completed := c.value;
      r := Success(());
    }

    /** Every chunk that the byte range touches, of a file with these bytes, is on disk. */
    ghost predicate RangeComplete(held: seq<Byte>)
      reads disk
    {
      var w := WindowFor(|held|, rangeStart, rangeEnd);
      w.Success? && AllComplete(disk.chunks, |held|, w.value.lo, w.value.hi)
    }

    method SetHeaders()
      requires Valid() && disk.chunkDir
      modifies this`headersSet, this`headers, file`knownSize, disk`size
      ensures Valid() && headersSet
      ensures !server.sendsLength ==> file.Size() == old(file.Size())
    {
      if headersSet { return; }
      headers := Headers(server.compressed, server.sendsLength);
      if server.sendsLength {
        var r := file.SetFileSize(|server.content|);
      }
      headersSet := true;
    }

    /** Headers saved with the chunks by an earlier transfer; the size was saved before them. */
    method RestoreHeaders(saved: Headers)
      requires Valid() && saved == Headers(server.compressed, server.sendsLength) && disk.size.Some?
      modifies this`headersSet, this`headers
      ensures Valid() && headersSet
    {
      headers, headersSet := saved, true;
    }

    method StartTransfer()
      requires Valid() && disk.chunkDir
      modifies this`headersSet, this`headers, this`started, file`knownSize, disk`size
      ensures Valid() && started
      ensures completed ==> file.knownSize == old(file.knownSize) && disk.size == old(disk.size)
      ensures !server.sendsLength ==> file.Size() == old(file.Size())
    {
      if !completed {
        SetHeaders();
      }
      started := true;
    }

    /** The next request, for this body. Once the given replies are used up, bodies come whole. */
    method Request(body: seq<Byte>) returns (blocks: seq<seq<Byte>>, ending: Ending)
      modifies this`replies
      ensures replies == if old(replies) == [] then [] else old(replies)[1..]
      ensures Flatten(blocks) <= body
      ensures old(replies) == [] ==> ending == Ends && |blocks| == ChunksCount(|body|)
      ensures Flatten(blocks) == Came(body, old(replies))
      ensures old(replies) == [] || Harmless(old(replies)[0]) ==>
                |blocks| <= ChunksCount(|body|) && forall k :: 0 <= k < |blocks| ==> blocks[k] == Slice(body, k)
      ensures old(replies) != [] ==> ending == old(replies)[0].ending
    {
      if replies == [] {
        blocks := ChunkGenerator(body);
        return blocks, Ends;
      }
      var reply := replies[0];
      replies := replies[1..];
      CutIsPrefix(body, reply.sizes);
      if forall n <- reply.sizes :: n == CHUNK_SIZE {
        CutIsSlices(body, reply.sizes);
      }
      blocks, ending := Cut(body, reply.sizes), reply.ending;
    }

    /** Ask the server for the byte range of a run and write the blocks that come to its chunks. */
    method FetchRun(run: Run) returns (r: Result<(), Error>)
      requires file.disk == disk && file.Of(server.content) && disk.chunkDir && file.knownSize == Some(|server.content|)
      requires 0 < run.len && run.first + run.len <= ChunksCount(|server.content|)
      requires run.startByte == Start(|server.content|, run.first) && run.endByte + 1 == Start(|server.content|, run.first + run.len)
      modifies file`knownSize, disk`chunks, this`replies
      ensures file.Of(server.content) && file.knownSize == Some(|server.content|)
      ensures Grew(old(disk.chunks), disk.chunks, |server.content|)
      ensures replies == if old(replies) == [] then [] else old(replies)[1..]
      ensures old(replies) == [] ==> r.Success? && AllComplete(disk.chunks, |server.content|, run.first, run.first + run.len)
      ensures r.Failure? ==> r.error == ValueError || (old(replies)[0].ending.Breaks? && r.error == old(replies)[0].ending.error)
      ensures r.Failure? && Harmless(old(replies)[0]) ==> Retried(r.error)
    {
      hide Flatten, Slice, Agrees, ExpectedSize, Came, Stored, Grew, Complete;
      ghost var size := |server.content|;
      RunBody(server.content, run.first, run.len);
      var blocks, ending := Request(server.content[run.startByte..run.endByte + 1]);
      PrefixOfRest(server.content, run.startByte, run.endByte + 1);
      if old(replies) == [] || Harmless(old(replies)[0]) {
        BodyFits(server.content, run.first, run.len, blocks);
      }
      var written, reported;
      r, written, reported := file.WriteChunks(run.first, run.len, blocks);
      Delivered(old(disk.chunks), disk.chunks, server.content, run.first, blocks, written);
      if r.Success? && ending.Breaks? && written < run.len {
        r := Failure(ending.error);
      }
    }

    /** Ask the server for the whole file and write the blocks that come to all chunks. */
    method FetchAll() returns (r: Result<(), Error>)
      requires file.disk == disk && file.Of(server.content) && disk.chunkDir && file.Size().Success?
      modifies file`knownSize, disk`chunks, this`replies
      ensures file.Of(server.content) && file.knownSize == Some(|server.content|)
      ensures Grew(old(disk.chunks), disk.chunks, |server.content|)
      ensures replies == if old(replies) == [] then [] else old(replies)[1..]
      ensures old(replies) == [] ==> r.Success?
      ensures r.Success? && (old(replies) == [] || BreaksOff(old(replies))) ==>
                AllComplete(disk.chunks, |server.content|, 0, ChunksCount(|server.content|))
      ensures r.Failure? ==> r.error == ValueError || (old(replies)[0].ending.Breaks? && r.error == old(replies)[0].ending.error)
      ensures r.Failure? && Harmless(old(replies)[0]) ==> Retried(r.error)
    {
      hide Flatten, Slice, Agrees, ExpectedSize, ChunksCount, Came, Stored, Grew, Complete;
      var blocks, ending := Request(server.content);
      assert server.content[0..] == server.content && Start(|server.content|, 0) == 0;
      if old(replies) == [] || Harmless(old(replies)[0]) {
        SlicesFit(server.content, 0, blocks);
      }
      var written, reported;
      r, written, reported := file.WriteAll(blocks);
      assert 0 < written ==> Fits(|server.content|, 0, blocks, written - 1);
      Delivered(old(disk.chunks), disk.chunks, server.content, 0, blocks, written);
      if r.Success? && ending.Breaks? && written < ChunksCount(|server.content|) {
        r := Failure(ending.error);
      }
    }

    /** Under the locks of a run: fetch it, unless one of its chunks has been completed meanwhile. */
    method FetchUnlessThere(run: Run, ghost w: Window) returns (r: Result<(), Error>)
      requires file.disk == disk && file.Of(server.content) && disk.chunkDir && file.knownSize == Some(|server.content|)
      requires w.hi <= ChunksCount(|server.content|) && Planned(disk.chunks, |server.content|, w, fullRanges, Some(run))
      modifies file`knownSize, disk`chunks, this`replies
      ensures file.Of(server.content) && file.knownSize == Some(|server.content|)
      ensures Grew(old(disk.chunks), disk.chunks, |server.content|)
      ensures replies == if old(replies) == [] then [] else old(replies)[1..]
      ensures old(replies) == [] ==>
                r.Success? && Complete(disk.chunks, |server.content|, run.first) && !Complete(old(disk.chunks), |server.content|, run.first)
      ensures r.Failure? ==> r.error == ValueError || (old(replies)[0].ending.Breaks? && r.error == old(replies)[0].ending.error)
      ensures r.Failure? && Harmless(old(replies)[0]) ==> Retried(r.error)
    {
      assert !Complete(disk.chunks, |server.content|, run.first);
      if exists i :: run.first <= i < run.first + run.len && file.ChunkComplete(|server.content|, i) {
        assert false;
      } else if server.ranges {
        r := FetchRun(run);
      } else {
        r := FetchAll();
      }
    }

    /** The loop of `_run_byte_range_download`, with nobody else at work on the file; exceptions end it. */
    method RunByteRange() returns (r: Result<(), Error>)
      requires file.disk == disk && file.Of(server.content) && disk.chunkDir && file.Size().Success?
      modifies file`knownSize, disk`chunks, this`replies
      ensures file.Of(server.content) && Grew(old(disk.chunks), disk.chunks, |server.content|) && Suffix(old(replies), replies)
      ensures r.Success? ==> RangeComplete(server.content)
      ensures WindowFor(|server.content|, rangeStart, rangeEnd).Failure? ==> r == Failure(ValueError) && unchanged(disk)
      ensures WindowFor(|server.content|, rangeStart, rangeEnd).Success? && r.Failure? ==> |replies| < |old(replies)|
      ensures WindowFor(|server.content|, rangeStart, rangeEnd).Success? && r.Failure? && AllHarmless(old(replies)) ==> Retried(r.error)
    {
      hide Agrees, ExpectedSize, SumExpected, IsFirstRun;
      var next := file.GetNextMissingRange(rangeStart, rangeEnd, fullRanges);
      if next.Failure? { return Failure(next.error); }
      ghost var w := WindowFor(|server.content|, rangeStart, rangeEnd).value;
      while next.value.Some?
        invariant file.Of(server.content) && next.Success? && file.knownSize == Some(|server.content|)
        invariant Planned(disk.chunks, |server.content|, w, fullRanges, next.value)
        invariant Grew(old(disk.chunks), disk.chunks, |server.content|) && Suffix(old(replies), replies)
        decreases |replies|, MissingSet(disk.chunks, |server.content|)
      {
        ghost var before, asked := disk.chunks, replies;
        r := FetchUnlessThere(next.value.value, w);
        if r.Failure? { return; }
        if asked == [] {
          PlannedIsChunk(before, |server.content|, w, fullRanges, next.value.value);
          MissingShrinks(before, disk.chunks, |server.content|, next.value.value.first);
        }
        next := file.GetNextMissingRange(rangeStart, rangeEnd, fullRanges);
      }
      r := Success(());
    }

    /** The size was announced and the body is not encoded: the download goes by byte ranges. */
    predicate ByRanges() {
      server.sendsLength && !server.compressed
    }

    /** There is a download to run, not by ranges, and the size is not known: so it takes what comes for the file. */
    predicate TakesSize()
      reads this, file, file.disk
    {
      !completed && started && !ByRanges() && (file.Size().Failure? || file.Size().value == 0)
    }

    /** The file as the download has it in the end: the remote content, or what it took for that. */
    function Held(takes: bool, given: seq<Reply>): (held: seq<Byte>)
      ensures held <= server.content
    {
      if takes && Comes(given) then Taken(server.content, given) else server.content
    }

    /**
     `_run_no_byte_range_download_no_total_size`: the whole body first, whatever has come of it when it ends,
     then its length as the size of the file, then its chunks.
     */
    method TakeAll() returns (r: Result<(), Error>)
      requires file.disk == disk && file.Of(server.content) && disk.chunkDir
      modifies file`knownSize, disk`chunks, disk`size, this`replies
      ensures replies == if old(replies) == [] then [] else old(replies)[1..]
      ensures BreaksOff(old(replies)) ==> r == Failure(old(replies)[0].ending.error) && unchanged(disk) && unchanged(file)
      ensures !BreaksOff(old(replies)) ==>
                var came := Came(server.content, old(replies));
                r.Success? && file.Holds(came) && disk.size == Some(|came|) && Whole(came)
    {
      hide Came, Agrees, ExpectedSize, ChunksCount;
      var blocks, ending := Request(server.content);
      if ending.Breaks? { return Failure(ending.error); }
      var came := Flatten(blocks);
      var sized := file.SetFileSize(|came|);
      r := WriteWhole(file, came);
    }

    /** `_run_download`: by ranges when the size was announced and the body is not encoded, else at once. */
    method RunDownload() returns (r: Result<(), Error>)
      requires file.disk == disk && file.Of(server.content) && disk.chunkDir && started && !completed
      requires file.knownSize.Some? ==> disk.size.Some?
      requires headersSet && headers == Headers(server.compressed, server.sendsLength) && (server.sendsLength ==> disk.size.Some?)
      modifies file`knownSize, disk`chunks, disk`size, this`replies
      ensures Suffix(old(replies), replies)
      ensures old(TakesSize()) ==> Took(old(replies), r)
      ensures old(TakesSize()) && r.Failure? ==> unchanged(disk) && file.Size() == old(file.Size()) && file.Of(server.content)
      ensures !old(TakesSize()) ==>
                && file.Of(server.content) && disk.size == Some(|server.content|) && file.Size() == Success(|server.content|)
                && Grew(old(disk.chunks), disk.chunks, |server.content|)
      ensures !old(TakesSize()) ==> FetchedAsAsked(old(replies), r)
    {
      hide Agrees, ExpectedSize, ChunksCount, Came;
      var total := file.FileSize();
      if headers.contentLength && !headers.compressed {
        r := RunByteRange();
      } else if total.Success? && total.value != 0 {
        r := FetchAll();
      } else {
        r := TakeAll();
      }
    }

    /** What a download has done that takes what comes for the file: one reply is used up, and taken unless it broke. */
    ghost predicate Took(given: seq<Reply>, r: Result<(), Error>)
      reads this, file, disk, file.disk
    {
      && replies == (if given == [] then [] else given[1..])
      && if BreaksOff(given) then r == Failure(given[0].ending.error)
         else var came := Came(server.content, given); r.Success? && file.Holds(came) && disk.size == Some(|came|) && Whole(came)
    }

    /** What a download has done that knows the size, with these replies. */
    ghost predicate FetchedAsAsked(given: seq<Reply>, r: Result<(), Error>)
      reads this, file, disk, file.disk
    {
      var w := WindowFor(|server.content|, rangeStart, rangeEnd);
      && (r.Success? && ByRanges() ==> RangeComplete(server.content))
      && (r.Success? && !ByRanges() && (given == [] || BreaksOff(given)) ==> Whole(server.content))
      && (r.Failure? && (!ByRanges() || w.Success? || Retried(r.error)) ==> |replies| < |given|)
      && (r.Failure? && (!ByRanges() || w.Success?) && AllHarmless(given) ==> Retried(r.error))
      && (w.Failure? && ByRanges() ==> r == Failure(ValueError))
    }

    /** Does this download turn the chunks, of a file of this size, into the finished file at the end. */
    predicate Finalizes(size: nat) {
      Wanted() && (rangeEnd.None? || rangeEnd.value + 1 == size)
    }

    predicate Wanted() {
      !keepChunks && (rangeStart.None? || rangeStart.value == 0)
    }

    predicate Corrupt(held: seq<Byte>) {
      checksum.Some? && hash(held) != checksum.value
    }

    /**
     What `finalize` does, on chunks of the file `held`: nothing for a part of a file; else it wants the whole
     file, and the right one.
     */
    method Finalize(ghost held: seq<Byte>) returns (r: Result<(), Error>)
      requires file.disk == disk && file.Holds(held)
      modifies this`finalized, file`knownSize, disk
      ensures file.Holds(held)
      ensures r == if Wanted() && rangeEnd.Some? && old(file.Size()).Failure? then
                     Failure(if old(file.Size()).error == ValueError then TypeError else old(file.Size()).error)
                   else if !Finalizes(|held|) then Success(())
                   else if !completed then Failure(TransferNotYetCompleted)
                   else if !closed then Failure(TransferNotYetClosed)
                   else if old(finalized) then Success(())
                   else if old(file.Size()) == Failure(ChunkedFileDoesNotExist) then Failure(ChunkedFileDoesNotExist)
                   else if !old(Whole(held)) then Failure(ValueError)
                   else if checksum.Some? && !old(disk.chunkDir) then Failure(ChunkedFileDoesNotExist)
                   else if Corrupt(held) then Failure(TransferFailed) else Success(())
      ensures r == Failure(TransferFailed) ==> checksum.Some? && hash(held) != checksum.value && disk.dest == old(disk.dest)
      ensures disk.dest != old(disk.dest) ==> disk.dest == Some(held) && (checksum.None? || hash(held) == checksum.value)
      ensures old(!finalized && FinalizesNow(held)) ==>
                !disk.chunkDir && finalized == !Corrupt(held) && disk.dest == if Corrupt(held) then old(disk.dest) else Some(held)
      ensures !old(!finalized && FinalizesNow(held)) ==> unchanged(disk) && finalized == old(finalized)
    {
      if !Wanted() { return Success(()); }
      if rangeEnd.Some? {
        var total := file.FileSize();
        if total == Failure(ValueError) { return Failure(TypeError); }
        if total.Failure? { return Failure(total.error); }
        if rangeEnd.value + 1 != total.value { return Success(()); }
      }
      if !completed { return Failure(TransferNotYetCompleted); }
      if !closed { return Failure(TransferNotYetClosed); }
      if finalized { return Success(()); }
      if checksum.Some? {
        var digest := file.Md5Checksum(hash, held);
        if digest.Failure? { return Failure(digest.error); }
        if digest.value != checksum.value {
          var deleted := file.Delete();
          return Failure(TransferFailed);
        }
      }
      r := file.FinalizeFile(held);
      if r.Failure? { return; }
      var deleted := file.Delete();
      finalized := true;
      r := Success(());
    }

    /** Everything that `finalize` wants is there. */
    ghost predicate FinalizesNow(held: seq<Byte>)
      reads this, file, disk, file.disk
    {
      Finalizes(|held|) && completed && closed && Whole(held) && (checksum.Some? ==> disk.chunkDir)
    }

    method CompleteCloseAndFinalize(ghost held: seq<Byte>) returns (r: Result<(), Error>)
      requires file.disk == disk && file.Holds(held) && disk.chunkDir && !finalized && file.Size().Success?
      modifies this`completed, this`closed, this`finalized, file`knownSize, disk
      ensures file.Holds(held) && completed && closed && (r.Failure? ==> !Retried(r.error))
      ensures disk.dest == old(disk.dest) || (disk.dest == Some(held) && (checksum.None? || hash(held) == checksum.value))
      ensures disk.chunkDir ==> disk.chunks == old(disk.chunks)
      ensures r.Success? && Finalizes(|held|) ==> AsAsked(held, old(disk.dest), old(disk.headers), r)
      ensures old(disk.size == Some(|held|) && Got(held) && (Finalizes(|held|) ==> Whole(held))) ==>
                AsAsked(held, old(disk.dest), old(disk.headers), r)
    {
      completed := true;
      closed := true;
      r := Finalize(held);
    }

    /** Once around the retried part of `run`: exceptions of the download pass through it. */
    method Attempt() returns (r: Result<(), Error>)
      requires Running()
      modifies this`completed, this`closed, this`finalized, this`replies, file`knownSize, disk
      ensures Suffix(old(replies), replies) && (finalized ==> completed && closed)
      ensures !old(completed) && !started ==> r == Failure(NotStarted) && unchanged(disk)
      ensures var held := Held(old(TakesSize()), old(replies));
              && ((r.Failure? && Retried(r.error)) || file.Holds(held)) && (disk.dest == old(disk.dest) || disk.dest == Some(held))
              && (disk.dest != old(disk.dest) ==> checksum.None? || hash(held) == checksum.value)
              && (disk.chunkDir && held == server.content ==> Grew(old(disk.chunks), disk.chunks, |held|))
              && (r.Success? && (old(completed || TakesSize()) || ByRanges() || Finalizes(|held|)) ==>
                    AsAsked(held, old(disk.dest), old(disk.headers), r))
              && (Reachable(started, old(completed), old(TakesSize()), old(replies)) ==>
                    AsAsked(held, old(disk.dest), old(disk.headers), r) || (r.Failure? && Retried(r.error)))
      ensures r.Failure? && Retried(r.error) ==>
                && Running() && disk.chunkDir && |replies| < |old(replies)|
                && completed == old(completed) && TakesSize() == old(TakesSize())
                && Held(TakesSize(), replies) == Held(old(TakesSize()), old(replies))
                && (Reachable(started, completed, TakesSize(), old(replies)) ==> Reachable(started, completed, TakesSize(), replies))
                && disk.dest == old(disk.dest) && disk.headers == old(disk.headers)
      ensures !old(completed) && started && ByRanges() && WindowFor(|server.content|, rangeStart, rangeEnd).Failure? ==>
                r == Failure(ValueError) && !completed
      ensures !completed ==> disk.chunkDir && disk.dest == old(disk.dest) && disk.headers == old(disk.headers)
    {
      hide Agrees, Slice, ExpectedSize, ChunksCount;
      ghost var takes := TakesSize();
      ghost var held := Held(takes, replies);
      if !completed {
        if !started { return Failure(NotStarted); }
        r := RunDownload();
        if r.Failure? { return; }
      }
      if Finalizes(|held|) && WindowFor(|held|, rangeStart, rangeEnd).Success? {
        WholeWindow(|held|, rangeStart, rangeEnd);
      }
      r := CompleteCloseAndFinalize(held);
    }

    /**
     `run`: attempts until one succeeds or raises an exception that is not retried. Whatever the replies,
     the destination is as it was or the whole file that the download holds in the end, and the chunks are
     of that file; success by byte ranges, or with what came taken for the file, is what was asked for. When
     the replies do no harm, it is reached.
     The destination is as it was or the whole content exactly if no body was taken, cut short, for the file.
     */
    method Run() returns (r: Result<(), Error>)
      requires Running()
      modifies this`completed, this`closed, this`finalized, this`replies, file`knownSize, disk
      ensures finalized ==> completed && closed
      ensures !old(completed) && !started ==> r == Failure(NotStarted) && unchanged(disk)
      ensures r.Failure? ==> !Retried(r.error)
      ensures r.Failure? ==> r.error !in {ConnectionError, Timeout, ChunkedEncodingError, SSLError(true), HTTPError(502), HTTPError(503), HTTPError(504)}
      ensures var held := Held(old(TakesSize()), old(replies));
              && file.Holds(held) && (disk.dest == old(disk.dest) || disk.dest == Some(held))
              && (disk.dest != old(disk.dest) ==> checksum.None? || hash(held) == checksum.value)
              && (disk.chunkDir && held == server.content ==> Grew(old(disk.chunks), disk.chunks, |held|))
              && (r.Success? && (old(completed || TakesSize()) || ByRanges() || Finalizes(|held|)) ==>
                    AsAsked(held, old(disk.dest), old(disk.headers), r))
              && (Reachable(started, old(completed), old(TakesSize()), old(replies)) ==>
                    AsAsked(held, old(disk.dest), old(disk.headers), r))
      ensures !old(completed) && started && ByRanges() && WindowFor(|server.content|, rangeStart, rangeEnd).Failure? ==>
                r == Failure(ValueError) && !completed
      ensures !completed ==> disk.chunkDir && disk.dest == old(disk.dest) && disk.headers == old(disk.headers)
      ensures disk.dest == old(disk.dest) || disk.dest == Some(server.content) <==> !Truncates(old(TakesSize()), old(replies))
    {
      hide *;
      ghost var held := Held(TakesSize(), replies);
      RunningIsOf();
      GrewOn(disk.chunks, disk.chunks, disk.chunks, |server.content|);
      while true
        invariant Running() && completed == old(completed) && TakesSize() == old(TakesSize())
        invariant Held(TakesSize(), replies) == held
        invariant Reachable(started, completed, TakesSize(), old(replies)) ==> Reachable(started, completed, TakesSize(), replies)
        invariant disk.dest == old(disk.dest) && disk.headers == old(disk.headers)
        invariant held == server.content ==> Grew(old(disk.chunks), disk.chunks, |server.content|)
        invariant !old(completed) && !started ==> unchanged(disk)
        decreases |replies|
      {
        ghost var before := disk.chunks;
        r := Attempt();
        GrewOn(old(disk.chunks), before, disk.chunks, |server.content|);
        if r.Success? || !Retried(r.error) { break; }
      }
      if r.Failure? {
        OnlyConnectionsAreRetried(r.error);
      }
      DestinationIsContent(old(completed), old(TakesSize()), old(replies), old(disk.dest), old(disk.headers), r);
    }

    /** A body cut short is taken for the file, and finalized. */
    predicate Truncates(takes: bool, given: seq<Reply>) {
      && takes && Comes(given)
      && var taken := Taken(server.content, given); taken != server.content && Finalizes(|taken|) && !Corrupt(taken)
    }

    lemma {:induction false} RunningIsOf()
      requires Running()
      ensures disk.chunkDir && (disk.dest.Some? ==> disk.dest.value == server.content)
    {
    }

    lemma {:induction false} DestinationIsContent(done: bool, takes: bool, given: seq<Reply>,
                                                  dest: Option<seq<Byte>>, headers: Option<Headers>, r: Result<(), Error>)
      requires var held := Held(takes, given);
               && (disk.dest == dest || disk.dest == Some(held)) && (dest.Some? ==> dest.value == server.content)
               && (Reachable(started, done, takes, given) ==> AsAsked(held, dest, headers, r))
      ensures disk.dest == dest || disk.dest == Some(server.content) <==> !Truncates(takes, given)
    {
    }

    /**
     What is asked for can be had: what comes is taken for the file; or the range is in order and replies do
     no harm; or the replies to requests for the whole file do no harm and never end it quietly.
     */
    predicate Reachable(begun: bool, done: bool, takes: bool, given: seq<Reply>) {
      if takes then Comes(given)
      else
        && (done || begun) && (ByRanges() ==> WindowFor(|server.content|, rangeStart, rangeEnd).Success?)
        && (done || given == [] || (AllHarmless(given) && (ByRanges() || AllBreakOff(given))))
    }

    /** Ready for `run`: the chunk directory is there, and nothing was finalized. */
    ghost predicate Running()
      reads this, file, disk, file.disk
    {
      Valid() && disk.chunkDir && !finalized && (completed ==> file.Size().Success? && RangeComplete(server.content))
    }

    /** The size is known and every chunk is there. */
    ghost predicate Whole(held: seq<Byte>)
      reads file, disk, file.disk
    {
      file.Size().Success? && AllComplete(disk.chunks, |held|, 0, ChunksCount(|held|))
    }

    /** The range that was asked for is there; when that is out of order, everything is. */
    ghost predicate Got(held: seq<Byte>)
      reads this, file, disk, file.disk
    {
      if WindowFor(|held|, rangeStart, rangeEnd).Success? then RangeComplete(held) else Whole(held)
    }

    /** The outcome that was asked for: the range complete; or the file in place, unless it is corrupt. */
    ghost predicate AsAsked(held: seq<Byte>, dest: Option<seq<Byte>>, headers: Option<Headers>, r: Result<(), Error>)
      reads this, file, disk, file.disk
    {
      if !Finalizes(|held|) then
        r.Success? && disk.chunkDir && disk.size == Some(|held|) && Got(held) && !finalized
        && disk.dest == dest && disk.headers == headers
      else if Corrupt(held) then
        r == Failure(TransferFailed) && disk.dest == dest && !disk.chunkDir && !finalized
      else
        r.Success? && disk.dest == Some(held) && !disk.chunkDir && finalized
    }
  }

  /**
   A server that does not announce the size, and a response that ends after the first of three bytes: the
   download succeeds, and the finished file is that byte.
   */
  method TruncatedBodyIsFinished(a: Byte, b: Byte, c: Byte) returns (r: Result<(), Error>, disk: Disk)
    ensures r.Success? && disk.dest == Some([a])
  {
    disk := new Disk();
    assert Agrees(map[], [a, b, c]);
    var download := new FileDownload<()>(disk, Server([a, b, c], false, false, false), None, None, false, true, None,
                                         (s: seq<Byte>) => (), [Reply([1], Ends)]);
    var initialized := download.InitializeChunkedFile();
    download.StartTransfer();
    CutShort(a, b, c);
    assert download.TakesSize();
    assert download.Held(true, [Reply([1], Ends)]) == [a] && download.Reachable(true, false, true, [Reply([1], Ends)]);
    r := download.Run();
  }

  /** What is left when some of the replies have been used up. */
  predicate Suffix(before: seq<Reply>, after: seq<Reply>) {
    |after| <= |before| && after == before[|before| - |after|..]
  }

  lemma {:induction false} GrewOn(a: Files, b: Files, c: Files, size: nat)
    ensures Grew(a, a, size)
    ensures Grew(a, b, size) && Grew(b, c, size) ==> Grew(a, c, size)
  {
  }

  predicate AllBreakOff(replies: seq<Reply>) {
    forall reply <- replies :: reply.ending.Breaks?
  }

  predicate AllHarmless(replies: seq<Reply>) {
    forall reply <- replies :: Harmless(reply)
  }

  lemma {:induction false} PlannedIsChunk(files: Files, size: nat, w: Window, full: bool, run: Run)
    requires w.hi <= ChunksCount(size) && Planned(files, size, w, full, Some(run))
    ensures run.first < ChunksCount(size) && !Complete(files, size, run.first)
  {
  }

  lemma {:induction false} WholeWindow(size: nat, start: Option<int>, end: Option<int>)
    requires WindowFor(size, start, end).Success?
    requires (start.None? || start.value == 0) && (end.None? || end.value == size - 1)
    ensures WindowFor(size, start, end) == Success(Window(0, ChunksCount(size)))
  {
  }
}
