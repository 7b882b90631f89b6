/**
 The chunk directory of one file on disk, and the ChunkedFile objects that read and write it.
 Several objects (a RemoteFile and the downloads it starts) share one Disk.
 */
module ChunkedFiles {
  import opened Wrappers
  import opened Blocks
  import opened Chunks
  import opened ReadLoops

  /** What a download remembers of the response headers, stored in the cache of the chunk directory. */
  datatype Headers = Headers(compressed: bool, contentLength: bool)

  class Disk {
    var chunkDir: bool                // does the directory of chunks exist
    var chunks: Files                 // its chunk files
    var size: Option<nat>             // ".file_size" in its cache
    var headers: Option<Headers>      // the header information in its cache
    var dest: Option<seq<Byte>>       // the finished file, when it exists

    /** What lies in the directory of chunks goes when the directory goes. */
    ghost predicate Valid()
      reads this
    {
      (!chunkDir ==> chunks == map[] && size.None? && headers.None?) && (headers.Some? ==> size.Some?)
    }

    /** The chunk directory belongs to the file `content`; chunks may be missing or torn. */
    ghost predicate Holds(content: seq<Byte>)
      reads this
    {
      Valid() && Agrees(chunks, content) && (size.Some? ==> size.value == |content|)
    }

    /** Everything on disk belongs to the file `content`. */
    ghost predicate Of(content: seq<Byte>)
      reads this
    {
      Holds(content) && (dest.Some? ==> dest.value == content)
    }

    constructor ()
      ensures Valid() && !chunkDir && dest.None?
    {
      chunkDir, chunks, size, headers, dest := false, map[], None, None, None;
    }
  }

  datatype Whence = FromStart | FromHere | FromEnd

  function Clamp(position: int, size: nat): nat {
    if position < 0 then 0 else if size < position then size else position
  }

  class ChunkedFile {
    const disk: Disk
    var position: int
    var knownSize: Option<nat>        // `_file_size`, filled in from the cache when first needed

    /** The value of the `file_size` property, or the exception that it raises. */
    function Size(): Result<nat, Error>
      reads this, disk
    {
      if knownSize.Some? then Success(knownSize.value)
      else if !disk.chunkDir then Failure(ChunkedFileDoesNotExist)
      else if disk.size.Some? then Success(disk.size.value)
      else Failure(ValueError)
    }

    ghost predicate Holds(content: seq<Byte>)
      reads this, disk
    {
      disk.Holds(content) && (knownSize.Some? ==> knownSize.value == |content|)
    }

    ghost predicate Of(content: seq<Byte>)
      reads this, disk
    {
      disk.Of(content) && (knownSize.Some? ==> knownSize.value == |content|)
    }

    constructor (disk: Disk)
      requires disk.Valid()
      modifies disk`chunkDir
      ensures this.disk == disk && position == 0 && knownSize.None?
      ensures disk.chunkDir && disk.Valid()
    {
      this.disk := disk;
      position, knownSize := 0, None;
      new;
      disk.chunkDir := true;
    }

    method FileSize() returns (r: Result<nat, Error>)
      modifies this`knownSize
      ensures r == old(Size())
      ensures knownSize == if r.Success? then Some(r.value) else None
    {
      if knownSize.Some? { return Success(knownSize.value); }
      if !disk.chunkDir { return Failure(ChunkedFileDoesNotExist); }
      knownSize := disk.size;
      r := if knownSize.None? then Failure(ValueError) else Success(knownSize.value);
    }

    method SetFileSize(value: nat) returns (r: Result<(), Error>)
      modifies this`knownSize, disk`size
      ensures r.Success? == disk.chunkDir
      ensures r.Success? ==> disk.size == knownSize == Some(value)
      ensures r.Failure? ==> r.error == ChunkedFileDoesNotExist && unchanged(this) && unchanged(disk)
    {
      if !disk.chunkDir { return Failure(ChunkedFileDoesNotExist); }
      disk.size, knownSize := Some(value), Some(value);
      r := Success(());
    }

    /** The new position is the requested one, clipped to the file. */
    method Seek(offset: int, whence: Whence) returns (r: Result<(), Error>)
      modifies this`position, this`knownSize
      ensures r.Success? == old(Size()).Success?
      ensures r.Success? ==>
                && knownSize == Some(old(Size()).value)
                && position == Clamp(offset + (match whence
                                               case FromStart => 0
                                               case FromHere => old(position)
                                               case FromEnd => knownSize.value), knownSize.value)
      ensures r.Success? ==>
                var target := match whence
                              case FromStart => offset
                              case FromHere => old(position) + offset
                              case FromEnd => knownSize.value + offset;
                && 0 <= position <= knownSize.value && (0 <= target <= knownSize.value ==> position == target)
                && (target < 0 ==> position == 0) && (knownSize.value < target ==> position == knownSize.value)
      ensures r.Failure? ==> r.error == old(Size()).error && knownSize.None?
    {
      match whence {
        case FromStart => position := offset;
        case FromHere => position := position + offset;
        case FromEnd =>
          var s := FileSize();
          if s.Failure? { return Failure(s.error); }
          position := s.value + offset;
      }
      var s := FileSize();
      if s.Failure? { return Failure(s.error); }
      position := Clamp(position, s.value);
      r := Success(());
    }

    /** What a read asks for can be gathered in finitely many turns: see `ReadLoops.LoopEndsIff`. */
    predicate ReadEnds(start: nat, size: int)
      reads this, disk
    {
      disk.chunkDir && Size().Success? ==>
        var n := ReadLength(Size().value, start, size);
        Bounded(disk.chunks, start, n) && !Stuck(disk.chunks, start, n)
    }

    /**
     The loop of `_read`, on any chunk files on which it ends, torn ones included: the bytes that the chunk
     files hold at these positions, unless a chunk in the way is missing.
     */
    method ReadAt(start: nat, size: int) returns (r: Result<(nat, seq<Byte>), Error>)
      requires ReadEnds(start, size)
      modifies this`knownSize
      ensures knownSize == if disk.chunkDir && old(Size()).Success? then Some(old(Size()).value) else old(knownSize)
      ensures !disk.chunkDir ==> r == Failure(ChunkedFileDoesNotExist)
      ensures disk.chunkDir && old(Size()).Failure? ==> r == Failure(ValueError)
      ensures disk.chunkDir && old(Size()).Success? ==>
                var n := ReadLength(old(Size()).value, start, size);
                if AllPresent(disk.chunks, start, n)
                then Readable(disk.chunks, start, n) && r == Success((start + n, Gathered(disk.chunks, start, n)))
                else r == Failure(ValueError)
      ensures r.Success? ==>
                r.value.0 == if old(Size()).value <= start then start
                             else if 0 <= size <= old(Size()).value - start then start + size
                             else old(Size()).value
    {
      if !disk.chunkDir { return Failure(ChunkedFileDoesNotExist); }
      var s := FileSize();
      if s.Failure? { return Failure(s.error); }
      hide ReadSoFar, AllPresent, Bounded, Stuck, Readable, Gathered, ReadPiece;
      var remaining := if size < 0 || s.value - start < size then s.value - start else size;
      ghost var n := ReadLength(s.value, start, size);
      ReadBegun(disk.chunks, start, n, remaining);
      var position: nat := start;
      var data: seq<Byte> := [];
      while 0 < remaining
        invariant knownSize == Some(s.value)
        invariant ReadSoFar(disk.chunks, start, n, position, remaining, data)
      {
        var index := position / CHUNK_SIZE;
        if index !in disk.chunks {
          ReadStops(disk.chunks, start, n, position, remaining, data);
          return Failure(ValueError);
        }
        var piece := ReadPiece(disk.chunks[index], position % CHUNK_SIZE, Min(remaining, CHUNK_SIZE));
        ReadTurn(disk.chunks, start, n, position, remaining, data);
        data, position, remaining := data + piece, position + |piece|, remaining - |piece|;
      }
      ReadDone(disk.chunks, start, n, position, remaining, data);
      r := Success((position, data));
    }

    method Read(size: int) returns (r: Result<seq<Byte>, Error>)
      requires 0 <= position && ReadEnds(position, size)
      modifies this`position, this`knownSize
      ensures knownSize == if disk.chunkDir && old(Size()).Success? then Some(old(Size()).value) else old(knownSize)
      ensures r.Success? <==> disk.chunkDir && old(Size()).Success?
                              && AllPresent(disk.chunks, old(position), ReadLength(old(Size()).value, old(position), size))
      ensures r.Success? ==>
                var n := ReadLength(old(Size()).value, old(position), size);
                && position == old(position) + n == old(position) + |r.value|
                && position == (if old(Size()).value <= old(position) then old(position)
                                else if 0 <= size <= old(Size()).value - old(position) then old(position) + size
                                else old(Size()).value)
                && Readable(disk.chunks, old(position), n) && r.value == Gathered(disk.chunks, old(position), n)
      ensures r.Failure? ==> position == old(position) && r.error == if disk.chunkDir then ValueError else ChunkedFileDoesNotExist
    {
      var a := ReadAt(position, size);
      if a.Failure? { return Failure(a.error); }
      position := a.value.0;
      r := Success(a.value.1);
    }

    /** `chunk_complete` for a file of known size. */
    predicate ChunkComplete(size: nat, index: nat)
      reads disk
    {
      Complete(disk.chunks, size, index)
    }

    method IsComplete(start: Option<int>, end: Option<int>) returns (r: Result<bool, Error>)
      modifies this`knownSize
      ensures knownSize == if old(Size()).Success? then Some(old(Size()).value) else None
      ensures old(Size()) == Failure(ValueError) ==> r == Success(false)
      ensures old(Size()) == Failure(ChunkedFileDoesNotExist) ==> r == Failure(ChunkedFileDoesNotExist)
      ensures old(Size()).Success? ==>
                var size := old(Size()).value;
                match WindowFor(size, start, end)
                case Failure(e) => r == Failure(e)
                case Success(w) => r == Success(AllComplete(disk.chunks, size, w.lo, w.hi))
    {
      var s := FileSize();
      if s == Failure(ValueError) { return Success(false); }
      if s.Failure? { return Failure(s.error); }
      var w := WindowFor(s.value, start, end);
      if w.Failure? { return Failure(w.error); }
      var index := w.value.lo;
      while index < w.value.hi
        invariant w.value.lo <= index
        invariant knownSize == Some(s.value)
        invariant AllComplete(disk.chunks, s.value, w.value.lo, index)
        decreases w.value.hi - index
      {
        if !ChunkComplete(s.value, index) { return Success(false); }
        index := index + 1;
      }
      r := Success(true);
    }

    /**
     The first run of missing chunks of the byte range and the bytes to request for it. Taking the
     chunks that the generator yields, it stops at the first one that does not follow its predecessor.
     */
    method GetNextMissingRange(start: Option<int>, end: Option<int>, full: bool) returns (r: Result<Option<Run>, Error>)
      modifies this`knownSize
      ensures r.Failure? <==> (start.Some? && end.Some? && start.value > end.value) || old(Size()).Failure?
      ensures r.Failure? ==> r.error == if start.Some? && end.Some? && start.value > end.value then ValueError else old(Size()).error
      ensures r.Success? ==> knownSize == Some(old(Size()).value)
      ensures r.Failure? ==> knownSize == old(knownSize)
      ensures r.Success? ==>
                var size := old(Size()).value;
                var w := WindowFor(size, start, end).value;
                && (r.value.None? <==> AllComplete(disk.chunks, size, w.lo, w.hi))
                && (r.value.Some? ==>
                      var run := r.value.value;
                      && IsFirstRun(disk.chunks, size, w, full, run.first, run.len)
                      && run.startByte == run.first * CHUNK_SIZE
                      && run.endByte + 1 == Start(size, run.first + run.len)
                      && run.endByte - run.startByte + 1 == SumExpected(size, run.first, run.first + run.len))
    {
      if start.Some? && end.Some? && start.value > end.value { return Failure(ValueError); }
      var s := FileSize();
      if s.Failure? { return Failure(s.error); }
      var size, w := s.value, WindowFor(s.value, start, end).value;
      var first := w.lo;
      while first < w.hi && ChunkComplete(size, first)
        invariant w.lo <= first
        invariant knownSize == Some(size)
        invariant AllComplete(disk.chunks, size, w.lo, first)
        decreases w.hi - first
      {
        first := first + 1;
      }
      if w.hi <= first { return Success(None); }
      var len := 1;
      var endByte := Min(first * CHUNK_SIZE + CHUNK_SIZE - 1, size - 1);
      if full {
        var index := first + 1;
        while index < w.hi
          invariant knownSize == Some(size)
          invariant 0 < len && first + len <= index <= w.hi
          invariant NoneComplete(disk.chunks, size, first, first + len)
          invariant first + len < index ==> Complete(disk.chunks, size, first + len)
          invariant endByte + 1 == Start(size, first + len)
        {
          if !ChunkComplete(size, index) {
            if index != first + len { break; }
            len, endByte := len + 1, Min(index * CHUNK_SIZE + CHUNK_SIZE - 1, size - 1);
          }
          index := index + 1;
        }
      }
      SpanIsSum(size, first, first + len);
      r := Success(Some(Run(first, len, first * CHUNK_SIZE, endByte)));
    }

    method WriteChunk(index: int, data: seq<Byte>) returns (r: Result<(), Error>)
      modifies this`knownSize, disk`chunks
      ensures old(Size()).Failure? ==> r == Failure(old(Size()).error) && knownSize == old(knownSize)
      ensures old(Size()).Success? ==>
                var size := old(Size()).value;
                && knownSize == Some(size)
                && (r.Success? <==> 0 <= index < ChunksCount(size) && disk.chunkDir && |data| == ExpectedSize(size, index))
                && (r.Failure? ==> r.error == if 0 <= index < ChunksCount(size) && !disk.chunkDir then ChunkedFileDoesNotExist else ValueError)
      ensures r.Success? ==> disk.chunks == old(disk.chunks)[index := data]
      ensures r.Failure? ==> disk.chunks == old(disk.chunks)
    {
      var s := FileSize();
      if s.Failure? { return Failure(s.error); }
      if !(-1 < index < ChunksCount(s.value)) { return Failure(ValueError); }
      if !disk.chunkDir { return Failure(ChunkedFileDoesNotExist); }
      if |data| != ExpectedSize(s.value, index) { return Failure(ValueError); }
      disk.chunks := disk.chunks[index := data];
      r := Success(());
    }

    /**
     Write the blocks to consecutive chunks, as far as both last, reporting each one written. A block of
     the wrong size stops everything, after the `written` blocks before it.
     */
    method WriteChunks(first: nat, len: nat, blocks: seq<seq<Byte>>) returns (r: Result<(), Error>, written: nat, reported: nat)
      modifies this`knownSize, disk`chunks
      ensures knownSize == old(knownSize) || (old(Size()).Success? && knownSize == Some(old(Size()).value))
      ensures written <= len && written <= |blocks|
      ensures disk.chunks == Stored(old(disk.chunks), first, blocks, written)
      ensures reported == |Flatten(blocks[..written])|
      ensures 0 < written ==> old(Size()).Success? && disk.chunkDir
      ensures old(Size()).Success? ==> forall k :: 0 <= k < written ==> Fits(old(Size()).value, first, blocks, k)
      ensures r.Success? ==> written == len || written == |blocks|
      ensures r.Failure? ==>
                && written < len && written < |blocks|
                && (old(Size()).Failure? ==> r.error == old(Size()).error)
                && (old(Size()).Success? ==>
                      var size := old(Size()).value;
                      && !(disk.chunkDir && Fits(size, first, blocks, written))
                      && r.error == if first + written < ChunksCount(size) && !disk.chunkDir then ChunkedFileDoesNotExist else ValueError)
    {
      written, reported := 0, 0;
      while written < len && written < |blocks|
        invariant knownSize == old(knownSize) || (old(Size()).Success? && knownSize == Some(old(Size()).value))
        invariant written <= len && written <= |blocks|
        invariant disk.chunks == Stored(old(disk.chunks), first, blocks, written)
        invariant reported == |Flatten(blocks[..written])|
        invariant 0 < written ==> old(Size()).Success? && disk.chunkDir
        invariant old(Size()).Success? ==> forall k :: 0 <= k < written ==> Fits(old(Size()).value, first, blocks, k)
      {
        r := WriteChunk(first + written, blocks[written]);
        if r.Failure? { return; }
        assert blocks[..written + 1][..written] == blocks[..written];
        written, reported := written + 1, reported + |blocks[written]|;
      }
      r := Success(());
    }

    method WriteAll(blocks: seq<seq<Byte>>) returns (r: Result<(), Error>, written: nat, reported: nat)
      modifies this`knownSize, disk`chunks
      ensures knownSize == if old(Size()).Success? then Some(old(Size()).value) else None
      ensures written <= |blocks| && disk.chunks == Stored(old(disk.chunks), 0, blocks, written)
      ensures reported == |Flatten(blocks[..written])|
      ensures 0 < written ==> old(Size()).Success? && disk.chunkDir
      ensures old(Size()).Success? ==> forall k :: 0 <= k < written ==> Fits(old(Size()).value, 0, blocks, k)
      ensures old(Size()).Failure? ==> r == Failure(old(Size()).error) && written == 0
      ensures r.Success? ==> written == |blocks| || written == ChunksCount(old(Size()).value)
      ensures r.Failure? && old(Size()).Success? ==>
                && written < |blocks| && !(disk.chunkDir && Fits(old(Size()).value, 0, blocks, written))
                && r.error == if disk.chunkDir then ValueError else ChunkedFileDoesNotExist
    {
      var s := FileSize();
      if s.Failure? { return Failure(s.error), 0, 0; }
      r, written, reported := WriteChunks(0, ChunksCount(s.value), blocks);
    }

    /** Concatenate all chunk files and move the result into place, replacing what is there. */
    method FinalizeFile(ghost content: seq<Byte>) returns (r: Result<(), Error>)
      requires Holds(content)
      modifies this`knownSize, disk`dest
      ensures Holds(content)
      ensures r.Success? <==> old(Size()).Success? && AllComplete(disk.chunks, |content|, 0, ChunksCount(|content|))
      ensures disk.dest == if r.Success? then Some(content) else old(disk.dest)
      ensures r.Failure? ==> r.error == if old(Size()) == Failure(ChunkedFileDoesNotExist) then ChunkedFileDoesNotExist else ValueError
    {
      var complete := IsComplete(None, None);
      if complete.Failure? { return Failure(complete.error); }
      if !complete.value { return Failure(ValueError); }
      var size := knownSize.value;
      var output: seq<Byte> := [];
      var index := 0;
      while index < ChunksCount(size)
        invariant index <= ChunksCount(size) && knownSize == Some(size)
        invariant output == content[..Start(|content|, index)]
      {
        assert Complete(disk.chunks, |content|, index);
        SliceSize(content, index);
        assert output + Slice(content, index) == content[..Start(|content|, index + 1)];
        output := output + disk.chunks[index];
        index := index + 1;
      }
      assert output == content;
      disk.dest := Some(output);
      r := Success(());
    }

    /** Hash the file chunk by chunk; `hash` is what the digest makes of all the bytes it was fed. */
    method Md5Checksum<Digest>(hash: seq<Byte> -> Digest, ghost content: seq<Byte>) returns (r: Result<Digest, Error>)
      requires Holds(content)
      modifies this`knownSize
      ensures knownSize == if old(Size()).Success? then Some(|content|) else None
      ensures r == if old(Size()) == Failure(ChunkedFileDoesNotExist) then Failure(ChunkedFileDoesNotExist)
                   else if old(Size()).Failure? || !AllComplete(disk.chunks, |content|, 0, ChunksCount(|content|)) then Failure(ValueError)
                   else if !disk.chunkDir then Failure(ChunkedFileDoesNotExist)
                   else Success(hash(content))
    {
      hide Bounded, Stuck, AllPresent, Readable, Gathered, Slice, ExpectedSize, Complete, Agrees;
      var complete := IsComplete(None, None);
      if complete.Failure? { return Failure(complete.error); }
      if !complete.value { return Failure(ValueError); }
      var fed: seq<Byte> := [];
      FinishedRead(disk.chunks, content, 0, CHUNK_SIZE);
      var next := ReadAt(0, CHUNK_SIZE);
      if next.Failure? { return Failure(next.error); }
      while next.value.1 != []
        invariant knownSize == Some(|content|)
        invariant next.Success? && |fed| <= |content| && fed == content[..|fed|]
        invariant var n := ReadLength(|content|, |fed|, CHUNK_SIZE);
                  next.value == (|fed| + n, if n == 0 then [] else content[|fed|..|fed| + n])
        decreases |content| - |fed|
      {
        fed := fed + next.value.1;
        FinishedRead(disk.chunks, content, next.value.0, CHUNK_SIZE);
        next := ReadAt(next.value.0, CHUNK_SIZE);
      }
      assert fed == content;
      r := Success(hash(fed));
    }

    method Delete() returns (r: Result<(), Error>)
      modifies disk`chunkDir, disk`chunks, disk`size, disk`headers
      ensures r.Success? == old(disk.chunkDir)
      ensures r.Failure? ==> r.error == OSError && unchanged(disk)
      ensures r.Success? ==> !disk.chunkDir && disk.Valid()
    {
      if !disk.chunkDir { return Failure(OSError); }
      disk.chunkDir, disk.chunks, disk.size, disk.headers := false, map[], None, None;
      r := Success(());
    }
  }

  /** What the loop of `_read` has done when it is at `position`, and that it will go on to the end. */
  ghost predicate ReadSoFar(files: Files, start: nat, n: nat, position: nat, remaining: int, data: seq<Byte>) {
    && start <= position
    && (if n == 0 then remaining <= 0 && position == start && data == []
        else 0 <= remaining && position + remaining == start + n
             && Readable(files, start, position - start) && data == Gathered(files, start, position - start)
             && Bounded(files, position, remaining) && !Stuck(files, position, remaining))
    && AllPresent(files, start, position - start)
  }

  lemma {:induction false} ReadBegun(files: Files, start: nat, n: nat, remaining: int)
    requires Bounded(files, start, n) && !Stuck(files, start, n) && if n == 0 then remaining <= 0 else remaining == n
    ensures ReadSoFar(files, start, n, start, remaining, [])
  {
  }

  lemma {:induction false} ReadStops(files: Files, start: nat, n: nat, position: nat, remaining: nat, data: seq<Byte>)
    requires ReadSoFar(files, start, n, position, remaining, data) && 0 < remaining && position / CHUNK_SIZE !in files
    ensures !AllPresent(files, start, n)
  {
    assert start / CHUNK_SIZE <= position / CHUNK_SIZE < TouchEnd(start, n);
  }

  lemma {:induction false} ReadDone(files: Files, start: nat, n: nat, position: nat, remaining: int, data: seq<Byte>)
    requires ReadSoFar(files, start, n, position, remaining, data) && remaining <= 0
    ensures AllPresent(files, start, n) && position == start + n
    ensures Readable(files, start, n) && data == Gathered(files, start, n)
  {
  }

  lemma {:induction false} ReadTurn(files: Files, start: nat, n: nat, position: nat, remaining: nat, data: seq<Byte>)
    requires ReadSoFar(files, start, n, position, remaining, data) && 0 < remaining && position / CHUNK_SIZE in files
    ensures var piece := Turn(files, position, remaining);
            && 0 < |piece| <= remaining
            && ReadSoFar(files, start, n, position + |piece|, remaining - |piece|, data + piece)
  {
    NotStuckGoesOn(files, position, remaining);
    GatherTurn(files, start, position, remaining);
    var piece := Turn(files, position, remaining);
    assert TouchEnd(start, position + |piece| - start) == position / CHUNK_SIZE + 1;
  }

  /** `chunk_generator`: the data cut at every multiple of CHUNK_SIZE. */
  method ChunkGenerator(data: seq<Byte>) returns (blocks: seq<seq<Byte>>)
    ensures |blocks| == ChunksCount(|data|)
    ensures forall k :: 0 <= k < |blocks| ==> blocks[k] == Slice(data, k)
    ensures Flatten(blocks) == data
  {
    blocks := [];
    var i := 0;
    while i < |data|
      invariant i == |blocks| * CHUNK_SIZE && |blocks| <= ChunksCount(|data|)
      invariant forall k :: 0 <= k < |blocks| ==> blocks[k] == Slice(data, k)
      invariant Flatten(blocks) == data[..Start(|data|, |blocks|)]
      decreases |data| - i
    {
      var block := data[i..Min(i + CHUNK_SIZE, |data|)];
      assert (blocks + [block])[..|blocks|] == blocks;
      blocks := blocks + [block];
      i := i + CHUNK_SIZE;
    }
  }

  /** When every chunk is complete, every read ends, and gives what the file holds. */
  lemma {:induction false} FinishedRead(files: Files, content: seq<Byte>, start: nat, size: int)
    requires Agrees(files, content) && AllComplete(files, |content|, 0, ChunksCount(|content|))
    ensures var n := ReadLength(|content|, start, size);
            && AllPresent(files, start, n) && Bounded(files, start, n) && !Stuck(files, start, n)
            && Readable(files, start, n)
            && Gathered(files, start, n) == (if n == 0 then [] else content[start..start + n])
            && Gathered(files, start, n) == if |content| <= start then []
                                            else if 0 <= size <= |content| - start then content[start..start + size]
                                            else content[start..]
  {
    var n := ReadLength(|content|, start, size);
    forall i | start / CHUNK_SIZE <= i < TouchEnd(start, n) ensures Complete(files, |content|, i) {
      assert i < ChunksCount(|content|);
    }
    CompleteIsReadable(files, |content|, start, n);
    GatheredIsContent(files, content, start, n);
  }

  /** A read of a complete file: its bytes from the position on, all of them for a negative size. */
  method ReadFinished(file: ChunkedFile, ghost content: seq<Byte>, size: int) returns (data: seq<Byte>)
    requires file.Holds(content) && file.disk.chunkDir && file.Size().Success? && 0 <= file.position <= |content|
    requires AllComplete(file.disk.chunks, |content|, 0, ChunksCount(|content|))
    modifies file`position, file`knownSize
    ensures size < 0 ==> data == content[old(file.position)..]
    ensures 0 <= size <= |content| - old(file.position) ==> data == content[old(file.position)..old(file.position) + size]
    ensures |content| - old(file.position) <= size ==> data == content[old(file.position)..]
    ensures file.position == old(file.position) + |data|
  {
    hide Bounded, Stuck, AllPresent, Readable, Gathered, Slice, ExpectedSize, Complete, Agrees;
    FinishedRead(file.disk.chunks, content, file.position, size);
    var r := file.Read(size);
    data := r.value;
  }

  /** Cutting data into chunks and writing them all: everything is complete, whatever chunk files were there. */
  method WriteWhole(file: ChunkedFile, data: seq<Byte>) returns (r: Result<(), Error>)
    requires file.Size() == Success(|data|) && file.disk.chunkDir
    modifies file`knownSize, file.disk`chunks
    ensures r.Success? && file.knownSize == Some(|data|)
    ensures AllComplete(file.disk.chunks, |data|, 0, ChunksCount(|data|)) && Agrees(file.disk.chunks, data)
  {
    var blocks := ChunkGenerator(data);
    ghost var before := file.disk.chunks;
    forall k | 0 <= k < |blocks| ensures Fits(|data|, 0, blocks, k) {
      SliceSize(data, k);
    }
    var written, reported;
    r, written, reported := file.WriteAll(blocks);
    StoredSlices(before, data, blocks, |blocks|);
    forall i: nat | i < ChunksCount(|data|) ensures Complete(file.disk.chunks, |data|, i) {
      SliceSize(data, i);
    }
  }

  /** Cutting data into chunks, writing them all and finalizing is the identity, from any chunk files before. */
  method RoundTrip(file: ChunkedFile, data: seq<Byte>) returns (r: Result<(), Error>)
    requires file.Size() == Success(|data|) && file.disk.chunkDir && file.disk.Valid()
    requires file.disk.size.Some? ==> file.disk.size.value == |data|
    modifies file`knownSize, file.disk`chunks, file.disk`dest
    ensures r.Success? && file.disk.dest == Some(data)
  {
    r := WriteWhole(file, data);
    r := file.FinalizeFile(data);
  }

  /**
   After any responses, to any requests and with any failures, from any files that agree with the content:
   finalizing and hashing work exactly if everything is complete, and then on exactly the content.
   */
  method FinishAfter<Digest>(file: ChunkedFile, content: seq<Byte>, ghost before: Files, ghost rs: seq<Response>, hash: seq<Byte> -> Digest)
    returns (digest: Result<Digest, Error>, r: Result<(), Error>)
    requires Agrees(before, content) && forall response <- rs :: Lawful(content, response)
    requires file.disk.chunkDir && file.disk.Valid() && file.disk.chunks == AfterResponses(before, content, rs)
    requires file.Size() == Success(|content|) && (file.disk.size.Some? ==> file.disk.size.value == |content|)
    modifies file`knownSize, file.disk`dest
    ensures digest.Success? <==> AllComplete(file.disk.chunks, |content|, 0, ChunksCount(|content|))
    ensures r.Success? <==> digest.Success?
    ensures digest.Success? ==> digest.value == hash(content) && file.disk.dest == Some(content)
    ensures digest.Failure? ==> file.disk.dest == old(file.disk.dest)
  {
    ResponsesAgree(before, content, rs);
    digest := file.Md5Checksum(hash, content);
    r := file.FinalizeFile(content);
  }
}
