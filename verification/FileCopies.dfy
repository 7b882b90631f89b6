/**
 Copying a file through a temporary file, with cancellation between blocks and a checksum before the
 destination is replaced (`Transfer`, `FileCopy`, `replace`).
 */
module FileCopies {
  import opened Wrappers
  import Chunks

  type Bytes = seq<Chunks.Byte>

  /** A block is as large as a chunk. */
  const BLOCK_SIZE := Chunks.CHUNK_SIZE

  datatype Error = AssertionError | TransferCanceled | TransferFailed | TransferNotYetCompleted | TransferNotYetClosed

  /** What can be seen at the destination before, during and after the copy. */
  predicate Allowed(seen: Option<Bytes>, first: Option<Bytes>, source: Bytes, sound: bool) {
    seen == first || seen == None || (sound && seen == Some(source))
  }

  /** Whether one of the first `n` checks asks for cancellation. */
  predicate CanceledBy(cancelled: nat -> bool, n: nat) {
    exists i: nat :: i < n && cancelled(i)
  }

  /** How often a copy of this many bytes checks: before each block, and once more at the end. */
  function Checks(size: nat): nat {
    (size + BLOCK_SIZE - 1) / BLOCK_SIZE + 1
  }

  /** How much is copied after this many blocks. */
  function CopiedAfter(blocks: nat, size: nat): nat {
    if blocks * BLOCK_SIZE <= size then blocks * BLOCK_SIZE else size
  }

  lemma {:induction false} OneMoreBlock(blocks: nat, size: nat)
    requires blocks < Checks(size)
    ensures CopiedAfter(blocks, size) == size <==> blocks + 1 == Checks(size)
    ensures CopiedAfter(blocks + 1, size)
         == if CopiedAfter(blocks, size) + BLOCK_SIZE <= size then CopiedAfter(blocks, size) + BLOCK_SIZE else size
  {
  }

  class FileCopy<Digest(==)> {
    const source: Bytes
    const checksum: Option<Digest>
    const hash: Bytes -> Digest

    /** The two files: the destination and the temporary file beside it. */
    var dest: Option<Bytes>
    var destTmp: Option<Bytes>

    var position: nat
    var hashed: Bytes
    var started: bool
    var completed: bool
    var finalized: bool
    var closed: bool
    var canceled: bool

    /** Everything that has stood at the destination so far, the oldest first. */
    ghost var seen: seq<Option<Bytes>>

    predicate Sound() {
      checksum.None? || checksum.value == hash(source)
    }

    ghost predicate Valid()
      reads this
    {
      && seen != [] && seen[|seen| - 1] == dest
      && (forall i :: 0 <= i < |seen| ==> Allowed(seen[i], seen[0], source, Sound()))
      && position <= |source| && hashed == source[..position]
      && (started && !closed ==> destTmp == Some(source[..position]))
      && (completed ==> position == |source| && (destTmp.Some? ==> destTmp == Some(source)))
      && (completed && closed && !finalized && Sound() ==> destTmp.Some?)
      && (canceled ==> closed && !completed)
      && (finalized ==> completed && closed && dest == Some(source) && Sound())
    }

    constructor (source: Bytes, dest: Option<Bytes>, leftover: Option<Bytes>, checksum: Option<Digest>, hash: Bytes -> Digest)
      ensures Valid() && !started && !closed && !completed && !finalized && !canceled
      ensures this.source == source && this.checksum == checksum && this.hash == hash
      ensures this.dest == dest && seen == [dest]
    {
      this.source, this.checksum, this.hash := source, checksum, hash;
      this.dest, destTmp, position, hashed := dest, leftover, 0, [];
      started, completed, finalized, closed, canceled := false, false, false, false, false;
      seen := [dest];
    }

    method Start() returns (r: Result<(), Error>)
      requires Valid() && !closed && !completed
      modifies this
      ensures Valid() && seen == old(seen) && !closed && !completed && started
      ensures r.Failure? <==> old(started)
      ensures r.Failure? ==> r.error == AssertionError && position == old(position)
      ensures r.Success? ==> position == 0 && destTmp == Some([])
      ensures finalized == old(finalized) && canceled == old(canceled)
    {
      if started {
        return Failure(AssertionError);
      }
      destTmp := Some([]);
      position, hashed, started := 0, [], true;
      r := Success(());
    }

    /** The next block of the source; empty at its end. */
    method ReadBlock() returns (block: Bytes)
      requires position <= |source|
      ensures position + |block| == (if position + BLOCK_SIZE <= |source| then position + BLOCK_SIZE else |source|)
      ensures source[position..position + |block|] == block
    {
      var end := if position + BLOCK_SIZE <= |source| then position + BLOCK_SIZE else |source|;
      block := source[position..end];
    }

    method WriteBlock(block: Bytes)
      requires Valid() && started && !closed && !completed
      requires position + |block| <= |source| && block == source[position..position + |block|]
      modifies this`destTmp, this`hashed, this`position
      ensures Valid() && position == old(position) + |block|
    {
      assert source[..position] + block == source[..position + |block|];
      destTmp := Some(destTmp.value + block);
      hashed := hashed + block;
      position := position + |block|;
    }

    /** `replace`: a destination that exists is removed, then the temporary file is renamed. */
    method MoveTmpToDest()
      requires Valid() && completed && closed && Sound() && destTmp == Some(source) && !finalized
      modifies this`dest, this`destTmp, this`finalized, this`seen
      ensures Valid() && finalized && dest == Some(source) && destTmp == None
      ensures old(seen) <= seen
    {
      if dest.Some? {
        dest := None;
        seen := seen + [dest];
      }
      dest, destTmp := destTmp, None;
      seen := seen + [dest];
      finalized := true;
    }

    method VerifyChecksum() returns (r: Result<(), Error>)
      requires Valid() && completed
      modifies this`destTmp
      ensures r == if Sound() then Success(()) else Failure(TransferFailed)
      ensures destTmp == if Sound() then old(destTmp) else None
    {
      assert source[..position] == source;
      if checksum.Some? && hash(hashed) != checksum.value {
        destTmp := None;
        return Failure(TransferFailed);
      }
      r := Success(());
    }

    /** Only a transfer that is completed and closed can replace the destination, and only once. */
    method Finalize() returns (r: Result<(), Error>)
      requires Valid()
      modifies this`dest, this`destTmp, this`finalized, this`seen
      ensures Valid() && old(seen) <= seen
      ensures r == if !completed then Failure(TransferNotYetCompleted) else if !closed then Failure(TransferNotYetClosed)
                   else if old(finalized) || Sound() then Success(()) else Failure(TransferFailed)
      ensures r.Success? ==> finalized && dest == Some(source)
      ensures r.Success? && !old(finalized) ==> checksum.None? || hash(source) == checksum.value
      ensures r == Failure(TransferFailed) ==> checksum.Some? && hash(source) != checksum.value
      ensures r.Failure? || old(finalized) ==> finalized == old(finalized) && dest == old(dest) && seen == old(seen)
      ensures r == Failure(TransferFailed) || (r.Success? && !old(finalized)) ==> destTmp == None
    {
      if !completed {
        return Failure(TransferNotYetCompleted);
      }
      if !closed {
        return Failure(TransferNotYetClosed);
      }
      if finalized {
        return Success(());
      }
      r := VerifyChecksum();
      if r.Failure? {
        return;
      }
      MoveTmpToDest();
    }

    /** Closes the files and removes the temporary one. */
    method Cancel()
      requires Valid() && started && !completed
      modifies this`closed, this`canceled, this`destTmp
      ensures Valid() && closed && canceled && destTmp == None
    {
      closed := true;
      destTmp := None;
      canceled := true;
    }

    /** `__exit__`: closes what is open, and cancels what is not completed. */
    method Exit()
      requires Valid() && started
      modifies this`closed, this`canceled, this`destTmp
      ensures Valid() && closed && (!completed ==> canceled && destTmp == None)
      ensures completed ==> destTmp == old(destTmp) && canceled == old(canceled)
    {
      if completed {
        closed := true;
      } else {
        Cancel();
      }
    }

    /**
     Copies block by block. Canceled if one of the checks says so; then, or if the checksum is not that of
     the source, the destination is as before; otherwise it is the whole source. The temporary file is gone
     in every case.
     */
    method Run(cancelled: nat -> bool) returns (r: Result<(), Error>, reported: nat)
      requires Valid() && started && !closed && !completed && position == 0 && !canceled && !finalized
      modifies this
      ensures Valid() && old(seen) <= seen && closed && destTmp == None
      ensures r == if CanceledBy(cancelled, Checks(|source|)) then Failure(TransferCanceled)
                   else if Sound() then Success(()) else Failure(TransferFailed)
      ensures r.Success? ==> completed && finalized && dest == Some(source) && (checksum.None? || hash(source) == checksum.value)
      ensures r == Failure(TransferFailed) ==> checksum.Some? && hash(source) != checksum.value
      ensures r.Failure? ==> !finalized && dest == old(dest) && seen == old(seen)
      ensures canceled <==> r == Failure(TransferCanceled)
      ensures completed <==> !canceled
      ensures !canceled ==> reported == |source|
    {
      var checks := 0;
      reported := 0;
      while true
        invariant Valid() && started && !closed && !completed && !canceled && !finalized
        invariant seen == old(seen) && dest == old(dest)
        invariant reported == position == CopiedAfter(checks, |source|)
        invariant checks < Checks(|source|)
        invariant !CanceledBy(cancelled, checks)
        decreases Checks(|source|) - checks
      {
        OneMoreBlock(checks, |source|);
        if cancelled(checks) {
          Cancel();
          assert CanceledBy(cancelled, Checks(|source|));
          return Failure(TransferCanceled), reported;
        }
        checks := checks + 1;
        var block := ReadBlock();
        if block == [] {
          break;
        }
        WriteBlock(block);
        reported := reported + |block|;
      }
      assert source[..position] == source;
      completed := true;
      closed := true;
      r := Finalize();
    }
  }
}
