/**
 The loop that reads across chunk files: which bytes it gathers, and exactly when it ends.
 */
module ReadLoops {
  import opened Chunks

  /** The number of bytes a read of `size` returns at `position`; a negative size asks for all the rest. */
  function ReadLength(total: nat, position: nat, size: int): nat {
    if total <= position then 0
    else if size < 0 || total - position < size then total - position
    else size
  }

  /** The chunks first..end in which the n bytes from `start` on lie: TouchEnd gives `end`. */
  function TouchEnd(start: nat, n: nat): nat {
    if n == 0 then start / CHUNK_SIZE else (start + n - 1) / CHUNK_SIZE + 1
  }

  predicate AllPresent(files: Files, start: nat, n: nat) {
    forall i :: start / CHUNK_SIZE <= i < TouchEnd(start, n) ==> i in files
  }

  /** No chunk file in the way is longer than a chunk: none that `write_chunk` wrote, whole or torn, is. */
  predicate Bounded(files: Files, start: nat, n: nat) {
    forall i :: start / CHUNK_SIZE <= i < TouchEnd(start, n) && i in files ==> |files[i]| <= CHUNK_SIZE
  }

  /** What `f.seek(offset); f.read(limit)` gives on a file with these bytes. */
  function ReadPiece(file: seq<Byte>, offset: nat, limit: nat): (piece: seq<Byte>)
    ensures |piece| <= limit
  {
    if |file| <= offset then [] else file[offset..Min(offset + limit, |file|)]
  }

  /** What one turn of the loop reads. */
  function Turn(files: Files, position: nat, remaining: nat): (piece: seq<Byte>)
    requires position / CHUNK_SIZE in files
    ensures |piece| <= remaining
  {
    ReadPiece(files[position / CHUNK_SIZE], position % CHUNK_SIZE, Min(remaining, CHUNK_SIZE))
  }

  // ---- when the loop ends ---------------------------------------------------------------------

  /** After at most k turns the loop has read everything, or meets a chunk that is not there. */
  predicate EndsIn(files: Files, position: nat, remaining: nat, k: nat)
    decreases k
  {
    remaining == 0 || position / CHUNK_SIZE !in files
    || (k > 0 && var n := |Turn(files, position, remaining)|; EndsIn(files, position + n, remaining - n, k - 1))
  }

  predicate Ended(files: Files, position: nat, remaining: nat, k: nat) {
    EndsIn(files, position, remaining, k)
  }

  ghost predicate Ends(files: Files, position: nat, remaining: nat) {
    exists k: nat :: Ended(files, position, remaining, k)
  }

  /** Chunk file i is too short for this read, and no missing one stops the loop before it gets there. */
  predicate StuckAt(files: Files, position: nat, remaining: nat, i: nat) {
    && position / CHUNK_SIZE <= i < TouchEnd(position, remaining)
    && i in files && |files[i]| < CHUNK_SIZE && i * CHUNK_SIZE + |files[i]| < position + remaining
    && forall j :: position / CHUNK_SIZE <= j < i ==> j in files
  }

  predicate Stuck(files: Files, position: nat, remaining: nat) {
    exists i: nat :: i < TouchEnd(position, remaining) && StuckAt(files, position, remaining, i)
  }

  /** Where a turn leads: to the end of the read, of the chunk, or of the chunk file. */
  lemma {:induction false} TurnLength(files: Files, position: nat, remaining: nat)
    requires 0 < remaining && position / CHUNK_SIZE in files && Bounded(files, position, remaining)
    ensures var i, n := position / CHUNK_SIZE, |Turn(files, position, remaining)|;
            && (|files[i]| <= position % CHUNK_SIZE ==> n == 0)
            && (position % CHUNK_SIZE < |files[i]| ==> position + n == Min(position + remaining, i * CHUNK_SIZE + |files[i]|) && 0 < n)
  {
  }

  lemma {:induction false} StuckStays(files: Files, position: nat, remaining: nat, i: nat)
    requires 0 < remaining && Bounded(files, position, remaining) && StuckAt(files, position, remaining, i)
    ensures position / CHUNK_SIZE in files
    ensures var n := |Turn(files, position, remaining)|; 0 < remaining - n && StuckAt(files, position + n, remaining - n, i)
  {
    var first := position / CHUNK_SIZE;
    assert first in files;
    TurnLength(files, position, remaining);
  }

  lemma {:induction false} StuckForEver(files: Files, position: nat, remaining: nat, i: nat, k: nat)
    requires 0 < remaining && Bounded(files, position, remaining) && StuckAt(files, position, remaining, i)
    ensures !EndsIn(files, position, remaining, k)
    decreases k
  {
    StuckStays(files, position, remaining, i);
    if k > 0 {
      var n := |Turn(files, position, remaining)|;
      StuckForEver(files, position + n, remaining - n, i, k - 1);
    }
  }

  lemma {:induction false} NotStuckGoesOn(files: Files, position: nat, remaining: nat)
    requires 0 < remaining && position / CHUNK_SIZE in files && Bounded(files, position, remaining) && !Stuck(files, position, remaining)
    ensures var n := |Turn(files, position, remaining)|;
            && 0 < n && Bounded(files, position + n, remaining - n) && !Stuck(files, position + n, remaining - n)
            && (n == remaining || (position + n) == (position / CHUNK_SIZE + 1) * CHUNK_SIZE)
  {
    var first, n := position / CHUNK_SIZE, |Turn(files, position, remaining)|;
    TurnLength(files, position, remaining);
    assert !StuckAt(files, position, remaining, first);
    var later, left := position + n, remaining - n;
    forall i: nat | i < TouchEnd(later, left) ensures !StuckAt(files, later, left, i) {
      assert !StuckAt(files, position, remaining, i);
    }
  }

  lemma {:induction false} NotStuckEnds(files: Files, position: nat, remaining: nat) returns (k: nat)
    requires Bounded(files, position, remaining) && !Stuck(files, position, remaining)
    ensures EndsIn(files, position, remaining, k)
    decreases remaining
  {
    k := 0;
    if 0 < remaining && position / CHUNK_SIZE in files {
      NotStuckGoesOn(files, position, remaining);
      var n := |Turn(files, position, remaining)|;
      k := NotStuckEnds(files, position + n, remaining - n);
      k := k + 1;
    }
  }

  /** The loop ends if and only if it has nothing to read or no chunk file stops it: seen from the sizes alone. */
  lemma {:induction false} LoopEndsIff(files: Files, position: nat, remaining: nat)
    requires Bounded(files, position, remaining)
    ensures Ends(files, position, remaining) <==> remaining == 0 || !Stuck(files, position, remaining)
  {
    if remaining == 0 {
      assert Ended(files, position, remaining, 0);
    } else if Stuck(files, position, remaining) {
      var i: nat :| i < TouchEnd(position, remaining) && StuckAt(files, position, remaining, i);
      forall k: nat ensures !Ended(files, position, remaining, k) {
        StuckForEver(files, position, remaining, i, k);
      }
    } else {
      var k := NotStuckEnds(files, position, remaining);
      assert Ended(files, position, remaining, k);
    }
  }

  /** A chunk whose write was torn after its first byte, in a file that goes on: reading two bytes never ends. */
  lemma {:induction false} TornChunkStalls(first: Byte)
    ensures !Ends(map[0 := [first]], 0, 2)
  {
    assert StuckAt(map[0 := [first]], 0, 2, 0);
    LoopEndsIff(map[0 := [first]], 0, 2);
  }

  // ---- what it reads ---------------------------------------------------------------------------

  predicate Readable(files: Files, start: nat, n: nat) {
    forall p {:trigger p / CHUNK_SIZE} :: start <= p < start + n ==> p / CHUNK_SIZE in files && p % CHUNK_SIZE < |files[p / CHUNK_SIZE]|
  }

  /** The byte at each position, from the chunk file for it. */
  function Gathered(files: Files, start: nat, n: nat): (bytes: seq<Byte>)
    requires Readable(files, start, n)
  {
    seq(n, k requires 0 <= k < n => var p := start + k; assert p / CHUNK_SIZE in files; files[p / CHUNK_SIZE][p % CHUNK_SIZE])
  }

  /** A turn adds the bytes that follow. */
  lemma {:induction false} GatherTurn(files: Files, start: nat, position: nat, remaining: nat)
    requires start <= position && 0 < remaining && position / CHUNK_SIZE in files
    requires Bounded(files, position, remaining) && Readable(files, start, position - start)
    ensures var piece, n := Turn(files, position, remaining), position - start;
            && Readable(files, start, n + |piece|)
            && Gathered(files, start, n + |piece|) == Gathered(files, start, n) + piece
  {
    var piece, first := Turn(files, position, remaining), position / CHUNK_SIZE;
    forall p {:trigger p / CHUNK_SIZE} | position <= p < position + |piece|
      ensures p / CHUNK_SIZE == first && p % CHUNK_SIZE < |files[first]| && piece[p - position] == files[first][p % CHUNK_SIZE]
    {
      assert p % CHUNK_SIZE == position % CHUNK_SIZE + (p - position);
    }
  }

  /** What a complete chunk file holds is what the file holds there, and it stops no read. */
  lemma {:induction false} CompleteIsReadable(files: Files, total: nat, start: nat, n: nat)
    requires n == 0 || start + n <= total
    requires forall i :: start / CHUNK_SIZE <= i < TouchEnd(start, n) ==> Complete(files, total, i)
    ensures AllPresent(files, start, n) && Bounded(files, start, n) && !Stuck(files, start, n) && Readable(files, start, n)
  {
    forall i: nat | start / CHUNK_SIZE <= i < TouchEnd(start, n)
      ensures i in files && |files[i]| <= CHUNK_SIZE && !StuckAt(files, start, n, i)
    {
      assert Complete(files, total, i) && i < ChunksCount(total);
    }
    forall p {:trigger p / CHUNK_SIZE} | start <= p < start + n ensures p / CHUNK_SIZE in files && p % CHUNK_SIZE < |files[p / CHUNK_SIZE]| {
      assert Complete(files, total, p / CHUNK_SIZE);
    }
  }

  /** Read from complete chunks that agree with the content, the bytes gathered are those of the content. */
  lemma {:induction false} GatheredIsContent(files: Files, content: seq<Byte>, start: nat, n: nat)
    requires Agrees(files, content) && (n == 0 || start + n <= |content|)
    requires forall i :: start / CHUNK_SIZE <= i < TouchEnd(start, n) ==> Complete(files, |content|, i)
    ensures Readable(files, start, n)
    ensures Gathered(files, start, n) == if n == 0 then [] else content[start..start + n]
  {
    CompleteIsReadable(files, |content|, start, n);
    forall k | 0 <= k < n ensures Gathered(files, start, n)[k] == content[start + k] {
      var p := start + k;
      var i := p / CHUNK_SIZE;
      assert Complete(files, |content|, i);
      assert files[i] == Slice(content, i);
      SliceSize(content, i);
      assert p == i * CHUNK_SIZE + p % CHUNK_SIZE;
    }
  }
}
