/**
 The arithmetic of a chunked file: a file of `size` bytes is kept as `ChunksCount(size)` files of
 `CHUNK_SIZE` bytes each, the last one shorter. Everything here is about sizes and byte positions;
 the objects that read and write the chunk files are in module ChunkedFiles.
 */
module Chunks {
  import opened Wrappers

  type Byte = bv8

  /** The exceptions raised by the chunked file classes. */
  datatype Error =
    | ValueError
    | TypeError
    | ChunkedFileDoesNotExist
    | OSError
    | ConnectionError
    | Timeout
    | ChunkedEncodingError
    | HTTPError(status: nat)
    | SSLError(badRecordMac: bool)
    | TransferFailed
    | NotStarted
    | TransferNotYetCompleted
    | TransferNotYetClosed

  /** The chunk directory: the contents of the file `.chunk_i`, for each i that exists. */
  type Files = map<nat, seq<Byte>>

  const CHUNK_SIZE: nat := 131072

  function ChunksCount(size: nat): nat {
    (size + CHUNK_SIZE - 1) / CHUNK_SIZE
  }

  /** The code's own formula; it is only a size for the indices below `ChunksCount(size)`. */
  function ExpectedSize(size: nat, index: nat): int {
    if index < ChunksCount(size) - 1 then CHUNK_SIZE else size - CHUNK_SIZE * index
  }

  function Min(a: int, b: int): int {
    if a < b then a else b
  }

  /** The byte position where chunk `index` starts, clipped to the end of the file. */
  function Start(size: nat, index: nat): nat {
    Min(index * CHUNK_SIZE, size)
  }

  /** The bytes of `content` that chunk `index` has to hold. */
  function Slice(content: seq<Byte>, index: nat): seq<Byte> {
    content[Start(|content|, index)..Start(|content|, index + 1)]
  }

  predicate Complete(files: Files, size: nat, index: nat) {
    index in files && |files[index]| == ExpectedSize(size, index)
  }

  predicate AllComplete(files: Files, size: nat, lo: nat, hi: int) {
    forall i :: lo <= i < hi ==> Complete(files, size, i)
  }

  predicate NoneComplete(files: Files, size: nat, lo: nat, hi: int) {
    forall i :: lo <= i < hi ==> !Complete(files, size, i)
  }

  /** No chunk got lost. */
  ghost predicate Grew(files: Files, files': Files, size: nat) {
    forall i: nat :: i < ChunksCount(size) && Complete(files, size, i) ==> Complete(files', size, i)
  }

  /** Every complete chunk file holds its slice of `content`; incomplete ones may hold anything. */
  predicate Agrees(files: Files, content: seq<Byte>) {
    forall i :: 0 <= i < ChunksCount(|content|) && Complete(files, |content|, i) ==> files[i] == Slice(content, i)
  }

  /** A piece of a piece is a piece. */
  lemma {:induction false} PieceOfPiece(s: seq<Byte>, a: nat, b: nat, c: nat, d: nat)
    requires a <= b <= |s| && c <= d <= b - a
    ensures s[a..b][c..d] == s[a + c..a + d]
  {
    var inner, outer := s[a..b][c..d], s[a + c..a + d];
    assert forall i :: 0 <= i < d - c ==> inner[i] == s[a..b][c + i] == s[a + c + i] == outer[i];
  }

  /** What follows a within a prefix of the rest of s is a piece of s. */
  lemma {:induction false} PieceOfPrefix(a: seq<Byte>, b: seq<Byte>, prefix: seq<Byte>, s: seq<Byte>, start: nat)
    requires start <= |s| && a + b <= prefix <= s[start..]
    ensures start + |a| + |b| <= |s| && b == s[start + |a|..start + |a| + |b|]
  {
    var piece := s[start + |a|..start + |a| + |b|];
    assert forall i :: 0 <= i < |b| ==> b[i] == (a + b)[|a| + i] == prefix[|a| + i] == s[start..][|a| + i] == piece[i];
  }

  lemma {:induction false} PrefixOfRest(s: seq<Byte>, a: nat, b: nat)
    requires a <= b <= |s|
    ensures s[a..b] <= s[a..]
  {
    assert s[a..][..b - a] == s[a..b];
  }

  /** Adjoining pieces are one. */
  lemma {:induction false} PiecesJoin(s: seq<Byte>, a: nat, b: nat, c: nat)
    requires a <= b <= c <= |s|
    ensures s[a..b] + s[b..c] == s[a..c]
  {
  }

  function SumExpected(size: nat, lo: nat, hi: nat): int {
    if hi <= lo then 0 else SumExpected(size, lo, hi - 1) + ExpectedSize(size, hi - 1)
  }

  /** A slice has the expected size, which is positive: so an empty file is never a complete chunk. */
  lemma {:induction false} SliceSize(content: seq<Byte>, index: nat)
    requires index < ChunksCount(|content|)
    ensures |Slice(content, index)| == ExpectedSize(|content|, index)
    ensures 0 < ExpectedSize(|content|, index) <= CHUNK_SIZE
    ensures Start(|content|, index) == index * CHUNK_SIZE < |content|
    ensures Start(|content|, index + 1) == Start(|content|, index) + ExpectedSize(|content|, index)
  {
  }

  /** The expected sizes of consecutive chunks add up to exactly the bytes they span. */
  lemma {:induction false} SpanIsSum(size: nat, lo: nat, hi: nat)
    requires lo <= hi <= ChunksCount(size)
    ensures SumExpected(size, lo, hi) == Start(size, hi) - Start(size, lo)
  {
    if lo < hi {
      SpanIsSum(size, lo, hi - 1);
    }
  }

  /** All expected sizes together are the size of the file. */
  lemma {:induction false} ExpectedSizesCoverFile(size: nat)
    ensures SumExpected(size, 0, ChunksCount(size)) == size
  {
    SpanIsSum(size, 0, ChunksCount(size));
  }

  /**
   The chunk window [lo, hi) that the code computes for the inclusive byte range start..end, where a
   missing bound stands for the beginning or the end of the file. The code's loops run over
   range(start_chunk, end_chunk + 1), so `hi` is end_chunk + 1, and it may be negative.
   */
  datatype Window = Window(lo: nat, hi: int)

  function WindowFor(size: nat, start: Option<int>, end: Option<int>): Result<Window, Error> {
    if start.Some? && end.Some? && start.value > end.value then
      Failure(ValueError)
    else
      var first := if start.Some? && 0 < start.value / CHUNK_SIZE then start.value / CHUNK_SIZE else 0;
      var last := Min(if end.Some? then end.value / CHUNK_SIZE else ChunksCount(size) - 1, ChunksCount(size) - 1);
      Success(Window(first, last + 1))
  }

  /**
   The window is exactly the chunks whose CHUNK_SIZE-aligned block of positions meets the byte range.
   (The block of the last chunk is counted in full, beyond the end of the file.)
   */
  lemma {:induction false} WindowIsExact(size: nat, start: Option<int>, end: Option<int>, index: nat)
    requires WindowFor(size, start, end).Success? && index < ChunksCount(size)
    ensures var w := WindowFor(size, start, end).value;
            w.lo <= index < w.hi <==>
              && (start.Some? ==> start.value < (index + 1) * CHUNK_SIZE)
              && (end.Some? ==> index * CHUNK_SIZE <= end.value)
  {
  }

  /** The window contains the chunk of every byte of the file that the byte range contains. */
  lemma {:induction false} WindowCoversBytes(size: nat, start: Option<int>, end: Option<int>, position: nat)
    requires WindowFor(size, start, end).Success?
    requires position < size
    requires start.Some? ==> start.value <= position
    requires end.Some? ==> position <= end.value
    ensures var w := WindowFor(size, start, end).value; w.lo <= position / CHUNK_SIZE < w.hi <= ChunksCount(size)
  {
    assert position / CHUNK_SIZE <= ChunksCount(size) - 1;
  }

  // ---- runs of missing chunks ----------------------------------------------------------------

  /** A run of missing chunks first..first+len, with the inclusive byte range to request for it. */
  datatype Run = Run(first: nat, len: nat, startByte: int, endByte: int)

  /** The first maximal run of incomplete chunks of the window, or just its first chunk if not `full`. */
  ghost predicate IsFirstRun(files: Files, size: nat, w: Window, full: bool, first: nat, len: nat) {
    && 0 < len && w.lo <= first && first + len <= w.hi
    && AllComplete(files, size, w.lo, first)
    && NoneComplete(files, size, first, first + len)
    && if full then first + len == w.hi || Complete(files, size, first + len) else len == 1
  }

  lemma {:induction false} FirstRunIsUnique(files: Files, size: nat, w: Window, full: bool, f: nat, n: nat, f': nat, n': nat)
    requires IsFirstRun(files, size, w, full, f, n) && IsFirstRun(files, size, w, full, f', n')
    ensures f == f' && n == n'
  {
    assert f == f' by {
      assert !Complete(files, size, f) && !Complete(files, size, f');
    }
    assert Complete(files, size, f + n) || f + n == w.hi || !full;
    assert Complete(files, size, f + n') || f + n' == w.hi || !full;
  }

  /** A run of missing chunks of the window that follow each other. */
  predicate IsRun(files: Files, size: nat, w: Window, first: nat, len: nat) {
    w.lo <= first && first + len <= w.hi && NoneComplete(files, size, first, first + len)
  }

  ghost predicate IsLongest(files: Files, size: nat, w: Window, len: nat) {
    forall first: nat, n: nat :: IsRun(files, size, w, first, n) ==> n <= len
  }

  /** This many chunks of the window are missing in a row, from `from` on or later. */
  ghost predicate MissingLater(files: Files, size: nat, w: Window, from: nat, len: nat) {
    exists first: nat :: from <= first && IsRun(files, size, w, first, len)
  }

  /** The first run is a longest one if and only if no more chunks than it has are missing in a row after it. */
  lemma {:induction false} FirstRunIsLongestIff(files: Files, size: nat, w: Window, first: nat, len: nat)
    requires IsFirstRun(files, size, w, true, first, len)
    ensures IsLongest(files, size, w, len) <==> !MissingLater(files, size, w, first + len, len + 1)
  {
    if IsLongest(files, size, w, len) {
      var longer := len + 1;
      forall f: nat ensures !IsRun(files, size, w, f, longer) {}
    } else {
      var f: nat, n: nat :| IsRun(files, size, w, f, n) && len < n;
      LongerRunIsLater(files, size, w, first, len, f, n);
    }
  }

  lemma {:induction false} LongerRunIsLater(files: Files, size: nat, w: Window, first: nat, len: nat, f: nat, n: nat)
    requires IsFirstRun(files, size, w, true, first, len) && IsRun(files, size, w, f, n) && len < n
    ensures first + len <= f && IsRun(files, size, w, f, len + 1)
  {
    assert f < first ==> Complete(files, size, f);
    assert f < first + len ==> f <= first + len < f + n;
  }

  /** Four chunks of which only the second is there: the run found is the first chunk, and the last two are longer. */
  lemma {:induction false} FirstRunNotLongest(chunk: seq<Byte>)
    requires |chunk| == CHUNK_SIZE
    ensures var files, size, w := map[1 := chunk], 4 * CHUNK_SIZE, Window(0, 4);
            && WindowFor(size, None, None) == Success(w)
            && IsFirstRun(files, size, w, true, 0, 1)
            && IsRun(files, size, w, 2, 2) && !IsLongest(files, size, w, 1)
  {
    var files, size, w := map[1 := chunk], 4 * CHUNK_SIZE, Window(0, 4);
    assert Complete(files, size, 1);
    assert IsRun(files, size, w, 2, 2);
  }
}
