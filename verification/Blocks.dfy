/**
 The blocks in which a response arrives, and the chunk files after the blocks are written. A response may
 be cut into blocks anywhere, may end early, and a write may be torn; whatever is accepted is right.
 */
module Blocks {
  import opened Wrappers
  import opened Chunks

  function Flatten(blocks: seq<seq<Byte>>): seq<Byte> {
    if blocks == [] then [] else Flatten(blocks[..|blocks| - 1]) + blocks[|blocks| - 1]
  }

  /** The chunk files after the first n of the blocks have been written to first, first + 1, and so on. */
  function Stored(files: Files, first: nat, blocks: seq<seq<Byte>>, n: nat): Files
    requires n <= |blocks|
  {
    if n == 0 then files else Stored(files, first, blocks, n - 1)[first + n - 1 := blocks[n - 1]]
  }

  /** The block for chunk first + k is accepted: there is such a chunk, and this is its size. */
  predicate Fits(size: nat, first: nat, blocks: seq<seq<Byte>>, k: nat)
    requires k < |blocks|
  {
    first + k < ChunksCount(size) && |blocks[k]| == ExpectedSize(size, first + k)
  }

  lemma {:induction false} FlattenPrefix(blocks: seq<seq<Byte>>, n: nat)
    requires n <= |blocks|
    ensures Flatten(blocks[..n]) <= Flatten(blocks)
  {
    if n < |blocks| {
      var front := blocks[..|blocks| - 1];
      assert front[..n] == blocks[..n];
      FlattenPrefix(front, n);
    } else {
      assert blocks[..n] == blocks;
    }
  }

  /**
   However the body of a response is cut into blocks: when the blocks are together a prefix of the
   content from chunk `first` on, and the first n of them were accepted, then each of these is the
   slice of the content for its chunk.
   */
  lemma {:induction false} AcceptedBlocks(content: seq<Byte>, first: nat, blocks: seq<seq<Byte>>, n: nat)
    requires n <= |blocks| && first + n <= ChunksCount(|content|)
    requires Flatten(blocks) <= content[Start(|content|, first)..]
    requires forall k :: 0 <= k < n ==> Fits(|content|, first, blocks, k)
    ensures |Flatten(blocks[..n])| == Start(|content|, first + n) - Start(|content|, first)
    ensures forall k :: 0 <= k < n ==> blocks[k] == Slice(content, first + k)
  {
    if n != 0 {
      AcceptedBlocks(content, first, blocks, n - 1);
      assert Fits(|content|, first, blocks, n - 1);
      SliceSize(content, first + n - 1);
      assert blocks[..n][..n - 1] == blocks[..n - 1];
      FlattenPrefix(blocks, n);
      PieceOfPrefix(Flatten(blocks[..n - 1]), blocks[n - 1], Flatten(blocks), content, Start(|content|, first));
    }
  }

  /** Storing accepted blocks completes their chunks, changes no others, and keeps the files right. */
  lemma {:induction false} StoredAgrees(files: Files, content: seq<Byte>, first: nat, blocks: seq<seq<Byte>>, n: nat)
    requires n <= |blocks| && first + n <= ChunksCount(|content|)
    requires Agrees(files, content)
    requires forall k :: 0 <= k < n ==> blocks[k] == Slice(content, first + k)
    ensures Agrees(Stored(files, first, blocks, n), content)
    ensures AllComplete(Stored(files, first, blocks, n), |content|, first, first + n)
    ensures forall i: nat :: !(first <= i < first + n) ==>
                (Complete(Stored(files, first, blocks, n), |content|, i) <==> Complete(files, |content|, i))
  {
    if n != 0 {
      StoredAgrees(files, content, first, blocks, n - 1);
      OneMoreSlice(Stored(files, first, blocks, n - 1), content, first + n - 1);
    }
  }

  /**
   The outcome of storing the first n accepted blocks of a body that is a prefix of the content from
   chunk `first` on, however it was cut into blocks: the files stay right, and these n chunks are complete.
   */
  lemma {:induction false} Delivered(files: Files, files': Files, content: seq<Byte>, first: nat, blocks: seq<seq<Byte>>, n: nat)
    requires n <= |blocks| && first + n <= ChunksCount(|content|)
    requires Agrees(files, content) && files' == Stored(files, first, blocks, n)
    requires Flatten(blocks) <= content[Start(|content|, first)..]
    requires forall k :: 0 <= k < n ==> Fits(|content|, first, blocks, k)
    ensures Agrees(files', content)
    ensures AllComplete(files', |content|, first, first + n)
    ensures Grew(files, files', |content|)
  {
    AcceptedBlocks(content, first, blocks, n);
    StoredAgrees(files, content, first, blocks, n);
    assert forall i: nat :: first <= i < first + n ==> Complete(files', |content|, i);
  }

  lemma {:induction false} OneMoreSlice(files: Files, content: seq<Byte>, index: nat)
    requires index < ChunksCount(|content|) && Agrees(files, content)
    ensures var files' := files[index := Slice(content, index)];
            && Agrees(files', content)
            && Complete(files', |content|, index)
            && forall i: nat :: i != index ==> (Complete(files', |content|, i) <==> Complete(files, |content|, i))
  {
    SliceSize(content, index);
  }

  /** Storing all slices of a file makes every chunk right, whatever stood in the chunk files before. */
  lemma {:induction false} StoredSlices(files: Files, content: seq<Byte>, blocks: seq<seq<Byte>>, n: nat)
    requires n <= |blocks| == ChunksCount(|content|)
    requires forall k :: 0 <= k < |blocks| ==> blocks[k] == Slice(content, k)
    ensures forall i :: 0 <= i < n ==> i in Stored(files, 0, blocks, n) && Stored(files, 0, blocks, n)[i] == Slice(content, i)
  {
    if n != 0 {
      StoredSlices(files, content, blocks, n - 1);
    }
  }

  // ---- any number of responses -----------------------------------------------------------------

  /**
   What came of one request: the blocks that arrived for the chunks from `first` on, how many of them were
   written before the response ended or failed, and how many bytes of the next one if its write was torn.
   */
  datatype Response = Response(first: nat, blocks: seq<seq<Byte>>, accepted: nat, torn: Option<nat>)

  /** The server sends what the file holds, cut anywhere and as far as it goes; what is written has the right size. */
  predicate Lawful(content: seq<Byte>, r: Response) {
    && r.accepted <= |r.blocks| && r.first + r.accepted <= ChunksCount(|content|)
    && Flatten(r.blocks) <= content[Start(|content|, r.first)..]
    && (forall k :: 0 <= k < r.accepted ==> Fits(|content|, r.first, r.blocks, k))
    && (r.torn.Some? ==> r.accepted < |r.blocks| && Fits(|content|, r.first, r.blocks, r.accepted)
                         && r.torn.value < |r.blocks[r.accepted]|)
  }

  function AfterResponse(files: Files, r: Response): Files
    requires r.accepted <= |r.blocks|
    requires r.torn.Some? ==> r.accepted < |r.blocks| && r.torn.value <= |r.blocks[r.accepted]|
  {
    var stored := Stored(files, r.first, r.blocks, r.accepted);
    if r.torn.None? then stored else stored[r.first + r.accepted := r.blocks[r.accepted][..r.torn.value]]
  }

  function AfterResponses(files: Files, content: seq<Byte>, rs: seq<Response>): Files
    requires forall r <- rs :: Lawful(content, r)
  {
    if rs == [] then files
    else
      assert Lawful(content, rs[|rs| - 1]);
      AfterResponse(AfterResponses(files, content, rs[..|rs| - 1]), rs[|rs| - 1])
  }

  /** Requests are for missing chunks: no write is torn over a complete one. */
  predicate TearsOnlyMissing(files: Files, content: seq<Byte>, rs: seq<Response>)
    requires forall r <- rs :: Lawful(content, r)
  {
    rs == [] ||
    (var r, front := rs[|rs| - 1], rs[..|rs| - 1];
     && TearsOnlyMissing(files, content, front)
     && (r.torn.Some? ==> !Complete(AfterResponses(files, content, front), |content|, r.first + r.accepted)))
  }

  lemma {:induction false} ResponseAgrees(files: Files, content: seq<Byte>, r: Response)
    requires Lawful(content, r) && Agrees(files, content)
    ensures Agrees(AfterResponse(files, r), content)
    ensures AllComplete(AfterResponse(files, r), |content|, r.first, r.first + r.accepted)
    ensures r.torn.None? || !Complete(files, |content|, r.first + r.accepted) ==> Grew(files, AfterResponse(files, r), |content|)
  {
    Delivered(files, Stored(files, r.first, r.blocks, r.accepted), content, r.first, r.blocks, r.accepted);
  }

  /**
   However the responses are cut into blocks, and across any number of responses that end early, fail or
   leave a torn chunk: every complete chunk is the slice of the content, and no complete chunk is lost.
   */
  lemma {:induction false} ResponsesAgree(files: Files, content: seq<Byte>, rs: seq<Response>)
    requires (forall r <- rs :: Lawful(content, r)) && Agrees(files, content)
    ensures Agrees(AfterResponses(files, content, rs), content)
    ensures TearsOnlyMissing(files, content, rs) ==> Grew(files, AfterResponses(files, content, rs), |content|)
  {
    if rs != [] {
      var front := rs[..|rs| - 1];
      ResponsesAgree(files, content, front);
      ResponseAgrees(AfterResponses(files, content, front), content, rs[|rs| - 1]);
    }
  }
}
