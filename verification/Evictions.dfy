/**
 Making room by removing the chunked files that were used longest ago (`ChunkedFileDirectoryManager`).
 */
module Evictions {

  /** A directory of chunks: its name, when a file in it was last read, and the bytes in it. */
  datatype Tracked = Tracked(dir: string, lastAccess: real, size: nat)

  function TotalSize(files: seq<Tracked>): nat {
    if files == [] then 0 else files[0].size + TotalSize(files[1..])
  }

  predicate DistinctDirs(files: seq<Tracked>) {
    forall i, j :: 0 <= i < j < |files| ==> files[i].dir != files[j].dir
  }

  predicate OldestFirst(files: seq<Tracked>) {
    forall i, j :: 0 <= i < j < |files| ==> files[i].lastAccess <= files[j].lastAccess
  }

  lemma {:induction false} TotalConcat(a: seq<Tracked>, b: seq<Tracked>)
    ensures TotalSize(a + b) == TotalSize(a) + TotalSize(b)
  {
    if a == [] {
      assert a + b == b;
    } else {
      assert (a + b)[1..] == a[1..] + b;
      TotalConcat(a[1..], b);
    }
  }

  function Insert(x: Tracked, files: seq<Tracked>): seq<Tracked> {
    if files == [] || x.lastAccess <= files[0].lastAccess then [x] + files else [files[0]] + Insert(x, files[1..])
  }

  /** Sorted by last access; those of equal time keep their order. */
  function SortedByAccess(files: seq<Tracked>): seq<Tracked> {
    if files == [] then [] else Insert(files[0], SortedByAccess(files[1..]))
  }

  lemma {:induction false} InsertKeepsOrder(x: Tracked, files: seq<Tracked>)
    requires OldestFirst(files)
    ensures OldestFirst(Insert(x, files)) && TotalSize(Insert(x, files)) == x.size + TotalSize(files)
    ensures forall y :: y in Insert(x, files) <==> y == x || y in files
  {
    if files != [] && x.lastAccess > files[0].lastAccess {
      var r := Insert(x, files[1..]);
      InsertKeepsOrder(x, files[1..]);
      forall i | 0 <= i < |r| ensures files[0].lastAccess <= r[i].lastAccess {
        assert r[i] in r;
      }
    }
  }

  lemma {:induction false} InsertKeepsDistinct(x: Tracked, files: seq<Tracked>)
    requires OldestFirst(files) && DistinctDirs(files) && forall y <- files :: y.dir != x.dir
    ensures DistinctDirs(Insert(x, files))
  {
    if files != [] && x.lastAccess > files[0].lastAccess {
      var r := Insert(x, files[1..]);
      InsertKeepsDistinct(x, files[1..]);
      InsertKeepsOrder(x, files[1..]);
      forall i | 0 <= i < |r| ensures files[0].dir != r[i].dir {
        assert r[i] in r;
      }
    }
  }

  /** The files in the order of eviction: the same ones, the oldest first. */
  lemma {:induction false} SortedIsReordered(files: seq<Tracked>)
    requires DistinctDirs(files)
    ensures var order := SortedByAccess(files);
            && OldestFirst(order) && DistinctDirs(order) && TotalSize(order) == TotalSize(files)
            && forall y :: y in order <==> y in files
  {
    if files != [] {
      SortedIsReordered(files[1..]);
      InsertKeepsOrder(files[0], SortedByAccess(files[1..]));
      InsertKeepsDistinct(files[0], SortedByAccess(files[1..]));
    }
  }

  /** The files that stay when this directory is removed. */
  function Without(files: seq<Tracked>, dir: string): seq<Tracked> {
    if files == [] then []
    else if files[0].dir == dir then Without(files[1..], dir)
    else [files[0]] + Without(files[1..], dir)
  }

  lemma {:induction false} WithoutMembers(files: seq<Tracked>, dir: string)
    ensures forall y :: y in Without(files, dir) <==> y in files && y.dir != dir
  {
    if files != [] {
      WithoutMembers(files[1..], dir);
    }
  }

  lemma {:induction false} WithoutOne(files: seq<Tracked>, x: Tracked)
    requires DistinctDirs(files) && x in files
    ensures TotalSize(Without(files, x.dir)) == TotalSize(files) - x.size
  {
    if files[0] == x {
      WithoutAbsent(files[1..], x.dir);
    } else {
      WithoutOne(files[1..], x);
    }
  }

  lemma {:induction false} WithoutAbsent(files: seq<Tracked>, dir: string)
    requires forall i :: 0 <= i < |files| ==> files[i].dir != dir
    ensures Without(files, dir) == files
  {
    if files != [] {
      WithoutAbsent(files[1..], dir);
    }
  }

  lemma {:induction false} WithoutDistinct(files: seq<Tracked>, dir: string)
    requires DistinctDirs(files)
    ensures DistinctDirs(Without(files, dir))
  {
    if files != [] {
      var rest := Without(files[1..], dir);
      WithoutDistinct(files[1..], dir);
      WithoutMembers(files[1..], dir);
      forall i | 0 <= i < |rest| ensures files[0].dir != rest[i].dir {
        assert rest[i] in rest;
      }
    }
  }

  /** How many of the files, oldest first, have to go for `fileSize` bytes; all of them if that is not enough. */
  predicate MinimalPrefix(order: seq<Tracked>, k: nat, fileSize: int) {
    && k <= |order|
    && (k < |order| ==> fileSize <= TotalSize(order[..k]))
    && (0 < k ==> TotalSize(order[..k - 1]) < fileSize)
  }

  class ChunkedFileDirectoryManager {
    /** The chunked files on disk. */
    var files: seq<Tracked>

    /** Removes the files that were used longest ago, `k` of them, until enough is freed or nothing is left. */
    method DoFileEviction(fileSize: int) returns (evicted: nat, ghost k: nat)
      requires DistinctDirs(files)
      modifies this
      ensures MinimalPrefix(SortedByAccess(old(files)), k, fileSize)
      ensures evicted == TotalSize(SortedByAccess(old(files))[..k])
      ensures forall y :: y in files <==> y in SortedByAccess(old(files))[k..]
      ensures evicted + TotalSize(files) == TotalSize(old(files))
      ensures DistinctDirs(files)
    {
      var order := SortedByAccess(files);
      SortedIsReordered(files);
      evicted, k := 0, 0;
      for i := 0 to |order|
        invariant k == i && evicted == TotalSize(order[..i])
        invariant evicted + TotalSize(files) == TotalSize(old(files))
        invariant DistinctDirs(files) && forall y :: y in files <==> y in order[i..]
        invariant 0 < i ==> TotalSize(order[..i - 1]) < fileSize
      {
        if fileSize <= evicted {
          break;
        }
        OneMoreEvicted(order, i, files);
        evicted := evicted + order[i].size;
        files := Without(files, order[i].dir);
        k := i + 1;
      }
    }

    /** Evicts until the rest is no more than `maxSize`; below zero that means everything. */
    method LimitFiles(maxSize: int) returns (evicted: nat)
      requires DistinctDirs(files)
      modifies this
      ensures evicted + TotalSize(files) == TotalSize(old(files))
      ensures TotalSize(files) <= maxSize || files == []
      ensures 0 <= maxSize ==> TotalSize(files) <= maxSize
      ensures TotalSize(old(files)) <= maxSize ==> evicted == 0 && forall y :: y in files <==> y in old(files)
      ensures forall gone, kept :: gone in old(files) && gone !in files && kept in files ==> gone.lastAccess <= kept.lastAccess
    {
      ghost var before, k := files, 0;
      SortedIsReordered(files);
      var total := TotalSize(files);
      evicted, k := DoFileEviction(total - maxSize);
      EvictedAreOlder(before, SortedByAccess(before), files, k);
    }
  }

  lemma {:induction false} EvictedAreOlder(before: seq<Tracked>, order: seq<Tracked>, files: seq<Tracked>, k: nat)
    requires OldestFirst(order) && k <= |order|
    requires forall y :: y in order <==> y in before
    requires forall y :: y in files <==> y in order[k..]
    ensures k == |order| ==> files == []
    ensures k == 0 ==> forall y :: y in files <==> y in before
    ensures forall gone, kept :: gone in before && gone !in files && kept in files ==> gone.lastAccess <= kept.lastAccess
  {
    assert files != [] ==> files[0] in order[k..];
    assert order == order[..k] + order[k..];
    forall gone, kept | gone in before && gone !in files && kept in files ensures gone.lastAccess <= kept.lastAccess {
      assert gone in order && gone in order[..k];
      OlderThanRest(order, k, gone, kept);
    }
  }

  lemma {:induction false} OneMoreEvicted(order: seq<Tracked>, i: nat, files: seq<Tracked>)
    requires DistinctDirs(order) && DistinctDirs(files) && i < |order| && forall y :: y in files <==> y in order[i..]
    ensures TotalSize(order[..i + 1]) == TotalSize(order[..i]) + order[i].size
    ensures TotalSize(Without(files, order[i].dir)) == TotalSize(files) - order[i].size
    ensures DistinctDirs(Without(files, order[i].dir))
    ensures forall y :: y in Without(files, order[i].dir) <==> y in order[i + 1..]
  {
    assert order[..i + 1] == order[..i] + [order[i]];
    TotalConcat(order[..i], [order[i]]);
    assert order[i] in order[i..];
    WithoutMembers(files, order[i].dir);
    WithoutOne(files, order[i]);
    WithoutDistinct(files, order[i].dir);
    RestOfOrder(order, i);
  }

  lemma {:induction false} RestOfOrder(order: seq<Tracked>, i: nat)
    requires DistinctDirs(order) && i < |order|
    ensures forall y :: y in order[i + 1..] <==> y in order[i..] && y.dir != order[i].dir
  {
    forall y | y in order[i..] && y.dir != order[i].dir ensures y in order[i + 1..] {
      assert order[i..] == [order[i]] + order[i + 1..];
    }
  }

  lemma {:induction false} OlderThanRest(order: seq<Tracked>, k: nat, gone: Tracked, kept: Tracked)
    requires OldestFirst(order) && k <= |order| && gone in order[..k] && kept in order[k..]
    ensures gone.lastAccess <= kept.lastAccess
  {
    var i :| 0 <= i < k && order[i] == gone;
    var j :| 0 <= j < |order[k..]| && order[k..][j] == kept;
    assert order[k + j] == kept;
  }
}
