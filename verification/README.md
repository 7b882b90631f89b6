# Kolibri: downloads, caching, content trees, facility data

A Dafny model of four parts of Kolibri, with proofs of what they promise.

* **Chunked files and downloads** (`Chunks`, `Blocks`, `ReadLoops`, `ChunkedFiles`, `Downloads`,
  `RemoteFiles`, `Workers`, `WorkersProgress`, `WorkersOutcomes`, `FileCopies`, `Evictions`). A file is kept
  as chunk files of 128 KiB; runs of missing chunks are found, locked, checked again, fetched as one byte
  range and written; the chunks are joined in the end. A remote file looks like an ordinary seekable file
  that fetches what is read, and slices of it answer HTTP range requests (byte ranges are inclusive at both
  ends, section 14.1.2 of RFC 9110; `Content-Range` is as in section 14.4). `Workers` is the protocol of any
  number of workers as a state machine over single steps; a move names a worker and says whether it goes on,
  gets a response in any blocks, meets an exception, or leaves a torn chunk behind.
* **The LRU cache** (`LruOrder`, `LruCaches`, `LruKeys`, `LruThreads`, `LruReplays`). The dictionary with
  its ring of linked nodes is a heap structure, rewired in place, against an abstract order of entries.
* **Content trees** (`NestedSets`, `TreeBuilding`, `ContentTrees`, `TreePages`, `TreeNesting`, `TreePaging`,
  `TreeCursors`, `TreeTables`, `LevelSweep`). Nested-set numbers, insertion at four positions, the paged
  tree endpoint, and the recount of resources level by level.
* **Facility data** (`Facilities`, `FacilityRuns`, `FacilityTables`). Users, the three levels of
  collections, memberships and roles.

Where a class changes its fields in the code it does so here, and its methods are proved against functions
on values; the laws are then proved about these functions or as invariants over every run.

## How things are represented

* The chunk directory is a map from index to bytes, the server a fixed byte sequence with flags for what it
  sends (`Downloads.Server`). A response is any sequence of blocks that together are a beginning of the body
  asked for; it may end quietly or with an exception, and a write may be torn.
* Tables are sequences or maps of rows. A query is a function on the rows, ordered as the code orders it.
  `_create_space` of django-mptt adds to every left and right number above its target in the tree.
* Ghost parameters (`content`, `x`, `f`, `path`, ...) name what a table or file is known to hold; they carry
  no information into the computation.
* Times, digests, cancellation checks and user functions are parameters.

## What the code does, where it differs from what is promised

* `get_next_missing_range` is documented to return the largest run of missing chunks; it returns the first
  one (kolibri/utils/file_transfer.py:338-356). `Chunks.FirstRunNotLongest` is an input where that is not a
  largest one, and `Chunks.FirstRunIsLongestIff` says for every window when it is: exactly if no more chunks
  than it has are missing in a row after it.
* A download that is not by byte ranges and does not know the size takes the length of what came for it
  (kolibri/utils/file_transfer.py:836-846). A body that ends early without an exception is then finalized as if
  it were the file: `Downloads.TruncatedBodyIsFinished` is an input, and `Downloads.FileDownload.Run` says for
  all replies that the destination is as it was or the whole content if and only if this does not happen. If
  the download does not finalize, the chunks are kept as those of the shorter file.
* A range of a single byte is answered with 416 although it can be satisfied: `get_range_response` refuses
  `start >= end` while `end` is inclusive. `RemoteFiles.OneByteIsRefused` is an input, and
  `RemoteFiles.GetRangeResponse` states exactly when.
* The read loop does not end on a chunk file that is shorter than the read needs: `ReadLoops.TornChunkStalls`
  is an input, and `ReadLoops.LoopEndsIff` says for all chunk files and reads, from the sizes alone, when it
  ends. A remote file never gets there, because it completes the chunks first.
* Removing roles can leave a coach of a classroom without a role for the facility
  (`FacilityRuns.CoachLeftUnassigned`). `FacilityRuns.StepKeepsCoaches` says of every operation exactly when it
  does: an admin or coach role, or any roles in bulk, deleted so that a user's last role for a facility goes
  while one for a classroom of it stays.
* With a user function that is not deterministic, a call can get a value that the function did not return
  for it (`LruThreads.DeterminismIsNeeded`).

## Model

| member | source | states |
|---|---|---|
| Chunks.ExpectedSizesCoverFile | kolibri/utils/file_transfer.py:197-199 | the expected chunk sizes of a file sum to its size |
| Chunks.SpanIsSum | kolibri/utils/file_transfer.py:386-391 | the byte span of a run of chunks is the sum of the sizes expected of them |
| Chunks.SliceSize | kolibri/utils/file_transfer.py:386-391 | the expected size of every chunk is that of its slice of the file, positive and at most 128 KiB |
| Chunks.WindowIsExact | kolibri/utils/file_transfer.py:313-321 | the window of chunks for a byte range has exactly the chunks that contain one of its bytes |
| Chunks.WindowCoversBytes | kolibri/utils/file_transfer.py:313-321 | every byte of the range lies in a chunk of the window |
| Chunks.FirstRunIsUnique | kolibri/utils/file_transfer.py:338-356 | there is only one first maximal run of missing chunks, so the postcondition of the search determines its result |
| Chunks.FirstRunIsLongestIff | kolibri/utils/file_transfer.py:338-356 | for every window, the run found is a longest one if and only if no more chunks than it has are missing in a row after it |
| Chunks.FirstRunNotLongest | kolibri/utils/file_transfer.py:338-356 | a file of four chunks in which the run found has one chunk and there is one of two |
| ChunkedFiles.ChunkedFile.SetFileSize | kolibri/utils/file_transfer.py:201-219 | the size is kept with the chunks and remembered; without a chunk directory that is an error and changes nothing |
| ChunkedFiles.ChunkedFile.Seek | kolibri/utils/file_transfer.py:228-241 | the position after a seek, clipped to the file, for the three kinds of seek, and the errors |
| ChunkedFiles.ChunkedFile.ReadAt | kolibri/utils/file_transfer.py:243-270 | on any chunk files on which the loop ends, torn ones included, a read gives the bytes that the chunk files hold from the position up to the size asked for or the end of the file, all the rest for a negative size; it fails exactly if one in the way is missing, the size is unknown or the directory is gone |
| ChunkedFiles.ChunkedFile.Read | kolibri/utils/file_transfer.py:272-274 | the same at the position of the file, which moves by what was read and stays after a failure |
| ReadLoops.LoopEndsIff | kolibri/utils/file_transfer.py:257-268 | the read loop ends if and only if there is nothing to read or no chunk file in the way, before a missing one, is too short for the read |
| ReadLoops.TornChunkStalls | kolibri/utils/file_transfer.py:257-268 | with one byte of a torn first chunk, reading two bytes never ends |
| ReadLoops.GatheredIsContent | kolibri/utils/file_transfer.py:243-270 | what is gathered from right and complete chunks is the content at these positions |
| ChunkedFiles.ChunkGenerator | kolibri/utils/file_transfer.py:276-279 | the blocks of some data are its slices, in order, and joined they are the data again |
| ChunkedFiles.ChunkedFile.WriteChunk | kolibri/utils/file_transfer.py:281-298 | writes a chunk only with an index of the file and with the size expected of it, and then exactly this one |
| ChunkedFiles.ChunkedFile.WriteChunks | kolibri/utils/file_transfer.py:300-304 | exactly the blocks up to the first wrong one are stored, as many bytes are reported, and every failure is that of the block at which it stopped, for a file of unknown size or without chunk directory too |
| ChunkedFiles.ChunkedFile.WriteAll | kolibri/utils/file_transfer.py:306-311 | the same for the whole file from its first chunk |
| Blocks.AcceptedBlocks | kolibri/utils/file_transfer.py:281-304 | however a prefix of the content is cut into blocks, those that are accepted are the slices of their chunks |
| Blocks.Delivered | kolibri/utils/file_transfer.py:300-311 | after the accepted blocks of a response are written, complete chunks agree with the content and none got lost |
| Blocks.ResponsesAgree | kolibri/utils/file_transfer.py:300-311 | after any sequence of responses, each cut in any way and ended early, failed or left with a torn write, every complete chunk is the slice of the content; none is lost if writes are torn over missing chunks only |
| Blocks.StoredAgrees | kolibri/utils/file_transfer.py:300-304 | storing slices completes exactly their chunks and keeps complete chunks right |
| ChunkedFiles.RoundTrip | kolibri/utils/file_transfer.py:276-311 | cutting data into chunks, writing them and finalizing gives the data again, whatever chunk files were there |
| ChunkedFiles.ChunkedFile.GetNextMissingRange | kolibri/utils/file_transfer.py:338-356 | the first maximal run of missing chunks in the window, or its first chunk; none if and only if the range is complete |
| ChunkedFiles.ChunkedFile.IsComplete | kolibri/utils/file_transfer.py:393-415 | true if and only if every chunk of the window is there in its expected size |
| ChunkedFiles.ChunkedFile.FinalizeFile | kolibri/utils/file_transfer.py:373-384 | a complete file becomes exactly the content; an incomplete one is an error and nothing is written |
| ChunkedFiles.ChunkedFile.Md5Checksum | kolibri/utils/file_transfer.py:417-426 | the hash is taken of exactly the bytes that finalizing writes |
| ChunkedFiles.FinishAfter | kolibri/utils/file_transfer.py:373-426 | after any such sequence of responses, hashing and finalizing work exactly if the chunks are complete, and then on exactly the content |
| ChunkedFiles.FinishedRead | kolibri/utils/file_transfer.py:243-270 | in a complete file a read anywhere, of any size, ends and gives the content there |
| ChunkedFiles.ReadFinished | kolibri/utils/file_transfer.py:243-274 | on a complete file a read gives content[p..p + size] or content[p..], whichever ends first, and content[p..] for every negative size |
| Downloads.RunBody | kolibri/utils/file_transfer.py:776-827 | the body of a byte range for a run of chunks splits into the slices of these chunks |
| Downloads.OnlyConnectionsAreRetried | kolibri/utils/file_transfer.py:65-85 | the exceptions that are retried are those of the connection and of seven gateway statuses, and none of the chunks or the transfer |
| Downloads.CutIsPrefix | kolibri/utils/file_transfer.py:776-812 | however a body is cut, its blocks are together a beginning of it |
| Downloads.CutIsSlices | kolibri/utils/file_transfer.py:776-812 | a body cut at multiples of the chunk size gives slices, no more than it has chunks |
| Downloads.FileDownload.RunByteRange | kolibri/utils/file_transfer.py:776-827 | whatever replies come, no complete chunk is lost and all are right; success means that the range is complete; it fails only on a reply, and if the replies do no harm only by an exception that is retried |
| Downloads.FileDownload.FetchRun | kolibri/utils/file_transfer.py:793-812 | the blocks of the reply, cut in any way, are written as far as they fit: complete chunks stay and are right; a whole body completes the run; which exception a failure is |
| Downloads.CutShort | kolibri/utils/file_transfer.py:836-846 | of a body of three bytes that ends after the first, that byte is what is taken for the file |
| Downloads.FileDownload.TakeAll | kolibri/utils/file_transfer.py:836-846 | without a known size: a reply that breaks is an error and changes nothing; otherwise what came is complete on disk, with its own length as the size |
| Downloads.FileDownload.Attempt | kolibri/utils/file_transfer.py:720-732 | one attempt: success by ranges, with what came taken for the file, or with finalizing is what was asked for; a retried failure has used up a reply and left everything ready for another attempt that ends as this one would have |
| Downloads.FileDownload.Run | kolibri/utils/file_transfer.py:672-732 | attempts until success or an exception that is not retried: the destination is the old one or the whole content if and only if no body cut short was taken for the file, passed the checksum and was finalized; the chunks are those of the content or of what was taken; success is what was asked for, and is reached if the replies do no harm |
| Downloads.TruncatedBodyIsFinished | kolibri/utils/file_transfer.py:836-846 | a download of three bytes of unknown size succeeds with the first byte as the finished file |
| Downloads.FileDownload.Finalize | kolibri/utils/file_transfer.py:561-575 | every error, without size, chunk directory, completing or closing too; nothing for a part of a file; else the bytes that the chunks hold are written when they are complete and the checksum matches, and exactly then |
| RemoteFiles.RemoteFile.Read | kolibri/utils/file_transfer.py:973-982 | each read gives content[p..p + size] or content[p..] of the remote content, whichever ends first, and content[p..] without a size, whatever chunks are present, even if the finished file appeared and whatever retried failures the downloads meet; and fails exactly when |
| RemoteFiles.RemoteFile.Seek | kolibri/utils/file_transfer.py:984-989 | a seek within the file sets the position that the next read starts from |
| RemoteFiles.RefinesPlainFile | kolibri/utils/file_transfer.py:922-996 | any sequence of reads and of the three kinds of seek gets the answers of a plain file with the remote content, with interference between the calls and retried failures within them |
| RemoteFiles.SlicedFile.Read | kolibri/utils/kolibri_whitenoise.py:103-117 | a slice gives the next bytes of its range and never one beyond its inclusive end |
| RemoteFiles.Serve | kolibri/utils/kolibri_whitenoise.py:94-121 | any sequence of reads of a slice joins to a prefix of content[start..end], both ends included |
| RemoteFiles.ServedAtMost | kolibri/utils/kolibri_whitenoise.py:108-117 | reads of a slice of any sizes give at most its length together |
| RemoteFiles.ServedAll | kolibri/utils/kolibri_whitenoise.py:108-117 | once one of the reads asks for everything, they have given the whole slice |
| RemoteFiles.GetRangeResponse | kolibri/utils/kolibri_whitenoise.py:123-139 | the headers and the body length agree for every range answered, there is one length, and the other headers stay; a range is refused exactly if start is not below end |
| RemoteFiles.OneByteIsRefused | kolibri/utils/kolibri_whitenoise.py:123-139 | the second of three bytes can be had and is refused |
| Workers.StepInv | kolibri/utils/file_transfer.py:776-827 | every step of every worker, with responses cut in any way, keeps complete chunks right, locks exact, writes single and the reported bytes those completed |
| Workers.SafeRun | kolibri/utils/file_transfer.py:776-827 | in every run of any number of workers, with any responses and faults, complete chunks are slices of the content, each is written at most once, and the bytes reported are those of the chunks completed |
| Workers.OnlyLockHolderWrites | kolibri/utils/file_transfer.py:359-371 | in every run whoever writes a chunk holds its lock, and nobody else does |
| Workers.PlanFindsFirstRun | kolibri/utils/file_transfer.py:338-356 | undisturbed, the steps of planning, under the locks of the run before, find the same run as the search for the next missing range |
| WorkersProgress.SomeoneCanMove | kolibri/utils/file_transfer.py:359-371 | no deadlock: as long as a worker has not ended, some worker can move, as locks are taken in ascending order and given back before others are taken |
| WorkersProgress.WholeBodyIsSent | kolibri/utils/file_transfer.py:793-812 | the whole body of a run, cut into chunks, is a response that the server can always give and that covers the run |
| WorkersProgress.StepFalls | kolibri/utils/file_transfer.py:776-827 | every step makes a measure smaller: missing chunks first, then how far the workers are |
| WorkersProgress.RunIsFinite | kolibri/utils/file_transfer.py:776-827 | every run has at most an explicitly given number of steps |
| WorkersProgress.RunEndsComplete | kolibri/utils/file_transfer.py:776-827 | a run that cannot go on has given back all locks, and each worker that finished has its whole range complete and right; without faults all have |
| WorkersOutcomes.FailedIffGaveUp | kolibri/utils/file_transfer.py:687-717 | in every run that cannot go on, whatever the faults: a worker has failed if and only if one of its moves met an exception that is not retried or a block of the wrong size; every other has finished with its whole range complete and right |
| FileCopies.FileCopy.Run | kolibri/utils/file_transfer.py:905-915 | the copy is canceled, fails by its checksum or succeeds, exactly when; the destination is the old one or the whole source |
| FileCopies.FileCopy.Finalize | kolibri/utils/file_transfer.py:561-575 | replaces the destination only if completed and closed, only once, and only if the checksum is unset or right |
| FileCopies.FileCopy.MoveTmpToDest | kolibri/utils/file_transfer.py:88-97 | what is seen at the destination on the way is the old file, nothing, or the whole source |
| FileCopies.FileCopy.Exit | kolibri/utils/file_transfer.py:522-540 | leaving an uncompleted transfer cancels it and removes the temporary file |
| Evictions.ChunkedFileDirectoryManager.DoFileEviction | kolibri/utils/file_transfer.py:142-155 | a prefix of the order of last access is removed, minimal for the size asked; removed and kept sizes sum to the total |
| Evictions.ChunkedFileDirectoryManager.LimitFiles | kolibri/utils/file_transfer.py:166-177 | what is kept is no more than the limit if that is not negative, and no kept file was used before a removed one |
| Evictions.SortedIsReordered | kolibri/utils/file_transfer.py:142-146 | the order of eviction has the same files and total, the longest unused first |
| LruCaches.LruCache.Lookup | kolibri/utils/lru_cache.py:126-141 | a hit moves the entry to the end of the order and counts, a miss changes nothing; the ring stays well formed and matches the order and the dictionary |
| LruCaches.LruCache.Insert | kolibri/utils/lru_cache.py:144-171 | a key added meanwhile leaves everything as it is; otherwise the new entry comes last, and a full cache loses its first, by recycling the root node; a miss is counted |
| LruCaches.LruCache.Clear | kolibri/utils/lru_cache.py:179-185 | afterwards the cache is empty and the counters are zero |
| LruCaches.LruCache.Info | kolibri/utils/lru_cache.py:174-177 | the counters, and the number of entries, at most maxsize |
| LruCaches.LruCache.Call | kolibri/utils/lru_cache.py:126-172 | a call is a step of the abstract cache, and returns the value of the function when the cache holds only such |
| LruCaches.MoveToEnd | kolibri/utils/lru_cache.py:132-140 | moving a node before the root keeps the dictionary, the ring and the order in agreement |
| LruCaches.RingRotates | kolibri/utils/lru_cache.py:149-163 | with the old root holding the new key and the oldest node as root, the ring holds the order without its oldest entry |
| LruOrder.CacheIsMostRecent | kolibri/utils/lru_cache.py:126-172 | after any calls a cache of size m holds exactly the m most recently used distinct keys, in order, with their values |
| LruOrder.BiggerIsBetter | kolibri/utils/lru_cache.py:126-172 | a larger cache holds all that a smaller one holds, and has at least as many hits |
| LruOrder.CachedIff | kolibri/utils/lru_cache.py:126-172 | a key is cached if and only if it was used and fewer than m other keys were used since |
| LruKeys.SameKeyIffSameCall | kolibri/utils/lru_cache.py:26-52 | two calls have equal keys if and only if their positional and keyword arguments are equal, and their types too when typed |
| LruThreads.EveryRunIsRight | kolibri/utils/lru_cache.py:126-185 | every interleaving of lookups, inserts and clears keeps distinct keys, the size bound, right values and the counters |
| LruThreads.CallsReturnTheirValue | kolibri/utils/lru_cache.py:126-172 | in every interleaving each call returns the value of a deterministic function on its own arguments, and the keys are distinct and at most maxsize |
| LruThreads.CountersSinceClear | kolibri/utils/lru_cache.py:126-185 | in every interleaving the misses are the inserts since the last clear, and with the hits and the calls still computing they account for the lookups since, and for the calls that were computing at it |
| LruThreads.CachedAreLastUsed | kolibri/utils/lru_cache.py:126-185 | in every interleaving, from the acts alone: the cached keys are the last maxsize by their last use since the last clear, in order, where a use is a hit or the insert of an absent key |
| LruThreads.EntriesStay | kolibri/utils/lru_cache.py:126-185 | an entry leaves only by a clear or, as the oldest, by the insert of an absent key into a full cache; the insert of a key that is there changes nothing |
| LruThreads.DeterminismIsNeeded | kolibri/utils/lru_cache.py:126-172 | for a function that differs on two calls with one key there is a run in which a call gets the other's value |
| LruReplays.Replay | kolibri/utils/lru_cache.py:126-185 | every schedule, played section by section on the dictionary and its ring, leaves the order, the counters and the results that the state machine has |
| NestedSets.PathLeadsToRow | kolibri/core/content/models.py:166-178 | every row is that of its node: level is depth, and right is left plus twice the size minus one |
| NestedSets.InsideIffAbove | kolibri/core/content/api.py:469-485 | an interval lies strictly inside another if and only if its node is a descendant of the other's |
| NestedSets.DescendantsByInterval | kolibri/core/content/api.py:469-485 | the same of the stored rows that the filter compares |
| NestedSets.ShiftNumber | kolibri/core/content/models.py:180-184 | opening space moves rows numbered above the target as a whole and leaves those below it |
| NestedSets.InsertionKeepsNumbering | kolibri/core/content/models.py:139-185 | the new rows put among the shifted old ones are the gap-free numbering of the enlarged forest, anywhere in it |
| NestedSets.InsertionSizes | kolibri/core/content/models.py:139-185 | the enlarged forest has all nodes, and the number of the place lies within the forest's |
| TreeBuilding.Builder.Treeify | kolibri/core/content/models.py:166-178 | the stack grows by new nodes in preorder, numbered without gaps from the cursor, and the last number is returned |
| TreeBuilding.TargetNamesPlace | kolibri/core/content/models.py:145-162 | cursor and level taken from the target's columns are those of the place, for all four positions and targets |
| TreeBuilding.FourPositions | kolibri/core/content/models.py:145-162 | the tree becomes the first or the last child of the target, or stands directly before or after it among its siblings, and nothing else in the forest changes |
| TreeBuilding.PathRowIsStored | kolibri/core/content/models.py:145-158 | the columns of a node are those stored in its row |
| TreeBuilding.SpaceForTree | kolibri/core/content/models.py:180-184 | the rows after opening space, with the new ones, number the tree with the subtree at the position asked |
| TreeBuilding.ContentNodeManager.BuildTreeNodes | kolibri/core/content/models.py:139-185 | stored rows and made nodes together are the gap-free numbering with the subtree in place; other trees are untouched |
| ContentTrees.ChildrenInTable | kolibri/core/content/api.py:1020-1025 | on a table that stores the tree among others, the query by parent gives exactly the children, in order |
| TreeTables.PreorderIsByLeft | kolibri/core/content/api.py:1020-1061 | however many nodes of a numbered forest are hidden, the left numbers of the others ascend strictly along the preorder |
| TreeTables.OrderedTableStores | kolibri/core/content/api.py:1020-1061 | any table ordered by left number that has exactly the visible rows of a numbered tree, among those of others, has them in preorder, as all that follows relies on |
| ContentTrees.ShownRows | kolibri/core/content/api.py:1027-1061 | the rows of the shown nodes by left number are the shown tree in preorder |
| TreePages.ChildIdsAreChildren | kolibri/core/content/api.py:1020-1025 | the ids are those of the first twelve children after the cursor |
| TreePages.GetGcByParent | kolibri/core/content/api.py:982-996 | the dictionary has an entry for each given parent with children, with all of them in order |
| TreePages.GetGrandchildIds | kolibri/core/content/api.py:998-1018 | the ids are those of everything to be shown below the given nodes, down chains of only children; the recursion ends |
| TreePages.DownChain | kolibri/core/content/api.py:1044-1052 | the chain loop ends at the first node with none or several children |
| TreePages.GetTreeQueryset | kolibri/core/content/api.py:1027-1061 | the selected ids are exactly those of the recursively defined shown tree |
| TreePaging.WhatIsShown | kolibri/core/content/api.py:998-1061 | at the end of a chain of only children the first twelve after the cursor, with depth 2 what is below each: the first twelve of its children, or an only child with what is below that |
| TreeNesting.Nest | kolibri/core/content/api.py:1105-1159 | after the one pass each node has its children in order and the cursor they call for; the ignoring branch is not reached |
| TreeNesting.RowsCanBeNested | kolibri/core/content/api.py:1111-1139 | in the rows of a shown tree every node but the first comes after its parent |
| TreeNesting.PassBuildsTree | kolibri/core/content/api.py:1105-1160 | the dictionaries nested in one pass are the recursive tree |
| TreeNesting.Retrieve | kolibri/core/content/api.py:1067-1160 | the response is the shown tree with its cursors; not found and validation errors exactly when |
| TreePaging.FollowListsAll | kolibri/core/content/api.py:1145-1159 | following the cursors on the lists of ordered siblings lists every child once, in order, and stops |
| TreeCursors.VisibleIsOrdered | kolibri/core/content/api.py:1145-1159 | however many nodes of a numbered tree are hidden, with all below them, siblings that are visible are in order within their parent, at every level |
| TreeCursors.ShownGoesOn | kolibri/core/content/api.py:1119-1159 | every list in a response, also at the end of a chain of only children and below the children of the page, goes on from its cursor to the rest of the children, with parameters that are accepted: depth 2 for the node asked for and 1 for others |
| TreeCursors.ListChildren | kolibri/core/content/api.py:1067-1160 | requests for any node of a stored tree that follow the cursors received are all answered, and the ids received are those of all children past the first cursor, once each and in order |
| TreePaging.NoMoreNoFurther | kolibri/core/content/api.py:1145-1159 | no cursor means no further child; with all nodes visible there is a cursor if and only if there is one |
| TreePaging.NestedListGoesOn | kolibri/core/content/api.py:1145-1159 | a list nested below a child and what its cursor leads to are all the child's children |
| TreePaging.ListsArePages | kolibri/core/content/api.py:998-1025 | no list in a response is longer than a page |
| TreePaging.NumberedIsTight | kolibri/core/content/models.py:166-178 | in a numbered tree siblings follow each other without gaps, so that the cursors are exact |
| TreePaging.LabelsAreNumbers | kolibri/core/content/models.py:166-178 | the numbers that the endpoint sees are those of the stored rows |
| LevelSweep.ContentNodeTable.UpdateTotals | kolibri/core/content/upgrade.py:137-208 | after the sweep each resource and each topic of the channels has its recursively defined total, and nothing else changed |
| LevelSweep.ValueIsNumberOfResources | kolibri/core/content/upgrade.py:156-205 | that total is the number of counted resources reached through available nodes, given consistent availability |
| LevelSweep.LevelSwept | kolibri/core/content/upgrade.py:184-203 | the update of one level is right if the levels below are |
| LevelSweep.ContentNodeTable.NodeDepth | kolibri/core/content/utils/tree.py:7-20 | the deepest level of the channel |
| Facilities.RoleForUserIffForSomeCollection | kolibri/core/auth/models.py:935-980 | a user has a role for another if and only if there is a collection of the other that the first has the role for |
| Facilities.RoleForUserByRows | kolibri/core/auth/models.py:942-960 | a user who is no superuser has a role for another exactly by a row of one of the kinds for the other's facility or a collection with a membership of the other; superusers have the admin role |
| Facilities.RoleForCollectionByRows | kolibri/core/auth/models.py:962-980 | such a user has a role for a collection exactly by a row of one of the kinds for it or a collection above it |
| Facilities.MembersAreMembers | kolibri/core/auth/models.py:1108-1113 | the members of a collection are the users who are members of it: by their facility, or by a membership row |
| FacilityRuns.StepKeepsValid | kolibri/core/auth/models.py:1307-1336 | every create and delete keeps the invariants across the tables |
| FacilityRuns.NewCollectionKeepsValid | kolibri/core/auth/models.py:1590-1601 | a new collection below a parent of the right kind, or a facility with a new dataset, keeps the hierarchy |
| FacilityRuns.DeleteCollectionKeepsValid | kolibri/core/auth/models.py:1074-1082 | deleting a collection with all that goes with it leaves nothing without its parent |
| FacilityRuns.DeletedWithCollection | kolibri/core/auth/models.py:1074-1082 | exactly what stands at or below a deleted collection goes, with its users and the memberships and roles of both |
| FacilityRuns.CreatedCollection | kolibri/core/auth/models.py:1590-1601 | a collection is created exactly below a parent of the right kind, in its dataset, or as a facility with its own; others stay |
| FacilityRuns.ReachableStates | kolibri/core/auth/models.py:1307-1336 | after any run: group members are members of the classroom, no memberships of facilities, no roles for groups, only coaches for classrooms |
| FacilityRuns.RolesInReachableStates | kolibri/core/auth/models.py:942-980 | in every reachable state the role queries agree, and each is decided by the rows as above |
| FacilityRuns.DeleteMembershipsKeepsValid | kolibri/core/auth/signals.py:9-17 | deleting any set of memberships with the cascade leaves no group member outside its classroom |
| FacilityRuns.RemovingRoles | kolibri/core/auth/models.py:1401-1441 | deleting any set of roles alone keeps each coach of a classroom with a role for the facility exactly if it does not take somebody's last role for a facility while one for a classroom of it stays |
| FacilityRuns.StepKeepsCoaches | kolibri/core/auth/models.py:1401-1441 | an operation keeps each coach of a classroom with a role for the facility if and only if it is not such a deletion, in bulk or of an admin or coach role |
| FacilityRuns.RunKeepsCoaches | kolibri/core/auth/models.py:1401-1441 | every coach of a classroom has a role for the facility in all states of a run if and only if the run has no such deletion |
| FacilityRuns.RemovingFacilityRole | kolibri/core/auth/models.py:1427-1442 | removing an admin or coach role keeps that exactly if the user has another facility role or coaches no classroom there |
| FacilityRuns.CoachLeftUnassigned | kolibri/core/auth/models.py:1427-1442 | a run after which a coach of a classroom has no facility role |
| FacilityTables.Tables.SaveMembership | kolibri/core/auth/models.py:1307-1324 | succeeds if and only if the collection is no facility, has the user's dataset, and its classroom has the user as a member if it is a group; then the user is a member, else nothing changed; the invariants across the tables are kept |
| FacilityTables.Tables.AddMember | kolibri/core/auth/models.py:1187-1207 | an existing membership is left as it is, otherwise as saving it; after success the user is a member, and the invariants hold |
| FacilityTables.Tables.BulkDelete | kolibri/core/auth/signals.py:9-17 | with the signal for each of the set: a membership stays exactly if it is not in the set, and the same user has none in the set for the parent of its collection |
| FacilityTables.Tables.DeleteMembership | kolibri/core/auth/models.py:1326-1336 | memberships of other users stay; of the same user those stay that are neither of the collection nor of a child of it |
| FacilityTables.Tables.RemoveMember | kolibri/core/auth/models.py:1209-1229 | the same for the membership removed; an error exactly for those who are not members, with no change |
| FacilityTables.Tables.SaveRole | kolibri/core/auth/models.py:1401-1425 | adds the role, and with the first classroom coach role of a user without a facility role the assignable-coach role, and no other; errors exactly when, with no change |
| FacilityTables.Tables.AddRole | kolibri/core/auth/models.py:1131-1156 | adds the role or leaves an existing one, and keeps the invariants |
| FacilityTables.Tables.RemoveRole | kolibri/core/auth/models.py:1158-1185 | removes the role, and with an assignable-coach role the user's coach roles for classrooms of the facility, and no other; errors exactly when |

## Left out

- Workers: the fallbacks for servers without byte ranges take one generator as the only chunk to lock, so they do not lock each chunk; no claim of mutual exclusion is made about them.
- Workers: locks do not expire in the model, although the code gives them ten seconds.
- Workers: cancellation that deletes the chunk directory other workers write to is not a step; writing a chunk and reporting it is one step.
- Downloads.FileDownload.Run: waiting between attempts is not modelled. That the chunk directory is deleted during the run, which the code answers by starting over or by finding the finished file, is not modelled.
- Downloads.FileDownload.Attempt: a download of known size without byte ranges that ends short without an exception counts as completed in the code when it is not finalized; the range is then not claimed.
- Downloads.FileDownload.constructor: a chunk directory that an earlier download left with a body cut short, and its length as the size, is not one of the remote content and is outside.
- Downloads.FileDownload.RunByteRange: one download alone; several workers and torn writes are in Workers. Once the given replies are used up, bodies come whole.
- Downloads.FileDownload.SetHeaders: a compressed body whose content length disagrees with it is not modelled.
- Chunks.ChunksCount: integer ceiling; the code divides floating point numbers, which is exact for realistic sizes.
- ChunkedFiles.ChunkedFile.SetFileSize: negative sizes are not modelled.
- RemoteFiles.RefinesPlainFile: reads of sizes below -1 and seeks that leave the file are outside, and between the calls chunks of an unfinished file are not evicted; `tell` after the switch to the finished file is stale in the code and not claimed.
- RemoteFiles.RemoteFile.Read: replies that end a download with an exception that is not retried, or that cut short a body taken for the file, are outside; the first kind passes through the read.
- ChunkedFiles.ChunkedFile.ReadAt: chunk files longer than a chunk, which no write makes, are outside; where the loop does not end, there is no result to state.
- RemoteFiles.GetRangeResponse: the parsing of the range header and the lookup of the file belong to whitenoise, which is not part of this model.
- FileCopies.FileCopy.Run: removal of the temporary file is taken to succeed; the code ignores a failure there.
- FileCopies.FileCopy.Finalize: `complete_close_and_finalize` is only reached at the end of a run, as in the code; calling it in the middle of one is not modelled.
- Evictions.ChunkedFileDirectoryManager.DoFileEviction: the walk that finds the directories, and failures to remove one, are not modelled.
- LruCaches: the variants for a maxsize of zero and of None are simpler and left out; the lock is the atomicity of the sections in LruThreads.
- TreeBuilding.ContentNodeManager.BuildTreeNodes: the other columns of a node, and django-mptt beyond opening space and a fresh tree id, are not modelled.
- TreeNesting.Retrieve: request filters, serialization of the other fields and proxying to another server are not modelled; parameters come as numbers.
- LevelSweep.ContentNodeTable.UpdateTotals: both upgrades are one method with a parameter for what counts; null totals are not modelled. For a channel without any node the code raises a TypeError, as the maximum level is null; the depth is zero here.
- Facilities.SaveCollection: creating collections and users, and deleting them with all that cascades, are functions on the state and not methods.
- Facilities: one facility for each dataset, collections are not moved, and roles and memberships are not edited.
- Permission classes, synchronization, passwords, sessions and device settings.
