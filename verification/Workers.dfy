/**
 Any number of workers downloading chunks of one file at the same time, on the path where the server
 answers range requests. One step here is one access to the shared chunk directory or to one lock:
 looking at one chunk while planning, taking one lock, looking again under the locks, getting a response,
 writing one block, giving back one lock. Workers may have different byte ranges and `full_ranges` flags.
 */
module Workers {
  import opened Blocks
  import opened Chunks

  /** What one worker is asked for: the chunk window [lo, top) of its byte range, and `full_ranges`. */
  datatype Job = Job(lo: nat, top: nat, full: bool)

  datatype Config = Config(content: seq<Byte>, jobs: seq<Job>)

  /** What a worker does once it has given back its locks. */
  datatype Sequel = Retry | Fail | Finish | Take(first: nat, len: nat)

  /**
   Where a worker is in `_run_byte_range_download`; the run it works on is first..first+len. It plans the
   next run while it still holds the locks of the one before, prior..prior+priorLen.
   */
  datatype Phase =
    | Scan(cur: nat, first: nat, len: nat, prior: nat, priorLen: nat)
    | Release(first: nat, len: nat, freed: nat, sequel: Sequel)
    | Acquire(first: nat, len: nat, held: nat)
    | Recheck(first: nat, len: nat, seen: nat)
    | Store(first: nat, len: nat, stored: nat, blocks: seq<seq<Byte>>)
    | Finished
    | Failed

  /**
   `locks` maps a locked chunk to the worker holding it. `writes` counts the completed writes of each
   chunk, `reported` adds up the progress callbacks of all workers, and `faults` is how many more
   failures (a failed request or connection, a body that is short or cut at the wrong places, a torn
   write, a fatal exception) this run will see.
   */
  datatype State = State(files: Files, locks: map<nat, nat>, phases: seq<Phase>,
                         writes: map<nat, nat>, reported: int, faults: nat)

  /**
   `Go` is the next step of the code. The environment answers a request with `Respond`, in any blocks.
   It can instead end the download there, or where a block is about to be written: `Stop` before any byte
   is written, `Tear` after `bytes` bytes of the chunk file. `again` says whether the exception is retried.
   */
  datatype Act = Go | Respond(blocks: seq<seq<Byte>>) | Stop(again: bool) | Tear(bytes: nat, again: bool)

  function Count(c: Config): nat {
    ChunksCount(|c.content|)
  }

  ghost predicate ValidConfig(c: Config) {
    forall w :: 0 <= w < |c.jobs| ==> c.jobs[w].top <= Count(c)
  }

  predicate Done(c: Config, s: State, index: nat) {
    Complete(s.files, |c.content|, index)
  }

  predicate AllDone(c: Config, s: State, lo: nat, hi: nat) {
    forall i :: lo <= i < hi ==> Done(c, s, i)
  }

  predicate NoneDone(c: Config, s: State, lo: nat, hi: nat) {
    forall i :: lo <= i < hi ==> !Done(c, s, i)
  }

  // ---- the transition system -----------------------------------------------------------------

  /** The blocks are what the file holds from this chunk on, cut anywhere and as far as they go. */
  predicate Sends(c: Config, first: nat, blocks: seq<seq<Byte>>) {
    Flatten(blocks) <= c.content[Start(|c.content|, first)..]
  }

  /** A whole body, cut at the borders of the chunks. */
  predicate Covers(c: Config, first: nat, len: nat, blocks: seq<seq<Byte>>) {
    len <= |blocks| && forall k :: 0 <= k < len ==> Fits(|c.content|, first, blocks, k)
  }

  /** There is a block to write for a chunk of the run, and it has the size expected there. */
  predicate Writable(c: Config, p: Phase) {
    p.Store? && p.stored < p.len && p.stored < |p.blocks| && Fits(|c.content|, p.first, p.blocks, p.stored)
  }

  predicate Enabled(c: Config, s: State, w: nat, a: Act) {
    && w < |s.phases| == |c.jobs|
    && match s.phases[w]
       case Finished => false
       case Failed => false
       case Acquire(first, len, held) => a.Go? && (held < len ==> first + held !in s.locks)
       case Recheck(first, len, seen) =>
         if seen < len then a.Go?
         else (a.Respond? && Sends(c, first, a.blocks) && (0 < s.faults || Covers(c, first, len, a.blocks)))
              || (a.Stop? && 0 < s.faults)
       case Store(first, len, stored, blocks) =>
         || a.Go?
         || (a.Stop? && 0 < s.faults && stored < len)
         || (a.Tear? && 0 < s.faults && Writable(c, s.phases[w]) && a.bytes < |blocks[stored]|)
       case _ => a.Go?
  }

  function To(s: State, w: nat, p: Phase): State
    requires w < |s.phases|
  {
    s.(phases := s.phases[w := p])
  }

  /** Planning: `get_next_missing_range` looks at one chunk after the other; then the old locks are given back. */
  function NextScan(c: Config, s: State, job: Job, p: Phase): Phase
    requires p.Scan?
  {
    if job.top <= p.cur then
      Release(p.prior, p.priorLen, 0, if p.len == 0 then Finish else Take(p.first, p.len))
    else if Done(c, s, p.cur) then
      if p.len == 0 then p.(cur := p.cur + 1) else Release(p.prior, p.priorLen, 0, Take(p.first, p.len))
    else if p.len == 0 then
      if job.full then p.(cur := p.cur + 1, first := p.cur, len := 1) else Release(p.prior, p.priorLen, 0, Take(p.cur, 1))
    else
      p.(cur := p.cur + 1, len := p.len + 1)
  }

  /** A plan from the beginning of the window, under the locks of a run that may be empty. */
  function Fresh(job: Job, prior: nat, priorLen: nat): Phase {
    Scan(job.lo, 0, 0, prior, priorLen)
  }

  function AfterRelease(job: Job, sequel: Sequel): Phase {
    match sequel
    case Retry => Fresh(job, 0, 0)
    case Fail => Failed
    case Finish => Finished
    case Take(first, len) => Acquire(first, len, 0)
  }

  function Next(c: Config, s: State, w: nat, a: Act): State
    requires Enabled(c, s, w, a)
  {
    match s.phases[w]
    case Scan(_, _, _, _, _) => To(s, w, NextScan(c, s, c.jobs[w], s.phases[w]))
    case Release(first, len, freed, sequel) =>
      if freed < len then To(s, w, Release(first, len, freed + 1, sequel)).(locks := s.locks - {first + freed})
      else To(s, w, AfterRelease(c.jobs[w], sequel))
    case Acquire(first, len, held) =>
      if held < len then To(s, w, Acquire(first, len, held + 1)).(locks := s.locks[first + held := w])
      else To(s, w, Recheck(first, len, 0))
    case Recheck(first, len, seen) => NextRecheck(c, s, w, a)
    case Store(first, len, stored, blocks) => NextStore(c, s, w, a)
  }

  /** Under the locks: skip a run of which a chunk is there by now, else ask for it. */
  function NextRecheck(c: Config, s: State, w: nat, a: Act): State
    requires Enabled(c, s, w, a) && s.phases[w].Recheck?
  {
    var Recheck(first, len, seen) := s.phases[w];
    match a
    case Respond(blocks) =>
      To(s, w, Store(first, len, 0, blocks)).(faults := if Covers(c, first, len, blocks) then s.faults else s.faults - 1)
    case Stop(again) => To(s, w, Release(first, len, 0, if again then Retry else Fail)).(faults := s.faults - 1)
    case Go =>
      To(s, w, if Done(c, s, first + seen) then Fresh(c.jobs[w], first, len) else Recheck(first, len, seen + 1))
  }

  /**
   `write_chunks`: the next block is written if it has the size expected for its chunk; any other size is a
   ValueError, which is not retried. It ends with the run or with the blocks, whichever is first.
   */
  function NextStore(c: Config, s: State, w: nat, a: Act): State
    requires Enabled(c, s, w, a) && s.phases[w].Store?
  {
    var Store(first, len, stored, blocks) := s.phases[w];
    var index := first + stored;
    match a
    case Go =>
      if len <= stored || |blocks| <= stored then To(s, w, Fresh(c.jobs[w], first, len))
      else if !Writable(c, s.phases[w]) then To(s, w, Release(first, len, 0, Fail))
      else
        To(s, w, Store(first, len, stored + 1, blocks)).(
          files := s.files[index := blocks[stored]],
          writes := s.writes[index := Writes(s, index) + 1],
          reported := s.reported + |blocks[stored]|)
    case Stop(again) => To(s, w, Release(first, len, 0, if again then Retry else Fail)).(faults := s.faults - 1)
    case Tear(bytes, again) =>
      To(s, w, Release(first, len, 0, if again then Retry else Fail)).(
        files := s.files[index := blocks[stored][..bytes]], faults := s.faults - 1)
  }

  function Writes(s: State, index: nat): nat {
    if index in s.writes then s.writes[index] else 0
  }

  /** Any set of chunk files left by earlier downloads, complete or torn; nobody holds a lock. */
  ghost predicate Init(c: Config, s: State) {
    && Agrees(s.files, c.content)
    && s.locks == map[] && s.writes == map[] && s.reported == 0
    && |s.phases| == |c.jobs|
    && forall w :: 0 <= w < |c.jobs| ==> s.phases[w] == Fresh(c.jobs[w], 0, 0)
  }

  datatype Move = Move(worker: nat, act: Act)

  /** A schedule is any sequence of enabled moves, in any order. */
  ghost predicate Schedule(c: Config, s: State, moves: seq<Move>)
    decreases |moves|
  {
    moves != [] ==>
      && Enabled(c, s, moves[0].worker, moves[0].act)
      && Schedule(c, Next(c, s, moves[0].worker, moves[0].act), moves[1..])
  }

  ghost function After(c: Config, s: State, moves: seq<Move>): State
    requires Schedule(c, s, moves)
    decreases |moves|
  {
    if moves == [] then s else After(c, Next(c, s, moves[0].worker, moves[0].act), moves[1..])
  }

  // ---- the invariant -------------------------------------------------------------------------

  /** The chunks a worker in phase p has locked. */
  predicate Holds(p: Phase, index: nat) {
    match p
    case Scan(_, _, _, prior, priorLen) => prior <= index < prior + priorLen
    case Release(first, len, freed, _) => first + freed <= index < first + len
    case Acquire(first, len, held) => first <= index < first + held
    case Recheck(first, len, seen) => first <= index < first + len
    case Store(first, len, stored, _) => first <= index < first + len
    case _ => false
  }

  predicate InWindow(job: Job, first: nat, len: nat) {
    0 < len && job.lo <= first && first + len <= job.top
  }

  predicate SequelOk(c: Config, s: State, job: Job, sequel: Sequel) {
    match sequel
    case Finish => AllDone(c, s, job.lo, job.top)
    case Take(first, len) => InWindow(job, first, len)
    case _ => true
  }

  predicate PhaseOk(c: Config, s: State, job: Job, p: Phase) {
    match p
    case Scan(cur, first, len, prior, priorLen) =>
      && (len == 0 ==> job.lo <= cur && AllDone(c, s, job.lo, cur))
      && (0 < len ==> InWindow(job, first, len) && first + len == cur)
      && (0 < priorLen ==> InWindow(job, prior, priorLen))
    case Release(first, len, freed, sequel) =>
      (0 < len ==> InWindow(job, first, len)) && freed <= len && SequelOk(c, s, job, sequel)
    case Acquire(first, len, held) => InWindow(job, first, len) && held <= len
    case Recheck(first, len, seen) =>
      InWindow(job, first, len) && seen <= len && NoneDone(c, s, first, first + seen)
    case Store(first, len, stored, blocks) =>
      && InWindow(job, first, len) && stored <= len && stored <= |blocks|
      && Sends(c, first, blocks) && (forall k :: 0 <= k < stored ==> Fits(|c.content|, first, blocks, k))
      && AllDone(c, s, first, first + stored)
      && NoneDone(c, s, first + stored, first + len)
    case Finished => AllDone(c, s, job.lo, job.top)
    case Failed => true
  }

  /** A chunk is locked by w exactly when w's phase says that it holds it: so no two workers do. */
  ghost predicate LocksExact(s: State) {
    && (forall i :: i in s.locks ==> s.locks[i] < |s.phases|)
    && (forall w, i: nat :: 0 <= w < |s.phases| ==> (Holds(s.phases[w], i) <==> i in s.locks && s.locks[i] == w))
  }

  function Indicator(b: bool): nat {
    if b then 1 else 0
  }

  /** Every chunk that became complete since s0 was written exactly once, every other one never. */
  ghost predicate WrittenOnce(c: Config, s0: State, s: State) {
    forall i: nat :: i < Count(c) ==> Writes(s, i) + Indicator(Done(c, s0, i)) == Indicator(Done(c, s, i))
  }

  /** The total size of the complete chunks below n. */
  function CompletedBytes(c: Config, s: State, n: nat): int {
    if n == 0 then 0
    else CompletedBytes(c, s, n - 1) + if Done(c, s, n - 1) then ExpectedSize(|c.content|, n - 1) else 0
  }

  ghost predicate Inv(c: Config, s0: State, s: State) {
    && |s.phases| == |c.jobs|
    && Agrees(s.files, c.content)
    && (forall w :: 0 <= w < |s.phases| ==> PhaseOk(c, s, c.jobs[w], s.phases[w]))
    && LocksExact(s)
    && WrittenOnce(c, s0, s)
    && s.reported == CompletedBytes(c, s, Count(c)) - CompletedBytes(c, s0, Count(c))
  }

  lemma {:induction false} InitInv(c: Config, s: State)
    requires ValidConfig(c) && Init(c, s)
    ensures Inv(c, s, s)
  {
  }

  // ---- every step keeps the invariant --------------------------------------------------------

  /** The locks stay exact when w moves to a phase holding the same chunks. */
  lemma {:induction false} SameLocks(s: State, w: nat, p: Phase)
    requires w < |s.phases| && LocksExact(s)
    requires forall i: nat :: Holds(s.phases[w], i) == Holds(p, i)
    ensures LocksExact(To(s, w, p))
  {
  }

  lemma {:induction false} TakeLock(s: State, w: nat, first: nat, len: nat, held: nat)
    requires w < |s.phases| && LocksExact(s)
    requires s.phases[w] == Acquire(first, len, held) && first + held !in s.locks
    ensures LocksExact(To(s, w, Acquire(first, len, held + 1)).(locks := s.locks[first + held := w]))
  {
    var p := Acquire(first, len, held + 1);
    assert forall i: nat :: Holds(p, i) <==> Holds(s.phases[w], i) || i == first + held;
  }

  lemma {:induction false} GiveLock(s: State, w: nat, first: nat, len: nat, freed: nat, sequel: Sequel)
    requires w < |s.phases| && LocksExact(s)
    requires s.phases[w] == Release(first, len, freed, sequel) && freed < len
    ensures LocksExact(To(s, w, Release(first, len, freed + 1, sequel)).(locks := s.locks - {first + freed}))
  {
    var s' := To(s, w, Release(first, len, freed + 1, sequel)).(locks := s.locks - {first + freed});
    assert Holds(s.phases[w], first + freed);
    forall v, i: nat | 0 <= v < |s'.phases|
      ensures Holds(s'.phases[v], i) <==> i in s'.locks && s'.locks[i] == v
    {
      assert Holds(s.phases[v], i) <==> i in s.locks && s.locks[i] == v;
    }
  }

  /** A phase looks at the state only through the set of complete chunks. */
  lemma {:induction false} PhaseFrame(c: Config, s: State, s': State, job: Job, p: Phase)
    requires PhaseOk(c, s, job, p) && forall i: nat :: Done(c, s', i) == Done(c, s, i)
    ensures PhaseOk(c, s', job, p)
  {
  }

  /** A step of w after which the same chunks are complete, with a lawful new phase and lawful locks. */
  lemma {:induction false} QuietStep(c: Config, s0: State, s: State, w: nat, s': State)
    requires ValidConfig(c) && Inv(c, s0, s) && w < |s.phases| == |s'.phases|
    requires forall i: nat :: Done(c, s', i) == Done(c, s, i)
    requires Agrees(s'.files, c.content) && s'.writes == s.writes && s'.reported == s.reported
    requires s'.phases == s.phases[w := s'.phases[w]]
    requires LocksExact(s') && PhaseOk(c, s, c.jobs[w], s'.phases[w])
    ensures Inv(c, s0, s')
  {
    hide Agrees, PhaseOk, LocksExact, CompletedBytes;
    QuietBytes(c, s, s', Count(c));
    forall v | 0 <= v < |s'.phases|
      ensures PhaseOk(c, s', c.jobs[v], s'.phases[v])
    {
      PhaseFrame(c, s, s', c.jobs[v], s'.phases[v]);
    }
  }

  /** A step that only moves w to a phase that holds the same chunks. */
  lemma {:induction false} PhaseStep(c: Config, s0: State, s: State, w: nat, p: Phase)
    requires ValidConfig(c) && Inv(c, s0, s) && w < |s.phases|
    requires (forall i: nat :: Holds(s.phases[w], i) == Holds(p, i)) && PhaseOk(c, s, c.jobs[w], p)
    ensures Inv(c, s0, To(s, w, p))
    ensures forall faults: nat :: Inv(c, s0, To(s, w, p).(faults := faults))
  {
    hide Agrees, CompletedBytes;
    SameLocks(s, w, p);
    QuietStep(c, s0, s, w, To(s, w, p));
    forall faults: nat ensures Inv(c, s0, To(s, w, p).(faults := faults)) {
      QuietStep(c, s0, s, w, To(s, w, p).(faults := faults));
    }
  }

  lemma {:induction false} ScanPhase(c: Config, s: State, job: Job, p: Phase)
    requires p.Scan? && PhaseOk(c, s, job, p)
    ensures PhaseOk(c, s, job, NextScan(c, s, job, p))
    ensures forall i: nat :: Holds(p, i) == Holds(NextScan(c, s, job, p), i)
  {
  }

  lemma {:induction false} AcquireStep(c: Config, s0: State, s: State, w: nat, a: Act)
    requires ValidConfig(c) && Inv(c, s0, s) && Enabled(c, s, w, a) && s.phases[w].Acquire?
    ensures Inv(c, s0, Next(c, s, w, a))
  {
    hide Agrees, CompletedBytes;
    var Acquire(first, len, held) := s.phases[w];
    if held < len {
      var s' := To(s, w, Acquire(first, len, held + 1)).(locks := s.locks[first + held := w]);
      assert Next(c, s, w, a) == s';
      TakeLock(s, w, first, len, held);
      QuietStep(c, s0, s, w, s');
    } else {
      assert Next(c, s, w, a) == To(s, w, Recheck(first, len, 0));
      PhaseStep(c, s0, s, w, Recheck(first, len, 0));
    }
  }

  lemma {:induction false} RecheckPhase(c: Config, s: State, job: Job, first: nat, len: nat, seen: nat)
    requires PhaseOk(c, s, job, Recheck(first, len, seen))
    ensures PhaseOk(c, s, job, Fresh(job, first, len))
    ensures PhaseOk(c, s, job, Release(first, len, 0, Retry)) && PhaseOk(c, s, job, Release(first, len, 0, Fail))
    ensures seen < len && !Done(c, s, first + seen) ==> PhaseOk(c, s, job, Recheck(first, len, seen + 1))
    ensures forall blocks :: len <= seen && Sends(c, first, blocks) ==> PhaseOk(c, s, job, Store(first, len, 0, blocks))
  {
  }

  lemma {:induction false} RecheckStep(c: Config, s0: State, s: State, w: nat, a: Act)
    requires ValidConfig(c) && Inv(c, s0, s) && Enabled(c, s, w, a) && s.phases[w].Recheck?
    ensures Inv(c, s0, Next(c, s, w, a))
  {
    hide Agrees, CompletedBytes;
    var Recheck(first, len, seen) := s.phases[w];
    RecheckPhase(c, s, c.jobs[w], first, len, seen);
    PhaseStep(c, s0, s, w, NextRecheck(c, s, w, a).phases[w]);
  }

  lemma {:induction false} ReleaseStep(c: Config, s0: State, s: State, w: nat, a: Act)
    requires ValidConfig(c) && Inv(c, s0, s) && Enabled(c, s, w, a) && s.phases[w].Release?
    ensures Inv(c, s0, Next(c, s, w, a))
  {
    hide Agrees, CompletedBytes;
    var Release(first, len, freed, sequel) := s.phases[w];
    if freed < len {
      var s' := To(s, w, Release(first, len, freed + 1, sequel)).(locks := s.locks - {first + freed});
      assert Next(c, s, w, a) == s';
      GiveLock(s, w, first, len, freed, sequel);
      QuietStep(c, s0, s, w, s');
    } else {
      var p := AfterRelease(c.jobs[w], sequel);
      assert Next(c, s, w, a) == To(s, w, p);
      PhaseStep(c, s0, s, w, p);
    }
  }

  /** The two steps that change a chunk file: writing a block, and tearing the write. */
  predicate Touches(c: Config, s: State, w: nat, a: Act) {
    w < |s.phases| && Writable(c, s.phases[w]) && !a.Stop?
  }

  lemma {:induction false} StoreEndStep(c: Config, s0: State, s: State, w: nat, a: Act)
    requires ValidConfig(c) && Inv(c, s0, s) && Enabled(c, s, w, a) && s.phases[w].Store? && !Touches(c, s, w, a)
    ensures Inv(c, s0, Next(c, s, w, a))
  {
    hide Agrees, CompletedBytes;
    PhaseStep(c, s0, s, w, NextStore(c, s, w, a).phases[w]);
  }

  /** The chunk about to be written is locked by the writer, and missing; and the block for it is its slice. */
  lemma {:induction false} WriterHoldsLock(c: Config, s0: State, s: State, w: nat, a: Act)
    requires ValidConfig(c) && Inv(c, s0, s) && Enabled(c, s, w, a) && Touches(c, s, w, a)
    ensures var p := s.phases[w];
            var index := p.first + p.stored;
            && index < Count(c) && index in s.locks && s.locks[index] == w && !Done(c, s, index)
            && p.blocks[p.stored] == Slice(c.content, index) && |p.blocks[p.stored]| == ExpectedSize(|c.content|, index)
  {
    var Store(first, len, stored, blocks) := s.phases[w];
    assert PhaseOk(c, s, c.jobs[w], s.phases[w]);
    assert Holds(s.phases[w], first + stored);
    AcceptedBlocks(c.content, first, blocks, stored + 1);
  }

  /** What other workers rely on survives a change of one missing chunk that they have not locked. */
  lemma {:induction false} OthersUnharmed(c: Config, s: State, s': State, job: Job, p: Phase, index: nat)
    requires PhaseOk(c, s, job, p) && !Holds(p, index) && !Done(c, s, index)
    requires forall i: nat :: i != index ==> Done(c, s, i) == Done(c, s', i)
    ensures PhaseOk(c, s', job, p)
  {
  }

  lemma {:induction false} TearStep(c: Config, s0: State, s: State, w: nat, a: Act)
    requires ValidConfig(c) && Inv(c, s0, s) && Enabled(c, s, w, a) && Touches(c, s, w, a) && a.Tear?
    ensures Inv(c, s0, Next(c, s, w, a))
  {
    var s' := NextStore(c, s, w, a);
    WriterHoldsLock(c, s0, s, w, a);
    SameLocks(s, w, s'.phases[w]);
    QuietStep(c, s0, s, w, s');
  }

  lemma {:induction false} WritePhases(c: Config, s: State, w: nat, s': State, index: nat)
    requires w < |s.phases| == |s'.phases| == |c.jobs| && LocksExact(s)
    requires forall v :: 0 <= v < |s.phases| ==> PhaseOk(c, s, c.jobs[v], s.phases[v])
    requires Writable(c, s.phases[w]) && index == s.phases[w].first + s.phases[w].stored
    requires s'.phases == s.phases[w := s.phases[w].(stored := s.phases[w].stored + 1)]
    requires !Done(c, s, index) && Done(c, s', index) && forall i: nat :: i != index ==> Done(c, s', i) == Done(c, s, i)
    ensures forall v :: 0 <= v < |s'.phases| ==> PhaseOk(c, s', c.jobs[v], s'.phases[v])
  {
    assert Holds(s.phases[w], index);
    forall v | 0 <= v < |s'.phases|
      ensures PhaseOk(c, s', c.jobs[v], s'.phases[v])
    {
      if v != w {
        assert !Holds(s.phases[v], index);
        OthersUnharmed(c, s, s', c.jobs[v], s.phases[v], index);
      }
    }
  }

  lemma {:induction false} WriteStep(c: Config, s0: State, s: State, w: nat, a: Act)
    requires ValidConfig(c) && Inv(c, s0, s) && Enabled(c, s, w, a) && Touches(c, s, w, a) && a.Go?
    ensures Inv(c, s0, Next(c, s, w, a))
  {
    hide Flatten, Slice;
    var Store(first, len, stored, blocks) := s.phases[w];
    var index := first + stored;
    var s' := NextStore(c, s, w, a);
    assert Next(c, s, w, a) == s';
    WriterHoldsLock(c, s0, s, w, a);
    SameLocks(s, w, s'.phases[w]);
    WrittenBytes(c, s, s', index, Count(c));
    WritePhases(c, s, w, s', index);
  }

  /** Every step of every worker, whatever the response and the faults, keeps the invariant. */
  lemma {:induction false} StepInv(c: Config, s0: State, s: State, w: nat, a: Act)
    requires ValidConfig(c) && Inv(c, s0, s) && Enabled(c, s, w, a)
    ensures Inv(c, s0, Next(c, s, w, a))
  {
    hide Agrees, CompletedBytes, LocksExact, WrittenOnce;
    match s.phases[w]
    case Scan(_, _, _, _, _) =>
      ScanPhase(c, s, c.jobs[w], s.phases[w]);
      PhaseStep(c, s0, s, w, NextScan(c, s, c.jobs[w], s.phases[w]));
    case Release(_, _, _, _) => ReleaseStep(c, s0, s, w, a);
    case Acquire(_, _, _) => AcquireStep(c, s0, s, w, a);
    case Recheck(_, _, _) => RecheckStep(c, s0, s, w, a);
    case Store(_, _, _, _) =>
      if !Touches(c, s, w, a) { StoreEndStep(c, s0, s, w, a); }
      else if a.Tear? { TearStep(c, s0, s, w, a); }
      else { WriteStep(c, s0, s, w, a); }
  }

  lemma {:induction false} QuietBytes(c: Config, s: State, s': State, n: nat)
    requires forall i: nat :: Done(c, s', i) == Done(c, s, i)
    ensures CompletedBytes(c, s', n) == CompletedBytes(c, s, n)
  {
    if n != 0 {
      QuietBytes(c, s, s', n - 1);
    }
  }

  lemma {:induction false} WrittenBytes(c: Config, s: State, s': State, index: nat, n: nat)
    requires !Done(c, s, index) && Done(c, s', index)
    requires forall i: nat :: i != index ==> Done(c, s', i) == Done(c, s, i)
    ensures CompletedBytes(c, s', n) == CompletedBytes(c, s, n) + if index < n then ExpectedSize(|c.content|, index) else 0
  {
    if n != 0 {
      WrittenBytes(c, s, s', index, n - 1);
    }
  }

  // ---- what holds over every run -------------------------------------------------------------

  lemma {:induction false} ScheduleInv(c: Config, s0: State, s: State, moves: seq<Move>)
    requires ValidConfig(c) && Inv(c, s0, s) && Schedule(c, s, moves)
    ensures Inv(c, s0, After(c, s, moves))
    decreases |moves|
  {
    if moves != [] {
      StepInv(c, s0, s, moves[0].worker, moves[0].act);
      ScheduleInv(c, s0, Next(c, s, moves[0].worker, moves[0].act), moves[1..]);
    }
  }

  /**
   Safety of every run, whatever the interleaving and the faults: no chunk is written twice, a chunk is
   written exactly when it was missing and is now complete, complete chunks hold the right bytes, and
   the progress callbacks have reported exactly the bytes of the chunks completed since the beginning.
   */
  lemma {:induction false} SafeRun(c: Config, s: State, moves: seq<Move>)
    requires ValidConfig(c) && Init(c, s) && Schedule(c, s, moves)
    ensures var e := After(c, s, moves);
            && (forall i: nat :: i < Count(c) ==> Writes(e, i) <= 1)
            && (forall i: nat :: i < Count(c) ==> (Writes(e, i) == 1 <==> !Done(c, s, i) && Done(c, e, i)))
            && (forall i: nat :: i < Count(c) && Done(c, s, i) ==> Done(c, e, i))
            && (forall i: nat :: i < Count(c) && Done(c, e, i) ==> e.files[i] == Slice(c.content, i))
            && e.reported == CompletedBytes(c, e, Count(c)) - CompletedBytes(c, s, Count(c))
  {
    ScheduleInv(c, s, s, moves);
  }

  /**
   In every run, the chunk a worker is about to write (or tear) is locked by that worker, is missing,
   and no other worker is anywhere near writing it.
   */
  lemma {:induction false} OnlyLockHolderWrites(c: Config, s: State, moves: seq<Move>, w: nat, a: Act)
    requires ValidConfig(c) && Init(c, s) && Schedule(c, s, moves)
    requires Enabled(c, After(c, s, moves), w, a) && Touches(c, After(c, s, moves), w, a)
    ensures var e := After(c, s, moves);
            var index := e.phases[w].first + e.phases[w].stored;
            && index in e.locks && e.locks[index] == w
            && !Done(c, e, index)
            && forall v :: 0 <= v < |e.phases| && v != w ==> !Holds(e.phases[v], index)
  {
    var e := After(c, s, moves);
    ScheduleInv(c, s, s, moves);
    WriterHoldsLock(c, s, e, w, a);
    var index := e.phases[w].first + e.phases[w].stored;
    forall v | 0 <= v < |e.phases| && v != w
      ensures !Holds(e.phases[v], index)
    {
      assert Holds(e.phases[v], index) <==> index in e.locks && e.locks[index] == v;
    }
  }

  // ---- planning undisturbed ------------------------------------------------------------------

  /** The outcome of planning when nobody completes a chunk meanwhile: what follows the release of the old locks. */
  function Plan(c: Config, s: State, job: Job, p: Phase): Sequel
    requires p.Scan?
    decreases job.top - p.cur
  {
    var q := NextScan(c, s, job, p);
    if q.Scan? then Plan(c, s, job, q) else q.sequel
  }

  /** Then the planning steps find exactly what `get_next_missing_range` is specified to return. */
  lemma {:induction false} PlanFindsFirstRun(c: Config, s: State, job: Job, p: Phase)
    requires p.Scan? && PhaseOk(c, s, job, p) && (0 < p.len ==> job.full)
    requires 0 < p.len ==> NoneDone(c, s, p.first, p.cur) && AllDone(c, s, job.lo, p.first)
    ensures var q := Plan(c, s, job, p);
            && (q.Finish? || q.Take?)
            && (q.Finish? <==> AllComplete(s.files, |c.content|, job.lo, job.top))
            && (q.Take? ==> IsFirstRun(s.files, |c.content|, Window(job.lo, job.top), job.full, q.first, q.len))
    decreases job.top - p.cur
  {
    assert forall i: nat :: Done(c, s, i) == Complete(s.files, |c.content|, i);
    var q := NextScan(c, s, job, p);
    if q.Scan? {
      PlanFindsFirstRun(c, s, job, q);
    } else if q.sequel.Take? {
      assert !Done(c, s, q.sequel.first);
    }
  }
}
