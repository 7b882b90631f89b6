/**
 Liveness of the concurrent download: the workers never deadlock, every schedule is finite, with an
 explicit bound on its length, and a schedule that cannot be continued has downloaded what was asked.
 */
module WorkersProgress {
  import opened Blocks
  import opened Chunks
  import opened Workers

  // ---- no deadlock ---------------------------------------------------------------------------

  predicate Ended(p: Phase) {
    p.Finished? || p.Failed?
  }

  /** The chunk a worker waits for, counted from the end of the file; 0 when it does not wait for a lock. */
  function Waiting(c: Config, p: Phase): nat
    requires p.Acquire? ==> p.first + p.held <= Count(c)
  {
    if p.Acquire? then Count(c) - (p.first + p.held) else 0
  }

  /** The whole body for a run, cut at the borders of the chunks: an answer that a server can always give. */
  function WholeBody(content: seq<Byte>, first: nat, len: nat): (blocks: seq<seq<Byte>>)
    ensures |blocks| == len && forall k :: 0 <= k < len ==> blocks[k] == Slice(content, first + k)
  {
    if len == 0 then [] else WholeBody(content, first, len - 1) + [Slice(content, first + len - 1)]
  }

  lemma {:induction false} WholeBodyIsBody(content: seq<Byte>, first: nat, len: nat)
    requires first + len <= ChunksCount(|content|)
    ensures Flatten(WholeBody(content, first, len)) == content[Start(|content|, first)..Start(|content|, first + len)]
  {
    if len != 0 {
      var blocks := WholeBody(content, first, len);
      WholeBodyIsBody(content, first, len - 1);
      assert blocks[..len - 1] == WholeBody(content, first, len - 1);
      PiecesJoin(content, Start(|content|, first), Start(|content|, first + len - 1), Start(|content|, first + len));
    }
  }

  lemma {:induction false} WholeBodyIsSent(c: Config, first: nat, len: nat)
    requires first + len <= Count(c)
    ensures Sends(c, first, WholeBody(c.content, first, len)) && Covers(c, first, len, WholeBody(c.content, first, len))
  {
    hide Flatten, Slice;
    WholeBodyIsBody(c.content, first, len);
    forall k | 0 <= k < len ensures Fits(|c.content|, first, WholeBody(c.content, first, len), k) {
      SliceSize(c.content, first + k);
    }
    PrefixOfRest(c.content, Start(|c.content|, first), Start(|c.content|, first + len));
  }

  /**
   Whenever some worker has not ended, some worker can take a step. A blocked worker waits for a chunk
   that another worker holds; since runs are locked in ascending order, following the holders leads to
   ever higher chunks, and so to a worker that is not blocked.
   */
  lemma {:induction false} SomeoneCanMove(c: Config, s0: State, s: State, w: nat) returns (m: Move)
    requires ValidConfig(c) && Inv(c, s0, s) && w < |s.phases| && !Ended(s.phases[w])
    ensures Enabled(c, s, m.worker, m.act)
    decreases Waiting(c, s.phases[w])
  {
    m := Move(w, Go);
    assert PhaseOk(c, s, c.jobs[w], s.phases[w]);
    if s.phases[w].Recheck? && s.phases[w].len <= s.phases[w].seen {
      WholeBodyIsSent(c, s.phases[w].first, s.phases[w].len);
      m := Move(w, Respond(WholeBody(c.content, s.phases[w].first, s.phases[w].len)));
    } else if !Enabled(c, s, w, Go) {
      var wanted := s.phases[w].first + s.phases[w].held;
      var holder := s.locks[wanted];
      assert Holds(s.phases[holder], wanted);
      assert PhaseOk(c, s, c.jobs[holder], s.phases[holder]);
      m := SomeoneCanMove(c, s0, s, holder);
    }
  }

  // ---- every schedule is finite --------------------------------------------------------------

  function Missing(c: Config, s: State, n: nat): nat {
    if n == 0 then 0 else Missing(c, s, n - 1) + Indicator(!Done(c, s, n - 1))
  }

  /** No chunk of a run has been completed since it was planned; else it will be thrown away and planned again. */
  predicate FreshPlan(c: Config, s: State, first: nat, len: nat) {
    NoneDone(c, s, first, first + len)
  }

  /**
   How far a worker is from ending or from writing a chunk. Stale plans rank above the planning that they
   lead to, and that ranks above fresh plans.
   */
  function Rank(c: Config, s: State, job: Job, p: Phase): nat
    requires PhaseOk(c, s, job, p)
  {
    var n := Count(c);
    match p
    case Finished => 0
    case Failed => 0
    case Store(first, len, stored, blocks) => if Writable(c, p) then 1 else 4 * n + 6
    case Recheck(first, len, seen) => len - seen + if FreshPlan(c, s, first, len) then 2 else 4 * n + 6
    case Acquire(first, len, held) => len - held + if FreshPlan(c, s, first, len) then n + 3 else 5 * n + 7
    case Release(first, len, freed, sequel) => len - freed + RankAfter(c, s, sequel)
    case Scan(cur, first, len, prior, priorLen) =>
      (if cur < job.top then job.top - cur else 0) + if FreshPlan(c, s, first, len) then 3 * n + 5 else 7 * n + 9
  }

  function RankAfter(c: Config, s: State, sequel: Sequel): nat {
    var n := Count(c);
    match sequel
    case Retry => 4 * n + 6
    case Take(first, len) => if FreshPlan(c, s, first, len) then 2 * n + 4 else 6 * n + 8
    case _ => 2 * n + 4
  }

  function TotalRank(c: Config, s: State, k: nat): nat
    requires k <= |s.phases| == |c.jobs|
    requires forall w :: 0 <= w < k ==> PhaseOk(c, s, c.jobs[w], s.phases[w])
  {
    if k == 0 then 0 else TotalRank(c, s, k - 1) + Rank(c, s, c.jobs[k - 1], s.phases[k - 1])
  }

  function MaxRank(c: Config): nat {
    8 * Count(c) + 10
  }

  lemma {:induction false} RankBound(c: Config, s: State, job: Job, p: Phase)
    requires PhaseOk(c, s, job, p) && job.top <= Count(c)
    ensures Rank(c, s, job, p) <= MaxRank(c)
  {
  }

  lemma {:induction false} TotalRankBound(c: Config, s: State, k: nat)
    requires ValidConfig(c) && k <= |s.phases| == |c.jobs|
    requires forall w :: 0 <= w < k ==> PhaseOk(c, s, c.jobs[w], s.phases[w])
    ensures TotalRank(c, s, k) <= Times(k, MaxRank(c))
  {
    if k != 0 {
      TotalRankBound(c, s, k - 1);
      RankBound(c, s, c.jobs[k - 1], s.phases[k - 1]);
    }
  }

  /** The product a * b. */
  function Times(a: nat, b: nat): nat {
    if a == 0 then 0 else Times(a - 1, b) + b
  }

  lemma {:induction false} TimesIsProduct(a: nat, b: nat)
    ensures Times(a, b) == a * b
  {
    if a != 0 {
      TimesIsProduct(a - 1, b);
      assert (a - 1) * b + b == a * b;
    }
  }

  lemma {:induction false} TimesGrows(small: nat, big: nat, base: nat)
    requires small < big
    ensures Times(small, base) + base <= Times(big, base)
  {
    if small + 1 < big {
      TimesGrows(small, big - 1, base);
    }
  }

  /** Rank looks at the state only through the set of complete chunks. */
  lemma {:induction false} RankFrame(c: Config, s: State, s': State, job: Job, p: Phase)
    requires PhaseOk(c, s, job, p) && forall i: nat :: Done(c, s', i) == Done(c, s, i)
    ensures PhaseOk(c, s', job, p) && Rank(c, s', job, p) == Rank(c, s, job, p)
  {
    if p.Scan? || p.Acquire? || p.Recheck? {
      assert FreshPlan(c, s, p.first, p.len) == FreshPlan(c, s', p.first, p.len);
    } else if p.Release? && p.sequel.Take? {
      assert FreshPlan(c, s, p.sequel.first, p.sequel.len) == FreshPlan(c, s', p.sequel.first, p.sequel.len);
    }
  }

  /** The steps that use up a fault: exceptions, torn writes, and responses that do not cover the run. */
  predicate IsFault(c: Config, s: State, w: nat, a: Act)
    requires Enabled(c, s, w, a)
  {
    a.Stop? || a.Tear? || (a.Respond? && s.phases[w].Recheck? && !Covers(c, s.phases[w].first, s.phases[w].len, a.blocks))
  }

  lemma {:induction false} ScanFalls(c: Config, s: State, job: Job, w: nat, a: Act)
    requires Enabled(c, s, w, a) && s.phases[w].Scan? && !Touches(c, s, w, a) && !IsFault(c, s, w, a)
    requires job == c.jobs[w] && job.top <= Count(c) && PhaseOk(c, s, job, s.phases[w])
    requires PhaseOk(c, s, job, Next(c, s, w, a).phases[w])
    ensures Rank(c, s, job, Next(c, s, w, a).phases[w]) < Rank(c, s, job, s.phases[w])
  {
    hide ChunksCount, Start, Slice, Fits, Flatten;
  }

  lemma {:induction false} ReleaseFalls(c: Config, s: State, job: Job, w: nat, a: Act)
    requires Enabled(c, s, w, a) && s.phases[w].Release? && !Touches(c, s, w, a) && !IsFault(c, s, w, a)
    requires job == c.jobs[w] && job.top <= Count(c) && PhaseOk(c, s, job, s.phases[w])
    requires PhaseOk(c, s, job, Next(c, s, w, a).phases[w])
    ensures Rank(c, s, job, Next(c, s, w, a).phases[w]) < Rank(c, s, job, s.phases[w])
  {
    hide ChunksCount, Start, Slice, Fits, Flatten;
  }

  lemma {:induction false} AcquireFalls(c: Config, s: State, job: Job, w: nat, a: Act)
    requires Enabled(c, s, w, a) && s.phases[w].Acquire? && !Touches(c, s, w, a) && !IsFault(c, s, w, a)
    requires job == c.jobs[w] && job.top <= Count(c) && PhaseOk(c, s, job, s.phases[w])
    requires PhaseOk(c, s, job, Next(c, s, w, a).phases[w])
    ensures Rank(c, s, job, Next(c, s, w, a).phases[w]) < Rank(c, s, job, s.phases[w])
  {
    hide ChunksCount, Start, Slice, Fits, Flatten;
  }

  lemma {:induction false} RecheckFalls(c: Config, s: State, job: Job, w: nat, a: Act)
    requires Enabled(c, s, w, a) && s.phases[w].Recheck? && !Touches(c, s, w, a) && !IsFault(c, s, w, a)
    requires job == c.jobs[w] && job.top <= Count(c) && PhaseOk(c, s, job, s.phases[w])
    requires PhaseOk(c, s, job, Next(c, s, w, a).phases[w])
    ensures Rank(c, s, job, Next(c, s, w, a).phases[w]) < Rank(c, s, job, s.phases[w])
  {
    hide ChunksCount, Start, Slice, Fits, Flatten;
  }

  lemma {:induction false} StoreFalls(c: Config, s: State, job: Job, w: nat, a: Act)
    requires Enabled(c, s, w, a) && s.phases[w].Store? && !Touches(c, s, w, a) && !IsFault(c, s, w, a)
    requires job == c.jobs[w] && job.top <= Count(c) && PhaseOk(c, s, job, s.phases[w])
    requires PhaseOk(c, s, job, Next(c, s, w, a).phases[w])
    ensures Rank(c, s, job, Next(c, s, w, a).phases[w]) < Rank(c, s, job, s.phases[w])
  {
    hide ChunksCount, Start, Slice, Fits, Flatten;
  }

  /** A step that writes no chunk and is no fault moves its worker down. */
  lemma {:induction false} RankFalls(c: Config, s: State, job: Job, w: nat, a: Act)
    requires Enabled(c, s, w, a) && !Touches(c, s, w, a) && !IsFault(c, s, w, a)
    requires job == c.jobs[w] && job.top <= Count(c) && PhaseOk(c, s, job, s.phases[w])
    requires PhaseOk(c, s, job, Next(c, s, w, a).phases[w])
    ensures Rank(c, s, job, Next(c, s, w, a).phases[w]) < Rank(c, s, job, s.phases[w])
  {
    hide ChunksCount, Rank, PhaseOk, Next, Touches;
    match s.phases[w]
    case Scan(_, _, _, _, _) => ScanFalls(c, s, job, w, a);
    case Release(_, _, _, _) => ReleaseFalls(c, s, job, w, a);
    case Acquire(_, _, _) => AcquireFalls(c, s, job, w, a);
    case Recheck(_, _, _) => RecheckFalls(c, s, job, w, a);
    case Store(_, _, _, _) => StoreFalls(c, s, job, w, a);
  }

  lemma {:induction false} TotalRankFrame(c: Config, s: State, s': State, w: nat, k: nat)
    requires k <= |s.phases| == |s'.phases| == |c.jobs| && w < |s.phases|
    requires forall v :: 0 <= v < k ==> PhaseOk(c, s, c.jobs[v], s.phases[v])
    requires forall v :: 0 <= v < k ==> PhaseOk(c, s', c.jobs[v], s'.phases[v])
    requires forall i: nat :: Done(c, s', i) == Done(c, s, i)
    requires s'.phases == s.phases[w := s'.phases[w]]
    requires PhaseOk(c, s, c.jobs[w], s.phases[w]) && PhaseOk(c, s, c.jobs[w], s'.phases[w])
    requires Rank(c, s, c.jobs[w], s'.phases[w]) < Rank(c, s, c.jobs[w], s.phases[w])
    ensures TotalRank(c, s', k) < TotalRank(c, s, k) + Indicator(k <= w)
  {
    if k != 0 {
      TotalRankFrame(c, s, s', w, k - 1);
      RankFrame(c, s, s', c.jobs[k - 1], s'.phases[k - 1]);
    }
  }

  lemma {:induction false} MissingFrame(c: Config, s: State, s': State, n: nat)
    requires forall i: nat :: Done(c, s', i) == Done(c, s, i)
    ensures Missing(c, s', n) == Missing(c, s, n)
  {
    if n != 0 {
      MissingFrame(c, s, s', n - 1);
    }
  }

  lemma {:induction false} MissingFalls(c: Config, s: State, s': State, index: nat, n: nat)
    requires !Done(c, s, index) && Done(c, s', index)
    requires forall i: nat :: i != index ==> Done(c, s', i) == Done(c, s, i)
    ensures Missing(c, s', n) + Indicator(index < n) == Missing(c, s, n)
  {
    if n != 0 {
      MissingFalls(c, s, s', index, n - 1);
    }
  }

  ghost predicate PhasesOk(c: Config, s: State) {
    |s.phases| == |c.jobs| && forall w :: 0 <= w < |c.jobs| ==> PhaseOk(c, s, c.jobs[w], s.phases[w])
  }

  /** Faults still to come, then missing chunks: every fault and every write makes this smaller. */
  function Major(c: Config, s: State): nat {
    Times(s.faults, Count(c) + 1) + Missing(c, s, Count(c))
  }

  /**
   The measure of the whole system, lexicographic in: faults still to come, missing chunks, the ranks of
   the workers. It is written as one number, so that it also bounds how long a schedule can be.
   */
  ghost function Measure(c: Config, s: State): nat
    requires PhasesOk(c, s)
  {
    Times(Major(c, s), Times(|c.jobs|, MaxRank(c)) + 1) + TotalRank(c, s, |c.jobs|)
  }

  lemma {:induction false} MajorFalls(c: Config, s: State, s': State)
    requires ValidConfig(c) && PhasesOk(c, s) && PhasesOk(c, s')
    requires Major(c, s') < Major(c, s)
    ensures Measure(c, s') < Measure(c, s)
  {
    TotalRankBound(c, s', |c.jobs|);
    TimesGrows(Major(c, s'), Major(c, s), Times(|c.jobs|, MaxRank(c)) + 1);
  }

  lemma {:induction false} SameDone(c: Config, s0: State, s: State, w: nat, a: Act)
    requires ValidConfig(c) && Inv(c, s0, s) && Enabled(c, s, w, a) && !(a == Go && Touches(c, s, w, a))
    ensures forall i: nat :: Done(c, Next(c, s, w, a), i) == Done(c, s, i)
    ensures Next(c, s, w, a).phases == s.phases[w := Next(c, s, w, a).phases[w]]
    ensures Next(c, s, w, a).faults == s.faults - Indicator(IsFault(c, s, w, a)) >= 0
  {
    hide Inv, ValidConfig;
    if Touches(c, s, w, a) {
      WriterHoldsLock(c, s0, s, w, a);
    }
  }

  lemma {:induction false} QuietFalls(c: Config, s0: State, s: State, w: nat, a: Act)
    requires ValidConfig(c) && Inv(c, s0, s) && Enabled(c, s, w, a) && !Touches(c, s, w, a) && !IsFault(c, s, w, a)
    requires PhasesOk(c, Next(c, s, w, a))
    ensures Measure(c, Next(c, s, w, a)) < Measure(c, s)
  {
    hide Agrees, CompletedBytes, LocksExact, WrittenOnce, Rank;
    var s' := Next(c, s, w, a);
    SameDone(c, s0, s, w, a);
    MissingFrame(c, s, s', Count(c));
    RankFrame(c, s', s, c.jobs[w], s'.phases[w]);
    RankFalls(c, s, c.jobs[w], w, a);
    TotalRankFrame(c, s, s', w, |c.jobs|);
  }

  lemma {:induction false} WriteFalls(c: Config, s0: State, s: State, w: nat)
    requires ValidConfig(c) && Inv(c, s0, s) && Enabled(c, s, w, Go) && Touches(c, s, w, Go)
    ensures Major(c, Next(c, s, w, Go)) < Major(c, s)
  {
    var index := s.phases[w].first + s.phases[w].stored;
    WriterHoldsLock(c, s0, s, w, Go);
    MissingFalls(c, s, Next(c, s, w, Go), index, Count(c));
  }

  lemma {:induction false} FaultFalls(c: Config, s0: State, s: State, w: nat, a: Act)
    requires ValidConfig(c) && Inv(c, s0, s) && Enabled(c, s, w, a) && IsFault(c, s, w, a)
    ensures Major(c, Next(c, s, w, a)) < Major(c, s)
  {
    var s' := Next(c, s, w, a);
    SameDone(c, s0, s, w, a);
    MissingFrame(c, s, s', Count(c));
    TimesGrows(s'.faults, s.faults, Count(c) + 1);
  }

  /** Every step, of any worker, with any response and any fault, makes the measure smaller. */
  lemma {:induction false} StepFalls(c: Config, s0: State, s: State, w: nat, a: Act)
    requires ValidConfig(c) && Inv(c, s0, s) && Enabled(c, s, w, a)
    ensures Inv(c, s0, Next(c, s, w, a))
    ensures Measure(c, Next(c, s, w, a)) < Measure(c, s)
  {
    hide Agrees, CompletedBytes, LocksExact, WrittenOnce, Measure;
    StepInv(c, s0, s, w, a);
    if IsFault(c, s, w, a) {
      FaultFalls(c, s0, s, w, a);
      MajorFalls(c, s, Next(c, s, w, a));
    } else if Touches(c, s, w, a) {
      WriteFalls(c, s0, s, w);
      MajorFalls(c, s, Next(c, s, w, a));
    } else {
      QuietFalls(c, s0, s, w, a);
    }
  }

  /** Every schedule is finite: it has at most as many moves as the measure of the state it starts from. */
  lemma {:induction false} ScheduleBound(c: Config, s0: State, s: State, moves: seq<Move>)
    requires ValidConfig(c) && Inv(c, s0, s) && Schedule(c, s, moves)
    ensures Inv(c, s0, After(c, s, moves))
    ensures |moves| + Measure(c, After(c, s, moves)) <= Measure(c, s)
    decreases |moves|
  {
    if moves != [] {
      StepFalls(c, s0, s, moves[0].worker, moves[0].act);
      ScheduleBound(c, s0, Next(c, s, moves[0].worker, moves[0].act), moves[1..]);
    }
  }

  lemma {:induction false} MissingAtMost(c: Config, s: State, n: nat)
    ensures Missing(c, s, n) <= n
  {
    if n != 0 {
      MissingAtMost(c, s, n - 1);
    }
  }

  lemma {:induction false} MeasureBound(c: Config, s: State)
    requires ValidConfig(c) && PhasesOk(c, s)
    ensures Measure(c, s) < Times(Times(s.faults + 1, Count(c) + 1), Times(|c.jobs|, MaxRank(c)) + 1)
  {
    TotalRankBound(c, s, |c.jobs|);
    MissingAtMost(c, s, Count(c));
    TimesGrows(Major(c, s), Times(s.faults + 1, Count(c) + 1), Times(|c.jobs|, MaxRank(c)) + 1);
  }

  /** An explicit bound on the length of every run from an initial state, whatever the scheduler does. */
  lemma {:induction false} RunIsFinite(c: Config, s: State, moves: seq<Move>)
    requires ValidConfig(c) && Init(c, s) && Schedule(c, s, moves)
    ensures |moves| < ((s.faults + 1) * (Count(c) + 1)) * (|c.jobs| * MaxRank(c) + 1)
  {
    InitInv(c, s);
    ScheduleBound(c, s, s, moves);
    MeasureBound(c, s);
    TimesIsProduct(s.faults + 1, Count(c) + 1);
    TimesIsProduct(|c.jobs|, MaxRank(c));
    TimesIsProduct(Times(s.faults + 1, Count(c) + 1), Times(|c.jobs|, MaxRank(c)) + 1);
  }

  // ---- how a schedule ends -------------------------------------------------------------------

  /** No exception and no misfit is in the way of this worker. */
  predicate Unharmed(c: Config, p: Phase) {
    match p
    case Failed => false
    case Release(_, _, _, sequel) => !sequel.Fail?
    case Store(first, len, stored, blocks) => Covers(c, first, len, blocks)
    case _ => true
  }

  /** Without faults to come, no worker is failed or bound to fail. */
  ghost predicate Faultless(c: Config, s: State) {
    s.faults == 0 && forall w :: 0 <= w < |s.phases| ==> Unharmed(c, s.phases[w])
  }

  lemma {:induction false} FaultlessStep(c: Config, s: State, w: nat, a: Act)
    requires Enabled(c, s, w, a) && Faultless(c, s)
    ensures Faultless(c, Next(c, s, w, a))
  {
    var s' := Next(c, s, w, a);
    assert s'.phases == s.phases[w := s'.phases[w]];
  }

  lemma {:induction false} StaysFaultless(c: Config, s: State, moves: seq<Move>)
    requires Schedule(c, s, moves) && Faultless(c, s)
    ensures Faultless(c, After(c, s, moves))
    decreases |moves|
  {
    if moves != [] {
      FaultlessStep(c, s, moves[0].worker, moves[0].act);
      StaysFaultless(c, Next(c, s, moves[0].worker, moves[0].act), moves[1..]);
    }
  }

  ghost predicate CannotContinue(c: Config, s: State) {
    forall w: nat, a :: !Enabled(c, s, w, a)
  }

  lemma {:induction false} HoldersGoOn(e: State)
    requires LocksExact(e)
    ensures forall i :: i in e.locks ==> e.locks[i] < |e.phases| && !Ended(e.phases[e.locks[i]])
  {
    forall i | i in e.locks
      ensures !Ended(e.phases[e.locks[i]])
    {
      assert Holds(e.phases[e.locks[i]], i);
    }
  }

  lemma {:induction false} EndedHoldNothing(e: State)
    requires LocksExact(e) && forall w :: 0 <= w < |e.phases| ==> Ended(e.phases[w])
    ensures e.locks == map[]
  {
    HoldersGoOn(e);
    assert forall i :: i !in e.locks;
  }

  /**
   A schedule that cannot be continued has ended every worker and given back every lock; a worker that
   ended without a fatal exception has its whole window complete, with the right bytes; and when there
   are no faults, that is every worker.
   */
  lemma {:induction false} RunEndsComplete(c: Config, s: State, moves: seq<Move>)
    requires ValidConfig(c) && Init(c, s) && Schedule(c, s, moves) && CannotContinue(c, After(c, s, moves))
    ensures var e := After(c, s, moves);
            && |e.phases| == |c.jobs|
            && (forall w :: 0 <= w < |c.jobs| ==> Ended(e.phases[w]))
            && e.locks == map[]
            && (forall w, i: nat :: 0 <= w < |c.jobs| && e.phases[w].Finished? && c.jobs[w].lo <= i < c.jobs[w].top ==>
                  Done(c, e, i) && e.files[i] == Slice(c.content, i))
            && (s.faults == 0 ==> forall w :: 0 <= w < |c.jobs| ==> e.phases[w].Finished?)
  {
    var e := After(c, s, moves);
    ScheduleInv(c, s, s, moves);
    forall w | 0 <= w < |c.jobs|
      ensures Ended(e.phases[w])
    {
      if !Ended(e.phases[w]) {
        var m := SomeoneCanMove(c, s, e, w);
      }
    }
    EndedHoldNothing(e);
    if s.faults == 0 {
      StaysFaultless(c, s, moves);
    }
  }
}
