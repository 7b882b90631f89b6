/**
 How each worker of a concurrent download ends, told from the moves of the schedule: an exception that is
 not retried and a block of the wrong size end it as failed, and nothing else does.
 */
module WorkersOutcomes {
  import opened Chunks
  import opened Workers
  import opened WorkersProgress

  /** The block that this worker is about to write is not as long as the piece of the file that belongs there. */
  predicate MeetsWrongSize(c: Config, p: Phase) {
    p.Store? && p.stored < p.len && p.stored < |p.blocks| && |p.blocks[p.stored]| != |Slice(c.content, p.first + p.stored)|
  }

  /** A move at which the worker gives up: an exception that is not retried, or going on at a block of the wrong size. */
  predicate GivesUp(c: Config, s: State, m: Move)
    requires m.worker < |s.phases|
  {
    match m.act
    case Stop(again) => !again
    case Tear(_, again) => !again
    case Go => MeetsWrongSize(c, s.phases[m.worker])
    case Respond(_) => false
  }

  /** One of the moves of this worker in the schedule is such a move. */
  ghost predicate GaveUp(c: Config, s: State, moves: seq<Move>, w: nat)
    requires Schedule(c, s, moves)
    decreases |moves|
  {
    moves != [] &&
    ((moves[0].worker == w && GivesUp(c, s, moves[0])) || GaveUp(c, Next(c, s, moves[0].worker, moves[0].act), moves[1..], w))
  }

  /** Failed, or bound to be as soon as its locks are given back. */
  predicate Doomed(p: Phase) {
    p.Failed? || (p.Release? && p.sequel.Fail?)
  }

  lemma {:induction false} WrongSizeIsMisfit(c: Config, s: State, job: Job, p: Phase)
    requires PhaseOk(c, s, job, p) && job.top <= Count(c)
    ensures MeetsWrongSize(c, p) <==> p.Store? && p.stored < p.len && p.stored < |p.blocks| && !Writable(c, p)
  {
    if p.Store? && p.stored < p.len {
      SliceSize(c.content, p.first + p.stored);
    }
  }

  lemma {:induction false} OnlyOwnPhase(c: Config, s: State, w: nat, a: Act)
    requires Enabled(c, s, w, a)
    ensures Next(c, s, w, a).phases == s.phases[w := Next(c, s, w, a).phases[w]]
  {
    hide Done, Writable, Sends, Covers, NextScan, AfterRelease;
  }

  lemma {:induction false} PlansUndoomed(c: Config, s: State, job: Job, p: Phase)
    requires p.Scan?
    ensures !Doomed(NextScan(c, s, job, p))
  {
    hide Done;
  }

  lemma {:induction false} OwnDoom(c: Config, s: State, w: nat, a: Act)
    requires Enabled(c, s, w, a) && (MeetsWrongSize(c, s.phases[w]) <==>
               s.phases[w].Store? && s.phases[w].stored < s.phases[w].len && s.phases[w].stored < |s.phases[w].blocks| && !Writable(c, s.phases[w]))
    ensures Doomed(Next(c, s, w, a).phases[w]) <==> Doomed(s.phases[w]) || GivesUp(c, s, Move(w, a))
  {
    hide Done, Writable, Sends, Covers, MeetsWrongSize, NextScan;
    if s.phases[w].Scan? {
      PlansUndoomed(c, s, c.jobs[w], s.phases[w]);
    }
  }

  lemma {:induction false} DoomStep(c: Config, s0: State, s: State, m: Move, w: nat)
    requires ValidConfig(c) && Inv(c, s0, s) && Enabled(c, s, m.worker, m.act) && w < |s.phases|
    ensures Doomed(Next(c, s, m.worker, m.act).phases[w]) <==> Doomed(s.phases[w]) || (m.worker == w && GivesUp(c, s, m))
  {
    WrongSizeIsMisfit(c, s, c.jobs[m.worker], s.phases[m.worker]);
    hide Inv, PhaseOk, Writable, MeetsWrongSize, Next, Doomed, GivesUp;
    OnlyOwnPhase(c, s, m.worker, m.act);
    OwnDoom(c, s, m.worker, m.act);
  }

  lemma {:induction false} DoomedIffGaveUp(c: Config, s0: State, s: State, moves: seq<Move>, w: nat)
    requires ValidConfig(c) && Inv(c, s0, s) && Schedule(c, s, moves) && w < |c.jobs|
    ensures Inv(c, s0, After(c, s, moves))
    ensures Doomed(After(c, s, moves).phases[w]) <==> Doomed(s.phases[w]) || GaveUp(c, s, moves, w)
    decreases |moves|
  {
    hide Doomed, GivesUp, Enabled, Next;
    if moves != [] {
      StepInv(c, s0, s, moves[0].worker, moves[0].act);
      DoomStep(c, s0, s, moves[0], w);
      DoomedIffGaveUp(c, s0, Next(c, s, moves[0].worker, moves[0].act), moves[1..], w);
    }
  }

  /**
   In every schedule that cannot be continued, whatever the faults: a worker has failed if and only if one of
   its moves gave up; any other, after any number of exceptions that are retried, has finished, with its whole
   window complete and right.
   */
  lemma {:induction false} FailedIffGaveUp(c: Config, s: State, moves: seq<Move>, w: nat)
    requires ValidConfig(c) && Init(c, s) && Schedule(c, s, moves) && CannotContinue(c, After(c, s, moves)) && w < |c.jobs|
    ensures var e := After(c, s, moves);
            && |e.phases| == |c.jobs|
            && (e.phases[w].Failed? <==> GaveUp(c, s, moves, w))
            && (e.phases[w].Finished? <==> !GaveUp(c, s, moves, w))
            && (!GaveUp(c, s, moves, w) ==> forall i: nat :: c.jobs[w].lo <= i < c.jobs[w].top ==>
                  Done(c, e, i) && e.files[i] == Slice(c.content, i))
  {
    hide Inv, GaveUp, Schedule, CannotContinue;
    StartsUndoomed(c, s, w);
    InitInv(c, s);
    DoomedIffGaveUp(c, s, s, moves, w);
    RunEndsComplete(c, s, moves);
  }

  lemma {:induction false} StartsUndoomed(c: Config, s: State, w: nat)
    requires Init(c, s) && w < |c.jobs|
    ensures w < |s.phases| && !Doomed(s.phases[w])
  {
  }
}
