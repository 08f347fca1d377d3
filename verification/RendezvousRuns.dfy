/** What the runs of the rendezvous come to: which sub-calls are cancelled, and the code the parent ends with. */
module RendezvousRuns {
  import opened Options
  import opened SeqSum
  import opened Errno
  import opened ParallelMerge
  import opened Rendezvous

  // ---- cancelling ----

  predicate AllDone(s: State) { forall i :: 0 <= i < |s.subs| ==> PastDone(s.subs[i]) == 1 }

  // Sub-call i has sent ECANCELED to all others, or to those before its place in the loop.
  predicate OthersCancelled(s: State, i: nat)
  {
    && i < |s.subs| && s.subs[i].ec != 0 && PastFail(s.subs[i]) == 1
    && forall j :: 0 <= j < |s.subs| && j != i && (s.subs[i].pc.Cancelling? ==> j < s.subs[i].pc.next) ==> j in s.cancelled
  }

  predicate LimitCancels(c: Config, s: State)
  {
    && (s.canceller.Some? <==> s.massCancels > 0)
    && (s.canceller.Some? ==> OthersCancelled(s, s.canceller.value))
    && (forall i :: 0 <= i < |s.subs| && s.subs[i].pc.Cancelling? ==> s.canceller == Some(i))
  }

  predicate ParentCancels(c: Config, s: State)
  {
    && (s.parent.Cancelling? ==> forall j :: 0 <= j < s.parent.next && j < c.ndone ==> j in s.cancelled)
    && (s.parent.BeforeOr? || PastOr(s.parent) ==> AllDone(s) || forall j :: 0 <= j < c.ndone ==> j in s.cancelled)
  }

  predicate CancelInv(c: Config, s: State) { |s.subs| == c.ndone && LimitCancels(c, s) && ParentCancels(c, s) }

  // What steps do to the sub-calls past their fetch_add and to the cancelled ones.
  lemma CancelsGrow(c: Config, s: State, step: Step)
    requires |s.subs| == c.ndone && Enabled(c, s, step) && (step.Dispatch? ==> s.subs[s.dispatched].pc.Idle?)
    ensures s.cancelled <= Next(c, s, step).cancelled && (AllDone(s) ==> AllDone(Next(c, s, step)))
  {
    hide FinalCode;
  }

  lemma LimitCancelsKept(c: Config, s: State, step: Step)
    requires |s.subs| == c.ndone && LimitCancels(c, s) && Enabled(c, s, step)
    requires step.Dispatch? ==> s.subs[s.dispatched].pc.Idle?
    requires s.massCancels == if s.fails >= c.failLimit then 1 else 0
    ensures LimitCancels(c, Next(c, s, step))
  {
    hide FinalCode;
    var s' := Next(c, s, step);
    if s'.canceller.Some? {
      var i := s'.canceller.value;
      if s.canceller == Some(i) {
        CancellerMoves(c, s, step, i);
      }
    }
  }

  lemma CancellerMoves(c: Config, s: State, step: Step, i: nat)
    requires |s.subs| == c.ndone && OthersCancelled(s, i) && Enabled(c, s, step)
    requires step.Dispatch? ==> s.subs[s.dispatched].pc.Idle?
    ensures OthersCancelled(Next(c, s, step), i)
  {
    hide FinalCode;
  }

  lemma ParentCancelsKept(c: Config, s: State, step: Step)
    requires Inv(c, s) && ParentCancels(c, s) && Enabled(c, s, step)
    ensures ParentCancels(c, Next(c, s, step))
  {
    if step.ParentLoad? && step.seen == c.ndone {
      CountSeen(c, s);
    }
    if step.Dispatch? {
      DispatchesIdle(c, s);
    }
    hide Inv, FinalCode, AllDone;
    CancelsGrow(c, s, step);
  }

  // A parent that sees all sub-calls counted is right.
  lemma CountSeen(c: Config, s: State)
    requires Inv(c, s) && Count(s.word) >= c.ndone
    ensures AllDone(s)
  {
    SumToBits(s.subs, PastDone, |s.subs|);
    PackedWord(Sum(s.subs, PastDone), PastOr(s.parent));
  }

  lemma CancelKept(c: Config, s: State, step: Step)
    requires Inv(c, s) && CancelInv(c, s) && Enabled(c, s, step)
    ensures CancelInv(c, Next(c, s, step))
  {
    LimitCancelsKept(c, s, step);
    ParentCancelsKept(c, s, step);
  }

  lemma {:induction false} CancelReachable(c: Config, steps: seq<Step>)
    requires c.Valid() && After(c, steps).Some?
    ensures CancelInv(c, After(c, steps).value)
  {
    hide CancelInv, Next, Inv;
    if steps == [] {
      InitCancels(c);
    } else {
      var prefix := steps[..|steps| - 1];
      CancelReachable(c, prefix);
      Reachable(c, prefix);
      CancelKept(c, After(c, prefix).value, steps[|steps| - 1]);
    }
  }

  lemma InitCancels(c: Config)
    ensures CancelInv(c, Init(c))
  {
  }

  // In every run: once the failures have reached the limit and the loop of the sub-call that brought them there is
  // over, every other sub-call was sent a cancel.
  lemma LimitCancelsOthers(c: Config, steps: seq<Step>)
    requires c.Valid() && After(c, steps).Some?
    requires var s := After(c, steps).value;
             s.fails >= c.failLimit && forall i :: 0 <= i < |s.subs| ==> !s.subs[i].pc.Cancelling?
    ensures var s := After(c, steps).value;
            exists i :: 0 <= i < c.ndone && s.subs[i].ec != 0 && forall j :: 0 <= j < c.ndone && j != i ==> j in s.cancelled
  {
    hide After;
    Reachable(c, steps);
    CancelReachable(c, steps);
    var s := After(c, steps).value;
    var i := s.canceller.value;
    assert 0 <= i < c.ndone && s.subs[i].ec != 0 && forall j :: 0 <= j < c.ndone && j != i ==> j in s.cancelled;
  }

  // In every run: a parent that has run has cancelled every sub-call, unless all of them were finished.
  lemma ParentCancelsAll(c: Config, steps: seq<Step>)
    requires c.Valid() && After(c, steps).Some? && PastOr(After(c, steps).value.parent)
    ensures var s := After(c, steps).value;
            AllDone(s) || forall j :: 0 <= j < c.ndone ==> j in s.cancelled
  {
    hide After;
    CancelReachable(c, steps);
  }

  // ---- the parent's code ----

  // What the steps of a run say: the error the parent ran with, the error each sub-call finished with, and what
  // merging yielded.
  function ParentError(steps: seq<Step>): int
  {
    if steps == [] then 0
    else
      var last := steps[|steps| - 1];
      if last.ParentRun? then (if last.ec == EPCHANFINISH then 0 else last.ec) else ParentError(steps[..|steps| - 1])
  }

  function FinishError(steps: seq<Step>, i: nat): int
  {
    if steps == [] then 0
    else
      var last := steps[|steps| - 1];
      if last.Finish? && last.i == i then last.ec else FinishError(steps[..|steps| - 1], i)
  }

  function MergesOf(steps: seq<Step>): seq<MergeResult>
  {
    if steps == [] then []
    else
      var last := steps[|steps| - 1];
      if last.SubComplete? || last.ParentComplete? then last.merges else MergesOf(steps[..|steps| - 1])
  }

  function ResultsOf(c: Config, steps: seq<Step>): seq<SubResult>
    requires |MergesOf(steps)| == c.ndone
  {
    seq(c.ndone, i requires 0 <= i < c.ndone => SubResult(FinishError(steps, i), MergesOf(steps)[i]))
  }

  // One step: errors are set by ParentRun and Finish only.
  lemma ErrorsStep(c: Config, s: State, step: Step, i: nat)
    requires |s.subs| == c.ndone && Enabled(c, s, step) && i < c.ndone
    requires s.subs[i].pc.Idle? ==> s.subs[i].ec == 0
    requires step.Dispatch? ==> s.subs[s.dispatched].pc.Idle?
    ensures var s' := Next(c, s, step);
            && s'.parentEc == (if step.ParentRun? then (if step.ec == EPCHANFINISH then 0 else step.ec) else s.parentEc)
            && s'.subs[i].ec == (if step.Finish? && step.i == i then step.ec else s.subs[i].ec)
            && (s'.subs[i].pc.Idle? ==> s'.subs[i].ec == 0)
            && (s'.parent.NotRun? <==> s.parent.NotRun? && !step.ParentRun?)
  {
    hide FinalCode;
  }

  lemma {:induction false} RunErrors(c: Config, steps: seq<Step>, i: nat)
    requires c.Valid() && After(c, steps).Some? && i < c.ndone
    ensures var s := After(c, steps).value;
            && s.parentEc == ParentError(steps) && s.subs[i].ec == FinishError(steps, i)
            && (s.subs[i].pc.Idle? ==> s.subs[i].ec == 0)
  {
    if steps != [] {
      hide Next, Inv;
      var (prefix, step) := (steps[..|steps| - 1], steps[|steps| - 1]);
      RunErrors(c, prefix, i);
      Reachable(c, prefix);
      if step.Dispatch? {
        DispatchesIdle(c, After(c, prefix).value);
      }
      ErrorsStep(c, After(c, prefix).value, step, i);
    }
  }

  lemma DispatchesIdle(c: Config, s: State)
    requires Inv(c, s) && s.dispatched < c.ndone
    ensures s.subs[s.dispatched].pc.Idle?
  {
  }

  // The parent runs at most once.
  lemma {:induction false} ParentHasRun(c: Config, steps: seq<Step>, k: nat)
    requires c.Valid() && After(c, steps).Some? && k < |steps| && steps[k].ParentRun?
    ensures !After(c, steps).value.parent.NotRun?
  {
    hide Next, Inv;
    var (prefix, step) := (steps[..|steps| - 1], steps[|steps| - 1]);
    var s := After(c, prefix).value;
    RunErrors(c, prefix, 0);
    Reachable(c, prefix);
    if step.Dispatch? {
      DispatchesIdle(c, s);
    }
    ErrorsStep(c, s, step, 0);
    if k < |prefix| {
      ParentHasRun(c, prefix, k);
    }
  }

  // After completion nothing changes that the code depends on.
  lemma CompletedStays(c: Config, steps: seq<Step>, step: Step)
    requires c.Valid() && After(c, steps).Some? && Enabled(c, After(c, steps).value, step)
    requires After(c, steps).value.completions > 0
    ensures step.Notify? && Next(c, After(c, steps).value, step).code == After(c, steps).value.code
  {
    hide After;
    Reachable(c, steps);
    var s := After(c, steps).value;
    assert Elected(s) > 0;
    NobodyTouchesAfterElection(c, steps, step);
  }

  lemma ResultsAreOfRun(c: Config, steps: seq<Step>, step: Step)
    requires c.Valid() && After(c, steps).Some? && Enabled(c, After(c, steps).value, step)
    requires step.SubComplete? || step.ParentComplete?
    ensures MergesOf(steps + [step]) == step.merges && ParentError(steps + [step]) == After(c, steps).value.parentEc
    ensures ResultsOf(c, steps + [step]) == Results(After(c, steps).value, step.merges)
  {
    hide After;
    var all := steps + [step];
    assert all[..|all| - 1] == steps && all[|all| - 1] == step;
    forall i: nat | i < c.ndone
      ensures FinishError(all, i) == After(c, steps).value.subs[i].ec
    {
      RunErrors(c, steps, i);
    }
    RunErrors(c, steps, 0);
  }

  // In every completed run the parent ends with what the run itself calls for: the number of sub-calls that finished
  // with an error, their errors, what merging yielded, and the error the parent ran with.
  lemma {:induction false} CodeOfRun(c: Config, steps: seq<Step>)
    requires c.Valid() && After(c, steps).Some? && After(c, steps).value.completions > 0
    ensures |MergesOf(steps)| == c.ndone
    ensures var results := ResultsOf(c, steps);
            EndsWith(After(c, steps).value.code, Sum(results, FailureWeight), results, c.failLimit, ParentError(steps))
  {
    hide EndsWith, FinalCode, SumTo;
    var (prefix, step) := (steps[..|steps| - 1], steps[|steps| - 1]);
    assert steps == prefix + [step];
    var s := After(c, prefix).value;
    if s.completions > 0 {
      CodeOfRun(c, prefix);
      CompletedStays(c, prefix, step);
      assert ResultsOf(c, steps) == ResultsOf(c, prefix);
    } else {
      assert step.SubComplete? || step.ParentComplete?;
      ParentCodeAtCompletion(c, prefix, step);
      ResultsAreOfRun(c, prefix, step);
      var results := Results(s, step.merges);
      FinalCodeIsDue(Sum(results, FailureWeight), results, c.failLimit, s.parentEc);
    }
  }

  // A parallel call that timed out or was cancelled keeps that code if its sub-calls reach the limit.
  lemma TimeoutIsKept(c: Config, steps: seq<Step>, k: nat)
    requires c.Valid() && After(c, steps).Some? && After(c, steps).value.completions > 0
    requires k < |steps| && steps[k].ParentRun? && steps[k].ec != EPCHANFINISH && steps[k].ec != 0
    requires After(c, steps).value.fails >= c.failLimit
    ensures After(c, steps).value.code == steps[k].ec
  {
    hide After;
    CodeOfRun(c, steps);
    ParentErrorIs(c, steps, k);
    FailuresOfRun(c, steps);
  }

  lemma {:induction false} ParentErrorIs(c: Config, steps: seq<Step>, k: nat)
    requires c.Valid() && After(c, steps).Some? && k < |steps| && steps[k].ParentRun?
    ensures ParentError(steps) == if steps[k].ec == EPCHANFINISH then 0 else steps[k].ec
  {
    hide Next;
    var (prefix, step) := (steps[..|steps| - 1], steps[|steps| - 1]);
    if k < |prefix| {
      assert prefix[k] == steps[k];
      ParentErrorIs(c, prefix, k);
      ParentHasRun(c, prefix, k);
    }
  }

  // The fail counter of a completed run is the number of sub-calls that finished with an error.
  lemma FailuresOfRun(c: Config, steps: seq<Step>)
    requires c.Valid() && After(c, steps).Some? && After(c, steps).value.completions > 0 && |MergesOf(steps)| == c.ndone
    ensures After(c, steps).value.fails == Sum(ResultsOf(c, steps), FailureWeight)
  {
    hide After;
    var s := After(c, steps).value;
    Reachable(c, steps);
    assert Elected(s) > 0;
    FailCounterIsExact(c, steps);
    forall i: nat | i < c.ndone
      ensures ResultsOf(c, steps)[i] == Results(s, MergesOf(steps))[i]
    {
      RunErrors(c, steps, i);
    }
    assert ResultsOf(c, steps) == Results(s, MergesOf(steps));
  }
}
