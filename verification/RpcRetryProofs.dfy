/** What holds of every run of the retry machine. */
module RpcRetryProofs {
  import opened Errno
  import opened Options
  import opened RpcRetry

  // ---- counting over the completion log ----

  function Times(log: Log, v: nat): nat
  {
    match log
    case Empty => 0
    case Then(before, c) => Times(before, v) + Bit(c.version == v)
  }

  function FeedbackTimes(log: Log, v: nat): nat
  {
    match log
    case Empty => 0
    case Then(before, c) => FeedbackTimes(before, v) + Bit(c.version == v && c.feedback)
  }

  function EndMarks(log: Log): nat
  {
    match log
    case Empty => 0
    case Then(before, c) => EndMarks(before) + Bit(c.endOfRpc)
  }

  function Selections(s: Rpc, v: nat): nat { s.selected[v] }

  function Bit(b: bool): nat { if b then 1 else 0 }

  predicate UnfinishedIs(s: Rpc, v: nat) { s.unfinished.Some? && s.unfinished.value.nretry == v }

  // While the RPC runs: every earlier attempt except the outstanding original is completed once, and feedback
  // is still owed exactly to the attempts that are outstanding.
  ghost predicate Before(env: Env, s: Rpc, v: nat)
  {
    && !s.ended
    && s.current.nretry <= env.maxRetry
    && (s.unfinished.Some? ==> s.unfinished.value.nretry < s.current.nretry)
    && EndMarks(s.log) == 0
    && Times(s.log, v) + Bit(UnfinishedIs(s, v)) == Bit(v < s.current.nretry)
  }

  ghost predicate OwedWithout(s: Rpc, v: nat, pending: nat)
  {
    && FeedbackTimes(s.log, v) + Bit(UnfinishedIs(s, v) && s.unfinished.value.needFeedback) + pending == Selections(s, v)
    && Selections(s, v) <= 1
    && (v > s.current.nretry ==> Selections(s, v) == 0)
  }

  ghost predicate Running(env: Env, s: Rpc, v: nat)
  {
    && Before(env, s, v)
    && OwedWithout(s, v, Bit(s.current.nretry == v && s.current.needFeedback))
  }

  // An attempt about to be issued: its number has not been used for a selection yet.
  ghost predicate Fresh(env: Env, s: Rpc, v: nat)
  {
    && Before(env, s, v)
    && OwedWithout(s, v, 0)
    && (v >= s.current.nretry ==> Selections(s, v) == 0)
    && !s.current.sock
  }

  ghost predicate Ended(env: Env, s: Rpc, v: nat)
  {
    && s.ended
    && s.unfinished.None?
    && s.current.nretry <= env.maxRetry
    && EndMarks(s.log) == 1
    && Times(s.log, v) == Bit(v <= s.current.nretry)
    && FeedbackTimes(s.log, v) == Selections(s, v) <= 1
  }

  // The event errors the machine can be asked about in state s.
  predicate Legal(env: Env, s: Rpc, id: nat)
  {
    && (id == env.base ==> s.error == ECANCELED || s.error == ERPCTIMEDOUT || s.error == EBACKUPREQUEST)
    && (s.error == EBACKUPREQUEST ==> id == env.base && s.unfinished.None?)
  }

  lemma EndInv(env: Env, s: Rpc, info: CompletionInfo, v: nat)
    requires Running(env, s, v)
    requires info.id == env.base || info.id == CurrentId(env, s) || IsUnfinishedId(env, s, info.id)
    ensures Ended(env, EndRpc(env, s, info), v)
  {
  }

  // Where one event takes the machine.
  ghost predicate Settled(env: Env, s: Rpc, v: nat)
  {
    if s.ended then Ended(env, s, v) else Running(env, s, v) && s.error == 0
  }

  lemma BackupIsFresh(env: Env, s: Rpc, v: nat)
    requires Running(env, s, v) && s.unfinished.None? && s.current.nretry < env.maxRetry
    ensures Fresh(env, StartBackup(s), v)
  {
  }

  lemma RetryIsFresh(env: Env, s: Rpc, info: CompletionInfo, v: nat)
    requires Running(env, s, v) && s.current.nretry < env.maxRetry
    ensures Fresh(env, StartRetry(env, s, info), v)
  {
  }

  lemma ErrorIsFree(env: Env, s: Rpc, error: int, v: nat)
    requires Running(env, s, v)
    ensures Running(env, s.(error := error), v)
  {
  }

  // An intercepted event closes the outstanding original, or nothing.
  lemma InterceptedInv(env: Env, s: Rpc, info: CompletionInfo, saved: int, v: nat)
    requires Running(env, s, v) && Intercepted(env, s, info.id) && saved == 0
    ensures Settled(env, OnReturned(env, s, info, saved), v)
  {
    hide IssueRpc, EndRpc;
  }

  lemma {:induction false} ReturnedInv(env: Env, s: Rpc, info: CompletionInfo, saved: int, v: nat)
    requires env.Valid() && Running(env, s, v) && Legal(env, s, info.id)
    requires saved == 0 || info.id == CurrentId(env, s)
    ensures Settled(env, OnReturned(env, s, info, saved), v)
    decreases Left(env, s), 0
  {
    hide IssueRpc, EndRpc, Running, Fresh, Ended;
    if Intercepted(env, s, info.id) {
      InterceptedInv(env, s, info, saved, v);
    } else if (s.error == 0 && !env.policySet) || s.current.nretry >= env.maxRetry {
      EndInv(env, s, info, v);
    } else if s.error == EBACKUPREQUEST {
      if env.timerRc != 0 {
        ErrorIsFree(env, s, env.timerRc, v);
        EndInv(env, s.(error := env.timerRc), info, v);
      } else {
        BackupIsFresh(env, s, v);
        IssueInv(env, StartBackup(s), v);
      }
    } else if env.doRetry(s.current.nretry, s.error) {
      RetryIsFresh(env, s, info, v);
      IssueInv(env, StartRetry(env, s, info), v);
    } else {
      EndInv(env, s, info, v);
    }
  }

  lemma {:induction false} IssueInv(env: Env, s: Rpc, v: nat)
    requires env.Valid() && Fresh(env, s, v)
    ensures Settled(env, IssueRpc(env, s), v)
    decreases Left(env, s), 2
  {
    hide OnReturned;
    var s1 := Attempt(env, s);
    assert env.issue(s.current.nretry).Valid();
    assert Running(env, s1, v);
    if !env.issue(s.current.nretry).Sent? {
      ReturnedInv(env, s1, CompletionInfo(CurrentId(env, s1), false), s1.error, v);
    }
  }

  // Only the backup timer makes an attempt outstanding beside the current one, and a running RPC has a clear code
  // unless the event was intercepted.
  lemma {:induction false} UnfinishedFromBackup(env: Env, s: Rpc, info: CompletionInfo, saved: int)
    requires env.Valid()
    ensures OnReturned(env, s, info, saved).unfinished.Some? ==> s.unfinished.Some? || s.error == EBACKUPREQUEST
    ensures var r := OnReturned(env, s, info, saved); r.ended || r.error == if Intercepted(env, s, info.id) then saved else 0
    decreases Left(env, s), 0
  {
    hide IssueRpc;
    var result := OnReturned(env, s, info, saved);
    if Intercepted(env, s, info.id) || (s.error == 0 && !env.policySet) || s.current.nretry >= env.maxRetry {
    } else if s.error == EBACKUPREQUEST {
      if env.timerRc == 0 {
        assert result == IssueRpc(env, StartBackup(s));
        IssueKeepsUnfinished(env, StartBackup(s));
      }
    } else if env.doRetry(s.current.nretry, s.error) {
      var s1 := StartRetry(env, s, info);
      assert result == IssueRpc(env, s1);
      IssueKeepsUnfinished(env, s1);
    }
  }

  lemma {:induction false} IssueKeepsUnfinished(env: Env, s: Rpc)
    requires env.Valid()
    ensures IssueRpc(env, s).unfinished.Some? ==> s.unfinished.Some?
    ensures IssueRpc(env, s).ended || IssueRpc(env, s).error == 0
    decreases Left(env, s), 2
  {
    hide OnReturned;
    var s1 := Attempt(env, s);
    assert env.issue(s.current.nretry).Valid();
    if !env.issue(s.current.nretry).Sent? {
      assert IssueRpc(env, s) == HandleSendFailed(env, s1);
      UnfinishedFromBackup(env, s1, CompletionInfo(CurrentId(env, s1), false), s1.error);
    }
  }

  // ---- whole runs ----

  predicate HasBackup(events: seq<Event>)
  {
    events != [] && (events[|events| - 1].error == EBACKUPREQUEST || HasBackup(events[..|events| - 1]))
  }

  // Events as the library sends them; the backup timer fires at most once.
  predicate ValidEvents(env: Env, events: seq<Event>)
  {
    events == [] ||
    (var (before, ev) := (events[..|events| - 1], events[|events| - 1]);
     ValidEvents(env, before) && ValidEvent(env, ev) && (ev.error == EBACKUPREQUEST ==> !HasBackup(before)))
  }

  ghost predicate ValidRun(env: Env, early: Option<int>, events: seq<Event>)
  {
    env.Valid() && (early.Some? ==> early.value != 0 && early.value != EBACKUPREQUEST) && ValidEvents(env, events)
  }

  lemma StartInv(env: Env, early: Option<int>, v: nat)
    requires ValidRun(env, early, [])
    ensures Settled(env, Start(env, early), v)
    ensures Start(env, early).unfinished.None?
  {
    var s := Rpc(Call(0, false, false), None, 0, false, Empty, multiset{}, false);
    if early.Some? {
      var s1 := s.(error := early.value);
      UnfinishedFromBackup(env, s1, CompletionInfo(CurrentId(env, s1), false), s1.error);
      ReturnedInv(env, s1, CompletionInfo(CurrentId(env, s1), false), s1.error, v);
    } else {
      IssueKeepsUnfinished(env, s);
      IssueInv(env, s, v);
    }
  }

  lemma {:induction false} RunUnfinishedFromBackup(env: Env, early: Option<int>, events: seq<Event>)
    requires ValidRun(env, early, events)
    ensures Run(env, Start(env, early), events).unfinished.Some? ==> HasBackup(events)
    ensures Run(env, Start(env, early), events).ended || Run(env, Start(env, early), events).error == 0
  {
    if events == [] {
      StartInv(env, early, 0);
    } else {
      hide OnReturned, Start;
      var before, ev := events[..|events| - 1], events[|events| - 1];
      var s := Run(env, Start(env, early), before);
      RunUnfinishedFromBackup(env, early, before);
      if !s.ended {
        UnfinishedFromBackup(env, Arrived(s, ev), CompletionInfo(ev.id, ev.responded), s.error);
      }
    }
  }

  // What the next event of a run meets.
  lemma ArrivedIsLegal(env: Env, early: Option<int>, before: seq<Event>, ev: Event)
    requires ValidRun(env, early, before) && ValidEvent(env, ev) && (ev.error == EBACKUPREQUEST ==> !HasBackup(before))
    requires var s := Run(env, Start(env, early), before); !s.ended && s.error == 0
    ensures var s := Run(env, Start(env, early), before);
            Legal(env, Arrived(s, ev), ev.id) && Arrived(s, ev) == s.(error := ev.error)
  {
    hide Run, Start, HasBackup;
    RunUnfinishedFromBackup(env, early, before);
  }

  // The accounting holds in every run, whatever the policy retries.
  lemma {:induction false} RunInv(env: Env, early: Option<int>, events: seq<Event>, v: nat)
    requires ValidRun(env, early, events)
    ensures Settled(env, Run(env, Start(env, early), events), v)
  {
    if events == [] {
      StartInv(env, early, v);
    } else {
      hide OnReturned, Start, Before, OwedWithout;
      var before, ev := events[..|events| - 1], events[|events| - 1];
      var s := Run(env, Start(env, early), before);
      RunInv(env, early, before, v);
      if !s.ended {
        ArrivedIsLegal(env, early, before, ev);
        ErrorIsFree(env, s, ev.error, v);
        ReturnedInv(env, Arrived(s, ev), CompletionInfo(ev.id, ev.responded), s.error, v);
      }
    }
  }

  // Every version 0..nretry was completed exactly once and no other version was, exactly one completion ended the
  // RPC, and load-balancer feedback was given exactly as often as it was asked for.
  ghost predicate Accounted(s: Rpc)
  {
    && (forall v: nat :: Times(s.log, v) == if v <= s.current.nretry then 1 else 0)
    && EndMarks(s.log) == 1
    && (forall v: nat :: FeedbackTimes(s.log, v) == s.selected[v] <= 1)
  }

  lemma EndedIsAccounted(env: Env, s: Rpc)
    requires s.ended && forall v: nat :: Settled(env, s, v)
    ensures Accounted(s)
  {
    assert Settled(env, s, 0);
    forall v: nat
      ensures Times(s.log, v) == if v <= s.current.nretry then 1 else 0
      ensures FeedbackTimes(s.log, v) == s.selected[v] <= 1
    {
      assert Settled(env, s, v);
    }
  }

  lemma EveryAttemptCompletesOnce(env: Env, early: Option<int>, events: seq<Event>)
    requires ValidRun(env, early, events) && Run(env, Start(env, early), events).ended
    ensures Accounted(Run(env, Start(env, early), events))
  {
    hide Run, Start, Settled;
    forall v: nat {
      RunInv(env, early, events, v);
    }
    EndedIsAccounted(env, Run(env, Start(env, early), events));
  }

  // While it runs, exactly the outstanding attempts are missing from the log, and the code stays clear.
  lemma OutstandingAttemptsAreOpen(env: Env, early: Option<int>, events: seq<Event>)
    requires ValidRun(env, early, events) && !Run(env, Start(env, early), events).ended
    ensures var s := Run(env, Start(env, early), events);
            && (forall v: nat :: Times(s.log, v) == if v < s.current.nretry && !UnfinishedIs(s, v) then 1 else 0)
            && EndMarks(s.log) == 0
            && s.error == 0
  {
    hide Run, Start;
    var s := Run(env, Start(env, early), events);
    forall v: nat
      ensures Times(s.log, v) == if v < s.current.nretry && !UnfinishedIs(s, v) then 1 else 0
    {
      RunInv(env, early, events, v);
    }
    RunInv(env, early, events, 0);
  }

  // ---- when an internal check fires ----

  // The policy is about to retry an attempt on behalf of an event that is not its own.
  predicate RetriesOther(env: Env, s: Rpc, id: nat)
  {
    && s.current.nretry < env.maxRetry
    && s.error != EBACKUPREQUEST && (s.error != 0 || env.policySet)
    && (id == env.base || (IsUnfinishedId(env, s, id) && s.error == 0))
    && env.doRetry(s.current.nretry, s.error)
  }

  predicate Ordered(s: Rpc) { s.unfinished.Some? ==> s.unfinished.value.nretry < s.current.nretry }

  // One event: a failed check stays on record, and one fires if and only if the policy retries the wrong attempt.
  lemma {:induction false} ReturnedCheck(env: Env, s: Rpc, info: CompletionInfo, saved: int)
    requires env.Valid() && Ordered(s) && (s.error == EBACKUPREQUEST ==> s.unfinished.None?)
    ensures OnReturned(env, s, info, saved).checkFailed <==> s.checkFailed || RetriesOther(env, s, info.id)
    decreases Left(env, s), 0
  {
    hide IssueRpc;
    if Intercepted(env, s, info.id) || (s.error == 0 && !env.policySet) || s.current.nretry >= env.maxRetry {
    } else if s.error == EBACKUPREQUEST {
      if env.timerRc == 0 {
        IssueCheck(env, StartBackup(s));
      }
    } else if env.doRetry(s.current.nretry, s.error) {
      IssueCheck(env, StartRetry(env, s, info));
    }
  }

  lemma {:induction false} IssueCheck(env: Env, s: Rpc)
    requires env.Valid() && Ordered(s)
    ensures IssueRpc(env, s).checkFailed == s.checkFailed
    decreases Left(env, s), 2
  {
    hide OnReturned;
    var s1 := Attempt(env, s);
    assert env.issue(s.current.nretry).Valid();
    if !env.issue(s.current.nretry).Sent? {
      assert IssueRpc(env, s) == HandleSendFailed(env, s1);
      ReturnedCheck(env, s1, CompletionInfo(CurrentId(env, s1), false), s1.error);
    }
  }

  lemma StartCheck(env: Env, early: Option<int>)
    requires ValidRun(env, early, [])
    ensures !Start(env, early).checkFailed
  {
    hide OnReturned, IssueRpc;
    var s := Rpc(Call(0, false, false), None, 0, false, Empty, multiset{}, false);
    if early.Some? {
      ReturnedCheck(env, s.(error := early.value), CompletionInfo(CurrentId(env, s), false), early.value);
    } else {
      IssueCheck(env, s);
    }
  }

  // An event of a running RPC on which the policy retries the wrong attempt.
  predicate Trips(env: Env, s: Rpc, ev: Event) { !s.ended && RetriesOther(env, s.(error := ev.error), ev.id) }

  // No event of the run is one, seen from the state it arrives in.
  ghost predicate Untripped(env: Env, early: Option<int>, events: seq<Event>)
  {
    events == [] ||
    (var (before, ev) := (events[..|events| - 1], events[|events| - 1]);
     Untripped(env, early, before) && !Trips(env, Run(env, Start(env, early), before), ev))
  }

  // What the next event of a run finds.
  lemma NextFinds(env: Env, early: Option<int>, before: seq<Event>, ev: Event)
    requires ValidRun(env, early, before) && ValidEvent(env, ev) && (ev.error == EBACKUPREQUEST ==> !HasBackup(before))
    requires !Run(env, Start(env, early), before).ended
    ensures var s := Run(env, Start(env, early), before);
            && s.error == 0 && Ordered(s)
            && Legal(env, Arrived(s, ev), ev.id) && Arrived(s, ev) == s.(error := ev.error)
  {
    hide Run, Start, HasBackup;
    RunInv(env, early, before, 0);
    ArrivedIsLegal(env, early, before, ev);
  }

  // Over whole runs, with any policy: a check has fired if and only if some event made the policy retry an attempt
  // that had not returned.
  lemma {:induction false} CheckFiresIff(env: Env, early: Option<int>, events: seq<Event>)
    requires ValidRun(env, early, events)
    ensures Run(env, Start(env, early), events).checkFailed <==> !Untripped(env, early, events)
  {
    hide OnReturned, Start, RetriesOther;
    if events == [] {
      StartCheck(env, early);
    } else {
      var before, ev := events[..|events| - 1], events[|events| - 1];
      var s := Run(env, Start(env, early), before);
      CheckFiresIff(env, early, before);
      if !s.ended {
        NextFinds(env, early, before, ev);
        ReturnedCheck(env, Arrived(s, ev), CompletionInfo(ev.id, ev.responded), s.error);
      }
    }
  }

  // The two steps of an object: delivering an event, and handling one whose code is in place.
  ghost predicate AllRunning(env: Env, s: Rpc) { forall v: nat :: Running(env, s, v) }

  ghost predicate AllSettled(env: Env, s: Rpc) { forall v: nat :: Settled(env, s, v) }

  // What the machine can be asked in a running state.
  ghost predicate Acceptable(env: Env, s: Rpc, info: CompletionInfo, saved: int)
  {
    && env.Valid() && AllRunning(env, s) && Legal(env, s, info.id)
    && (saved == 0 || info.id == CurrentId(env, s))
  }

  lemma RunningIsOrdered(env: Env, s: Rpc)
    requires AllRunning(env, s)
    ensures Ordered(s)
  {
    assert Running(env, s, 0);
  }

  lemma ReturnedKeeps(env: Env, s: Rpc, info: CompletionInfo, saved: int)
    requires Acceptable(env, s, info, saved)
    ensures AllSettled(env, OnReturned(env, s, info, saved))
    ensures OnReturned(env, s, info, saved).checkFailed <==> s.checkFailed || RetriesOther(env, s, info.id)
  {
    hide OnReturned, Settled, Running, RetriesOther;
    forall v: nat ensures Settled(env, OnReturned(env, s, info, saved), v) {
      ReturnedInv(env, s, info, saved, v);
    }
    RunningIsOrdered(env, s);
    ReturnedCheck(env, s, info, saved);
  }

  lemma EndKeeps(env: Env, s: Rpc, info: CompletionInfo)
    requires AllRunning(env, s)
    requires info.id == env.base || info.id == CurrentId(env, s) || IsUnfinishedId(env, s, info.id)
    ensures EndRpc(env, s, info).ended && Accounted(EndRpc(env, s, info)) && EndRpc(env, s, info).checkFailed == s.checkFailed
  {
    hide Running, Accounted;
    var s' := EndRpc(env, s, info);
    forall v: nat ensures Settled(env, s', v) {
      EndInv(env, s, info, v);
    }
    EndedIsAccounted(env, s');
  }

  lemma SettledArrives(env: Env, s: Rpc, ev: Event)
    requires env.Valid() && AllSettled(env, s) && !s.ended && ValidEvent(env, ev)
    requires ev.error == EBACKUPREQUEST ==> s.unfinished.None?
    ensures Arrived(s, ev) == s.(error := ev.error)
    ensures Acceptable(env, Arrived(s, ev), CompletionInfo(ev.id, ev.responded), s.error)
  {
    hide Running;
    assert Settled(env, s, 0);
    forall v: nat ensures Running(env, Arrived(s, ev), v) {
      assert Settled(env, s, v);
      ErrorIsFree(env, s, ev.error, v);
    }
  }

  lemma DeliverKeeps(env: Env, s: Rpc, ev: Event)
    requires env.Valid() && AllSettled(env, s) && ValidEvent(env, ev)
    requires ev.error == EBACKUPREQUEST ==> s.unfinished.None?
    ensures var s' := Deliver(env, s, ev);
            && AllSettled(env, s')
            && (s'.checkFailed <==> s.checkFailed || Trips(env, s, ev))
            && (OwnResponses(env, s'.log) <==> OwnResponses(env, s.log) && !Recycles(env, s, ev))
  {
    hide OnReturned, Settled, RetriesOther, OwnResponses, AllRunning;
    if !s.ended {
      var info := CompletionInfo(ev.id, ev.responded);
      SettledArrives(env, s, ev);
      ReturnedKeeps(env, Arrived(s, ev), info, s.error);
      RunningIsOrdered(env, Arrived(s, ev));
      ReturnedPool(env, Arrived(s, ev), info, s.error);
    }
  }

  // Everything at once, for an object that went through the run.
  lemma RunFacts(env: Env, early: Option<int>, events: seq<Event>)
    requires ValidRun(env, early, events)
    ensures var s := Run(env, Start(env, early), events);
            && AllSettled(env, s) && (s.ended ==> Accounted(s))
            && (s.checkFailed <==> !Untripped(env, early, events))
            && (OwnResponses(env, s.log) <==> Unrecycled(env, early, events))
  {
    hide Run, Start, Settled, Untripped, Accounted, OwnResponses, Unrecycled;
    CheckFiresIff(env, early, events);
    PoolOnlyAfterOwnResponseIff(env, early, events);
    var s := Run(env, Start(env, early), events);
    forall v: nat ensures Settled(env, s, v) {
      RunInv(env, early, events, v);
    }
    if s.ended {
      EndedIsAccounted(env, s);
    }
  }

  // A policy that a caller can check: it retries neither cancels nor timeouts, and no success where a backup
  // request may be out. With max_retry 0 any policy will do.
  ghost predicate Restrained(env: Env, events: seq<Event>)
  {
    forall v | 0 <= v < env.maxRetry ::
      && !env.doRetry(v, ECANCELED) && !env.doRetry(v, ERPCTIMEDOUT)
      && (env.policySet && v > 0 && env.doRetry(v, 0) ==> !HasBackup(events))
  }

  lemma {:induction false} RestrainedIsUntripped(env: Env, early: Option<int>, events: seq<Event>)
    requires ValidRun(env, early, events) && Restrained(env, events)
    ensures Untripped(env, early, events)
  {
    if events != [] {
      hide OnReturned, Start, Run, Settled;
      var before, ev := events[..|events| - 1], events[|events| - 1];
      RestrainedIsUntripped(env, early, before);
      if !Run(env, Start(env, early), before).ended {
        NextFinds(env, early, before, ev);
        RunUnfinishedFromBackup(env, early, before);
      }
    }
  }

  // No retries, or neither cancels nor timeouts are retried, and successes only where no backup request can be out.
  predicate Safe(maxRetry: nat, policySet: bool, doRetry: (nat, int) -> bool)
  {
    || maxRetry == 0
    || (&& !doRetry(0, ECANCELED) && !doRetry(0, ERPCTIMEDOUT)
        && (!policySet || !doRetry(0, 0) || maxRetry == 1))
  }

  ghost predicate NoRunTrips(env: Env)
  {
    forall early, events | ValidRun(env, early, events) :: !Run(env, Start(env, early), events).checkFailed
  }

  // Where the first two attempts are sent and the backup timer starts, a policy that ignores the version is safe as
  // above or else some run trips a check.
  lemma NoRunTripsIff(env: Env)
    requires env.Valid() && env.issue(0).Sent? && env.issue(1).Sent? && env.timerRc == 0
    requires forall v: nat, e: int :: env.doRetry(v, e) == env.doRetry(0, e)
    ensures NoRunTrips(env) <==> Safe(env.maxRetry, env.policySet, env.doRetry)
  {
    hide Run, Start, Untripped;
    if env.maxRetry > 0 && env.doRetry(0, ECANCELED) {
      RetriedCancelTripsCheck(env, ECANCELED);
    } else if env.maxRetry > 0 && env.doRetry(0, ERPCTIMEDOUT) {
      RetriedCancelTripsCheck(env, ERPCTIMEDOUT);
    } else if env.maxRetry > 1 && env.policySet && env.doRetry(0, 0) {
      assert env.doRetry(1, 0);
      RetriedSuccessTripsCheck(env);
    } else {
      SafeNeverTrips(env);
    }
  }

  lemma SafeNeverTrips(env: Env)
    requires Safe(env.maxRetry, env.policySet, env.doRetry)
    requires forall v: nat, e: int :: env.doRetry(v, e) == env.doRetry(0, e)
    ensures NoRunTrips(env)
  {
    hide Run, Start, Untripped;
    forall early, events | ValidRun(env, early, events)
      ensures !Run(env, Start(env, early), events).checkFailed
    {
      RestrainedIsUntripped(env, early, events);
      CheckFiresIff(env, early, events);
    }
  }

  // The closed form for a policy that ignores the version: whatever the network does and whatever events arrive, no
  // check is tripped, if and only if the policy is safe.
  lemma PolicyIsSafeIff(maxRetry: nat, policySet: bool, doRetry: (nat, int) -> bool)
    requires forall v: nat, e: int :: doRetry(v, e) == doRetry(0, e)
    ensures (forall env: Env | env.maxRetry == maxRetry && env.policySet == policySet && env.doRetry == doRetry ::
               NoRunTrips(env)) <==> Safe(maxRetry, policySet, doRetry)
  {
    hide NoRunTrips;
    if Safe(maxRetry, policySet, doRetry) {
      forall env: Env | env.maxRetry == maxRetry && env.policySet == policySet && env.doRetry == doRetry
        ensures NoRunTrips(env)
      {
        SafeNeverTrips(env);
      }
    }
    var sending := Env(0, maxRetry, false, policySet, doRetry, v => Sent(false), 0);
    NoRunTripsIff(sending);
  }

  // nretry never exceeds max_retry, so every id in use lies among the 2 + max_retry reserved ones and the
  // ids of two outstanding attempts and of the RPC itself differ.
  lemma IdsStayInRange(env: Env, early: Option<int>, events: seq<Event>)
    requires ValidRun(env, early, events)
    ensures var s := Run(env, Start(env, early), events);
            && s.current.nretry <= env.maxRetry
            && env.base < CurrentId(env, s) < env.base + 2 + env.maxRetry
            && (s.unfinished.Some? ==> env.base < env.GetId(s.unfinished.value.nretry) < CurrentId(env, s))
  {
    RunInv(env, early, events, 0);
  }

  // ---- pooled connections ----

  // Whatever went back to a connection pool did so while a response to that very attempt was handled.
  predicate OwnResponses(env: Env, log: Log)
  {
    match log
    case Empty => true
    case Then(before, c) => OwnResponses(env, before) && (c.toPool ==> c.info == CompletionInfo(env.GetId(c.version), true))
  }

  // The success of the outstanding original makes the policy retry the current attempt, whose connection is pooled.
  predicate RecyclesOther(env: Env, s: Rpc, id: nat)
  {
    env.pooled && s.current.sock && IsUnfinishedId(env, s, id) && s.error == 0 && RetriesOther(env, s, id)
  }

  // What an event can say: a success is a response, and the RPC as a whole gets none.
  predicate Plausible(env: Env, s: Rpc, info: CompletionInfo)
  {
    && (s.error == 0 ==> info.responded)
    && (info.id == env.base ==> !info.responded)
    && (s.error == EBACKUPREQUEST ==> info.id == env.base)
  }

  lemma EndPool(env: Env, s: Rpc, info: CompletionInfo)
    requires Plausible(env, s, info)
    requires info.id == env.base || info.id == CurrentId(env, s) || IsUnfinishedId(env, s, info.id)
    ensures OwnResponses(env, EndRpc(env, s, info).log) == OwnResponses(env, s.log)
  {
    hide EndWithCurrent, EndWithOriginal, OwnResponses;
    if info.id == CurrentId(env, s) || info.id == env.base {
      EndCurrentPool(env, s, info);
    } else {
      EndOriginalPool(env, s, info);
    }
  }

  lemma EndCurrentPool(env: Env, s: Rpc, info: CompletionInfo)
    requires Plausible(env, s, info) && (info.id == CurrentId(env, s) || info.id == env.base)
    ensures OwnResponses(env, EndWithCurrent(env, s, info).log) == OwnResponses(env, s.log)
  {
  }

  lemma EndOriginalPool(env: Env, s: Rpc, info: CompletionInfo)
    requires Plausible(env, s, info) && IsUnfinishedId(env, s, info.id)
    ensures OwnResponses(env, EndWithOriginal(env, s, info).log) == OwnResponses(env, s.log)
  {
  }

  lemma InterceptedPool(env: Env, s: Rpc, info: CompletionInfo)
    requires Plausible(env, s, info) && IsUnfinishedId(env, s, info.id) && s.error != 0
    ensures OwnResponses(env, CompleteUnfinished(env, s, s.error, info.responded, false, info).log) == OwnResponses(env, s.log)
  {
  }

  lemma RetryPool(env: Env, s: Rpc, info: CompletionInfo)
    requires Plausible(env, s, info) && Ordered(s) && !Intercepted(env, s, info.id)
    ensures OwnResponses(env, StartRetry(env, s, info).log) <==>
            OwnResponses(env, s.log) && !(env.pooled && s.current.sock && IsUnfinishedId(env, s, info.id) && s.error == 0)
  {
  }

  // One event returns a connection to the pool without its own response if and only if it is of that kind.
  lemma {:induction false} ReturnedPool(env: Env, s: Rpc, info: CompletionInfo, saved: int)
    requires env.Valid() && Plausible(env, s, info) && Ordered(s)
    ensures OwnResponses(env, OnReturned(env, s, info, saved).log) <==>
            OwnResponses(env, s.log) && !RecyclesOther(env, s, info.id)
    decreases Left(env, s), 0
  {
    hide IssueRpc, EndRpc, OwnResponses, StartRetry, CompleteUnfinished;
    if Intercepted(env, s, info.id) {
      if IsUnfinishedId(env, s, info.id) {
        InterceptedPool(env, s, info);
      }
    } else if (s.error == 0 && !env.policySet) || s.current.nretry >= env.maxRetry {
      EndPool(env, s, info);
    } else if s.error == EBACKUPREQUEST {
      if env.timerRc == 0 {
        IssuePool(env, StartBackup(s));
      } else {
        EndPool(env, s.(error := env.timerRc), info);
      }
    } else if env.doRetry(s.current.nretry, s.error) {
      RetryPool(env, s, info);
      RetryAdvances(env, s, info);
      IssuePool(env, StartRetry(env, s, info));
    } else {
      EndPool(env, s, info);
    }
  }

  lemma RetryAdvances(env: Env, s: Rpc, info: CompletionInfo)
    requires Ordered(s)
    ensures Ordered(StartRetry(env, s, info)) && StartRetry(env, s, info).current.nretry == s.current.nretry + 1
  {
  }

  lemma {:induction false} IssuePool(env: Env, s: Rpc)
    requires env.Valid() && Ordered(s)
    ensures OwnResponses(env, IssueRpc(env, s).log) == OwnResponses(env, s.log)
    decreases Left(env, s), 2
  {
    hide OnReturned;
    var s1 := Attempt(env, s);
    assert env.issue(s.current.nretry).Valid();
    if !env.issue(s.current.nretry).Sent? {
      assert IssueRpc(env, s) == HandleSendFailed(env, s1);
      ReturnedPool(env, s1, CompletionInfo(CurrentId(env, s1), false), s1.error);
    }
  }

  lemma StartPool(env: Env, early: Option<int>)
    requires ValidRun(env, early, [])
    ensures OwnResponses(env, Start(env, early).log)
  {
    hide OnReturned, IssueRpc;
    var s := Rpc(Call(0, false, false), None, 0, false, Empty, multiset{}, false);
    if early.Some? {
      ReturnedPool(env, s.(error := early.value), CompletionInfo(CurrentId(env, s), false), early.value);
    } else {
      IssuePool(env, s);
    }
  }

  predicate Recycles(env: Env, s: Rpc, ev: Event) { !s.ended && RecyclesOther(env, s.(error := ev.error), ev.id) }

  // No event of the run is one, seen from the state it arrives in.
  ghost predicate Unrecycled(env: Env, early: Option<int>, events: seq<Event>)
  {
    events == [] ||
    (var (before, ev) := (events[..|events| - 1], events[|events| - 1]);
     Unrecycled(env, early, before) && !Recycles(env, Run(env, Start(env, early), before), ev))
  }

  // A pooled connection is given back only on a response to its own attempt if and only if the policy never retries
  // the success of the original while the backup request holds a pooled connection. Other retries do no harm.
  lemma {:induction false} PoolOnlyAfterOwnResponseIff(env: Env, early: Option<int>, events: seq<Event>)
    requires ValidRun(env, early, events)
    ensures OwnResponses(env, Run(env, Start(env, early), events).log) <==> Unrecycled(env, early, events)
  {
    hide OnReturned, Start, RecyclesOther, OwnResponses;
    if events == [] {
      StartPool(env, early);
    } else {
      var before, ev := events[..|events| - 1], events[|events| - 1];
      var s := Run(env, Start(env, early), before);
      PoolOnlyAfterOwnResponseIff(env, early, before);
      if !s.ended {
        NextFinds(env, early, before, ev);
        ReturnedPool(env, Arrived(s, ev), CompletionInfo(ev.id, ev.responded), s.error);
      }
    }
  }

  ghost predicate NoRunRecycles(env: Env)
  {
    forall early, events | ValidRun(env, early, events) :: OwnResponses(env, Run(env, Start(env, early), events).log)
  }

  lemma {:induction false} KeptSuccessIsUnrecycled(env: Env, early: Option<int>, events: seq<Event>)
    requires ValidRun(env, early, events)
    requires env.policySet ==> forall v | 0 < v < env.maxRetry :: !env.doRetry(v, 0)
    ensures Unrecycled(env, early, events)
  {
    if events != [] {
      hide Run, Start;
      var before, ev := events[..|events| - 1], events[|events| - 1];
      KeptSuccessIsUnrecycled(env, early, before);
      if !Run(env, Start(env, early), before).ended {
        NextFinds(env, early, before, ev);
      }
    }
  }

  // The closed form for a policy that ignores the version: no network and no run recycles a connection too early if
  // and only if the policy does not retry successes or there is no retry left behind a backup request.
  lemma PoolIsSafeIff(maxRetry: nat, policySet: bool, doRetry: (nat, int) -> bool)
    requires forall v: nat, e: int :: doRetry(v, e) == doRetry(0, e)
    ensures (forall env: Env | env.maxRetry == maxRetry && env.policySet == policySet && env.doRetry == doRetry ::
               NoRunRecycles(env)) <==> maxRetry <= 1 || !policySet || !doRetry(0, 0)
  {
    hide Run, Start, OwnResponses, Unrecycled;
    if maxRetry <= 1 || !policySet || !doRetry(0, 0) {
      forall env: Env, early, events |
        && env.maxRetry == maxRetry && env.policySet == policySet && env.doRetry == doRetry
        && ValidRun(env, early, events)
        ensures OwnResponses(env, Run(env, Start(env, early), events).log)
      {
        KeptSuccessIsUnrecycled(env, early, events);
        PoolOnlyAfterOwnResponseIff(env, early, events);
      }
    } else {
      var sending := Env(0, maxRetry, true, policySet, doRetry, v => Sent(false), 0);
      assert doRetry(1, 0);
      RetriedSuccessRecyclesConnection(sending);
      assert !NoRunRecycles(sending);
    }
  }

  // Responses in the log are responses that arrived.
  ghost predicate FromEvents(log: Log, events: seq<Event>)
  {
    match log
    case Empty => true
    case Then(before, c) =>
      && FromEvents(before, events)
      && (c.info.responded ==> exists ev <- events :: ev.id == c.info.id && ev.responded)
  }

  lemma {:induction false} FromMoreEvents(log: Log, events: seq<Event>, ev: Event)
    requires FromEvents(log, events)
    ensures FromEvents(log, events + [ev])
  {
    if log.Then? {
      FromMoreEvents(log.before, events, ev);
      if log.last.info.responded {
        var e :| e in events && e.id == log.last.info.id && e.responded;
        assert e in events + [ev];
      }
    }
  }

  lemma EndFrom(env: Env, s: Rpc, info: CompletionInfo, events: seq<Event>)
    requires FromEvents(s.log, events) && (info.responded ==> exists ev <- events :: ev.id == info.id && ev.responded)
    ensures FromEvents(EndRpc(env, s, info).log, events)
  {
  }

  lemma {:induction false} ReturnedFrom(env: Env, s: Rpc, info: CompletionInfo, saved: int, events: seq<Event>)
    requires FromEvents(s.log, events) && (info.responded ==> exists ev <- events :: ev.id == info.id && ev.responded)
    ensures FromEvents(OnReturned(env, s, info, saved).log, events)
    decreases Left(env, s), 0
  {
    hide IssueRpc, EndRpc;
    if Intercepted(env, s, info.id) {
    } else if (s.error == 0 && !env.policySet) || s.current.nretry >= env.maxRetry {
      EndFrom(env, s, info, events);
    } else if s.error == EBACKUPREQUEST {
      if env.timerRc == 0 {
        IssueFrom(env, StartBackup(s), events);
      } else {
        EndFrom(env, s.(error := env.timerRc), info, events);
      }
    } else if env.doRetry(s.current.nretry, s.error) {
      IssueFrom(env, StartRetry(env, s, info), events);
    } else {
      EndFrom(env, s, info, events);
    }
  }

  lemma {:induction false} IssueFrom(env: Env, s: Rpc, events: seq<Event>)
    requires FromEvents(s.log, events)
    ensures FromEvents(IssueRpc(env, s).log, events)
    decreases Left(env, s), 2
  {
    hide OnReturned;
    var s1 := Attempt(env, s);
    if !env.issue(s.current.nretry).Sent? {
      ReturnedFrom(env, s1, CompletionInfo(CurrentId(env, s1), false), s1.error, events);
    }
  }

  // In every run, whatever the policy: a completion that counts as a response is due to one that arrived.
  lemma {:induction false} ResponsesArrived(env: Env, early: Option<int>, events: seq<Event>)
    ensures FromEvents(Run(env, Start(env, early), events).log, events)
  {
    if events == [] {
      var s := Rpc(Call(0, false, false), None, 0, false, Empty, multiset{}, false);
      if early.Some? {
        ReturnedFrom(env, s.(error := early.value), CompletionInfo(CurrentId(env, s), false), early.value, []);
      } else {
        IssueFrom(env, s, []);
      }
    } else {
      hide OnReturned, Start;
      var before, ev := events[..|events| - 1], events[|events| - 1];
      var s := Run(env, Start(env, early), before);
      ResponsesArrived(env, early, before);
      FromMoreEvents(s.log, before, ev);
      assert events == before + [ev] && ev in events;
      if !s.ended {
        ReturnedFrom(env, Arrived(s, ev), CompletionInfo(ev.id, ev.responded), s.error, events);
      }
    }
  }

  // ---- stale events and the final code ----

  // Neither the RPC, the current attempt nor the outstanding original.
  predicate Stale(env: Env, s: Rpc, ev: Event)
  {
    ev.id != env.base && ev.id != CurrentId(env, s) && !IsUnfinishedId(env, s, ev.id)
  }

  // The events of a run without those that were stale, or late, when they arrived.
  function Erase(env: Env, s: Rpc, events: seq<Event>): seq<Event>
  {
    if events == [] then []
    else
      var n := |events| - 1;
      var before := Run(env, s, events[..n]);
      Erase(env, s, events[..n]) + if before.ended || Stale(env, before, events[n]) then [] else [events[n]]
  }

  // Erasing stale events changes nothing at all: attempts, outstanding calls, code, log and outcome.
  lemma {:induction false} StaleEventsAreIgnored(env: Env, s: Rpc, events: seq<Event>)
    ensures Run(env, s, Erase(env, s, events)) == Run(env, s, events)
  {
    if events != [] {
      var n := |events| - 1;
      StaleEventsAreIgnored(env, s, events[..n]);
      var kept := Erase(env, s, events[..n]);
      var all := Erase(env, s, events);
      if all == kept + [events[n]] {
        assert all[..|all| - 1] == kept;
      } else {
        assert all == kept;
      }
    }
  }

  // Where the code of an ended RPC comes from, seen from the event that ended it.
  ghost predicate CodeOrigin(env: Env, s: Rpc, s': Rpc)
  {
    if s'.current.nretry == s.current.nretry then
      s'.error == s.error || (s.error == EBACKUPREQUEST && s'.error == env.timerRc)
    else
      && s'.current.nretry > s.current.nretry
      && !env.issue(s'.current.nretry).Sent?
      && s'.error == env.issue(s'.current.nretry).error
  }

  lemma {:induction false} ReturnedCode(env: Env, s: Rpc, info: CompletionInfo, saved: int)
    requires env.Valid() && !s.ended
    ensures var s' := OnReturned(env, s, info, saved); s'.ended ==> CodeOrigin(env, s, s')
    decreases Left(env, s), 0
  {
    hide IssueRpc;
    if Intercepted(env, s, info.id) || (s.error == 0 && !env.policySet) || s.current.nretry >= env.maxRetry {
    } else if s.error == EBACKUPREQUEST {
      if env.timerRc == 0 {
        IssueCode(env, StartBackup(s));
      }
    } else if env.doRetry(s.current.nretry, s.error) {
      IssueCode(env, StartRetry(env, s, info));
    }
  }

  lemma {:induction false} IssueCode(env: Env, s: Rpc)
    requires env.Valid() && !s.ended
    ensures var s' := IssueRpc(env, s);
            s'.ended ==>
              && s'.current.nretry >= s.current.nretry
              && !env.issue(s'.current.nretry).Sent?
              && s'.error == env.issue(s'.current.nretry).error
    decreases Left(env, s), 2
  {
    hide OnReturned;
    var s1 := Attempt(env, s);
    assert env.issue(s.current.nretry).Valid();
    if !env.issue(s.current.nretry).Sent? {
      assert IssueRpc(env, s) == HandleSendFailed(env, s1);
      ReturnedCode(env, s1, CompletionInfo(CurrentId(env, s1), false), s1.error);
    }
  }

  // The event that ends an RPC decides its code: its own error, or that of the last attempt it led to. The
  // original of a backup request can end the RPC only by succeeding, and the RPC then succeeds unless the policy
  // retries that; if it fails, the RPC goes on with a clear code and only that attempt is closed.
  lemma FinalCodeIsOfEndingEvent(env: Env, early: Option<int>, events: seq<Event>, ev: Event)
    requires ValidRun(env, early, events + [ev])
    requires !Run(env, Start(env, early), events).ended
    ensures var s := Run(env, Start(env, early), events);
            var s' := Run(env, Start(env, early), events + [ev]);
            && (s'.ended ==> CodeOrigin(env, s.(error := ev.error), s'))
            && (IsUnfinishedId(env, s, ev.id) && s'.ended ==> ev.error == 0 && (s'.error == 0 || Trips(env, s, ev)))
            && (IsUnfinishedId(env, s, ev.id) && ev.error != 0 ==>
                  !s'.ended && s'.error == 0 && s'.current == s.current && s'.unfinished.None?)
  {
    hide IssueRpc, Start;
    var s := Run(env, Start(env, early), events);
    var all := events + [ev];
    assert all[..|all| - 1] == events && all[|all| - 1] == ev;
    NextFinds(env, early, events, ev);
    ReturnedCode(env, Arrived(s, ev), CompletionInfo(ev.id, ev.responded), s.error);
  }

  // A running RPC ends, with that code, on a timeout or cancel of the RPC and on the success of either outstanding
  // attempt, unless the policy retries just that.
  lemma TimeoutOrSuccessEndsRpc(env: Env, early: Option<int>, events: seq<Event>, ev: Event)
    requires ValidRun(env, early, events + [ev])
    requires !Run(env, Start(env, early), events).ended
    requires var s := Run(env, Start(env, early), events);
             && ((ev.error == 0 && !env.policySet) || s.current.nretry >= env.maxRetry || !env.doRetry(s.current.nretry, ev.error))
             && (|| (ev.id == env.base && ev.error != EBACKUPREQUEST)
                 || (ev.error == 0 && (ev.id == CurrentId(env, s) || IsUnfinishedId(env, s, ev.id))))
    ensures var s' := Run(env, Start(env, early), events + [ev]); s'.ended && s'.error == ev.error
  {
    hide IssueRpc, Start;
    var s := Run(env, Start(env, early), events);
    var all := events + [ev];
    assert all[..|all| - 1] == events && all[|all| - 1] == ev;
    NextFinds(env, early, events, ev);
  }

  // ---- runs on which a check fires ----

  // A backup request goes out, and the original succeeds.
  function BackupThenSuccess(env: Env): seq<Event>
  {
    [Event(env.base, EBACKUPREQUEST, false), Event(env.GetId(0), 0, true)]
  }

  // The state the success arrives in.
  lemma BackupIsOut(env: Env)
    requires env.Valid() && env.maxRetry >= 1 && env.timerRc == 0 && env.issue(0).Sent? && env.issue(1).Sent?
    ensures var events := BackupThenSuccess(env);
            var s := Run(env, Start(env, None), events[..1]);
            && ValidRun(env, None, events)
            && s.current.nretry == 1 && s.current.sock && !s.ended
            && s.unfinished.Some? && s.unfinished.value.nretry == 0
  {
    hide ValidEvents;
    var events := BackupThenSuccess(env);
    var s0 := Start(env, None);
    assert events[..1] == [events[0]];
    RunOne(env, s0, events[0]);
    assert Deliver(env, s0, events[0]) == IssueRpc(env, StartBackup(Arrived(s0, events[0])));
    ValidTwo(env, events[0], events[1]);
  }

  // A policy that retries a success retries the wrong attempt if it is the original of a backup request that
  // succeeds.
  lemma RetriedSuccessTripsCheck(env: Env)
    requires env.Valid() && env.policySet && env.maxRetry >= 2 && env.timerRc == 0
    requires env.issue(0).Sent? && env.issue(1).Sent? && env.doRetry(1, 0)
    ensures ValidRun(env, None, BackupThenSuccess(env)) && Run(env, Start(env, None), BackupThenSuccess(env)).checkFailed
  {
    hide Run, Start, ValidEvents;
    BackupIsOut(env);
    CheckFiresIff(env, None, BackupThenSuccess(env));
  }

  // On a pooled channel the connection of the backup request then goes back to the pool, its response still to come.
  lemma RetriedSuccessRecyclesConnection(env: Env)
    requires env.Valid() && env.pooled && env.policySet && env.maxRetry >= 2 && env.timerRc == 0
    requires env.issue(0).Sent? && env.issue(1).Sent? && env.doRetry(1, 0)
    ensures ValidRun(env, None, BackupThenSuccess(env))
    ensures !OwnResponses(env, Run(env, Start(env, None), BackupThenSuccess(env)).log)
  {
    hide Run, Start, ValidEvents, OwnResponses;
    BackupIsOut(env);
    PoolOnlyAfterOwnResponseIff(env, None, BackupThenSuccess(env));
  }

  // One that retries a cancel or a timeout retries an attempt that did not return.
  lemma RetriedCancelTripsCheck(env: Env, error: int)
    requires env.Valid() && (error == ECANCELED || error == ERPCTIMEDOUT)
    requires env.maxRetry >= 1 && env.issue(0).Sent? && env.doRetry(0, error)
    ensures var events := [Event(env.base, error, false)];
            ValidRun(env, None, events) && Run(env, Start(env, None), events).checkFailed
  {
    var cancel := Event(env.base, error, false);
    ValidOne(env, cancel);
    assert [cancel][..0] == [] && Untripped(env, None, []);
    CheckFiresIff(env, None, [cancel]);
  }

  lemma ValidOne(env: Env, ev: Event)
    requires ValidEvent(env, ev)
    ensures ValidEvents(env, [ev])
  {
    hide ValidEvent;
    assert [ev][..0] == [] && ValidEvents(env, []);
  }

  lemma ValidTwo(env: Env, a: Event, b: Event)
    requires ValidEvent(env, a) && ValidEvent(env, b) && b.error != EBACKUPREQUEST
    ensures ValidEvents(env, [a, b])
  {
    hide ValidEvent;
    ValidOne(env, a);
    assert [a, b][..1] == [a];
  }

  lemma RunOne(env: Env, s: Rpc, ev: Event)
    ensures Run(env, s, [ev]) == Deliver(env, s, ev)
  {
    hide Deliver;
    assert [ev][..0] == [] && Run(env, s, []) == s;
  }
}
