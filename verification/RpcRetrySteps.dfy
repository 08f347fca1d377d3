/** What each event of a running RPC does, told from the policy and the network alone. */
module RpcRetrySteps {
  import opened Errno
  import opened Options
  import opened RpcRetry
  import opened RpcRetryProofs

  // ---- reading the outcome ----

  // The completion of a version; in a run there is at most one.
  function CompletionOf(log: Log, v: nat): Option<Completion>
  {
    match log
    case Empty => None
    case Then(before, c) => if c.version == v then Some(c) else CompletionOf(before, v)
  }

  predicate Feedback(env: Env, v: nat) { !env.issue(v).NotSelected? && env.issue(v).feedback }

  // Versions are issued from v on until one is sent, the retries are used up or the policy gives up.
  function LastIssued(env: Env, v: nat): (w: nat)
    requires v <= env.maxRetry
    ensures v <= w <= env.maxRetry
    ensures forall u | v <= u < w :: !env.issue(u).Sent? && env.doRetry(u, env.issue(u).error)
    ensures env.issue(w).Sent? || w == env.maxRetry || !env.doRetry(w, env.issue(w).error)
    decreases env.maxRetry - v
  {
    if env.issue(v).Sent? || v == env.maxRetry || !env.doRetry(v, env.issue(v).error) then v else LastIssued(env, v + 1)
  }

  // A version that could not be sent.
  function FailedSend(env: Env, v: nat, endOfRpc: bool): Completion
    requires !env.issue(v).Sent?
  {
    Completion(v, env.issue(v).error, false, endOfRpc, Feedback(env, v), false, CompletionInfo(env.GetId(v), false))
  }

  // Why a completed attempt was completed: `error` and `responded`, on behalf of `info`.
  function Completed(env: Env, c: Call, error: int, responded: bool, endOfRpc: bool, info: CompletionInfo): Completion
  {
    Completion(c.nretry, error, responded, endOfRpc, c.needFeedback,
               env.pooled && c.sock && (error == 0 || responded), info)
  }

  // Going on with version v from s has led to s'.
  ghost predicate WentOn(env: Env, s: Rpc, v: nat, s': Rpc)
    requires v <= env.maxRetry
  {
    var w := LastIssued(env, v);
    && s'.current.nretry == w
    && if env.issue(w).Sent? then
         && !s'.ended && s'.error == 0
         && s'.current == Call(w, env.issue(w).feedback, true)
         && s'.unfinished == s.unfinished
       else
         s'.ended && s'.error == env.issue(w).error
  }

  // What became of version u, of the versions from v on and of the outstanding original.
  ghost predicate LoggedOn(env: Env, s: Rpc, v: nat, s': Rpc, u: nat)
    requires v <= env.maxRetry
  {
    var w := LastIssued(env, v);
    CompletionOf(s'.log, u) ==
    if v <= u < w then Some(FailedSend(env, u, false))
    else if u == w && !env.issue(w).Sent? then Some(FailedSend(env, w, true))
    else if UnfinishedIs(s, u) && !env.issue(w).Sent? then
      Some(Completed(env, s.unfinished.value, env.issue(w).error, false, false, CompletionInfo(env.GetId(w), false)))
    else CompletionOf(s.log, u)
  }

  lemma {:induction false} IssueOutcome(env: Env, s: Rpc, u: nat)
    requires env.Valid() && Ordered(s) && !s.ended && s.current.nretry <= env.maxRetry
    ensures WentOn(env, s, s.current.nretry, IssueRpc(env, s))
    ensures LoggedOn(env, s, s.current.nretry, IssueRpc(env, s), u)
    decreases env.maxRetry - s.current.nretry
  {
    hide OnReturned, EndRpc, StartRetry;
    var v := s.current.nretry;
    var s1 := Attempt(env, s);
    assert env.issue(v).Valid();
    if !env.issue(v).Sent? {
      var info := CompletionInfo(env.GetId(v), false);
      assert IssueRpc(env, s) == OnReturned(env, s1, info, s1.error);
      hide IssueRpc, Attempt;
      if v < env.maxRetry && env.doRetry(v, env.issue(v).error) {
        var s2 := StartRetry(env, s1, info);
        FailedSendRetried(env, s1, info);
        NextVersion(env, s, u);
        IssueOutcome(env, s2, u);
      } else {
        FailedSendEnds(env, s1, info);
        GivenUp(env, s, u);
      }
    }
  }

  // An attempt could not be sent, and the next one takes its place.
  lemma NextVersion(env: Env, s: Rpc, u: nat)
    requires env.Valid() && Ordered(s) && !s.ended && !env.issue(s.current.nretry).Sent?
    ensures var v := s.current.nretry;
            var r := StartRetry(env, Attempt(env, s), CompletionInfo(env.GetId(v), false));
            && r.current.nretry == v + 1 && Ordered(r) && !r.ended && r.unfinished == s.unfinished
            && CompletionOf(r.log, u) == if u == v then Some(FailedSend(env, v, false)) else CompletionOf(s.log, u)
  {
    assert env.issue(s.current.nretry).Valid();
  }

  // The last attempt could not be sent.
  lemma GivenUp(env: Env, s: Rpc, u: nat)
    requires env.Valid() && Ordered(s) && s.current.nretry <= env.maxRetry && !env.issue(s.current.nretry).Sent?
    requires LastIssued(env, s.current.nretry) == s.current.nretry
    ensures var v := s.current.nretry;
            var r := EndRpc(env, Attempt(env, s), CompletionInfo(env.GetId(v), false));
            WentOn(env, s, v, r) && LoggedOn(env, s, v, r, u)
  {
    assert env.issue(s.current.nretry).Valid();
  }

  lemma FailedSendRetried(env: Env, s: Rpc, info: CompletionInfo)
    requires info == CompletionInfo(CurrentId(env, s), false) && s.error != 0 && s.error != EBACKUPREQUEST
    requires s.current.nretry < env.maxRetry
    requires env.doRetry(s.current.nretry, s.error)
    ensures OnReturned(env, s, info, s.error) == IssueRpc(env, StartRetry(env, s, info))
  {
    hide IssueRpc, StartRetry;
  }

  lemma FailedSendEnds(env: Env, s: Rpc, info: CompletionInfo)
    requires info == CompletionInfo(CurrentId(env, s), false) && s.error != 0 && s.error != EBACKUPREQUEST
    requires s.current.nretry >= env.maxRetry || !env.doRetry(s.current.nretry, s.error)
    ensures OnReturned(env, s, info, s.error) == EndRpc(env, s, info)
  {
    hide IssueRpc, EndRpc;
  }

  // ---- events of a running RPC ----

  // The policy wants another attempt, and there is one left.
  predicate Retried(env: Env, s: Rpc, ev: Event)
  {
    s.current.nretry < env.maxRetry && (ev.error != 0 || env.policySet) && env.doRetry(s.current.nretry, ev.error)
  }

  // An event of the current attempt, a timeout or cancel, or the success of the original of a backup request.
  predicate Decides(env: Env, s: Rpc, ev: Event)
  {
    || ev.id == CurrentId(env, s)
    || (ev.id == env.base && ev.error != EBACKUPREQUEST)
    || (IsUnfinishedId(env, s, ev.id) && ev.error == 0)
  }

  function Info(ev: Event): CompletionInfo { CompletionInfo(ev.id, ev.responded) }

  // How the two outstanding attempts are closed when the event ends the RPC.
  ghost predicate ClosedBy(env: Env, s: Rpc, ev: Event, s': Rpc)
  {
    var cur := CompletionOf(s'.log, s.current.nretry);
    if IsUnfinishedId(env, s, ev.id) then
      && cur == Some(Completed(env, s.current, ECANCELED, false, false, Info(ev)))
      && CompletionOf(s'.log, s.unfinished.value.nretry) ==
           Some(Completed(env, s.unfinished.value, ev.error, ev.responded, true, Info(ev)))
    else
      && cur == Some(Completed(env, s.current, ev.error, ev.responded, true, Info(ev)))
      && (s.unfinished.Some? ==>
            CompletionOf(s'.log, s.unfinished.value.nretry) ==
              Some(Completed(env, s.unfinished.value, if ev.error == 0 then EBACKUPREQUEST else ev.error, false, false, Info(ev))))
  }

  lemma RetryOutcome(env: Env, s: Rpc, ev: Event, u: nat)
    requires env.Valid() && Ordered(s) && !s.ended && s.current.nretry < env.maxRetry
    ensures var r := StartRetry(env, s.(error := ev.error), Info(ev));
            && r.current.nretry == s.current.nretry + 1 && Ordered(r) && !r.ended && r.unfinished == s.unfinished
            && CompletionOf(r.log, u) ==
               if u == s.current.nretry then Some(Completed(env, s.current, ev.error, ev.responded, false, Info(ev)))
               else CompletionOf(s.log, u)
  {
  }

  lemma DecidedStep(env: Env, s: Rpc, ev: Event)
    requires env.Valid() && Ordered(s) && Decides(env, s, ev) && ValidEvent(env, ev)
    ensures var r := OnReturned(env, s.(error := ev.error), Info(ev), 0);
            r == if Retried(env, s, ev) then IssueRpc(env, StartRetry(env, s.(error := ev.error), Info(ev)))
                 else EndRpc(env, s.(error := ev.error), Info(ev))
  {
    hide IssueRpc, EndRpc, StartRetry;
  }

  lemma EndOutcome(env: Env, s: Rpc, ev: Event)
    requires Ordered(s) && Decides(env, s, ev)
    ensures var r := EndRpc(env, s.(error := ev.error), Info(ev));
            r.ended && r.error == ev.error && r.current.nretry == s.current.nretry && ClosedBy(env, s, ev, r)
  {
  }

  // The run one event later.
  lemma Later(env: Env, early: Option<int>, events: seq<Event>, ev: Event)
    requires ValidRun(env, early, events + [ev]) && !Run(env, Start(env, early), events).ended
    ensures var s := Run(env, Start(env, early), events);
            && env.Valid() && ValidEvent(env, ev) && Ordered(s) && s.error == 0 && s.current.nretry <= env.maxRetry
            && (ev.error == EBACKUPREQUEST ==> s.unfinished.None?)
            && Run(env, Start(env, early), events + [ev]) == OnReturned(env, s.(error := ev.error), Info(ev), 0)
  {
    hide OnReturned, Start, ValidEvent;
    var all := events + [ev];
    assert all[..|all| - 1] == events && all[|all| - 1] == ev;
    NextFinds(env, early, events, ev);
    IdsStayInRange(env, early, events);
  }

  // In every run, whatever decides about the current attempt: the next version is opened if and only if the policy
  // retries that code and a retry is left. Then the current attempt is closed with that code, and versions are
  // issued until one is sent or given up. Otherwise the RPC ends with that code.
  lemma RetriedIff(env: Env, early: Option<int>, events: seq<Event>, ev: Event, u: nat)
    requires ValidRun(env, early, events + [ev]) && !Run(env, Start(env, early), events).ended
    requires Decides(env, Run(env, Start(env, early), events), ev)
    ensures var s := Run(env, Start(env, early), events);
            var s' := Run(env, Start(env, early), events + [ev]);
            var n := s.current.nretry;
            && (s'.current.nretry > n <==> Retried(env, s, ev))
            && (if Retried(env, s, ev) then
                  && WentOn(env, s, n + 1, s')
                  && CompletionOf(s'.log, n) == Some(Completed(env, s.current, ev.error, ev.responded, false, Info(ev)))
                  && (u != n ==> LoggedOn(env, s, n + 1, s', u))
                else
                  s'.ended && s'.error == ev.error && s'.current.nretry == n && ClosedBy(env, s, ev, s'))
  {
    hide Run, Start, OnReturned, IssueRpc, EndRpc, StartRetry, Decides, ClosedBy, ValidRun, ValidEvent;
    var s := Run(env, Start(env, early), events);
    Later(env, early, events, ev);
    DecidedStep(env, s, ev);
    if Retried(env, s, ev) {
      var r := StartRetry(env, s.(error := ev.error), Info(ev));
      RetryOutcome(env, s, ev, u);
      RetryOutcome(env, s, ev, s.current.nretry);
      IssueOutcome(env, r, u);
      IssueOutcome(env, r, s.current.nretry);
    } else {
      EndOutcome(env, s, ev);
    }
  }

  lemma BackupStep(env: Env, s: Rpc, ev: Event)
    requires ev.id == env.base && ev.error == EBACKUPREQUEST
    ensures var r := OnReturned(env, s.(error := ev.error), Info(ev), 0);
            if s.current.nretry >= env.maxRetry then r == EndRpc(env, s.(error := EBACKUPREQUEST), Info(ev))
            else if env.timerRc != 0 then r == EndRpc(env, s.(error := env.timerRc), Info(ev))
            else r == IssueRpc(env, StartBackup(s.(error := EBACKUPREQUEST)))
  {
    hide IssueRpc, EndRpc;
  }

  // In every run, the backup timer opens the next version beside the current one if and only if a retry is left and
  // the timeout timer could be started. Otherwise it ends the RPC.
  lemma BackupIff(env: Env, early: Option<int>, events: seq<Event>, ev: Event, u: nat)
    requires ValidRun(env, early, events + [ev]) && !Run(env, Start(env, early), events).ended
    requires ev.error == EBACKUPREQUEST
    ensures var s := Run(env, Start(env, early), events);
            var s' := Run(env, Start(env, early), events + [ev]);
            var n := s.current.nretry;
            && (s'.current.nretry > n <==> n < env.maxRetry && env.timerRc == 0)
            && (if n < env.maxRetry && env.timerRc == 0 then
                  && WentOn(env, s.(unfinished := Some(s.current)), n + 1, s')
                  && LoggedOn(env, s.(unfinished := Some(s.current)), n + 1, s', u)
                else
                  && s'.ended && s'.current.nretry == n
                  && s'.error == (if n < env.maxRetry then env.timerRc else EBACKUPREQUEST)
                  && CompletionOf(s'.log, n) == Some(Completed(env, s.current, s'.error, false, true, Info(ev))))
  {
    hide Run, Start, OnReturned, IssueRpc, ValidRun;
    var s := Run(env, Start(env, early), events);
    Later(env, early, events, ev);
    BackupStep(env, s, ev);
    if s.current.nretry < env.maxRetry && env.timerRc == 0 {
      IssueOutcome(env, StartBackup(s.(error := EBACKUPREQUEST)), u);
    }
  }

  // In every run, a failure of the original of a backup request closes just that attempt.
  lemma OriginalFails(env: Env, early: Option<int>, events: seq<Event>, ev: Event)
    requires ValidRun(env, early, events + [ev]) && !Run(env, Start(env, early), events).ended
    requires IsUnfinishedId(env, Run(env, Start(env, early), events), ev.id) && ev.error != 0
    ensures var s := Run(env, Start(env, early), events);
            Run(env, Start(env, early), events + [ev]) ==
            s.(unfinished := None,
               log := Then(s.log, Completed(env, s.unfinished.value, ev.error, ev.responded, false, Info(ev))))
  {
    hide Run, Start, IssueRpc, EndRpc, ValidRun;
    Later(env, early, events, ev);
  }

  // CallMethod issues version 0; an RPC that failed before that is a failed attempt like any other.
  lemma CallStarts(env: Env, early: Option<int>, u: nat)
    requires ValidRun(env, early, [])
    ensures var s0 := Rpc(Call(0, false, false), None, 0, false, Empty, multiset{}, false);
            var s := Start(env, early);
            if early.None? then WentOn(env, s0, 0, s) && LoggedOn(env, s0, 0, s, u)
            else
              var first := Completion(0, early.value, false, false, false, false, CompletionInfo(env.GetId(0), false));
              if env.maxRetry > 0 && env.doRetry(0, early.value) then
                && WentOn(env, s0, 1, s)
                && CompletionOf(s.log, 0) == Some(first) && (u != 0 ==> LoggedOn(env, s0, 1, s, u))
              else s.ended && s.error == early.value && s.log == Then(Empty, first.(endOfRpc := true))
  {
    hide IssueRpc, OnReturned;
    var s0 := Rpc(Call(0, false, false), None, 0, false, Empty, multiset{}, false);
    if early.None? {
      IssueOutcome(env, s0, u);
    } else {
      var s1 := s0.(error := early.value);
      var info := CompletionInfo(env.GetId(0), false);
      if env.maxRetry > 0 && env.doRetry(0, early.value) {
        FailedSendRetried(env, s1, info);
        IssueOutcome(env, StartRetry(env, s1, info), u);
        IssueOutcome(env, StartRetry(env, s1, info), 0);
      } else {
        FailedSendEnds(env, s1, info);
      }
    }
  }
}
