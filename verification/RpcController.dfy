/** The controller as it is written: methods that update its fields and call each other. */
module RpcController {
  import opened Errno
  import opened Options
  import opened RpcRetry
  import opened RpcRetryProofs

  class Controller {
    const env: Env
    var currentCall: Call
    var unfinishedCall: Option<Call>
    var errorCode: int
    var ended: bool
    var log: Log
    var selected: multiset<nat>
    var checkFailed: bool

    ghost function View(): Rpc
      reads this
    {
      Rpc(currentCall, unfinishedCall, errorCode, ended, log, selected, checkFailed)
    }

    // Between events: for every version, completions, outstanding attempts and owed feedback add up, and a running
    // RPC has a clear code.
    ghost predicate Valid()
      reads this
    {
      env.Valid() && AllSettled(env, View())
    }

    constructor (env: Env)
      ensures this.env == env
      ensures View() == Rpc(Call(0, false, false), None, 0, false, Empty, multiset{}, false)
    {
      this.env := env;
      currentCall, unfinishedCall := Call(0, false, false), None;
      errorCode, ended, log, selected, checkFailed := 0, false, Empty, multiset{}, false;
    }

    function GetCurrentId(): nat
      reads this
    {
      env.GetId(currentCall.nretry)
    }

    // Call::OnComplete on the current call
    method OnCompleteCurrent(error: int, responded: bool, endOfRpc: bool, info: CompletionInfo)
      modifies this
      ensures View() == old(CompleteCurrent(env, View(), error, responded, endOfRpc, info))
      ensures CompletedOnce(old(log), log, old(currentCall), endOfRpc) && !currentCall.sock
      ensures log.last.toPool <==> env.pooled && old(currentCall.sock) && (error == 0 || responded)
    {
      hide CompletedOnce;
      var toPool := false;
      if currentCall.sock {
        if env.pooled && (error == 0 || responded) {
          toPool := true;
        }
      }
      OneMore(log, currentCall, error, responded, endOfRpc, toPool, info);
      log := Then(log, Completion(currentCall.nretry, error, responded, endOfRpc, currentCall.needFeedback, toPool, info));
      currentCall := currentCall.(sock := false);
    }

    // Call::OnComplete on the outstanding original, which is then deleted
    method OnCompleteUnfinished(error: int, responded: bool, endOfRpc: bool, info: CompletionInfo)
      requires unfinishedCall.Some?
      modifies this
      ensures View() == old(CompleteUnfinished(env, View(), error, responded, endOfRpc, info))
      ensures CompletedOnce(old(log), log, old(unfinishedCall.value), endOfRpc) && unfinishedCall.None?
      ensures log.last.toPool <==> env.pooled && old(unfinishedCall.value.sock) && (error == 0 || responded)
    {
      hide CompletedOnce;
      var call := unfinishedCall.value;
      var toPool := false;
      if call.sock {
        if env.pooled && (error == 0 || responded) {
          toPool := true;
        }
      }
      OneMore(log, call, error, responded, endOfRpc, toPool, info);
      log := Then(log, Completion(call.nretry, error, responded, endOfRpc, call.needFeedback, toPool, info));
      unfinishedCall := None;
    }

    method EndWithCurrent(info: CompletionInfo)
      modifies this
      ensures View() == old(RpcRetry.EndWithCurrent(env, View(), info))
    {
      hide CompletedOnce;
      if unfinishedCall.Some? {
        var err := if errorCode == 0 then EBACKUPREQUEST else errorCode;
        OnCompleteUnfinished(err, false, false, info);
      }
      OnCompleteCurrent(errorCode, info.responded, true, info);
      ended := true;
    }

    method EndWithOriginal(info: CompletionInfo)
      modifies this
      ensures View() == old(RpcRetry.EndWithOriginal(env, View(), info))
    {
      hide CompletedOnce;
      var isUnfinished := unfinishedCall.Some? && env.GetId(unfinishedCall.value.nretry) == info.id;
      if !isUnfinished {
        checkFailed := true;
      }
      OnCompleteCurrent(ECANCELED, false, false, info);
      if unfinishedCall.Some? {
        if isUnfinished {
          OnCompleteUnfinished(errorCode, info.responded, true, info);
        } else {
          OnCompleteUnfinished(ECANCELED, false, true, info);
        }
      }
      ended := true;
    }

    method EndRPC(info: CompletionInfo)
      modifies this
      ensures View() == old(EndRpc(env, View(), info))
      ensures old(AllRunning(env, View()) &&
                  (info.id == env.base || info.id == GetCurrentId() || IsUnfinishedId(env, View(), info.id))) ==>
              ended && Accounted(View()) && checkFailed == old(checkFailed)
    {
      hide RpcRetry.EndWithCurrent, RpcRetry.EndWithOriginal, AllRunning, Accounted;
      if AllRunning(env, View()) &&
         (info.id == env.base || info.id == GetCurrentId() || IsUnfinishedId(env, View(), info.id)) {
        EndKeeps(env, View(), info);
      }
      if info.id == GetCurrentId() || info.id == env.base {
        EndWithCurrent(info);
      } else {
        EndWithOriginal(info);
      }
    }

    // The current call stays outstanding; the next attempt takes its place.
    method OpenBackup()
      modifies this
      ensures View() == old(StartBackup(View())) && currentCall.nretry == old(currentCall.nretry) + 1
      ensures forall v: nat :: old(Running(env, View(), v) && unfinishedCall.None? && currentCall.nretry < env.maxRetry) ==>
                Fresh(env, View(), v)
    {
      hide Running, Fresh;
      ghost var s := View();
      checkFailed := checkFailed || unfinishedCall.Some?;
      unfinishedCall := Some(currentCall);
      currentCall := Call(currentCall.nretry + 1, false, false);
      BackedUpIsFresh(env, s);
    }

    method OpenRetry(info: CompletionInfo)
      modifies this
      ensures View() == old(StartRetry(env, View(), info)) && currentCall.nretry == old(currentCall.nretry) + 1
      ensures forall v: nat :: old(Running(env, View(), v) && currentCall.nretry < env.maxRetry) ==>
                Fresh(env, View(), v)
    {
      hide CompletedOnce, Running, Fresh;
      ghost var s := View();
      var failed := info.id != GetCurrentId();
      OnCompleteCurrent(errorCode, info.responded, false, info);
      checkFailed := checkFailed || failed;
      currentCall := currentCall.(nretry := currentCall.nretry + 1);
      assert View() == StartRetry(env, s, info);
      RetriedIsFresh(env, s, info);
    }

    method OnVersionedRPCReturned(info: CompletionInfo, savedError: int)
      modifies this
      ensures View() == old(OnReturned(env, View(), info, savedError))
      ensures old(Acceptable(env, View(), info, savedError)) ==>
              Valid() && (checkFailed <==> old(checkFailed || RetriesOther(env, View(), info.id)))
      decreases Left(env, View()), 0
    {
      hide EndRpc, IssueRpc, StartBackup, StartRetry, AllRunning, AllSettled, Running, Fresh, Accounted;
      ghost var s := View();
      if Acceptable(env, s, info, savedError) {
        ReturnedKeeps(env, s, info, savedError);
      }
      hide Acceptable;
      if info.id != env.base && info.id != GetCurrentId() {
        var backup := unfinishedCall.Some? && env.GetId(unfinishedCall.value.nretry) == info.id;
        if !(backup && errorCode == 0) {
          assert Intercepted(env, s, info.id);
          if backup {
            OnCompleteUnfinished(errorCode, info.responded, false, info);
          }
          errorCode := savedError;
          return;
        }
        // continue with the successful original
      }
      assert !Intercepted(env, s, info.id);
      if (errorCode == 0 && !env.policySet) || currentCall.nretry >= env.maxRetry {
        EndRPC(info);
      } else if errorCode == EBACKUPREQUEST {
        if env.timerRc != 0 {
          errorCode := env.timerRc;
          EndRPC(info);
        } else {
          OpenBackup();
          IssueRPC();
        }
      } else if env.doRetry(currentCall.nretry, errorCode) {
        OpenRetry(info);
        IssueRPC();
      } else {
        EndRPC(info);
      }
    }

    method HandleSendFailed()
      modifies this
      ensures View() == old(RpcRetry.HandleSendFailed(env, View()))
      decreases Left(env, View()), 1
    {
      OnVersionedRPCReturned(CompletionInfo(GetCurrentId(), false), errorCode);
    }

    method IssueRPC()
      modifies this
      ensures View() == old(IssueRpc(env, View()))
      decreases Left(env, View()), 2
    {
      hide OnReturned, Attempt;
      var sent := TryToSend();
      if !sent {
        HandleSendFailed();
      }
    }

    // Pick a server, get a socket to it and write the request, as far as it goes.
    method TryToSend() returns (sent: bool)
      modifies this
      ensures View() == old(Attempt(env, View())) && currentCall.nretry == old(currentCall.nretry)
      ensures sent == env.issue(currentCall.nretry).Sent?
    {
      hide OnReturned;
      errorCode := 0;
      currentCall := currentCall.(needFeedback := false, sock := false);
      sent := false;
      match env.issue(currentCall.nretry)
      case NotSelected(error) =>
        errorCode := error;
        assert selected + multiset{} == selected;
      case NoSocket(error, feedback) =>
        Select(feedback);
        errorCode := error;
      case SendFailed(error, feedback) =>
        Select(feedback);
        currentCall := currentCall.(sock := true);
        errorCode := error;
      case Sent(feedback) =>
        Select(feedback);
        currentCall := currentCall.(sock := true);
        sent := true;
    }

    method Select(feedback: bool)
      modifies this
      ensures View() == old(View().(current := View().current.(needFeedback := feedback),
                                    selected := View().selected + if feedback then multiset{View().current.nretry} else multiset{}))
    {
      currentCall := currentCall.(needFeedback := feedback);
      if feedback {
        selected := selected + multiset{currentCall.nretry};
      }
    }

    method HandleEvent(ev: Event)
      modifies this
      ensures View() == old(Deliver(env, View(), ev))
      ensures old(Valid()) && ValidEvent(env, ev) && (ev.error == EBACKUPREQUEST ==> old(unfinishedCall.None?)) ==>
              && Valid()
              && (checkFailed <==> old(checkFailed || Trips(env, View(), ev)))
              && (OwnResponses(env, log) <==> old(OwnResponses(env, log) && !Recycles(env, View(), ev)))
    {
      hide OnReturned, AllSettled, Trips, Recycles, OwnResponses;
      if Valid() && ValidEvent(env, ev) && (ev.error == EBACKUPREQUEST ==> unfinishedCall.None?) {
        DeliverKeeps(env, View(), ev);
      }
      if !ended {
        var savedError := errorCode;
        if ev.error != 0 {
          errorCode := ev.error;
        }
        OnVersionedRPCReturned(CompletionInfo(ev.id, ev.responded), savedError);
      }
    }
  }

  // CallMethod followed by everything that happens to the RPC.
  method Execute(env: Env, early: Option<int>, events: seq<Event>) returns (c: Controller)
    ensures fresh(c) && c.env == env
    ensures c.View() == Run(env, Start(env, early), events)
    ensures ValidRun(env, early, events) ==>
              && c.Valid() && (c.ended ==> Accounted(c.View()))
              && (c.checkFailed <==> !Untripped(env, early, events))
              && (OwnResponses(env, c.log) <==> Unrecycled(env, early, events))
  {
    hide Run, Accounted, AllSettled, OwnResponses, Untripped, Unrecycled, ValidEvents, OnReturned;
    c := new Controller(env);
    if early.Some? {
      c.errorCode := early.value;
      c.HandleSendFailed();
    } else {
      c.IssueRPC();
    }
    RunNone(env, Start(env, early));
    for i := 0 to |events|
      invariant c.View() == Run(env, Start(env, early), events[..i])
    {
      RunNext(env, Start(env, early), events, i);
      c.HandleEvent(events[i]);
    }
    assert events[..|events|] == events;
    if ValidRun(env, early, events) {
      RunFacts(env, early, events);
    }
  }

  lemma RunNone(env: Env, s: Rpc)
    ensures Run(env, s, []) == s
  {
  }

  lemma RunNext(env: Env, s: Rpc, events: seq<Event>, i: nat)
    requires i < |events|
    ensures Run(env, s, events[..i + 1]) == Deliver(env, Run(env, s, events[..i]), events[i])
  {
    hide Deliver;
    assert events[..i + 1][..i] == events[..i];
  }

  // One more completion, of that call: its version and its feedback are counted once more, all others as before.
  ghost predicate CompletedOnce(before: Log, after: Log, call: Call, endOfRpc: bool)
  {
    && after.Then?
    && (forall v: nat :: Times(after, v) == Times(before, v) + Bit(v == call.nretry))
    && (forall v: nat :: FeedbackTimes(after, v) == FeedbackTimes(before, v) + Bit(v == call.nretry && call.needFeedback))
    && EndMarks(after) == EndMarks(before) + Bit(endOfRpc)
  }

  lemma BackedUpIsFresh(env: Env, s: Rpc)
    ensures forall v: nat :: Running(env, s, v) && s.unfinished.None? && s.current.nretry < env.maxRetry ==>
              Fresh(env, StartBackup(s), v)
  {
    hide Running, Fresh, StartBackup;
    forall v: nat | Running(env, s, v) && s.unfinished.None? && s.current.nretry < env.maxRetry {
      BackupIsFresh(env, s, v);
    }
  }

  lemma RetriedIsFresh(env: Env, s: Rpc, info: CompletionInfo)
    ensures forall v: nat :: Running(env, s, v) && s.current.nretry < env.maxRetry ==>
              Fresh(env, StartRetry(env, s, info), v)
  {
    hide Running, Fresh, StartRetry;
    forall v: nat | Running(env, s, v) && s.current.nretry < env.maxRetry {
      RetryIsFresh(env, s, info, v);
    }
  }

  lemma OneMore(log: Log, call: Call, error: int, responded: bool, endOfRpc: bool, toPool: bool, info: CompletionInfo)
    ensures CompletedOnce(log, Then(log, Completion(call.nretry, error, responded, endOfRpc, call.needFeedback, toPool, info)),
                          call, endOfRpc)
  {
  }
}
