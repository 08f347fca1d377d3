/**
 The retry and backup-request machine behind one RPC. Attempts are versions 0, 1, ... of the call; version v
 carries the id base + v + 1, and events on the bare base id are timeouts, cancels and the backup timer. At
 most two attempts are outstanding: the current one, and the one a backup request was sent for.
 */
module RpcRetry {
  import opened Errno
  import opened Options

  // One attempt in flight: `sock` says whether a sending socket is held.
  datatype Call = Call(nretry: nat, needFeedback: bool, sock: bool)

  // What triggered a completion: the id it came in on, and whether it was a response.
  datatype CompletionInfo = CompletionInfo(id: nat, responded: bool)

  // One call of Call::OnComplete.
  datatype Completion = Completion(version: nat, error: int, responded: bool, endOfRpc: bool,
                                   feedback: bool, toPool: bool, info: CompletionInfo)

  datatype Log = Empty | Then(before: Log, last: Completion)

  datatype Rpc = Rpc(
    current: Call,
    unfinished: Option<Call>,    // the original of an outstanding backup request
    error: int,                  // _error_code
    ended: bool,
    log: Log,                    // OnComplete calls so far
    selected: multiset<nat>,     // versions whose server selection asked for feedback
    checkFailed: bool)           // an internal CHECK has fired

  // How far sending one attempt gets.
  datatype Issue =
    | NotSelected(error: int)                      // no server
    | NoSocket(error: int, feedback: bool)         // a server, but no connection to it
    | SendFailed(error: int, feedback: bool)       // a connection, but the request could not be packed
    | Sent(feedback: bool)
  {
    predicate Valid() { Sent? || (error != 0 && error != EBACKUPREQUEST) }
  }

  // Everything the machine asks of its surroundings. A version is issued at most once, so `issue` is any
  // behaviour of the network, and `doRetry` is any policy.
  datatype Env = Env(base: nat, maxRetry: nat, pooled: bool, policySet: bool,
                     doRetry: (nat, int) -> bool, issue: nat -> Issue, timerRc: int)
  {
    ghost predicate Valid() { forall v :: issue(v).Valid() }

    function GetId(nretry: nat): nat { base + nretry + 1 }
  }

  datatype Event = Event(id: nat, error: int, responded: bool)

  // What the rest of the library promises about events.
  predicate ValidEvent(env: Env, ev: Event)
  {
    && (ev.id == env.base ==>
          !ev.responded && (ev.error == ECANCELED || ev.error == ERPCTIMEDOUT || ev.error == EBACKUPREQUEST))
    && (ev.id != env.base ==> ev.error != EBACKUPREQUEST)
    && (ev.error == 0 ==> ev.responded)
  }

  function CurrentId(env: Env, s: Rpc): nat { env.GetId(s.current.nretry) }

  predicate IsUnfinishedId(env: Env, s: Rpc, id: nat)
  {
    s.unfinished.Some? && env.GetId(s.unfinished.value.nretry) == id
  }

  // ---- the machine ----

  function Complete(env: Env, s: Rpc, call: Call, error: int, responded: bool, endOfRpc: bool, info: CompletionInfo): Rpc
  {
    var toPool := env.pooled && call.sock && (error == 0 || responded);
    s.(log := Then(s.log, Completion(call.nretry, error, responded, endOfRpc, call.needFeedback, toPool, info)))
  }

  function CompleteCurrent(env: Env, s: Rpc, error: int, responded: bool, endOfRpc: bool, info: CompletionInfo): Rpc
  {
    Complete(env, s, s.current, error, responded, endOfRpc, info).(current := s.current.(sock := false))
  }

  function CompleteUnfinished(env: Env, s: Rpc, error: int, responded: bool, endOfRpc: bool, info: CompletionInfo): Rpc
  {
    if s.unfinished.None? then s
    else Complete(env, s, s.unfinished.value, error, responded, endOfRpc, info).(unfinished := None)
  }

  // The RPC ends with the current attempt, by its own event or one of the RPC as a whole.
  function EndWithCurrent(env: Env, s: Rpc, info: CompletionInfo): Rpc
  {
    var s1 := CompleteUnfinished(env, s, if s.error == 0 then EBACKUPREQUEST else s.error, false, false, info);
    CompleteCurrent(env, s1, s.error, info.responded, true, info).(ended := true)
  }

  // The RPC ends with the outstanding original; anything else here fails a check.
  function EndWithOriginal(env: Env, s: Rpc, info: CompletionInfo): Rpc
  {
    var s1 := CompleteCurrent(env, s, ECANCELED, false, false, info);
    if IsUnfinishedId(env, s, info.id) then
      CompleteUnfinished(env, s1, s.error, info.responded, true, info).(ended := true)
    else
      CompleteUnfinished(env, s1, ECANCELED, false, true, info).(ended := true, checkFailed := true)
  }

  function EndRpc(env: Env, s: Rpc, info: CompletionInfo): Rpc
  {
    if info.id == CurrentId(env, s) || info.id == env.base then EndWithCurrent(env, s, info) else EndWithOriginal(env, s, info)
  }

  function Left(env: Env, s: Rpc): nat
  {
    if s.current.nretry <= env.maxRetry then env.maxRetry - s.current.nretry else 0
  }

  // Events of neither the RPC as a whole nor an outstanding attempt, and failures of the outstanding original.
  predicate Intercepted(env: Env, s: Rpc, id: nat)
  {
    && id != env.base
    && id != CurrentId(env, s)
    && !(IsUnfinishedId(env, s, id) && s.error == 0)
  }

  // Keep the current attempt outstanding and open the next one beside it.
  function StartBackup(s: Rpc): Rpc
  {
    s.(unfinished := Some(s.current),
       current := Call(s.current.nretry + 1, false, false),
       checkFailed := s.checkFailed || s.unfinished.Some?)
  }

  // Finish the current attempt and open the next one in its place.
  function StartRetry(env: Env, s: Rpc, info: CompletionInfo): Rpc
  {
    var s1 := CompleteCurrent(env, s, s.error, info.responded, false, info);
    s1.(current := s1.current.(nretry := s.current.nretry + 1),
        checkFailed := s.checkFailed || info.id != CurrentId(env, s))
  }

  function OnReturned(env: Env, s: Rpc, info: CompletionInfo, saved: int): Rpc
    decreases Left(env, s), 0
  {
    if Intercepted(env, s, info.id) then
      (if IsUnfinishedId(env, s, info.id) then CompleteUnfinished(env, s, s.error, info.responded, false, info) else s)
      .(error := saved)
    else if (s.error == 0 && !env.policySet) || s.current.nretry >= env.maxRetry then
      EndRpc(env, s, info)
    else if s.error == EBACKUPREQUEST then
      if env.timerRc != 0 then EndRpc(env, s.(error := env.timerRc), info) else IssueRpc(env, StartBackup(s))
    else if env.doRetry(s.current.nretry, s.error) then
      IssueRpc(env, StartRetry(env, s, info))
    else
      EndRpc(env, s, info)
  }

  function HandleSendFailed(env: Env, s: Rpc): Rpc
    decreases Left(env, s), 1
  {
    OnReturned(env, s, CompletionInfo(CurrentId(env, s), false), s.error)
  }

  // What picking a server and getting a socket leaves in the current call.
  function Attempt(env: Env, s: Rpc): Rpc
  {
    var issue := env.issue(s.current.nretry);
    var feedback := !issue.NotSelected? && issue.feedback;
    s.(error := if issue.Sent? then 0 else issue.error,
       current := s.current.(needFeedback := feedback, sock := issue.SendFailed? || issue.Sent?),
       selected := s.selected + if feedback then multiset{s.current.nretry} else multiset{})
  }

  function IssueRpc(env: Env, s: Rpc): Rpc
    decreases Left(env, s), 2
  {
    var s1 := Attempt(env, s);
    if env.issue(s.current.nretry).Sent? then s1 else HandleSendFailed(env, s1)
  }

  // CallMethod: the RPC may fail before its first attempt is issued.
  function Start(env: Env, early: Option<int>): Rpc
  {
    var s := Rpc(Call(0, false, false), None, 0, false, Empty, multiset{}, false);
    if early.Some? then HandleSendFailed(env, s.(error := early.value)) else IssueRpc(env, s)
  }

  // A response sets the code only if it carries an error; ended RPCs have no id left to lock.
  function Deliver(env: Env, s: Rpc, ev: Event): Rpc
  {
    if s.ended then s else OnReturned(env, Arrived(s, ev), CompletionInfo(ev.id, ev.responded), s.error)
  }

  function Arrived(s: Rpc, ev: Event): Rpc { s.(error := if ev.error != 0 then ev.error else s.error) }

  function Run(env: Env, s: Rpc, events: seq<Event>): Rpc
  {
    if events == [] then s
    else Deliver(env, Run(env, s, events[..|events| - 1]), events[|events| - 1])
  }
}
