/**
 The lock-free rendezvous of a parallel call: `ndone` sub-calls and the parent's own Run() race, and one of
 them must run OnComplete. Finished sub-calls are counted in the low 31 bits of one 32-bit word and the
 parent sets its top bit. Every atomic access is a step of its own, and any interleaving is a run.
 */
module Rendezvous {
  import opened Options
  import opened Limits
  import opened SeqSum
  import opened Errno
  import opened ParallelMerge

  const TOP_BIT: nat := 0x8000_0000

  // What CallMethod establishes before it creates the shared object.
  datatype Config = Config(ndone: nat, failLimit: nat) {
    predicate Valid() { 1 <= failLimit <= ndone < TOP_BIT }
  }

  datatype SubPc =
    | Idle                       // the dispatch loop has not reached this sub-call
    | InFlight                   // dispatched, SubDone::Run not called yet
    | Entered                    // about to test Failed() and add to the fail counter
    | Cancelling(next: nat)      // reached fail_limit, cancelling the others one by one
    | BeforeDone                 // about to add to the done counter
    | Notifying                  // last one in, about to send EPCHANFINISH to the parent's id
    | Completing                 // elected to run OnComplete
    | Returned

  datatype Sub = Sub(pc: SubPc, ec: int)

  datatype ParentPc =
    | NotRun
    | Entered
    | Cancelling(next: nat)
    | BeforeOr
    | Completing
    | Returned

  datatype State = State(
    word: nat,            // _current_done
    fails: nat,           // _current_fail
    subs: seq<Sub>,
    parent: ParentPc,
    parentEc: int,        // error of the parent's controller once it has run
    dispatched: nat,      // position of the dispatch loop in CallMethod
    finishSent: bool,     // EPCHANFINISH is pending on the parent's id
    massCancels: nat,     // sub-calls that entered the cancel loop
    canceller: Option<nat>,    // the last of them
    cancelled: set<nat>,  // sub-calls that were sent ECANCELED
    completions: nat,     // times OnComplete was run
    code: int)            // the error code OnComplete left in the parent

  datatype Step =
    | Dispatch
    | Finish(i: nat, ec: int)
    | FailAdd(i: nat)
    | SubCancel(i: nat)
    | DoneAdd(i: nat)
    | Notify(i: nat)
    | SubComplete(i: nat, merges: seq<MergeResult>)
    | ParentRun(ec: int)
    | ParentLoad(seen: nat)      // a relaxed load: any count that was ever stored
    | ParentCancel
    | ParentOr
    | ParentComplete(merges: seq<MergeResult>)

  function Init(c: Config): State
  {
    State(0, 0, seq(c.ndone, i => Sub(Idle, 0)), NotRun, 0, 0, false, 0, None, {}, 0, 0)
  }

  // val & 0x7fffffff, val & 0x80000000 and the two read-modify-writes, on values of a 32-bit word
  function Count(word: nat): nat { word % TOP_BIT }
  predicate Flag(word: nat) { word % U32 >= TOP_BIT }
  function FetchAdd(word: nat): nat { (word + 1) % U32 }
  function FetchOr(word: nat): nat { if Flag(word) then word else (word + TOP_BIT) % U32 }

  predicate SubAt(s: State, i: nat, pc: SubPc) { i < |s.subs| && s.subs[i].pc == pc }

  predicate Enabled(c: Config, s: State, step: Step)
  {
    match step
    case Dispatch => s.dispatched < c.ndone
    case Finish(i, _) => SubAt(s, i, InFlight)
    case FailAdd(i) => SubAt(s, i, SubPc.Entered)
    case SubCancel(i) => i < |s.subs| && s.subs[i].pc.Cancelling?
    case DoneAdd(i) => SubAt(s, i, BeforeDone)
    case Notify(i) => SubAt(s, i, Notifying)
    case SubComplete(i, merges) => SubAt(s, i, SubPc.Completing) && |merges| == c.ndone
    case ParentRun(ec) => s.parent.NotRun? && (ec == ECANCELED || ec == ERPCTIMEDOUT || (ec == EPCHANFINISH && s.finishSent))
    case ParentLoad(seen) => s.parent.Entered? && seen <= Count(s.word)
    case ParentCancel => s.parent.Cancelling?
    case ParentOr => s.parent.BeforeOr?
    case ParentComplete(merges) => s.parent.Completing? && |merges| == c.ndone
  }

  function SetSub(s: State, i: nat, sub: Sub): State
    requires i < |s.subs|
  {
    s.(subs := s.subs[i := sub])
  }

  function Results(s: State, merges: seq<MergeResult>): seq<SubResult>
    requires |merges| == |s.subs|
  {
    seq(|merges|, i requires 0 <= i < |merges| => SubResult(s.subs[i].ec, merges[i]))
  }

  ghost function Complete(c: Config, s: State, merges: seq<MergeResult>): State
    requires |merges| == |s.subs|
  {
    s.(completions := s.completions + 1,
       code := FinalCode(s.fails, Results(s, merges), c.failLimit, s.parentEc))
  }

  ghost function Next(c: Config, s: State, step: Step): State
    requires |s.subs| == c.ndone
    requires Enabled(c, s, step)
  {
    match step
    case Dispatch =>
      SetSub(s, s.dispatched, Sub(InFlight, 0)).(dispatched := s.dispatched + 1)
    case Finish(i, ec) =>
      SetSub(s, i, Sub(SubPc.Entered, ec))
    case FailAdd(i) =>
      if s.subs[i].ec == 0 then SetSub(s, i, Sub(BeforeDone, 0))
      else if s.fails + 1 == c.failLimit then
        SetSub(s, i, s.subs[i].(pc := SubPc.Cancelling(0)))
        .(fails := s.fails + 1, massCancels := s.massCancels + 1, canceller := Some(i))
      else SetSub(s, i, s.subs[i].(pc := BeforeDone)).(fails := s.fails + 1)
    case SubCancel(i) =>
      var k := s.subs[i].pc.next;
      SetSub(s, i, s.subs[i].(pc := if k < c.ndone then SubPc.Cancelling(k + 1) else BeforeDone))
      .(cancelled := if k < c.ndone && k != i then s.cancelled + {k} else s.cancelled)
    case DoneAdd(i) =>
      var val := s.word;
      var pc := if Count(val) + 1 != c.ndone then SubPc.Returned
                else if !Flag(val) then Notifying
                else SubPc.Completing;
      SetSub(s, i, s.subs[i].(pc := pc)).(word := FetchAdd(val))
    case Notify(i) =>
      SetSub(s, i, s.subs[i].(pc := SubPc.Returned)).(finishSent := true)
    case SubComplete(i, merges) =>
      Complete(c, SetSub(s, i, s.subs[i].(pc := SubPc.Returned)), merges)
    case ParentRun(ec) =>
      s.(parent := ParentPc.Entered, parentEc := if ec == EPCHANFINISH then 0 else ec)
    case ParentLoad(seen) =>
      s.(parent := if seen != c.ndone then ParentPc.Cancelling(0) else BeforeOr)
    case ParentCancel =>
      var k := s.parent.next;
      s.(parent := if k < c.ndone then ParentPc.Cancelling(k + 1) else BeforeOr,
         cancelled := if k < c.ndone then s.cancelled + {k} else s.cancelled)
    case ParentOr =>
      s.(parent := if Count(s.word) != c.ndone then ParentPc.Returned else ParentPc.Completing,
         word := FetchOr(s.word))
    case ParentComplete(merges) =>
      Complete(c, s.(parent := ParentPc.Returned), merges)
  }

  // The state a run of `steps` from the initial state leads to, if every step was enabled in turn.
  ghost function After(c: Config, steps: seq<Step>): (r: Option<State>)
    ensures r.Some? ==> |r.value.subs| == c.ndone
  {
    if steps == [] then Some(Init(c))
    else
      var before := After(c, steps[..|steps| - 1]);
      var step := steps[|steps| - 1];
      if before.Some? && Enabled(c, before.value, step) then Some(Next(c, before.value, step)) else None
  }

  // ---- the inductive invariant ----

  function PastDone(s: Sub): nat { if s.pc.Notifying? || s.pc.Completing? || s.pc.Returned? then 1 else 0 }
  function PastFail(s: Sub): nat { if s.ec != 0 && (s.pc.Cancelling? || s.pc.BeforeDone? || PastDone(s) == 1) then 1 else 0 }
  function IsNotifying(s: Sub): nat { if s.pc.Notifying? then 1 else 0 }
  function IsCompleting(s: Sub): nat { if s.pc.Completing? then 1 else 0 }
  predicate PastOr(p: ParentPc) { p.Completing? || p.Returned? }

  // Threads elected to run OnComplete, counting the one that already has.
  function Elected(s: State): nat
  {
    Sum(s.subs, IsCompleting) + (if s.parent.Completing? then 1 else 0) + s.completions
  }

  ghost predicate Inv(c: Config, s: State)
  {
    && c.Valid()
    && |s.subs| == c.ndone
    && s.dispatched <= c.ndone
    && (forall i :: 0 <= i < |s.subs| ==> (s.subs[i].pc.Idle? <==> i >= s.dispatched))
    // the packed word is exactly the pair (finished sub-calls, parent has run)
    && s.word == Sum(s.subs, PastDone) + (if PastOr(s.parent) then TOP_BIT else 0)
    && s.fails == Sum(s.subs, PastFail)
    && s.massCancels == (if s.fails >= c.failLimit then 1 else 0)
    && Elected(s) == (if Sum(s.subs, PastDone) == c.ndone && PastOr(s.parent) then 1 else 0)
    // the last sub-call always leaves a way for the parent to run
    && (Sum(s.subs, PastDone) == c.ndone && !PastOr(s.parent) ==> s.finishSent || Sum(s.subs, IsNotifying) > 0)
    && (s.parent.NotRun? ==> s.parentEc == 0)
  }

  lemma InitInv(c: Config)
    requires c.Valid()
    ensures Inv(c, Init(c))
  {
    var subs := Init(c).subs;
    SumToConstant(subs, PastDone, 0, c.ndone);
    SumToConstant(subs, PastFail, 0, c.ndone);
    SumToConstant(subs, IsCompleting, 0, c.ndone);
  }

  // How the counts move when sub-call i goes to `sub`.
  lemma CountsMove(s: State, i: nat, sub: Sub)
    requires i < |s.subs|
    ensures Sum(s.subs[i := sub], PastDone) + PastDone(s.subs[i]) == Sum(s.subs, PastDone) + PastDone(sub) <= |s.subs| + 1
    ensures Sum(s.subs[i := sub], PastDone) <= |s.subs|
    ensures Sum(s.subs[i := sub], PastFail) + PastFail(s.subs[i]) == Sum(s.subs, PastFail) + PastFail(sub)
    ensures Sum(s.subs[i := sub], IsNotifying) + IsNotifying(s.subs[i]) == Sum(s.subs, IsNotifying) + IsNotifying(sub)
    ensures Sum(s.subs[i := sub], IsCompleting) + IsCompleting(s.subs[i]) == Sum(s.subs, IsCompleting) + IsCompleting(sub)
  {
    SumUpdate(s.subs, i, sub, PastDone);
    SumUpdate(s.subs, i, sub, PastFail);
    SumUpdate(s.subs, i, sub, IsNotifying);
    SumUpdate(s.subs, i, sub, IsCompleting);
    SumToBits(s.subs, PastDone, |s.subs|);
    SumToBits(s.subs[i := sub], PastDone, |s.subs|);
  }

  lemma PackedWord(count: nat, flag: bool)
    requires count < TOP_BIT
    ensures var word := count + if flag then TOP_BIT else 0;
            && Count(word) == count
            && Flag(word) == flag
            && (count + 1 < TOP_BIT ==> FetchAdd(word) == word + 1)
            && FetchOr(word) == count + TOP_BIT
  {
  }

  lemma DispatchInv(c: Config, s: State)
    requires Inv(c, s) && Enabled(c, s, Dispatch)
    ensures Inv(c, Next(c, s, Dispatch))
  {
    hide SumTo;
    CountsMove(s, s.dispatched, Sub(InFlight, 0));
  }

  // A sub-call moves between places before its fetch_add and adds `fail` to the fail counter.
  lemma EarlyMoveInv(c: Config, s: State, s': State, i: nat, sub: Sub, fail: nat)
    requires Inv(c, s) && i < |s.subs|
    requires !s.subs[i].pc.Idle? && !sub.pc.Idle? && PastDone(s.subs[i]) == PastDone(sub) == 0
    requires PastFail(sub) == PastFail(s.subs[i]) + fail
    requires s' == s.(subs := s.subs[i := sub], fails := s.fails + fail, massCancels := s'.massCancels,
                      canceller := s'.canceller, cancelled := s'.cancelled)
    requires s'.massCancels == if s'.fails >= c.failLimit then 1 else 0
    ensures Inv(c, s')
  {
    hide SumTo;
    CountsMove(s, i, sub);
    assert Elected(s') == Elected(s);
  }

  lemma FailAddInv(c: Config, s: State, i: nat)
    requires Inv(c, s) && Enabled(c, s, FailAdd(i))
    ensures Inv(c, Next(c, s, FailAdd(i)))
  {
    var s' := Next(c, s, FailAdd(i));
    EarlyMoveInv(c, s, s', i, s'.subs[i], if s.subs[i].ec == 0 then 0 else 1);
  }

  lemma EarlySubInv(c: Config, s: State, step: Step)
    requires Inv(c, s) && Enabled(c, s, step)
    requires step.Finish? || step.SubCancel?
    ensures Inv(c, Next(c, s, step))
  {
    var s' := Next(c, s, step);
    EarlyMoveInv(c, s, s', step.i, s'.subs[step.i], 0);
  }

  lemma DoneAddInv(c: Config, s: State, i: nat)
    requires Inv(c, s) && Enabled(c, s, DoneAdd(i))
    ensures Inv(c, Next(c, s, DoneAdd(i)))
  {
    hide SumTo;
    CountsMove(s, i, Next(c, s, DoneAdd(i)).subs[i]);
    PackedWord(Sum(s.subs, PastDone), PastOr(s.parent));
  }

  lemma LateSubInv(c: Config, s: State, step: Step)
    requires Inv(c, s) && Enabled(c, s, step)
    requires step.Notify? || step.SubComplete?
    ensures Inv(c, Next(c, s, step))
  {
    hide SumTo;
    CountsMove(s, step.i, Next(c, s, step).subs[step.i]);
  }

  lemma ParentInv(c: Config, s: State, step: Step)
    requires Inv(c, s) && Enabled(c, s, step)
    requires step.ParentRun? || step.ParentLoad? || step.ParentCancel? || step.ParentComplete?
    ensures Inv(c, Next(c, s, step))
  {
    hide SumTo;
  }

  lemma ParentOrInv(c: Config, s: State)
    requires Inv(c, s) && Enabled(c, s, ParentOr)
    ensures Inv(c, Next(c, s, ParentOr))
  {
    hide SumTo;
    SumToBits(s.subs, PastDone, |s.subs|);
    PackedWord(Sum(s.subs, PastDone), false);
  }

  lemma NextInv(c: Config, s: State, step: Step)
    requires Inv(c, s) && Enabled(c, s, step)
    ensures Inv(c, Next(c, s, step))
  {
    match step
    case Dispatch => DispatchInv(c, s);
    case Finish(_, _) => EarlySubInv(c, s, step);
    case FailAdd(i) => FailAddInv(c, s, i);
    case SubCancel(_) => EarlySubInv(c, s, step);
    case DoneAdd(i) => DoneAddInv(c, s, i);
    case Notify(_) => LateSubInv(c, s, step);
    case SubComplete(_, _) => LateSubInv(c, s, step);
    case ParentOr => ParentOrInv(c, s);
    case _ => ParentInv(c, s, step);
  }

  lemma {:induction false} Reachable(c: Config, steps: seq<Step>)
    requires c.Valid() && After(c, steps).Some?
    ensures Inv(c, After(c, steps).value)
  {
    if steps == [] {
      InitInv(c);
    } else {
      var prefix := steps[..|steps| - 1];
      Reachable(c, prefix);
      NextInv(c, After(c, prefix).value, steps[|steps| - 1]);
    }
  }

  // ---- what holds in every run ----

  // The single word holds the pair (finished sub-calls, parent has run); the count never carries into the flag.
  lemma WordIsCountAndFlag(c: Config, steps: seq<Step>)
    requires c.Valid() && After(c, steps).Some?
    ensures var s := After(c, steps).value;
            && Count(s.word) == Sum(s.subs, PastDone) <= c.ndone
            && Flag(s.word) == PastOr(s.parent)
  {
    hide After, SumTo;
    Reachable(c, steps);
    var s := After(c, steps).value;
    SumToBits(s.subs, PastDone, |s.subs|);
    PackedWord(Sum(s.subs, PastDone), PastOr(s.parent));
  }

  // At most one thread is ever elected, so OnComplete never runs twice.
  lemma AtMostOneCompletion(c: Config, steps: seq<Step>)
    requires c.Valid() && After(c, steps).Some?
    ensures Elected(After(c, steps).value) <= 1
    ensures After(c, steps).value.completions <= 1
  {
    Reachable(c, steps);
  }

  // An election means every sub-call is past its fetch_add and the parent is past its fetch_or.
  lemma ElectedMeansAllArrived(c: Config, steps: seq<Step>)
    requires c.Valid() && After(c, steps).Some?
    requires Elected(After(c, steps).value) > 0
    ensures var s := After(c, steps).value;
            PastOr(s.parent) && forall i :: 0 <= i < c.ndone ==> PastDone(s.subs[i]) == 1
  {
    Reachable(c, steps);
    var s := After(c, steps).value;
    SumToBits(s.subs, PastDone, |s.subs|);
  }

  // Once a thread is elected, nothing that touches the shared object can happen except its own OnComplete.
  // (A sub-call still sending EPCHANFINISH uses an id it saved before its fetch_add.)
  lemma NobodyTouchesAfterElection(c: Config, steps: seq<Step>, step: Step)
    requires c.Valid() && After(c, steps).Some?
    requires Elected(After(c, steps).value) > 0
    requires Enabled(c, After(c, steps).value, step)
    ensures || step.Notify?
            || ((step.SubComplete? || step.ParentComplete?) && After(c, steps).value.completions == 0)
  {
    Reachable(c, steps);
    ElectedMeansAllArrived(c, steps);
    var s := After(c, steps).value;
    SumToBits(s.subs, IsCompleting, |s.subs|);
    assert PastDone(s.subs[c.ndone - 1]) == 1 && s.dispatched == c.ndone;
    if step.Finish? || step.FailAdd? || step.SubCancel? || step.DoneAdd? || step.SubComplete? {
      assert PastDone(s.subs[step.i]) == 1;
      if step.SubComplete? {
        assert IsCompleting(s.subs[step.i]) == 1;
      }
    }
  }

  // The fail counter at the rendezvous is the number of failed sub-calls, and the others were cancelled by
  // one sub-call if that number reached the limit and by none otherwise.
  lemma FailCounterIsExact(c: Config, steps: seq<Step>)
    requires c.Valid() && After(c, steps).Some?
    ensures After(c, steps).value.massCancels <= 1
    ensures After(c, steps).value.massCancels == 1 <==> After(c, steps).value.fails >= c.failLimit
    ensures Elected(After(c, steps).value) > 0 ==>
              forall merges :: |merges| == c.ndone ==>
                After(c, steps).value.fails == Sum(Results(After(c, steps).value, merges), FailureWeight)
  {
    Reachable(c, steps);
    var s := After(c, steps).value;
    if Elected(s) > 0 {
      ElectedMeansAllArrived(c, steps);
      forall merges | |merges| == c.ndone
        ensures s.fails == Sum(Results(s, merges), FailureWeight)
      {
        FailWeightsAgree(s, merges, c.ndone);
      }
    }
  }

  lemma {:induction false} FailWeightsAgree(s: State, merges: seq<MergeResult>, n: nat)
    requires n <= |s.subs| == |merges|
    requires forall i :: 0 <= i < n ==> PastDone(s.subs[i]) == 1
    ensures SumTo(s.subs, PastFail, n) == SumTo(Results(s, merges), FailureWeight, n)
  {
    if n > 0 {
      FailWeightsAgree(s, merges, n - 1);
    }
  }

  // ---- termination and exactly-once ----

  function SubRank(n: nat): Sub -> nat
  {
    (s: Sub) =>
      match s.pc
      case Idle => n + 7
      case InFlight => n + 6
      case Entered => n + 5
      case Cancelling(k) => if k <= n then n - k + 3 else 3
      case BeforeDone => 2
      case Notifying => 1
      case Completing => 1
      case Returned => 0
  }

  function ParentRank(n: nat, p: ParentPc): nat
  {
    match p
    case NotRun => n + 5
    case Entered => n + 4
    case Cancelling(k) => if k <= n then n - k + 3 else 3
    case BeforeOr => 2
    case Completing => 1
    case Returned => 0
  }

  function StepsLeft(c: Config, s: State): nat
  {
    Sum(s.subs, SubRank(c.ndone)) + ParentRank(c.ndone, s.parent)
  }

  // A step of sub-call i moves only it, and down in rank.
  lemma SubStepUsesRank(c: Config, s: State, step: Step, i: nat)
    requires |s.subs| == c.ndone && Enabled(c, s, step)
    requires step.Dispatch? ==> i == s.dispatched && s.subs[i].pc.Idle?
    requires !step.Dispatch? ==>
               (step.Finish? || step.FailAdd? || step.SubCancel? || step.DoneAdd? || step.Notify? || step.SubComplete?) && i == step.i
    ensures var s' := Next(c, s, step);
            && s'.parent == s.parent
            && s'.subs == s.subs[i := s'.subs[i]]
            && SubRank(c.ndone)(s'.subs[i]) < SubRank(c.ndone)(s.subs[i])
  {
    hide FinalCode, SumTo;
  }

  lemma StepUsesRank(c: Config, s: State, step: Step)
    requires Inv(c, s) && Enabled(c, s, step)
    ensures StepsLeft(c, Next(c, s, step)) < StepsLeft(c, s)
  {
    if step.ParentRun? || step.ParentLoad? || step.ParentCancel? || step.ParentOr? || step.ParentComplete? {
      assert Next(c, s, step).subs == s.subs;
    } else {
      var i := if step.Dispatch? then s.dispatched else step.i;
      SubStepUsesRank(c, s, step, i);
      SumUpdate(s.subs, i, Next(c, s, step).subs[i], SubRank(c.ndone));
    }
  }

  // Every run is finite: no interleaving has more than this many steps.
  lemma {:induction false} RunsAreBounded(c: Config, steps: seq<Step>)
    requires c.Valid() && After(c, steps).Some?
    ensures |steps| + StepsLeft(c, After(c, steps).value) <= c.ndone * (c.ndone + 7) + c.ndone + 5
  {
    if steps == [] {
      SumToConstant(Init(c).subs, SubRank(c.ndone), c.ndone + 7, c.ndone);
    } else {
      var prefix := steps[..|steps| - 1];
      RunsAreBounded(c, prefix);
      Reachable(c, prefix);
      StepUsesRank(c, After(c, prefix).value, steps[|steps| - 1]);
    }
  }

  // Nothing is left to happen, other than a cancel or timeout that nobody is obliged to send.
  ghost predicate Quiescent(c: Config, s: State)
  {
    forall step :: Enabled(c, s, step) ==> step.ParentRun? && step.ec != EPCHANFINISH
  }

  lemma QuiescentSub(c: Config, s: State, i: nat)
    requires |s.subs| == c.ndone && Quiescent(c, s) && i < c.ndone && !s.subs[i].pc.Idle?
    ensures s.subs[i].pc.Returned?
  {
    var merges := seq(c.ndone, i => Merged);
    assert !Enabled(c, s, Finish(i, 0)) && !Enabled(c, s, FailAdd(i)) && !Enabled(c, s, SubCancel(i));
    assert !Enabled(c, s, DoneAdd(i)) && !Enabled(c, s, Notify(i)) && !Enabled(c, s, SubComplete(i, merges));
  }

  lemma QuiescentParent(c: Config, s: State)
    requires Quiescent(c, s)
    ensures s.parent.Returned? || (s.parent.NotRun? && !s.finishSent)
  {
    var merges := seq(c.ndone, i => Merged);
    assert !Enabled(c, s, ParentRun(EPCHANFINISH)) && !Enabled(c, s, ParentLoad(0)) && !Enabled(c, s, ParentCancel);
    assert !Enabled(c, s, ParentOr) && !Enabled(c, s, ParentComplete(merges));
  }

  lemma QuiescentMeansReturned(c: Config, s: State)
    requires Inv(c, s) && Quiescent(c, s)
    ensures s.parent.Returned? || (s.parent.NotRun? && !s.finishSent)
    ensures forall i :: 0 <= i < c.ndone ==> s.subs[i].pc.Returned?
  {
    hide SumTo;
    assert !Enabled(c, s, Dispatch);
    QuiescentParent(c, s);
    forall i | 0 <= i < c.ndone
      ensures s.subs[i].pc.Returned?
    {
      QuiescentSub(c, s, i);
    }
  }

  // No run gets stuck before completion: where it stops, every thread has returned and OnComplete ran once,
  // with or without a timeout or cancel of the parent.
  lemma QuiescentMeansCompletedOnce(c: Config, steps: seq<Step>)
    requires c.Valid() && After(c, steps).Some? && Quiescent(c, After(c, steps).value)
    ensures var s := After(c, steps).value;
            && s.completions == 1
            && s.parent.Returned?
            && forall i :: 0 <= i < c.ndone ==> s.subs[i].pc.Returned?
  {
    Reachable(c, steps);
    var s := After(c, steps).value;
    QuiescentMeansReturned(c, s);
    SumToConstant(s.subs, PastDone, 1, c.ndone);
    SumToConstant(s.subs, IsNotifying, 0, c.ndone);
    SumToConstant(s.subs, IsCompleting, 0, c.ndone);
  }

  // Whenever all sub-calls and the parent have returned, OnComplete has run exactly once.
  lemma AllReturnedMeansCompletedOnce(c: Config, steps: seq<Step>)
    requires c.Valid() && After(c, steps).Some?
    requires var s := After(c, steps).value;
             s.parent.Returned? && forall i :: 0 <= i < |s.subs| ==> s.subs[i].pc.Returned?
    ensures After(c, steps).value.completions == 1
  {
    Reachable(c, steps);
    var s := After(c, steps).value;
    SumToConstant(s.subs, PastDone, 1, c.ndone);
    SumToConstant(s.subs, IsCompleting, 0, c.ndone);
  }

  // The completing step leaves the parent failed exactly when failed sub-calls and merge failures together
  // reach the limit. The counter that the code reads is the true number of failed sub-calls.
  lemma ParentCodeAtCompletion(c: Config, steps: seq<Step>, step: Step)
    requires c.Valid() && After(c, steps).Some? && Enabled(c, After(c, steps).value, step)
    requires step.SubComplete? || step.ParentComplete?
    ensures var s := After(c, steps).value;
            var results := Results(s, step.merges);
            var code := Next(c, s, step).code;
            && code == FinalCode(Sum(results, FailureWeight), results, c.failLimit, s.parentEc)
            && (code != 0 <==> ParentFails(Sum(results, FailureWeight), results, c.failLimit))
  {
    Reachable(c, steps);
    var s := After(c, steps).value;
    SumToBits(s.subs, IsCompleting, |s.subs|);
    if step.SubComplete? {
      assert IsCompleting(s.subs[step.i]) == 1;
      assert Results(SetSub(s, step.i, s.subs[step.i].(pc := SubPc.Returned)), step.merges) == Results(s, step.merges);
    }
    assert Elected(s) > 0;
    FailCounterIsExact(c, steps);
    FailedIffLimitReached(s.fails, Results(s, step.merges), c.failLimit, s.parentEc);
  }
}
