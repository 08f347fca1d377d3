/**
 The hand-over of a progressive attachment: writers buffer chunks while the RPC runs, MarkRPCAsDone flushes the
 buffer, and later writers write to the socket themselves. A section under the mutex, an atomic load and a
 socket write are one step each, and any interleaving is a run.
 */
module Attachment {
  import opened Options
  import opened Limits
  import opened IoBuf
  import opened ChunkedCoding

  const MAX_TRY: nat := 3

  datatype Config = Config(beforeHttp11: bool, maxUnwritten: nat, rpcFailed: bool)

  datatype RpcState = Running | Succeeded | Failed

  // A thread inside Write().
  datatype WriterPc =
    | Idle
    | BeforeLock(data: string)                  // saw the RPC running
    | AfterLoad(data: string, seen: RpcState)   // saw it done

  // The thread inside MarkRPCAsDone().
  datatype MarkerPc =
    | NotStarted
    | Trying(ntry: nat, permanentError: bool)   // about to take the lock
    | Flushing(copied: string, ntry: nat)       // about to write the copied buffer to the socket
    | Returned

  datatype State = State(
    rpc: RpcState,
    saved: string,            // _saved_buf
    pause: bool,              // _pause_from_mark_rpc_as_done
    socket: string,           // every byte the socket took
    broken: bool,             // the socket failed, for good
    writers: seq<WriterPc>,
    marker: MarkerPc,
    accepted: seq<string>,    // data of the writes that returned 0, in that order
    flushes: nat,             // socket writes of MarkRPCAsDone
    destroyed: bool)

  datatype Step =
    | Load(i: nat, data: string)        // enter Write() and load the state
    | Locked(i: nat)                    // the critical section of Write()
    | Direct(i: nat, crowded: bool)     // write to the socket, which may be overcrowded
    | MarkStart
    | MarkLocked                        // the critical section of MarkRPCAsDone()
    | MarkFlush
    | Break                             // the connection fails
    | Destroy                           // the last reference is dropped

  function Init(nwriters: nat): State
  {
    State(Running, "", false, "", false, seq(nwriters, i => Idle), NotStarted, [], 0, false)
  }

  predicate Enabled(s: State, step: Step)
  {
    !s.destroyed &&
    match step
    case Load(i, _) => i < |s.writers| && s.writers[i].Idle?
    case Locked(i) => i < |s.writers| && s.writers[i].BeforeLock?
    case Direct(i, _) => i < |s.writers| && s.writers[i].AfterLoad?
    case MarkStart => s.marker.NotStarted?
    case MarkLocked => s.marker.Trying?
    case MarkFlush => s.marker.Flushing?
    case Break => true
    case Destroy => s.marker.Returned? && forall w <- s.writers :: w.Idle?
  }

  function SetWriter(s: State, i: nat, pc: WriterPc): State
    requires i < |s.writers|
  {
    s.(writers := s.writers[i := pc])
  }

  function Next(c: Config, s: State, step: Step): State
    requires Enabled(s, step)
  {
    match step
    case Load(i, data) =>
      if data == "" then s
      else SetWriter(s, i, if s.rpc.Running? then BeforeLock(data) else AfterLoad(data, s.rpc))
    case Locked(i) =>
      var data := s.writers[i].data;
      if !s.rpc.Running? then SetWriter(s, i, AfterLoad(data, s.rpc))
      else if |s.saved| >= c.maxUnwritten || s.pause then SetWriter(s, i, Idle)
      else SetWriter(s, i, Idle).(saved := s.saved + Wire(data, c.beforeHttp11), accepted := s.accepted + [data])
    case Direct(i, crowded) =>
      var (data, seen) := (s.writers[i].data, s.writers[i].seen);
      if !seen.Succeeded? || s.broken || crowded then SetWriter(s, i, Idle)
      else SetWriter(s, i, Idle).(socket := s.socket + Wire(data, c.beforeHttp11), accepted := s.accepted + [data])
    case MarkStart =>
      s.(marker := Trying(0, false))
    case MarkLocked =>
      var ntry := s.marker.ntry + 1;
      if s.saved == "" || s.marker.permanentError || c.rpcFailed then
        s.(saved := "", pause := false, rpc := if c.rpcFailed then Failed else Succeeded, marker := Returned)
      else
        s.(saved := "", pause := s.pause || ntry > MAX_TRY, marker := Flushing(s.saved, ntry))
    case MarkFlush =>
      s.(marker := Trying(s.marker.ntry, s.broken), flushes := s.flushes + 1,
         socket := if s.broken then s.socket else s.socket + s.marker.copied)
    case Break =>
      s.(broken := true)
    case Destroy =>
      s.(destroyed := true,
         socket := if s.rpc.Succeeded? && !c.beforeHttp11 && !s.broken then s.socket + LAST else s.socket)
  }

  // Where a run from s leads to, if every step is enabled in turn.
  function Run(c: Config, s: State, steps: seq<Step>): Option<State>
  {
    if steps == [] then Some(s)
    else
      var before := Run(c, s, steps[..|steps| - 1]);
      var step := steps[|steps| - 1];
      if before.Some? && Enabled(before.value, step) then Some(Next(c, before.value, step)) else None
  }

  function After(c: Config, nwriters: nat, steps: seq<Step>): Option<State> { Run(c, Init(nwriters), steps) }

  // ---- the invariant ----

  function InFlight(s: State): string { if s.marker.Flushing? then s.marker.copied else "" }

  predicate LastSent(c: Config, s: State) { s.destroyed && s.rpc.Succeeded? && !c.beforeHttp11 }

  function Tries(m: MarkerPc): nat
  {
    match m case NotStarted => 0 case Trying(n, _) => n case Flushing(_, n) => n case Returned => MAX_TRY + 1
  }

  predicate WriterInv(s: State, w: WriterPc)
  {
    && (!w.Idle? ==> w.data != "")
    && (w.AfterLoad? ==> w.seen == s.rpc && !w.seen.Running?)
  }

  // Who may hold what: buffering stops for good when the marker returns, and while the last try is on its way.
  predicate ControlInv(c: Config, s: State)
  {
    && (s.rpc.Running? <==> !s.marker.Returned?)
    && (!s.rpc.Running? ==> s.saved == "" && !s.pause && s.rpc == if c.rpcFailed then Failed else Succeeded)
    && (forall w <- s.writers :: WriterInv(s, w))
    && (s.pause ==> !s.marker.Returned? && Tries(s.marker) == MAX_TRY + 1)
    && Tries(s.marker) <= MAX_TRY + 1
    && (Tries(s.marker) == MAX_TRY + 1 && !s.marker.Returned? ==> s.pause && s.saved == "")
    && s.flushes + (if s.marker.Flushing? then 1 else 0) <= Tries(s.marker)
    && (s.marker.Trying? && s.marker.permanentError ==> s.broken)
    && (c.rpcFailed ==> !s.marker.Flushing? && (s.marker.Trying? ==> s.marker.ntry == 0))
    && (s.destroyed ==> s.marker.Returned? && forall w <- s.writers :: w.Idle?)
  }

  // What the bytes are.
  predicate StreamInv(c: Config, s: State)
  {
    && (forall p <- s.accepted :: p != "")
    && (c.rpcFailed ==> s.socket == "")
    && (!c.rpcFailed && !s.broken ==>
          s.socket + InFlight(s) + s.saved == WireAll(s.accepted, c.beforeHttp11) + if LastSent(c, s) then LAST else "")
    && (s.broken ==> s.socket <= WireAll(s.accepted, c.beforeHttp11))
  }

  predicate Inv(c: Config, s: State) { ControlInv(c, s) && StreamInv(c, s) }

  lemma WireAllGrows(pieces: seq<string>, p: string, b: bool)
    ensures WireAll(pieces + [p], b) == WireAll(pieces, b) + Wire(p, b)
  {
    assert (pieces + [p])[..|pieces|] == pieces;
  }

  lemma ControlKept(c: Config, s: State, step: Step)
    requires ControlInv(c, s) && Enabled(s, step)
    ensures ControlInv(c, Next(c, s, step))
  {
    hide Wire;
    var s' := Next(c, s, step);
    forall w <- s'.writers
      ensures WriterInv(s', w)
    {
      if w in s.writers {
        assert WriterInv(s, w);
      } else {
        assert step.Load? || step.Locked? || step.Direct?;
        assert s.writers[step.i] in s.writers;
      }
    }
  }

  lemma StreamKept(c: Config, s: State, step: Step)
    requires Inv(c, s) && Enabled(s, step)
    ensures StreamInv(c, Next(c, s, step))
  {
    hide Wire, WireAll;
    match step
    case Locked(i) => AcceptKept(c, s, step, s.writers[i].data);
    case Direct(i, _) => AcceptKept(c, s, step, s.writers[i].data);
    case Load(_, _) =>
    case _ => MoveKept(c, s, step);
  }

  // Steps that only move bytes along, or lose them with the connection.
  lemma MoveKept(c: Config, s: State, step: Step)
    requires Inv(c, s) && Enabled(s, step) && !step.Load? && !step.Locked? && !step.Direct?
    ensures StreamInv(c, Next(c, s, step))
  {
    hide Wire, WireAll;
    var s' := Next(c, s, step);
    var wire := WireAll(s.accepted, c.beforeHttp11);
    if !c.rpcFailed && !s.broken {
      assert s.socket + InFlight(s) + s.saved == wire;
      assert s.socket <= wire by { assert wire[..|s.socket|] == s.socket; }
      if !step.Break? {
        assert s'.socket + InFlight(s') + s'.saved == wire + if LastSent(c, s') then LAST else "";
      }
    }
  }

  // The two ways a write is accepted.
  lemma AcceptKept(c: Config, s: State, step: Step, data: string)
    requires Inv(c, s) && Enabled(s, step) && (step.Locked? || step.Direct?)
    requires data == s.writers[step.i].data
    ensures StreamInv(c, Next(c, s, step))
  {
    hide Wire, WireAll;
    var s' := Next(c, s, step);
    var (wire, more) := (WireAll(s.accepted, c.beforeHttp11), Wire(data, c.beforeHttp11));
    assert WriterInv(s, s.writers[step.i]);
    if s'.accepted != s.accepted {
      assert s'.accepted == s.accepted + [data];
      assert forall p <- s'.accepted :: p == data || p in s.accepted;
      WireAllGrows(s.accepted, data, c.beforeHttp11);
      if !c.rpcFailed && !s.broken {
        assert s.socket + InFlight(s) + s.saved == wire;
        assert s'.socket + InFlight(s') + s'.saved == wire + more;
        assert wire + more + "" == wire + more;
      }
    }
  }

  lemma {:induction false} RunKeeps(c: Config, s: State, steps: seq<Step>)
    requires Inv(c, s) && Run(c, s, steps).Some?
    ensures Inv(c, Run(c, s, steps).value)
  {
    if steps != [] {
      var prefix, step := steps[..|steps| - 1], steps[|steps| - 1];
      RunKeeps(c, s, prefix);
      ControlKept(c, Run(c, s, prefix).value, step);
      StreamKept(c, Run(c, s, prefix).value, step);
    }
  }

  lemma Reachable(c: Config, nwriters: nat, steps: seq<Step>)
    requires After(c, nwriters, steps).Some?
    ensures Inv(c, After(c, nwriters, steps).value)
  {
    RunKeeps(c, Init(nwriters), steps);
  }

  // ---- what every run satisfies ----

  // With a successful RPC and a working connection no byte is lost, repeated or reordered.
  lemma StreamIsInOrder(c: Config, nwriters: nat, steps: seq<Step>)
    requires After(c, nwriters, steps).Some? && !c.rpcFailed
    ensures var s := After(c, nwriters, steps).value;
            var wire := WireAll(s.accepted, c.beforeHttp11);
            && s.socket <= wire + LAST
            && (s.broken ==> s.socket <= wire)
            && (!s.broken && !s.destroyed ==> s.socket + InFlight(s) + s.saved == wire)
  {
    hide After, WireAll;
    Reachable(c, nwriters, steps);
    var s := After(c, nwriters, steps).value;
    var wire := WireAll(s.accepted, c.beforeHttp11);
    assert wire + "" == wire;
    if !s.broken {
      var all := s.socket + InFlight(s) + s.saved;
      assert all[..|s.socket|] == s.socket;
      assert all <= wire + LAST;
    } else {
      assert wire <= wire + LAST;
    }
  }

  // Once the attachment is gone the peer has the accepted data, in order: decoded, or as it is before HTTP/1.1.
  lemma PeerGetsAcceptedData(c: Config, nwriters: nat, steps: seq<Step>)
    requires After(c, nwriters, steps).Some? && !c.rpcFailed
    requires var s := After(c, nwriters, steps).value; s.destroyed && !s.broken
    ensures var s := After(c, nwriters, steps).value;
            if c.beforeHttp11 then s.socket == Flatten(s.accepted)
            else (forall p <- s.accepted :: |p| < U32) ==> Decode(s.socket) == Some(Body(Flatten(s.accepted), ""))
  {
    hide After, WireAll, Flatten, Decode;
    Reachable(c, nwriters, steps);
    var s := After(c, nwriters, steps).value;
    var wire := WireAll(s.accepted, c.beforeHttp11);
    assert s.socket + "" + "" == s.socket && wire + "" == wire && LAST + "" == LAST;
    if c.beforeHttp11 {
      PlainIsJoined(s.accepted);
    } else if forall p <- s.accepted :: |p| < U32 {
      forall p <- s.accepted
        ensures 0 < |p| < U32
      {
        assert p != "";
      }
      BodyDecodes(s.accepted, "");
    }
  }

  // A failed RPC sends nothing at all, and nothing is accepted any more.
  lemma FailedRpcSendsNothing(c: Config, nwriters: nat, steps: seq<Step>, step: Step)
    requires After(c, nwriters, steps + [step]).Some? && c.rpcFailed
    ensures After(c, nwriters, steps).Some?
    ensures var (s, s') := (After(c, nwriters, steps).value, After(c, nwriters, steps + [step]).value);
            s'.socket == "" && (s.marker.Returned? ==> s'.accepted == s.accepted)
  {
    hide WireAll, Wire;
    assert (steps + [step])[..|steps|] == steps;
    Reachable(c, nwriters, steps);
    Reachable(c, nwriters, steps + [step]);
    var s := After(c, nwriters, steps).value;
    if step.Direct? {
      assert WriterInv(s, s.writers[step.i]);
    }
  }

  // The two checks of the destructor hold whenever it can run.
  lemma DestructorChecksHold(c: Config, nwriters: nat, steps: seq<Step>)
    requires After(c, nwriters, steps).Some? && Enabled(After(c, nwriters, steps).value, Destroy)
    ensures var s := After(c, nwriters, steps).value; !s.rpc.Running? && s.saved == ""
  {
    Reachable(c, nwriters, steps);
  }

  // Marker steps still to come at most.
  function MarkRank(m: MarkerPc): int
  {
    match m
    case NotStarted => 2 * MAX_TRY + 4
    case Trying(n, _) => 2 * (MAX_TRY + 1 - n) + 1
    case Flushing(_, n) => 2 * (MAX_TRY + 1 - n) + 2
    case Returned => 0
  }

  predicate IsMark(step: Step) { step.MarkStart? || step.MarkLocked? || step.MarkFlush? }

  function Marks(steps: seq<Step>): nat
  {
    if steps == [] then 0 else Marks(steps[..|steps| - 1]) + if IsMark(steps[|steps| - 1]) then 1 else 0
  }

  // Every marker step uses up rank; other steps leave it alone.
  lemma RankFalls(c: Config, s: State, step: Step)
    requires Inv(c, s) && Enabled(s, step)
    ensures MarkRank(Next(c, s, step).marker) + (if IsMark(step) then 1 else 0) <= MarkRank(s.marker)
  {
    hide WireAll, Wire, StreamInv;
  }

  lemma {:induction false} MarksAreBounded(c: Config, nwriters: nat, steps: seq<Step>)
    requires After(c, nwriters, steps).Some?
    ensures Marks(steps) + MarkRank(After(c, nwriters, steps).value.marker) <= 2 * MAX_TRY + 4
  {
    if steps != [] {
      hide WireAll, Wire, Next, Inv, MarkRank;
      var (prefix, step) := (steps[..|steps| - 1], steps[|steps| - 1]);
      MarksAreBounded(c, nwriters, prefix);
      Reachable(c, nwriters, prefix);
      RankFalls(c, After(c, nwriters, prefix).value, step);
    }
  }

  // Whatever writers do, MarkRPCAsDone returns: it takes at most ten steps of its own, at most four of them
  // socket writes, can always take the next one, and leaves the state decided and the writers unpaused.
  lemma MarkerTerminates(c: Config, nwriters: nat, steps: seq<Step>)
    requires After(c, nwriters, steps).Some?
    ensures var s := After(c, nwriters, steps).value;
            && Marks(steps) <= 2 * MAX_TRY + 4
            && s.flushes <= MAX_TRY + 1
            && (!s.marker.Returned? ==>
                  Marks(steps) < 2 * MAX_TRY + 4 && (Enabled(s, MarkStart) || Enabled(s, MarkLocked) || Enabled(s, MarkFlush)))
            && (s.marker.Returned? ==> !s.rpc.Running? && !s.pause)
  {
    hide WireAll;
    Reachable(c, nwriters, steps);
    MarksAreBounded(c, nwriters, steps);
  }

  predicate Bounded(c: Config, s: State, w: nat) { s.saved == "" || |s.saved| < c.maxUnwritten + w }

  // One step: data is only added to a buffer below its limit.
  lemma StepIsBounded(c: Config, s: State, step: Step, w: nat)
    requires Enabled(s, step) && Bounded(c, s, w)
    requires forall p <- Next(c, s, step).accepted :: |Wire(p, c.beforeHttp11)| <= w
    ensures Bounded(c, Next(c, s, step), w)
  {
    hide Wire;
    var s' := Next(c, s, step);
    if s'.accepted != s.accepted {
      assert s'.accepted[|s.accepted|] in s'.accepted;
    }
  }

  // The buffer exceeds its limit by less than one piece on the wire.
  lemma {:induction false} BufferIsBounded(c: Config, nwriters: nat, steps: seq<Step>, w: nat)
    requires After(c, nwriters, steps).Some?
    requires forall p <- After(c, nwriters, steps).value.accepted :: |Wire(p, c.beforeHttp11)| <= w
    ensures Bounded(c, After(c, nwriters, steps).value, w)
  {
    if steps != [] {
      hide Wire, Next, Bounded;
      var (prefix, step) := (steps[..|steps| - 1], steps[|steps| - 1]);
      var s := After(c, nwriters, prefix).value;
      AcceptedGrows(c, s, step);
      BufferIsBounded(c, nwriters, prefix, w);
      StepIsBounded(c, s, step, w);
    } else {
      hide Wire;
    }
  }

  lemma AcceptedGrows(c: Config, s: State, step: Step)
    requires Enabled(s, step)
    ensures forall p <- s.accepted :: p in Next(c, s, step).accepted
  {
    hide Wire;
  }

  // ---- what a write is answered ----

  // The run one step later.
  lemma OneLater(c: Config, nwriters: nat, steps: seq<Step>, step: Step)
    requires After(c, nwriters, steps + [step]).Some?
    ensures After(c, nwriters, steps).Some?
    ensures var s := After(c, nwriters, steps).value;
            Inv(c, s) && Enabled(s, step) && After(c, nwriters, steps + [step]) == Some(Next(c, s, step))
  {
    hide Next, Inv;
    var all := steps + [step];
    assert all[..|all| - 1] == steps && all[|all| - 1] == step;
    Reachable(c, nwriters, steps);
  }

  // A writer that comes with data is told to buffer it until MarkRPCAsDone has returned, and to write it itself from
  // then on. Empty data is dropped.
  lemma WriteEnters(c: Config, nwriters: nat, steps: seq<Step>, i: nat, data: string)
    requires After(c, nwriters, steps + [Load(i, data)]).Some?
    ensures After(c, nwriters, steps).Some?
    ensures var s := After(c, nwriters, steps).value;
            var s' := After(c, nwriters, steps + [Load(i, data)]).value;
            i < |s.writers| && s' ==
            if data == "" then s
            else if !s.marker.Returned? then s.(writers := s.writers[i := BeforeLock(data)])
            else s.(writers := s.writers[i := AfterLoad(data, if c.rpcFailed then Failed else Succeeded)])
  {
    hide After, StreamInv;
    OneLater(c, nwriters, steps, Load(i, data));
  }

  // Under the lock the data is accepted, behind what is saved, if and only if MarkRPCAsDone has not returned, has
  // not begun its last try, and the buffer is below its limit. If it has returned, the writer goes on to the direct
  // write.
  lemma BufferedIff(c: Config, nwriters: nat, steps: seq<Step>, i: nat)
    requires After(c, nwriters, steps + [Locked(i)]).Some?
    ensures After(c, nwriters, steps).Some?
    ensures var s := After(c, nwriters, steps).value;
            var s' := After(c, nwriters, steps + [Locked(i)]).value;
            && i < |s.writers| && s.writers[i].BeforeLock?
            && (if !s.marker.Returned? && |s.saved| < c.maxUnwritten && Tries(s.marker) <= 3 then
                  && s'.accepted == s.accepted + [s.writers[i].data]
                  && s'.saved == s.saved + Wire(s.writers[i].data, c.beforeHttp11)
                else s'.accepted == s.accepted && s'.saved == s.saved)
            && s'.writers[i] == (if s.marker.Returned? then AfterLoad(s.writers[i].data, s.rpc) else Idle)
  {
    hide After, StreamInv, Wire;
    OneLater(c, nwriters, steps, Locked(i));
  }

  // The direct write is accepted, behind what the socket took, if and only if the RPC succeeded and the socket is
  // neither broken nor overcrowded.
  lemma DirectIff(c: Config, nwriters: nat, steps: seq<Step>, i: nat, crowded: bool)
    requires After(c, nwriters, steps + [Direct(i, crowded)]).Some?
    ensures After(c, nwriters, steps).Some?
    ensures var s := After(c, nwriters, steps).value;
            var s' := After(c, nwriters, steps + [Direct(i, crowded)]).value;
            && i < |s.writers| && s.writers[i].AfterLoad? && s'.writers[i].Idle?
            && (if !c.rpcFailed && !s.broken && !crowded then
                  && s'.accepted == s.accepted + [s.writers[i].data]
                  && s'.socket == s.socket + Wire(s.writers[i].data, c.beforeHttp11)
                else s'.accepted == s.accepted && s'.socket == s.socket)
  {
    hide After, StreamInv, Wire;
    OneLater(c, nwriters, steps, Direct(i, crowded));
    var s := After(c, nwriters, steps).value;
    assert WriterInv(s, s.writers[i]) by { assert s.writers[i] in s.writers; }
  }

  // Nothing else is ever accepted, and a broken connection takes no more bytes.
  lemma OnlyWritesAreAccepted(c: Config, nwriters: nat, steps: seq<Step>, step: Step)
    requires After(c, nwriters, steps + [step]).Some?
    ensures After(c, nwriters, steps).Some?
    ensures var s := After(c, nwriters, steps).value;
            var s' := After(c, nwriters, steps + [step]).value;
            && (!step.Locked? && !step.Direct? ==> s'.accepted == s.accepted)
            && (s.broken ==> s'.broken && s'.socket == s.socket)
  {
    hide After, Inv, Wire;
    OneLater(c, nwriters, steps, step);
  }

  // ---- what the marker does ----

  // Whether the last flush met a broken connection.
  function FlushFailed(c: Config, nwriters: nat, steps: seq<Step>): bool
  {
    if steps == [] then false
    else
      var (prefix, step) := (steps[..|steps| - 1], steps[|steps| - 1]);
      if step.MarkFlush? then After(c, nwriters, prefix).Some? && After(c, nwriters, prefix).value.broken
      else FlushFailed(c, nwriters, prefix)
  }

  lemma {:induction false} PermanentErrorIs(c: Config, nwriters: nat, steps: seq<Step>)
    requires After(c, nwriters, steps).Some?
    ensures var s := After(c, nwriters, steps).value;
            && (s.marker.Trying? ==> s.marker.permanentError == FlushFailed(c, nwriters, steps))
            && (s.marker.NotStarted? || s.marker.Flushing? ==> !FlushFailed(c, nwriters, steps))
  {
    if steps != [] {
      hide Wire, WireAll;
      var (prefix, step) := (steps[..|steps| - 1], steps[|steps| - 1]);
      PermanentErrorIs(c, nwriters, prefix);
    }
  }

  // A round of MarkRPCAsDone settles the RPC if and only if nothing is saved, the RPC failed or the last flush did;
  // otherwise it takes all that is saved to the socket, outside the lock.
  lemma SettlesIff(c: Config, nwriters: nat, steps: seq<Step>)
    requires After(c, nwriters, steps + [MarkLocked]).Some?
    ensures After(c, nwriters, steps).Some?
    ensures var s := After(c, nwriters, steps).value;
            var s' := After(c, nwriters, steps + [MarkLocked]).value;
            && s.marker.Trying? && s'.saved == ""
            && (s'.marker.Returned? <==> s.saved == "" || c.rpcFailed || FlushFailed(c, nwriters, steps))
            && (if s'.marker.Returned? then s'.rpc == (if c.rpcFailed then Failed else Succeeded) && !s'.pause
                else s'.marker == Flushing(s.saved, s.marker.ntry + 1) && s'.rpc.Running?)
  {
    hide After, StreamInv, FlushFailed;
    OneLater(c, nwriters, steps, MarkLocked);
    PermanentErrorIs(c, nwriters, steps);
  }
}
