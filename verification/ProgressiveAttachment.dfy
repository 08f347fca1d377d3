/** The attachment object itself: its fields, its critical sections, and MarkRPCAsDone among other threads. */
module ProgressiveAttachment {
  import opened Options
  import opened Errno
  import opened IoBuf
  import opened ChunkedCoding
  import opened Attachment

  class Socket {
    var bytes: string
    var broken: bool

    constructor ()
      ensures bytes == "" && !broken
    {
      bytes, broken := "", false;
    }

    method Write(data: string, crowded: bool) returns (ok: bool)
      modifies this
      ensures ok == (!broken && !crowded) && broken == old(broken)
      ensures bytes == if ok then old(bytes) + data else old(bytes)
    {
      ok := !broken && !crowded;
      if ok {
        bytes := bytes + data;
      }
    }
  }

  class ProgressiveAttachment {
    const beforeHttp11: bool
    const maxUnwritten: nat
    const httpsock: Socket
    const savedBuf: IOBuf
    var pause: bool
    var rpcState: RpcState
    var writers: seq<WriterPc>    // the locals of threads inside Write()
    ghost var marker: MarkerPc    // those of the thread inside MarkRPCAsDone()
    ghost var accepted: seq<string>
    ghost var flushes: nat

    constructor (beforeHttp11: bool, maxUnwritten: nat, nwriters: nat)
      ensures View() == Init(nwriters) && fresh(httpsock) && fresh(savedBuf)
      ensures this.beforeHttp11 == beforeHttp11 && this.maxUnwritten == maxUnwritten
    {
      this.beforeHttp11, this.maxUnwritten := beforeHttp11, maxUnwritten;
      httpsock := new Socket();
      savedBuf := new IOBuf();
      pause, rpcState, writers := false, Running, seq(nwriters, i => Idle);
      marker, accepted, flushes := NotStarted, [], 0;
    }

    ghost function View(): State
      reads this, httpsock, savedBuf
    {
      State(rpcState, savedBuf.bytes, pause, httpsock.bytes, httpsock.broken, writers, marker, accepted, flushes, false)
    }

    function Conf(rpcFailed: bool): Config { Config(beforeHttp11, maxUnwritten, rpcFailed) }

    // ---- Write() ----

    method LoadState(ghost rpcFailed: bool, i: nat, data: string)
      requires Enabled(View(), Load(i, data))
      modifies this
      ensures View() == Next(Conf(rpcFailed), old(View()), Load(i, data))
    {
      if data != "" {
        writers := writers[i := if rpcState.Running? then BeforeLock(data) else AfterLoad(data, rpcState)];
      }
    }

    method WriteLocked(ghost rpcFailed: bool, i: nat) returns (errno: int)
      requires Enabled(View(), Locked(i))
      modifies this, savedBuf
      ensures View() == Next(Conf(rpcFailed), old(View()), Locked(i))
      ensures errno == if old(rpcState.Running? && (|savedBuf.bytes| >= maxUnwritten || pause)) then EOVERCROWDED else 0
      ensures accepted == old(accepted) + if errno == 0 && old(rpcState.Running?) then [old(writers[i].data)] else []
    {
      hide Wire;
      var data := writers[i].data;
      errno := 0;
      if rpcState.Running? {
        if |savedBuf.bytes| >= maxUnwritten || pause {
          errno := EOVERCROWDED;
        } else {
          AppendAsChunk(savedBuf, data, beforeHttp11);
          accepted := accepted + [data];
        }
        writers := writers[i := Idle];
      } else {
        writers := writers[i := AfterLoad(data, rpcState)];
      }
    }

    // The socket reports its own error, here any code but 0 and ECANCELED.
    method WriteDirect(ghost rpcFailed: bool, i: nat, crowded: bool) returns (ok: bool, canceled: bool)
      requires Enabled(View(), Direct(i, crowded))
      modifies this, httpsock
      ensures View() == Next(Conf(rpcFailed), old(View()), Direct(i, crowded))
      ensures canceled == !old(writers[i]).seen.Succeeded? && ok == (!canceled && !old(httpsock.broken) && !crowded)
      ensures accepted == old(accepted) + if ok then [old(writers[i].data)] else []
    {
      hide Wire;
      var (data, seen) := (writers[i].data, writers[i].seen);
      ok, canceled := false, !seen.Succeeded?;
      if seen.Succeeded? {
        var tmpbuf := new IOBuf();
        AppendAsChunk(tmpbuf, data, beforeHttp11);
        assert tmpbuf.bytes == Wire(data, beforeHttp11);
        ok := httpsock.Write(tmpbuf.bytes, crowded);
        if ok {
          accepted := accepted + [data];
        }
      }
      writers := writers[i := Idle];
    }

    // One step of a thread inside Write(), or the connection failing; nothing if it cannot happen now.
    method OtherStep(ghost rpcFailed: bool, step: Step) returns (taken: bool)
      modifies this, savedBuf, httpsock
      ensures taken == (Enabled(old(View()), step) && !IsMark(step) && !step.Destroy?)
      ensures View() == if taken then Next(Conf(rpcFailed), old(View()), step) else old(View())
    {
      hide Wire;
      taken := true;
      match step {
      case Load(i, data) =>
        if i < |writers| && writers[i].Idle? {
          LoadState(rpcFailed, i, data);
          return;
        }
      case Locked(i) =>
        if i < |writers| && writers[i].BeforeLock? {
          var _ := WriteLocked(rpcFailed, i);
          return;
        }
      case Direct(i, crowded) =>
        if i < |writers| && writers[i].AfterLoad? {
          var _, _ := WriteDirect(rpcFailed, i, crowded);
          return;
        }
      case Break =>
        httpsock.broken := true;
        return;
      case _ =>
      }
      taken := false;
    }

    // What other threads do before the next step of MarkRPCAsDone, added to the steps of the run so far.
    method OtherSteps(rpcFailed: bool, steps: seq<Step>, run: seq<Step>, ghost start: State) returns (run': seq<Step>)
      requires Inv(Conf(rpcFailed), start) && Run(Conf(rpcFailed), start, run) == Some(View())
      modifies this, savedBuf, httpsock
      ensures Run(Conf(rpcFailed), start, run') == Some(View()) && Inv(Conf(rpcFailed), View())
      ensures marker == old(marker) && flushes == old(flushes)
    {
      hide Wire, Inv, Next;
      run' := run;
      for k := 0 to |steps|
        invariant Run(Conf(rpcFailed), start, run') == Some(View())
        invariant marker == old(marker) && flushes == old(flushes)
      {
        ghost var before := View();
        var taken := OtherStep(rpcFailed, steps[k]);
        if taken {
          OthersLeaveMarker(Conf(rpcFailed), before, steps[k]);
          RunSnoc(Conf(rpcFailed), start, run', steps[k]);
          run' := run' + [steps[k]];
        }
      }
      RunKeeps(Conf(rpcFailed), start, run');
    }

    // ---- MarkRPCAsDone() ----

    // One round under the lock. Returns whether to go on, and the buffer to flush.
    method SwapLocked(rpcFailed: bool, permanentError: bool, ntry: nat) returns (more: bool, copied: string, ntry': nat)
      requires marker == Trying(ntry, permanentError)
      modifies this, savedBuf
      ensures View() == Next(Conf(rpcFailed), old(View()), MarkLocked)
      ensures marker == (if more then Flushing(copied, ntry') else Returned) && (more ==> ntry' == ntry + 1)
    {
      copied, ntry' := "", ntry;
      more := savedBuf.bytes != "" && !permanentError && !rpcFailed;
      if !more {
        savedBuf.bytes := "";
        pause := false;
        rpcState := if rpcFailed then Failed else Succeeded;
        marker := Returned;
        return;
      }
      ntry' := ntry + 1;
      if ntry' > MAX_TRY {
        pause := true;
      }
      copied := savedBuf.bytes;
      savedBuf.bytes := "";
      marker := Flushing(copied, ntry');
    }

    method Flush(rpcFailed: bool, copied: string, ghost ntry: nat) returns (permanentError: bool)
      requires marker == Flushing(copied, ntry)
      modifies this, httpsock
      ensures View() == Next(Conf(rpcFailed), old(View()), MarkFlush)
      ensures marker == Trying(ntry, permanentError)
    {
      var ok := httpsock.Write(copied, false);
      permanentError := !ok;
      marker, flushes := Trying(ntry, permanentError), flushes + 1;
    }

    // The two halves of a round, each after some steps of other threads.
    method SwapRound(rpcFailed: bool, permanentError: bool, ntry: nat, others: seq<Step>, run: seq<Step>, ghost start: State)
      returns (more: bool, copied: string, ntry': nat, run': seq<Step>)
      requires Inv(Conf(rpcFailed), start) && Run(Conf(rpcFailed), start, run) == Some(View())
      requires marker == Trying(ntry, permanentError)
      modifies this, savedBuf, httpsock
      ensures Run(Conf(rpcFailed), start, run') == Some(View()) && Inv(Conf(rpcFailed), View())
      ensures marker == (if more then Flushing(copied, ntry') else Returned) && (more ==> ntry' == ntry + 1)
    {
      hide Inv, Run, Next;
      run' := OtherSteps(rpcFailed, others, run, start);
      RunSnoc(Conf(rpcFailed), start, run', MarkLocked);
      run' := run' + [MarkLocked];
      more, copied, ntry' := SwapLocked(rpcFailed, permanentError, ntry);
      RunKeeps(Conf(rpcFailed), start, run');
    }

    method FlushRound(rpcFailed: bool, copied: string, ghost ntry: nat, others: seq<Step>, run: seq<Step>, ghost start: State)
      returns (permanentError: bool, run': seq<Step>)
      requires Inv(Conf(rpcFailed), start) && Run(Conf(rpcFailed), start, run) == Some(View())
      requires marker == Flushing(copied, ntry)
      modifies this, savedBuf, httpsock
      ensures Run(Conf(rpcFailed), start, run') == Some(View()) && marker == Trying(ntry, permanentError)
    {
      hide Inv, Run, Next;
      run' := OtherSteps(rpcFailed, others, run, start);
      RunSnoc(Conf(rpcFailed), start, run', MarkFlush);
      run' := run' + [MarkFlush];
      permanentError := Flush(rpcFailed, copied, ntry);
    }

    // The whole call, with `others(k)` done by other threads before its k-th step. It always returns, the run is
    // one of the step system, and whatever the others do it leaves the state decided, unpaused and flushed.
    method MarkRPCAsDone(rpcFailed: bool, others: nat -> seq<Step>) returns (run: seq<Step>)
      requires Inv(Conf(rpcFailed), View()) && marker.NotStarted?
      modifies this, savedBuf, httpsock
      ensures Run(Conf(rpcFailed), old(View()), run) == Some(View()) && Inv(Conf(rpcFailed), View())
      ensures rpcState == (if rpcFailed then Failed else Succeeded) && !pause && savedBuf.bytes == ""
      ensures flushes <= MAX_TRY + 1
    {
      hide Inv, Run, Next;
      ghost var start := View();
      run := [MarkStart];
      marker := Trying(0, false);
      MarkStarts(Conf(rpcFailed), start);
      var ntry: nat, permanentError, more, k: nat := 0, false, true, 0;
      while true
        invariant Run(Conf(rpcFailed), start, run) == Some(View())
        invariant marker == Trying(ntry, permanentError)
        decreases MAX_TRY + 1 - ntry
      {
        var copied;
        more, copied, ntry, run := SwapRound(rpcFailed, permanentError, ntry, others(k), run, start);
        MarkerFacts(Conf(rpcFailed), View());
        if !more {
          return;
        }
        permanentError, run := FlushRound(rpcFailed, copied, ntry, others(k + 1), run, start);
        k := k + 2;
      }
    }
  }

  lemma RunSnoc(c: Config, s: State, steps: seq<Step>, step: Step)
    requires Run(c, s, steps).Some? && Enabled(Run(c, s, steps).value, step)
    ensures Run(c, s, steps + [step]) == Some(Next(c, Run(c, s, steps).value, step))
  {
    hide Next;
    assert (steps + [step])[..|steps|] == steps;
  }

  lemma MarkStarts(c: Config, s: State)
    requires Enabled(s, MarkStart)
    ensures Run(c, s, [MarkStart]) == Some(s.(marker := Trying(0, false)))
  {
    assert [MarkStart][..0] == [];
  }

  lemma MarkerFacts(c: Config, s: State)
    requires Inv(c, s)
    ensures s.flushes <= MAX_TRY + 1 && (s.marker.Flushing? ==> s.marker.ntry <= MAX_TRY + 1)
    ensures s.marker.Returned? ==> s.rpc == (if c.rpcFailed then Failed else Succeeded) && !s.pause && s.saved == ""
  {
    hide StreamInv;
  }

  lemma OthersLeaveMarker(c: Config, s: State, step: Step)
    requires Enabled(s, step) && !IsMark(step) && !step.Destroy?
    ensures Next(c, s, step).marker == s.marker && Next(c, s, step).flushes == s.flushes
  {
    hide Wire;
  }
}
