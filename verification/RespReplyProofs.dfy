/** Suspending the reply parser and resuming it never changes what is parsed. */
module RespReplyProofs {
  import opened Limits
  import opened Lines
  import opened RespHeader
  import opened RespReply

  // ---- inputs on which the parser does not depend on where the input was split ----

  // No empty header ("$\r\n") met on the way is made bad by a digit behind it, no array has more than INT_MAX
  // elements, and no line is longer than the limit that only incomplete lines are tested against.
  predicate Steady(r: Reply, buf: string)
    decreases |buf|, r, 1
  {
    if r.Suspended() then r.Resumable() ==> SteadySubs(r.subs[r.lastIndex..], buf)
    else if buf == "" then true
    else
      match buf[0]
      case '-' => CrlfPos(buf) < U32_MAX
      case '+' => CrlfPos(buf) < U32_MAX
      case ':' => SteadyHeader(buf, 3)
      case '$' => SteadyHeader(buf, 5)
      case '*' => SteadyArray(r, buf)
      case _ => true
  }

  predicate SteadyArray(r: Reply, buf: string)
    decreases |buf|, r, 0
  {
    && SteadyHeader(buf, 3)
    && var h := ScanHeader(buf);
       h.Value? && 0 < h.value <= U32_MAX ==> h.value <= INT_MAX && SteadySubs(Fresh(h.value), buf[h.size..])
  }

  predicate SteadySubs(todo: seq<Reply>, buf: string)
    decreases |buf|, todo, 2
  {
    todo == [] ||
    (&& Steady(todo[0], buf)
     && var p := Consume(todo[0], buf); p.err.Ok? ==> SteadySubs(todo[1..], p.rest))
  }

  // ---- resuming ----

  // Parsing b first and the rest later, against parsing b + c at once.
  ghost predicate Continues(r: Reply, b: string, c: string)
  {
    var p := Consume(r, b);
    if p.err.NotEnoughData? then
      Consume(p.reply, p.rest + c) == Consume(r, b + c) && Steady(p.reply, p.rest + c)
    else
      Consume(r, b + c) == p.(rest := p.rest + c)
  }

  // The list that continuing with the unfinished part of l and the bytes c leads to.
  function Continue(l: ParsedList, c: string): ParsedList
    requires l.ndone <= |l.replies|
  {
    var q := ConsumeSubs(l.replies[l.ndone..], l.rest + c);
    ParsedList(q.err, l.replies[..l.ndone] + q.replies, l.ndone + q.ndone, q.rest)
  }

  ghost predicate SubsContinue(todo: seq<Reply>, b: string, c: string)
  {
    var l := ConsumeSubs(todo, b);
    if l.err.NotEnoughData? then
      ConsumeSubs(todo, b + c) == Continue(l, c) && SteadySubs(l.replies[l.ndone..], l.rest + c)
    else
      ConsumeSubs(todo, b + c) == l.(rest := l.rest + c)
  }

  // Lines, integers and bulk strings leave everything in place until they are complete.
  lemma LineExtends(r: Reply, b: string, c: string)
    requires b != "" && b[0] != '\r' && CrlfPos(b + c) < U32_MAX
    ensures var p := ConsumeLine(r, b);
            if p.err.NotEnoughData? then p == Parsed(NotEnoughData, r, b)
            else ConsumeLine(r, b + c) == p.(rest := p.rest + c)
  {
    var p := CrlfPos(b);
    if p >= 0 {
      CrlfPosExtends(b, c);
      assert (b + c)[1..p] == b[1..p] && (b + c)[p + 2..] == b[p + 2..] + c;
    } else if CrlfPos(b + c) >= 0 {
      var q := CrlfPos(b + c);
      assert q + 1 >= |b| by { assert !CrlfAt(b, q); }
    }
  }

  lemma IntegerExtends(r: Reply, b: string, c: string)
    requires SteadyHeader(b + c, 3)
    ensures var p := ConsumeInteger(r, b);
            if p.err.NotEnoughData? then p == Parsed(NotEnoughData, r, b)
            else ConsumeInteger(r, b + c) == p.(rest := p.rest + c)
  {
    hide ScanHeader, SteadyHeader;
    if !ScanHeader(b).NeedMore? {
      SteadyHeaderExtends(b, c, 3);
    }
  }

  lemma BulkBodyExtends(r: Reply, b: string, n: nat, len: nat, c: string)
    requires n <= |b|
    ensures var p := BulkBody(r, b, n, len);
            if p.err.NotEnoughData? then p == Parsed(NotEnoughData, r, b)
            else BulkBody(r, b + c, n, len) == p.(rest := p.rest + c)
  {
    if |b| >= n + len + 2 {
      assert (b + c)[n..n + len] == b[n..n + len] && (b + c)[n + len + 2..] == b[n + len + 2..] + c;
    }
  }

  lemma BulkExtends(r: Reply, b: string, c: string)
    requires SteadyHeader(b + c, 5)
    ensures var p := ConsumeBulk(r, b);
            if p.err.NotEnoughData? then p == Parsed(NotEnoughData, r, b)
            else ConsumeBulk(r, b + c) == p.(rest := p.rest + c)
  {
    hide ScanHeader, SteadyHeader;
    if !ScanHeader(b).NeedMore? {
      SteadyHeaderExtends(b, c, 5);
      var h := ScanHeader(b);
      if h.Value? && h.value >= 0 {
        BulkBodyExtends(r, b, h.size, h.value, c);
      }
    }
  }

  // An array is suspended in the middle of its sub-replies once its header is there.
  lemma {:induction false} ArrayExtends(r: Reply, b: string, c: string)
    requires b != "" && SteadyArray(r, b + c)
    ensures var p := ConsumeArray(r, b);
            if p.err.NotEnoughData? then
              || p == Parsed(NotEnoughData, r, b)
              || (p.reply.Suspended() && Consume(p.reply, p.rest + c) == ConsumeArray(r, b + c) && Steady(p.reply, p.rest + c))
            else ConsumeArray(r, b + c) == p.(rest := p.rest + c)
    decreases |b|, r, 0
  {
    hide Consume, ConsumeSubs, SteadySubs, ScanHeader, SteadyHeader;
    if !ScanHeader(b).NeedMore? {
      SteadyHeaderExtends(b, c, 3);
      var h := ScanHeader(b);
      if h.Value? && 0 < h.value <= INT_MAX {
        SubsAlwaysContinue(Fresh(h.value), b[h.size..], c);
        var l := ConsumeSubs(Fresh(h.value), b[h.size..]);
        if l.err.NotEnoughData? {
          ArrayResumes(h.value, l, c);
        }
      }
    }
  }

  // A suspended array goes on exactly where its list of sub-replies stopped.
  lemma ArrayResumes(v: nat, l: ParsedList, c: string)
    requires v <= INT_MAX && |l.replies| == v && l.ndone <= v && l.err.NotEnoughData?
    ensures Opened(v, l).reply.Resumable()
    ensures Opened(v, l).reply.subs[Opened(v, l).reply.lastIndex..] == l.replies[l.ndone..]
    ensures Consume(Opened(v, l).reply, l.rest + c) == Opened(v, Continue(l, c))
  {
    hide ConsumeSubs, ConsumeArray, ConsumeLine, ConsumeInteger, ConsumeBulk;
    assert ToInt32(v) == v && ToInt32(l.ndone) == l.ndone;
    var q := ConsumeSubs(l.replies[l.ndone..], l.rest + c);
    assert ToInt32(l.ndone + q.ndone) == l.ndone + q.ndone;
  }

  lemma {:induction false} SuspendedContinues(r: Reply, b: string, c: string)
    requires r.Suspended() && Steady(r, b + c)
    ensures Continues(r, b, c)
    decreases |b|, r, 0
  {
    hide ConsumeSubs, SteadySubs, SteadyArray, ConsumeArray, ConsumeLine, ConsumeInteger, ConsumeBulk;
    if !r.Resumable() {
      return;
    }
    var todo := r.subs[r.lastIndex..];
    SubsAlwaysContinue(todo, b, c);
    var l := ConsumeSubs(todo, b);
    if l.err.NotEnoughData? {
      var r' := Resumed(r, l).reply;
      assert r'.subs[r'.lastIndex..] == l.replies[l.ndone..];
      var q := ConsumeSubs(l.replies[l.ndone..], l.rest + c);
      assert r'.subs[..r'.lastIndex] + q.replies == r.subs[..r.lastIndex] + (l.replies[..l.ndone] + q.replies);
    }
  }

  lemma {:induction false} AlwaysContinues(r: Reply, b: string, c: string)
    requires Steady(r, b + c)
    ensures Continues(r, b, c)
    decreases |b|, r, 1
  {
    hide ConsumeSubs, SteadySubs, SteadyArray, ConsumeArray, ConsumeLine, ConsumeInteger, ConsumeBulk, CrlfPos, SteadyHeader;
    if r.Suspended() {
      SuspendedContinues(r, b, c);
    } else if b == "" {
      assert b + c == c;
    } else {
      assert (b + c)[0] == b[0];
      match b[0]
      case '-' => LineExtends(r, b, c);
      case '+' => LineExtends(r, b, c);
      case ':' => IntegerExtends(r, b, c);
      case '$' => BulkExtends(r, b, c);
      case '*' => ArrayExtends(r, b, c);
      case _ =>
    }
  }

  // A complete reply in front of a list.
  function Push(r: Reply, l: ParsedList): ParsedList
  {
    ParsedList(l.err, [r] + l.replies, l.ndone + 1, l.rest)
  }

  lemma SubsAfterFirst(todo: seq<Reply>, buf: string)
    requires todo != [] && Consume(todo[0], buf).err.Ok?
    ensures var p := Consume(todo[0], buf); ConsumeSubs(todo, buf) == Push(p.reply, ConsumeSubs(todo[1..], p.rest))
  {
    hide Consume;
  }

  lemma SubsStopAtFirst(todo: seq<Reply>, buf: string)
    requires todo != [] && !Consume(todo[0], buf).err.Ok?
    ensures var p := Consume(todo[0], buf); ConsumeSubs(todo, buf) == ParsedList(p.err, [p.reply] + todo[1..], 0, p.rest)
  {
    hide Consume;
  }

  lemma PushContinue(r: Reply, l: ParsedList, c: string)
    requires l.ndone <= |l.replies|
    ensures Push(r, l).replies[l.ndone + 1..] == l.replies[l.ndone..]
    ensures Continue(Push(r, l), c) == Push(r, Continue(l, c))
  {
    hide ConsumeSubs;
    var all := [r] + l.replies;
    assert all[l.ndone + 1..] == l.replies[l.ndone..];
    assert all[..l.ndone + 1] == [r] + l.replies[..l.ndone];
  }

  // The first sub-reply of the list is in, and the others continue.
  lemma OthersContinue(todo: seq<Reply>, b: string, c: string)
    requires todo != [] && Consume(todo[0], b).err.Ok? && Continues(todo[0], b, c)
    requires SubsContinue(todo[1..], Consume(todo[0], b).rest, c)
    ensures SubsContinue(todo, b, c)
  {
    hide Consume, ConsumeSubs, Steady, SteadySubs, Continue;
    var p := Consume(todo[0], b);
    SubsAfterFirst(todo, b);
    SubsAfterFirst(todo, b + c);
    PushContinue(p.reply, ConsumeSubs(todo[1..], p.rest), c);
  }

  // The first sub-reply is suspended.
  lemma FirstSuspends(todo: seq<Reply>, b: string, c: string)
    requires todo != [] && Consume(todo[0], b).err.NotEnoughData? && Continues(todo[0], b, c)
    requires SteadySubs(todo, b + c)
    ensures SubsContinue(todo, b, c)
  {
    hide Consume, Steady;
    var p := Consume(todo[0], b);
    var l := ConsumeSubs(todo, b);
    assert l.replies[0..] == l.replies == [p.reply] + todo[1..];
    assert l.replies[1..] == todo[1..];
    var q := ConsumeSubs(l.replies, l.rest + c);
    assert l.replies[..0] + q.replies == q.replies;
  }

  lemma {:induction false} SubsAlwaysContinue(todo: seq<Reply>, b: string, c: string)
    requires SteadySubs(todo, b + c)
    ensures SubsContinue(todo, b, c)
    decreases |b|, todo, 2
  {
    hide Consume, Steady;
    if todo != [] {
      AlwaysContinues(todo[0], b, c);
      var p := Consume(todo[0], b);
      if p.err.Ok? {
        SubsAlwaysContinue(todo[1..], p.rest, c);
        OthersContinue(todo, b, c);
      } else if p.err.NotEnoughData? {
        FirstSuspends(todo, b, c);
      }
    }
  }
}
