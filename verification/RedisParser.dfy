/** The reply reader and writer as loops over a byte queue. */
module RedisParser {
  import opened Limits
  import opened RespHeader
  import opened IoBuf
  import opened RespReply
  import opened RespReplyProofs

  // Parse states that parsing can produce: the stored length is the number of sub-replies, as an int.
  predicate Consistent(r: Reply)
    decreases r
  {
    r.Array? ==>
      && r.length == ToInt32(|r.subs|)
      && |r.subs| <= U32_MAX
      && forall s <- r.subs :: Consistent(s)
  }

  // RedisReply::ConsumePartialIOBuf. The sub-reply array is a value: `r` is the reply as the call leaves it.
  method ConsumePartialIOBuf(reply: Reply, buf: IOBuf) returns (err: ParseError, r: Reply)
    requires Consistent(reply)
    modifies buf
    ensures Parsed(err, r, buf.bytes) == old(Consume(reply, buf.bytes))
    ensures Consistent(r)
    decreases |buf.bytes|, reply, 1
  {
    if reply.Array? && reply.lastIndex >= 0 {
      // An earlier call stopped among the sub-replies: go on there.
      err, r := ContinueArray(reply, buf);
    } else if buf.bytes == "" {
      err, r := NotEnoughData, reply;
    } else {
      match buf.bytes[0]
      case '-' => err, r := CutLine(reply, buf);
      case '+' => err, r := CutLine(reply, buf);
      case ':' => err, r := CutInteger(reply, buf);
      case '$' => err, r := CutBulk(reply, buf);
      case '*' => err, r := BeginArray(reply, buf);
      case _ => err, r := AbsolutelyWrong, reply;
    }
  }

  method ContinueArray(reply: Reply, buf: IOBuf) returns (err: ParseError, r: Reply)
    requires Consistent(reply) && reply.Suspended()
    modifies buf
    ensures Parsed(err, r, buf.bytes) == old(Consume(reply, buf.bytes))
    ensures Consistent(r)
    decreases |buf.bytes|, reply, 0
  {
    if reply.lastIndex < reply.length {
      var subs, ndone;
      err, subs, ndone := ConsumeSubReplies(reply.subs[reply.lastIndex..], buf);
      r := Array(reply.length, reply.subs[..reply.lastIndex] + subs, if err.Ok? then -1 else reply.lastIndex + ndone);
    } else {
      err, r := Ok, reply.(lastIndex := -1);
      assert reply.Resumable() ==> reply.subs[reply.lastIndex..] == [] && reply.subs[..reply.lastIndex] + [] == reply.subs;
    }
  }

  method CutLine(reply: Reply, buf: IOBuf) returns (err: ParseError, r: Reply)
    requires Consistent(reply) && buf.bytes != "" && buf.bytes[0] != '\r'
    modifies buf
    ensures Parsed(err, r, buf.bytes) == old(ConsumeLine(reply, buf.bytes))
    ensures Consistent(r)
  {
    var fc := buf.bytes[0];
    var found, str := buf.CutUntilCrlf();
    if found {
      err, r := Ok, if fc == '-' then Error(str[1..]) else Status(str[1..]);
    } else {
      err, r := if |buf.bytes| > U32_MAX then AbsolutelyWrong else NotEnoughData, reply;
    }
  }

  method CutInteger(reply: Reply, buf: IOBuf) returns (err: ParseError, r: Reply)
    requires Consistent(reply)
    modifies buf
    ensures Parsed(err, r, buf.bytes) == old(ConsumeInteger(reply, buf.bytes))
    ensures Consistent(r)
  {
    r := reply;
    match ScanHeader(buf.bytes)
    case NeedMore => err := NotEnoughData;
    case Bad => err := AbsolutelyWrong;
    case Value(value, n) =>
      buf.PopFront(n);
      err, r := Ok, Integer(value);
  }

  method BeginArray(reply: Reply, buf: IOBuf) returns (err: ParseError, r: Reply)
    requires Consistent(reply)
    modifies buf
    ensures Parsed(err, r, buf.bytes) == old(ConsumeArray(reply, buf.bytes))
    ensures Consistent(r)
    decreases |buf.bytes|, reply, 0
  {
    r := reply;
    match ScanHeader(buf.bytes)
    case NeedMore => err := NotEnoughData;
    case Bad => err := AbsolutelyWrong;
    case Value(count, n) =>
      if count < 0 {
        buf.PopFront(n);
        err, r := Ok, Nil;
      } else if count == 0 {
        buf.PopFront(n);
        err, r := Ok, Array(0, [], -1);
      } else if count > U32_MAX {
        err := AbsolutelyWrong;
      } else {
        buf.PopFront(n);
        var subs, ndone;
        err, subs, ndone := ConsumeSubReplies(Fresh(count), buf);
        r := Array(ToInt32(count), subs, if err.Ok? then -1 else ToInt32(ndone));
      }
  }

  method CutBulk(reply: Reply, buf: IOBuf) returns (err: ParseError, r: Reply)
    requires Consistent(reply)
    modifies buf
    ensures Parsed(err, r, buf.bytes) == old(ConsumeBulk(reply, buf.bytes))
    ensures Consistent(r)
  {
    r := reply;
    match ScanHeader(buf.bytes)
    case NeedMore => err := NotEnoughData;
    case Bad => err := AbsolutelyWrong;
    case Value(len, n) =>
      if len < 0 {
        buf.PopFront(n);
        err, r := Ok, Nil;
      } else {
        err, r := CutBulkBody(reply, buf, n, len);
      }
  }

  method CutBulkBody(reply: Reply, buf: IOBuf, n: nat, len: nat) returns (err: ParseError, r: Reply)
    requires Consistent(reply) && n <= |buf.bytes|
    modifies buf
    ensures Parsed(err, r, buf.bytes) == old(BulkBody(reply, buf.bytes, n, len))
    ensures Consistent(r)
  {
    r := reply;
    if len > U32_MAX {
      return AbsolutelyWrong, r;
    }
    if |buf.bytes| < n + len + 2 {
      return NotEnoughData, r;
    }
    ghost var b := buf.bytes;
    assert b[n..][..len] == b[n..n + len] && b[n..][len..][2..] == b[n + len + 2..];
    buf.PopFront(n);
    var text := buf.Cutn(len);
    r := Str(text);
    var crlf := buf.Cutn(2);
    err := if crlf[0] != '\r' || crlf[1] != '\n' then AbsolutelyWrong else Ok;
  }

  // The list parsed so far and what remains of it.
  ghost predicate Progress(all: ParsedList, todo: seq<Reply>, subs: seq<Reply>, ndone: nat, bytes: string)
  {
    && ndone <= |todo| == |subs|
    && subs[ndone..] == todo[ndone..]
    && var l := ConsumeSubs(todo[ndone..], bytes);
       all == ParsedList(l.err, subs[..ndone] + l.replies, ndone + l.ndone, l.rest)
  }

  lemma OneMore(all: ParsedList, todo: seq<Reply>, subs: seq<Reply>, ndone: nat, bytes: string)
    requires Progress(all, todo, subs, ndone, bytes) && ndone < |todo|
    ensures var p := Consume(todo[ndone], bytes);
            var subs' := subs[ndone := p.reply];
            if p.err.Ok? then Progress(all, todo, subs', ndone + 1, p.rest)
            else all == ParsedList(p.err, subs', ndone, p.rest)
  {
    hide Consume, ConsumeSubs;
    var p := Consume(todo[ndone], bytes);
    var rest := todo[ndone..];
    assert rest[0] == todo[ndone] && rest[1..] == todo[ndone + 1..];
    var subs' := subs[ndone := p.reply];
    assert subs' == subs[..ndone] + ([p.reply] + rest[1..]) by {
      assert subs == subs[..ndone] + rest;
    }
    if p.err.Ok? {
      SubsAfterFirst(rest, bytes);
      var l := ConsumeSubs(rest[1..], p.rest);
      assert subs'[..ndone + 1] + l.replies == subs[..ndone] + ([p.reply] + l.replies);
    } else {
      SubsStopAtFirst(rest, bytes);
    }
  }

  // The loop over sub-replies, both for a new array and for one that goes on.
  method ConsumeSubReplies(todo: seq<Reply>, buf: IOBuf) returns (err: ParseError, subs: seq<Reply>, ndone: nat)
    requires forall s <- todo :: Consistent(s)
    modifies buf
    ensures ParsedList(err, subs, ndone, buf.bytes) == old(ConsumeSubs(todo, buf.bytes))
    ensures forall s <- subs :: Consistent(s)
    decreases |buf.bytes|, todo, 2
  {
    ghost var all := ConsumeSubs(todo, buf.bytes);
    subs, ndone := todo, 0;
    assert todo[0..] == todo && todo[..0] + all.replies == all.replies;
    while ndone < |todo|
      invariant Progress(all, todo, subs, ndone, buf.bytes) && |buf.bytes| <= old(|buf.bytes|)
      invariant forall s <- subs :: Consistent(s)
    {
      var sub;
      assert todo[ndone] == todo[ndone..][0] == subs[ndone..][0] == subs[ndone];
      OneMore(all, todo, subs, ndone, buf.bytes);
      err, sub := ConsumePartialIOBuf(subs[ndone], buf);
      subs := subs[ndone := sub];
      if !err.Ok? {
        return;
      }
      ndone := ndone + 1;
    }
    err := Ok;
    assert subs[..ndone] + [] == subs;
  }
}
