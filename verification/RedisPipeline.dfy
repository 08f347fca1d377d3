/** A response that collects a known number of pipelined replies, and the writer of replies. */
module RedisPipeline {
  import opened Limits
  import opened Decimals
  import opened IoBuf
  import opened RespReply
  import opened RespRoundTrip
  import opened RedisParser

  // The number of replies a response waits for: one even when fewer are asked for.
  function Expected(replyCount: int): (count: nat)
    ensures count >= 1
  {
    if replyCount > 1 then replyCount else 1
  }

  class RedisResponse {
    var firstReply: Reply
    var otherReplies: seq<Reply>    // empty until a second reply is expected
    var nreply: nat

    constructor ()
      ensures firstReply == Nil && otherReplies == [] && nreply == 0
    {
      firstReply, otherReplies, nreply := Nil, [], 0;
    }

    // Waiting for `count` replies, nreply of which are complete.
    ghost predicate Valid(count: nat)
      reads this
    {
      && 1 <= count && nreply <= count
      && (otherReplies == [] || |otherReplies| == count - 1)
      && (nreply > 1 ==> otherReplies != [])
      && Consistent(firstReply)
      && forall s <- otherReplies :: Consistent(s)
    }

    ghost function Slots(count: nat): seq<Reply>
      requires count >= 1
      reads this
    {
      [firstReply] + if otherReplies == [] then Fresh(count - 1) else otherReplies
    }

    // Parse the slot after the complete ones.
    method ParseNext(buf: IOBuf, ghost count: nat) returns (err: ParseError)
      requires Valid(count) && nreply < count && (nreply > 0 ==> otherReplies != [])
      modifies this, buf
      ensures Valid(count) && (otherReplies == []) == old(otherReplies == [])
      ensures var p := old(Consume(Slots(count)[nreply], buf.bytes));
              && err == p.err
              && nreply == old(nreply) + (if err.Ok? then 1 else 0)
              && Slots(count) == old(Slots(count)[nreply := p.reply])
              && buf.bytes == p.rest
    {
      hide Consume;
      var r;
      if nreply == 0 {
        err, r := RedisParser.ConsumePartialIOBuf(firstReply, buf);
        firstReply := r;
      } else {
        err, r := RedisParser.ConsumePartialIOBuf(otherReplies[nreply - 1], buf);
        otherReplies := otherReplies[nreply - 1 := r];
      }
      if err.Ok? {
        nreply := nreply + 1;
      }
    }

    // Parse slots until `count` are complete or one is not. Ghost: the call started with `slots`, n0 complete.
    method ParseRest(buf: IOBuf, count: nat, ghost all: ParsedList, ghost slots: seq<Reply>, ghost n0: nat)
      returns (err: ParseError)
      requires Valid(count) && (count > 1 ==> otherReplies != []) && |slots| == count
      requires Pipeline(all, slots, n0, Slots(count), nreply, buf.bytes)
      modifies this, buf
      ensures Valid(count)
      ensures ParsedList(err, Slots(count), nreply, buf.bytes) ==
              ParsedList(all.err, slots[..n0] + all.replies, n0 + all.ndone, all.rest)
    {
      hide Pipeline, Consume;
      while nreply < count
        invariant Valid(count) && (count > 1 ==> otherReplies != [])
        invariant Pipeline(all, slots, n0, Slots(count), nreply, buf.bytes)
      {
        PipelineStep(all, slots, n0, Slots(count), nreply, buf.bytes);
        err := ParseNext(buf, count);
        if !err.Ok? {
          return;
        }
      }
      err := Ok;
      PipelineDone(all, slots, n0, Slots(count), buf.bytes);
    }

    method ConsumePartialIOBuf(buf: IOBuf, replyCount: int) returns (err: ParseError)
      requires Valid(Expected(replyCount))
      modifies this, buf
      ensures var count := Expected(replyCount);
              var l := old(ConsumeSubs(Slots(count)[nreply..], buf.bytes));
              && Valid(count)
              && ParsedList(err, Slots(count), nreply, buf.bytes) ==
                 ParsedList(l.err, old(Slots(count)[..nreply]) + l.replies, old(nreply) + l.ndone, l.rest)
    {
      hide Pipeline, ConsumeSubs, Consume;
      var count := Expected(replyCount);
      ghost var slots, n0 := Slots(count), nreply;
      ghost var all := ConsumeSubs(slots[n0..], buf.bytes);
      PipelineStarts(slots, n0, buf.bytes);
      if nreply == 0 {
        PipelineStep(all, slots, n0, slots, nreply, buf.bytes);
        err := ParseNext(buf, count);
        if !err.Ok? {
          return;
        }
      }
      if replyCount > 1 && otherReplies == [] {
        otherReplies := Fresh(replyCount - 1);
      }
      err := ParseRest(buf, count, all, slots, n0);
    }
  }

  // The slots in the middle of a call that started with `slots`, n0 of them complete.
  ghost predicate Pipeline(all: ParsedList, slots: seq<Reply>, n0: nat, now: seq<Reply>, n: nat, bytes: string)
  {
    && n0 <= n <= |slots| == |now|
    && now[..n0] == slots[..n0]
    && Progress(all, slots[n0..], now[n0..], n - n0, bytes)
  }

  lemma PipelineStarts(slots: seq<Reply>, n0: nat, bytes: string)
    requires n0 <= |slots|
    ensures Pipeline(ConsumeSubs(slots[n0..], bytes), slots, n0, slots, n0, bytes)
  {
    var todo := slots[n0..];
    assert todo[0..] == todo;
    assert todo[..0] + ConsumeSubs(todo, bytes).replies == ConsumeSubs(todo, bytes).replies;
  }

  lemma PipelineStep(all: ParsedList, slots: seq<Reply>, n0: nat, now: seq<Reply>, n: nat, bytes: string)
    requires Pipeline(all, slots, n0, now, n, bytes) && n < |slots|
    ensures var p := Consume(now[n], bytes);
            var now' := now[n := p.reply];
            if p.err.Ok? then Pipeline(all, slots, n0, now', n + 1, p.rest)
            else all == ParsedList(p.err, now'[n0..], n - n0, p.rest) && now' == slots[..n0] + all.replies
  {
    var todo, subs, k := slots[n0..], now[n0..], n - n0;
    assert todo[k] == todo[k..][0] == subs[k..][0] == now[n];
    OneMore(all, todo, subs, k, bytes);
    var now' := now[n := Consume(now[n], bytes).reply];
    assert now'[n0..] == subs[k := now'[n]] && now'[..n0] == now[..n0];
    assert now' == now'[..n0] + now'[n0..];
  }

  lemma PipelineDone(all: ParsedList, slots: seq<Reply>, n0: nat, now: seq<Reply>, bytes: string)
    requires Pipeline(all, slots, n0, now, |slots|, bytes)
    ensures all == ParsedList(Ok, now[n0..], |slots| - n0, bytes) && now == slots[..n0] + all.replies
  {
    var subs := now[n0..];
    assert slots[n0..][|slots| - n0..] == [];
    assert subs[..|slots| - n0] + [] == subs;
    assert now == now[..n0] + subs;
  }

  // The slots in the middle of a delivery that ends in `all`.
  ghost predicate Delivery(all: ParsedList, slots: seq<Reply>, n: nat, bytes: string, chunks: seq<string>)
  {
    && n <= |slots|
    && var q := Feed(slots[n..], bytes, chunks);
       all == ParsedList(q.err, slots[..n] + q.replies, n + q.ndone, q.rest)
  }

  lemma DeliveryStep(all: ParsedList, slots: seq<Reply>, n: nat, bytes: string, chunks: seq<string>)
    requires Delivery(all, slots, n, bytes, chunks)
    ensures var l := ConsumeSubs(slots[n..], bytes);
            var slots' := slots[..n] + l.replies;
            if !l.err.NotEnoughData? || chunks == [] then
              all == ParsedList(l.err, slots', n + l.ndone, l.rest + Flatten(chunks))
            else
              Delivery(all, slots', n + l.ndone, l.rest + chunks[0], chunks[1..])
  {
    hide ConsumeSubs;
    var l := ConsumeSubs(slots[n..], bytes);
    var slots' := slots[..n] + l.replies;
    assert slots'[n + l.ndone..] == l.replies[l.ndone..];
    assert slots'[..n + l.ndone] == slots[..n] + l.replies[..l.ndone];
  }

  // A connection that reads replies while pieces of input arrive.
  method Receive(replyCount: int, chunks: seq<string>) returns (resp: RedisResponse, buf: IOBuf, err: ParseError)
    ensures fresh(resp) && fresh(buf) && resp.Valid(Expected(replyCount))
    ensures ParsedList(err, resp.Slots(Expected(replyCount)), resp.nreply, buf.bytes) ==
            Feed(Fresh(Expected(replyCount)), "", chunks)
  {
    hide Delivery, Feed, ConsumeSubs;
    ghost var count := Expected(replyCount);
    resp := new RedisResponse();
    buf := new IOBuf();
    var i := 0;
    ghost var all := Feed(Fresh(count), "", chunks);
    assert resp.Slots(count) == Fresh(count) && chunks[0..] == chunks;
    DeliveryStarts(Fresh(count), chunks);
    while true
      invariant 0 <= i <= |chunks| && resp.Valid(count) && fresh(resp) && fresh(buf)
      invariant Delivery(all, resp.Slots(count), resp.nreply, buf.bytes, chunks[i..])
      decreases |chunks| - i
    {
      DeliveryStep(all, resp.Slots(count), resp.nreply, buf.bytes, chunks[i..]);
      err := resp.ConsumePartialIOBuf(buf, replyCount);
      if !err.NotEnoughData? || i == |chunks| {
        buf.Append(Rest(chunks, i));
        return;
      }
      buf.Append(chunks[i]);
      i := i + 1;
    }
  }

  lemma DeliveryStarts(slots: seq<Reply>, chunks: seq<string>)
    ensures Delivery(Feed(slots, "", chunks), slots, 0, "", chunks)
  {
    assert slots[0..] == slots;
    assert slots[..0] + Feed(slots, "", chunks).replies == Feed(slots, "", chunks).replies;
  }

  // What has not been read from the connection yet.
  function Rest(chunks: seq<string>, i: nat): string
    requires i <= |chunks|
  {
    Flatten(chunks[i..])
  }

  // RedisReply::SerializeTo. It fails on a nil, possibly after writing the replies in front of it.
  method SerializeTo(r: Reply, out: IOBuf) returns (ok: bool)
    requires Settled(r)
    modifies out
    ensures ok == Writable(r)
    ensures ok ==> out.bytes == old(out.bytes) + Serialize(r)
    decreases r
  {
    hide SignedDecimal, SerializeAll;
    ok := true;
    match r
    case Error(text) => WriteText(out, "-", text);
    case Status(text) => WriteText(out, "+", text);
    case Integer(v) => WriteHeader(out, ':', v);
    case Str(text) => WriteHeader(out, '$', |text|); WriteText(out, "", text);
    case NullStr => WriteHeader(out, '$', -1);
    case NullArray => WriteHeader(out, '*', -1);
    case Nil => ok := false;
    case Array(length, subs, _) =>
      WriteHeader(out, '*', length);
      ok := SerializeSubs(subs, out);
  }

  method WriteText(out: IOBuf, mark: string, text: string)
    modifies out
    ensures out.bytes == old(out.bytes) + (mark + text + "\r\n")
  {
    out.Append(mark);
    out.Append(text);
    out.Append("\r\n");
  }

  method SerializeSubs(subs: seq<Reply>, out: IOBuf) returns (ok: bool)
    requires forall s <- subs :: Settled(s)
    modifies out
    ensures ok == forall s <- subs :: Writable(s)
    ensures ok ==> out.bytes == old(out.bytes) + SerializeAll(subs)
    decreases subs
  {
    hide Serialize, Writable, Settled;
    assert subs[0..] == subs;
    for i := 0 to |subs|
      invariant forall s <- subs[..i] :: Writable(s)
      invariant old(out.bytes) + SerializeAll(subs) == out.bytes + SerializeAll(subs[i..])
    {
      assert subs[i..][0] == subs[i] && subs[i..][1..] == subs[i + 1..];
      var done := SerializeTo(subs[i], out);
      if !done {
        assert subs[i] in subs;
        return false;
      }
      assert subs[..i + 1] == subs[..i] + [subs[i]];
    }
    assert subs[..|subs|] == subs;
    ok := true;
  }

  // Replies as the setters leave them: an array knows its size, an integer is 64-bit and can be negated.
  predicate Settled(r: Reply)
    decreases r
  {
    && (r.Array? ==> r.length == |r.subs| <= INT_MAX && forall s <- r.subs :: Settled(s))
    && (r.Integer? ==> LLONG_MIN < r.value <= LLONG_MAX)
    && (r.Str? ==> |r.text| <= INT_MAX)
  }

  method WriteHeader(out: IOBuf, fc: char, v: int)
    requires LLONG_MIN < v <= LLONG_MAX
    modifies out
    ensures out.bytes == old(out.bytes) + ([fc] + SignedDecimal(v) + "\r\n")
  {
    hide Decimal;
    var digits := AppendDecimal(if v < 0 then -v else v);
    var sign := if v < 0 then "-" else "";
    assert sign + digits == SignedDecimal(v);
    out.Append([fc]);
    out.Append(sign + digits);
    out.Append("\r\n");
  }

  lemma {:induction false} SendableIsWritten(r: Reply)
    requires Sendable(r)
    ensures Settled(r) && Writable(r)
  {
    if r.Array? {
      forall s <- r.subs ensures Settled(s) && Writable(s) {
        SendableIsWritten(s);
      }
    }
  }

  // A server writes replies, the network cuts the bytes at will, and the client's response holds the replies. Bytes
  // sent behind them stay in the buffer.
  method SendReplies(rs: seq<Reply>, rest: string, sizes: seq<nat>)
      returns (resp: RedisResponse, buf: IOBuf, err: ParseError)
    requires rs != [] && forall r <- rs :: Sendable(r)
    ensures fresh(resp) && fresh(buf) && buf.bytes == rest
    ensures err == Ok && resp.nreply == |rs| && resp.Slots(|rs|) == ReceivedAll(rs)
  {
    hide Sendable, Settled, Writable, SerializeAll, Feed, ReceivedAll;
    var out := new IOBuf();
    forall r <- rs ensures Settled(r) && Writable(r) {
      SendableIsWritten(r);
    }
    var ok := SerializeSubs(rs, out);
    assert out.bytes == SerializeAll(rs);
    out.Append(rest);
    var chunks := Split(out.bytes, sizes);
    resp, buf, err := Receive(|rs|, chunks);
    RepliesSurviveAnySplit(rs, rest, chunks);
  }
}
