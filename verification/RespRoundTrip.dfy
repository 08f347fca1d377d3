/** Serialized replies, delivered in any pieces, are parsed back. */
module RespRoundTrip {
  import opened Limits
  import opened Lines
  import opened Decimals
  import opened RespHeader
  import opened IoBuf
  import opened RespReply
  import opened RespReplyProofs

  // ---- delivery in pieces ----

  // What a connection does: try to parse `todo` from its read buffer; while data is missing, append the next
  // piece and go on with what is unfinished.
  function Feed(todo: seq<Reply>, buf: string, chunks: seq<string>): (l: ParsedList)
    ensures |l.replies| == |todo|
    decreases |chunks|
  {
    var l := ConsumeSubs(todo, buf);
    if !l.err.NotEnoughData? || chunks == [] then l.(rest := l.rest + Flatten(chunks))
    else
      var q := Feed(l.replies[l.ndone..], l.rest + chunks[0], chunks[1..]);
      ParsedList(q.err, l.replies[..l.ndone] + q.replies, l.ndone + q.ndone, q.rest)
  }

  // Every split of a steady input gives what parsing it in one piece gives: error, replies and leftover bytes.
  lemma {:induction false} AnySplitParsesAlike(todo: seq<Reply>, buf: string, chunks: seq<string>)
    requires SteadySubs(todo, buf + Flatten(chunks))
    ensures Feed(todo, buf, chunks) == ConsumeSubs(todo, buf + Flatten(chunks))
    decreases |chunks|
  {
    hide ConsumeSubs, SteadySubs;
    var l := ConsumeSubs(todo, buf);
    SubsAlwaysContinue(todo, buf, Flatten(chunks));
    if l.err.NotEnoughData? {
      if chunks == [] {
        assert buf + Flatten(chunks) == buf;
        assert l.rest + "" == l.rest;
      } else {
        assert l.rest + Flatten(chunks) == l.rest + chunks[0] + Flatten(chunks[1..]);
        AnySplitParsesAlike(l.replies[l.ndone..], l.rest + chunks[0], chunks[1..]);
      }
    }
  }

  // Why steadiness is needed: an empty header is read as 0 if the buffer ends there, and is an error if a
  // number happens to follow.
  lemma EmptyHeaderDependsOnSplit()
    ensures Consume(Nil, ":\r\n") == Parsed(Ok, Integer(0), "")
    ensures Consume(Nil, ":\r\n" + "5").err.AbsolutelyWrong?
    ensures !Continues(Nil, ":\r\n", "5")
  {
    var b := ":\r\n";
    assert b[1..] == "\r\n";
    assert CrlfPos(b) == 1 by { assert CrlfAt(b, 1); }
    StrtollParts("\r\n", 2, 2, 2);
    EmptyHeaderOverturned(b);
    assert ScanHeader(b) == Value(0, 3);
    assert b[3..] == "";
  }

  // A third way for splits to differ: a line is tested against a limit only while it is incomplete.
  lemma LongLineDependsOnSplit(text: string)
    requires NoCrlf(text) && |text| >= U32_MAX
    ensures Consume(Nil, "+" + text + "\r\n") == Parsed(Ok, Status(text), "")
    ensures Consume(Nil, "+" + text) == Parsed(AbsolutelyWrong, Nil, "+" + text)
  {
    var line := "+" + text;
    assert NoCrlf(line) by {
      assert forall i :: i > 0 && CrlfAt(line, i) ==> CrlfAt(text, i - 1);
    }
    CrlfPosOfLine(line, "");
    var buf := line + "\r\n";
    assert buf + "" == buf && buf[1..|line|] == text && buf[|line| + 2..] == "";
    assert CrlfPos(line) < 0;
  }

  // An array header and what its sub-replies make of the bytes behind it.
  lemma ArrayIsOpened(h: string, count: nat, body: string)
    requires 0 < count <= U32_MAX && h != "" && h[0] == '*' && ScanHeader(h + body) == Value(count, |h|)
    ensures Consume(Nil, h + body) == Opened(count, ConsumeSubs(Fresh(count), body))
  {
    hide ScanHeader, ConsumeSubs, ConsumeLine, ConsumeInteger, ConsumeBulk;
    assert (h + body)[|h|..] == body;
    assert ConsumeArray(Nil, h + body) == Opened(count, ConsumeSubs(Fresh(count), body));
  }

  // An array of 2^31 elements or more that is suspended, at whatever sub-reply, is taken as complete as it is the
  // moment it is resumed; past 2^31 sub-replies its state is lost and a new reply is read in its place.
  lemma HugeArrayIsNotResumed(count: nat, body: string, c: string)
    requires INT_MAX < count <= U32_MAX && ConsumeSubs(Fresh(count), body).err.NotEnoughData?
    ensures var l := ConsumeSubs(Fresh(count), body);
            var p := Consume(Nil, "*" + Decimal(count) + "\r\n" + body);
            && p.err.NotEnoughData? && p.reply.Array? && p.reply.subs == l.replies && p.rest == l.rest
            && (if l.ndone <= INT_MAX then
                  Consume(p.reply, p.rest + c) == Parsed(Ok, Array(ToInt32(count), l.replies, -1), p.rest + c)
                else !p.reply.Suspended())
  {
    hide ScanHeader, Decimal, ConsumeSubs, ConsumeArray, ConsumeLine, ConsumeInteger, ConsumeBulk;
    var h := "*" + Decimal(count) + "\r\n";
    HeaderRoundTrip('*', count, body);
    ArrayIsOpened(h, count, body);
    var l := ConsumeSubs(Fresh(count), body);
    assert ToInt32(count) < 0;
    assert l.ndone <= INT_MAX ==> ToInt32(l.ndone) == l.ndone;
    assert INT_MAX < l.ndone ==> ToInt32(l.ndone) < 0;
  }

  // ---- serialization ----

  // Replies that SerializeTo can write; a plain nil was never set to anything.
  predicate Writable(r: Reply)
    decreases r
  {
    !r.Nil? && (r.Array? ==> forall s <- r.subs :: Writable(s))
  }

  function Serialize(r: Reply): string
    decreases r, 0
  {
    match r
    case Error(text) => "-" + text + "\r\n"
    case Status(text) => "+" + text + "\r\n"
    case Integer(v) => ":" + SignedDecimal(v) + "\r\n"
    case Str(text) => "$" + SignedDecimal(|text|) + "\r\n" + text + "\r\n"
    case NullStr => "$" + SignedDecimal(-1) + "\r\n"
    case NullArray => "*" + SignedDecimal(-1) + "\r\n"
    case Array(length, subs, _) => "*" + SignedDecimal(length) + "\r\n" + SerializeAll(subs)
    case Nil => ""
  }

  function SerializeAll(rs: seq<Reply>): string
    decreases rs, 1
  {
    if rs == [] then "" else Serialize(rs[0]) + SerializeAll(rs[1..])
  }

  // What the protocol can carry: lines without CRLF, 64-bit integers other than the one whose negation
  // overflows, lengths within int.
  ghost predicate Sendable(r: Reply)
    decreases r
  {
    match r
    case Error(text) => NoCrlf(text) && |text| <= INT_MAX
    case Status(text) => NoCrlf(text) && |text| <= INT_MAX
    case Integer(v) => LLONG_MIN < v <= LLONG_MAX
    case Str(text) => |text| <= INT_MAX
    case NullStr => true
    case NullArray => true
    case Array(length, subs, last) => length == |subs| <= INT_MAX && last == -1 && forall s <- subs :: Sendable(s)
    case Nil => false
  }

  // The two nulls on the wire.
  lemma NullsAreWritten()
    ensures Serialize(NullStr) == "$-1\r\n" && Serialize(NullArray) == "*-1\r\n"
  {
    assert Decimal(1) == "1";
  }

  // What is read back: the two nulls become nil.
  function Received(r: Reply): Reply
    decreases r
  {
    match r
    case NullStr => Nil
    case NullArray => Nil
    case Array(length, subs, last) => Array(length, seq(|subs|, i requires 0 <= i < |subs| => Received(subs[i])), last)
    case _ => r
  }

  function ReceivedAll(rs: seq<Reply>): seq<Reply> { seq(|rs|, i requires 0 <= i < |rs| => Received(rs[i])) }

  ghost predicate ReadsBack(r: Reply, rest: string)
  {
    && Consume(Nil, Serialize(r) + rest) == Parsed(Ok, Received(r), rest)
    && Steady(Nil, Serialize(r) + rest)
  }

  lemma LineReadsBack(fc: char, text: string, rest: string)
    requires (fc == '-' || fc == '+') && NoCrlf(text) && |text| <= INT_MAX
    ensures ReadsBack(if fc == '-' then Error(text) else Status(text), rest)
  {
    hide ConsumeArray, ConsumeInteger, ConsumeBulk, SteadyArray;
    var line := [fc] + text;
    var buf := line + "\r\n" + rest;
    assert NoCrlf(line) by {
      assert forall i :: i > 0 && CrlfAt(line, i) ==> CrlfAt(text, i - 1);
    }
    CrlfPosOfLine(line, rest);
    assert buf[1..|line|] == text && buf[|line| + 2..] == rest;
    assert (if fc == '-' then "-" else "+") + text + "\r\n" + rest == buf;
  }

  lemma IntegerReadsBack(v: int, rest: string)
    requires LLONG_MIN < v <= LLONG_MAX
    ensures ReadsBack(Integer(v), rest)
  {
    hide ScanHeader, ConsumeArray, ConsumeLine, ConsumeBulk, SteadyArray, SignedDecimal;
    HeaderRoundTrip(':', v, rest);
  }

  lemma NullReadsBack(r: Reply, rest: string)
    requires r.NullStr? || r.NullArray?
    ensures ReadsBack(r, rest)
  {
    hide ScanHeader, ConsumeSubs, SteadySubs, ConsumeLine, ConsumeInteger, SignedDecimal;
    if r.NullStr? {
      HeaderRoundTrip('$', -1, rest);
    } else {
      var buf := Serialize(r) + rest;
      HeaderRoundTrip('*', -1, rest);
      assert buf[0] == '*' && SteadyArray(Nil, buf);
      assert ConsumeArray(Nil, buf) == Parsed(Ok, Nil, rest);
    }
  }

  lemma StringBehindHeader(h: string, text: string, rest: string)
    requires |text| <= INT_MAX && h != "" && h[0] == '$'
    requires !EmptyHeader(h + text + "\r\n" + rest) && ScanHeader(h + text + "\r\n" + rest) == Value(|text|, |h|)
    ensures Consume(Nil, h + text + "\r\n" + rest) == Parsed(Ok, Str(text), rest)
    ensures Steady(Nil, h + text + "\r\n" + rest)
  {
    hide ScanHeader, ConsumeArray, ConsumeLine, ConsumeInteger, SteadyArray;
    var buf := h + text + "\r\n" + rest;
    var n := |h| + |text|;
    assert BulkBody(Nil, buf, |h|, |text|) == Parsed(Ok, Str(text), rest) by {
      assert buf[|h|..n] == text && buf[n + 2..] == rest && CrlfAt(buf, n);
    }
  }

  lemma StringReadsBack(text: string, rest: string)
    requires |text| <= INT_MAX
    ensures ReadsBack(Str(text), rest)
  {
    hide ScanHeader, Consume, Steady, SignedDecimal;
    var h := "$" + SignedDecimal(|text|) + "\r\n";
    HeaderRoundTrip('$', |text|, text + "\r\n" + rest);
    assert h + (text + "\r\n" + rest) == h + text + "\r\n" + rest;
    StringBehindHeader(h, text, rest);
  }

  lemma ArrayBehindHeader(h: string, r: Reply, rest: string)
    requires r.Array? && r.length == |r.subs| <= INT_MAX && r.lastIndex == -1 && h != "" && h[0] == '*'
    requires var body := SerializeAll(r.subs) + rest;
             && !EmptyHeader(h + body)
             && ScanHeader(h + body) == Value(r.length, |h|)
             && ConsumeSubs(Fresh(r.length), body) == ParsedList(Ok, ReceivedAll(r.subs), r.length, rest)
             && SteadySubs(Fresh(r.length), body)
    ensures Consume(Nil, h + (SerializeAll(r.subs) + rest)) == Parsed(Ok, Received(r), rest)
    ensures Steady(Nil, h + (SerializeAll(r.subs) + rest))
  {
    hide ScanHeader, ConsumeSubs, SteadySubs, SerializeAll, ConsumeLine, ConsumeInteger, ConsumeBulk;
    var body := SerializeAll(r.subs) + rest;
    assert (h + body)[|h|..] == body;
    assert ToInt32(r.length) == r.length;
    if r.length == 0 {
      assert Fresh(0) == [] && ReceivedAll(r.subs) == [];
      NoSubs(body);
    }
  }

  lemma NoSubs(buf: string)
    ensures ConsumeSubs([], buf) == ParsedList(Ok, [], 0, buf)
  {
  }

  lemma {:induction false} ArrayReadsBack(r: Reply, rest: string)
    requires r.Array? && Sendable(r)
    ensures ReadsBack(r, rest)
    decreases r, 0
  {
    hide ScanHeader, Consume, Steady, ConsumeSubs, SteadySubs, SerializeAll, SignedDecimal, Received;
    var h := "*" + SignedDecimal(r.length) + "\r\n";
    HeaderRoundTrip('*', r.length, SerializeAll(r.subs) + rest);
    AllReadBack(r.subs, rest);
    ArrayBehindHeader(h, r, rest);
    assert Serialize(r) + rest == h + (SerializeAll(r.subs) + rest);
  }

  lemma {:induction false} EachReadsBack(r: Reply, rest: string)
    requires Sendable(r)
    ensures ReadsBack(r, rest)
    decreases r, 1
  {
    hide ReadsBack;
    match r
    case Error(text) => LineReadsBack('-', text, rest);
    case Status(text) => LineReadsBack('+', text, rest);
    case Integer(v) => IntegerReadsBack(v, rest);
    case Str(text) => StringReadsBack(text, rest);
    case Array(_, _, _) => ArrayReadsBack(r, rest);
    case _ => NullReadsBack(r, rest);
  }

  lemma {:induction false} AllReadBack(rs: seq<Reply>, rest: string)
    requires forall r <- rs :: Sendable(r)
    ensures ConsumeSubs(Fresh(|rs|), SerializeAll(rs) + rest) == ParsedList(Ok, ReceivedAll(rs), |rs|, rest)
    ensures SteadySubs(Fresh(|rs|), SerializeAll(rs) + rest)
    decreases rs, 2
  {
    hide Consume, Steady, Serialize, Received;
    if rs == [] {
      assert "" + rest == rest;
    } else {
      var tail := SerializeAll(rs[1..]) + rest;
      assert SerializeAll(rs) + rest == Serialize(rs[0]) + tail;
      EachReadsBack(rs[0], tail);
      AllReadBack(rs[1..], rest);
      assert Fresh(|rs|)[1..] == Fresh(|rs[1..]|);
      assert [Received(rs[0])] + ReceivedAll(rs[1..]) == ReceivedAll(rs);
    }
  }

  // The protocol's promise: any list of replies, cut into pieces anywhere, arrives as that list, and the bytes
  // behind it are left alone.
  lemma RepliesSurviveAnySplit(rs: seq<Reply>, rest: string, chunks: seq<string>)
    requires forall r <- rs :: Sendable(r)
    requires Flatten(chunks) == SerializeAll(rs) + rest
    ensures Feed(Fresh(|rs|), "", chunks) == ParsedList(Ok, ReceivedAll(rs), |rs|, rest)
  {
    hide ConsumeSubs, SteadySubs, Feed;
    AllReadBack(rs, rest);
    assert "" + Flatten(chunks) == Flatten(chunks);
    AnySplitParsesAlike(Fresh(|rs|), "", chunks);
  }
}
