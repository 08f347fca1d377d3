/** A written command is read back from any split of its bytes. */
module RespCommandProofs {
  import opened Limits
  import opened Lines
  import opened Decimals
  import opened RespHeader
  import opened IoBuf
  import opened RespCommand

  // A connection that parses from its read buffer and appends the next piece while data is missing.
  function Feed(p: Parser, buf: string, chunks: seq<string>): Outcome
    decreases |chunks|
  {
    var o := Consume(p, buf);
    if !o.err.NotEnoughData? || chunks == [] then o.(rest := o.rest + Flatten(chunks))
    else Feed(o.parser, o.rest + chunks[0], chunks[1..])
  }

  lemma {:induction false} AnySplitParsesAlike(p: Parser, buf: string, chunks: seq<string>)
    requires Steady(p, buf + Flatten(chunks))
    ensures Feed(p, buf, chunks) == Consume(p, buf + Flatten(chunks))
    decreases |chunks|
  {
    hide Consume, Steady;
    AlwaysContinues(p, buf, Flatten(chunks));
    var o := Consume(p, buf);
    if chunks == [] {
      assert buf + "" == buf && o.rest + "" == o.rest;
    } else if o.err.NotEnoughData? {
      assert o.rest + Flatten(chunks) == o.rest + chunks[0] + Flatten(chunks[1..]);
      AnySplitParsesAlike(o.parser, o.rest + chunks[0], chunks[1..]);
    }
  }

  // All splits of an input give what parsing it in one piece gives if and only if the input is steady: no empty
  // header that a digit behind it makes bad, with enough in front of the digit to act on.
  lemma SplitsAgreeIff(p: Parser, buf: string)
    ensures (forall chunks | Flatten(chunks) == buf :: Feed(p, "", chunks) == Consume(p, buf)) <==> Steady(p, buf)
  {
    hide Consume, Steady;
    if Steady(p, buf) {
      forall chunks | Flatten(chunks) == buf ensures Feed(p, "", chunks) == Consume(p, buf) {
        assert "" + Flatten(chunks) == buf;
        AnySplitParsesAlike(p, "", chunks);
      }
    } else {
      var k := UnsteadyCut(p, buf);
      var (b, c) := (buf[..k], buf[k..]);
      FeedTwo(p, b, c);
      assert b + c == buf && Flatten([b, c]) == buf;
    }
  }

  lemma FeedTwo(p: Parser, b: string, c: string)
    ensures Flatten([b, c]) == b + c
    ensures Feed(p, "", [b, c]) == Consume(p, b + c) <==> Agrees(p, b, c)
  {
    NothingWaits(p);
    hide Consume;
    assert [b, c][1..] == [c] && [c][1..] == [] && "" + b == b;
    assert Flatten([c]) == c + Flatten<char>([]) == c;
    var o := Consume(p, b);
    assert Feed(p, "", [b, c]) == Feed(p, b, [c]);
    if o.err.NotEnoughData? {
      var o' := Consume(o.parser, o.rest + c);
      assert Feed(p, b, [c]) == Feed(o.parser, o.rest + c, []) == o'.(rest := o'.rest + "");
      assert o'.rest + "" == o'.rest;
    }
  }

  lemma NothingWaits(p: Parser)
    ensures Consume(p, "") == Stop(NotEnoughData, p, "")
  {
  }

  // What the server sees of a command: its name in lower case.
  function Received(comps: seq<string>): seq<string>
    requires comps != []
  {
    [Lowercase(comps[0])] + comps[1..]
  }

  // A parser in the middle of `comps`, with the first i components stored.
  ghost predicate MidCommand(p: Parser, comps: seq<string>, i: nat)
  {
    && comps != [] && i < |comps|
    && p.parsingArray && p.index == i && p.length == |comps| == |p.args|
    && forall k :: 0 <= k < i ==> p.args[k] == Received(comps)[k]
  }

  lemma BulkIsRead(p: Parser, buf: string, n: nat, c: string, rest: string)
    requires p.parsingArray && p.index < |p.args| && |c| <= U32_MAX
    requires buf != "" && buf[0] == '$' && !EmptyHeader(buf) && ScanHeader(buf) == Value(|c|, n)
    requires |buf| >= n + |c| + 2 && CrlfAt(buf, n + |c|)
    requires buf[n..n + |c|] == c && buf[n + |c| + 2..] == rest
    ensures var p' := Store(p, c);
            if p.index + 1 < p.length then
              && Consume(p, buf) == Consume(p'.(index := p.index + 1), rest)
              && (Steady(p'.(index := p.index + 1), rest) ==> Steady(p, buf))
            else
              Consume(p, buf) == Outcome(Ok, INITIAL, p'.args, rest) && Steady(p, buf)
  {
    hide ScanHeader, Store, Consume, Steady;
    SteadyStep(p, buf, |c|, n);
    if p.index + 1 < p.length {
      StepsOver(p, buf, |c|, n);
    } else {
      LastIsTaken(p, buf, |c|, n);
    }
  }

  // A bulk string is found whole behind its header.
  lemma BulkParts(c: string, rest: string)
    requires |c| <= ULONG_MAX
    ensures var buf, n := Bulk(c) + rest, |Bulk(c)| - |c| - 2;
            && n >= 0 && buf != "" && buf[0] == '$' && !EmptyHeader(buf) && ScanHeader(buf) == Value(Clamp(|c|), n)
            && |buf| >= n + |c| + 2 && CrlfAt(buf, n + |c|)
            && buf[n..n + |c|] == c && buf[n + |c| + 2..] == rest
  {
    hide Decimal, ScanHeader;
    var h := "$" + Decimal(|c|) + "\r\n";
    assert SignedDecimal(|c|) == Decimal(|c|);
    HeaderRoundTrip('$', |c|, c + "\r\n" + rest);
    assert Bulk(c) + rest == h + (c + "\r\n" + rest);
  }

  lemma StoreAdvances(p: Parser, comps: seq<string>, i: nat)
    requires MidCommand(p, comps, i)
    ensures var p' := Store(p, comps[i]);
            if i + 1 < |comps| then MidCommand(p'.(index := i + 1), comps, i + 1) else p'.args == Received(comps)
  {
  }

  lemma {:induction false} ComponentsAreRead(p: Parser, comps: seq<string>, i: nat, rest: string)
    requires MidCommand(p, comps, i)
    requires forall c <- comps :: |c| <= U32_MAX
    ensures Consume(p, Bulks(comps[i..]) + rest) == Outcome(Ok, INITIAL, Received(comps), rest)
    ensures Steady(p, Bulks(comps[i..]) + rest)
    decreases |comps| - i
  {
    hide Consume, Steady, Bulk, ScanHeader, Store, Received;
    StoreAdvances(p, comps, i);
    var c := comps[i];
    var tail := Bulks(comps[i + 1..]) + rest;
    assert comps[i..][0] == c && comps[i..][1..] == comps[i + 1..];
    assert Bulks(comps[i..]) + rest == Bulk(c) + tail;
    BulkParts(c, tail);
    BulkIsRead(p, Bulk(c) + tail, |Bulk(c)| - |c| - 2, c, tail);
    var p' := Store(p, c);
    if i + 1 < |comps| {
      ComponentsAreRead(p'.(index := i + 1), comps, i + 1, rest);
    } else {
      assert comps[i + 1..] == [] && tail == rest;
    }
  }

  lemma CommandIsRead(comps: seq<string>, rest: string)
    requires comps != [] && |comps| <= INT_MAX && forall c <- comps :: |c| <= U32_MAX
    ensures Consume(INITIAL, Encode(comps) + rest) == Outcome(Ok, INITIAL, Received(comps), rest)
    ensures Steady(INITIAL, Encode(comps) + rest)
  {
    hide Consume, Steady, Decimal, ScanHeader, Bulks;
    var h := "*" + Decimal(|comps|) + "\r\n";
    var tail := Bulks(comps) + rest;
    var p := Opened(|comps|);
    assert SignedDecimal(|comps|) == Decimal(|comps|);
    HeaderRoundTrip('*', |comps|, tail);
    assert comps[0..] == comps;
    ComponentsAreRead(p, comps, 0, rest);
    HeaderIsRead(h, |comps|, tail);
    assert Encode(comps) + rest == h + tail;
  }

  lemma HeaderIsRead(h: string, v: nat, tail: string)
    requires h != "" && h[0] == '*' && !EmptyHeader(h + tail) && ScanHeader(h + tail) == Value(v, |h|)
    ensures Consume(INITIAL, h + tail) == Consume(Opened(v), tail)
    ensures Steady(Opened(v), tail) ==> Steady(INITIAL, h + tail)
  {
    hide ScanHeader;
    assert (h + tail)[|h|..] == tail;
  }

  // Any split of a command's bytes yields its components with only the first in lower case, leaves the bytes
  // behind it, and returns the parser to its initial state.
  lemma CommandSurvivesAnySplit(comps: seq<string>, rest: string, chunks: seq<string>)
    requires comps != [] && |comps| <= INT_MAX && forall c <- comps :: |c| <= U32_MAX
    requires Flatten(chunks) == Encode(comps) + rest
    ensures Feed(INITIAL, "", chunks) == Outcome(Ok, INITIAL, Received(comps), rest)
  {
    hide Consume, Steady;
    CommandIsRead(comps, rest);
    assert "" + Flatten(chunks) == Flatten(chunks);
    AnySplitParsesAlike(INITIAL, "", chunks);
  }

  // A component that is too long, or a count that does not fit in an int, is not read.
  lemma {:induction false} ComponentsAreNotRead(p: Parser, comps: seq<string>, i: nat, rest: string)
    requires p.parsingArray && p.index == i < |comps| && p.length <= |comps| && i < |p.args|
    requires forall c <- comps :: |c| <= ULONG_MAX
    requires (p.length < |comps| && i + 1 < |comps|) || exists j :: i <= j < |comps| && |comps[j]| > U32_MAX
    requires p.length <= |p.args| || p.length <= i
    ensures var o := Consume(p, Bulks(comps[i..]) + rest); !(o.err.Ok? && o.rest == rest)
    decreases |comps| - i
  {
    hide Consume, Bulk, ScanHeader, Store;
    var c := comps[i];
    var tail := Bulks(comps[i + 1..]) + rest;
    assert comps[i..][0] == c && comps[i..][1..] == comps[i + 1..];
    assert Bulks(comps[i..]) + rest == Bulk(c) + tail;
    BulkParts(c, tail);
    var n := |Bulk(c)| - |c| - 2;
    if |c| > U32_MAX {
      BulkIsNotRead(p, Bulk(c) + tail, n, Clamp(|c|));
    } else {
      BulkIsRead(p, Bulk(c) + tail, n, c, tail);
      StoreKeeps(p, c);
      if i + 1 < p.length {
        ComponentsAreNotRead(Store(p, c).(index := i + 1), comps, i + 1, rest);
      } else if i + 1 < |comps| {
        assert comps[i + 1..][0] == comps[i + 1];
        BulkParts(comps[i + 1], "");
        assert |tail| > |rest|;
      }
    }
  }

  lemma BulkIsNotRead(p: Parser, buf: string, n: nat, v: nat)
    requires p.parsingArray && buf != "" && buf[0] == '$' && ScanHeader(buf) == Value(v, n) && v > U32_MAX
    ensures !Consume(p, buf).err.Ok?
  {
    hide ScanHeader, Store;
  }

  lemma StoreKeeps(p: Parser, c: string)
    requires p.index < |p.args|
    ensures var p' := Store(p, c);
            p'.parsingArray == p.parsingArray && p'.length == p.length && p'.index == p.index && |p'.args| == |p.args|
  {
    hide Lowercase;
  }

  // A command is read back exactly when its count fits in an int and the size of each component in 32 bits.
  lemma CommandIsReadIff(comps: seq<string>, rest: string)
    requires comps != [] && |comps| <= ULONG_MAX && forall c <- comps :: |c| <= ULONG_MAX
    ensures Consume(INITIAL, Encode(comps) + rest) == Outcome(Ok, INITIAL, Received(comps), rest) <==>
            |comps| <= INT_MAX && forall c <- comps :: |c| <= U32_MAX
  {
    hide Consume, Steady, Decimal, ScanHeader, Bulks, Received;
    if |comps| <= INT_MAX && forall c <- comps :: |c| <= U32_MAX {
      CommandIsRead(comps, rest);
    } else {
      var h := "*" + Decimal(|comps|) + "\r\n";
      var tail := Bulks(comps) + rest;
      assert SignedDecimal(|comps|) == Decimal(|comps|);
      HeaderRoundTrip('*', |comps|, tail);
      var v := Clamp(|comps|);
      HeaderIsRead(h, v, tail);
      assert Encode(comps) + rest == h + tail && comps[0..] == comps;
      var p := Opened(v);
      assert p.length <= v <= |comps| && (|comps| > INT_MAX ==> p.length < |comps|);
      ComponentsAreNotRead(p, comps, 0, rest);
    }
  }

  // What a parser without room for arguments says: it waits for a whole bulk string, stops at anything else, and
  // writes past its arguments once the bulk string is there.
  function ErrorWithoutArguments(buf: string): Error
  {
    if buf == "" then NotEnoughData
    else if buf[0] != '$' then AbsolutelyWrong
    else
      match ScanHeader(buf)
      case NeedMore => NotEnoughData
      case Bad => AbsolutelyWrong
      case Value(v, n) =>
        if v < 0 || v > U32_MAX then AbsolutelyWrong else if |buf| < n + v + 2 then NotEnoughData else OutOfRange
  }

  // What becomes of a command without components, whatever is behind it.
  lemma EmptyCommandOutcome(rest: string)
    ensures Consume(INITIAL, Encode([]) + rest).err == ErrorWithoutArguments(rest)
  {
    hide Consume, Decimal, ScanHeader, ErrorWithoutArguments;
    var h := "*" + Decimal(0) + "\r\n";
    assert SignedDecimal(0) == Decimal(0);
    HeaderRoundTrip('*', 0, rest);
    assert Encode([]) + rest == h + rest;
    HeaderIsRead(h, 0, rest);
    NoArguments(rest);
  }

  lemma NoArguments(buf: string)
    ensures Consume(Opened(0), buf).err == ErrorWithoutArguments(buf)
  {
    hide ScanHeader, Store;
  }

  // ---- other protocols ----

  // The input is left to other protocols, untouched, if and only if it does not start like a command.
  lemma {:induction false} TryOthersIff(p: Parser, buf: string)
    ensures Consume(p, buf).err.TryOthers? <==> !p.parsingArray && buf != "" && buf[0] != '*'
    ensures Consume(p, buf).err.TryOthers? ==> Consume(p, buf) == Outcome(TryOthers, p, [], buf)
    decreases |buf|
  {
    hide ScanHeader, Store, Consume, GoesOn;
    var h := ScanHeader(buf);
    if p.parsingArray && buf != "" && buf[0] == '$' && h.Value? && h.value >= 0 && GoesOn(p, buf, h.value, h.size) {
      StepsOver(p, buf, h.value, h.size);
      NextComponent(p, buf, h.value, h.size);
      TryOthersIff(Store(p, buf[h.size..h.size + h.value]).(index := p.index + 1), buf[h.size + h.value + 2..]);
    } else if !p.parsingArray && buf != "" && buf[0] == '*' && h.Value? && h.value >= 0 {
      CountIsStepped(p, buf, h.value, h.size);
      TryOthersIff(Opened(h.value), buf[h.size..]);
    } else {
      StopsHere(p, buf);
    }
  }

  lemma NextComponent(p: Parser, buf: string, v: nat, n: nat)
    requires GoesOn(p, buf, v, n)
    ensures p.index < |p.args| && n + v + 2 <= |buf|
    ensures p.parsingArray ==> Store(p, buf[n..n + v]).parsingArray
  {
  }

  // Where nothing more is read.
  lemma StopsHere(p: Parser, buf: string)
    requires var h := ScanHeader(buf);
             && !(p.parsingArray && buf != "" && buf[0] == '$' && h.Value? && h.value >= 0 && GoesOn(p, buf, h.value, h.size))
             && !(!p.parsingArray && buf != "" && buf[0] == '*' && h.Value? && h.value >= 0)
    ensures var o := Consume(p, buf);
            && (o.err.TryOthers? <==> !p.parsingArray && buf != "" && buf[0] != '*')
            && (o.err.TryOthers? ==> o == Outcome(TryOthers, p, [], buf))
  {
    hide ScanHeader, Store;
  }

  // So is every split of it.
  lemma OtherProtocolsAreTried(chunks: seq<string>)
    requires Flatten(chunks) != "" && Flatten(chunks)[0] != '*'
    ensures Feed(INITIAL, "", chunks) == Outcome(TryOthers, INITIAL, [], Flatten(chunks))
  {
    hide Consume, Feed, Steady;
    var buf := Flatten(chunks);
    TryOthersIff(INITIAL, buf);
    OthersAreSteady(buf);
    assert "" + buf == buf;
    AnySplitParsesAlike(INITIAL, "", chunks);
  }

  lemma OthersAreSteady(buf: string)
    requires buf != "" && buf[0] != '*'
    ensures Steady(INITIAL, buf)
  {
  }

  // In the middle of a command, anything but a bulk string is wrong,
  lemma OnlyBulkStrings(p: Parser, buf: string)
    requires p.parsingArray && buf != "" && buf[0] != '$'
    ensures Consume(p, buf) == Outcome(AbsolutelyWrong, p, [], buf)
  {
  }

  // and so is one that is longer than 32 bits can say or not closed by CRLF. One that is not there in full is waited
  // for; otherwise it is the next argument, and the last one ends the command.
  lemma ComponentOutcome(p: Parser, len: nat, body: string)
    requires p.parsingArray && p.index < |p.args| && len <= ULONG_MAX
    ensures var h := "$" + Decimal(len) + "\r\n";
            var o := Consume(p, h + body);
            if len > U32_MAX then o == Outcome(AbsolutelyWrong, p, [], h + body)
            else if |body| < len + 2 then o == Outcome(NotEnoughData, p, [], h + body)
            else TakenAs(p, body[..len], CrlfAt(body, len), body[len + 2..], o)
  {
    hide Decimal, ScanHeader, Consume, TakenAs;
    var h := "$" + Decimal(len) + "\r\n";
    assert SignedDecimal(len) == Decimal(len);
    HeaderRoundTrip('$', len, body);
    if len > U32_MAX || |body| < len + 2 {
      ComponentWaits(p, h + body, Clamp(len), |h|);
    } else {
      Behind(h, body, len);
      ComponentTaken(p, h + body, len, |h|);
    }
  }

  // What a whole component leads to.
  ghost predicate TakenAs(p: Parser, c: string, closed: bool, rest: string, o: Outcome)
    requires p.index < |p.args|
  {
    var args := p.args[p.index := if p.index == 0 then Lowercase(c) else c];
    if !closed then o == Outcome(AbsolutelyWrong, p.(args := args), [], rest)
    else if p.index + 1 >= p.length then o == Outcome(Ok, INITIAL, args, rest)
    else o == Consume(p.(index := p.index + 1, args := args), rest)
  }

  lemma ComponentWaits(p: Parser, buf: string, v: nat, n: nat)
    requires p.parsingArray && buf != "" && buf[0] == '$' && ScanHeader(buf) == Value(v, n)
    requires v > U32_MAX || |buf| < n + v + 2
    ensures Consume(p, buf) == Outcome(if v > U32_MAX then AbsolutelyWrong else NotEnoughData, p, [], buf)
  {
    hide ScanHeader, Store;
  }

  lemma ComponentTaken(p: Parser, buf: string, v: nat, n: nat)
    requires p.parsingArray && p.index < |p.args| && buf != "" && buf[0] == '$' && ScanHeader(buf) == Value(v, n)
    requires v <= U32_MAX && |buf| >= n + v + 2
    ensures TakenAs(p, buf[n..n + v], CrlfAt(buf, n + v), buf[n + v + 2..], Consume(p, buf))
  {
    hide ScanHeader, Lowercase, Consume;
    if !CrlfAt(buf, n + v) {
      ComponentIsOpen(p, buf, v, n);
    } else if p.index + 1 < p.length {
      StepsOver(p, buf, v, n);
    } else {
      LastIsTaken(p, buf, v, n);
    }
  }

  lemma ComponentIsOpen(p: Parser, buf: string, v: nat, n: nat)
    requires p.parsingArray && p.index < |p.args| && buf != "" && buf[0] == '$' && ScanHeader(buf) == Value(v, n)
    requires v <= U32_MAX && |buf| >= n + v + 2 && !CrlfAt(buf, n + v)
    ensures Consume(p, buf) == Outcome(AbsolutelyWrong, Store(p, buf[n..n + v]), [], buf[n + v + 2..])
  {
    hide ScanHeader, Store;
  }
}
