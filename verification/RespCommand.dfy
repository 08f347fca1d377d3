/** Redis commands: an array of bulk strings, written from components and read back by a resumable parser. */
module RespCommand {
  import opened Limits
  import opened Lines
  import opened Decimals
  import opened RespHeader

  // ---- writing ----

  function Bulk(c: string): string { "$" + Decimal(|c|) + "\r\n" + c + "\r\n" }

  function Bulks(comps: seq<string>): string
  {
    if comps == [] then "" else Bulk(comps[0]) + Bulks(comps[1..])
  }

  function Encode(comps: seq<string>): string { "*" + Decimal(|comps|) + "\r\n" + Bulks(comps) }

  // ---- reading ----

  // `OutOfRange` is a write past the arguments: the CHECK in front of it logs and, by default, goes on.
  datatype Error = Ok | NotEnoughData | TryOthers | AbsolutelyWrong | OutOfRange

  datatype Parser = Parser(parsingArray: bool, length: int, index: nat, args: seq<string>)

  const INITIAL := Parser(false, 0, 0, [])

  // `args` is set on success only.
  datatype Outcome = Outcome(err: Error, parser: Parser, args: seq<string>, rest: string)

  function Lower(c: char): char { if 'A' <= c <= 'Z' then c - 'A' + 'a' else c }

  function Lowercase(s: string): string { seq(|s|, i requires 0 <= i < |s| => Lower(s[i])) }

  function Stop(err: Error, p: Parser, buf: string): Outcome { Outcome(err, p, [], buf) }

  function Consume(p: Parser, buf: string): (o: Outcome)
    ensures |o.rest| <= |buf|
    ensures p.parsingArray && !o.err.Ok? ==> o.parser.parsingArray
    decreases |buf|
  {
    if buf == "" then Stop(NotEnoughData, p, buf)
    else if !p.parsingArray && buf[0] != '*' then Stop(TryOthers, p, buf)
    else if p.parsingArray && buf[0] != '$' then Stop(AbsolutelyWrong, p, buf)
    else
      match ScanHeader(buf)
      case NeedMore => Stop(NotEnoughData, p, buf)
      case Bad => Stop(AbsolutelyWrong, p, buf)
      case Value(v, n) =>
        if v < 0 then Stop(AbsolutelyWrong, p, buf)
        else if !p.parsingArray then Consume(Opened(v), buf[n..])
        else if v > U32_MAX then Stop(AbsolutelyWrong, p, buf)
        else if |buf| < n + v + 2 then Stop(NotEnoughData, p, buf)
        else if p.index >= |p.args| then Stop(OutOfRange, p, buf)
        else
          var p' := Store(p, buf[n..n + v]);
          var rest := buf[n + v + 2..];
          if !CrlfAt(buf, n + v) then Stop(AbsolutelyWrong, p', rest)
          else if p.index + 1 < p.length then Consume(p'.(index := p.index + 1), rest)
          else Outcome(Ok, INITIAL, p'.args, rest)
  }

  // A command of v components; the count is kept in an int.
  function Opened(v: nat): Parser { Parser(true, ToInt32(v), 0, seq(v, i => "")) }

  // The next argument; the command name is stored in lower case.
  function Store(p: Parser, arg: string): Parser
    requires p.index < |p.args|
  {
    p.(args := p.args[p.index := if p.index == 0 then Lowercase(arg) else arg])
  }

  // ---- inputs on which splitting does not matter: all headers met are steady ----

  // A count is acted on at once, a size only with two more bytes.
  function Need(p: Parser): nat { if p.parsingArray then 5 else 3 }

  predicate Steady(p: Parser, buf: string)
    decreases |buf|
  {
    if buf == "" || buf[0] != (if p.parsingArray then '$' else '*') then true
    else
      && SteadyHeader(buf, Need(p))
      && match ScanHeader(buf)
         case Value(v, n) =>
           if v < 0 then true
           else if !p.parsingArray then Steady(Opened(v), buf[n..])
           else if GoesOn(p, buf, v, n) then Steady(Store(p, buf[n..n + v]).(index := p.index + 1), buf[n + v + 2..])
           else true
         case _ => true
  }

  // A whole component behind its header, and more to come.
  predicate GoesOn(p: Parser, buf: string, v: nat, n: nat)
  {
    v <= U32_MAX && |buf| >= n + v + 2 && CrlfAt(buf, n + v) && p.index < |p.args| && p.index + 1 < p.length
  }

  // Parsing b first and the rest later, against parsing b + c at once.
  predicate Agrees(p: Parser, b: string, c: string)
  {
    var o := Consume(p, b);
    if o.err.NotEnoughData? then Consume(o.parser, o.rest + c) == Consume(p, b + c)
    else Consume(p, b + c) == o.(rest := o.rest + c)
  }

  ghost predicate Continues(p: Parser, b: string, c: string)
  {
    var o := Consume(p, b);
    Agrees(p, b, c) && (o.err.NotEnoughData? ==> Steady(o.parser, o.rest + c))
  }

  // Bytes taken off the front are the same with or without what follows.
  lemma CutsAgree(b: string, n: nat, len: nat, c: string)
    requires |b| >= n + len + 2
    ensures (b + c)[n..n + len] == b[n..n + len] && (b + c)[n + len + 2..] == b[n + len + 2..] + c
    ensures CrlfAt(b + c, n + len) == CrlfAt(b, n + len)
  {
  }

  lemma {:induction false} AlwaysContinues(p: Parser, b: string, c: string)
    requires Steady(p, b + c)
    ensures Continues(p, b, c)
    decreases |b|
  {
    hide ScanHeader, Store, Opened;
    if b == "" {
      assert b + c == c;
    } else if b[0] == (if p.parsingArray then '$' else '*') && !ScanHeader(b).NeedMore? {
      SteadyHeaderExtends(b, c, Need(p));
      if ScanHeader(b + c) != ScanHeader(b) {
        WaitsForMore(p, b);
      } else if ScanHeader(b).Value? && ScanHeader(b).value >= 0 {
        HeaderContinues(p, b, c, ScanHeader(b).value, ScanHeader(b).size);
      }
    }
  }

  // An empty size with less than two bytes behind it is not acted on.
  lemma WaitsForMore(p: Parser, b: string)
    requires 3 <= |b| < Need(p) && b[0] == '$' && ScanHeader(b) == Value(0, 3)
    ensures Consume(p, b) == Stop(NotEnoughData, p, b)
  {
    hide ScanHeader;
  }

  lemma {:induction false} HeaderContinues(p: Parser, b: string, c: string, v: nat, n: nat)
    requires Steady(p, b + c) && b != "" && b[0] == (if p.parsingArray then '$' else '*')
    requires ScanHeader(b) == ScanHeader(b + c) == Value(v, n)
    ensures Continues(p, b, c)
    decreases |b|, 0
  {
    hide ScanHeader, Store, SteadyHeader, Continues, Consume;
    assert (b + c)[n..] == b[n..] + c;
    if !p.parsingArray {
      AlwaysContinues(Opened(v), b[n..], c);
      CountIsStepped(p, b, v, n);
      CountIsStepped(p, b + c, v, n);
      ContinuesBehind(p, b, Opened(v), b[n..], c);
    } else if GoesOn(p, b, v, n) {
      CutsAgree(b, n, v, c);
      var p' := Store(p, b[n..n + v]).(index := p.index + 1);
      AlwaysContinues(p', b[n + v + 2..], c);
      StepsOver(p, b, v, n);
      StepsOver(p, b + c, v, n);
      ContinuesBehind(p, b, p', b[n + v + 2..], c);
    } else {
      ComponentStopsAlike(p, b, c, v, n);
    }
  }

  lemma CountIsStepped(p: Parser, buf: string, v: nat, n: nat)
    requires !p.parsingArray && buf != "" && buf[0] == '*' && ScanHeader(buf) == Value(v, n)
    ensures Consume(p, buf) == Consume(Opened(v), buf[n..])
  {
    hide ScanHeader, Store;
  }

  lemma ContinuesBehind(p: Parser, b: string, p': Parser, b': string, c: string)
    requires Consume(p, b) == Consume(p', b') && Consume(p, b + c) == Consume(p', b' + c)
    ensures Continues(p', b', c) ==> Continues(p, b, c)
  {
    hide Consume, Steady;
  }

  // A component that ends the command, is wrong or is not all there.
  lemma ComponentStopsAlike(p: Parser, b: string, c: string, v: nat, n: nat)
    requires Steady(p, b + c) && p.parsingArray && b != "" && b[0] == '$' && !GoesOn(p, b, v, n)
    requires ScanHeader(b) == ScanHeader(b + c) == Value(v, n)
    ensures Continues(p, b, c)
  {
    hide ScanHeader, Store, SteadyHeader, Steady;
    if v <= U32_MAX && |b| >= n + v + 2 {
      CutsAgree(b, n, v, c);
    }
  }

  // ---- and the other way round: a cut that matters in any input that is not steady ----

  lemma {:induction false} UnsteadyCut(p: Parser, buf: string) returns (k: nat)
    requires !Steady(p, buf)
    ensures k <= |buf| && !Agrees(p, buf[..k], buf[k..])
    decreases |buf|
  {
    hide Agrees, ScanHeader, SteadyHeader, Store;
    if !SteadyHeader(buf, Need(p)) {
      k := Need(p);
      UnsteadyHeader(buf, k);
      HeaderCutMatters(p, buf);
    } else {
      var v, n := ScanHeader(buf).value, ScanHeader(buf).size;
      HeaderIsLong(buf);
      if p.parsingArray {
        var used := n + v + 2;
        var k' := UnsteadyCut(Store(p, buf[n..n + v]).(index := p.index + 1), buf[used..]);
        k := used + k';
        assert buf[used..][..k'] == buf[used..k] && buf[used..][k'..] == buf[k..];
        HeaderInPrefix(buf, k, 5);
        BehindComponent(p, buf, v, n, k);
      } else {
        var k' := UnsteadyCut(Opened(v), buf[n..]);
        k := n + k';
        assert buf[n..][..k'] == buf[n..k] && buf[n..][k'..] == buf[k..];
        HeaderInPrefix(buf, k, 3);
        BehindCount(p, buf, v, n, k);
      }
    }
  }

  // Cut behind an empty header in front of the digit that makes it bad.
  lemma HeaderCutMatters(p: Parser, buf: string)
    requires buf != "" && buf[0] == (if p.parsingArray then '$' else '*') && |buf| >= Need(p)
    requires ScanHeader(buf).Bad? && ScanHeader(buf[..Need(p)]) == Value(0, 3)
    ensures !Agrees(p, buf[..Need(p)], buf[Need(p)..])
  {
    hide ScanHeader, Lowercase;
    var b, c := buf[..Need(p)], buf[Need(p)..];
    assert b + c == buf && "" + c == c && Consume(p, buf) == Stop(AbsolutelyWrong, p, buf);
    if !p.parsingArray {
      assert b[3..] == "";
    } else {
      assert b[5..] == "";
    }
  }

  // What follows a count, or a component that goes on, is read from the state behind it.
  lemma BehindCount(p: Parser, buf: string, v: nat, n: nat, k: nat)
    requires !p.parsingArray && buf != "" && buf[0] == '*' && 0 < n <= k <= |buf|
    requires ScanHeader(buf) == ScanHeader(buf[..k]) == Value(v, n)
    ensures Agrees(p, buf[..k], buf[k..]) == Agrees(Opened(v), buf[n..k], buf[k..])
  {
    hide ScanHeader, Consume;
    var b, c := buf[..k], buf[k..];
    assert b + c == buf && b[n..] == buf[n..k] && b[n..] + c == buf[n..];
    CountIsStepped(p, b, v, n);
    CountIsStepped(p, buf, v, n);
  }

  lemma StepsOver(p: Parser, buf: string, v: nat, n: nat)
    requires p.parsingArray && buf != "" && buf[0] == '$' && GoesOn(p, buf, v, n) && ScanHeader(buf) == Value(v, n)
    ensures Consume(p, buf) == Consume(Store(p, buf[n..n + v]).(index := p.index + 1), buf[n + v + 2..])
  {
    hide ScanHeader, Store;
  }

  lemma LastIsTaken(p: Parser, buf: string, v: nat, n: nat)
    requires p.parsingArray && buf != "" && buf[0] == '$' && ScanHeader(buf) == Value(v, n)
    requires v <= U32_MAX && |buf| >= n + v + 2 && CrlfAt(buf, n + v) && p.index < |p.args| && p.index + 1 >= p.length
    ensures Consume(p, buf) == Outcome(Ok, INITIAL, Store(p, buf[n..n + v]).args, buf[n + v + 2..])
  {
    hide ScanHeader, Store;
  }

  lemma SteadyStep(p: Parser, buf: string, v: nat, n: nat)
    requires p.parsingArray && buf != "" && buf[0] == '$' && !EmptyHeader(buf) && ScanHeader(buf) == Value(v, n)
    ensures Steady(p, buf) <==>
            (GoesOn(p, buf, v, n) ==> Steady(Store(p, buf[n..n + v]).(index := p.index + 1), buf[n + v + 2..]))
  {
    hide ScanHeader, Store, GoesOn;
  }

  lemma BehindComponent(p: Parser, buf: string, v: nat, n: nat, k: nat)
    requires p.parsingArray && buf != "" && buf[0] == '$' && n + v + 2 <= k <= |buf| && GoesOn(p, buf, v, n)
    requires ScanHeader(buf) == ScanHeader(buf[..k]) == Value(v, n)
    ensures Agrees(p, buf[..k], buf[k..]) ==
            Agrees(Store(p, buf[n..n + v]).(index := p.index + 1), buf[n + v + 2..k], buf[k..])
  {
    hide ScanHeader, Store, Consume;
    var (b, c, used) := (buf[..k], buf[k..], n + v + 2);
    assert b + c == buf;
    CutsAgree(b, n, v, c);
    assert b[used..] == buf[used..k] && b[used..] + c == buf[used..];
    StepsOver(p, b, v, n);
    StepsOver(p, buf, v, n);
  }
}
