/** Writing commands from components or from a command line, and the server's command parser. */
module RedisCommand {
  import opened Options
  import opened Limits
  import opened Lines
  import opened Decimals
  import opened RespHeader
  import opened IoBuf
  import opened CommandTokens
  import C = RespCommand
  import P = RespCommandProofs

  // ---- writing ----

  // A type byte, a number and CRLF, put together in a fixed buffer.
  method HeaderText(fc: char, value: nat) returns (s: string)
    requires value <= ULONG_MAX
    ensures s == [fc] + Decimal(value) + "\r\n"
  {
    hide Decimal;
    var digits := AppendDecimal(value);
    DecimalFits(value);
    var len := |digits|;
    var header := new char[32](_ => '\0');
    header[0] := fc;
    forall i | 0 <= i < len {
      header[1 + i] := digits[i];
    }
    assert header[1..1 + len] == digits;
    header[len + 1] := '\r';
    header[len + 2] := '\n';
    assert header[1..1 + len] == digits;
    s := header[..len + 3];
    assert s == [fc] + header[1..1 + len] + "\r\n";
  }

  method RedisCommandByComponents(output: IOBuf, components: seq<string>)
    requires |components| <= ULONG_MAX && forall c <- components :: |c| <= ULONG_MAX
    modifies output
    ensures output.bytes == old(output.bytes) + C.Encode(components)
  {
    hide Decimal, C.Bulk, C.Bulks;
    var header := HeaderText('*', |components|);
    output.Append(header);
    EmptyBulks();
    for i := 0 to |components|
      invariant output.bytes == old(output.bytes) + (header + C.Bulks(components[..i]))
    {
      AppendBulk(output, components[i]);
      BulksGrow(components, i);
    }
    assert components[..|components|] == components;
  }

  method AppendBulk(output: IOBuf, c: string)
    requires |c| <= ULONG_MAX
    modifies output
    ensures output.bytes == old(output.bytes) + C.Bulk(c)
  {
    hide Decimal;
    var size := HeaderText('$', |c|);
    output.Append(size);
    output.Append(c);
    output.Append("\r\n");
    assert C.Bulk(c) == size + c + "\r\n";
  }

  lemma {:induction false} BulksGrow(comps: seq<string>, i: nat)
    requires i < |comps|
    ensures C.Bulks(comps[..i + 1]) == C.Bulks(comps[..i]) + C.Bulk(comps[i])
  {
    hide C.Bulk;
    if i == 0 {
      assert comps[..1] == [comps[0]] && comps[..1][1..] == [];
    } else {
      var t := comps[1..];
      assert comps[..i + 1][1..] == t[..i] && comps[..i][1..] == t[..i - 1] && comps[i] == t[i - 1];
      BulksGrow(t, i - 1);
    }
  }

  lemma BulksSnoc(comps: seq<string>, c: string)
    ensures C.Bulks(comps + [c]) == C.Bulks(comps) + C.Bulk(c)
  {
    hide C.Bulk;
    var all := comps + [c];
    assert all[..|comps|] == comps && all[..|comps| + 1] == all;
    BulksGrow(all, |comps|);
  }

  method FlushComponent(output: string, comp: string) returns (r: string)
    requires |comp| <= ULONG_MAX
    ensures r == output + C.Bulk(comp)
  {
    hide Decimal;
    var size := HeaderText('$', |comp|);
    r := output + size;
    r := r + comp;
    r := r + "\r\n";
    assert C.Bulk(comp) == size + comp + "\r\n";
  }

  // The state of the loop below as a scanning state.
  function ScanOf(quote: char, comp: string, done: seq<string>): Scan
  {
    Scan(if quote == '\0' then None else Some(quote), comp, done)
  }

  // The components of the line are appended as one command; on an unmatched quote nothing is.
  method RedisCommandNoFormat(output: IOBuf, cmd: string) returns (ok: bool)
    requires |cmd| <= ULONG_MAX && (Tokens(cmd).Some? ==> |Tokens(cmd).value| <= INT_MAX)
    modifies output
    ensures ok == Tokens(cmd).Some?
    ensures ok ==> output.bytes == old(output.bytes) + C.Encode(Tokens(cmd).value)
    ensures !ok ==> output.bytes == old(output.bytes)
  {
    hide C.Bulk, C.Bulks, Tokens, Pending, Decimal;
    ghost var done: seq<string> := [];
    var body, comp, n, quote := "", "", 0, '\0';
    NothingScanned(cmd);
    assert cmd[0..] == cmd && C.Bulks([]) == "" by { EmptyBulks(); }
    for i := 0 to |cmd|
      invariant ValidScan(ScanOf(quote, comp, done)) && output.bytes == old(output.bytes)
      invariant Pending(ScanOf(quote, comp, done), cmd[i..]) == Tokens(cmd)
      invariant body == C.Bulks(done) && n == |done| && |comp| + n <= i
    {
      var c := cmd[i];
      ghost var before := ScanOf(quote, comp, done);
      assert cmd[i..] == [c] + cmd[i + 1..];
      StepKeepsPending(before, c, cmd[i + 1..]);
      if c == ' ' {
        if quote != '\0' {
          comp := comp + [c];
        } else if comp != "" {
          body := FlushComponent(body, comp);
          BulksSnoc(done, comp);
          done, comp, n := done + [comp], "", n + 1;
        }
      } else if c == '"' || c == '\'' {
        if quote == '\0' {
          quote := c;
          if comp != "" {
            body := FlushComponent(body, comp);
            BulksSnoc(done, comp);
            done, comp, n := done + [comp], "", n + 1;
          }
        } else if quote == c {
          var last := if comp == "" then '\0' else comp[|comp| - 1];
          if last == '\\' {
            comp := comp[..|comp| - 1] + [c];
          } else {
            quote := '\0';
            body := FlushComponent(body, comp);
            BulksSnoc(done, comp);
            done, comp, n := done + [comp], "", n + 1;
          }
        } else {
          comp := comp + [c];
        }
      } else {
        comp := comp + [c];
      }
      assert ScanOf(quote, comp, done) == Step(before, c);
    }
    assert cmd[|cmd|..] == "";
    PendingAtEnd(ScanOf(quote, comp, done));
    if quote != '\0' {
      return false;
    }
    if comp != "" {
      body := FlushComponent(body, comp);
      BulksSnoc(done, comp);
      done, n := done + [comp], n + 1;
    }
    var header := HeaderText('*', n);
    output.Append(header);
    output.Append(body);
    assert C.Encode(done) == header + body;
    ok := true;
  }

  lemma NothingScanned(cmd: string)
    ensures Pending(Scan(None, "", []), cmd) == Tokens(cmd)
  {
    hide Tokens;
    if Tokens(cmd).Some? {
      assert [] + Tokens(cmd).value == Tokens(cmd).value;
    }
  }

  lemma EmptyBulks()
    ensures C.Bulks([]) == ""
  {
  }

  // ---- reading ----

  class RedisCommandParser {
    var parsingArray: bool
    var length: int
    var index: nat
    var args: seq<string>

    constructor ()
      ensures View() == C.INITIAL
    {
      parsingArray, length, index, args := false, 0, 0, [];
    }

    ghost function View(): C.Parser
      reads this
    {
      C.Parser(parsingArray, length, index, args)
    }

    method Reset()
      modifies this
      ensures View() == C.INITIAL
    {
      parsingArray, length, index, args := false, 0, 0, [];
    }

    // The check on a command without components logs and goes on; `OutOfRange` is the write that follows.
    method Consume(buf: IOBuf) returns (err: C.Error, out: seq<string>)
      modifies this, buf
      ensures var o := C.Consume(old(View()), old(buf.bytes));
              err == o.err && out == o.args && View() == o.parser && buf.bytes == o.rest
      decreases |buf.bytes|
    {
      hide ScanHeader, C.Lowercase;
      out := [];
      if buf.bytes == "" {
        return C.NotEnoughData, out;
      }
      var fc := buf.bytes[0];
      if !parsingArray && fc != '*' {
        return C.TryOthers, out;
      }
      if parsingArray && fc != '$' {
        return C.AbsolutelyWrong, out;
      }
      var h := ScanHeader(buf.bytes);
      if h.NeedMore? {
        return C.NotEnoughData, out;
      }
      if h.Bad? || h.value < 0 {
        return C.AbsolutelyWrong, out;
      }
      if !parsingArray {
        buf.PopFront(h.size);
        parsingArray, length, index := true, ToInt32(h.value), 0;
        args := seq(h.value, i => "");
        err, out := Consume(buf);
      } else {
        err, out := ConsumeComponent(buf, h.value, h.size);
      }
    }

    // The component of `len` bytes behind a header of `size` bytes.
    method ConsumeComponent(buf: IOBuf, len: nat, size: nat) returns (err: C.Error, out: seq<string>)
      requires parsingArray && buf.bytes != "" && buf.bytes[0] == '$'
      requires ScanHeader(buf.bytes) == Value(len, size)
      modifies this, buf
      ensures var o := C.Consume(old(View()), old(buf.bytes));
              err == o.err && out == o.args && View() == o.parser && buf.bytes == o.rest
      decreases |buf.bytes|, 0
    {
      hide ScanHeader, C.Lowercase;
      out := [];
      if len > U32_MAX {
        return C.AbsolutelyWrong, out;
      }
      if |buf.bytes| < size + len + 2 {
        return C.NotEnoughData, out;
      }
      if index >= |args| {
        return C.OutOfRange, out;
      }
      err, out := TakeComponent(buf, len, size);
    }

    // The whole component is there.
    method TakeComponent(buf: IOBuf, len: nat, size: nat) returns (err: C.Error, out: seq<string>)
      requires parsingArray && buf.bytes != "" && buf.bytes[0] == '$'
      requires ScanHeader(buf.bytes) == Value(len, size)
      requires index < |args| && len <= U32_MAX && |buf.bytes| >= size + len + 2
      modifies this, buf
      ensures var o := C.Consume(old(View()), old(buf.bytes));
              err == o.err && out == o.args && View() == o.parser && buf.bytes == o.rest
      decreases |buf.bytes|, 0, 0
    {
      hide ScanHeader, C.Lowercase, C.Consume;
      ghost var before := buf.bytes;
      ComponentStep(View(), before, len, size);
      out := [];
      buf.PopFront(size);
      var d := buf.Cutn(len);
      assert d == before[size..size + len] && buf.bytes == before[size + len..];
      if index == 0 {
        d := ToLower(d);
      }
      args := args[index := d];
      var crlf := buf.Cutn(2);
      assert crlf == "\r\n" <==> CrlfAt(before, size + len);
      assert buf.bytes == before[size + len + 2..];
      if crlf != "\r\n" {
        return C.AbsolutelyWrong, out;
      }
      index := index + 1;
      if index < length {
        err, out := Consume(buf);
        return;
      }
      out := args;
      Reset();
      err := C.Ok;
    }
  }

  // What the parser does with a component that is there.
  lemma ComponentStep(p: C.Parser, buf: string, len: nat, size: nat)
    requires p.parsingArray && p.index < |p.args| && buf != "" && buf[0] == '$'
    requires ScanHeader(buf) == Value(len, size) && len <= U32_MAX && |buf| >= size + len + 2
    ensures var p' := C.Store(p, buf[size..size + len]);
            var rest := buf[size + len + 2..];
            C.Consume(p, buf) ==
            if !CrlfAt(buf, size + len) then C.Stop(C.AbsolutelyWrong, p', rest)
            else if p.index + 1 < p.length then C.Consume(p'.(index := p.index + 1), rest)
            else C.Outcome(C.Ok, C.INITIAL, p'.args, rest)
  {
    hide ScanHeader, C.Store;
  }

  // A connection that reads one command while pieces of input arrive.
  method ReceiveCommand(chunks: seq<string>) returns (parser: RedisCommandParser, buf: IOBuf, err: C.Error, args: seq<string>)
    ensures fresh(parser) && fresh(buf)
    ensures C.Outcome(err, parser.View(), args, buf.bytes) == P.Feed(C.INITIAL, "", chunks)
  {
    hide C.Consume;
    parser := new RedisCommandParser();
    buf := new IOBuf();
    var i := 0;
    assert chunks[0..] == chunks;
    while true
      invariant 0 <= i <= |chunks| && fresh(parser) && fresh(buf)
      invariant P.Feed(parser.View(), buf.bytes, chunks[i..]) == P.Feed(C.INITIAL, "", chunks)
      decreases |chunks| - i
    {
      err, args := parser.Consume(buf);
      if err != C.NotEnoughData || i == |chunks| {
        buf.Append(Flatten(chunks[i..]));
        return;
      }
      assert chunks[i..][0] == chunks[i] && chunks[i..][1..] == chunks[i + 1..];
      buf.Append(chunks[i]);
      i := i + 1;
    }
  }

  // A client writes a command, the network cuts the bytes at will, and the server's parser yields the components, the
  // first one lowered. Bytes sent behind the command stay in the buffer.
  method SendCommand(components: seq<string>, rest: string, sizes: seq<nat>)
      returns (parser: RedisCommandParser, buf: IOBuf, err: C.Error, args: seq<string>)
    requires components != [] && |components| <= INT_MAX && forall c <- components :: |c| <= U32_MAX
    ensures fresh(parser) && fresh(buf) && parser.View() == C.INITIAL && buf.bytes == rest
    ensures err == C.Ok && args == P.Received(components)
  {
    hide C.Encode, P.Received, P.Feed;
    var output := new IOBuf();
    RedisCommandByComponents(output, components);
    assert output.bytes == C.Encode(components);
    output.Append(rest);
    var chunks := Split(output.bytes, sizes);
    parser, buf, err, args := ReceiveCommand(chunks);
    P.CommandSurvivesAnySplit(components, rest, chunks);
  }

  // Lower the letters of a buffer one by one.
  method ToLower(s: string) returns (r: string)
    ensures r == C.Lowercase(s)
  {
    var d := new char[|s|](i requires 0 <= i < |s| => s[i]);
    for i := 0 to |s|
      invariant forall k :: 0 <= k < |s| ==> d[k] == if k < i then C.Lower(s[k]) else s[k]
    {
      d[i] := C.Lower(d[i]);
    }
    r := d[..];
  }
}
