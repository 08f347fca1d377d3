/** What the reply parser makes of any input, told from the bytes alone. */
module RespOutcomes {
  import opened Limits
  import opened Lines
  import opened Decimals
  import opened RespHeader
  import opened RespReply
  import opened RespReplyProofs
  import opened RespRoundTrip

  // ---- headers ----

  // Blanks, at most one sign, and digits.
  ghost predicate Numeral(t: string, blanks: string, sign: string, digits: string)
  {
    && t == blanks + sign + digits && digits != ""
    && (forall c <- blanks :: c == ' ' || 9 <= c as int <= 13)
    && (sign == "" || sign == "+" || sign == "-")
    && (forall c <- digits :: IsDigit(c))
  }

  ghost predicate IsNumeral(t: string) { exists blanks, sign, digits :: Numeral(t, blanks, sign, digits) }

  function NumberOf(digits: string): nat
    requires forall c <- digits :: IsDigit(c)
  {
    if digits == "" then 0
    else
      var last := digits[|digits| - 1];
      assert last in digits;
      10 * NumberOf(digits[..|digits| - 1]) + DigitValue(last)
  }

  lemma {:induction false} NaturalIs(s: string, j: nat, k: nat, digits: string)
    requires j + |digits| == k <= |s| && s[j..k] == digits && forall c <- digits :: IsDigit(c)
    ensures forall m :: j <= m < k ==> IsDigit(s[m])
    ensures Natural(s, j, k) == NumberOf(digits)
  {
    forall m | j <= m < k ensures IsDigit(s[m]) {
      assert s[m] == digits[m - j] && digits[m - j] in digits;
    }
    if digits != "" {
      var front := digits[..|digits| - 1];
      assert s[j..k][..|front|] == s[j..k - 1];
      NaturalIs(s, j, k - 1, front);
    }
  }

  // strtoll on a numeral in front of a carriage return.
  lemma NumeralIsRead(s: string, t: string, blanks: string, sign: string, digits: string)
    requires Numeral(t, blanks, sign, digits) && |t| < |s| && s[..|t|] == t && s[|t|] == '\r'
    ensures Strtoll(s) == Number(Clamp(if sign == "-" then -(NumberOf(digits) as int) else NumberOf(digits)), |t|)
  {
    hide Natural, NumberOf, Strtoll, Clamp;
    var (i, j, k) := (|blanks|, |blanks| + |sign|, |t|);
    assert s[j..k] == digits;
    NaturalIs(s, j, k, digits);
    NumeralParts(s, t, blanks, sign, digits);
    StrtollParts(s, i, j, k);
  }

  lemma NumeralParts(s: string, t: string, blanks: string, sign: string, digits: string)
    requires Numeral(t, blanks, sign, digits) && |t| < |s| && s[..|t|] == t && s[|t|] == '\r'
    ensures Parts(s, |blanks|, |blanks| + |sign|, |t|) && (s[|blanks|] == '-' <==> sign == "-")
  {
    var (i, j) := (|blanks|, |blanks| + |sign|);
    assert forall m :: 0 <= m < |t| ==> s[m] == t[m];
    assert forall m :: 0 <= m < i ==> s[m] == blanks[m] && blanks[m] in blanks;
    assert forall m :: j <= m < |t| ==> s[m] == digits[m - j] && digits[m - j] in digits;
    if sign != "" {
      assert s[i] == sign[0];
    } else {
      assert s[i] == digits[0];
    }
  }

  // Only numerals are read up to their end.
  lemma OnlyNumerals(s: string, t: string)
    requires t != "" && |t| < |s| && s[..|t|] == t && Strtoll(s).end == |t|
    ensures IsNumeral(t)
  {
    var i, j, k := PartsOf(s);
    StrtollParts(s, i, j, k);
    var (blanks, sign, digits) := (t[..i], t[i..j], t[j..]);
    assert forall c <- blanks :: IsSpace(c);
    assert sign != "" ==> sign == [s[i]];
    assert Numeral(t, blanks, sign, digits);
  }

  // What the window shows of such a header.
  lemma WindowShows(fc: char, t: string, rest: string)
    requires NoCrlf([fc] + t)
    ensures var w := Window([fc] + t + "\r\n" + rest);
            if |t| + 3 > WINDOW then CrlfPos(w) < 0
            else CrlfPos(w) == |t| + 1 && |w| >= |t| + 3 && w[1..][..|t|] == t && w[1..][|t|] == '\r'
  {
    hide CrlfFrom;
    var line := [fc] + t;
    var buf := line + "\r\n" + rest;
    CrlfPosOfLine(line, rest);
    var w := Window(buf);
    assert forall i :: CrlfAt(w, i) ==> CrlfAt(buf, i);
    if |t| + 3 <= WINDOW {
      assert w[..|line|] == line && w[|line|] == '\r' && w[|line| + 1] == '\n';
      assert CrlfAt(w, |line|);
      assert w[1..][..|t|] == line[1..];
    }
  }

  // A header with t between type and CRLF, in front of anything: a number if and only if t is a numeral, and a header
  // that does not fit in the window is waited for.
  lemma HeaderOutcome(fc: char, t: string, rest: string)
    requires t != "" && NoCrlf([fc] + t)
    ensures var h := ScanHeader([fc] + t + "\r\n" + rest);
            if |t| + 3 > 31 then h.NeedMore?
            else if IsNumeral(t) then h.Value? && h.size == |t| + 3 else h.Bad?
    ensures forall blanks, sign, digits :: |t| + 3 <= 31 && Numeral(t, blanks, sign, digits) ==>
              ScanHeader([fc] + t + "\r\n" + rest).value ==
              Clamp(if sign == "-" then -(NumberOf(digits) as int) else NumberOf(digits))
  {
    hide Strtoll, CrlfPos, Window;
    var w := Window([fc] + t + "\r\n" + rest);
    WindowShows(fc, t, rest);
    if |t| + 3 <= WINDOW {
      var s := w[1..];
      if Strtoll(s).end == |t| {
        OnlyNumerals(s, t);
      }
      forall blanks, sign, digits | Numeral(t, blanks, sign, digits)
        ensures Strtoll(s) == Number(Clamp(if sign == "-" then -(NumberOf(digits) as int) else NumberOf(digits)), |t|)
      {
        NumeralIsRead(s, t, blanks, sign, digits);
      }
    }
  }

  // ---- replies ----

  // Anything that does not start with one of the five types is wrong, and stays where it is.
  lemma OtherTypesAreWrong(buf: string)
    requires buf != "" && buf[0] !in {'-', '+', ':', '$', '*'}
    ensures Consume(Nil, buf) == Parsed(AbsolutelyWrong, Nil, buf)
  {
  }

  // A line: its text up to the first CRLF, or waiting for one until the limit is passed.
  lemma LineOutcome(fc: char, text: string, rest: string)
    requires (fc == '-' || fc == '+') && NoCrlf(text)
    ensures Consume(Nil, [fc] + text + "\r\n" + rest) == Parsed(Ok, if fc == '-' then Error(text) else Status(text), rest)
    ensures Consume(Nil, [fc] + text) == Parsed(if |text| < U32_MAX then NotEnoughData else AbsolutelyWrong, Nil, [fc] + text)
  {
    hide ConsumeArray, ConsumeBulk, ConsumeInteger, CrlfFrom;
    var line := [fc] + text;
    assert NoCrlf(line) by {
      assert forall i :: i > 0 && CrlfAt(line, i) ==> CrlfAt(text, i - 1);
    }
    CrlfPosOfLine(line, rest);
    var buf := line + "\r\n" + rest;
    assert buf[1..|line|] == text && buf[|line| + 2..] == rest;
    assert CrlfPos(line) < 0;
  }

  // A bulk string: nil for any negative size; wrong if the size is beyond 32 bits or no CRLF closes it, which is
  // found out only after it was cut; waited for until it is there in full.
  lemma BulkOutcome(size: int, body: string)
    requires LLONG_MIN <= size <= ULONG_MAX
    ensures var h := "$" + SignedDecimal(size) + "\r\n";
            Consume(Nil, h + body) ==
            if size < 0 then Parsed(Ok, Nil, body)
            else if size > U32_MAX then Parsed(AbsolutelyWrong, Nil, h + body)
            else if |body| < size + 2 then Parsed(NotEnoughData, Nil, h + body)
            else Parsed(if CrlfAt(body, size) then Ok else AbsolutelyWrong, Str(body[..size]), body[size + 2..])
  {
    hide ScanHeader, SignedDecimal, Consume;
    var h := "$" + SignedDecimal(size) + "\r\n";
    HeaderRoundTrip('$', size, body);
    BulkBehind(h, Clamp(size), body);
  }

  lemma BulkBehind(h: string, size: int, body: string)
    requires h != "" && h[0] == '$' && ScanHeader(h + body) == Value(size, |h|)
    ensures Consume(Nil, h + body) ==
            if size < 0 then Parsed(Ok, Nil, body)
            else if size > U32_MAX then Parsed(AbsolutelyWrong, Nil, h + body)
            else if |body| < size + 2 then Parsed(NotEnoughData, Nil, h + body)
            else Parsed(if CrlfAt(body, size) then Ok else AbsolutelyWrong, Str(body[..size]), body[size + 2..])
  {
    hide ScanHeader, ConsumeArray, ConsumeInteger, ConsumeLine;
    assert (h + body)[|h|..] == body;
    if 0 <= size && |body| >= size + 2 {
      Behind(h, body, size);
    }
  }

  // An integer is what its header says.
  lemma IntegerOutcome(v: int, rest: string)
    requires LLONG_MIN <= v <= LLONG_MAX
    ensures Consume(Nil, ":" + SignedDecimal(v) + "\r\n" + rest) == Parsed(Ok, Integer(v), rest)
  {
    hide ScanHeader, SignedDecimal, ConsumeArray, ConsumeBulk, ConsumeLine;
    var h := ":" + SignedDecimal(v) + "\r\n";
    HeaderRoundTrip(':', v, rest);
    assert (h + rest)[|h|..] == rest;
  }

  // An array: nil for any negative count, empty for 0, wrong if the count is beyond 32 bits; otherwise as far as its
  // sub-replies get.
  lemma ArrayOutcome(count: int, body: string)
    requires LLONG_MIN <= count <= ULONG_MAX
    ensures var h := "*" + SignedDecimal(count) + "\r\n";
            var p := Consume(Nil, h + body);
            if count < 0 then p == Parsed(Ok, Nil, body)
            else if count == 0 then p == Parsed(Ok, Array(0, [], -1), body)
            else if count > U32_MAX then p == Parsed(AbsolutelyWrong, Nil, h + body)
            else
              var l := ConsumeSubs(Fresh(count), body);
              p.err == l.err && p.rest == l.rest && p.reply.Array? && p.reply.subs == l.replies
  {
    hide ScanHeader, SignedDecimal, ConsumeSubs, ConsumeBulk, ConsumeInteger, ConsumeLine;
    var h := "*" + SignedDecimal(count) + "\r\n";
    HeaderRoundTrip('*', count, body);
    assert (h + body)[|h|..] == body;
  }

  // A header that is not a number makes integers, bulk strings and arrays wrong, and one that does not end is waited
  // for.
  lemma BadHeaderOutcome(fc: char, t: string, rest: string)
    requires fc in {':', '$', '*'} && t != "" && NoCrlf([fc] + t) && !IsNumeral(t)
    ensures var buf := [fc] + t + "\r\n" + rest;
            Consume(Nil, buf) == Parsed(if |t| + 3 > 31 then NotEnoughData else AbsolutelyWrong, Nil, buf)
  {
    hide ScanHeader, ConsumeSubs, ConsumeLine, IsNumeral, Numeral;
    HeaderOutcome(fc, t, rest);
  }

  // Sub-replies are read up to the first that is not complete: those before it, its error and state, and nothing
  // behind it.
  lemma {:induction false} ListOutcome(rs: seq<Reply>, bad: string, more: nat)
    requires (forall r <- rs :: Sendable(r)) && !Consume(Nil, bad).err.Ok?
    ensures var p := Consume(Nil, bad);
            ConsumeSubs(Fresh(|rs| + 1 + more), SerializeAll(rs) + bad) ==
            ParsedList(p.err, ReceivedAll(rs) + ([p.reply] + Fresh(more)), |rs|, p.rest)
    decreases rs
  {
    hide Consume, ConsumeSubs, Serialize, Received, Sendable, ReceivedAll, Fresh;
    var n := |rs| + 1 + more;
    var p := Consume(Nil, bad);
    FreshParts(n);
    if rs == [] {
      assert "" + bad == bad;
      SubsStopAtFirst(Fresh(n), bad);
      NoneReceived([p.reply] + Fresh(more));
    } else {
      var tail := SerializeAll(rs[1..]) + bad;
      assert SerializeAll(rs) + bad == Serialize(rs[0]) + tail && rs[0] in rs;
      EachReadsBack(rs[0], tail);
      SubsAfterFirst(Fresh(n), SerializeAll(rs) + bad);
      ListOutcome(rs[1..], bad, more);
      ReceivedParts(rs, [p.reply] + Fresh(more));
    }
  }

  lemma FreshParts(n: nat)
    requires n > 0
    ensures |Fresh(n)| == n && Fresh(n)[0] == Nil && Fresh(n)[1..] == Fresh(n - 1)
  {
  }

  lemma NoneReceived(more: seq<Reply>)
    ensures ReceivedAll([]) + more == more
  {
  }

  lemma ReceivedParts(rs: seq<Reply>, more: seq<Reply>)
    requires rs != []
    ensures [Received(rs[0])] + (ReceivedAll(rs[1..]) + more) == ReceivedAll(rs) + more
  {
    hide Received;
  }
}
