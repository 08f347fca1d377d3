/** Exactly which inputs the reply parser reads alike however they are cut into pieces. */
module RespSplits {
  import opened Limits
  import opened Lines
  import opened IoBuf
  import opened RespHeader
  import opened RespReply
  import opened RespReplyProofs
  import opened RespRoundTrip

  // ---- reading takes bytes off the front ----

  lemma {:induction false} ReplyTakesBytes(buf: string)
    requires Consume(Nil, buf).err.Ok?
    ensures |Consume(Nil, buf).rest| < |buf|
  {
    hide ConsumeSubs, ScanHeader, CrlfPos;
    match buf[0]
    case '-' => assert ConsumeLine(Nil, buf).err.Ok?;
    case '+' => assert ConsumeLine(Nil, buf).err.Ok?;
    case ':' => assert ConsumeInteger(Nil, buf).err.Ok?;
    case '$' => assert ConsumeBulk(Nil, buf).err.Ok?;
    case '*' => assert ConsumeArray(Nil, buf).err.Ok?;
  }

  // ---- what a reply is read from: no byte behind it matters ----

  // The reply that is read from all of buf is read from any prefix that covers it.
  ghost predicate Local(buf: string, k: nat)
    requires k <= |buf|
  {
    var p := Consume(Nil, buf);
    var n := |buf| - |p.rest|;
    p.rest == buf[n..] && (p.err.Ok? && n <= k ==> Consume(Nil, buf[..k]) == p.(rest := buf[n..k]))
  }

  ghost predicate LocalList(m: nat, buf: string, k: nat)
    requires k <= |buf|
  {
    var l := ConsumeSubs(Fresh(m), buf);
    var n := |buf| - |l.rest|;
    l.rest == buf[n..] && (l.err.Ok? && n <= k ==> ConsumeSubs(Fresh(m), buf[..k]) == l.(rest := buf[n..k]))
  }

  lemma LineIsLocal(buf: string, k: nat)
    requires buf != "" && buf[0] != '\r' && k <= |buf|
    ensures var p := ConsumeLine(Nil, buf);
            var n := |buf| - |p.rest|;
            p.rest == buf[n..] && (p.err.Ok? && n <= k ==> ConsumeLine(Nil, buf[..k]) == p.(rest := buf[n..k]))
  {
    var (p, b) := (CrlfPos(buf), buf[..k]);
    if p >= 0 && p + 2 <= k {
      assert CrlfAt(b, p);
      assert b + buf[k..] == buf;
      CrlfPosExtends(b, buf[k..]);
      assert b[1..p] == buf[1..p] && b[p + 2..] == buf[p + 2..k];
    }
  }

  lemma IntegerIsLocal(buf: string, k: nat)
    requires buf != "" && buf[0] == ':' && k <= |buf| && SteadyHeader(buf, 3)
    ensures var p := ConsumeInteger(Nil, buf);
            var n := |buf| - |p.rest|;
            p.rest == buf[n..] && (p.err.Ok? && n <= k ==> ConsumeInteger(Nil, buf[..k]) == p.(rest := buf[n..k]))
  {
    hide ScanHeader, SteadyHeader;
    var h := ScanHeader(buf);
    if h.Value? && h.size <= k {
      HeaderIsLong(buf);
      HeaderInPrefix(buf, k, 3);
      assert buf[..k][h.size..] == buf[h.size..k];
    }
  }

  lemma BulkIsLocal(buf: string, k: nat)
    requires buf != "" && buf[0] == '$' && k <= |buf| && SteadyHeader(buf, 5)
    ensures var p := ConsumeBulk(Nil, buf);
            var n := |buf| - |p.rest|;
            p.rest == buf[n..] && (p.err.Ok? && n <= k ==> ConsumeBulk(Nil, buf[..k]) == p.(rest := buf[n..k]))
  {
    hide ScanHeader, SteadyHeader;
    var h := ScanHeader(buf);
    if h.Value? {
      HeaderIsLong(buf);
      if h.value < 0 {
        if h.size <= k {
          NegativeHeaderInPrefix(buf, k);
          assert buf[..k][h.size..] == buf[h.size..k];
        }
      } else if h.size + h.value + 2 <= k {
        HeaderInPrefix(buf, k, 5);
        var (b, n, e) := (buf[..k], h.size, h.size + h.value);
        assert b[n..e] == buf[n..e] && b[e + 2..] == buf[e + 2..k] && CrlfAt(b, e) == CrlfAt(buf, e);
      }
    }
  }

  // A header with a number between type and CRLF is not empty, so any prefix that covers it will do.
  lemma NegativeHeaderInPrefix(buf: string, k: nat)
    requires ScanHeader(buf).Value? && ScanHeader(buf).value < 0 && ScanHeader(buf).size <= k <= |buf|
    ensures ScanHeader(buf[..k]) == ScanHeader(buf)
  {
    var (b, c) := (buf[..k], buf[k..]);
    assert b + c == buf;
    var p := CrlfPos(Window(buf));
    assert CrlfAt(Window(b), p);
    if EmptyHeader(buf) {
      EmptyHeaderIsZero(buf);
    }
    HeaderIsStable(b, c);
  }

  lemma {:induction false} ArrayIsLocal(buf: string, k: nat)
    requires buf != "" && buf[0] == '*' && k <= |buf| && SteadyArray(Nil, buf)
    ensures var p := ConsumeArray(Nil, buf);
            var n := |buf| - |p.rest|;
            p.rest == buf[n..] && (p.err.Ok? && n <= k ==> ConsumeArray(Nil, buf[..k]) == p.(rest := buf[n..k]))
    decreases |buf|, 0
  {
    hide ScanHeader, SteadyHeader, ConsumeSubs, SteadySubs, ToInt32;
    var h := ScanHeader(buf);
    if h.Value? {
      HeaderIsLong(buf);
      var n := h.size;
      var (b, body) := (buf[..k], buf[n..]);
      if n <= k {
        HeaderInPrefix(buf, k, 3);
        assert b[n..] == buf[n..k] == body[..k - n];
      }
      if 0 < h.value <= U32_MAX {
        ListIsLocal(h.value, body, if n <= k then k - n else 0);
        var l := ConsumeSubs(Fresh(h.value), body);
        var used := |body| - |l.rest|;
        assert l.rest == body[used..] == buf[n + used..];
        if n + used <= k {
          assert body[used..k - n] == buf[n + used..k];
        }
      }
    }
  }

  lemma {:induction false} ReplyIsLocal(buf: string, k: nat)
    requires k <= |buf| && Steady(Nil, buf)
    ensures Local(buf, k)
    decreases |buf|, 1
  {
    hide ConsumeSubs, ConsumeArray, ConsumeLine, ConsumeInteger, ConsumeBulk, SteadyArray, SteadyHeader, CrlfPos;
    if buf != "" {
      match buf[0] {
        case '-' => LineIsLocal(buf, k);
        case '+' => LineIsLocal(buf, k);
        case ':' => IntegerIsLocal(buf, k);
        case '$' => BulkIsLocal(buf, k);
        case '*' => ArrayIsLocal(buf, k);
        case _ =>
      }
      if Consume(Nil, buf).err.Ok? {
        ReplyTakesBytes(buf);
        assert k > 0 ==> buf[..k][0] == buf[0];
      }
    }
  }

  lemma FreshTail(m: nat)
    requires m > 0
    ensures Fresh(m)[0] == Nil && Fresh(m)[1..] == Fresh(m - 1) && [Nil] + Fresh(m - 1) == Fresh(m)
  {
  }

  lemma {:induction false} ListIsLocal(m: nat, buf: string, k: nat)
    requires k <= |buf| && SteadySubs(Fresh(m), buf)
    ensures LocalList(m, buf, k)
    decreases |buf|, 2, m
  {
    hide Consume, Steady, Fresh, ConsumeSubs;
    if m == 0 {
      NoneIsLocal(buf, k);
    } else {
      FreshTail(m);
      var p := Consume(Nil, buf);
      ReplyIsLocal(buf, k);
      var n := |buf| - |p.rest|;
      if !p.err.Ok? {
        SubsStopAtFirst(Fresh(m), buf);
      } else {
        ReplyTakesBytes(buf);
        SubsAfterFirst(Fresh(m), buf);
        ListIsLocal(m - 1, p.rest, if n <= k then k - n else 0);
        var l := ConsumeSubs(Fresh(m - 1), p.rest);
        var used := |p.rest| - |l.rest|;
        assert l.rest == p.rest[used..] == buf[n + used..];
        if n + used <= k {
          assert buf[n..k] == p.rest[..k - n] && p.rest[used..k - n] == buf[n + used..k];
          SubsAfterFirst(Fresh(m), buf[..k]);
        }
      }
    }
  }

  lemma NoneIsLocal(buf: string, k: nat)
    requires k <= |buf|
    ensures LocalList(0, buf, k)
  {
    assert Fresh(0) == [] && buf[0..] == buf && buf[0..k] == buf[..k];
  }

  // ---- two ways to read b and then c ----

  // Reading b, and what that leaves with c behind it.
  function Cut(b: string, c: string): Parsed
  {
    var p := Consume(Nil, b);
    if p.err.NotEnoughData? then Consume(p.reply, p.rest + c) else p.(rest := p.rest + c)
  }

  function CutList(m: nat, b: string, c: string): ParsedList
  {
    var l := ConsumeSubs(Fresh(m), b);
    if l.err.NotEnoughData? then Continue(l, c) else l.(rest := l.rest + c)
  }

  // Some nil replies in front of `behind`.
  ghost predicate Ahead(count: nat, bytes: string, behind: string)
  {
    count > 0 && ConsumeSubs(Fresh(count), bytes) == ParsedList(Ok, Fresh(count), count, behind)
  }

  // Results that differ in error or reply; or only in the bytes left over, but then one is some nils behind.
  ghost predicate Differ(p: Parsed, q: Parsed)
  {
    p.err != q.err || p.reply != q.reply || (p.err.Ok? && exists count :: Ahead(count, p.rest, q.rest))
  }

  ghost predicate ListsDiffer(l: ParsedList, w: ParsedList)
  {
    || l.err != w.err || l.ndone != w.ndone || l.replies != w.replies
    || (l.err.Ok? && exists count :: Ahead(count, l.rest, w.rest))
  }

  lemma PushedDiffer(r: Reply, l: ParsedList, w: ParsedList)
    requires ListsDiffer(l, w)
    ensures ListsDiffer(Push(r, l), Push(r, w))
  {
    hide ConsumeSubs;
    assert Push(r, l).replies[1..] == l.replies && Push(r, w).replies[1..] == w.replies;
  }

  // One more nil at the end.
  lemma {:induction false} NilsExtend(count: nat, bytes: string, behind: string)
    requires ConsumeSubs(Fresh(count), bytes) == ParsedList(Ok, Fresh(count), count, behind)
    requires Consume(Nil, behind).err.Ok? && Consume(Nil, behind).reply == Nil
    ensures ConsumeSubs(Fresh(count + 1), bytes) == ParsedList(Ok, Fresh(count + 1), count + 1, Consume(Nil, behind).rest)
  {
    hide Consume;
    FreshTail(count + 1);
    if count == 0 {
      assert Fresh(0) == [];
    } else {
      FreshTail(count);
      var p := Consume(Nil, bytes);
      var l := ConsumeSubs(Fresh(count - 1), p.rest);
      assert ([p.reply] + l.replies)[0] == Fresh(count)[0] && ([p.reply] + l.replies)[1..] == Fresh(count)[1..];
      NilsExtend(count - 1, p.rest, behind);
    }
  }

  lemma FirstNil(count: nat, bytes: string, behind: string)
    requires Ahead(count, bytes, behind)
    ensures var p := Consume(Nil, bytes);
            && p.err.Ok? && p.reply == Nil
            && ConsumeSubs(Fresh(count - 1), p.rest) == ParsedList(Ok, Fresh(count - 1), count - 1, behind)
  {
    hide Consume;
    FreshTail(count);
    var p := Consume(Nil, bytes);
    var l := ConsumeSubs(Fresh(count - 1), p.rest);
    assert p.err.Ok? && ([p.reply] + l.replies)[0] == Nil && ([p.reply] + l.replies)[1..] == Fresh(count)[1..];
  }

  // Whatever is read next, being some nils behind shows, or goes on.
  lemma {:induction false} AheadShows(m: nat, count: nat, bytes: string, behind: string)
    requires Ahead(count, bytes, behind)
    ensures ListsDiffer(ConsumeSubs(Fresh(m), bytes), ConsumeSubs(Fresh(m), behind))
  {
    hide Consume, ConsumeSubs;
    if m == 0 {
      assert Fresh(0) == [];
      NoSubs(bytes);
      NoSubs(behind);
    } else {
      FreshTail(m);
      FirstNil(count, bytes, behind);
      var (p, q) := (Consume(Nil, bytes), Consume(Nil, behind));
      SubsAfterFirst(Fresh(m), bytes);
      if !q.err.Ok? {
        SubsStopAtFirst(Fresh(m), behind);
      } else {
        SubsAfterFirst(Fresh(m), behind);
        assert ConsumeSubs(Fresh(m), bytes).replies[0] == Nil && ConsumeSubs(Fresh(m), behind).replies[0] == q.reply;
        if q.reply == Nil {
          NilsExtend(count - 1, p.rest, behind);
          AheadShows(m - 1, count, p.rest, q.rest);
          PushedDiffer(Nil, ConsumeSubs(Fresh(m - 1), p.rest), ConsumeSubs(Fresh(m - 1), q.rest));
        }
      }
    }
  }

  // The list that starts with a reply read as p.
  function ListOf(m: nat, p: Parsed): ParsedList
  {
    if p.err.Ok? then Push(p.reply, ConsumeSubs(Fresh(m), p.rest)) else ParsedList(p.err, [p.reply] + Fresh(m), 0, p.rest)
  }

  lemma FirstDiffers(m: nat, p: Parsed, q: Parsed)
    requires Differ(p, q)
    ensures ListsDiffer(ListOf(m, p), ListOf(m, q))
  {
    hide ConsumeSubs;
    assert ListOf(m, p).replies[0] == p.reply && ListOf(m, q).replies[0] == q.reply;
    if p.err.Ok? && q.err.Ok? && p.reply == q.reply {
      var count :| Ahead(count, p.rest, q.rest);
      AheadShows(m, count, p.rest, q.rest);
      PushedDiffer(p.reply, ConsumeSubs(Fresh(m), p.rest), ConsumeSubs(Fresh(m), q.rest));
    }
  }

  lemma WholeList(m: nat, buf: string)
    requires m > 0
    ensures ConsumeSubs(Fresh(m), buf) == ListOf(m - 1, Consume(Nil, buf))
  {
    hide Consume, ConsumeSubs;
    FreshTail(m);
    if Consume(Nil, buf).err.Ok? {
      SubsAfterFirst(Fresh(m), buf);
    } else {
      SubsStopAtFirst(Fresh(m), buf);
    }
  }

  lemma NothingIsRead(m: nat)
    ensures ConsumeSubs(Fresh(m), "") == if m == 0 then ParsedList(Ok, [], 0, "") else ParsedList(NotEnoughData, Fresh(m), 0, "")
  {
    hide ConsumeArray, ConsumeLine, ConsumeInteger, ConsumeBulk;
    if m == 0 {
      assert Fresh(0) == [];
    } else {
      FreshTail(m);
      assert Consume(Nil, "") == Parsed(NotEnoughData, Nil, "");
    }
  }

  // A cut inside, or right behind, the first reply.
  lemma CutInFirst(m: nat, b: string, c: string)
    requires m > 0 && (Consume(Nil, b).err.Ok? ==> Consume(Nil, b).rest == "")
    ensures CutList(m, b, c) == ListOf(m - 1, Cut(b, c))
    ensures ConsumeSubs(Fresh(m), b).err.Ok? ==> ConsumeSubs(Fresh(m), b).rest == ""
  {
    hide Consume, ConsumeSubs;
    var p := Consume(Nil, b);
    FreshTail(m);
    if p.err.Ok? {
      SubsAfterFirst(Fresh(m), b);
      NothingIsRead(m - 1);
      assert "" + c == c;
      if m > 1 {
        var l := ConsumeSubs(Fresh(m - 1), "");
        PushContinue(p.reply, l, c);
        assert l.replies[0..] == l.replies && l.replies[..0] + ConsumeSubs(l.replies, c).replies == ConsumeSubs(l.replies, c).replies;
      } else {
        NoSubs(c);
        assert Fresh(0) == [];
      }
    } else {
      SubsStopAtFirst(Fresh(m), b);
      if p.err.NotEnoughData? {
        var todo := [p.reply] + Fresh(m - 1);
        assert todo[0..] == todo && todo[1..] == Fresh(m - 1);
        var q := ConsumeSubs(todo, p.rest + c);
        assert todo[..0] + q.replies == q.replies;
        if Consume(p.reply, p.rest + c).err.Ok? {
          SubsAfterFirst(todo, p.rest + c);
        } else {
          SubsStopAtFirst(todo, p.rest + c);
        }
      }
    }
  }

  // A cut behind a complete first reply.
  lemma CutBehindFirst(m: nat, b: string, c: string, r: Reply, b': string)
    requires m > 0 && Consume(Nil, b) == Parsed(Ok, r, b')
    ensures CutList(m, b, c) == Push(r, CutList(m - 1, b', c))
    ensures ConsumeSubs(Fresh(m), b).err == ConsumeSubs(Fresh(m - 1), b').err
    ensures ConsumeSubs(Fresh(m), b).rest == ConsumeSubs(Fresh(m - 1), b').rest
  {
    hide Consume, ConsumeSubs, Continue;
    FreshTail(m);
    SubsAfterFirst(Fresh(m), b);
    PushContinue(r, ConsumeSubs(Fresh(m - 1), b'), c);
  }

  // ---- a cut that matters ----

  // Where to cut an input that is not steady.
  ghost predicate CutMatters(buf: string, k: nat)
  {
    && k <= |buf| && Differ(Cut(buf[..k], buf[k..]), Consume(Nil, buf))
    && (Consume(Nil, buf[..k]).err.Ok? ==> Consume(Nil, buf[..k]).rest == "")
  }

  ghost predicate ListCutMatters(m: nat, buf: string, k: nat)
  {
    && k <= |buf| && ListsDiffer(CutList(m, buf[..k], buf[k..]), ConsumeSubs(Fresh(m), buf))
    && (ConsumeSubs(Fresh(m), buf[..k]).err.Ok? ==> ConsumeSubs(Fresh(m), buf[..k]).rest == "")
  }

  lemma LongLineCut(buf: string)
    requires buf != "" && (buf[0] == '-' || buf[0] == '+') && CrlfPos(buf) >= U32_MAX
    ensures CutMatters(buf, U32_MAX + 1)
  {
    hide ConsumeArray, ConsumeInteger, ConsumeBulk, CrlfFrom;
    var (p, k) := (CrlfPos(buf), U32_MAX + 1);
    var b := buf[..k];
    assert CrlfPos(b) < 0 by {
      assert forall i :: CrlfAt(b, i) ==> CrlfAt(buf, i);
    }
    assert b + buf[k..] == buf;
  }

  lemma EmptyHeaderCut(buf: string, need: nat)
    requires buf != "" && need == (if buf[0] == '$' then 5 else 3) && (buf[0] == ':' || buf[0] == '$' || buf[0] == '*')
    requires !SteadyHeader(buf, need)
    ensures CutMatters(buf, need)
  {
    hide ScanHeader, ConsumeLine, ConsumeSubs, ToInt32;
    UnsteadyHeader(buf, need);
    var b := buf[..need];
    assert b + buf[need..] == buf && b[need..] == "" && b[3..3] == "";
    match buf[0]
    case ':' => assert ConsumeInteger(Nil, b) == Parsed(Ok, Integer(0), "") && ConsumeInteger(Nil, buf).err.AbsolutelyWrong?;
    case '$' => assert ConsumeBulk(Nil, b).reply == Str("") && ConsumeBulk(Nil, buf) == Parsed(AbsolutelyWrong, Nil, buf);
    case _ => assert ConsumeArray(Nil, b) == Parsed(Ok, Array(0, [], -1), "") && ConsumeArray(Nil, buf).err.AbsolutelyWrong?;
  }

  lemma FreshSize(v: nat)
    ensures |Fresh(v)| == v
  {
  }

  // An array too long to be resumed, cut behind its header: what is left of it is all nils.
  lemma HugeArrayIsCut(h: string, count: nat, c: string)
    requires h != "" && h[0] == '*' && INT_MAX < count <= U32_MAX && ScanHeader(h) == Value(count, |h|)
    ensures Consume(Nil, h).err.NotEnoughData?
    ensures Cut(h, c) == Parsed(Ok, Array(ToInt32(count), Fresh(count), -1), c)
  {
    hide ScanHeader, ConsumeSubs, ConsumeArray, ConsumeLine, ConsumeInteger, ConsumeBulk, Fresh;
    assert h + "" == h && "" + c == c;
    ArrayIsOpened(h, count, "");
    NothingIsRead(count);
    assert ToInt32(count) < 0 && ToInt32(0) == 0;
    assert Consume(Nil, h) == Parsed(NotEnoughData, Array(ToInt32(count), Fresh(count), 0), "");
  }

  lemma HugeArrayCut(buf: string, count: nat, n: nat)
    requires buf != "" && buf[0] == '*' && 0 < n <= |buf| && INT_MAX < count <= U32_MAX
    requires ScanHeader(buf) == ScanHeader(buf[..n]) == Value(count, n)
    ensures CutMatters(buf, n)
  {
    hide ScanHeader, ConsumeSubs, Consume, Cut, Fresh, ToInt32;
    var (h, c) := (buf[..n], buf[n..]);
    assert h + c == buf;
    HugeArrayIsCut(h, count, c);
    ArrayIsOpened(h, count, c);
    FreshSize(count);
    var w := ConsumeSubs(Fresh(count), c);
    if w.err.Ok? && w.replies == Fresh(count) {
      assert Ahead(count, c, w.rest);
    }
  }

  // A cut among the sub-replies of an array shows in the array.
  lemma ArrayCut(buf: string, v: nat, n: nat, k: nat)
    requires buf != "" && buf[0] == '*' && 0 < v <= INT_MAX && 0 < n <= k <= |buf|
    requires ScanHeader(buf) == ScanHeader(buf[..k]) == Value(v, n)
    requires ListCutMatters(v, buf[n..], k - n)
    ensures CutMatters(buf, k)
  {
    hide ScanHeader, ConsumeSubs, ConsumeArray, ConsumeLine, ConsumeInteger, ConsumeBulk, Consume, Fresh, ListsDiffer;
    var (h, c, body) := (buf[..n], buf[k..], buf[n..]);
    var b' := body[..k - n];
    assert body[k - n..] == c && h + body == buf && h + b' == buf[..k];
    ArrayIsOpened(h, v, body);
    ArrayIsOpened(h, v, b');
    var l := ConsumeSubs(Fresh(v), b');
    FreshSize(v);
    if l.err.NotEnoughData? {
      ArrayResumes(v, l, c);
    }
    assert Cut(buf[..k], c) == Opened(v, CutList(v, b', c));
    OpenedDiffer(v, CutList(v, b', c), ConsumeSubs(Fresh(v), body));
  }

  lemma OpenedDiffer(v: nat, l: ParsedList, w: ParsedList)
    requires ListsDiffer(l, w) && v <= INT_MAX
    requires l.ndone <= v && w.ndone <= v && (l.err.Ok? <==> l.ndone == v) && (w.err.Ok? <==> w.ndone == v)
    ensures Differ(Opened(v, l), Opened(v, w))
  {
    hide ConsumeSubs;
    assert ToInt32(l.ndone) == l.ndone && ToInt32(w.ndone) == w.ndone;
  }

  lemma {:induction false} UnsteadyReply(buf: string) returns (k: nat)
    requires !Steady(Nil, buf)
    ensures CutMatters(buf, k)
    decreases |buf|, 0
  {
    hide CutMatters, ScanHeader, SteadyHeader, SteadySubs, CrlfPos, ListCutMatters;
    match buf[0]
    case '-' => k := U32_MAX + 1; LongLineCut(buf);
    case '+' => k := U32_MAX + 1; LongLineCut(buf);
    case ':' => k := 3; EmptyHeaderCut(buf, 3);
    case '$' => k := 5; EmptyHeaderCut(buf, 5);
    case _ =>
      assert !SteadyArray(Nil, buf);
      if !SteadyHeader(buf, 3) {
        k := 3;
        EmptyHeaderCut(buf, 3);
      } else {
        var h := ScanHeader(buf);
        HeaderIsLong(buf);
        if h.value > INT_MAX {
          k := h.size;
          HeaderInPrefix(buf, k, 3);
          HugeArrayCut(buf, h.value, k);
        } else {
          var k' := UnsteadyList(h.value, buf[h.size..]);
          k := h.size + k';
          ListCutInRange(h.value, buf[h.size..], k');
          HeaderInPrefix(buf, k, 3);
          ArrayCut(buf, h.value, h.size, k);
        }
      }
  }

  lemma ListCutInRange(m: nat, buf: string, k: nat)
    requires ListCutMatters(m, buf, k)
    ensures k <= |buf|
  {
  }

  lemma {:induction false} UnsteadyList(m: nat, buf: string) returns (k: nat)
    requires !SteadySubs(Fresh(m), buf)
    ensures ListCutMatters(m, buf, k)
    decreases |buf|, 1, m
  {
    hide Consume, ConsumeSubs, Steady, Fresh, Differ, ListsDiffer, Cut, CutList;
    FreshSize(m);
    assert m > 0;
    FreshTail(m);
    WholeList(m, buf);
    if !Steady(Nil, buf) {
      k := UnsteadyReply(buf);
      var (b, c) := (buf[..k], buf[k..]);
      CutInFirst(m, b, c);
      FirstDiffers(m - 1, Cut(b, c), Consume(Nil, buf));
    } else {
      var p := Consume(Nil, buf);
      ReplyTakesBytes(buf);
      var k' := UnsteadyList(m - 1, p.rest);
      var n := |buf| - |p.rest|;
      k := n + k';
      ReplyIsLocal(buf, k);
      assert buf[n..k] == p.rest[..k'] && buf[k..] == p.rest[k'..];
      CutBehindFirst(m, buf[..k], buf[k..], p.reply, p.rest[..k']);
      SubsAfterFirst(Fresh(m), buf);
      PushedDiffer(p.reply, CutList(m - 1, p.rest[..k'], p.rest[k'..]), ConsumeSubs(Fresh(m - 1), p.rest));
    }
  }

  // ---- the exact condition ----

  lemma {:induction false} ListTakesBytes(m: nat, buf: string)
    requires m > 0 && ConsumeSubs(Fresh(m), buf).err.Ok?
    ensures |ConsumeSubs(Fresh(m), buf).rest| < |buf|
  {
    hide Consume;
    FreshTail(m);
    ReplyTakesBytes(buf);
  }

  lemma DifferentListsDiffer(l: ParsedList, w: ParsedList)
    requires ListsDiffer(l, w)
    ensures l != w
  {
    hide ConsumeSubs, Fresh;
    if l.err == w.err && l.ndone == w.ndone && l.replies == w.replies {
      var count :| Ahead(count, l.rest, w.rest);
      ListTakesBytes(count, l.rest);
    }
  }

  lemma FeedTwo(m: nat, b: string, c: string)
    ensures Flatten([b, c]) == b + c && Feed(Fresh(m), "", [b, c]) == CutList(m, b, c)
  {
    hide ConsumeSubs, Fresh;
    assert [b, c][1..] == [c] && [c][1..] == [] && "" + b == b;
    assert Flatten([c]) == c + Flatten<char>([]) == c;
    NothingIsRead(m);
    FreshSize(m);
    var l := ConsumeSubs(Fresh(m), b);
    if m == 0 {
      assert Fresh(0) == [];
      NoSubs(b);
      NoSubs("");
    } else {
      var l0 := ConsumeSubs(Fresh(m), "");
      assert l0.replies[0..] == Fresh(m) && l0.rest + b == b;
      FeedOne(Fresh(m), b, c);
      var q := Feed(Fresh(m), b, [c]);
      assert l0.replies[..0] + q.replies == q.replies;
    }
  }

  lemma FeedOne(todo: seq<Reply>, b: string, c: string)
    ensures var l := ConsumeSubs(todo, b);
            Feed(todo, b, [c]) == if l.err.NotEnoughData? then Continue(l, c) else l.(rest := l.rest + c)
  {
    hide ConsumeSubs;
    assert [c][1..] == [] && Flatten([c]) == c + Flatten<char>([]) == c;
    var l := ConsumeSubs(todo, b);
    if l.err.NotEnoughData? {
      var q := ConsumeSubs(l.replies[l.ndone..], l.rest + c);
      assert Feed(l.replies[l.ndone..], l.rest + c, []) == q.(rest := q.rest + "");
      assert q.rest + "" == q.rest;
    }
  }

  // All splits of an input give what parsing it in one piece gives if and only if the input is steady.
  lemma SplitsAgreeIff(m: nat, buf: string)
    ensures (forall chunks | Flatten(chunks) == buf :: Feed(Fresh(m), "", chunks) == ConsumeSubs(Fresh(m), buf)) <==>
            SteadySubs(Fresh(m), buf)
  {
    hide ConsumeSubs, SteadySubs, Feed, ListsDiffer, Fresh, CutList;
    if SteadySubs(Fresh(m), buf) {
      forall chunks | Flatten(chunks) == buf ensures Feed(Fresh(m), "", chunks) == ConsumeSubs(Fresh(m), buf) {
        assert "" + Flatten(chunks) == buf;
        AnySplitParsesAlike(Fresh(m), "", chunks);
      }
    } else {
      var k := UnsteadyList(m, buf);
      var (b, c) := (buf[..k], buf[k..]);
      assert b + c == buf;
      FeedTwo(m, b, c);
      DifferentListsDiffer(CutList(m, b, c), ConsumeSubs(Fresh(m), buf));
    }
  }
}
