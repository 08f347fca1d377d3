/** Redis replies: the resumable parser as a function of the parse state it left off in and the bytes it has. */
module RespReply {
  import opened Limits
  import opened Lines
  import opened RespHeader

  datatype ParseError = Ok | NotEnoughData | AbsolutelyWrong

  // A reply and, for an array, how far its parsing got: `lastIndex` is -1 unless it was suspended.
  datatype Reply =
    | Nil
    | Status(text: string)
    | Error(text: string)
    | Integer(value: int)
    | Str(text: string)
    | NullStr
    | NullArray
    | Array(length: int, subs: seq<Reply>, lastIndex: int)
  {
    predicate Suspended() { Array? && lastIndex >= 0 }

    // Counts from 2^31 on turn negative in `length`, and the loop that resumes such an array does nothing.
    predicate Resumable() { Suspended() && lastIndex <= length == |subs| }
  }

  datatype Parsed = Parsed(err: ParseError, reply: Reply, rest: string)

  // `ndone` replies were parsed in full; the one after them may hold a suspended state.
  datatype ParsedList = ParsedList(err: ParseError, replies: seq<Reply>, ndone: nat, rest: string)

  function Fresh(n: nat): seq<Reply> { seq(n, i => Nil) }

  function Consume(r: Reply, buf: string): (p: Parsed)
    ensures |p.rest| <= |buf|
    decreases |buf|, r, 1
  {
    if r.Suspended() then
      if r.Resumable() then Resumed(r, ConsumeSubs(r.subs[r.lastIndex..], buf))
      else Parsed(Ok, r.(lastIndex := -1), buf)
    else if buf == "" then Parsed(NotEnoughData, r, buf)
    else
      match buf[0]
      case '-' => ConsumeLine(r, buf)
      case '+' => ConsumeLine(r, buf)
      case ':' => ConsumeInteger(r, buf)
      case '$' => ConsumeBulk(r, buf)
      case '*' => ConsumeArray(r, buf)
      case _ => Parsed(AbsolutelyWrong, r, buf)
  }

  // "-<message>\r\n" and "+<string>\r\n"
  function ConsumeLine(r: Reply, buf: string): (p: Parsed)
    requires buf != "" && buf[0] != '\r'
    ensures |p.rest| <= |buf|
  {
    var p := CrlfPos(buf);
    if p < 0 then Parsed(if |buf| > U32_MAX then AbsolutelyWrong else NotEnoughData, r, buf)
    else Parsed(Ok, if buf[0] == '-' then Error(buf[1..p]) else Status(buf[1..p]), buf[p + 2..])
  }

  // ":<integer>\r\n"
  function ConsumeInteger(r: Reply, buf: string): (p: Parsed)
    ensures |p.rest| <= |buf|
  {
    match ScanHeader(buf)
    case NeedMore => Parsed(NotEnoughData, r, buf)
    case Bad => Parsed(AbsolutelyWrong, r, buf)
    case Value(v, n) => Parsed(Ok, Integer(v), buf[n..])
  }

  // "$<length>\r\n<string>\r\n"
  function ConsumeBulk(r: Reply, buf: string): (p: Parsed)
    ensures |p.rest| <= |buf|
  {
    match ScanHeader(buf)
    case NeedMore => Parsed(NotEnoughData, r, buf)
    case Bad => Parsed(AbsolutelyWrong, r, buf)
    case Value(v, n) =>
      if v < 0 then Parsed(Ok, Nil, buf[n..]) else BulkBody(r, buf, n, v)
  }

  // A bulk string of `len` bytes behind a header of n.
  function BulkBody(r: Reply, buf: string, n: nat, len: nat): (p: Parsed)
    requires n <= |buf|
    ensures |p.rest| <= |buf|
  {
    if len > U32_MAX then Parsed(AbsolutelyWrong, r, buf)
    else if |buf| < n + len + 2 then Parsed(NotEnoughData, r, buf)
    else Parsed(if CrlfAt(buf, n + len) then Ok else AbsolutelyWrong, Str(buf[n..n + len]), buf[n + len + 2..])
  }

  // "*<size>\r\n<sub-reply1><sub-reply2>..."
  function ConsumeArray(r: Reply, buf: string): (p: Parsed)
    ensures |p.rest| <= |buf|
    decreases |buf|, r, 0
  {
    match ScanHeader(buf)
    case NeedMore => Parsed(NotEnoughData, r, buf)
    case Bad => Parsed(AbsolutelyWrong, r, buf)
    case Value(v, n) =>
      if v < 0 then Parsed(Ok, Nil, buf[n..])
      else if v == 0 then Parsed(Ok, Array(0, [], -1), buf[n..])
      else if v > U32_MAX then Parsed(AbsolutelyWrong, r, buf)
      else Opened(v, ConsumeSubs(Fresh(v), buf[n..]))
  }

  // An array of `count` whose sub-replies got as far as l.
  function Opened(count: nat, l: ParsedList): Parsed
  {
    Parsed(l.err, Array(ToInt32(count), l.replies, if l.err.Ok? then -1 else ToInt32(l.ndone)), l.rest)
  }

  // A suspended array after its remaining sub-replies got as far as l.
  function Resumed(r: Reply, l: ParsedList): Parsed
    requires r.Resumable()
  {
    Parsed(l.err,
           Array(r.length, r.subs[..r.lastIndex] + l.replies,
                 if l.err.Ok? then -1 else r.lastIndex + l.ndone),
           l.rest)
  }

  function ConsumeSubs(todo: seq<Reply>, buf: string): (l: ParsedList)
    ensures |l.replies| == |todo| && l.ndone <= |todo| && |l.rest| <= |buf|
    ensures l.err.Ok? <==> l.ndone == |todo|
    decreases |buf|, todo, 2
  {
    if todo == [] then ParsedList(Ok, [], 0, buf)
    else
      var p := Consume(todo[0], buf);
      if !p.err.Ok? then ParsedList(p.err, [p.reply] + todo[1..], 0, p.rest)
      else
        var l := ConsumeSubs(todo[1..], p.rest);
        ParsedList(l.err, [p.reply] + l.replies, l.ndone + 1, l.rest)
  }
}
