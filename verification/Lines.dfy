/** Lines that end in CRLF. */
module Lines {
  predicate CrlfAt(s: string, i: int) { 0 <= i < |s| - 1 && s[i] == '\r' && s[i + 1] == '\n' }

  ghost predicate NoCrlf(s: string) { forall i :: !CrlfAt(s, i) }

  // The first CRLF at or after `from`, or -1.
  function CrlfFrom(s: string, from: nat): (p: int)
    requires from <= |s|
    ensures p == -1 || (from <= p && CrlfAt(s, p))
    ensures forall i :: from <= i && CrlfAt(s, i) ==> 0 <= p <= i
    decreases |s| - from
  {
    if CrlfAt(s, from) then from
    else if from == |s| then -1
    else CrlfFrom(s, from + 1)
  }

  function CrlfPos(s: string): (p: int)
    ensures p == -1 || CrlfAt(s, p)
    ensures forall i :: CrlfAt(s, i) ==> 0 <= p <= i
  {
    CrlfFrom(s, 0)
  }

  lemma CrlfPosExtends(s: string, more: string)
    requires CrlfPos(s) >= 0
    ensures CrlfPos(s + more) == CrlfPos(s)
  {
    var p := CrlfPos(s);
    assert CrlfAt(s + more, p);
    var q := CrlfPos(s + more);
    assert q <= p && CrlfAt(s + more, q);
    assert CrlfAt(s, q);
  }

  // A line without CRLF, its terminator, and anything else.
  lemma CrlfPosOfLine(line: string, rest: string)
    requires NoCrlf(line)
    ensures CrlfPos(line + "\r\n" + rest) == |line|
  {
    var s := line + "\r\n" + rest;
    assert CrlfAt(s, |line|);
    forall i | 0 <= i < |line|
      ensures !CrlfAt(s, i)
    {
      assert s[i] == line[i] && !CrlfAt(line, i);
    }
  }

  // n bytes and two more behind a header.
  lemma Behind(h: string, body: string, n: nat)
    requires n + 2 <= |body|
    ensures (h + body)[|h|..|h| + n] == body[..n] && (h + body)[|h| + n + 2..] == body[n + 2..]
    ensures CrlfAt(h + body, |h| + n) <==> CrlfAt(body, n)
  {
  }
}
