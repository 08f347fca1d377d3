/** How a command line is cut into components: bare words and quoted strings. */
module CommandTokens {
  import opened Options

  predicate IsQuote(c: char) { c == '"' || c == '\'' }

  // The body of a quoted string and what follows its closing quote q. A backslash in front of q escapes it.
  function Quoted(s: string, q: char): (r: Option<(string, string)>)
    ensures r.Some? ==> |r.value.0| + 1 + |r.value.1| <= |s|
  {
    if s == "" then None
    else if s[0] == q then Some(("", s[1..]))
    else if s[0] == '\\' && |s| > 1 && s[1] == q then Prefixed([q], Quoted(s[2..], q))
    else Prefixed([s[0]], Quoted(s[1..], q))
  }

  function Prefixed(p: string, r: Option<(string, string)>): Option<(string, string)>
  {
    if r.None? then None else Some((p + r.value.0, r.value.1))
  }

  // The length of the bare word at the front.
  function WordLength(s: string): (n: nat)
    ensures n <= |s|
    ensures s != "" && s[0] != ' ' && !IsQuote(s[0]) ==> n > 0
  {
    if s == "" || s[0] == ' ' || IsQuote(s[0]) then 0 else 1 + WordLength(s[1..])
  }

  // The components of a command line; none if a quote is not closed.
  function Tokens(s: string): Option<seq<string>>
    decreases |s|
  {
    if s == "" then Some([])
    else if s[0] == ' ' then Tokens(s[1..])
    else if IsQuote(s[0]) then
      var r := Quoted(s[1..], s[0]);
      if r.None? then None else Cons(r.value.0, Tokens(r.value.1))
    else
      var n := WordLength(s);
      Cons(s[..n], Tokens(s[n..]))
  }

  function Cons(t: string, ts: Option<seq<string>>): Option<seq<string>>
  {
    if ts.None? then None else Some([t] + ts.value)
  }

  function Append(done: seq<string>, ts: Option<seq<string>>): Option<seq<string>>
  {
    if ts.None? then None else Some(done + ts.value)
  }

  // ---- the same cut, one character at a time ----

  // Scanning state: the open quote, if any, and the component collected so far.
  datatype Scan = Scan(quote: Option<char>, comp: string, done: seq<string>)

  predicate ValidScan(st: Scan) { st.quote.Some? ==> IsQuote(st.quote.value) }

  // The component that `comp` will become, from the middle of quotes. A backslash at its end may be an escape.
  function InQuote(comp: string, q: char, rest: string): Option<(string, string)>
  {
    if EndsInBackslash(comp) then Prefixed(comp[..|comp| - 1], Quoted(['\\'] + rest, q)) else Prefixed(comp, Quoted(rest, q))
  }

  // What the line will be cut into, from the middle of it: `rest` is still to be read.
  function Pending(st: Scan, rest: string): Option<seq<string>>
  {
    if st.quote.Some? then
      var r := InQuote(st.comp, st.quote.value, rest);
      if r.None? then None else Append(st.done, Cons(r.value.0, Tokens(r.value.1)))
    else if st.comp == "" then Append(st.done, Tokens(rest))
    else
      var n := WordLength(rest);
      Append(st.done, Cons(st.comp + rest[..n], Tokens(rest[n..])))
  }

  predicate EndsInBackslash(s: string) { s != "" && s[|s| - 1] == '\\' }

  function Step(st: Scan, c: char): Scan
  {
    if c == ' ' then
      if st.quote.Some? then st.(comp := st.comp + [c])
      else if st.comp != "" then Flush(st)
      else st
    else if IsQuote(c) then
      if st.quote.None? then (if st.comp != "" then Flush(st) else st).(quote := Some(c))
      else if st.quote.value == c then
        if EndsInBackslash(st.comp) then st.(comp := st.comp[..|st.comp| - 1] + [c])
        else Flush(st).(quote := None)
      else st.(comp := st.comp + [c])
    else st.(comp := st.comp + [c])
  }

  function Flush(st: Scan): Scan { st.(comp := "", done := st.done + [st.comp]) }

  lemma PrefixedTwice(a: string, b: string, r: Option<(string, string)>)
    ensures Prefixed(a, Prefixed(b, r)) == Prefixed(a + b, r)
  {
    if r.Some? {
      assert a + (b + r.value.0) == a + b + r.value.0;
    }
  }

  lemma AppendCons(done: seq<string>, t: string, ts: Option<seq<string>>)
    ensures Append(done, Cons(t, ts)) == Append(done + [t], ts)
  {
    if ts.Some? {
      assert done + ([t] + ts.value) == done + [t] + ts.value;
    }
  }

  // Inside quotes: any other character is collected,
  lemma InQuotePush(comp: string, c: char, rest: string, q: char)
    requires c != q && q != '\\'
    ensures InQuote(comp, q, [c] + rest) == InQuote(comp + [c], q, rest)
  {
    PushStep(comp, c, rest, q);
    if EndsInBackslash(comp) {
      var (init, s) := (comp[..|comp| - 1], [c] + rest);
      var b := ['\\'] + s;
      assert b[1..] == s && Quoted(b, q) == Prefixed(['\\'], Quoted(s, q));
      PrefixedTwice(init, ['\\'], Quoted(s, q));
      assert comp == init + ['\\'];
    }
    assert (comp + [c])[..|comp|] == comp;
  }

  // an escaped quote replaces its backslash,
  lemma InQuoteEscape(comp: string, rest: string, q: char)
    requires EndsInBackslash(comp) && q != '\\'
    ensures InQuote(comp, q, [q] + rest) == InQuote(comp[..|comp| - 1] + [q], q, rest)
  {
    var b := ['\\'] + ([q] + rest);
    assert b[2..] == rest && Quoted(b, q) == Prefixed([q], Quoted(rest, q));
    PrefixedTwice(comp[..|comp| - 1], [q], Quoted(rest, q));
  }

  // and the closing quote ends the component.
  lemma InQuoteClose(comp: string, rest: string, q: char)
    requires !EndsInBackslash(comp)
    ensures InQuote(comp, q, [q] + rest) == Some((comp, rest))
  {
    assert ([q] + rest)[1..] == rest && comp + "" == comp;
  }

  lemma QuotedStep(st: Scan, c: char, rest: string)
    requires ValidScan(st) && st.quote.Some?
    ensures Pending(Step(st, c), rest) == Pending(st, [c] + rest)
  {
    hide Tokens, Quoted, InQuote;
    var q := st.quote.value;
    if c != q {
      InQuotePush(st.comp, c, rest, q);
    } else if EndsInBackslash(st.comp) {
      InQuoteEscape(st.comp, rest, q);
    } else {
      InQuoteClose(st.comp, rest, q);
      AppendCons(st.done, st.comp, Tokens(rest));
    }
  }

  // Collecting a character other than the closing quote.
  lemma PushStep(comp: string, c: char, rest: string, q: char)
    requires c != q && q != '\\'
    ensures Prefixed(comp, Quoted([c] + rest, q)) ==
            if c == '\\' then Prefixed(comp, Quoted(['\\'] + rest, q)) else Prefixed(comp + [c], Quoted(rest, q))
  {
    var s := [c] + rest;
    assert s[1..] == rest;
    if c != '\\' {
      assert Quoted(s, q) == Prefixed([c], Quoted(rest, q));
      PrefixedTwice(comp, [c], Quoted(rest, q));
    }
  }

  // Reading a character outside quotes.
  lemma BareStep(st: Scan, c: char, rest: string)
    requires st.quote.None?
    ensures Pending(Step(st, c), rest) == Pending(st, [c] + rest)
  {
    hide Quoted;
    var s := [c] + rest;
    assert s[1..] == rest && s[0] == c;
    var n := WordLength(s);
    if c == ' ' || IsQuote(c) {
      assert n == 0 && s[..0] == "" && s[0..] == s && st.comp + "" == st.comp;
      AppendCons(st.done, st.comp, Tokens(s));
      if IsQuote(c) {
        assert "" + "" == "";
        var r := Quoted(rest, c);
        if r.Some? {
          assert "" + r.value.0 == r.value.0;
        }
        assert Prefixed("", r) == r;
      }
    } else {
      var m := WordLength(rest);
      assert n == m + 1 && s[n..] == rest[m..];
      assert s[..n] == [c] + rest[..m];
      assert st.comp + s[..n] == st.comp + [c] + rest[..m];
      assert "" + [c] == [c];
    }
  }

  lemma StepKeepsPending(st: Scan, c: char, rest: string)
    requires ValidScan(st)
    ensures ValidScan(Step(st, c))
    ensures Pending(Step(st, c), rest) == Pending(st, [c] + rest)
  {
    if st.quote.Some? {
      QuotedStep(st, c, rest);
    } else {
      BareStep(st, c, rest);
    }
  }

  // At the end of the line an open quote is an error; otherwise the last word is flushed.
  lemma PendingAtEnd(st: Scan)
    requires ValidScan(st)
    ensures Pending(st, "") == if st.quote.Some? then None else Some(if st.comp == "" then st.done else st.done + [st.comp])
  {
    if st.quote.Some? {
      var b := ['\\'] + "";
      assert b[1..] == "" && Quoted("", st.quote.value).None?;
      assert Quoted(b, st.quote.value).None?;
    } else {
      assert st.comp + "" == st.comp && st.done + [] == st.done && ""[..0] == "" && ""[0..] == "";
      assert [st.comp] + [] == [st.comp];
    }
  }

  // ---- quoting ----

  // Components in double quotes, separated by spaces.
  function QuoteAll(comps: seq<string>): string
  {
    if comps == [] then ""
    else if |comps| == 1 then "\"" + comps[0] + "\""
    else "\"" + comps[0] + "\" " + QuoteAll(comps[1..])
  }

  predicate Quotable(c: string) { '"' !in c && !EndsInBackslash(c) }

  lemma {:induction false} QuotedReadsBack(c: string, q: char, rest: string)
    requires q !in c && q != '\\' && !EndsInBackslash(c)
    ensures Quoted(c + [q] + rest, q) == Some((c, rest))
  {
    var s := c + [q] + rest;
    if c == "" {
      assert s[1..] == rest;
    } else {
      var t := c[1..];
      assert s[0] == c[0] && c[0] in c && s[1..] == t + [q] + rest;
      assert forall x <- t :: x in c;
      assert t != "" ==> t[|t| - 1] == c[|c| - 1];
      QuotedReadsBack(t, q, rest);
      if c[0] == '\\' {
        assert t != "" && s[1] == t[0] && t[0] in c;
      }
      assert [c[0]] + t == c;
    }
  }

  // Quoting any components, empty ones included, and tokenizing gives them back.
  lemma {:induction false} QuotedComponentsReadBack(comps: seq<string>)
    requires forall c <- comps :: Quotable(c)
    ensures Tokens(QuoteAll(comps)) == Some(comps)
  {
    hide Quoted, WordLength;
    if comps != [] {
      var c := comps[0];
      var s := QuoteAll(comps);
      assert Quotable(c) by { assert c in comps; }
      if |comps| == 1 {
        assert s[0] == '"' && s[1..] == c + ['"'] + "";
        QuotedReadsBack(c, '"', "");
        assert Tokens("") == Some([]);
        assert comps == [c] + [];
      } else {
        var tail := QuoteAll(comps[1..]);
        assert s[0] == '"' && s[1..] == c + ['"'] + (" " + tail);
        QuotedReadsBack(c, '"', " " + tail);
        QuotedComponentsReadBack(comps[1..]);
        assert (" " + tail)[1..] == tail;
        assert comps == [c] + comps[1..];
      }
    }
  }

  // If nothing is lost between the quotes, nothing was escaped.
  lemma {:induction false} LosslessMeansPlain(s: string, q: char)
    requires q != '\\'
    requires Quoted(s, q).Some?
    requires var (t, rest) := Quoted(s, q).value; |t| + 1 + |rest| == |s|
    ensures var (t, rest) := Quoted(s, q).value; q !in t && !EndsInBackslash(t) && s == t + [q] + rest
  {
    var (t, rest) := Quoted(s, q).value;
    if s[0] == q {
      assert s == "" + [q] + s[1..];
    } else {
      assert !(s[0] == '\\' && |s| > 1 && s[1] == q);
      LosslessMeansPlain(s[1..], q);
      var (t', rest') := Quoted(s[1..], q).value;
      assert t == [s[0]] + t' && s == [s[0]] + s[1..];
      if t' == "" {
        assert s[1..][0] == q;
      }
    }
  }

  // A single component survives double quotes exactly when it has no double quote and no trailing backslash.
  lemma QuotableIff(c: string)
    ensures Tokens("\"" + c + "\"") == Some([c]) <==> Quotable(c)
  {
    var s := "\"" + c + "\"";
    assert s == QuoteAll([c]);
    if Quotable(c) {
      QuotedComponentsReadBack([c]);
    }
    if Tokens(s) == Some([c]) {
      assert s[0] == '"' && s[1..] == c + "\"";
      var r := Quoted(s[1..], '"');
      assert r.Some? && Tokens(r.value.1).Some?;
      assert ([r.value.0] + Tokens(r.value.1).value)[0] == c;
      LosslessMeansPlain(s[1..], '"');
    }
  }

  // ---- whole lines ----

  // A component as it may stand on a line: a bare word, or any text in quotes of either kind with those quotes
  // escaped, behind some blanks.
  datatype Piece = Piece(blanks: nat, quote: Option<char>, text: string)
  {
    predicate Valid()
    {
      if quote.Some? then (quote.value == '"' || quote.value == '\'') && !EndsInBackslash(text)
      else text != "" && forall c <- text :: c != ' ' && c != '"' && c != '\''
    }
  }

  function Escape(text: string, q: char): string
  {
    if text == "" then "" else (if text[0] == q then ['\\', q] else [text[0]]) + Escape(text[1..], q)
  }

  function Blanks(n: nat): string { seq(n, i => ' ') }

  function Render(p: Piece): string
  {
    if p.quote.Some? then [p.quote.value] + Escape(p.text, p.quote.value) + [p.quote.value] else p.text
  }

  function Line(ps: seq<Piece>, trailing: nat): string
  {
    if ps == [] then Blanks(trailing) else Blanks(ps[0].blanks) + (Render(ps[0]) + Line(ps[1..], trailing))
  }

  function Texts(ps: seq<Piece>): seq<string> { seq(|ps|, i requires 0 <= i < |ps| => ps[i].text) }

  // Two bare words need a blank between them; a quote needs none.
  predicate Separated(ps: seq<Piece>)
  {
    && (forall p <- ps :: p.Valid())
    && forall i :: 0 < i < |ps| && ps[i - 1].quote.None? && ps[i].quote.None? ==> ps[i].blanks > 0
  }

  // One character, escaped or not, in front of a quoted string that is read.
  lemma EscapedStep(c: char, q: char, s: string)
    requires IsQuote(q) && (c == '\\' ==> s != "" && s[0] != q)
    ensures Quoted((if c == q then ['\\', q] else [c]) + s, q) == Prefixed([c], Quoted(s, q))
  {
    var t := (if c == q then ['\\', q] else [c]) + s;
    if c == q {
      assert t[2..] == s;
    } else {
      assert t[1..] == s;
    }
  }

  lemma {:induction false} EscapedReadsBack(text: string, q: char, rest: string)
    requires IsQuote(q) && !EndsInBackslash(text)
    ensures Quoted(Escape(text, q) + [q] + rest, q) == Some((text, rest))
  {
    var s := Escape(text, q) + [q] + rest;
    if text == "" {
      assert s[1..] == rest;
    } else {
      hide Quoted;
      var t := text[1..];
      assert t != "" ==> t[|t| - 1] == text[|text| - 1];
      EscapedReadsBack(t, q, rest);
      var s' := Escape(t, q) + [q] + rest;
      assert s == (if text[0] == q then ['\\', q] else [text[0]]) + s';
      if text[0] == '\\' {
        assert t != "" && s'[0] == Escape(t, q)[0] != q;
      }
      EscapedStep(text[0], q, s');
      assert [text[0]] + t == text;
    }
  }

  lemma {:induction false} BlanksAreSkipped(n: nat, rest: string)
    ensures Tokens(Blanks(n) + rest) == Tokens(rest)
  {
    var s := Blanks(n) + rest;
    if n == 0 {
      assert s == rest;
    } else {
      assert s[0] == ' ' && s[1..] == Blanks(n - 1) + rest;
      BlanksAreSkipped(n - 1, rest);
    }
  }

  lemma {:induction false} WordEnds(word: string, rest: string)
    requires forall c <- word :: c != ' ' && !IsQuote(c)
    requires rest == "" || rest[0] == ' ' || IsQuote(rest[0])
    ensures WordLength(word + rest) == |word|
  {
    var s := word + rest;
    if word == "" {
      assert s == rest;
    } else {
      assert s[0] == word[0] && word[0] in word && s[1..] == word[1..] + rest;
      assert forall c <- word[1..] :: c in word;
      WordEnds(word[1..], rest);
    }
  }

  // A quoted string, or a bare word, at the front of a line.
  lemma QuoteIsCut(q: char, body: string)
    requires IsQuote(q) && Quoted(body, q).Some?
    ensures Tokens([q] + body) == Cons(Quoted(body, q).value.0, Tokens(Quoted(body, q).value.1))
  {
    hide Quoted, WordLength;
    assert ([q] + body)[1..] == body;
  }

  lemma WordIsCut(word: string, rest: string)
    requires word != "" && word[0] != ' ' && !IsQuote(word[0]) && WordLength(word + rest) == |word|
    ensures Tokens(word + rest) == Cons(word, Tokens(rest))
  {
    hide Quoted, WordLength;
    var s := word + rest;
    assert s[0] == word[0] && s[..|word|] == word && s[|word|..] == rest;
  }

  lemma PieceIsCut(p: Piece, rest: string)
    requires p.Valid() && (p.quote.None? ==> rest == "" || rest[0] == ' ' || IsQuote(rest[0]))
    ensures Tokens(Render(p) + rest) == Cons(p.text, Tokens(rest))
  {
    hide Tokens, Quoted, WordLength, Escape;
    if p.quote.Some? {
      var q := p.quote.value;
      var body := Escape(p.text, q) + [q] + rest;
      EscapedReadsBack(p.text, q, rest);
      QuoteIsCut(q, body);
      assert Render(p) + rest == [q] + body;
    } else {
      WordEnds(p.text, rest);
      assert p.text[0] in p.text;
      WordIsCut(p.text, rest);
    }
  }

  lemma SeparatedBehind(ps: seq<Piece>)
    requires Separated(ps) && ps != []
    ensures ps[0].Valid() && Separated(ps[1..])
    ensures ps[0].quote.None? && |ps| > 1 ==> ps[1].blanks > 0 || (ps[1].Valid() && ps[1].quote.Some?)
  {
    assert forall i :: 0 <= i < |ps| ==> ps[i] in ps;
    assert forall i :: 0 < i < |ps[1..]| ==> ps[1..][i] == ps[i + 1] && ps[1..][i - 1] == ps[i];
  }

  // A line of bare words and quoted texts is cut into exactly those.
  lemma {:induction false} LineReadsBack(ps: seq<Piece>, trailing: nat)
    requires Separated(ps)
    ensures Tokens(Line(ps, trailing)) == Some(Texts(ps))
  {
    hide Tokens, Render, Separated, Blanks;
    if ps == [] {
      BlanksAreSkipped(trailing, "");
      assert Blanks(trailing) + "" == Blanks(trailing);
      NoTokens();
    } else {
      var (p, rest) := (ps[0], Line(ps[1..], trailing));
      SeparatedBehind(ps);
      LineReadsBack(ps[1..], trailing);
      BlanksAreSkipped(p.blanks, Render(p) + rest);
      if p.quote.None? {
        LineStarts(ps[1..], trailing);
      }
      PieceIsCut(p, rest);
      assert [p.text] + Texts(ps[1..]) == Texts(ps);
    }
  }

  lemma NoTokens()
    ensures Tokens("") == Some([])
  {
  }

  // What may stand behind a bare word.
  lemma LineStarts(ps: seq<Piece>, trailing: nat)
    requires ps == [] || ps[0].blanks > 0 || (ps[0].Valid() && ps[0].quote.Some?)
    ensures var s := Line(ps, trailing); s == "" || s[0] == ' ' || IsQuote(s[0])
  {
    if ps != [] && ps[0].blanks == 0 {
      assert Line(ps, trailing)[0] == Render(ps[0])[0];
    }
  }
}
