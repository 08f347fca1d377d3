/**
 Headers of the Redis protocol, "<type><decimal>\r\n": how they are written, how strtoll reads them from the
 31-byte window at the front of the buffer, and when a header decision can change as more bytes arrive.
 */
module RespHeader {
  import opened Limits
  import opened Lines
  import opened Decimals

  // ---- strtoll ----

  predicate IsSpace(c: char) { c == ' ' || '\t' <= c <= '\r' }

  function DigitValue(c: char): nat
    requires IsDigit(c)
  {
    (c - '0') as nat
  }

  function SkipSpace(s: string, i: nat): (j: nat)
    requires i <= |s|
    ensures i <= j <= |s|
    ensures forall k :: i <= k < j ==> IsSpace(s[k])
    ensures j < |s| ==> !IsSpace(s[j])
    decreases |s| - i
  {
    if i < |s| && IsSpace(s[i]) then SkipSpace(s, i + 1) else i
  }

  function SkipDigits(s: string, i: nat): (j: nat)
    requires i <= |s|
    ensures i <= j <= |s|
    ensures forall k :: i <= k < j ==> IsDigit(s[k])
    ensures j < |s| ==> !IsDigit(s[j])
    decreases |s| - i
  {
    if i < |s| && IsDigit(s[i]) then SkipDigits(s, i + 1) else i
  }

  // The number written by the digits from j to k.
  function Natural(s: string, j: nat, k: nat): nat
    requires j <= k <= |s|
    requires forall m :: j <= m < k ==> IsDigit(s[m])
    decreases k
  {
    if k == j then 0 else 10 * Natural(s, j, k - 1) + DigitValue(s[k - 1])
  }

  lemma {:induction false} NaturalShifted(s: string, j: nat, k: nat, t: string, d: nat)
    requires j <= k <= |s| && d + k <= |t|
    requires forall m :: j <= m < k ==> IsDigit(s[m]) && t[d + m] == s[m]
    ensures forall m :: d + j <= m < d + k ==> IsDigit(t[m])
    ensures Natural(t, d + j, d + k) == Natural(s, j, k)
  {
    assert forall m :: d + j <= m < d + k ==> t[m] == s[m - d];
    if k > j {
      NaturalShifted(s, j, k - 1, t, d);
    }
  }

  function Clamp(v: int): int { if v > LLONG_MAX then LLONG_MAX else if v < LLONG_MIN then LLONG_MIN else v }

  datatype Number = Number(value: int, end: nat)

  predicate IsSign(c: char) { c == '-' || c == '+' }

  // Where the parts of a number stand: blanks up to i, an optional sign, digits from j to k.
  predicate Parts(s: string, i: nat, j: nat, k: nat)
  {
    && i <= j <= k <= |s|
    && (forall m :: 0 <= m < i ==> IsSpace(s[m]))
    && (i < |s| ==> !IsSpace(s[i]))
    && j == (if i < |s| && IsSign(s[i]) then i + 1 else i)
    && (forall m :: j <= m < k ==> IsDigit(s[m]))
    && (k < |s| ==> !IsDigit(s[k]))
  }

  function NumberAt(s: string, i: nat, j: nat, k: nat): Number
    requires Parts(s, i, j, k)
  {
    if k == j then Number(0, 0)
    else Number(Clamp(if s[i] == '-' then -(Natural(s, j, k) as int) else Natural(s, j, k)), k)
  }

  // Leading white space, an optional sign, digits. Without a digit nothing is read and `end` is 0.
  function Strtoll(s: string): Number
  {
    var i := SkipSpace(s, 0);
    var j := if i < |s| && IsSign(s[i]) then i + 1 else i;
    NumberAt(s, i, j, SkipDigits(s, j))
  }

  lemma StrtollParts(s: string, i: nat, j: nat, k: nat)
    requires Parts(s, i, j, k)
    ensures SkipSpace(s, 0) == i
    ensures Strtoll(s) == NumberAt(s, i, j, k)
  {
    assert SkipSpace(s, 0) == i;
    assert SkipDigits(s, j) == k;
  }

  lemma PartsOf(s: string) returns (i: nat, j: nat, k: nat)
    ensures Parts(s, i, j, k) && i == SkipSpace(s, 0)
  {
    i := SkipSpace(s, 0);
    j := if i < |s| && IsSign(s[i]) then i + 1 else i;
    k := SkipDigits(s, j);
  }

  // Two strings that agree up to a carriage return have their numbers at the same places before it.
  lemma PartsAgree(s: string, t: string, n: nat, i: nat, j: nat, k: nat)
    requires n < |s| && n < |t|
    requires forall m :: 0 <= m <= n ==> s[m] == t[m]
    requires s[n] == '\r' && i < n && Parts(s, i, j, k)
    ensures k <= n && Parts(t, i, j, k)
    ensures NumberAt(t, i, j, k) == NumberAt(s, i, j, k)
  {
    assert k <= n;
    NaturalShifted(s, j, k, t, 0);
  }

  lemma StrtollAgrees(s: string, t: string, n: nat)
    requires n < |s| && n < |t|
    requires forall m :: 0 <= m <= n ==> s[m] == t[m]
    requires s[n] == '\r' && SkipSpace(s, 0) < n
    ensures Strtoll(s) == Strtoll(t) && Strtoll(s).end <= n
  {
    var i, j, k := PartsOf(s);
    PartsAgree(s, t, n, i, j, k);
    StrtollParts(s, i, j, k);
    StrtollParts(t, i, j, k);
  }

  lemma StrtollPastBlank(s: string, n: nat)
    requires 0 < n <= SkipSpace(s, 0)
    ensures Strtoll(s).end != n
  {
  }

  // ---- scanning ----

  const WINDOW: nat := 31

  function Window(buf: string): string { if |buf| <= WINDOW then buf else buf[..WINDOW] }

  datatype Header = NeedMore | Bad | Value(value: int, size: nat)

  // Read "<type><decimal>\r\n" off the front of the buffer; `size` covers the CRLF.
  function ScanHeader(buf: string): (h: Header)
    ensures h.Value? ==> 2 <= h.size <= |buf| && h.size <= WINDOW && LLONG_MIN <= h.value <= LLONG_MAX
  {
    var w := Window(buf);
    var p := CrlfPos(w);
    if p < 0 then NeedMore
    else
      var n := Strtoll(w[1..]);
      if 1 + n.end != p then Bad else Value(n.value, p + 2)
  }

  predicate EmptyHeader(buf: string) { CrlfAt(buf, 1) }

  lemma WindowExtends(b: string, more: string)
    ensures Window(b + more) == Window(b) + Window(b + more)[|Window(b)|..]
  {
  }

  // A decision on a header with something between type and CRLF is final.
  lemma HeaderIsStable(b: string, more: string)
    requires !ScanHeader(b).NeedMore? && !EmptyHeader(b)
    ensures ScanHeader(b + more) == ScanHeader(b)
  {
    var w, w' := Window(b), Window(b + more);
    WindowExtends(b, more);
    CrlfPosExtends(w, w'[|w|..]);
    var p := CrlfPos(w);
    assert p != 1;
    var s, t := w[1..], w'[1..];
    if p >= 2 {
      assert s[..p] == t[..p] && s[p - 1] == t[p - 1] == '\r';
      if SkipSpace(s, 0) < p - 1 {
        StrtollAgrees(s, t, p - 1);
      } else {
        assert forall k :: 0 <= k < p - 1 ==> t[k] == s[k];
        StrtollPastBlank(s, p - 1);
        StrtollPastBlank(t, p - 1);
      }
    }
  }

  // Only white space so far, or white space and a sign: a digit may still follow.
  predicate Undecided(s: string)
  {
    var i := SkipSpace(s, 0);
    i == |s| || (i == |s| - 1 && (IsSign(s[i])))
  }

  // When bytes that arrive later can overturn a header decision: exactly for an empty header that is followed
  // by nothing but white space and perhaps a sign, in a window that is not full.
  lemma HeaderStableIff(b: string)
    requires !ScanHeader(b).NeedMore?
    ensures (forall more :: ScanHeader(b + more) == ScanHeader(b)) <==>
            !(EmptyHeader(b) && |b| < WINDOW && Undecided(b[1..]))
  {
    if EmptyHeader(b) && |b| < WINDOW {
      if Undecided(b[1..]) {
        EmptyHeaderOverturned(b);
        assert ScanHeader(b + "5") != ScanHeader(b);
      } else {
        forall more
          ensures ScanHeader(b + more) == ScanHeader(b)
        {
          EmptyHeaderDecided(b, more);
        }
      }
    } else {
      forall more
        ensures ScanHeader(b + more) == ScanHeader(b)
      {
        if EmptyHeader(b) {
          assert Window(b + more) == Window(b);
        } else {
          HeaderIsStable(b, more);
        }
      }
    }
  }

  lemma EmptyHeaderOverturned(b: string)
    requires EmptyHeader(b) && |b| < WINDOW && Undecided(b[1..])
    ensures ScanHeader(b).Value? && ScanHeader(b + "5").Bad?
  {
    var s, t := b[1..], (b + "5")[1..];
    assert t == s + "5";
    assert CrlfPos(b) == 1 by { assert CrlfAt(b, 1); }
    CrlfPosExtends(b, "5");
    var i := SkipSpace(s, 0);
    assert forall m :: 0 <= m < |s| ==> t[m] == s[m];
    StrtollParts(s, i, |s|, |s|);
    StrtollParts(t, i, |s|, |t|);
  }

  lemma EmptyHeaderDecided(b: string, more: string)
    requires EmptyHeader(b) && |b| < WINDOW && !Undecided(b[1..])
    ensures ScanHeader(b + more) == ScanHeader(b)
  {
    var w' := Window(b + more);
    WindowExtends(b, more);
    CrlfPosExtends(b, w'[|b|..]);
    assert CrlfPos(b) == 1 by { assert CrlfAt(b, 1); }
    var s, t := b[1..], w'[1..];
    assert forall k :: 0 <= k < |s| ==> t[k] == s[k];
    var i, j, k := PartsOf(s);
    var i', j', k' := PartsOf(t);
    assert i' == i && j' == j;
    assert IsDigit(s[j]) <==> k > j;
    assert IsDigit(t[j]) <==> k' > j;
    StrtollParts(s, i, j, k);
    StrtollParts(t, i, j, k');
  }

  // ---- headers that are read alike wherever the input is cut ----

  // An empty header is harmful if a digit behind it makes it bad, but a cut in front of that digit leaves the
  // `need` bytes on which the reader acts.
  predicate SteadyHeader(buf: string, need: nat)
  {
    EmptyHeader(buf) && ScanHeader(buf).Bad? && |buf| >= need ==> ScanHeader(buf[..need]).Bad?
  }

  lemma EmptyHeaderIsZero(b: string)
    requires EmptyHeader(b)
    ensures ScanHeader(b) == Value(0, 3) || ScanHeader(b).Bad?
  {
    var w := Window(b);
    assert CrlfPos(w) == 1 by { assert CrlfAt(w, 1); }
    var i, j, k := PartsOf(w[1..]);
    StrtollParts(w[1..], i, j, k);
  }

  // Without a digit in the longer window there is none in the shorter.
  lemma EmptyHeaderShrinks(b: string, c: string)
    requires EmptyHeader(b) && ScanHeader(b + c).Value?
    ensures ScanHeader(b) == Value(0, 3)
  {
    hide Natural, Clamp, SkipSpace, SkipDigits, Strtoll, CrlfFrom;
    var w, w' := Window(b), Window(b + c);
    WindowExtends(b, c);
    assert CrlfPos(w) == 1 by { assert CrlfAt(w, 1); }
    assert CrlfPos(w') == 1 by { assert CrlfAt(w', 1); }
    var s, t := w[1..], w'[1..];
    assert forall m :: 0 <= m < |s| ==> t[m] == s[m];
    var i, j, k := PartsOf(s);
    var i', j', k' := PartsOf(t);
    assert j < |s| && IsDigit(s[j]) ==> i' == i && j' == j;
    StrtollParts(s, i, j, k);
    StrtollParts(t, i', j', k');
  }

  // What a prefix makes of a steady header: the same, or an empty header with too little behind it to act on.
  lemma SteadyHeaderExtends(b: string, c: string, need: nat)
    requires SteadyHeader(b + c, need) && need >= 3 && !ScanHeader(b).NeedMore?
    ensures ScanHeader(b + c) == ScanHeader(b) || (|b| < need && ScanHeader(b) == Value(0, 3))
    ensures ScanHeader(b).Value? ==> (b + c)[ScanHeader(b).size..] == b[ScanHeader(b).size..] + c
  {
    hide ScanHeader;
    if !EmptyHeader(b) {
      HeaderIsStable(b, c);
    } else {
      assert EmptyHeader(b + c);
      EmptyHeaderIsZero(b);
      EmptyHeaderIsZero(b + c);
      if ScanHeader(b + c).Value? {
        EmptyHeaderShrinks(b, c);
      } else if |b| >= need {
        assert (b + c)[..need] == b[..need] && b[..need] + b[need..] == b && EmptyHeader(b[..need]);
        if ScanHeader(b).Value? {
          EmptyHeaderShrinks(b[..need], b[need..]);
        }
      }
    }
  }

  lemma HeaderIsLong(buf: string)
    requires ScanHeader(buf).Value? && buf != "" && buf[0] != '\r'
    ensures ScanHeader(buf).size >= 3
  {
  }

  // A prefix that covers a steady header and what it acts on reads it alike.
  lemma HeaderInPrefix(buf: string, k: nat, need: nat)
    requires SteadyHeader(buf, need) && need >= 3 && ScanHeader(buf).Value? && need <= k <= |buf|
    requires ScanHeader(buf).size <= k
    ensures ScanHeader(buf[..k]) == ScanHeader(buf)
  {
    var b, c := buf[..k], buf[k..];
    assert b + c == buf;
    var p := CrlfPos(Window(buf));
    assert CrlfAt(Window(b), p);
    SteadyHeaderExtends(b, c, need);
  }

  lemma UnsteadyHeader(buf: string, need: nat)
    requires !SteadyHeader(buf, need) && need >= 3
    ensures |buf| >= need && buf[1] == '\r' && buf[2] == '\n' && ScanHeader(buf).Bad?
    ensures ScanHeader(buf[..need]) == Value(0, 3)
  {
    hide ScanHeader;
    assert EmptyHeader(buf[..need]);
    EmptyHeaderIsZero(buf[..need]);
  }

  // ---- decimals ----

  lemma {:induction false} NaturalOfDecimal(n: nat)
    ensures Natural(Decimal(n), 0, |Decimal(n)|) == n
  {
    if n >= 10 {
      var s := Decimal(n / 10);
      NaturalOfDecimal(n / 10);
      NaturalShifted(s, 0, |s|, Decimal(n), 0);
    }
  }

  // Digits with an optional minus in front of a carriage return are read in full.
  lemma StrtollOfDigits(d: string, j: nat, s: string)
    requires d != "" && forall m :: 0 <= m < |d| ==> IsDigit(d[m])
    requires j == 0 || (j == 1 && s != "" && s[0] == '-')
    requires j + |d| < |s| && s[j + |d|] == '\r'
    requires forall m :: 0 <= m < |d| ==> s[j + m] == d[m]
    ensures Strtoll(s) == Number(Clamp(if j == 1 then -(Natural(d, 0, |d|) as int) else Natural(d, 0, |d|)), j + |d|)
  {
    NaturalShifted(d, 0, |d|, s, j);
    assert s[j] == d[0];
    StrtollParts(s, 0, j, j + |d|);
  }

  lemma StrtollOfDecimal(v: int, s: string)
    requires SignedDecimal(v) + "\r" <= s
    ensures Strtoll(s) == Number(Clamp(v), |SignedDecimal(v)|)
  {
    var j, n := if v < 0 then 1 else 0, if v < 0 then -v else v;
    NaturalOfDecimal(n);
    StrtollOfDigits(Decimal(n), j, s);
  }

  // A written header is read back whatever follows it, an unsigned number from 2^63 on as 2^63 - 1.
  lemma HeaderRoundTrip(fc: char, v: int, rest: string)
    requires fc != '\r' && LLONG_MIN <= v <= ULONG_MAX
    ensures var h := [fc] + SignedDecimal(v) + "\r\n";
            && !EmptyHeader(h + rest)
            && ScanHeader(h + rest) == Value(Clamp(v), |h|)
  {
    hide SignedDecimal, CrlfPos, Strtoll;
    var d := SignedDecimal(v);
    var h := [fc] + d + "\r\n";
    SignedDecimalLength(v);
    HeaderLine(fc, v);
    assert d + "\r" <= h[1..];
    StrtollOfDecimal(v, h[1..]);
    HeaderIsStable(h, rest);
  }

  lemma HeaderLine(fc: char, v: int)
    requires fc != '\r'
    ensures CrlfPos([fc] + SignedDecimal(v) + "\r\n") == 1 + |SignedDecimal(v)|
  {
    var line := [fc] + SignedDecimal(v);
    assert NoCrlf(line);
    assert line + "\r\n" + "" == line + "\r\n";
    CrlfPosOfLine(line, "");
  }
}
