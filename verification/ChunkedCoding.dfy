/** Chunked transfer coding: how a piece of data is written as a chunk, and a decoder by section 4.1 of RFC 7230. */
module ChunkedCoding {
  import opened Options
  import opened Limits
  import opened Lines
  import opened IoBuf

  // ---- writing ----

  function HexDigit(d: nat): char
    requires d < 16
  {
    if d < 10 then '0' + d as char else 'A' + (d - 10) as char
  }

  function Hex(n: nat): string
  {
    (if n < 16 then "" else Hex(n / 16)) + [HexDigit(n % 16)]
  }

  // The head of an empty chunk comes out without its digit.
  function ChunkHead(size: nat): string { (if size == 0 then "" else Hex(size)) + "\r\n" }

  // The size is passed on as a 32-bit number.
  function Chunk(data: string): string { ChunkHead(|data| % U32) + data + "\r\n" }

  const LAST := "0\r\n\r\n"

  lemma HexDigits(d: nat)
    requires d < 16
    ensures HexDigit(d) == "0123456789ABCDEF"[d]
  {
  }

  lemma {:induction false} HexLength(n: nat, k: nat)
    requires k > 0 && n < Pow16(k)
    ensures 1 <= |Hex(n)| <= k
  {
    if n >= 16 {
      assert k > 1 && n / 16 < Pow16(k - 1);
      HexLength(n / 16, k - 1);
    }
  }

  function Pow16(k: nat): nat { if k == 0 then 1 else 16 * Pow16(k - 1) }

  lemma HexFits(n: nat)
    requires n < U32
    ensures 1 <= |Hex(n)| <= 8
  {
    assert Pow16(3) == 0x1000;
    assert Pow16(6) == 0x100_0000;
    assert Pow16(8) == U32;
    HexLength(n, 8);
  }

  lemma HexStep(n: nat)
    ensures Hex(n) == (if n < 16 then "" else Hex(n / 16)) + [HexDigit(n % 16)] && |Hex(n)| > 0
  {
  }

  // Moving the last digit over to what is written.
  lemma DigitMoves(size: nat, written: string)
    ensures Hex(size) + written == (if size < 16 then "" else Hex(size / 16)) + ([HexDigit(size % 16)] + written)
  {
    hide HexDigit;
  }

  method PutDigit(tmp: array<char>, i: nat, digit: nat)
    requires i < tmp.Length && digit < 16
    modifies tmp
    ensures tmp[i..] == [HexDigit(digit)] + old(tmp[i + 1..])
  {
    hide HexDigit;
    tmp[i] := HexDigit(digit);
  }

  // The digits are written backwards, in front of what begins at `end`.
  method PutDigits(tmp: array<char>, value: nat, end: int) returns (i: int)
    requires 0 < value < U32 && 8 < end < tmp.Length
    modifies tmp
    ensures -1 <= i < end && tmp[i + 1..] == Hex(value) + old(tmp[end..])
  {
    hide Hex, HexDigit;
    var size: nat, more := value, true;
    ghost var digits := 8;
    ghost var all := Hex(value) + tmp[end..];
    HexFits(size);
    i := end - 1;
    while more && i >= 0
      invariant -1 <= i < end && (more ==> i >= digits - 1 && |Hex(size)| <= digits)
      invariant all == if more then Hex(size) + tmp[i + 1..] else tmp[i + 1..]
      decreases i, more
    {
      HexStep(size);
      DigitMoves(size, tmp[i + 1..]);
      var newSize := size / 16;
      PutDigit(tmp, i, size - newSize * 16);
      size, i, digits := newSize, i - 1, digits - 1;
      more := size != 0;
    }
    HexStep(size);
  }

  method AppendChunkHead(buf: IOBuf, value: nat)
    requires value < U32
    modifies buf
    ensures buf.bytes == old(buf.bytes) + ChunkHead(value)
  {
    hide Hex;
    var tmp := new char[32];
    var i := 32;
    i := i - 1;
    tmp[i] := '\n';
    i := i - 1;
    tmp[i] := '\r';
    assert tmp[30..] == "\r\n";
    if value == 0 {
      i := i - 1;
      tmp[i] := '0';
      assert tmp[i + 1..] == tmp[30..] == ChunkHead(0);
    } else {
      i := PutDigits(tmp, value, i);
    }
    buf.Append(tmp[i + 1..]);
  }

  // What goes on the wire for one piece of data: a chunk, or before HTTP/1.1 the data itself.
  function Wire(data: string, beforeHttp11: bool): string
  {
    if beforeHttp11 then data else Chunk(data)
  }

  method AppendAsChunk(buf: IOBuf, data: string, beforeHttp11: bool)
    modifies buf
    ensures buf.bytes == old(buf.bytes) + Wire(data, beforeHttp11)
  {
    hide ChunkHead;
    if !beforeHttp11 {
      AppendChunkHead(buf, |data| % U32);
      buf.Append(data);
      buf.Append("\r\n");
    } else {
      buf.Append(data);
    }
  }

  // ---- reading, by the RFC ----

  datatype Body = Body(data: string, rest: string)

  predicate IsHex(c: char) { '0' <= c <= '9' || 'A' <= c <= 'F' || 'a' <= c <= 'f' }

  function HexValue(c: char): nat
    requires IsHex(c)
  {
    if c <= '9' then (c - '0') as int else if c <= 'F' then (c - 'A') as int + 10 else (c - 'a') as int + 10
  }

  // The length of the run of hexadecimal digits at the front.
  function HexRun(s: string): (n: nat)
    ensures n <= |s| && forall i :: 0 <= i < n ==> IsHex(s[i])
    ensures n < |s| ==> !IsHex(s[n])
  {
    if s == "" || !IsHex(s[0]) then 0 else 1 + HexRun(s[1..])
  }

  function HexNat(s: string): nat
    requires forall c <- s :: IsHex(c)
  {
    if s == "" then 0 else 16 * HexNat(s[..|s| - 1]) + HexValue(s[|s| - 1])
  }

  // Where the line of a chunk size with n digits ends, with or without extensions; or -1.
  function SizeLineEnd(s: string, n: nat): (e: int)
    requires n <= |s|
    ensures e == -1 || (n <= e && CrlfAt(s, e))
  {
    if CrlfAt(s, n) then n else if n < |s| && s[n] == ';' then CrlfFrom(s, n) else -1
  }

  // Trailer fields up to and including the empty line.
  function Trailer(s: string): (r: Option<string>)
    ensures r.Some? ==> |r.value| + 2 <= |s|
    decreases |s|
  {
    var e := CrlfPos(s);
    if e < 0 then None else if e == 0 then Some(s[2..]) else Trailer(s[e + 2..])
  }

  // The decoded data and what follows the chunked body.
  function Decode(s: string): (r: Option<Body>)
    ensures r.Some? ==> |r.value.data| + |r.value.rest| + (if r.value.data == "" then 5 else 10) <= |s|
    decreases |s|
  {
    var n := HexRun(s);
    var e := SizeLineEnd(s, n);
    if n == 0 || e < 0 then None
    else
      var size := HexNat(s[..n]);
      var body := s[e + 2..];
      if size == 0 then
        var t := Trailer(body);
        if t.None? then None else Some(Body("", t.value))
      else if !CrlfAt(body, size) then None
      else
        var r := Decode(body[size + 2..]);
        if r.None? then None else Some(Body(body[..size] + r.value.data, r.value.rest))
  }

  // ---- round trip ----

  lemma {:induction false} HexReadsBack(n: nat)
    ensures forall c <- Hex(n) :: IsHex(c)
    ensures HexNat(Hex(n)) == n
  {
    var s := Hex(n);
    var init := if n < 16 then "" else Hex(n / 16);
    assert s == init + [HexDigit(n % 16)];
    assert s[..|s| - 1] == init;
    assert HexValue(HexDigit(n % 16)) == n % 16;
    if n >= 16 {
      HexReadsBack(n / 16);
    }
  }

  lemma {:induction false} HexRunOf(digits: string, s: string)
    requires forall c <- digits :: IsHex(c)
    requires s != "" && !IsHex(s[0])
    ensures HexRun(digits + s) == |digits|
  {
    var all := digits + s;
    if digits == "" {
      assert all == s;
    } else {
      assert all[0] == digits[0] && digits[0] in digits;
      assert all[1..] == digits[1..] + s;
      HexRunOf(digits[1..], s);
    }
  }

  // What the decoder makes of a chunk head of any size but zero.
  lemma HeadDecodes(size: nat, s: string)
    requires 0 < size
    ensures var all := ChunkHead(size) + s;
            var n := HexRun(all);
            0 < n && SizeLineEnd(all, n) == n && HexNat(all[..n]) == size && all[n + 2..] == s
  {
    hide Hex, HexNat, HexRun;
    HexStep(size);
    var all := ChunkHead(size) + s;
    var digits := Hex(size);
    HexReadsBack(size);
    assert all == digits + ("\r\n" + s);
    HexRunOf(digits, "\r\n" + s);
    assert all[..|digits|] == digits && CrlfAt(all, |digits|) && all[|digits| + 2..] == s;
  }

  lemma DecodeHead(size: nat, s: string)
    requires 0 < size
    ensures Decode(ChunkHead(size) + s) ==
            if !CrlfAt(s, size) || Decode(s[size + 2..]).None? then None
            else var r := Decode(s[size + 2..]).value; Some(Body(s[..size] + r.data, r.rest))
  {
    hide ChunkHead, HexNat;
    HeadDecodes(size, s);
  }

  // A chunk of data that fits in 32 bits, in front of any chunked body.
  lemma ChunkDecodes(data: string, tail: string)
    requires 0 < |data| < U32
    requires Decode(tail).Some?
    ensures Decode(Chunk(data) + tail) == Some(Body(data + Decode(tail).value.data, Decode(tail).value.rest))
  {
    hide Decode, ChunkHead;
    var head := ChunkHead(|data|);
    var s := data + "\r\n" + tail;
    assert Chunk(data) + tail == head + s;
    DecodeHead(|data|, s);
    assert CrlfAt(s, |data|) && s[|data| + 2..] == tail && s[..|data|] == data;
  }

  lemma LastDecodes(rest: string)
    ensures Decode(LAST + rest) == Some(Body("", rest))
  {
    var s := LAST + rest;
    assert s == "0" + ("\r\n\r\n" + rest);
    HexRunOf("0", "\r\n\r\n" + rest);
    assert CrlfAt(s, 1) && s[..1] == "0";
    assert HexNat("0"[..0]) == 0;
    assert HexNat("0") == 0;
    var body := s[3..];
    assert CrlfAt(body, 0) && body[2..] == rest;
  }

  // A piece of data survives as a single chunk exactly when its size is neither zero nor beyond 32 bits.
  lemma SingleChunkIff(data: string)
    ensures Decode(Chunk(data) + LAST) == Some(Body(data, "")) <==> 0 < |data| < U32
  {
    hide Decode, ChunkHead;
    assert LAST + "" == LAST;
    LastDecodes("");
    if 0 < |data| < U32 {
      ChunkDecodes(data, LAST);
      assert data + "" == data;
    } else if |data| % U32 == 0 {
      SizelessHead(data + "\r\n" + LAST);
      assert Chunk(data) + LAST == ChunkHead(0) + (data + "\r\n" + LAST);
    } else {
      var k := |data| % U32;
      var s := data + "\r\n" + LAST;
      assert Chunk(data) + LAST == ChunkHead(k) + s;
      DecodeHead(k, s);
    }
  }

  lemma SizelessHead(s: string)
    ensures Decode(ChunkHead(0) + s).None?
  {
    var all := ChunkHead(0) + s;
    assert all[0] == '\r' && HexRun(all) == 0;
  }

  function WireAll(pieces: seq<string>, beforeHttp11: bool): string
  {
    if pieces == [] then ""
    else WireAll(pieces[..|pieces| - 1], beforeHttp11) + Wire(pieces[|pieces| - 1], beforeHttp11)
  }

  lemma NoPieces()
    ensures Flatten<char>([]) == ""
  {
  }

  // The chunks of any pieces, in front of a chunked body.
  lemma {:induction false} ChunksDecode(pieces: seq<string>, tail: string)
    requires forall p <- pieces :: 0 < |p| < U32
    requires Decode(tail).Some?
    ensures Decode(WireAll(pieces, false) + tail) ==
            Some(Body(Flatten(pieces) + Decode(tail).value.data, Decode(tail).value.rest))
  {
    hide Decode, Chunk, Flatten;
    if pieces == [] {
      assert Flatten<char>([]) == "" by { NoPieces(); }
      assert "" + tail == tail && "" + Decode(tail).value.data == Decode(tail).value.data;
    } else {
      var init, p := pieces[..|pieces| - 1], pieces[|pieces| - 1];
      ChunkDecodes(p, tail);
      ChunksDecode(init, Chunk(p) + tail);
      assert pieces == init + [p];
      FlattenSnoc(init, p);
      assert WireAll(pieces, false) + tail == WireAll(init, false) + (Chunk(p) + tail);
      assert Flatten(pieces) + Decode(tail).value.data == Flatten(init) + (p + Decode(tail).value.data);
    }
  }

  // A whole body: chunks and the last chunk decode to the pieces joined, and nothing is left over.
  lemma BodyDecodes(pieces: seq<string>, rest: string)
    requires forall p <- pieces :: 0 < |p| < U32
    ensures Decode(WireAll(pieces, false) + (LAST + rest)) == Some(Body(Flatten(pieces), rest))
  {
    hide Decode, WireAll, Flatten;
    LastDecodes(rest);
    ChunksDecode(pieces, LAST + rest);
    assert Flatten(pieces) + "" == Flatten(pieces);
  }

  lemma {:induction false} PlainIsJoined(pieces: seq<string>)
    ensures WireAll(pieces, true) == Flatten(pieces)
  {
    if pieces != [] {
      var init := pieces[..|pieces| - 1];
      PlainIsJoined(init);
      assert pieces == init + [pieces[|pieces| - 1]];
      FlattenSnoc(init, pieces[|pieces| - 1]);
    }
  }
}
