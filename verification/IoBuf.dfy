/** A byte queue that readers cut from the front and writers append to. */
module IoBuf {
  import opened Limits
  import opened Lines
  import opened Decimals

  // The bytes of a stream that comes in pieces.
  function Flatten<T>(chunks: seq<seq<T>>): seq<T>
  {
    if chunks == [] then [] else chunks[0] + Flatten(chunks[1..])
  }

  lemma {:induction false} FlattenSnoc<T>(chunks: seq<seq<T>>, last: seq<T>)
    ensures Flatten(chunks + [last]) == Flatten(chunks) + last
  {
    if chunks == [] {
      assert [last][1..] == [] && last + [] == last;
    } else {
      assert (chunks + [last])[1..] == chunks[1..] + [last];
      FlattenSnoc(chunks[1..], last);
    }
  }

  // Cut a stream into pieces of the given sizes; what is left over is one more piece.
  method Split<T>(bytes: seq<T>, sizes: seq<nat>) returns (chunks: seq<seq<T>>)
    ensures Flatten(chunks) == bytes
  {
    chunks := [];
    var left := bytes;
    for i := 0 to |sizes|
      invariant Flatten(chunks) + left == bytes
    {
      var n := if sizes[i] < |left| then sizes[i] else |left|;
      FlattenSnoc(chunks, left[..n]);
      assert left[..n] + left[n..] == left;
      chunks, left := chunks + [left[..n]], left[n..];
    }
    FlattenSnoc(chunks, left);
    chunks := chunks + [left];
  }

  class IOBuf {
    var bytes: string

    constructor ()
      ensures bytes == ""
    {
      bytes := "";
    }

    method PopFront(n: nat)
      requires n <= |bytes|
      modifies this
      ensures bytes == old(bytes)[n..]
    {
      bytes := bytes[n..];
    }

    method Cutn(n: nat) returns (out: string)
      requires n <= |bytes|
      modifies this
      ensures out == old(bytes)[..n] && bytes == old(bytes)[n..]
    {
      out := bytes[..n];
      bytes := bytes[n..];
    }

    // Cut everything before the first CRLF and drop the CRLF; without one, nothing changes.
    method CutUntilCrlf() returns (found: bool, out: string)
      modifies this
      ensures found == (CrlfPos(old(bytes)) >= 0)
      ensures found ==> out == old(bytes)[..CrlfPos(old(bytes))] && bytes == old(bytes)[CrlfPos(old(bytes)) + 2..]
      ensures !found ==> bytes == old(bytes)
    {
      var p := CrlfPos(bytes);
      found, out := p >= 0, "";
      if found {
        out := bytes[..p];
        bytes := bytes[p + 2..];
      }
    }

    method Append(s: string)
      modifies this
      ensures bytes == old(bytes) + s
    {
      bytes := bytes + s;
    }
  }

  // The digits of an unsigned 64-bit number, written backwards into a fixed buffer.
  method AppendDecimal(d: nat) returns (s: string)
    requires d <= ULONG_MAX
    ensures s == Decimal(d)
  {
    var buf := new char[24];
    var n: nat, q: nat := 24, d;
    DecimalFits(d);
    assert buf[24..] == "";
    var more := true;
    while more
      invariant n <= 24
      invariant Decimal(d) == (if more then Decimal(q) else "") + buf[n..]
      decreases if more then 1 else 0, q
    {
      assert n > 0;
      var digit := '0' + (q % 10) as char;
      ghost var written := buf[n..];
      n := n - 1;
      buf[n] := digit;
      assert buf[n..] == [digit] + written;
      assert Decimal(q) == (if q < 10 then "" else Decimal(q / 10)) + [digit];
      q := q / 10;
      more := q != 0;
    }
    s := buf[n..];
  }
}
