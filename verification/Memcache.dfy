/** Memcache requests: builders append binary frames and count them, and the parser walks and counts frames. */
module Memcache {
  import opened Options
  import opened Limits
  import opened ByteOrder
  import opened IoBuf

  const MAGIC_REQUEST: Byte := 0x80
  const HEADER := 24

  const FLUSH: Byte := 0x08
  const VERSION: Byte := 0x0b
  const TOUCH: Byte := 0x1c

  // ---- frames ----

  datatype Op = Op(command: Byte, extras: Bytes, key: Bytes, value: Bytes, cas: nat)

  function Body(op: Op): Bytes { op.extras + op.key + op.value }

  // The packed header; lengths are cut to the width of their fields.
  function Header(command: Byte, keyLength: nat, extrasLength: Byte, bodyLength: nat, cas: nat): (h: Bytes)
    ensures |h| == HEADER
  {
    [MAGIC_REQUEST, command] + ToBytes(keyLength, 2) + [extrasLength, 0, 0, 0] + ToBytes(bodyLength, 4) +
    ToBytes(0, 4) + ToBytes(cas, 8)
  }

  function Frame(op: Op): Bytes
    requires |op.extras| < 256
  {
    Header(op.command, |op.key|, |op.extras|, |Body(op)|, op.cas) + Body(op)
  }

  function Length(s: Bytes): nat
    requires |s| >= HEADER
  {
    HEADER + BigEndian(s[8..12])
  }

  // A header, and exactly as many bytes behind it as it announces.
  predicate IsFrame(s: Bytes) { |s| >= HEADER && s[0] == MAGIC_REQUEST && |s| == Length(s) }

  // The request a frame stands for, read field by field.
  function Decode(s: Bytes): Option<Op>
  {
    if !IsFrame(s) then None
    else
      var (k, e) := (BigEndian(s[2..4]), s[4]);
      if HEADER + e + k > |s| then None
      else Some(Op(s[1], s[HEADER..HEADER + e], s[HEADER + e..HEADER + e + k], s[HEADER + e + k..], BigEndian(s[16..24])))
  }

  lemma HeaderFields(op: Op)
    requires |op.extras| < 256
    ensures var s := Frame(op);
            && s[0] == 0x80 && s[1] == op.command && s[4] == |op.extras|
            && s[2..4] == ToBytes(|op.key|, 2) && s[8..12] == ToBytes(|Body(op)|, 4) && s[16..24] == ToBytes(op.cas, 8)
            && s[HEADER..] == Body(op) && |s| == HEADER + |Body(op)|
  {
    hide ToBytes, Body;
    var s := Frame(op);
    var (k, b, z, c) := (ToBytes(|op.key|, 2), ToBytes(|Body(op)|, 4), ToBytes(0, 4), ToBytes(op.cas, 8));
    assert s == [MAGIC_REQUEST, op.command] + k + [|op.extras|, 0, 0, 0] + b + z + c + Body(op);
  }

  lemma Pieces(h: Bytes, e: Bytes, k: Bytes, v: Bytes)
    ensures var s := h + (e + k + v);
            s[|h|..|h| + |e|] == e && s[|h| + |e|..|h| + |e| + |k|] == k && s[|h| + |e| + |k|..] == v
  {
  }

  // The header announces the bytes behind it exactly when their number fits in its 32 bits.
  lemma FrameIsFrameIff(op: Op)
    requires |op.extras| < 256
    ensures IsFrame(Frame(op)) <==> |Body(op)| < U32
  {
    hide ToBytes, BigEndian, Body, Header, Frame;
    HeaderFields(op);
    Widths();
    NumberIsBounded(Frame(op)[8..12]);
    if |Body(op)| < U32 {
      NumberReadsBack(|Body(op)|, 4);
    }
  }

  // A frame stands for the request it was built from exactly when body and key length fit in 32 and 16 bits.
  lemma DecodesIff(op: Op)
    requires |op.extras| < 256 && op.cas < U64
    ensures Decode(Frame(op)) == Some(op) <==> |Body(op)| < U32 && |op.key| < U16
  {
    hide ToBytes, BigEndian, Header, Frame;
    var s := Frame(op);
    HeaderFields(op);
    FrameIsFrameIff(op);
    Widths();
    NumberReadsBack(op.cas, 8);
    NumberIsBounded(s[2..4]);
    if |op.key| < U16 {
      NumberReadsBack(|op.key|, 2);
      Pieces(s[..HEADER], op.extras, op.key, op.value);
      assert s == s[..HEADER] + s[HEADER..] == s[..HEADER] + (op.extras + op.key + op.value);
    }
  }

  // ---- walking frames ----

  predicate HasFrame(s: Bytes) { |s| >= HEADER && s[0] == MAGIC_REQUEST && |s| >= Length(s) }

  // The frames a buffer consists of, if it does.
  function FramesOf(s: Bytes): (r: Option<seq<Bytes>>)
    decreases |s|
  {
    if s == [] then Some([])
    else if !HasFrame(s) then None
    else
      Behind([s[..Length(s)]], FramesOf(s[Length(s)..]))
  }

  // Frames found after others.
  function Behind(found: seq<Bytes>, r: Option<seq<Bytes>>): Option<seq<Bytes>>
  {
    if r.None? then None else Some(found + r.value)
  }

  lemma BehindNone(r: Option<seq<Bytes>>)
    ensures Behind([], r) == r
  {
    if r.Some? {
      assert [] + r.value == r.value;
    }
  }

  lemma BehindStep(found: seq<Bytes>, f: Bytes, r: Option<seq<Bytes>>)
    ensures Behind(found, Behind([f], r)) == Behind(found + [f], r)
  {
    if r.Some? {
      assert found + ([f] + r.value) == found + [f] + r.value;
    }
  }

  // What the walk finds are frames, and they make up the buffer.
  lemma {:induction false} FramesAreFound(s: Bytes)
    requires FramesOf(s).Some?
    ensures var fs := FramesOf(s).value; Flatten(fs) == s && forall f <- fs :: IsFrame(f)
    decreases |s|
  {
    if s != [] {
      var (f, rest) := (s[..Length(s)], s[Length(s)..]);
      FramesAreFound(rest);
      assert f[8..12] == s[8..12];
      var fs := FramesOf(s).value;
      assert fs[0] == f && fs[1..] == FramesOf(rest).value;
      assert f + rest == s;
    }
  }

  // Any frames put together are found again, no more and no less.
  lemma {:induction false} FramesComeBack(fs: seq<Bytes>)
    requires forall f <- fs :: IsFrame(f)
    ensures FramesOf(Flatten(fs)) == Some(fs)
  {
    if fs != [] {
      hide BigEndian;
      var (f, rest, s) := (fs[0], Flatten(fs[1..]), Flatten(fs));
      FramesComeBack(fs[1..]);
      assert IsFrame(f);
      assert s == f + rest && s[8..12] == f[8..12] && s[0] == f[0];
      assert Length(s) == |f| && s[..|f|] == f && s[|f|..] == rest;
      assert [f] + fs[1..] == fs;
    }
  }

  // ---- the request ----

  // Sizes of the extras packed behind the header.
  const STORE_EXTRAS := 8
  const COUNTER_EXTRAS := 20
  const TOUCH_EXTRAS := 4

  function StoreOp(command: Byte, key: Bytes, value: Bytes, flags: nat, exptime: nat, cas: nat): Op
  {
    Op(command, ToBytes(flags, 4) + ToBytes(exptime, 4), key, value, cas)
  }

  function CounterOp(command: Byte, key: Bytes, delta: nat, initial: nat, exptime: nat): Op
  {
    Op(command, ToBytes(delta, 8) + ToBytes(initial, 8) + ToBytes(exptime, 4), key, [], 0)
  }

  function FlushOp(timeout: nat): Op { Op(FLUSH, if timeout == 0 then [] else ToBytes(timeout, 4), [], [], 0) }

  function TouchOp(key: Bytes, exptime: nat): Op { Op(TOUCH, ToBytes(exptime, 4), key, [], 0) }

  // What a server reads from the frame of each request: every argument in its place.
  lemma StoreIsRead(command: Byte, key: Bytes, value: Bytes, flags: nat, exptime: nat, cas: nat)
    requires flags < U32 && exptime < U32 && cas < U64 && |key| < U16 && STORE_EXTRAS + |key| + |value| < U32
    ensures var r := Decode(Frame(StoreOp(command, key, value, flags, exptime, cas)));
            && r.Some? && r.value.command == command && r.value.key == key && r.value.value == value && r.value.cas == cas
            && |r.value.extras| == 8 && BigEndian(r.value.extras[..4]) == flags && BigEndian(r.value.extras[4..]) == exptime
  {
    hide ToBytes, BigEndian, Decode, Frame;
    DecodesIff(StoreOp(command, key, value, flags, exptime, cas));
    Widths();
    NumberReadsBack(flags, 4);
    NumberReadsBack(exptime, 4);
    assert (ToBytes(flags, 4) + ToBytes(exptime, 4))[..4] == ToBytes(flags, 4);
    assert (ToBytes(flags, 4) + ToBytes(exptime, 4))[4..] == ToBytes(exptime, 4);
  }

  lemma CounterIsRead(command: Byte, key: Bytes, delta: nat, initial: nat, exptime: nat)
    requires delta < U64 && initial < U64 && exptime < U32 && |key| < U16
    ensures var r := Decode(Frame(CounterOp(command, key, delta, initial, exptime)));
            && r.Some? && r.value.command == command && r.value.key == key && r.value.value == [] && r.value.cas == 0
            && |r.value.extras| == 20 && BigEndian(r.value.extras[..8]) == delta
            && BigEndian(r.value.extras[8..16]) == initial && BigEndian(r.value.extras[16..]) == exptime
  {
    hide ToBytes, BigEndian, Decode, Frame;
    DecodesIff(CounterOp(command, key, delta, initial, exptime));
    Widths();
    NumberReadsBack(delta, 8);
    NumberReadsBack(initial, 8);
    NumberReadsBack(exptime, 4);
    var extras := ToBytes(delta, 8) + ToBytes(initial, 8) + ToBytes(exptime, 4);
    assert extras[..8] == ToBytes(delta, 8) && extras[8..16] == ToBytes(initial, 8) && extras[16..] == ToBytes(exptime, 4);
  }

  lemma SmallRequestsAreRead(command: Byte, key: Bytes, exptime: nat)
    requires exptime < U32 && |key| < U16
    ensures Decode(Frame(Op(command, [], key, [], 0))) == Some(Op(command, [], key, [], 0))
    ensures var r := Decode(Frame(TouchOp(key, exptime)));
            && r.Some? && r.value.command == 0x1c && r.value.key == key && r.value.value == []
            && |r.value.extras| == 4 && BigEndian(r.value.extras) == exptime
    ensures var r := Decode(Frame(FlushOp(exptime)));
            && r.Some? && r.value.command == 0x08 && r.value.key == r.value.value == []
            && (if exptime == 0 then r.value.extras == [] else |r.value.extras| == 4 && BigEndian(r.value.extras) == exptime)
    ensures Decode(Frame(Op(VERSION, [], [], [], 0))) == Some(Op(0x0b, [], [], [], 0))
  {
    hide ToBytes, BigEndian, Decode, Frame;
    Widths();
    NumberReadsBack(exptime, 4);
    DecodesIff(Op(command, [], key, [], 0));
    DecodesIff(TouchOp(key, exptime));
    DecodesIff(FlushOp(exptime));
    DecodesIff(Op(VERSION, [], [], [], 0));
  }

  class MemcacheRequest {
    var buf: Bytes
    var pipelinedCount: nat
    ghost var frames: seq<Bytes>

    constructor ()
      ensures Valid() && frames == []
    {
      buf, pipelinedCount, frames := [], 0, [];
    }

    // The buffer is what the counted calls wrote.
    ghost predicate Counted()
      reads this
    {
      buf == Flatten(frames) && pipelinedCount == |frames|
    }

    // Moreover, each call wrote one frame.
    ghost predicate Valid()
      reads this
    {
      Counted() && forall f <- frames :: IsFrame(f)
    }

    method Clear()
      modifies this
      ensures Valid() && frames == []
    {
      buf, pipelinedCount, frames := [], 0, [];
    }

    // What was written last is the frame of `op`.
    ghost method Note(op: Op)
      requires |op.extras| < 256 && buf == Flatten(frames) + Frame(op) && pipelinedCount == |frames| + 1
      modifies this`frames
      ensures Counted() && frames == old(frames) + [Frame(op)]
      ensures Valid() <==> (forall f <- old(frames) :: IsFrame(f)) && |Body(op)| < U32
    {
      hide IsFrame, Frame, Body;
      FrameIsFrameIff(op);
      FlattenSnoc(frames, Frame(op));
      frames := frames + [Frame(op)];
    }

    method GetOrDelete(command: Byte, key: Bytes)
      requires Counted()
      modifies this
      ensures Counted() && frames == old(frames) + [Frame(Op(command, [], key, [], 0))]
      ensures Valid() <==> old(Valid()) && |key| < U32
    {
      hide IsFrame, Header;
      buf := buf + Header(command, |key|, 0, |key|, 0);
      buf := buf + key;
      pipelinedCount := pipelinedCount + 1;
      assert Body(Op(command, [], key, [], 0)) == key;
      Note(Op(command, [], key, [], 0));
    }

    method Flush(timeout: nat)
      requires Counted() && timeout < U32
      modifies this
      ensures Counted() && frames == old(frames) + [Frame(FlushOp(timeout))]
      ensures Valid() <==> old(Valid())
    {
      hide IsFrame, Header;
      var extras: Byte := if timeout == 0 then 0 else 4;
      var header := Header(FLUSH, 0, extras, extras, 0);
      if extras == 0 {
        buf := buf + header;
      } else {
        buf := buf + (header + ToBytes(timeout, 4));
      }
      pipelinedCount := pipelinedCount + 1;
      assert Body(FlushOp(timeout)) == FlushOp(timeout).extras;
      Note(FlushOp(timeout));
    }

    method Store(command: Byte, key: Bytes, value: Bytes, flags: nat, exptime: nat, cas: nat)
      requires Counted() && flags < U32 && exptime < U32 && cas < U64
      modifies this
      ensures Counted() && frames == old(frames) + [Frame(StoreOp(command, key, value, flags, exptime, cas))]
      ensures Valid() <==> old(Valid()) && STORE_EXTRAS + |key| + |value| < U32
    {
      hide IsFrame, Header, ToBytes;
      var header := Header(command, |key|, STORE_EXTRAS, STORE_EXTRAS + |key| + |value|, cas);
      buf := buf + (header + ToBytes(flags, 4) + ToBytes(exptime, 4));
      buf := buf + key;
      buf := buf + value;
      pipelinedCount := pipelinedCount + 1;
      Note(StoreOp(command, key, value, flags, exptime, cas));
    }

    method Counter(command: Byte, key: Bytes, delta: nat, initial: nat, exptime: nat)
      requires Counted() && delta < U64 && initial < U64 && exptime < U32
      modifies this
      ensures Counted() && frames == old(frames) + [Frame(CounterOp(command, key, delta, initial, exptime))]
      ensures Valid() <==> old(Valid()) && COUNTER_EXTRAS + |key| < U32
    {
      hide IsFrame, Header, ToBytes;
      var header := Header(command, |key|, COUNTER_EXTRAS, COUNTER_EXTRAS + |key|, 0);
      buf := buf + (header + ToBytes(delta, 8) + ToBytes(initial, 8) + ToBytes(exptime, 4));
      buf := buf + key;
      pipelinedCount := pipelinedCount + 1;
      Note(CounterOp(command, key, delta, initial, exptime));
    }

    method Touch(key: Bytes, exptime: nat)
      requires Counted() && exptime < U32
      modifies this
      ensures Counted() && frames == old(frames) + [Frame(TouchOp(key, exptime))]
      ensures Valid() <==> old(Valid()) && TOUCH_EXTRAS + |key| < U32
    {
      hide IsFrame, Header, ToBytes;
      buf := buf + (Header(TOUCH, |key|, TOUCH_EXTRAS, TOUCH_EXTRAS + |key|, 0) + ToBytes(exptime, 4));
      buf := buf + key;
      pipelinedCount := pipelinedCount + 1;
      Note(TouchOp(key, exptime));
    }

    method Version()
      requires Counted()
      modifies this
      ensures Counted() && frames == old(frames) + [Frame(Op(VERSION, [], [], [], 0))]
      ensures Valid() <==> old(Valid())
    {
      hide IsFrame, Header;
      buf := buf + Header(VERSION, 0, 0, 0, 0);
      pipelinedCount := pipelinedCount + 1;
      assert Body(Op(VERSION, [], [], [], 0)) == [];
      Note(Op(VERSION, [], [], [], 0));
    }

    method MergeFrom(from: MemcacheRequest)
      requires Counted() && from.Counted() && from != this
      modifies this
      ensures Counted() && frames == old(frames) + from.frames
      ensures Valid() <==> old(Valid()) && from.Valid()
    {
      hide IsFrame;
      FlattenBoth(frames, from.frames);
      buf := buf + from.buf;
      pipelinedCount := pipelinedCount + from.pipelinedCount;
      frames := frames + from.frames;
    }

    // Bytes are accepted exactly when they are whole frames; otherwise nothing changes.
    method MergePartialFromCodedStream(blocks: seq<Bytes>) returns (ok: bool)
      requires Counted()
      modifies this
      ensures Counted() && (Valid() <==> old(Valid())) && ok == FramesOf(Flatten(blocks)).Some?
      ensures frames == if ok then old(frames) + FramesOf(Flatten(blocks)).value else old(frames)
    {
      hide IsFrame, FramesOf;
      var saved := Gather(blocks);
      var count;
      ok, count := CountFrames(saved);
      if !ok {
        return;
      }
      ghost var found := FramesOf(saved).value;
      FramesAreFound(saved);
      FlattenBoth(frames, found);
      buf := buf + saved;
      pipelinedCount := pipelinedCount + count;
      frames := frames + found;
    }
  }

  // Pop frames off the front and count them.
  method CountFrames(s: Bytes) returns (ok: bool, count: nat)
    ensures ok == FramesOf(s).Some? && (ok ==> count == |FramesOf(s).value|)
  {
    hide BigEndian;
    var tmp := s;
    count := 0;
    ghost var found: seq<Bytes> := [];
    BehindNone(FramesOf(s));
    while tmp != []
      invariant |found| == count && FramesOf(s) == Behind(found, FramesOf(tmp))
      decreases |tmp|
    {
      if |tmp| < HEADER || tmp[0] != MAGIC_REQUEST {
        return false, count;
      }
      var length := BigEndian(tmp[8..12]);
      if |tmp| < HEADER + length {
        return false, count;
      }
      BehindStep(found, tmp[..HEADER + length], FramesOf(tmp[HEADER + length..]));
      found := found + [tmp[..HEADER + length]];
      tmp := tmp[HEADER + length..];
      count := count + 1;
    }
    ok := true;
  }

  method Gather(blocks: seq<Bytes>) returns (all: Bytes)
    ensures all == Flatten(blocks)
  {
    all := [];
    for i := 0 to |blocks|
      invariant all == Flatten(blocks[..i])
    {
      assert blocks[..i + 1] == blocks[..i] + [blocks[i]];
      FlattenSnoc(blocks[..i], blocks[i]);
      all := all + blocks[i];
    }
    assert blocks[..|blocks|] == blocks;
  }

  lemma {:induction false} FlattenBoth(a: seq<Bytes>, b: seq<Bytes>)
    ensures Flatten(a + b) == Flatten(a) + Flatten(b)
  {
    if a == [] {
      assert a + b == b;
    } else {
      assert (a + b)[1..] == a[1..] + b;
      FlattenBoth(a[1..], b);
    }
  }

  // A request serialized and parsed again is the same request, however the bytes are split into blocks.
  method Reparse(request: MemcacheRequest, blocks: seq<Bytes>) returns (copy: MemcacheRequest, ok: bool)
    requires request.Valid() && Flatten(blocks) == request.buf
    ensures ok && fresh(copy) && copy.Valid()
    ensures copy.buf == request.buf && copy.pipelinedCount == request.pipelinedCount && copy.frames == request.frames
  {
    FramesComeBack(request.frames);
    copy := new MemcacheRequest();
    ok := copy.MergePartialFromCodedStream(blocks);
    assert [] + request.frames == request.frames;
  }
}
