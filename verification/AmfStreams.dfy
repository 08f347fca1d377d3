/** Byte streams over blocks of any size, as the AMF reader and writer use them. */
module AmfStreams {
  import opened ByteOrder
  import opened IoBuf
  import opened Limits

  // ---- input ----

  class AMFInputStream {
    var blocks: seq<Bytes>    // what the zero-copy stream still has
    var data: Bytes           // what is left of the block at hand
    var poppedBytes: nat

    constructor (blocks: seq<Bytes>)
      ensures Rest() == Flatten(blocks) && poppedBytes == 0
    {
      this.blocks, data, poppedBytes := blocks, [], 0;
    }

    // Everything not read yet.
    ghost function Rest(): Bytes
      reads this
    {
      data + Flatten(blocks)
    }

    // The first k bytes of the block at hand.
    method CutBlock(k: nat) returns (out: Bytes)
      requires k <= |data|
      modifies this`data
      ensures |out| == k && out + Rest() == old(Rest()) && |data| == |old(data)| - k
    {
      out := data[..k];
      data := data[k..];
      assert out + (data + Flatten(blocks)) == (out + data) + Flatten(blocks);
    }

    // The next block, after the one at hand is used up.
    method NextBlock() returns (more: bool)
      requires data == []
      modifies this`data, this`blocks
      ensures more == (old(blocks) != []) && Rest() == old(Rest())
      ensures more ==> |blocks| < |old(blocks)|
      ensures !more ==> Rest() == []
    {
      more := blocks != [];
      if more {
        data, blocks := blocks[0], blocks[1..];
      }
    }

    // At most n bytes, across as many blocks as it takes.
    method Cutn(n: nat) returns (out: Bytes)
      modifies this
      ensures out == old(Rest())[..Min(n, |old(Rest())|)]
      ensures Rest() == old(Rest())[|out|..] && poppedBytes == old(poppedBytes) + |out|
    {
      var left: nat, piece, more := n, [], true;
      out := [];
      ghost var all := Rest();
      while true
        invariant out + Rest() == all && |out| + left == n && poppedBytes == old(poppedBytes)
        decreases |blocks|
      {
        if |data| >= left {
          piece := CutBlock(left);
          out := out + piece;
          assert out + Rest() == all;
          poppedBytes := poppedBytes + n;
          return;
        }
        left := left - |data|;
        piece := CutBlock(|data|);
        out := out + piece;
        assert out + Rest() == all;
        more := NextBlock();
        if !more {
          poppedBytes := poppedBytes + (n - left);
          return;
        }
      }
    }

    // A number of `width` bytes; straight from the block at hand if it is long enough.
    method CutUint(width: nat) returns (cut: nat, val: nat)
      modifies this
      ensures cut == Min(width, |old(Rest())|)
      ensures cut == width ==> val == BigEndian(old(Rest())[..width])
      ensures Rest() == old(Rest())[cut..] && poppedBytes == old(poppedBytes) + cut
    {
      if |data| >= width {
        assert Rest()[..width] == data[..width];
        val := BigEndian(data[..width]);
        data := data[width..];
        poppedBytes := poppedBytes + width;
        return width, val;
      }
      var out := Cutn(width);
      cut, val := |out|, BigEndian(out + seq(width - |out|, i => 0));
      assert cut == width ==> out + seq(width - |out|, i => 0) == out;
    }
  }

  // ---- output ----

  function Total(sizes: seq<nat>): nat { if sizes == [] then 0 else sizes[0] + Total(sizes[1..]) }

  // A zero-copy output stream: hands out blocks, and takes back the unused end of the last one.
  class BlockSink {
    var bytes: Bytes
    var capacities: seq<nat>

    constructor (capacities: seq<nat>)
      ensures bytes == [] && this.capacities == capacities
    {
      bytes, this.capacities := [], capacities;
    }

    method Next() returns (more: bool, size: nat)
      modifies this
      ensures more == (old(capacities) != [])
      ensures if more then size == old(capacities)[0] && capacities == old(capacities)[1..] && bytes == old(bytes) + seq(size, i => 0)
              else size == 0 && capacities == old(capacities) && bytes == old(bytes)
    {
      more, size := capacities != [], 0;
      if more {
        size := capacities[0];
        bytes, capacities := bytes + seq(size, i => 0), capacities[1..];
      }
    }

    method BackUp(n: nat)
      requires n <= |bytes|
      modifies this`bytes
      ensures bytes == old(bytes)[..|old(bytes)| - n]
    {
      bytes := bytes[..|bytes| - n];
    }
  }

  // An output stream as a value: what was written, and how much more fits.
  datatype Out = Out(good: bool, contents: Bytes, room: nat, pushed: nat)

  // Whatever fits is written; the stream goes bad if not everything does.
  function Put(o: Out, data: Bytes): Out
  {
    var k := Min(|data|, o.room);
    Out(o.good && k == |data|, o.contents + data[..k], o.room - k, o.pushed + k)
  }

  lemma PutPut(o: Out, a: Bytes, b: Bytes)
    ensures Put(Put(o, a), b) == Put(o, a + b)
  {
    var k := Min(|a|, o.room);
    if k < |a| {
      assert (a + b)[..k] == a[..k];
      assert b[..0] == [];
      assert o.contents + a[..k] + [] == o.contents + a[..k];
    } else {
      var m := Min(|b|, o.room - k);
      assert a[..k] == a && (a + b)[..k + m] == a + b[..m];
      assert o.contents + a + b[..m] == o.contents + (a + b[..m]);
    }
  }

  // Bytes that fit, before they are counted.
  function Keep(o: Out, data: Bytes): Out
    requires |data| <= o.room
  {
    o.(contents := o.contents + data, room := o.room - |data|)
  }

  lemma KeepKeep(o: Out, a: Bytes, b: Bytes)
    requires |a| + |b| <= o.room
    ensures Keep(Keep(o, a), b) == Keep(o, a + b)
  {
    assert o.contents + a + b == o.contents + (a + b);
  }

  lemma KeepNone(o: Out)
    ensures Keep(o, []) == o
  {
  }

  lemma KeepIsPut(o: Out, done: Bytes, left: Bytes)
    requires |done| <= o.room && (left == [] || |done| == o.room)
    ensures Keep(o, done).good == o.good && Keep(o, done).pushed == o.pushed
    ensures Put(o, done + left) == Keep(o, done).(good := o.good && left == [], pushed := o.pushed + |done|)
  {
    assert (done + left)[..|done|] == done;
  }

  class AMFOutputStream {
    const sink: BlockSink
    var good: bool
    var size: nat             // bytes left in the block at hand
    var pushedBytes: nat

    constructor (sink: BlockSink)
      ensures Valid() && this.sink == sink
      ensures View() == Out(true, sink.bytes, Total(sink.capacities), 0)
    {
      this.sink, good, size, pushedBytes := sink, true, 0, 0;
    }

    ghost predicate Valid()
      reads this, sink
    {
      size <= |sink.bytes|
    }

    ghost function View(): Out
      requires Valid()
      reads this, sink
    {
      Out(good, sink.bytes[..|sink.bytes| - size], size + Total(sink.capacities), pushedBytes)
    }

    lemma GoodIsViewed()
      requires Valid()
      ensures good == View().good
    {
    }

    method SetBad()
      requires Valid()
      modifies this`good
      ensures Valid() && View() == old(View()).(good := false)
    {
      good := false;
    }

    // Copy bytes into the block at hand.
    method Fill(data: Bytes)
      requires Valid() && |data| <= size
      modifies this`size, sink`bytes
      ensures Valid() && size == old(size) - |data| && View() == Keep(old(View()), data)
      ensures View().room == old(View()).room - |data|
    {
      var pos := |sink.bytes| - size;
      sink.bytes := sink.bytes[..pos] + data + sink.bytes[pos + |data|..];
      size := size - |data|;
    }

    method NextBlock() returns (more: bool)
      requires Valid() && size == 0
      modifies this`size, sink
      ensures Valid() && View() == old(View())
      ensures if more then |sink.capacities| < |old(sink.capacities)| else View().room == 0
    {
      more, size := sink.Next();
      assert sink.bytes[..|sink.bytes| - size] == old(sink.bytes);
    }

    method Putn(data: Bytes)
      requires Valid() && |data| <= INT_MAX
      modifies this, sink
      ensures Valid() && View() == Put(old(View()), data)
    {
      hide Total, Keep, Put;
      var left, more := data, true;
      ghost var o, done: Bytes := View(), [];
      KeepNone(o);
      while true
        invariant Valid() && done + left == data
        invariant |done| + View().room == o.room && View() == Keep(o, done)
        decreases |sink.capacities|
      {
        if |left| <= size {
          KeepKeep(o, done, left);
          KeepIsPut(o, data, []);
          assert data + [] == data;
          Fill(left);
          pushedBytes := pushedBytes + |data|;
          return;
        }
        var piece := left[..size];
        KeepKeep(o, done, piece);
        left := left[size..];
        Fill(piece);
        done := done + piece;
        assert done + left == data;
        more := NextBlock();
        if !more {
          assert |left| > 0;
          KeepIsPut(o, done, left);
          pushedBytes := pushedBytes + (|data| - |left|);
          good := false;
          return;
        }
      }
    }

    method PutU8(val: Byte)
      requires Valid()
      modifies this, sink
      ensures Valid() && View() == Put(old(View()), [val])
    {
      hide Total;
      var more := true;
      ghost var o := View();
      while true
        invariant Valid() && View() == o
        decreases |sink.capacities|
      {
        if size > 0 {
          Fill([val]);
          pushedBytes := pushedBytes + 1;
          return;
        }
        more := NextBlock();
        if !more {
          good := false;
          return;
        }
      }
    }

    method PutUint(val: nat, width: nat)
      requires Valid() && width <= 8
      modifies this, sink
      ensures Valid() && View() == Put(old(View()), ToBytes(val, width))
    {
      Putn(ToBytes(val, width));
    }

    // Give the unused end of the last block back; a bad stream keeps it.
    method Done()
      requires Valid()
      modifies this, sink
      ensures Valid() && good == old(good) && pushedBytes == old(pushedBytes)
      ensures good ==> sink.bytes == old(View()).contents && size == 0
      ensures !good ==> sink.bytes == old(sink.bytes)
    {
      if good && size > 0 {
        sink.BackUp(size);
        size := 0;
      }
    }
  }
}
