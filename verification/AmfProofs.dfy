/** What is written is the encoding cut off where the stream is full, and what is read back is the value written. */
module AmfProofs {
  import opened Options
  import opened Limits
  import opened ByteOrder
  import opened AmfStreams
  import opened Amf

  // ---- writing ----

  // Streams that only go bad by running full.
  predicate Sound(o: Out) { o.good || o.room == 0 }

  lemma PutOnFull(o: Out, data: Bytes)
    requires !o.good && o.room == 0
    ensures Put(o, data) == o
  {
    assert data[..0] == [] && o.contents + [] == o.contents;
  }

  // A field, and whatever the caller goes on to put if the stream is still good.
  lemma PutThen(o: Out, a: Bytes, b: Bytes)
    requires Sound(o)
    ensures Sound(Put(o, a))
    ensures Put(o, a + b) == if Put(o, a).good then Put(Put(o, a), b) else Put(o, a)
  {
    PutPut(o, a, b);
    if !Put(o, a).good {
      PutOnFull(Put(o, a), b);
    }
  }

  lemma WriteTextIsPut(o: Out, text: Bytes, width: nat)
    ensures WriteText(o, text, width) == Put(o, EncodeText(text, width))
  {
    PutPut(o, ToBytes(|text|, width), text);
  }

  lemma {:induction false} WriteIsPut(o: Out, f: Field)
    requires Sound(o) && NamesFit(f)
    ensures WriteField(o, f) == Put(o, Encode(f))
    decreases f
  {
    hide Put, ToBytes, WriteText, EncodeText;
    match f
    case Number(bits) => PutPut(o, [NUMBER], ToBytes(bits, 8));
    case Bool(b) =>
      PutPut(o, [BOOLEAN], [if b then 1 else 0]);
      assert [BOOLEAN] + [if b then 1 else 0] == [BOOLEAN, if b then 1 else 0];
    case Str(text) =>
      var (m, w) := if |text| < U16 then (STRING, 2) else (LONG_STRING, 4);
      WriteTextIsPut(Put(o, [m]), text, w);
      PutPut(o, [m], EncodeText(text, w));
    case Obj(fields) =>
      PutThen(o, [OBJECT], []);
      WriteMembersIsPut(Put(o, [OBJECT]), fields);
      PutPut(o, [OBJECT], EncodeMembers(fields));
    case Arr(items) =>
      var n := ToBytes(|items|, 4);
      PutThen(o, [STRICT_ARRAY], []);
      PutThen(Put(o, [STRICT_ARRAY]), n, []);
      WriteItemsIsPut(Put(Put(o, [STRICT_ARRAY]), n), items);
      PutPut(Put(o, [STRICT_ARRAY]), n, EncodeItems(items));
      PutPut(o, [STRICT_ARRAY], n + EncodeItems(items));
    case _ =>
  }

  lemma {:induction false} WriteMembersIsPut(o: Out, ms: seq<Member>)
    requires Sound(o) && forall m <- ms :: |m.name| < U16 && NamesFit(m.field)
    ensures WriteMembers(o, ms) == Put(o, EncodeMembers(ms))
    decreases ms
  {
    hide Put, ToBytes, WriteText, EncodeText, WriteField, Encode;
    if ms == [] {
      PutPut(o, ToBytes(0, 2), [OBJECT_END]);
    } else {
      var (m, rest) := (ms[0], ms[1..]);
      assert m in ms;
      var (n, e) := (EncodeText(m.name, 2), Encode(m.field));
      WriteTextIsPut(o, m.name, 2);
      PutThen(o, n, e);
      var o1 := Put(o, n);
      WriteIsPut(o1, m.field);
      PutThen(o1, e, EncodeMembers(rest));
      WriteMembersIsPut(Put(o1, e), rest);
      PutPut(o, n, e + EncodeMembers(rest));
    }
  }

  lemma {:induction false} WriteItemsIsPut(o: Out, items: seq<Field>)
    requires Sound(o) && forall x <- items :: NamesFit(x)
    ensures WriteItems(o, items) == Put(o, EncodeItems(items))
    decreases items
  {
    hide WriteField, Encode;
    if items == [] {
      assert o.contents + [][..0] == o.contents;
    } else {
      assert items[0] in items;
      WriteIsPut(o, items[0]);
      PutThen(o, Encode(items[0]), EncodeItems(items[1..]));
      WriteItemsIsPut(Put(o, Encode(items[0])), items[1..]);
    }
  }

  // A name that does not fit always spoils the stream, at any depth.
  lemma {:induction false} LongNameSpoils(o: Out, f: Field)
    requires Sound(o) && !NamesFit(f)
    ensures !WriteField(o, f).good
    decreases f
  {
    hide Put, ToBytes, WriteText;
    match f
    case Obj(fields) =>
      PutThen(o, [OBJECT], []);
      LongNameSpoilsMembers(Put(o, [OBJECT]), fields);
    case Arr(items) =>
      PutThen(o, [STRICT_ARRAY], []);
      PutThen(Put(o, [STRICT_ARRAY]), ToBytes(|items|, 4), []);
      LongNameSpoilsItems(Put(Put(o, [STRICT_ARRAY]), ToBytes(|items|, 4)), items);
  }

  lemma {:induction false} LongNameSpoilsMembers(o: Out, ms: seq<Member>)
    requires Sound(o) && exists m <- ms :: |m.name| >= U16 || !NamesFit(m.field)
    ensures !WriteMembers(o, ms).good
    decreases ms
  {
    hide Put, ToBytes, WriteText, EncodeText, WriteField, Encode;
    var (m, rest) := (ms[0], ms[1..]);
    if |m.name| < U16 {
      WriteTextIsPut(o, m.name, 2);
      PutThen(o, EncodeText(m.name, 2), []);
      var o1 := WriteText(o, m.name, 2);
      if NamesFit(m.field) {
        WriteIsPut(o1, m.field);
        PutThen(o1, Encode(m.field), []);
        LongNameSpoilsMembers(Put(o1, Encode(m.field)), rest);
      } else {
        LongNameSpoils(o1, m.field);
      }
    }
  }

  lemma {:induction false} LongNameSpoilsItems(o: Out, items: seq<Field>)
    requires Sound(o) && exists x <- items :: !NamesFit(x)
    ensures !WriteItems(o, items).good
    decreases items
  {
    hide Put, WriteField, Encode;
    if NamesFit(items[0]) {
      WriteIsPut(o, items[0]);
      PutThen(o, Encode(items[0]), []);
      LongNameSpoilsItems(Put(o, Encode(items[0])), items[1..]);
    } else {
      LongNameSpoils(o, items[0]);
    }
  }

  // A good stream stays good exactly when every name fits and so do all the bytes; then it holds the encoding.
  lemma WrittenIff(o: Out, f: Field)
    requires o.good
    ensures WriteField(o, f).good <==> NamesFit(f) && |Encode(f)| <= o.room
    ensures WriteField(o, f).good ==>
              WriteField(o, f) == Out(true, o.contents + Encode(f), o.room - |Encode(f)|, o.pushed + |Encode(f)|)
  {
    hide WriteField, Encode, NamesFit;
    if NamesFit(f) {
      WriteIsPut(o, f);
      assert Encode(f)[..|Encode(f)|] == Encode(f);
    } else {
      LongNameSpoils(o, f);
    }
  }

  // The markers of the AMF 0 specification.
  lemma MarkersAre(f: Field)
    ensures Encode(f)[0] ==
            match f
            case Number(_) => 0x00
            case Bool(_) => 0x01
            case Str(text) => if |text| < 0x1_0000 then 0x02 else 0x0C
            case Obj(_) => 0x03
            case Null => 0x05
            case Undefined => 0x06
            case Arr(_) => 0x0A
            case Unsupported => 0x0D
    ensures f.Obj? ==> Encode(f)[|Encode(f)| - 1] == 0x09
  {
    hide EncodeText, EncodeItems, ToBytes;
    if f.Obj? {
      EndMarker(f.fields);
    }
  }

  lemma {:induction false} EndMarker(ms: seq<Member>)
    ensures EncodeMembers(ms) != [] && EncodeMembers(ms)[|EncodeMembers(ms)| - 1] == OBJECT_END
  {
    if ms != [] {
      EndMarker(ms[1..]);
    }
  }

  // ---- reading back ----

  // Values that the field setters can build: ordered names, sizes in range.
  ghost predicate Proper(f: Field)
    decreases f
  {
    match f
    case Number(bits) => bits < U64
    case Str(text) => |text| <= INT_MAX
    case Obj(fields) => Sorted(fields) && forall m <- fields :: Proper(m.field)
    case Arr(items) => |items| < U32 && forall x <- items :: Proper(x)
    case _ => true
  }

  // No name is empty.
  predicate Named(f: Field)
    decreases f
  {
    match f
    case Obj(fields) => forall m <- fields :: m.name != [] && Named(m.field)
    case Arr(items) => forall x <- items :: Named(x)
    case _ => true
  }

  lemma TextReadsBack(text: Bytes, width: nat, tail: Bytes)
    requires |text| < Pow256(width)
    ensures ReadText(EncodeText(text, width) + tail, width) == Text(true, text, tail)
  {
    hide ToBytes, BigEndian;
    var s := EncodeText(text, width) + tail;
    NumberReadsBack(|text|, width);
    assert s[..width] == ToBytes(|text|, width);
    assert s[width..width + |text|] == text && s[width + |text|..] == tail;
  }

  lemma NumberFieldReadsBack(bits: nat, tail: Bytes)
    requires bits < U64
    ensures ReadValue(Encode(Number(bits)) + tail, Undefined) == Value(true, Some(Number(bits)), tail)
  {
    hide ToBytes, BigEndian, ReadMembers, ReadArray, ReadEcma, ReadText;
    Widths();
    var s := Encode(Number(bits)) + tail;
    NumberReadsBack(bits, 8);
    assert s[1..][..8] == ToBytes(bits, 8) && s[1..][8..] == tail;
  }

  lemma StringReadsBack(text: Bytes, tail: Bytes)
    requires |text| < U32
    ensures ReadValue(Encode(Str(text)) + tail, Undefined) == Value(true, Some(Str(text)), tail)
  {
    hide ReadMembers, ReadArray, ReadEcma, ReadText, EncodeText;
    Widths();
    var s := Encode(Str(text)) + tail;
    var w := if |text| < U16 then 2 else 4;
    assert s[1..] == EncodeText(text, w) + tail;
    TextReadsBack(text, w, tail);
  }

  lemma MarkerReadsBack(f: Field, tail: Bytes)
    requires f.Bool? || f.Null? || f.Undefined? || f.Unsupported?
    ensures ReadValue(Encode(f) + tail, Undefined) == Value(true, Some(f), tail)
  {
    hide ReadMembers, ReadArray, ReadEcma, ReadText;
    var s := Encode(f) + tail;
    if f.Bool? {
      assert s[1..] == [if f.b then 1 else 0] + tail;
    } else {
      assert s[1..] == tail;
    }
  }

  // A container is read by its marker.
  lemma ContainerIsRead(f: Field, tail: Bytes)
    requires f.Obj? || (f.Arr? && |f.items| < U32)
    ensures ReadValue(Encode(f) + tail, Undefined) ==
            if f.Obj? then FieldsValue(ReadMembers(EncodeMembers(f.fields) + tail, []))
            else ItemsValue(ReadItems(EncodeItems(f.items) + tail, [], |f.items|))
  {
    hide ToBytes, BigEndian, ReadMembers, ReadItems, ReadEcma, ReadText, EncodeMembers, EncodeItems;
    var s := Encode(f) + tail;
    if f.Obj? {
      assert s[1..] == EncodeMembers(f.fields) + tail;
    } else {
      Widths();
      NumberReadsBack(|f.items|, 4);
      assert s[1..][..4] == ToBytes(|f.items|, 4) && s[1..][4..] == EncodeItems(f.items) + tail;
    }
  }

  // A value in front of anything else is read back, unless it has an empty name somewhere: then reading fails.
  lemma {:induction false} ReadsBack(f: Field, tail: Bytes)
    requires Proper(f) && NamesFit(f)
    ensures var r := ReadValue(Encode(f) + tail, Undefined);
            if Named(f) then r == Value(true, Some(f), tail) else !r.ok
    decreases f
  {
    hide ReadValue, Encode, ReadMembers, ReadItems;
    match f
    case Number(bits) => NumberFieldReadsBack(bits, tail);
    case Str(text) => StringReadsBack(text, tail);
    case Obj(fields) =>
      ContainerIsRead(f, tail);
      assert [] + fields == fields;
      MembersReadBack([], fields, tail);
    case Arr(items) =>
      ContainerIsRead(f, tail);
      assert [] + items == items;
      ItemsReadBack([], items, tail);
    case _ => MarkerReadsBack(f, tail);
  }

  lemma {:induction false} MembersReadBack(done: seq<Member>, ms: seq<Member>, tail: Bytes)
    requires Sorted(done + ms)
    requires forall m <- ms :: Proper(m.field) && |m.name| < U16 && NamesFit(m.field)
    ensures var r := ReadMembers(EncodeMembers(ms) + tail, done);
            if forall m <- ms :: m.name != [] && Named(m.field) then r == Fields(true, done + ms, tail) else !r.ok
    decreases ms
  {
    hide ToBytes, ReadText, EncodeText, ReadValue, Encode, Set, Proper, NamesFit;
    Widths();
    if ms == [] {
      EndReadsBack(done, tail);
    } else {
      var (m, rest) := (ms[0], ms[1..]);
      assert m in ms;
      var after := EncodeMembers(rest) + tail;
      var s := Encode(m.field) + after;
      assert EncodeMembers(ms) + tail == EncodeText(m.name, 2) + s;
      TextReadsBack(m.name, 2, s);
      if m.name != [] {
        ReadsBack(m.field, after);
        forall x <- done ensures Less(x.name, m.name) {
          PrefixIsBelow(done, ms, x);
        }
        SetAtEnd(done, m.name, m.field);
        assert done + [m] + rest == done + ms;
        if Named(m.field) {
          MembersReadBack(done + [m], rest, tail);
        }
      } else {
        assert s[0] == Encode(m.field)[0];
      }
    }
  }

  lemma PrefixIsBelow(done: seq<Member>, ms: seq<Member>, x: Member)
    requires Sorted(done + ms) && ms != [] && x in done
    ensures Less(x.name, ms[0].name)
  {
    var i :| 0 <= i < |done| && done[i] == x;
    assert (done + ms)[i] == x && (done + ms)[|done|] == ms[0];
  }

  // The end of an object: an empty name and the end marker.
  lemma EndReadsBack(done: seq<Member>, tail: Bytes)
    ensures ReadMembers(EncodeMembers([]) + tail, done) == Fields(true, done, tail)
  {
    hide ToBytes, ReadText;
    Widths();
    var s := [OBJECT_END] + tail;
    assert EncodeText([], 2) == ToBytes(0, 2);
    assert EncodeMembers([]) + tail == EncodeText([], 2) + s;
    TextReadsBack([], 2, s);
    assert s[1..] == tail;
  }

  lemma {:induction false} ItemsReadBack(done: seq<Field>, items: seq<Field>, tail: Bytes)
    requires forall x <- items :: Proper(x) && NamesFit(x)
    ensures var r := ReadItems(EncodeItems(items) + tail, done, |items|);
            if forall x <- items :: Named(x) then r == Items(true, done + items, tail) else !r.ok
    decreases items
  {
    hide ReadValue, Encode, Proper, NamesFit;
    if items == [] {
      assert [] + tail == tail && done + [] == done;
    } else {
      var (x, rest) := (items[0], items[1..]);
      assert x in items;
      var after := EncodeItems(rest) + tail;
      assert EncodeItems(items) + tail == Encode(x) + after;
      ReadsBack(x, after);
      assert done + [x] + rest == done + items;
      if Named(x) {
        ItemsReadBack(done + [x], rest, tail);
      }
    }
  }
}
