/** Reading into fields that hold something already, and the forms that are read but never written. */
module AmfMerge {
  import opened Options
  import opened Limits
  import opened ByteOrder
  import opened Amf
  import opened AmfProofs

  // ---- what a field becomes ----

  // Objects and arrays are added to what is there; anything else replaces it.
  function Merge(current: Field, f: Field): Field
    decreases f
  {
    match f
    case Obj(fields) => Obj(MergeAll(FieldsOf(current), fields))
    case Arr(items) => Arr(ItemsOf(current) + items)
    case _ => f
  }

  // Members set one after another.
  function MergeAll(fields: seq<Member>, ms: seq<Member>): seq<Member>
    decreases ms
  {
    if ms == [] then fields
    else MergeAll(Set(fields, ms[0].name, Merge(Lookup(fields, ms[0].name), ms[0].field)), ms[1..])
  }

  // What a name stands for once the members that carry it have been merged into `current`, in their order.
  function MergedUnder(current: Field, ms: seq<Member>, name: Bytes): Field
    decreases ms
  {
    if ms == [] then current
    else MergedUnder(if ms[0].name == name then Merge(current, ms[0].field) else current, ms[1..], name)
  }

  // Each name gets its own members and no others, and the order of names is kept.
  lemma {:induction false} MergedByName(fields: seq<Member>, ms: seq<Member>, name: Bytes)
    requires Sorted(fields)
    ensures Sorted(MergeAll(fields, ms))
    ensures Lookup(MergeAll(fields, ms), name) == MergedUnder(Lookup(fields, name), ms, name)
    decreases ms
  {
    if ms != [] {
      hide Sorted, Set, Lookup, Merge;
      var f := Merge(Lookup(fields, ms[0].name), ms[0].field);
      SetIsUpdate(fields, ms[0].name, f, name);
      MergedByName(Set(fields, ms[0].name, f), ms[1..], name);
    }
  }

  // The last scalar under a name is what counts.
  lemma {:induction false} LastScalarWins(current: Field, a: seq<Member>, m: Member, b: seq<Member>)
    requires !m.field.Obj? && !m.field.Arr? && forall x <- b :: x.name != m.name
    ensures MergedUnder(current, a + [m] + b, m.name) == m.field
    decreases a
  {
    var all := a + [m] + b;
    if a == [] {
      assert all[0] == m && all[1..] == b;
      Unnamed(m.field, b, m.name);
    } else {
      assert all[0] == a[0] && all[1..] == a[1..] + [m] + b;
      LastScalarWins(if a[0].name == m.name then Merge(current, a[0].field) else current, a[1..], m, b);
    }
  }

  lemma {:induction false} Unnamed(current: Field, ms: seq<Member>, name: Bytes)
    requires forall x <- ms :: x.name != name
    ensures MergedUnder(current, ms, name) == current
  {
    if ms != [] {
      Unnamed(current, ms[1..], name);
    }
  }

  // Members in order, behind the ones that are there, are appended.
  lemma {:induction false} MergedInOrder(done: seq<Member>, ms: seq<Member>)
    requires Sorted(done + ms) && forall m <- ms :: Proper(m.field)
    ensures MergeAll(done, ms) == done + ms
    decreases ms
  {
    if ms == [] {
      assert done + [] == done;
    } else {
      var (m, rest) := (ms[0], ms[1..]);
      assert m in ms;
      forall x <- done ensures Less(x.name, m.name) {
        PrefixIsBelow(done, ms, x);
      }
      SetAtEnd(done, m.name, m.field);
      MergedIntoNothing(m.field);
      assert done + [m] + rest == done + ms;
      MergedInOrder(done + [m], rest);
    }
  }

  lemma {:induction false} MergedIntoNothing(f: Field)
    requires Proper(f)
    ensures Merge(Undefined, f) == f
    decreases f
  {
    match f
    case Obj(fields) =>
      assert [] + fields == fields;
      MergedInOrder([], fields);
    case Arr(items) => assert [] + items == items;
    case _ =>
  }

  // ---- reading a value into a field ----

  predicate Readable(name: Bytes, f: Field) { |name| < U16 && NamesFit(f) && Named(f) }

  ghost predicate AllReadable(ms: seq<Member>)
  {
    forall m <- ms :: Readable(m.name, m.field) && Proper(m.field)
  }

  // A scalar is read alike whatever the field holds.
  lemma ScalarIgnoresCurrent(s: Bytes, current: Field)
    requires s != [] && s[0] !in {OBJECT, TYPED_OBJECT, ECMA_ARRAY, STRICT_ARRAY}
    ensures ReadValue(s, current) == ReadValue(s, Undefined)
  {
    hide ReadMembers, ReadEcma, ReadArray, ReadText;
  }

  lemma ObjectIntoField(body: Bytes, current: Field)
    ensures ReadValue([OBJECT] + body, current) == FieldsValue(ReadMembers(body, FieldsOf(current)))
  {
    hide ReadMembers, ReadEcma, ReadArray, ReadText;
    assert ([OBJECT] + body)[1..] == body;
  }

  lemma ArrayIntoField(count: nat, body: Bytes, current: Field)
    requires count < U32
    ensures ReadValue([STRICT_ARRAY] + (ToBytes(count, 4) + body), current) == ItemsValue(ReadItems(body, ItemsOf(current), count))
  {
    hide ReadMembers, ReadEcma, ReadItems, ReadText, ToBytes, BigEndian;
    var s := ToBytes(count, 4) + body;
    assert ([STRICT_ARRAY] + s)[1..] == s && s[..4] == ToBytes(count, 4) && s[4..] == body;
    Widths();
    NumberReadsBack(count, 4);
  }

  // Any value in front of anything is read as that value merged into what the field holds.
  lemma {:induction false} ReadsInto(f: Field, current: Field, tail: Bytes)
    requires Proper(f) && NamesFit(f) && Named(f)
    ensures ReadValue(Encode(f) + tail, current) == Value(true, Some(Merge(current, f)), tail)
    decreases f
  {
    hide ReadValue, ReadMembers, ReadItems, EncodeMembers, EncodeItems, MergeAll, ToBytes;
    match f
    case Obj(fields) =>
      assert Encode(f) + tail == [OBJECT] + (EncodeMembers(fields) + tail);
      ObjectIntoField(EncodeMembers(fields) + tail, current);
      assert AllReadable(fields);
      MembersReadInto(FieldsOf(current), fields, tail);
    case Arr(items) =>
      assert Encode(f) + tail == [STRICT_ARRAY] + (ToBytes(|items|, 4) + (EncodeItems(items) + tail));
      ArrayIntoField(|items|, EncodeItems(items) + tail, current);
      ItemsReadBack(ItemsOf(current), items, tail);
    case _ =>
      ScalarMarker(f);
      assert (Encode(f) + tail)[0] == Encode(f)[0];
      ScalarIgnoresCurrent(Encode(f) + tail, current);
      ReadsBack(f, tail);
  }

  lemma ScalarMarker(f: Field)
    requires !f.Obj? && !f.Arr?
    ensures Encode(f)[0] !in {OBJECT, TYPED_OBJECT, ECMA_ARRAY, STRICT_ARRAY}
  {
    hide EncodeText, ToBytes;
  }

  // A member read into the fields there are.
  lemma MemberReadInto(fields: seq<Member>, m: Member, after: Bytes)
    requires Proper(m.field) && NamesFit(m.field) && Named(m.field)
    ensures ReadMember(Encode(m.field) + after, fields, m.name) ==
            Fields(true, Set(fields, m.name, Merge(Lookup(fields, m.name), m.field)), after)
    decreases m
  {
    hide ReadValue, Encode, Set, Lookup, Merge, Proper, NamesFit, Named;
    ReadsInto(m.field, Lookup(fields, m.name), after);
  }

  // The body of an object, its members in any order and repeated at will: members set one after another.
  lemma {:induction false} MembersReadInto(fields: seq<Member>, ms: seq<Member>, tail: Bytes)
    requires AllReadable(ms) && forall m <- ms :: m.name != []
    ensures ReadMembers(EncodeMembers(ms) + tail, fields) == Fields(true, MergeAll(fields, ms), tail)
    decreases ms
  {
    hide ToBytes, ReadText, EncodeText, ReadMember, Encode, Set, Lookup, Merge, Proper, NamesFit, Named;
    if ms == [] {
      EndReadsBack(fields, tail);
    } else {
      var (m, rest) := (ms[0], ms[1..]);
      assert m in ms;
      var after := EncodeMembers(rest) + tail;
      assert EncodeMembers(ms) + tail == EncodeText(m.name, 2) + (Encode(m.field) + after);
      Widths();
      TextReadsBack(m.name, 2, Encode(m.field) + after);
      MemberReadInto(fields, m, after);
      MembersReadInto(Set(fields, m.name, Merge(Lookup(fields, m.name), m.field)), rest, tail);
    }
  }

  // ---- ECMA arrays ----

  // Names and values, without an end.
  function EncodeEntries(ms: seq<Member>): Bytes
  {
    if ms == [] then [] else EncodeText(ms[0].name, 2) + (Encode(ms[0].field) + EncodeEntries(ms[1..]))
  }

  // Entries that are there are set one after another, and reading goes on behind them with the rest of the count.
  lemma {:induction false} EntriesReadInto(fields: seq<Member>, ms: seq<Member>, tail: Bytes, more: nat)
    requires AllReadable(ms)
    ensures ReadCounted(EncodeEntries(ms) + tail, fields, |ms| + more) == ReadCounted(tail, MergeAll(fields, ms), more)
    decreases ms
  {
    hide ReadText, EncodeText, ReadMember, Encode, Set, Lookup, Merge, Proper, NamesFit, Named;
    if ms == [] {
      assert [] + tail == tail;
    } else {
      var (m, rest) := (ms[0], ms[1..]);
      assert m in ms;
      var after := EncodeEntries(rest) + tail;
      assert EncodeEntries(ms) + tail == EncodeText(m.name, 2) + (Encode(m.field) + after);
      Widths();
      TextReadsBack(m.name, 2, Encode(m.field) + after);
      MemberReadInto(fields, m, after);
      EntriesReadInto(Set(fields, m.name, Merge(Lookup(fields, m.name), m.field)), rest, tail, more);
    }
  }

  // A count and that many entries, names empty or repeated included, are read as those members, and exactly the bytes
  // behind them are left. Where entries are missing, reading fails and what was there is kept.
  lemma EcmaIsRead(fields: seq<Member>, ms: seq<Member>, tail: Bytes, more: nat)
    requires AllReadable(ms) && |ms| + more < U32 && (more > 0 ==> |tail| < 2)
    ensures ReadEcma(ToBytes(|ms| + more, 4) + (EncodeEntries(ms) + tail), fields) ==
            if more == 0 then Fields(true, MergeAll(fields, ms), tail) else Fields(false, MergeAll(fields, ms), [])
  {
    hide ToBytes, BigEndian, EncodeEntries, MergeAll, ReadMember;
    var body := EncodeEntries(ms) + tail;
    var s := ToBytes(|ms| + more, 4) + body;
    assert s[..4] == ToBytes(|ms| + more, 4) && s[4..] == body;
    Widths();
    NumberReadsBack(|ms| + more, 4);
    EntriesReadInto(fields, ms, tail, more);
  }

  lemma EcmaField(fields: Field, ms: seq<Member>, tail: Bytes)
    requires AllReadable(ms) && |ms| < U32
    ensures ReadValue([ECMA_ARRAY] + (ToBytes(|ms|, 4) + (EncodeEntries(ms) + tail)), fields) ==
            Value(true, Some(Obj(MergeAll(FieldsOf(fields), ms))), tail)
  {
    hide ReadMembers, ReadEcma, ReadArray, ReadText, ToBytes, MergeAll, EncodeEntries;
    var body := ToBytes(|ms|, 4) + (EncodeEntries(ms) + tail);
    assert ([ECMA_ARRAY] + body)[1..] == body;
    EcmaIsRead(FieldsOf(fields), ms, tail, 0);
  }

  // ---- typed objects and other forms ----

  // The class name of a typed object is dropped, and its members are read like any object's.
  lemma TypedObjectField(current: Field, className: Bytes, ms: seq<Member>, tail: Bytes)
    requires AllReadable(ms) && (forall m <- ms :: m.name != []) && |className| < U16
    ensures ReadValue([TYPED_OBJECT] + (EncodeText(className, 2) + (EncodeMembers(ms) + tail)), current) ==
            Value(true, Some(Obj(MergeAll(FieldsOf(current), ms))), tail)
  {
    hide ReadMembers, ReadEcma, ReadArray, ReadText, EncodeText, EncodeMembers, MergeAll;
    var body := EncodeText(className, 2) + (EncodeMembers(ms) + tail);
    assert ([TYPED_OBJECT] + body)[1..] == body;
    Widths();
    TextReadsBack(className, 2, EncodeMembers(ms) + tail);
    MembersReadInto(FieldsOf(current), ms, tail);
  }

  // One that ends inside its class name is accepted and adds nothing.
  lemma TypedObjectCutShort(current: Field, s: Bytes)
    requires |s| < 2 || |s| - 2 < BigEndian(s[..2])
    ensures ReadValue([TYPED_OBJECT] + s, current) == Value(true, Some(Obj(FieldsOf(current))), [])
  {
    hide ReadMember, ReadEcma, ReadArray, BigEndian;
    assert ([TYPED_OBJECT] + s)[1..] == s;
  }

  // A long string may be short, and any byte but 0 is true.
  lemma LooseScalars(current: Field, text: Bytes, b: Byte, tail: Bytes)
    requires |text| < U32
    ensures ReadValue([LONG_STRING] + (EncodeText(text, 4) + tail), current) == Value(true, Some(Str(text)), tail)
    ensures ReadValue([BOOLEAN, b] + tail, current) == Value(true, Some(Bool(b > 0)), tail)
  {
    hide ReadMembers, ReadEcma, ReadArray, ReadText, EncodeText;
    Widths();
    assert ([LONG_STRING] + (EncodeText(text, 4) + tail))[1..] == EncodeText(text, 4) + tail;
    TextReadsBack(text, 4, tail);
    assert ([BOOLEAN, b] + tail)[1..] == [b] + tail;
  }

  // Movie clips, references, dates, record sets, XML documents and AMF 3 objects are rejected and set nothing.
  lemma UnsupportedMarkers(s: Bytes, current: Field)
    requires s != [] && s[0] in {0x04, 0x07, 0x0B, 0x0E, 0x0F, 0x11}
    ensures ReadValue(s, current) == Value(false, None, s[1..])
  {
    hide ReadMembers, ReadEcma, ReadArray, ReadText;
  }

  // A strict array whose items run out fails and keeps those that were there.
  lemma {:induction false} ItemsRunOut(done: seq<Field>, items: seq<Field>, more: nat)
    requires more > 0 && forall x <- items :: Proper(x) && NamesFit(x) && Named(x)
    ensures ReadItems(EncodeItems(items), done, |items| + more) == Items(false, done + items, [])
    decreases items
  {
    hide Encode, Proper, NamesFit, Named, ReadMembers, ReadEcma, ReadArray, ReadText;
    if items == [] {
      assert done + [] == done;
    } else {
      hide ReadValue;
      var (x, rest) := (items[0], items[1..]);
      assert x in items;
      ReadsBack(x, EncodeItems(rest));
      assert done + [x] + rest == done + items;
      ItemsRunOut(done + [x], rest, more);
    }
  }
}
