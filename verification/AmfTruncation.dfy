/** What the AMF reader makes of a value that is cut short, and of markers it does not know. */
module AmfTruncation {
  import opened Options
  import opened Limits
  import opened ByteOrder
  import opened Amf
  import opened AmfProofs

  // ---- values cut short ----

  // Whether cutting the encoding of f after k bytes goes unnoticed: the cut must leave the reader waiting for the
  // name of a member, or for the empty name that ends an object.
  predicate CutInName(f: Field, k: nat)
    decreases f
  {
    match f
    case Obj(fields) => k >= 1 && CutInMembers(fields, k - 1)
    case Arr(items) => k >= 5 && CutInItems(items, k - 5)
    case _ => false
  }

  // Before the last byte of a length and name or of the end's two zero bytes, or unnoticed inside a member's value.
  // An empty name is taken for the end, which the value behind it then spoils.
  predicate CutInMembers(ms: seq<Member>, k: nat)
    decreases ms
  {
    if ms == [] then k < 2
    else
      var (name, value) := (2 + |ms[0].name|, |Encode(ms[0].field)|);
      if k < name then true
      else if ms[0].name == [] then false
      else if k < name + value then CutInName(ms[0].field, k - name)
      else Named(ms[0].field) && CutInMembers(ms[1..], k - name - value)
  }

  // Unnoticed inside the last item; the items behind any other one would be missed.
  predicate CutInItems(items: seq<Field>, k: nat)
    decreases items
  {
    items != [] &&
    var value := |Encode(items[0])|;
    if k < value then |items| == 1 && CutInName(items[0], k)
    else Named(items[0]) && CutInItems(items[1..], k - value)
  }

  lemma CutText(text: Bytes, width: nat, k: nat)
    requires |text| < Pow256(width) && k < width + |text|
    ensures ReadText(EncodeText(text, width)[..k], width) == Text(false, [], [])
  {
    hide ToBytes, BigEndian;
    var s := EncodeText(text, width)[..k];
    if k >= width {
      NumberReadsBack(|text|, width);
      assert s[..width] == ToBytes(|text|, width);
    }
  }

  lemma CutScalar(f: Field, k: nat)
    requires Proper(f) && !f.Obj? && !f.Arr? && k < |Encode(f)|
    ensures !ReadValue(Encode(f)[..k], Undefined).ok
  {
    hide ReadMembers, ReadArray, ReadEcma, ReadText, EncodeText;
    var s := Encode(f)[..k];
    if k > 0 && f.Str? {
      Widths();
      var w := if |f.text| < U16 then 2 else 4;
      EncodedTextLength(f.text, w);
      CutText(f.text, w, k - 1);
      assert s[1..] == EncodeText(f.text, w)[..k - 1];
    }
  }

  lemma EncodedTextLength(text: Bytes, width: nat)
    ensures |EncodeText(text, width)| == width + |text|
  {
  }

  // How an object or an array cut behind its marker is read.
  lemma CutObject(f: Field, k: nat)
    requires 0 < k < |Encode(f)| && f.Obj?
    ensures ReadValue(Encode(f)[..k], Undefined) == FieldsValue(ReadMembers(EncodeMembers(f.fields)[..k - 1], []))
    ensures k - 1 < |EncodeMembers(f.fields)|
  {
    hide ReadMembers, ReadArray, ReadEcma, ReadText, EncodeMembers;
    assert Encode(f)[..k][1..] == EncodeMembers(f.fields)[..k - 1];
  }

  lemma CutArray(f: Field, k: nat)
    requires 0 < k < |Encode(f)| && f.Arr? && |f.items| < U32
    ensures var r := ReadValue(Encode(f)[..k], Undefined);
            if k < 5 then !r.ok
            else r == ItemsValue(ReadItems(EncodeItems(f.items)[..k - 5], [], |f.items|)) && k - 5 < |EncodeItems(f.items)|
  {
    hide ToBytes, BigEndian, ReadMembers, ReadItems, ReadEcma, ReadText, EncodeItems;
    if k >= 5 {
      Widths();
      NumberReadsBack(|f.items|, 4);
      var (size, items) := (ToBytes(|f.items|, 4), EncodeItems(f.items));
      var s := Encode(f)[..k];
      assert s == [s[0]] + size + items[..k - 5];
      assert s[1..] == size + items[..k - 5];
    }
  }

  // A value cut short is accepted if and only if the cut is in a name, and then nothing is left to read.
  lemma {:induction false} TruncationIsAcceptedIff(f: Field, k: nat)
    requires Proper(f) && NamesFit(f) && k < |Encode(f)|
    ensures var r := ReadValue(Encode(f)[..k], Undefined);
            (r.ok <==> CutInName(f, k)) && (r.ok ==> r.rest == [])
    decreases f
  {
    hide ReadValue, Encode, ReadMembers, ReadItems, CutInMembers, CutInItems;
    if !f.Obj? && !f.Arr? {
      CutScalar(f, k);
    } else if k == 0 {
      assert Encode(f)[..0] == [];
      NothingIsRejected();
    } else if f.Obj? {
      CutObject(f, k);
      assert [] + f.fields == f.fields;
      CutMembers([], f.fields, k - 1);
    } else {
      CutArray(f, k);
      if k >= 5 {
        CutItems([], f.items, k - 5);
      }
    }
  }

  lemma NothingIsRejected()
    ensures !ReadValue([], Undefined).ok
  {
  }

  // A name cut short ends the object; a whole one is followed by its member.
  lemma CutName(done: seq<Member>, name: Bytes, k: nat)
    requires |name| < U16 && k < 2 + |name|
    ensures ReadMembers(EncodeText(name, 2)[..k], done) == Fields(true, done, [])
  {
    hide EncodeText, ReadText;
    Widths();
    EncodedTextLength(name, 2);
    CutText(name, 2, k);
  }

  lemma NameIsRead(done: seq<Member>, name: Bytes, t: Bytes)
    requires 0 < |name| < U16
    ensures var r := ReadMember(t, done, name);
            ReadMembers(EncodeText(name, 2) + t, done) == if r.ok then ReadMembers(r.rest, r.fields) else r
  {
    hide EncodeText, ReadText, ReadMember;
    Widths();
    TextReadsBack(name, 2, t);
  }

  // A whole member in front of u.
  lemma MemberIsRead(done: seq<Member>, ms: seq<Member>, u: Bytes)
    requires ms != [] && Sorted(done + ms) && Proper(ms[0].field) && NamesFit(ms[0].field)
    ensures var r := ReadMember(Encode(ms[0].field) + u, done, ms[0].name);
            if Named(ms[0].field) then r == Fields(true, done + [ms[0]], u) else !r.ok
  {
    hide ReadValue, Encode, Set, Proper, NamesFit, Named;
    var m := ms[0];
    ReadsBack(m.field, u);
    forall x <- done ensures Less(x.name, m.name) {
      PrefixIsBelow(done, ms, x);
    }
    SetAtEnd(done, m.name, m.field);
  }

  // A member's value cut short: the object ends behind it, unless the value is rejected.
  lemma CutMember(done: seq<Member>, ms: seq<Member>, t: Bytes)
    requires ms != [] && Sorted(done + ms) && (ReadValue(t, Undefined).ok ==> ReadValue(t, Undefined).rest == [])
    ensures var r := ReadMember(t, done, ms[0].name); r.ok == ReadValue(t, Undefined).ok && (r.ok ==> r.rest == [])
  {
    hide ReadValue, Set;
    forall x <- done ensures Less(x.name, ms[0].name) {
      PrefixIsBelow(done, ms, x);
    }
    SetAtEnd(done, ms[0].name, Undefined);
  }

  lemma CutOfThree(a: Bytes, b: Bytes, c: Bytes, k: nat)
    requires k <= |a| + |b| + |c|
    ensures (a + b + c)[..k] == if k < |a| then a[..k]
                                else if k < |a| + |b| then a + b[..k - |a|]
                                else a + (b + c[..k - |a| - |b|])
  {
  }

  lemma {:induction false} CutMembers(done: seq<Member>, ms: seq<Member>, k: nat)
    requires Sorted(done + ms) && k < |EncodeMembers(ms)|
    requires forall m <- ms :: Proper(m.field) && |m.name| < U16 && NamesFit(m.field)
    ensures var r := ReadMembers(EncodeMembers(ms)[..k], done);
            (r.ok <==> CutInMembers(ms, k)) && (r.ok ==> r.rest == [])
    decreases ms
  {
    hide ReadMember, ReadMembers, EncodeText, ReadValue, Encode, Proper, NamesFit, Named, CutInName;
    if ms == [] {
      CutEnd(done, k);
    } else {
      var (m, rest) := (ms[0], ms[1..]);
      assert m in ms;
      var (name, value) := (EncodeText(m.name, 2), Encode(m.field));
      EncodedTextLength(m.name, 2);
      assert EncodeMembers(ms) == name + value + EncodeMembers(rest);
      CutOfThree(name, value, EncodeMembers(rest), k);
      if k < |name| {
        CutName(done, m.name, k);
      } else if m.name == [] {
        CutEmptyName(done, m.field, EncodeMembers(rest), k);
      } else if k < |name| + |value| {
        var t := value[..k - |name|];
        NameIsRead(done, m.name, t);
        TruncationIsAcceptedIff(m.field, |t|);
        CutMember(done, ms, t);
        ReadNothing(ReadMember(t, done, m.name).fields);
      } else {
        var u := EncodeMembers(rest)[..k - |name| - |value|];
        NameIsRead(done, m.name, value + u);
        MemberIsRead(done, ms, u);
        if Named(m.field) {
          assert done + [m] + rest == done + ms;
          CutMembers(done + [m], rest, |u|);
        }
      }
    }
  }

  // With nothing left the next name is missing, which ends the object.
  lemma ReadNothing(fields: seq<Member>)
    ensures ReadMembers([], fields) == Fields(true, fields, [])
  {
  }

  lemma CutEnd(done: seq<Member>, k: nat)
    requires k < |EncodeMembers([])|
    ensures var r := ReadMembers(EncodeMembers([])[..k], done); (r.ok <==> k < 2) && (r.ok ==> r.rest == [])
  {
    hide ToBytes, BigEndian;
    Widths();
    var s := EncodeMembers([])[..k];
    if k == 2 {
      NumberReadsBack(0, 2);
      assert s == ToBytes(0, 2) == s[..2];
    }
  }

  // An empty name with anything but an object end behind it.
  lemma CutEmptyName(done: seq<Member>, f: Field, after: Bytes, k: nat)
    requires Proper(f) && 2 <= k < 2 + |Encode(f)| + |after|
    ensures !ReadMembers((EncodeText([], 2) + Encode(f) + after)[..k], done).ok
  {
    hide ToBytes, BigEndian, Encode, ReadMember, ReadText;
    Widths();
    var t := (Encode(f) + after)[..k - 2];
    EncodedTextLength([], 2);
    assert (EncodeText([], 2) + Encode(f) + after)[..k] == EncodeText([], 2) + t;
    TextReadsBack([], 2, t);
    NoEndMarker(f);
  }

  lemma NoEndMarker(f: Field)
    requires Proper(f)
    ensures Encode(f) != [] && Encode(f)[0] != OBJECT_END
  {
    hide EncodeMembers, EncodeItems, EncodeText;
  }

  lemma {:induction false} CutItems(done: seq<Field>, items: seq<Field>, k: nat)
    requires k < |EncodeItems(items)|
    requires forall x <- items :: Proper(x) && NamesFit(x)
    ensures var r := ReadItems(EncodeItems(items)[..k], done, |items|);
            (r.ok <==> CutInItems(items, k)) && (r.ok ==> r.rest == [])
    decreases items
  {
    hide ReadValue, Encode, Proper, NamesFit, Named, CutInName;
    var (x, rest) := (items[0], items[1..]);
    assert x in items;
    var (s, value) := (EncodeItems(items)[..k], Encode(x));
    if k < |value| {
      assert s == value[..k];
      TruncationIsAcceptedIff(x, k);
      NothingIsRejected();
    } else {
      var u := EncodeItems(rest)[..k - |value|];
      assert s == value + u;
      ReadsBack(x, u);
      if Named(x) {
        CutItems(done + [x], rest, k - |value|);
      }
    }
  }

  // The shortest such inputs: an object marker with nothing, or half a length, behind it.
  lemma TruncatedObjectsAreAccepted()
    ensures ReadValue([OBJECT], Undefined) == ReadValue([OBJECT, 0], Undefined) == Value(true, Some(Obj([])), [])
  {
    assert [OBJECT][1..] == [] && [OBJECT, 0][1..] == [0];
    ReadNothing([]);
    assert ReadMembers([0], []) == Fields(true, [], []);
  }

  // ---- markers that set nothing ----

  predicate SetsNothing(marker: Byte) { marker == OBJECT_END || marker > AVMPLUS_OBJECT }

  // A marker is skipped, that is accepted without setting the field, exactly if it is an object end or unknown.
  lemma SkippedIff(s: Bytes, current: Field)
    requires s != []
    ensures var r := ReadValue(s, current); r.ok && r.result.None? <==> SetsNothing(s[0])
    ensures SetsNothing(s[0]) ==> ReadValue(s, current).rest == s[1..]
  {
    hide ReadMembers, ReadArray, ReadEcma, ReadText, BigEndian;
  }

  // How many of the next `count` items start with such a marker.
  function Skipped(s: Bytes, count: nat): nat
    decreases count
  {
    if count == 0 || s == [] then 0
    else (if SetsNothing(s[0]) then 1 else 0) + Skipped(ReadValue(s, Undefined).rest, count - 1)
  }

  // An array that is read falls short of its count by exactly the markers that were skipped.
  lemma {:induction false} ItemsFallShort(s: Bytes, items: seq<Field>, count: nat)
    requires ReadItems(s, items, count).ok
    ensures |ReadItems(s, items, count).items| + Skipped(s, count) == |items| + count
    decreases count
  {
    hide ReadValue;
    if count > 0 {
      var v := ReadValue(s, Undefined);
      NothingIsRejected();
      SkippedIff(s, Undefined);
      ItemsFallShort(v.rest, if v.result.Some? then items + [v.result.value] else items, count - 1);
    }
  }

  // So it has as many items as announced if and only if no marker in item position is an object end or unknown.
  lemma ArrayIsFullIff(s: Bytes)
    requires ReadArray(s, []).ok
    ensures |ReadArray(s, []).items| == BigEndian(s[..4]) <==> Skipped(s[4..], BigEndian(s[..4])) == 0
  {
    hide ReadItems, BigEndian;
    ItemsFallShort(s[4..], [], BigEndian(s[..4]));
  }
}
