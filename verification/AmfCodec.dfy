/** The AMF reader and writer over block streams, and the objects and arrays they work on. */
module AmfCodec {
  import opened Options
  import opened IoBuf
  import opened Limits
  import opened ByteOrder
  import opened AmfStreams
  import A = Amf
  import P = AmfProofs
  import M = AmfMerge

  type Field = A.Field
  type Member = A.Member

  class AMFObject {
    var fields: seq<Member>

    constructor (fields: seq<Member>)
      ensures this.fields == fields
    {
      this.fields := fields;
    }

    method Set(name: Bytes, f: Field)
      modifies this
      ensures fields == A.Set(old(fields), name, f)
    {
      fields := A.Set(fields, name, f);
    }
  }

  // Four slots in place, the rest in a deque. Slots past the end are undefined.
  class AMFArray {
    var size: nat
    const slots: array<Field>
    var more: seq<Field>

    ghost predicate Valid()
      reads this, slots
    {
      && slots.Length == 4
      && |more| == (if size > 4 then size - 4 else 0)
      && forall i :: size <= i < 4 ==> slots[i] == A.Undefined
    }

    function View(): seq<Field>
      requires Valid()
      reads this, slots
    {
      if size <= 4 then slots[..size] else slots[..] + more
    }

    constructor ()
      ensures Valid() && View() == [] && fresh(slots)
    {
      size, more := 0, [];
      slots := new Field[4](_ => A.Undefined);
    }

    function At(i: nat): (f: Field)
      requires Valid() && i < size
      reads this, slots
      ensures |View()| == size && f == View()[i]
    {
      if i < 4 then slots[i] else more[i - 4]
    }

    // Take the next slot, which is undefined until now, and set it.
    method Add(f: Field)
      requires Valid()
      modifies this, slots
      ensures Valid() && View() == old(View()) + [f]
    {
      if size < 4 {
        assert slots[size] == A.Undefined;
        slots[size] := f;
        size := size + 1;
      } else {
        assert size - 4 == |more|;
        more := more + [A.Undefined];
        size := size + 1;
        more := more[size - 5 := f];
        assert View() == old(View()) + [f];
      }
    }

    method RemoveLast()
      requires Valid()
      modifies this, slots
      ensures Valid() && View() == if old(View()) == [] then [] else old(View())[..|old(View())| - 1]
    {
      if size == 0 {
        return;
      }
      if size <= 4 {
        size := size - 1;
        slots[size] := A.Undefined;
        return;
      }
      more := more[..|more| - 1];
      size := size - 1;
    }

    method Clear()
      requires Valid()
      modifies this, slots
      ensures Valid() && View() == []
    {
      var n := Min(size, 4);
      for i := 0 to n
        invariant Valid()
        invariant forall k :: 0 <= k < i ==> slots[k] == A.Undefined
        invariant forall k :: n <= k < 4 ==> slots[k] == A.Undefined
        invariant size == old(size) && n == Min(size, 4)
      {
        slots[i] := A.Undefined;
      }
      size, more := 0, [];
    }

    method Put(i: nat, f: Field)
      requires Valid() && i < size
      modifies this, slots
      ensures Valid() && View() == old(View())[i := f] && size == old(size)
    {
      if i < 4 {
        slots[i] := f;
      } else {
        more := more[i - 4 := f];
      }
    }

    // Assignment. It copies unless the array shrinks by two or more: then extra fields stay behind. Assigned to
    // itself, an array loses its fields, since a field is cleared before it takes the other's value.
    method Assign(rhs: AMFArray)
      requires Valid() && rhs.Valid() && (rhs != this ==> rhs.slots != slots)
      modifies this, slots
      ensures Valid() && rhs.Valid()
      ensures rhs == this ==> View() == seq(|old(View())|, _ => A.Undefined)
      ensures rhs != this ==> rhs.View() == old(rhs.View()) && rhs.View() <= View()
      ensures rhs != this ==> (View() == rhs.View() <==> |old(View())| <= |rhs.View()| + 1)
    {
      hide View, Valid;
      ViewSize();
      rhs.ViewSize();
      if size < rhs.size {
        Clear();
        CopyFrom(rhs);
        return;
      }
      ghost var (n, m) := (rhs.size, size);
      CopyFront(rhs);
      Shrink(rhs.size);
      assert |View()| == n + (m - n) / 2;
      assert rhs != this ==> View()[..n] == rhs.View();
    }

    lemma ViewSize()
      requires Valid()
      ensures |View()| == size
    {
    }

    method CopyFront(rhs: AMFArray)
      requires Valid() && rhs.Valid() && (rhs != this ==> rhs.slots != slots) && rhs.size <= size
      modifies this, slots
      ensures Valid() && rhs.Valid() && |View()| == size == old(size) && rhs.size == old(rhs.size)
      ensures rhs == this ==> View() == seq(size, _ => A.Undefined)
      ensures rhs != this ==> |rhs.View()| == rhs.size && View()[..rhs.size] == rhs.View() == old(rhs.View())
    {
      hide View, Valid;
      ViewSize();
      rhs.ViewSize();
      var n := rhs.size;
      for i := 0 to n
        invariant Valid() && rhs.Valid() && |View()| == size == old(size) && rhs.size == n
        invariant rhs == this ==> View()[..i] == seq(i, _ => A.Undefined)
        invariant rhs != this ==> |rhs.View()| == n && View()[..i] == rhs.View()[..i] && rhs.View() == old(rhs.View())
      {
        ghost var before := View();
        PutCopy(i, rhs);
        assert View()[..i + 1] == before[..i] + [View()[i]];
        assert rhs != this ==> rhs.View()[..i + 1] == rhs.View()[..i] + [rhs.View()[i]];
      }
    }

    // A field's assignment: clear, then copy.
    method PutCopy(i: nat, rhs: AMFArray)
      requires Valid() && rhs.Valid() && (rhs != this ==> rhs.slots != slots) && i < rhs.size <= size
      modifies this, slots
      ensures Valid() && rhs.Valid() && size == old(size) == |View()| == |old(View())| && rhs.size == old(rhs.size)
      ensures rhs == this ==> View() == old(View())[i := A.Undefined]
      ensures rhs != this ==> rhs.View() == old(rhs.View()) && |rhs.View()| == rhs.size && View() == old(View())[i := rhs.View()[i]]
    {
      Put(i, A.Undefined);
      Put(i, rhs.At(i));
    }

    // The bound of the loop moves along, so only every other field past n is removed.
    method Shrink(n: nat)
      requires Valid() && n <= size
      modifies this, slots
      ensures Valid() && View() == old(View())[..n + (|old(View())| - n) / 2]
    {
      hide View, Valid;
      ViewSize();
      ghost var all := View();
      var i := n;
      while i < size
        invariant Valid() && |View()| == size && n <= size
        invariant i - n == |all| - size && i - 1 <= size
        invariant View() == all[..size]
      {
        RemoveLast();
        ViewSize();
        i := i + 1;
      }
    }

    // Copy construction: the slots in use, and the whole deque if any of it is.
    method CopyFrom(rhs: AMFArray)
      requires Valid() && rhs.Valid() && rhs != this && rhs.slots != slots && View() == []
      modifies this, slots
      ensures Valid() && rhs.Valid() && View() == rhs.View() == old(rhs.View())
    {
      size := rhs.size;
      var n := Min(size, 4);
      for i := 0 to n
        invariant size == rhs.size && more == old(more) && rhs.Valid() && rhs.View() == old(rhs.View())
        invariant forall k :: 0 <= k < i ==> slots[k] == rhs.slots[k]
        invariant forall k :: n <= k < 4 ==> slots[k] == A.Undefined
      {
        slots[i] := rhs.slots[i];
      }
      if size > 4 {
        more := rhs.more;
      }
    }
  }

  // ---- reading ----

  method ReadTextBody(stream: AMFInputStream, width: nat) returns (ok: bool, text: Bytes)
    modifies stream
    ensures var r := A.ReadText(old(stream.Rest()), width);
            ok == r.ok && (ok ==> text == r.text) && stream.Rest() == r.rest
    ensures stream.poppedBytes + |stream.Rest()| == old(stream.poppedBytes + |stream.Rest()|)
  {
    hide BigEndian;
    ghost var s := stream.Rest();
    text := [];
    var cut, n := stream.CutUint(width);
    if cut != width {
      return false, text;
    }
    if n != 0 {
      text := stream.Cutn(n);
      if |text| != n {
        return false, text;
      }
    }
    assert text == s[width..width + n] && stream.Rest() == s[width + n..];
    ok := true;
  }

  // A value of any kind, for a field that holds `current`.
  method ReadValue(stream: AMFInputStream, current: Field) returns (ok: bool, result: Option<Field>)
    modifies stream
    ensures A.Value(ok, result, stream.Rest()) == A.ReadValue(old(stream.Rest()), current)
    ensures stream.poppedBytes + |stream.Rest()| == old(stream.poppedBytes + |stream.Rest()|)
    decreases |stream.Rest()|, 0
  {
    hide BigEndian, A.ReadText, A.ReadMembers, A.ReadEcma, A.ReadArray, A.ReadItems;
    ghost var s := stream.Rest();
    var cut, marker := stream.CutUint(1);
    result := None;
    if cut != 1 {
      return false, result;
    }
    OneByte(s);
    if marker == A.NUMBER || marker == A.BOOLEAN || marker == A.STRING || marker == A.LONG_STRING {
      ok, result := ReadScalar(stream, marker, current, s);
    } else if marker in {A.TYPED_OBJECT, A.OBJECT, A.ECMA_ARRAY, A.STRICT_ARRAY} {
      ok, result := ReadContainer(stream, marker, current, s);
    } else if marker == A.NULL {
      ok, result := true, Some(A.Null);
    } else if marker == A.UNDEFINED {
      ok, result := true, Some(A.Undefined);
    } else if marker == A.UNSUPPORTED {
      ok, result := true, Some(A.Unsupported);
    } else {
      ok := !A.IsRejected(marker);
    }
  }

  lemma OneByte(s: Bytes)
    requires s != []
    ensures BigEndian(s[..1]) == s[0]
  {
    assert s[..1][..0] == [];
  }

  // Numbers, booleans and strings behind their marker.
  method ReadScalar(stream: AMFInputStream, marker: Byte, current: Field, ghost s: Bytes)
      returns (ok: bool, result: Option<Field>)
    requires s == [marker] + stream.Rest() && marker in {A.NUMBER, A.BOOLEAN, A.STRING, A.LONG_STRING}
    modifies stream
    ensures A.Value(ok, result, stream.Rest()) == A.ReadValue(s, current)
    ensures stream.poppedBytes + |stream.Rest()| == old(stream.poppedBytes + |stream.Rest()|)
  {
    hide BigEndian, A.ReadMembers, A.ReadEcma, A.ReadArray;
    ghost var t := stream.Rest();
    assert s[1..] == t;
    result := None;
    if marker == A.NUMBER {
      var cut, bits := stream.CutUint(8);
      ok := cut == 8;
      if ok {
        result := Some(A.Number(bits));
      }
    } else if marker == A.BOOLEAN {
      var cut, b := stream.CutUint(1);
      ok := cut == 1;
      if ok {
        OneByte(t);
        result := Some(A.Bool(b != 0));
      }
    } else {
      var text;
      ok, text := ReadTextBody(stream, if marker == A.STRING then 2 else 4);
      if ok {
        result := Some(A.Str(text));
      }
    }
  }

  // Objects and arrays behind their marker; the class name of a typed object is dropped.
  method ReadContainer(stream: AMFInputStream, marker: Byte, current: Field, ghost s: Bytes)
      returns (ok: bool, result: Option<Field>)
    requires s == [marker] + stream.Rest()
    requires marker in {A.TYPED_OBJECT, A.OBJECT, A.ECMA_ARRAY, A.STRICT_ARRAY}
    modifies stream
    ensures A.Value(ok, result, stream.Rest()) == A.ReadValue(s, current)
    ensures stream.poppedBytes + |stream.Rest()| == old(stream.poppedBytes + |stream.Rest()|)
    decreases |stream.Rest()|, 5
  {
    hide BigEndian, A.ReadText, A.ReadMembers, A.ReadEcma, A.ReadArray, AMFArray.View;
    assert s[1..] == stream.Rest();
    if marker == A.STRICT_ARRAY {
      var arr := new AMFArray();
      AddAll(arr, A.ItemsOf(current));
      assert arr.View() == A.ItemsOf(current);
      ok := ReadArrayBody(arr, stream);
      result := Some(A.Arr(arr.View()));
      return;
    }
    if marker == A.TYPED_OBJECT {
      var _, _ := ReadTextBody(stream, 2);
    }
    var obj := new AMFObject(A.FieldsOf(current));
    if marker == A.ECMA_ARRAY {
      ok := ReadEcmaArrayBody(obj, stream);
    } else {
      ok := ReadObjectBody(obj, stream);
    }
    result := Some(A.Obj(obj.fields));
  }

  method AddAll(arr: AMFArray, items: seq<Field>)
    requires arr.Valid()
    modifies arr, arr.slots
    ensures arr.Valid() && arr.View() == old(arr.View()) + items
  {
    hide AMFArray.View;
    for i := 0 to |items|
      invariant arr.Valid() && arr.View() == old(arr.View()) + items[..i]
    {
      arr.Add(items[i]);
    }
  }

  method ReadMember(obj: AMFObject, stream: AMFInputStream, name: Bytes) returns (ok: bool)
    modifies obj, stream
    ensures A.Fields(ok, obj.fields, stream.Rest()) == A.ReadMember(old(stream.Rest()), old(obj.fields), name)
    ensures stream.poppedBytes + |stream.Rest()| == old(stream.poppedBytes + |stream.Rest()|)
    decreases |stream.Rest()|, 1
  {
    hide A.ReadValue, A.Lookup, A.Set;
    var result;
    ok, result := ReadValue(stream, A.Lookup(obj.fields, name));
    if result.Some? {
      obj.Set(name, result.value);
    }
  }

  method ReadObjectBody(obj: AMFObject, stream: AMFInputStream) returns (ok: bool)
    modifies obj, stream
    ensures A.Fields(ok, obj.fields, stream.Rest()) == A.ReadMembers(old(stream.Rest()), old(obj.fields))
    ensures stream.poppedBytes + |stream.Rest()| == old(stream.poppedBytes + |stream.Rest()|)
    decreases |stream.Rest()|, 4
  {
    hide A.ReadMember, BigEndian, A.ReadText;
    var more, name := ReadTextBody(stream, 2);
    ghost var s := old(stream.Rest());
    while more
      invariant A.ReadMembers(s, obj.fields) == A.ReadMembers(old(stream.Rest()), old(obj.fields))
      invariant |s| <= |old(stream.Rest())|
      invariant var r := A.ReadText(s, 2); more == r.ok && (more ==> name == r.text) && stream.Rest() == r.rest
      invariant stream.poppedBytes + |stream.Rest()| == old(stream.poppedBytes + |stream.Rest()|)
      decreases |s|
    {
      if name == [] {
        ghost var t := stream.Rest();
        var cut, marker := stream.CutUint(1);
        if cut == 1 {
          OneByte(t);
        }
        return cut == 1 && marker == A.OBJECT_END;
      }
      ok := ReadMember(obj, stream, name);
      if !ok {
        return;
      }
      s := stream.Rest();
      more, name := ReadTextBody(stream, 2);
    }
    ok := true;
  }

  method ReadEcmaArrayBody(obj: AMFObject, stream: AMFInputStream) returns (ok: bool)
    modifies obj, stream
    ensures A.Fields(ok, obj.fields, stream.Rest()) == A.ReadEcma(old(stream.Rest()), old(obj.fields))
    ensures stream.poppedBytes + |stream.Rest()| == old(stream.poppedBytes + |stream.Rest()|)
    decreases |stream.Rest()|, 4
  {
    hide A.ReadMember, BigEndian, A.ReadText;
    var cut, count := stream.CutUint(4);
    if cut != 4 {
      return false;
    }
    for i := 0 to count
      invariant A.ReadCounted(stream.Rest(), obj.fields, count - i) == A.ReadEcma(old(stream.Rest()), old(obj.fields))
      invariant stream.poppedBytes + |stream.Rest()| == old(stream.poppedBytes + |stream.Rest()|)
      invariant |stream.Rest()| < |old(stream.Rest())|
    {
      var name;
      ok, name := ReadTextBody(stream, 2);
      if !ok {
        return;
      }
      ok := ReadMember(obj, stream, name);
      if !ok {
        return;
      }
    }
    ok := true;
  }

  method ReadArrayBody(arr: AMFArray, stream: AMFInputStream) returns (ok: bool)
    requires arr.Valid()
    modifies arr, arr.slots, stream
    ensures arr.Valid()
    ensures A.Items(ok, arr.View(), stream.Rest()) == A.ReadArray(old(stream.Rest()), old(arr.View()))
    ensures stream.poppedBytes + |stream.Rest()| == old(stream.poppedBytes + |stream.Rest()|)
    decreases |stream.Rest()|, 4
  {
    hide A.ReadValue, BigEndian, AMFArray.View;
    var cut, count := stream.CutUint(4);
    if cut != 4 {
      return false;
    }
    for i := 0 to count
      invariant arr.Valid()
      invariant A.ReadItems(stream.Rest(), arr.View(), count - i) == A.ReadArray(old(stream.Rest()), old(arr.View()))
      invariant stream.poppedBytes + |stream.Rest()| == old(stream.poppedBytes + |stream.Rest()|)
      invariant |stream.Rest()| < |old(stream.Rest())|
    {
      var result;
      ok, result := ReadValue(stream, A.Undefined);
      if result.Some? {
        arr.Add(result.value);
      }
      if !ok {
        return;
      }
    }
    ok := true;
  }

  // What ReadAMFObject and ReadAMFArray make of a stream; null stands for an empty object or array.
  function TopObject(s: Bytes, fields: seq<Member>): A.Fields
  {
    if s == [] then A.Fields(false, fields, [])
    else if s[0] == A.OBJECT then A.ReadMembers(s[1..], fields)
    else if s[0] == A.ECMA_ARRAY then A.ReadEcma(s[1..], fields)
    else A.Fields(s[0] == A.NULL, fields, s[1..])
  }

  function TopArray(s: Bytes, items: seq<Field>): A.Items
  {
    if s == [] then A.Items(false, items, [])
    else if s[0] == A.STRICT_ARRAY then A.ReadArray(s[1..], items)
    else A.Items(s[0] == A.NULL, items, s[1..])
  }

  // A top-level object or ECMA array is added to what the object holds; null adds nothing; anything else is rejected.
  lemma TopObjectIsRead(fields: seq<Member>, ms: seq<Member>, tail: Bytes)
    requires M.AllReadable(ms) && |ms| < U32
    ensures (forall m <- ms :: m.name != []) ==>
              TopObject([A.OBJECT] + (A.EncodeMembers(ms) + tail), fields) == A.Fields(true, M.MergeAll(fields, ms), tail)
    ensures TopObject([A.ECMA_ARRAY] + (ToBytes(|ms|, 4) + (M.EncodeEntries(ms) + tail)), fields) ==
            A.Fields(true, M.MergeAll(fields, ms), tail)
    ensures TopObject([A.NULL] + tail, fields) == A.Fields(true, fields, tail)
  {
    hide A.ReadMembers, A.ReadEcma, A.EncodeMembers, M.EncodeEntries, M.MergeAll, ToBytes;
    if forall m <- ms :: m.name != [] {
      M.MembersReadInto(fields, ms, tail);
      assert ([A.OBJECT] + (A.EncodeMembers(ms) + tail))[1..] == A.EncodeMembers(ms) + tail;
    }
    var body := ToBytes(|ms|, 4) + (M.EncodeEntries(ms) + tail);
    M.EcmaIsRead(fields, ms, tail, 0);
    assert ([A.ECMA_ARRAY] + body)[1..] == body && ([A.NULL] + tail)[1..] == tail;
  }

  lemma TopArrayIsRead(items: seq<Field>, more: seq<Field>, tail: Bytes)
    requires |more| < U32 && forall x <- more :: P.Proper(x) && A.NamesFit(x) && P.Named(x)
    ensures TopArray([A.STRICT_ARRAY] + (ToBytes(|more|, 4) + (A.EncodeItems(more) + tail)), items) ==
            A.Items(true, items + more, tail)
    ensures TopArray([A.NULL] + tail, items) == A.Items(true, items, tail)
  {
    hide A.ReadItems, A.EncodeItems, ToBytes, BigEndian;
    var s := ToBytes(|more|, 4) + (A.EncodeItems(more) + tail);
    assert ([A.STRICT_ARRAY] + s)[1..] == s && s[..4] == ToBytes(|more|, 4) && s[4..] == A.EncodeItems(more) + tail;
    Widths();
    NumberReadsBack(|more|, 4);
    P.ItemsReadBack(items, more, tail);
    assert ([A.NULL] + tail)[1..] == tail;
  }

  lemma OtherMarkersAreRejected(s: Bytes, fields: seq<Member>, items: seq<Field>)
    requires s != []
    ensures s[0] !in {0x03, 0x08, 0x05} ==> TopObject(s, fields) == A.Fields(false, fields, s[1..])
    ensures s[0] !in {0x0A, 0x05} ==> TopArray(s, items) == A.Items(false, items, s[1..])
  {
    hide A.ReadMembers, A.ReadEcma, A.ReadArray;
  }

  method ReadAMFObject(obj: AMFObject, stream: AMFInputStream) returns (ok: bool)
    modifies obj, stream
    ensures A.Fields(ok, obj.fields, stream.Rest()) == TopObject(old(stream.Rest()), old(obj.fields))
    ensures stream.poppedBytes + |stream.Rest()| == old(stream.poppedBytes + |stream.Rest()|)
  {
    hide BigEndian, A.ReadMembers, A.ReadEcma;
    ghost var s := stream.Rest();
    var cut, marker := stream.CutUint(1);
    if cut != 1 {
      return false;
    }
    OneByte(s);
    if marker == A.OBJECT {
      ok := ReadObjectBody(obj, stream);
    } else if marker == A.ECMA_ARRAY {
      ok := ReadEcmaArrayBody(obj, stream);
    } else {
      ok := marker == A.NULL;
    }
  }

  method ReadAMFArray(arr: AMFArray, stream: AMFInputStream) returns (ok: bool)
    requires arr.Valid()
    modifies arr, arr.slots, stream
    ensures arr.Valid()
    ensures A.Items(ok, arr.View(), stream.Rest()) == TopArray(old(stream.Rest()), old(arr.View()))
    ensures stream.poppedBytes + |stream.Rest()| == old(stream.poppedBytes + |stream.Rest()|)
  {
    hide BigEndian, A.ReadArray;
    ghost var s := stream.Rest();
    var cut, marker := stream.CutUint(1);
    if cut != 1 {
      return false;
    }
    OneByte(s);
    if marker == A.STRICT_ARRAY {
      ok := ReadArrayBody(arr, stream);
    } else {
      ok := marker == A.NULL;
    }
  }

  // ---- writing ----

  // Strings no longer than an int can say, arrays no longer than their 32-bit size.
  predicate Sized(f: Field)
    decreases f
  {
    match f
    case Str(text) => |text| <= INT_MAX
    case Obj(fields) => forall m <- fields :: Sized(m.field)
    case Arr(items) => |items| < U32 && forall x <- items :: Sized(x)
    case _ => true
  }

  method PutText(stream: AMFOutputStream, text: Bytes, width: nat)
    requires stream.Valid() && |text| <= INT_MAX && width <= 8
    modifies stream, stream.sink
    ensures stream.Valid() && stream.View() == A.WriteText(old(stream.View()), text, width)
  {
    hide Put, ToBytes;
    stream.PutUint(|text|, width);
    stream.Putn(text);
  }

  method WriteAMFField(f: Field, stream: AMFOutputStream)
    requires stream.Valid() && Sized(f)
    modifies stream, stream.sink
    ensures stream.Valid() && stream.View() == A.WriteField(old(stream.View()), f)
    decreases f, 1
  {
    hide Put, ToBytes, A.WriteText, A.WriteMembers, A.WriteItems, AMFArray.View, AMFOutputStream.View;
    match f
    case Number(bits) =>
      stream.PutU8(A.NUMBER);
      stream.PutUint(bits, 8);
    case Bool(b) =>
      stream.PutU8(A.BOOLEAN);
      stream.PutU8(if b then 1 else 0);
    case Str(text) =>
      if |text| < U16 {
        stream.PutU8(A.STRING);
        PutText(stream, text, 2);
      } else {
        stream.PutU8(A.LONG_STRING);
        PutText(stream, text, 4);
      }
    case Obj(fields) => WriteAMFObject(fields, stream);
    case Arr(items) =>
      var arr := new AMFArray();
      AddAll(arr, items);
      assert [] + items == items;
      WriteAMFArray(arr, items, stream);
    case Null => stream.PutU8(A.NULL);
    case Undefined => stream.PutU8(A.UNDEFINED);
    case Unsupported => stream.PutU8(A.UNSUPPORTED);
  }

  method WriteAMFObject(fields: seq<Member>, stream: AMFOutputStream)
    requires stream.Valid() && forall m <- fields :: Sized(m.field)
    modifies stream, stream.sink
    ensures stream.Valid() && stream.View() == A.WriteField(old(stream.View()), A.Obj(fields))
    decreases fields
  {
    hide Put, ToBytes, A.WriteText, Sized, AMFOutputStream.View;
    stream.PutU8(A.OBJECT);
    ghost var o := stream.View();
    assert fields[0..] == fields;
    for i := 0 to |fields|
      invariant stream.Valid() && A.WriteMembers(stream.View(), fields[i..]) == A.WriteMembers(o, fields)
    {
      var m := fields[i];
      assert m in fields && fields[i..][0] == m && fields[i..][1..] == fields[i + 1..];
      if |m.name| >= U16 {
        stream.SetBad();
        return;
      }
      PutText(stream, m.name, 2);
      WriteAMFField(m.field, stream);
      if !stream.good {
        stream.GoodIsViewed();
        return;
      }
      stream.GoodIsViewed();
    }
    stream.PutUint(0, 2);
    stream.PutU8(A.OBJECT_END);
  }

  method WriteAMFArray(arr: AMFArray, ghost items: seq<Field>, stream: AMFOutputStream)
    requires stream.Valid() && arr.Valid() && arr.View() == items && |items| < U32 && forall x <- items :: Sized(x)
    modifies stream, stream.sink
    ensures stream.Valid() && stream.View() == A.WriteField(old(stream.View()), A.Arr(items))
    decreases items
  {
    hide Put, ToBytes, A.WriteText, Sized, AMFOutputStream.View, AMFArray.View;
    stream.PutU8(A.STRICT_ARRAY);
    arr.ViewSize();
    stream.PutUint(arr.size, 4);
    ghost var o := stream.View();
    assert items[0..] == items;
    for i := 0 to arr.size
      invariant stream.Valid() && A.WriteItems(stream.View(), items[i..]) == A.WriteItems(o, items)
    {
      var x := arr.At(i);
      assert x in items && items[i..][0] == x && items[i..][1..] == items[i + 1..];
      WriteAMFField(x, stream);
      stream.GoodIsViewed();
      if !stream.good {
        return;
      }
    }
  }

  // ---- there and back ----

  // Write an object through output blocks of any sizes and read it through input blocks of any sizes.
  method SendObject(fields: seq<Member>, outSizes: seq<nat>, inSizes: seq<nat>)
      returns (sent: bool, received: bool, result: seq<Member>, pushed: nat, popped: nat)
    requires P.Proper(A.Obj(fields))
    ensures sent == (A.NamesFit(A.Obj(fields)) && |A.Encode(A.Obj(fields))| <= Total(outSizes))
    ensures sent ==> received == P.Named(A.Obj(fields))
    ensures sent && received ==> result == fields && popped == pushed == |A.Encode(A.Obj(fields))|
  {
    hide A.WriteField, A.Encode, P.Named, P.Proper, A.NamesFit, A.ReadMembers, TopObject;
    received, result, popped := false, [], 0;
    var sink := new BlockSink(outSizes);
    var output := new AMFOutputStream(sink);
    ProperIsSized(A.Obj(fields));
    WriteAMFObject(fields, output);
    P.WrittenIff(Out(true, [], Total(outSizes), 0), A.Obj(fields));
    sent, pushed := output.good, output.pushedBytes;
    output.Done();
    if !sent {
      return;
    }
    var blocks := Split(sink.bytes, inSizes);
    var input := new AMFInputStream(blocks);
    var obj := new AMFObject([]);
    ghost var all := input.Rest();
    received := ReadAMFObject(obj, input);
    result, popped := obj.fields, input.poppedBytes;
    ObjectComesBack(fields);
    assert all == A.Encode(A.Obj(fields));
  }

  // The same for an array.
  method SendArray(arr: AMFArray, outSizes: seq<nat>, inSizes: seq<nat>)
      returns (sent: bool, received: bool, result: seq<Field>, pushed: nat, popped: nat)
    requires arr.Valid() && P.Proper(A.Arr(arr.View()))
    ensures sent == (A.NamesFit(A.Arr(arr.View())) && |A.Encode(A.Arr(arr.View()))| <= Total(outSizes))
    ensures sent ==> received == P.Named(A.Arr(arr.View()))
    ensures sent && received ==> result == arr.View() && popped == pushed == |A.Encode(A.Arr(arr.View()))|
  {
    hide A.WriteField, A.Encode, P.Named, P.Proper, A.NamesFit, TopArray, AMFArray.View, AMFArray.Valid;
    received, result, popped := false, [], 0;
    ghost var items := arr.View();
    var bytes;
    sent, bytes, pushed := WriteArrayBytes(arr, items, outSizes);
    if sent {
      received, result, popped := ReadArrayBytes(bytes, inSizes);
      ArrayComesBack(items);
    }
  }

  method WriteArrayBytes(arr: AMFArray, ghost items: seq<Field>, outSizes: seq<nat>) returns (sent: bool, bytes: Bytes, pushed: nat)
    requires arr.Valid() && arr.View() == items && P.Proper(A.Arr(items))
    ensures sent == (A.NamesFit(A.Arr(items)) && |A.Encode(A.Arr(items))| <= Total(outSizes))
    ensures sent ==> bytes == A.Encode(A.Arr(items)) && pushed == |bytes|
  {
    hide A.WriteField, A.Encode, P.Proper, A.NamesFit, AMFArray.View;
    var sink := new BlockSink(outSizes);
    var output := new AMFOutputStream(sink);
    ProperIsSized(A.Arr(items));
    WriteAMFArray(arr, items, output);
    P.WrittenIff(Out(true, [], Total(outSizes), 0), A.Arr(items));
    sent, pushed := output.good, output.pushedBytes;
    output.Done();
    bytes := sink.bytes;
  }

  method ReadArrayBytes(bytes: Bytes, inSizes: seq<nat>) returns (ok: bool, result: seq<Field>, popped: nat)
    ensures var r := TopArray(bytes, []); ok == r.ok && result == r.items && popped + |r.rest| == |bytes|
  {
    hide TopArray, AMFArray.View;
    var blocks := Split(bytes, inSizes);
    var input := new AMFInputStream(blocks);
    var arr := new AMFArray();
    ok := ReadAMFArray(arr, input);
    result, popped := arr.View(), input.poppedBytes;
  }

  lemma {:induction false} ProperIsSized(f: Field)
    requires P.Proper(f)
    ensures Sized(f)
    decreases f
  {
    match f
    case Obj(fields) =>
      forall m <- fields ensures Sized(m.field) {
        ProperIsSized(m.field);
      }
    case Arr(items) =>
      forall x <- items ensures Sized(x) {
        ProperIsSized(x);
      }
    case _ =>
  }

  lemma ArrayComesBack(items: seq<Field>)
    requires P.Proper(A.Arr(items)) && A.NamesFit(A.Arr(items))
    ensures var r := TopArray(A.Encode(A.Arr(items)), []);
            if P.Named(A.Arr(items)) then r == A.Items(true, items, []) else !r.ok
  {
    hide A.Encode, P.Named, A.NamesFit, A.ReadItems, ToBytes, BigEndian, A.EncodeItems;
    var f := A.Arr(items);
    P.ReadsBack(f, []);
    P.ContainerIsRead(f, []);
    assert A.Encode(f) + [] == A.Encode(f);
    ArrayBytes(items);
    assert A.Encode(f)[1..][..4] == ToBytes(|items|, 4) && A.Encode(f)[1..][4..] == A.EncodeItems(items) + [];
    Widths();
    NumberReadsBack(|items|, 4);
  }

  lemma ArrayBytes(items: seq<Field>)
    ensures A.Encode(A.Arr(items)) == [A.STRICT_ARRAY] + (ToBytes(|items|, 4) + A.EncodeItems(items))
  {
  }

  lemma ObjectComesBack(fields: seq<Member>)
    requires P.Proper(A.Obj(fields)) && A.NamesFit(A.Obj(fields))
    ensures var r := TopObject(A.Encode(A.Obj(fields)), []);
            if P.Named(A.Obj(fields)) then r == A.Fields(true, fields, []) else !r.ok
  {
    hide A.Encode, P.Named, P.Proper, A.NamesFit, A.ReadMembers;
    var f := A.Obj(fields);
    P.ReadsBack(f, []);
    P.ContainerIsRead(f, []);
    assert A.Encode(f) + [] == A.Encode(f);
    ObjectBytes(fields);
  }

  lemma ObjectBytes(fields: seq<Member>)
    ensures A.Encode(A.Obj(fields)) == [A.OBJECT] + A.EncodeMembers(fields)
  {
  }
}
