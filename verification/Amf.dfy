/** AMF0 values (sections 2.2 to 2.15 of the AMF 0 specification): what the writer writes and the reader reads. */
module Amf {
  import opened Options
  import opened Limits
  import opened ByteOrder
  import opened AmfStreams

  const NUMBER: Byte := 0x00
  const BOOLEAN: Byte := 0x01
  const STRING: Byte := 0x02
  const OBJECT: Byte := 0x03
  const MOVIECLIP: Byte := 0x04
  const NULL: Byte := 0x05
  const UNDEFINED: Byte := 0x06
  const REFERENCE: Byte := 0x07
  const ECMA_ARRAY: Byte := 0x08
  const OBJECT_END: Byte := 0x09
  const STRICT_ARRAY: Byte := 0x0A
  const DATE: Byte := 0x0B
  const LONG_STRING: Byte := 0x0C
  const UNSUPPORTED: Byte := 0x0D
  const RECORDSET: Byte := 0x0E
  const XML_DOCUMENT: Byte := 0x0F
  const TYPED_OBJECT: Byte := 0x10
  const AVMPLUS_OBJECT: Byte := 0x11

  // A number is its 64 bits. The members of an object are kept in the order of their names.
  datatype Field =
    | Number(bits: nat)
    | Bool(b: bool)
    | Str(text: Bytes)
    | Obj(fields: seq<Member>)
    | Arr(items: seq<Field>)
    | Null
    | Undefined
    | Unsupported

  datatype Member = Member(name: Bytes, field: Field)

  // ---- the map from names to fields ----

  predicate Less(a: Bytes, b: Bytes)
  {
    b != [] && (a == [] || a[0] < b[0] || (a[0] == b[0] && Less(a[1..], b[1..])))
  }

  ghost predicate Sorted(fields: seq<Member>)
  {
    forall i, j :: 0 <= i < j < |fields| ==> Less(fields[i].name, fields[j].name)
  }

  // The field under a name; an unknown name gives a new, undefined field.
  function Lookup(fields: seq<Member>, name: Bytes): Field
  {
    if fields == [] then Undefined
    else if fields[0].name == name then fields[0].field
    else Lookup(fields[1..], name)
  }

  function Set(fields: seq<Member>, name: Bytes, f: Field): seq<Member>
  {
    if fields == [] || Less(name, fields[0].name) then [Member(name, f)] + fields
    else if fields[0].name == name then [Member(name, f)] + fields[1..]
    else [fields[0]] + Set(fields[1..], name, f)
  }

  lemma {:induction false} LessIsStrict(a: Bytes, b: Bytes)
    ensures Less(a, b) ==> a != b && !Less(b, a)
    ensures !Less(a, b) && !Less(b, a) ==> a == b
  {
    if a != [] && b != [] {
      LessIsStrict(a[1..], b[1..]);
      assert a == [a[0]] + a[1..] && b == [b[0]] + b[1..];
    }
  }

  lemma {:induction false} LessIsTransitive(a: Bytes, b: Bytes, c: Bytes)
    requires Less(a, b) && Less(b, c)
    ensures Less(a, c)
  {
    if a != [] && a[0] == b[0] == c[0] {
      LessIsTransitive(a[1..], b[1..], c[1..]);
    }
  }

  // A name above all others goes to the end.
  lemma {:induction false} SetAtEnd(fields: seq<Member>, name: Bytes, f: Field)
    requires forall m <- fields :: Less(m.name, name)
    ensures Set(fields, name, f) == fields + [Member(name, f)] && Lookup(fields, name) == Undefined
  {
    if fields != [] {
      assert fields[0] in fields;
      LessIsStrict(fields[0].name, name);
      SetAtEnd(fields[1..], name, f);
      assert fields == [fields[0]] + fields[1..];
    }
  }

  // Names after a set: the old ones and the new one.
  lemma {:induction false} SetNames(fields: seq<Member>, name: Bytes, f: Field)
    ensures forall m <- Set(fields, name, f) :: m == Member(name, f) || m in fields
  {
    if fields != [] && !Less(name, fields[0].name) && fields[0].name != name {
      SetNames(fields[1..], name, f);
    }
  }

  lemma SortedCons(m: Member, rest: seq<Member>)
    requires Sorted(rest) && forall x <- rest :: Less(m.name, x.name)
    ensures Sorted([m] + rest)
  {
  }

  // Setting keeps the order, and behaves as an update of a map.
  lemma {:induction false} SetIsUpdate(fields: seq<Member>, name: Bytes, f: Field, other: Bytes)
    requires Sorted(fields)
    ensures Sorted(Set(fields, name, f))
    ensures Lookup(Set(fields, name, f), other) == if other == name then f else Lookup(fields, other)
  {
    if fields == [] {
    } else {
      var m, rest := fields[0], fields[1..];
      assert fields == [m] + rest;
      assert forall x <- rest :: Less(m.name, x.name);
      LessIsStrict(name, m.name);
      if Less(name, m.name) {
        forall x <- fields ensures Less(name, x.name) {
          if x != m {
            LessIsTransitive(name, m.name, x.name);
          }
        }
        SortedCons(Member(name, f), fields);
      } else if m.name == name {
        SortedCons(Member(name, f), rest);
      } else {
        SetIsUpdate(rest, name, f, other);
        SetNames(rest, name, f);
        SortedCons(m, Set(rest, name, f));
      }
    }
  }

  // ---- writing ----

  function WriteText(o: Out, text: Bytes, width: nat): Out { Put(Put(o, ToBytes(|text|, width)), text) }

  function WriteField(o: Out, f: Field): Out
    decreases f
  {
    match f
    case Number(bits) => Put(Put(o, [NUMBER]), ToBytes(bits, 8))
    case Bool(b) => Put(Put(o, [BOOLEAN]), [if b then 1 else 0])
    case Str(text) => if |text| < U16 then WriteText(Put(o, [STRING]), text, 2) else WriteText(Put(o, [LONG_STRING]), text, 4)
    case Obj(fields) => WriteMembers(Put(o, [OBJECT]), fields)
    case Arr(items) => WriteItems(Put(Put(o, [STRICT_ARRAY]), ToBytes(|items|, 4)), items)
    case Null => Put(o, [NULL])
    case Undefined => Put(o, [UNDEFINED])
    case Unsupported => Put(o, [UNSUPPORTED])
  }

  // A name that is too long spoils the stream; so does a stream that is full.
  function WriteMembers(o: Out, ms: seq<Member>): Out
    decreases ms
  {
    if ms == [] then Put(Put(o, ToBytes(0, 2)), [OBJECT_END])
    else if |ms[0].name| >= U16 then o.(good := false)
    else
      var o' := WriteField(WriteText(o, ms[0].name, 2), ms[0].field);
      if o'.good then WriteMembers(o', ms[1..]) else o'
  }

  function WriteItems(o: Out, items: seq<Field>): Out
    decreases items
  {
    if items == [] then o
    else
      var o' := WriteField(o, items[0]);
      if o'.good then WriteItems(o', items[1..]) else o'
  }

  // The bytes of a value.
  function Encode(f: Field): (s: Bytes)
    ensures s != [] && s[0] != OBJECT_END
    decreases f
  {
    match f
    case Number(bits) => [NUMBER] + ToBytes(bits, 8)
    case Bool(b) => [BOOLEAN, if b then 1 else 0]
    case Str(text) => if |text| < U16 then [STRING] + EncodeText(text, 2) else [LONG_STRING] + EncodeText(text, 4)
    case Obj(fields) => [OBJECT] + EncodeMembers(fields)
    case Arr(items) => [STRICT_ARRAY] + (ToBytes(|items|, 4) + EncodeItems(items))
    case Null => [NULL]
    case Undefined => [UNDEFINED]
    case Unsupported => [UNSUPPORTED]
  }

  function EncodeText(text: Bytes, width: nat): Bytes { ToBytes(|text|, width) + text }

  function EncodeMembers(ms: seq<Member>): Bytes
    decreases ms
  {
    if ms == [] then ToBytes(0, 2) + [OBJECT_END]
    else EncodeText(ms[0].name, 2) + (Encode(ms[0].field) + EncodeMembers(ms[1..]))
  }

  function EncodeItems(items: seq<Field>): Bytes
    decreases items
  {
    if items == [] then [] else Encode(items[0]) + EncodeItems(items[1..])
  }

  // Every name is short enough for its 16-bit length.
  predicate NamesFit(f: Field)
    decreases f
  {
    match f
    case Obj(fields) => forall m <- fields :: |m.name| < U16 && NamesFit(m.field)
    case Arr(items) => forall x <- items :: NamesFit(x)
    case _ => true
  }

  // ---- reading ----

  datatype Text = Text(ok: bool, text: Bytes, rest: Bytes)

  // A stream that is too short is used up.
  function ReadText(s: Bytes, width: nat): (r: Text)
    ensures |r.rest| <= |s| && (r.ok ==> |r.rest| + width <= |s|)
  {
    if |s| < width then Text(false, [], [])
    else
      var n := BigEndian(s[..width]);
      if |s| - width < n then Text(false, [], []) else Text(true, s[width..width + n], s[width + n..])
  }

  // `result` is what the field becomes, also where reading fails half way.
  datatype Value = Value(ok: bool, result: Option<Field>, rest: Bytes)

  datatype Fields = Fields(ok: bool, fields: seq<Member>, rest: Bytes)

  datatype Items = Items(ok: bool, items: seq<Field>, rest: Bytes)

  function FieldsOf(f: Field): seq<Member> { if f.Obj? then f.fields else [] }

  function ItemsOf(f: Field): seq<Field> { if f.Arr? then f.items else [] }

  predicate IsRejected(marker: Byte)
  {
    marker in {MOVIECLIP, REFERENCE, DATE, RECORDSET, XML_DOCUMENT, AVMPLUS_OBJECT}
  }

  // Read into a field that holds `current`: containers are added to. An object end or an unknown marker sets nothing.
  function ReadValue(s: Bytes, current: Field): (r: Value)
    ensures |r.rest| <= |s|
    decreases |s|, 0, 0
  {
    if s == [] then Value(false, None, [])
    else
      var (m, t) := (s[0], s[1..]);
      if m == NUMBER then
        if |t| < 8 then Value(false, None, []) else Value(true, Some(Number(BigEndian(t[..8]))), t[8..])
      else if m == BOOLEAN then
        if t == [] then Value(false, None, []) else Value(true, Some(Bool(t[0] != 0)), t[1..])
      else if m == STRING then TextValue(ReadText(t, 2))
      else if m == LONG_STRING then TextValue(ReadText(t, 4))
      else if m == TYPED_OBJECT then FieldsValue(ReadMembers(ReadText(t, 2).rest, FieldsOf(current)))
      else if m == OBJECT then FieldsValue(ReadMembers(t, FieldsOf(current)))
      else if m == ECMA_ARRAY then FieldsValue(ReadEcma(t, FieldsOf(current)))
      else if m == STRICT_ARRAY then ItemsValue(ReadArray(t, ItemsOf(current)))
      else if m == NULL then Value(true, Some(Null), t)
      else if m == UNDEFINED then Value(true, Some(Undefined), t)
      else if m == UNSUPPORTED then Value(true, Some(Unsupported), t)
      else Value(!IsRejected(m), None, t)
  }

  function TextValue(x: Text): Value { Value(x.ok, if x.ok then Some(Str(x.text)) else None, x.rest) }
  function FieldsValue(x: Fields): Value { Value(x.ok, Some(Obj(x.fields)), x.rest) }
  function ItemsValue(x: Items): Value { Value(x.ok, Some(Arr(x.items)), x.rest) }

  function ReadMember(s: Bytes, fields: seq<Member>, name: Bytes): (r: Fields)
    ensures |r.rest| <= |s|
    decreases |s|, 1, 0
  {
    var v := ReadValue(s, Lookup(fields, name));
    Fields(v.ok, if v.result.Some? then Set(fields, name, v.result.value) else fields, v.rest)
  }

  // Members up to an empty name. A stream that ends before or inside a name ends the object, too.
  function ReadMembers(s: Bytes, fields: seq<Member>): (r: Fields)
    ensures |r.rest| <= |s|
    decreases |s|, 1, 0
  {
    var n := ReadText(s, 2);
    if !n.ok then Fields(true, fields, n.rest)
    else if n.text == [] then
      if n.rest == [] then Fields(false, fields, []) else Fields(n.rest[0] == OBJECT_END, fields, n.rest[1..])
    else
      var r := ReadMember(n.rest, fields, n.text);
      if r.ok then ReadMembers(r.rest, r.fields) else r
  }

  function ReadEcma(s: Bytes, fields: seq<Member>): (r: Fields)
    ensures |r.rest| <= |s|
    decreases |s|, 3, 0
  {
    if |s| < 4 then Fields(false, fields, []) else ReadCounted(s[4..], fields, BigEndian(s[..4]))
  }

  function ReadCounted(s: Bytes, fields: seq<Member>, count: nat): (r: Fields)
    ensures |r.rest| <= |s|
    decreases |s|, 2, count
  {
    if count == 0 then Fields(true, fields, s)
    else
      var n := ReadText(s, 2);
      if !n.ok then Fields(false, fields, n.rest)
      else
        var r := ReadMember(n.rest, fields, n.text);
        if r.ok then ReadCounted(r.rest, r.fields, count - 1) else r
  }

  function ReadArray(s: Bytes, items: seq<Field>): (r: Items)
    ensures |r.rest| <= |s|
    decreases |s|, 3, 0
  {
    if |s| < 4 then Items(false, items, []) else ReadItems(s[4..], items, BigEndian(s[..4]))
  }

  function ReadItems(s: Bytes, items: seq<Field>, count: nat): (r: Items)
    ensures |r.rest| <= |s|
    decreases |s|, 2, count
  {
    if count == 0 then Items(true, items, s)
    else
      var v := ReadValue(s, Undefined);
      var items' := if v.result.Some? then items + [v.result.value] else items;
      if v.ok then ReadItems(v.rest, items', count - 1) else Items(false, items', v.rest)
  }
}
