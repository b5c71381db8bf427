/** The derived writer, sizer and reader (silkroad-serde-derive) as three interpreters over one
    description of a type, on the little-endian primitives of silkroad-serde. */
module Schema {
  import opened Wrappers
  import opened Words

  // ---------------------------------------------------------------- Descriptions

  /** A type that implements the traits: a number of 1, 2, 4 or 8 bytes (signed numbers and floats by
      their bits), a flag, a struct or a tagged enum. */
  datatype Ty =
    | IntTy(width: nat)
    | BoolTy
    | StructTy(fields: seq<Field>)
    | EnumTy(size: nat, variants: seq<Variant>)

  datatype Variant = Variant(tag: nat, fields: seq<Field>)

  /** A field, by the kind of its type and its attributes. */
  datatype Field =
    | Plain(ty: Ty)
    | Str(width: nat)
    | Array(len: nat)
    | Collection(listType: ListType, size: nat, elem: Field)
    | Optional(flag: Flag, elem: Field)
    | Tuple(items: seq<Field>)

  datatype ListType = Length | Break | HasMore | NoHeader

  /** How an option says whether it is there: a byte, nothing (size 0), or a condition on the fields
      before it. */
  datatype Flag = Flagged | Unflagged | When(holds: seq<Value> -> bool)

  /** The bytes of a length or of a marker, for the size given with the field: sizes 3 and 4 of a
      length mean 4 and 8 bytes. */
  function HeaderWidth(listType: ListType, size: nat): nat {
    match listType
    case Length => if size == 3 then 4 else if size == 4 then 8 else size
    case NoHeader => 0
    case _ => size
  }

  type Text = seq<char>

  datatype Value =
    | VInt(n: nat)
    | VBool(b: bool)
    | VText(text: Text)
    | VBytes(bytes: Bytes)
    | VList(items: seq<Value>)
    | VOption(value: Option<Value>)
    | VFields(values: seq<Value>)
    | VEnum(index: nat, fields: seq<Value>)

  /** The two encodings of text, and strict decoders for them. */
  datatype TextCodec = TextCodec(
    utf8: Text -> Bytes, fromUtf8: Bytes -> Option<Text>,
    utf16: Text -> seq<nat>, fromUtf16: seq<nat> -> Option<Text>)

  ghost predicate TextLaws(tc: TextCodec) {
    && (forall t: Text {:trigger tc.utf8(t)} :: tc.fromUtf8(tc.utf8(t)) == Some(t))
    && (forall b: Bytes {:trigger tc.fromUtf8(b)} :: tc.fromUtf8(b).Some? ==> tc.utf8(tc.fromUtf8(b).value) == b)
    && (forall t: Text {:trigger tc.utf16(t)} :: tc.fromUtf16(tc.utf16(t)) == Some(t))
    && (forall u: seq<nat> {:trigger tc.fromUtf16(u)} :: tc.fromUtf16(u).Some? ==> tc.utf16(tc.fromUtf16(u).value) == u)
    && (forall t: Text, i: nat {:trigger tc.utf16(t)[i]} :: i < |tc.utf16(t)| ==> tc.utf16(t)[i] < 0x1_0000)
  }

  /** How many bytes of UTF-8 and units of UTF-16 a character takes. */
  function Utf8Width(c: char): nat {
    if c as int < 0x80 then 1 else if c as int < 0x800 then 2 else if c as int < 0x1_0000 then 3 else 4
  }

  function Utf16Width(c: char): nat {
    if c as int < 0x1_0000 then 1 else 2
  }

  function TextWidth(width: char -> nat, text: Text): nat {
    if text == [] then 0 else width(text[0]) + TextWidth(width, text[1..])
  }

  ghost predicate TextWidths(tc: TextCodec) {
    && (forall t: Text {:trigger tc.utf8(t)} :: |tc.utf8(t)| == TextWidth(Utf8Width, t))
    && (forall t: Text {:trigger tc.utf16(t)} :: |tc.utf16(t)| == TextWidth(Utf16Width, t))
  }

  // ---------------------------------------------------------------- Types of values

  function Pow256(width: nat): nat {
    if width == 0 then 1 else 0x100 * Pow256(width - 1)
  }

  predicate HasTy(ty: Ty, v: Value)
    decreases ty, 1
  {
    match ty
    case IntTy(width) => v.VInt? && v.n < Pow256(width)
    case BoolTy => v.VBool?
    case StructTy(fields) => v.VFields? && FieldsHave(fields, v.values)
    case EnumTy(_, variants) =>
      v.VEnum? && v.index < |variants| && FieldsHave(variants[v.index].fields, v.fields)
  }

  predicate FieldHas(f: Field, v: Value)
    decreases f, 1
  {
    match f
    case Plain(ty) => HasTy(ty, v)
    case Str(width) => v.VText?
    case Array(len) => v.VBytes? && |v.bytes| == len
    case Collection(_, _, elem) => v.VList? && forall i :: 0 <= i < |v.items| ==> FieldHas(elem, v.items[i])
    case Optional(_, elem) => v.VOption? && (v.value.Some? ==> FieldHas(elem, v.value.value))
    case Tuple(items) => v.VFields? && FieldsHave(items, v.values)
  }

  predicate FieldsHave(fs: seq<Field>, vs: seq<Value>)
    decreases fs, 0
  {
    |fs| == |vs| && (fs == [] || (FieldHas(fs[0], vs[0]) && FieldsHave(fs[1..], vs[1..])))
  }

  // ---------------------------------------------------------------- Writing

  function WriteInt(n: nat, width: nat): (r: Bytes)
    ensures |r| == width
  {
    if width == 0 then [] else [n % 0x100] + WriteInt(n / 0x100, width - 1)
  }

  function WriteUnits(units: seq<nat>): Bytes {
    if units == [] then [] else WriteInt(units[0], 2) + WriteUnits(units[1..])
  }

  /** The length is that of the UTF-8 form, cut to 16 bits, for both widths. */
  function WriteText(tc: TextCodec, text: Text, width: nat): Bytes {
    WriteInt(|tc.utf8(text)| % 0x1_0000, 2) + if width == 2 then WriteUnits(tc.utf16(text)) else tc.utf8(text)
  }

  function Write(tc: TextCodec, ty: Ty, v: Value): Bytes
    requires HasTy(ty, v)
    decreases ty, 1
  {
    match ty
    case IntTy(width) => WriteInt(v.n, width)
    case BoolTy => [if v.b then 1 else 0]
    case StructTy(fields) => WriteFields(tc, fields, v.values)
    case EnumTy(size, variants) =>
      WriteInt(variants[v.index].tag, size) + WriteFields(tc, variants[v.index].fields, v.fields)
  }

  function WriteField(tc: TextCodec, f: Field, v: Value): Bytes
    requires FieldHas(f, v)
    decreases f, 1
  {
    match f
    case Plain(ty) => Write(tc, ty, v)
    case Str(width) => WriteText(tc, v.text, width)
    case Array(_) => v.bytes
    case Collection(listType, size, elem) =>
      var width := HeaderWidth(listType, size);
      (match listType
       case Length => WriteInt(|v.items|, width) + WriteItems(tc, elem, [], v.items)
       case Break => WriteItems(tc, elem, WriteInt(1, width), v.items) + WriteInt(2, width)
       case HasMore => WriteItems(tc, elem, WriteInt(1, width), v.items) + WriteInt(0, width)
       case NoHeader => WriteItems(tc, elem, [], v.items))
    case Optional(flag, elem) =>
      var inner := if v.value.Some? then WriteField(tc, elem, v.value.value) else [];
      if flag.Flagged? then [if v.value.Some? then 1 else 0] + inner else inner
    case Tuple(items) => WriteFields(tc, items, v.values)
  }

  /** Every item behind its lead: the marker that says there is one more, or nothing. */
  function WriteItems(tc: TextCodec, elem: Field, lead: Bytes, vs: seq<Value>): Bytes
    requires forall i :: 0 <= i < |vs| ==> FieldHas(elem, vs[i])
    decreases elem, 2, |vs|
  {
    if vs == [] then [] else lead + WriteField(tc, elem, vs[0]) + WriteItems(tc, elem, lead, vs[1..])
  }

  function WriteFields(tc: TextCodec, fs: seq<Field>, vs: seq<Value>): Bytes
    requires FieldsHave(fs, vs)
    decreases fs, 0
  {
    if fs == [] then [] else WriteField(tc, fs[0], vs[0]) + WriteFields(tc, fs[1..], vs[1..])
  }

  // ---------------------------------------------------------------- Sizes

  function Size(tc: TextCodec, ty: Ty, v: Value): nat
    requires HasTy(ty, v)
    decreases ty, 1
  {
    match ty
    case IntTy(width) => width
    case BoolTy => 1
    case StructTy(fields) => SizeFields(tc, fields, v.values)
    case EnumTy(size, variants) => size + SizeFields(tc, variants[v.index].fields, v.fields)
  }

  function SizeField(tc: TextCodec, f: Field, v: Value): nat
    requires FieldHas(f, v)
    decreases f, 1
  {
    match f
    case Plain(ty) => Size(tc, ty, v)
    case Str(width) => 2 + |tc.utf8(v.text)| * (if width == 2 then 2 else 1)
    case Array(_) => |v.bytes|
    case Collection(listType, _, elem) =>
      1 + SizeItems(tc, elem, if listType.Break? || listType.HasMore? then 1 else 0, v.items)
    case Optional(flag, elem) =>
      (if flag.Flagged? then 1 else 0) + if v.value.Some? then SizeField(tc, elem, v.value.value) else 0
    case Tuple(items) => SizeFields(tc, items, v.values)
  }

  function SizeItems(tc: TextCodec, elem: Field, lead: nat, vs: seq<Value>): nat
    requires forall i :: 0 <= i < |vs| ==> FieldHas(elem, vs[i])
    decreases elem, 2, |vs|
  {
    if vs == [] then 0 else SizeField(tc, elem, vs[0]) + lead + SizeItems(tc, elem, lead, vs[1..])
  }

  function SizeFields(tc: TextCodec, fs: seq<Field>, vs: seq<Value>): nat
    requires FieldsHave(fs, vs)
    decreases fs, 0
  {
    if fs == [] then 0 else SizeField(tc, fs[0], vs[0]) + SizeFields(tc, fs[1..], vs[1..])
  }

  // ---------------------------------------------------------------- Reading

  datatype Read<+T> = Got(value: T, rest: Bytes) | Failed

  function ReadInt(bytes: Bytes, width: nat): Read<nat>
    decreases width
  {
    if width == 0 then Got(0, bytes)
    else if bytes == [] then Failed
    else
      var high := ReadInt(bytes[1..], width - 1);
      if high.Failed? then Failed else Got(bytes[0] + 0x100 * high.value, high.rest)
  }

  function ReadUnits(bytes: Bytes, count: nat): Read<seq<nat>>
    decreases count
  {
    if count == 0 then Got([], bytes)
    else
      var first := ReadInt(bytes, 2);
      if first.Failed? then Failed
      else
        var later := ReadUnits(first.rest, count - 1);
        if later.Failed? then Failed else Got([first.value] + later.value, later.rest)
  }

  function TakeBytes(bytes: Bytes, count: nat): Read<Bytes> {
    if |bytes| < count then Failed else Got(bytes[..count], bytes[count..])
  }

  function ReadText(tc: TextCodec, bytes: Bytes, width: nat): Read<Text> {
    var len := ReadInt(bytes, 2);
    if len.Failed? then Failed
    else if width == 2 then ReadWide(tc, len.rest, len.value)
    else ReadNarrow(tc, len.rest, len.value)
  }

  function ReadWide(tc: TextCodec, bytes: Bytes, count: nat): Read<Text> {
    var units := ReadUnits(bytes, count);
    if units.Failed? || tc.fromUtf16(units.value).None? then Failed
    else Got(tc.fromUtf16(units.value).value, units.rest)
  }

  function ReadNarrow(tc: TextCodec, bytes: Bytes, count: nat): Read<Text> {
    var raw := TakeBytes(bytes, count);
    if raw.Failed? || tc.fromUtf8(raw.value).None? then Failed
    else Got(tc.fromUtf8(raw.value).value, raw.rest)
  }

  /** The first variant with the tag, or the number of variants. */
  function VariantOf(variants: seq<Variant>, tag: nat): (r: nat)
    ensures r <= |variants| && (r < |variants| ==> variants[r].tag == tag)
    ensures forall i :: 0 <= i < r ==> variants[i].tag != tag
  {
    if variants == [] || variants[0].tag == tag then 0 else 1 + VariantOf(variants[1..], tag)
  }

  function ReadTy(tc: TextCodec, ty: Ty, bytes: Bytes): Read<Value>
    decreases ty, 1
  {
    match ty
    case IntTy(width) =>
      var n := ReadInt(bytes, width);
      if n.Failed? then Failed else Got(VInt(n.value), n.rest)
    case BoolTy => if bytes == [] then Failed else Got(VBool(bytes[0] == 1), bytes[1..])
    case StructTy(fields) =>
      var vs := ReadFields(tc, fields, [], bytes);
      if vs.Failed? then Failed else Got(VFields(vs.value), vs.rest)
    case EnumTy(size, variants) =>
      var tag := ReadInt(bytes, size);
      if tag.Failed? then Failed
      else
        var index := VariantOf(variants, tag.value);
        if index == |variants| then Failed
        else
          var vs := ReadFields(tc, variants[index].fields, [], tag.rest);
          if vs.Failed? then Failed else Got(VEnum(index, vs.value), vs.rest)
  }

  /** `before` holds the fields read so far, for conditions on them. */
  function ReadField(tc: TextCodec, f: Field, before: seq<Value>, bytes: Bytes): Read<Value>
    decreases f, 1
  {
    match f
    case Plain(ty) => ReadTy(tc, ty, bytes)
    case Str(width) =>
      var text := ReadText(tc, bytes, width);
      if text.Failed? then Failed else Got(VText(text.value), text.rest)
    case Array(len) =>
      var raw := TakeBytes(bytes, len);
      if raw.Failed? then Failed else Got(VBytes(raw.value), raw.rest)
    case Collection(_, _, elem) =>
      if bytes == [] then Failed
      else
        var items := ReadItems(tc, elem, bytes[0], bytes[1..]);
        if items.Failed? then Failed else Got(VList(items.value), items.rest)
    case Optional(flag, elem) =>
      if flag.When? then
        if flag.holds(before) then
          var inner := ReadField(tc, elem, [], bytes);
          if inner.Failed? then Failed else Got(VOption(Some(inner.value)), inner.rest)
        else Got(VOption(None), bytes)
      else if bytes == [] then Failed
      else if bytes[0] == 1 then
        var inner := ReadField(tc, elem, [], bytes[1..]);
        if inner.Failed? then Failed else Got(VOption(Some(inner.value)), inner.rest)
      else Got(VOption(None), bytes[1..])
    case Tuple(items) =>
      var vs := ReadFields(tc, items, [], bytes);
      if vs.Failed? then Failed else Got(VFields(vs.value), vs.rest)
  }

  function ReadItems(tc: TextCodec, elem: Field, count: nat, bytes: Bytes): (r: Read<seq<Value>>)
    ensures r.Got? ==> |r.value| == count
    decreases elem, 2, count
  {
    if count == 0 then Got([], bytes)
    else
      var first := ReadField(tc, elem, [], bytes);
      if first.Failed? then Failed
      else
        var later := ReadItems(tc, elem, count - 1, first.rest);
        if later.Failed? then Failed else Got([first.value] + later.value, later.rest)
  }

  function ReadFields(tc: TextCodec, fs: seq<Field>, before: seq<Value>, bytes: Bytes): Read<seq<Value>>
    decreases fs, 0
  {
    if fs == [] then Got([], bytes)
    else
      var first := ReadField(tc, fs[0], before, bytes);
      if first.Failed? then Failed
      else
        var later := ReadFields(tc, fs[1..], before + [first.value], first.rest);
        if later.Failed? then Failed else Got([first.value] + later.value, later.rest)
  }
}
