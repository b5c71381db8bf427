/** The code the derive macros emit: a writer that appends to a buffer and a reader that advances
    through one, with loops over lists. Both are proved against the interpreters of module Schema. */
module SchemaCode {
  import opened Wrappers
  import opened Words
  import opened Schema

  class BytesMut {
    var bytes: Bytes

    constructor (bytes: Bytes)
      ensures this.bytes == bytes
    {
      this.bytes := bytes;
    }

    method Put(more: Bytes)
      modifies this
      ensures bytes == old(bytes) + more
    {
      bytes := bytes + more;
    }
  }

  // ---------------------------------------------------------------- Writer

  method WriteTo(tc: TextCodec, ty: Ty, v: Value, writer: BytesMut)
    requires HasTy(ty, v)
    modifies writer
    ensures writer.bytes == old(writer.bytes) + Write(tc, ty, v)
    decreases ty, 1
  {
    match ty {
      case IntTy(width) => writer.Put(WriteInt(v.n, width));
      case BoolTy => writer.Put([if v.b then 1 else 0]);
      case StructTy(fields) => WriteFieldsTo(tc, fields, v.values, writer);
      case EnumTy(size, variants) =>
        writer.Put(WriteInt(variants[v.index].tag, size));
        WriteFieldsTo(tc, variants[v.index].fields, v.fields, writer);
    }
  }

  method WriteFieldTo(tc: TextCodec, f: Field, v: Value, writer: BytesMut)
    requires FieldHas(f, v)
    modifies writer
    ensures writer.bytes == old(writer.bytes) + WriteField(tc, f, v)
    decreases f, 1
  {
    match f {
      case Plain(ty) => WriteTo(tc, ty, v, writer);
      case Str(width) => writer.Put(WriteText(tc, v.text, width));
      case Array(_) => writer.Put(v.bytes);
      case Collection(listType, size, elem) => WriteListTo(tc, listType, size, elem, v, writer);
      case Optional(flag, elem) =>
        if flag.Flagged? {
          writer.Put([if v.value.Some? then 1 else 0]);
        }
        if v.value.Some? {
          WriteFieldTo(tc, elem, v.value.value, writer);
        }
      case Tuple(items) => WriteFieldsTo(tc, items, v.values, writer);
    }
  }

  method WriteListTo(tc: TextCodec, listType: ListType, size: nat, elem: Field, v: Value, writer: BytesMut)
    requires FieldHas(Collection(listType, size, elem), v)
    modifies writer
    ensures writer.bytes == old(writer.bytes) + WriteField(tc, Collection(listType, size, elem), v)
    decreases elem, 3
  {
    ghost var start := writer.bytes;
    var width := HeaderWidth(listType, size);
    var more := WriteInt(1, width);
    match listType {
      case Length =>
        writer.Put(WriteInt(|v.items|, width));
        WriteItemsTo(tc, elem, [], v.items, writer);
        Associate(start, WriteInt(|v.items|, width), WriteItems(tc, elem, [], v.items));
      case Break =>
        WriteItemsTo(tc, elem, more, v.items, writer);
        writer.Put(WriteInt(2, width));
        Associate(start, WriteItems(tc, elem, more, v.items), WriteInt(2, width));
      case HasMore =>
        WriteItemsTo(tc, elem, more, v.items, writer);
        writer.Put(WriteInt(0, width));
        Associate(start, WriteItems(tc, elem, more, v.items), WriteInt(0, width));
      case NoHeader =>
        WriteItemsTo(tc, elem, [], v.items, writer);
    }
  }

  lemma Associate(a: Bytes, b: Bytes, c: Bytes)
    ensures (a + b) + c == a + (b + c)
  {
  }

  method WriteItemsTo(tc: TextCodec, elem: Field, lead: Bytes, vs: seq<Value>, writer: BytesMut)
    requires forall i :: 0 <= i < |vs| ==> FieldHas(elem, vs[i])
    modifies writer
    ensures writer.bytes == old(writer.bytes) + WriteItems(tc, elem, lead, vs)
    decreases elem, 2
  {
    ghost var start := writer.bytes;
    for i := 0 to |vs|
      invariant writer.bytes + WriteItems(tc, elem, lead, vs[i..]) == start + WriteItems(tc, elem, lead, vs)
    {
      ItemsSplit(tc, elem, lead, vs, i, writer.bytes);
      writer.Put(lead);
      WriteFieldTo(tc, elem, vs[i], writer);
    }
    assert vs[|vs|..] == [];
  }

  lemma ItemsSplit(tc: TextCodec, elem: Field, lead: Bytes, vs: seq<Value>, i: nat, before: Bytes)
    requires (forall j :: 0 <= j < |vs| ==> FieldHas(elem, vs[j])) && i < |vs|
    ensures before + WriteItems(tc, elem, lead, vs[i..])
         == before + lead + WriteField(tc, elem, vs[i]) + WriteItems(tc, elem, lead, vs[i + 1..])
  {
    assert vs[i..][1..] == vs[i + 1..];
    AssociateFour(before, lead, WriteField(tc, elem, vs[i]), WriteItems(tc, elem, lead, vs[i + 1..]));
  }

  lemma AssociateFour(a: Bytes, b: Bytes, c: Bytes, d: Bytes)
    ensures a + (b + c + d) == a + b + c + d
  {
  }

  method WriteFieldsTo(tc: TextCodec, fs: seq<Field>, vs: seq<Value>, writer: BytesMut)
    requires FieldsHave(fs, vs)
    modifies writer
    ensures writer.bytes == old(writer.bytes) + WriteFields(tc, fs, vs)
    decreases fs, 0
  {
    if fs != [] {
      WriteFieldTo(tc, fs[0], vs[0], writer);
      WriteFieldsTo(tc, fs[1..], vs[1..], writer);
    }
  }

  // ---------------------------------------------------------------- Reader

  /** A reader that got a value stands behind it; one that failed may stand anywhere. */
  ghost predicate Advanced<T>(read: Read<T>, got: Option<T>, left: Bytes) {
    match read
    case Got(value, rest) => got == Some(value) && left == rest
    case Failed => got == None
  }

  method ReadFrom(tc: TextCodec, ty: Ty, reader: BytesMut) returns (r: Option<Value>)
    modifies reader
    ensures Advanced(ReadTy(tc, ty, old(reader.bytes)), r, reader.bytes)
    decreases ty, 1
  {
    match ty {
      case IntTy(width) =>
        var n := ReadInt(reader.bytes, width);
        if n.Failed? { return None; }
        reader.bytes := n.rest;
        return Some(VInt(n.value));
      case BoolTy =>
        if reader.bytes == [] { return None; }
        var b := reader.bytes[0] == 1;
        reader.bytes := reader.bytes[1..];
        return Some(VBool(b));
      case StructTy(fields) =>
        var vs := ReadFieldsFrom(tc, fields, [], reader);
        if vs.None? { return None; }
        return Some(VFields(vs.value));
      case EnumTy(size, variants) =>
        var tag := ReadInt(reader.bytes, size);
        if tag.Failed? { return None; }
        reader.bytes := tag.rest;
        var index := VariantOf(variants, tag.value);
        if index == |variants| { return None; }
        var vs := ReadFieldsFrom(tc, variants[index].fields, [], reader);
        if vs.None? { return None; }
        return Some(VEnum(index, vs.value));
    }
  }

  method ReadFieldFrom(tc: TextCodec, f: Field, before: seq<Value>, reader: BytesMut) returns (r: Option<Value>)
    modifies reader
    ensures Advanced(ReadField(tc, f, before, old(reader.bytes)), r, reader.bytes)
    decreases f, 1
  {
    match f {
      case Plain(ty) => r := ReadFrom(tc, ty, reader);
      case Str(width) =>
        var text := ReadText(tc, reader.bytes, width);
        if text.Failed? { return None; }
        reader.bytes := text.rest;
        return Some(VText(text.value));
      case Array(len) =>
        var raw := TakeBytes(reader.bytes, len);
        if raw.Failed? { return None; }
        reader.bytes := raw.rest;
        return Some(VBytes(raw.value));
      case Collection(_, _, elem) => r := ReadListFrom(tc, elem, reader);
      case Optional(flag, elem) =>
        var there := false;
        if flag.When? {
          there := flag.holds(before);
        } else {
          if reader.bytes == [] { return None; }
          there := reader.bytes[0] == 1;
          reader.bytes := reader.bytes[1..];
        }
        if !there { return Some(VOption(None)); }
        var inner := ReadFieldFrom(tc, elem, [], reader);
        if inner.None? { return None; }
        return Some(VOption(Some(inner.value)));
      case Tuple(items) =>
        var vs := ReadFieldsFrom(tc, items, [], reader);
        if vs.None? { return None; }
        return Some(VFields(vs.value));
    }
  }

  method ReadListFrom(tc: TextCodec, elem: Field, reader: BytesMut) returns (r: Option<Value>)
    modifies reader
    ensures Advanced(ReadField(tc, Collection(Length, 1, elem), [], old(reader.bytes)), r, reader.bytes)
    decreases elem, 3
  {
    if reader.bytes == [] { return None; }
    var size := reader.bytes[0];
    reader.bytes := reader.bytes[1..];
    var items := ReadItemsFrom(tc, elem, size, reader);
    if items.None? { return None; }
    return Some(VList(items.value));
  }

  method ReadItemsFrom(tc: TextCodec, elem: Field, size: nat, reader: BytesMut) returns (r: Option<seq<Value>>)
    modifies reader
    ensures Advanced(ReadItems(tc, elem, size, old(reader.bytes)), r, reader.bytes)
    decreases elem, 2
  {
    var items: seq<Value> := [];
    ghost var whole := ReadItems(tc, elem, size, reader.bytes);
    assert whole.Got? ==> items + whole.value == whole.value;
    for i := 0 to size
      invariant Continues(whole, items, ReadItems(tc, elem, size - i, reader.bytes))
    {
      ghost var start := reader.bytes;
      var item := ReadFieldFrom(tc, elem, [], reader);
      if item.None? { return None; }
      ContinuesStep(tc, elem, whole, items, size - i, start);
      items := items + [item.value];
    }
    assert items + [] == items;
    return Some(items);
  }

  lemma ContinuesStep(tc: TextCodec, elem: Field, whole: Read<seq<Value>>, items: seq<Value>, count: nat, bytes: Bytes)
    requires count > 0 && Continues(whole, items, ReadItems(tc, elem, count, bytes))
    requires ReadField(tc, elem, [], bytes).Got?
    ensures var first := ReadField(tc, elem, [], bytes);
            Continues(whole, items + [first.value], ReadItems(tc, elem, count - 1, first.rest))
  {
    var first := ReadField(tc, elem, [], bytes);
    var later := ReadItems(tc, elem, count - 1, first.rest);
    if later.Got? {
      assert items + ([first.value] + later.value) == (items + [first.value]) + later.value;
    }
  }

  /** The whole reading is what was read so far followed by the reading of the rest. */
  ghost predicate Continues(whole: Read<seq<Value>>, items: seq<Value>, later: Read<seq<Value>>) {
    whole == if later.Failed? then Failed else Got(items + later.value, later.rest)
  }

  method ReadFieldsFrom(tc: TextCodec, fs: seq<Field>, before: seq<Value>, reader: BytesMut)
    returns (r: Option<seq<Value>>)
    modifies reader
    ensures Advanced(ReadFields(tc, fs, before, old(reader.bytes)), r, reader.bytes)
    decreases fs, 0
  {
    if fs == [] {
      return Some([]);
    }
    var first := ReadFieldFrom(tc, fs[0], before, reader);
    if first.None? { return None; }
    var later := ReadFieldsFrom(tc, fs[1..], before + [first.value], reader);
    if later.None? { return None; }
    return Some([first.value] + later.value);
  }
}
