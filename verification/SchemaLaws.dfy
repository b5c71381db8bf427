/** What the derived writer, sizer and reader of module Schema promise each other. */
module SchemaLaws {
  import opened Words
  import opened Schema

  // ---------------------------------------------------------------- Sizes

  /** How far the size of a value is above the bytes written: one for every list without a header, two
      for every character unit that UTF-16 saves over UTF-8, and below them by what each length or
      marker has beyond one byte. */
  function Surplus(tc: TextCodec, ty: Ty, v: Value): int
    requires HasTy(ty, v)
    decreases ty, 1
  {
    match ty
    case StructTy(fields) => SurplusFields(tc, fields, v.values)
    case EnumTy(_, variants) => SurplusFields(tc, variants[v.index].fields, v.fields)
    case _ => 0
  }

  function SurplusField(tc: TextCodec, f: Field, v: Value): int
    requires FieldHas(f, v)
    decreases f, 1
  {
    match f
    case Plain(ty) => Surplus(tc, ty, v)
    case Str(width) => if width == 2 then 2 * (|tc.utf8(v.text)| - |tc.utf16(v.text)|) else 0
    case Array(_) => 0
    case Collection(listType, size, elem) =>
      var headers := if listType.Break? || listType.HasMore? then |v.items| + 1 else 1;
      (1 - HeaderWidth(listType, size)) * headers + SurplusItems(tc, elem, v.items)
    case Optional(_, elem) => if v.value.Some? then SurplusField(tc, elem, v.value.value) else 0
    case Tuple(items) => SurplusFields(tc, items, v.values)
  }

  function SurplusItems(tc: TextCodec, elem: Field, vs: seq<Value>): int
    requires forall i :: 0 <= i < |vs| ==> FieldHas(elem, vs[i])
    decreases elem, 2, |vs|
  {
    if vs == [] then 0 else SurplusField(tc, elem, vs[0]) + SurplusItems(tc, elem, vs[1..])
  }

  function SurplusFields(tc: TextCodec, fs: seq<Field>, vs: seq<Value>): int
    requires FieldsHave(fs, vs)
    decreases fs, 0
  {
    if fs == [] then 0 else SurplusField(tc, fs[0], vs[0]) + SurplusFields(tc, fs[1..], vs[1..])
  }

  lemma {:induction false} UnitsLength(units: seq<nat>)
    ensures |WriteUnits(units)| == 2 * |units|
  {
    if units != [] {
      UnitsLength(units[1..]);
    }
  }

  /** The reported size of every value, exactly: the bytes written plus the surplus. */
  lemma {:induction false} SizeIsExact(tc: TextCodec, ty: Ty, v: Value)
    requires HasTy(ty, v)
    ensures Size(tc, ty, v) == |Write(tc, ty, v)| + Surplus(tc, ty, v)
    decreases ty, 1
  {
    match ty {
      case StructTy(fields) => SizeIsExactFields(tc, fields, v.values);
      case EnumTy(_, variants) => SizeIsExactFields(tc, variants[v.index].fields, v.fields);
      case _ =>
    }
  }

  lemma {:induction false} SizeIsExactField(tc: TextCodec, f: Field, v: Value)
    requires FieldHas(f, v)
    ensures SizeField(tc, f, v) == |WriteField(tc, f, v)| + SurplusField(tc, f, v)
    decreases f, 1
  {
    match f {
      case Plain(ty) => SizeIsExact(tc, ty, v);
      case Str(width) => UnitsLength(tc.utf16(v.text));
      case Array(_) =>
      case Collection(listType, size, elem) =>
        var width := HeaderWidth(listType, size);
        var marked := listType.Break? || listType.HasMore?;
        SizeIsExactItems(tc, elem, if marked then 1 else 0, if marked then WriteInt(1, width) else [], v.items);
        assert (1 - width) * (|v.items| + 1) == (1 - width) * |v.items| + (1 - width);
      case Optional(_, elem) =>
        if v.value.Some? {
          SizeIsExactField(tc, elem, v.value.value);
        }
      case Tuple(items) => SizeIsExactFields(tc, items, v.values);
    }
  }

  lemma {:induction false} SizeIsExactItems(tc: TextCodec, elem: Field, count: nat, lead: Bytes, vs: seq<Value>)
    requires forall i :: 0 <= i < |vs| ==> FieldHas(elem, vs[i])
    ensures SizeItems(tc, elem, count, vs)
         == |WriteItems(tc, elem, lead, vs)| + SurplusItems(tc, elem, vs) + (count - |lead|) * |vs|
    decreases elem, 2, |vs|
  {
    if vs != [] {
      SizeIsExactField(tc, elem, vs[0]);
      SizeIsExactItems(tc, elem, count, lead, vs[1..]);
      assert (count - |lead|) * |vs| == (count - |lead|) * (|vs| - 1) + (count - |lead|);
    }
  }

  lemma {:induction false} SizeIsExactFields(tc: TextCodec, fs: seq<Field>, vs: seq<Value>)
    requires FieldsHave(fs, vs)
    ensures SizeFields(tc, fs, vs) == |WriteFields(tc, fs, vs)| + SurplusFields(tc, fs, vs)
    decreases fs, 0
  {
    if fs != [] {
      SizeIsExactField(tc, fs[0], vs[0]);
      SizeIsExactFields(tc, fs[1..], vs[1..]);
    }
  }

  // ---------------------------------------------------------------- What can be read back

  /** Descriptions that the reader understands: lists with a length of one byte, options that say they are
      there, tags of 1, 2, 4 or 8 bytes that tell the variants apart. */
  ghost predicate Readable(ty: Ty)
    decreases ty, 1
  {
    match ty
    case StructTy(fields) => ReadableFields(fields)
    case EnumTy(size, variants) =>
      && (size == 1 || size == 2 || size == 4 || size == 8)
      && (forall i, j :: 0 <= i < j < |variants| ==> variants[i].tag != variants[j].tag)
      && (forall i :: 0 <= i < |variants| ==> variants[i].tag < Pow256(size) && ReadableFields(variants[i].fields))
    case _ => true
  }

  ghost predicate ReadableField(f: Field)
    decreases f, 1
  {
    match f
    case Plain(ty) => Readable(ty)
    case Str(_) => true
    case Array(_) => true
    case Collection(listType, size, elem) => listType.Length? && size == 1 && Simple(elem) && ReadableField(elem)
    case Optional(flag, elem) => !flag.Unflagged? && Simple(elem) && ReadableField(elem)
    case Tuple(items) => ReadableFields(items)
  }

  ghost predicate ReadableFields(fs: seq<Field>)
    decreases fs, 0
  {
    fs == [] || (ReadableField(fs[0]) && ReadableFields(fs[1..]))
  }

  /** What a list or an option may hold. */
  predicate Simple(f: Field) {
    f.Plain? || (f.Str? && f.width != 2)
  }

  /** The length prefix of a text counts bytes of UTF-8, cut to 16 bits; the reader takes it as the
      number of bytes or of UTF-16 units. */
  predicate TextFits(tc: TextCodec, text: Text, width: nat) {
    |tc.utf8(text)| % 0x1_0000 == if width == 2 then |tc.utf16(text)| else |tc.utf8(text)|
  }

  /** Values within what the length prefixes can say, with conditional options there exactly when their
      condition holds. */
  predicate Fits(tc: TextCodec, ty: Ty, v: Value)
    requires HasTy(ty, v)
    decreases ty, 1
  {
    match ty
    case StructTy(fields) => FieldsFit(tc, fields, [], v.values)
    case EnumTy(_, variants) => FieldsFit(tc, variants[v.index].fields, [], v.fields)
    case _ => true
  }

  predicate FieldFits(tc: TextCodec, f: Field, before: seq<Value>, v: Value)
    requires FieldHas(f, v)
    decreases f, 1
  {
    match f
    case Plain(ty) => Fits(tc, ty, v)
    case Str(width) => TextFits(tc, v.text, width)
    case Array(_) => true
    case Collection(_, _, elem) => |v.items| < 0x100 && ItemsFit(tc, elem, v.items)
    case Optional(flag, elem) =>
      && (flag.When? ==> (v.value.Some? <==> flag.holds(before)))
      && (v.value.Some? ==> FieldFits(tc, elem, [], v.value.value))
    case Tuple(items) => FieldsFit(tc, items, [], v.values)
  }

  predicate ItemsFit(tc: TextCodec, elem: Field, vs: seq<Value>)
    requires forall i :: 0 <= i < |vs| ==> FieldHas(elem, vs[i])
    decreases elem, 2, |vs|
  {
    vs == [] || (FieldFits(tc, elem, [], vs[0]) && ItemsFit(tc, elem, vs[1..]))
  }

  predicate FieldsFit(tc: TextCodec, fs: seq<Field>, before: seq<Value>, vs: seq<Value>)
    requires FieldsHave(fs, vs)
    decreases fs, 0
  {
    fs == [] || (FieldFits(tc, fs[0], before, vs[0]) && FieldsFit(tc, fs[1..], before + [vs[0]], vs[1..]))
  }

  /** Reading back: the value and what followed it when it fits, and never the value when it does not. */
  ghost predicate Exact<T>(read: Read<T>, v: T, rest: Bytes, fits: bool) {
    if fits then read == Got(v, rest) else read.Failed? || read.value != v
  }

  // ---------------------------------------------------------------- Numbers and text

  lemma {:induction false} IntRoundTrip(n: nat, width: nat, rest: Bytes)
    requires n < Pow256(width)
    ensures ReadInt(WriteInt(n, width) + rest, width) == Got(n, rest)
    decreases width
  {
    if width == 0 {
      assert [] + rest == rest;
    } else {
      var bytes := WriteInt(n, width) + rest;
      assert bytes[1..] == WriteInt(n / 0x100, width - 1) + rest;
      IntRoundTrip(n / 0x100, width - 1, rest);
    }
  }

  lemma TwoBytes(n: nat, rest: Bytes)
    requires n < 0x1_0000
    ensures ReadInt(WriteInt(n, 2) + rest, 2) == Got(n, rest)
  {
    assert Pow256(2) == 0x100 * Pow256(1) == 0x1_0000;
    IntRoundTrip(n, 2, rest);
  }

  lemma UnitsSplit(units: seq<nat>, rest: Bytes)
    requires units != []
    ensures WriteUnits(units) + rest == WriteInt(units[0], 2) + (WriteUnits(units[1..]) + rest)
  {
  }

  lemma UnitsStep(bytes: Bytes, unit: nat, later: Bytes, units: seq<nat>, rest: Bytes)
    requires ReadInt(bytes, 2) == Got(unit, later) && ReadUnits(later, |units|) == Got(units, rest)
    ensures ReadUnits(bytes, 1 + |units|) == Got([unit] + units, rest)
  {
  }

  lemma {:induction false} UnitsRoundTrip(units: seq<nat>, rest: Bytes)
    requires forall i :: 0 <= i < |units| ==> units[i] < 0x1_0000
    ensures ReadUnits(WriteUnits(units) + rest, |units|) == Got(units, rest)
    decreases |units|
  {
    if units == [] {
      assert [] + rest == rest;
    } else {
      var later := WriteUnits(units[1..]) + rest;
      UnitsSplit(units, rest);
      TwoBytes(units[0], later);
      UnitsRoundTrip(units[1..], rest);
      UnitsStep(WriteUnits(units) + rest, units[0], later, units[1..], rest);
      assert units == [units[0]] + units[1..];
    }
  }

  lemma {:induction false} UnitsCount(bytes: Bytes, count: nat)
    ensures var r := ReadUnits(bytes, count); r.Got? ==> |r.value| == count
    decreases count
  {
    if count > 0 {
      var first := ReadInt(bytes, 2);
      if first.Got? {
        UnitsCount(first.rest, count - 1);
      }
    }
  }

  lemma TextExact(tc: TextCodec, text: Text, width: nat, rest: Bytes)
    requires TextLaws(tc)
    ensures Exact(ReadText(tc, WriteText(tc, text, width) + rest, width), text, rest, TextFits(tc, text, width))
  {
    var count := |tc.utf8(text)| % 0x1_0000;
    var body := if width == 2 then WriteUnits(tc.utf16(text)) else tc.utf8(text);
    assert WriteText(tc, text, width) + rest == WriteInt(count, 2) + (body + rest);
    TwoBytes(count, body + rest);
    if width == 2 {
      WideExact(tc, text, count, rest);
    } else {
      NarrowExact(tc, text, count, rest);
    }
  }

  /** A two-byte text whose UTF-8 form fits the length prefix is read back if and only if it is ASCII. */
  lemma WideTextNeedsAscii(tc: TextCodec, text: Text, rest: Bytes)
    requires TextLaws(tc) && TextWidths(tc) && |tc.utf8(text)| < 0x1_0000
    ensures Exact(ReadText(tc, WriteText(tc, text, 2) + rest, 2), text, rest, Ascii(text))
  {
    WidthsOf(tc, text);
    TextExact(tc, text, 2, rest);
  }

  /** A two-byte text is sized right if and only if it is ASCII. */
  lemma WideSizeNeedsAscii(tc: TextCodec, text: Text)
    requires TextWidths(tc)
    ensures SizeField(tc, Str(2), VText(text)) == |WriteField(tc, Str(2), VText(text))| <==> Ascii(text)
  {
    WidthsOf(tc, text);
    SizeIsExactField(tc, Str(2), VText(text));
  }

  lemma WidthsOf(tc: TextCodec, text: Text)
    requires TextWidths(tc)
    ensures |tc.utf8(text)| >= |tc.utf16(text)|
    ensures |tc.utf8(text)| == |tc.utf16(text)| <==> Ascii(text)
  {
    WidthsAgree(text);
  }

  predicate Ascii(text: Text) {
    forall i :: 0 <= i < |text| ==> text[i] as int < 0x80
  }

  lemma {:induction false} WidthsAgree(text: Text)
    ensures TextWidth(Utf8Width, text) >= TextWidth(Utf16Width, text)
    ensures TextWidth(Utf8Width, text) == TextWidth(Utf16Width, text) <==> Ascii(text)
  {
    if text != [] {
      WidthsAgree(text[1..]);
      assert Ascii(text) <==> text[0] as int < 0x80 && Ascii(text[1..]) by {
        assert forall i :: 0 < i < |text| ==> text[i] == text[1..][i - 1];
      }
    }
  }

  lemma WideExact(tc: TextCodec, text: Text, count: nat, rest: Bytes)
    requires TextLaws(tc)
    ensures Exact(ReadWide(tc, WriteUnits(tc.utf16(text)) + rest, count), text, rest, count == |tc.utf16(text)|)
  {
    UnitsCount(WriteUnits(tc.utf16(text)) + rest, count);
    if count == |tc.utf16(text)| {
      UnitsRoundTrip(tc.utf16(text), rest);
    }
  }

  lemma NarrowExact(tc: TextCodec, text: Text, count: nat, rest: Bytes)
    requires TextLaws(tc)
    ensures Exact(ReadNarrow(tc, tc.utf8(text) + rest, count), text, rest, count == |tc.utf8(text)|)
  {
    var bytes := tc.utf8(text) + rest;
    if count == |tc.utf8(text)| {
      assert bytes[..count] == tc.utf8(text) && bytes[count..] == rest;
    }
  }

  // ---------------------------------------------------------------- Everything

  /** The round trip of the derived code, exactly: over every readable description, a value written and
      followed by anything is read back, with what followed left over, if and only if it fits. */
  lemma {:induction false} RoundTripIsExact(tc: TextCodec, ty: Ty, v: Value, rest: Bytes)
    requires TextLaws(tc) && Readable(ty) && HasTy(ty, v)
    ensures Exact(ReadTy(tc, ty, Write(tc, ty, v) + rest), v, rest, Fits(tc, ty, v))
    decreases ty, 1
  {
    match ty {
      case IntTy(width) => IntRoundTrip(v.n, width, rest);
      case BoolTy =>
      case StructTy(fields) => FieldsAreExact(tc, fields, [], v.values, rest);
      case EnumTy(size, variants) => EnumIsExact(tc, size, variants, v, rest);
    }
  }

  lemma {:induction false} EnumIsExact(tc: TextCodec, size: nat, variants: seq<Variant>, v: Value, rest: Bytes)
    requires TextLaws(tc) && Readable(EnumTy(size, variants)) && HasTy(EnumTy(size, variants), v)
    ensures Exact(ReadTy(tc, EnumTy(size, variants), Write(tc, EnumTy(size, variants), v) + rest), v, rest,
                  Fits(tc, EnumTy(size, variants), v))
    decreases variants, 1
  {
    var variant := variants[v.index];
    var body := WriteFields(tc, variant.fields, v.fields);
    assert Write(tc, EnumTy(size, variants), v) + rest == WriteInt(variant.tag, size) + (body + rest);
    IntRoundTrip(variant.tag, size, body + rest);
    assert VariantOf(variants, variant.tag) == v.index;
    FieldsAreExact(tc, variant.fields, [], v.fields, rest);
  }

  lemma {:induction false} FieldIsExact(tc: TextCodec, f: Field, before: seq<Value>, v: Value, rest: Bytes)
    requires TextLaws(tc) && ReadableField(f) && FieldHas(f, v)
    ensures Exact(ReadField(tc, f, before, WriteField(tc, f, v) + rest), v, rest, FieldFits(tc, f, before, v))
    decreases f, 1
  {
    match f {
      case Plain(ty) => RoundTripIsExact(tc, ty, v, rest);
      case Str(width) =>
        TextExact(tc, v.text, width, rest);
      case Array(len) =>
        ArrayRoundTrip(v.bytes, rest);
      case Collection(_, _, elem) => ListIsExact(tc, elem, v, before, rest);
      case Optional(flag, elem) => OptionIsExact(tc, flag, elem, before, v, rest);
      case Tuple(items) => FieldsAreExact(tc, items, [], v.values, rest);
    }
  }

  lemma ArrayRoundTrip(bytes: Bytes, rest: Bytes)
    ensures TakeBytes(bytes + rest, |bytes|) == Got(bytes, rest)
  {
    assert (bytes + rest)[..|bytes|] == bytes && (bytes + rest)[|bytes|..] == rest;
  }

  lemma {:induction false} ListIsExact(tc: TextCodec, elem: Field, v: Value, before: seq<Value>, rest: Bytes)
    requires TextLaws(tc) && ReadableField(elem) && FieldHas(Collection(Length, 1, elem), v)
    ensures Exact(ReadField(tc, Collection(Length, 1, elem), before,
                            WriteField(tc, Collection(Length, 1, elem), v) + rest), v, rest,
                  FieldFits(tc, Collection(Length, 1, elem), before, v))
    decreases elem, 3
  {
    var f := Collection(Length, 1, elem);
    var bytes := WriteField(tc, f, v) + rest;
    assert bytes[0] == |v.items| % 0x100;
    assert bytes[1..] == WriteItems(tc, elem, [], v.items) + rest;
    if |v.items| < 0x100 {
      ItemsAreExact(tc, elem, v.items, rest);
    }
  }

  lemma {:induction false} OptionIsExact(tc: TextCodec, flag: Flag, elem: Field, before: seq<Value>, v: Value,
                                         rest: Bytes)
    requires TextLaws(tc) && ReadableField(Optional(flag, elem)) && FieldHas(Optional(flag, elem), v)
    ensures Exact(ReadField(tc, Optional(flag, elem), before, WriteField(tc, Optional(flag, elem), v) + rest), v, rest,
                  FieldFits(tc, Optional(flag, elem), before, v))
    decreases elem, 3
  {
    if flag.Flagged? {
      FlaggedIsExact(tc, elem, before, v, rest);
    } else {
      WhenIsExact(tc, flag, elem, before, v, rest);
    }
  }

  lemma {:induction false} FlaggedIsExact(tc: TextCodec, elem: Field, before: seq<Value>, v: Value, rest: Bytes)
    requires TextLaws(tc) && ReadableField(Optional(Flagged, elem)) && FieldHas(Optional(Flagged, elem), v)
    ensures var f := Optional(Flagged, elem);
            Exact(ReadField(tc, f, before, WriteField(tc, f, v) + rest), v, rest, FieldFits(tc, f, before, v))
    decreases elem, 2
  {
    var bytes := WriteField(tc, Optional(Flagged, elem), v) + rest;
    if v.value.Some? {
      assert bytes[1..] == WriteField(tc, elem, v.value.value) + rest;
      FieldIsExact(tc, elem, [], v.value.value, rest);
    } else {
      assert bytes[1..] == rest;
    }
  }

  lemma {:induction false} WhenIsExact(tc: TextCodec, flag: Flag, elem: Field, before: seq<Value>, v: Value,
                                       rest: Bytes)
    requires flag.When? && TextLaws(tc) && ReadableField(Optional(flag, elem)) && FieldHas(Optional(flag, elem), v)
    ensures var f := Optional(flag, elem);
            Exact(ReadField(tc, f, before, WriteField(tc, f, v) + rest), v, rest, FieldFits(tc, f, before, v))
    decreases elem, 2
  {
    if v.value.Some? {
      FieldIsExact(tc, elem, [], v.value.value, rest);
    } else {
      assert [] + rest == rest;
    }
  }

  lemma FirstItem(tc: TextCodec, elem: Field, vs: seq<Value>, rest: Bytes)
    requires (forall i :: 0 <= i < |vs| ==> FieldHas(elem, vs[i])) && vs != []
    ensures forall i :: 0 <= i < |vs[1..]| ==> FieldHas(elem, vs[1..][i])
    ensures WriteItems(tc, elem, [], vs) + rest == WriteField(tc, elem, vs[0]) + (WriteItems(tc, elem, [], vs[1..]) + rest)
  {
    Regroup(WriteField(tc, elem, vs[0]), WriteItems(tc, elem, [], vs[1..]), rest);
  }

  lemma Regroup(a: Bytes, b: Bytes, c: Bytes)
    ensures ([] + a + b) + c == a + (b + c)
  {
    assert [] + a == a;
  }

  lemma {:induction false} ItemsAreExact(tc: TextCodec, elem: Field, vs: seq<Value>, rest: Bytes)
    requires TextLaws(tc) && ReadableField(elem)
    requires forall i :: 0 <= i < |vs| ==> FieldHas(elem, vs[i])
    ensures Exact(ReadItems(tc, elem, |vs|, WriteItems(tc, elem, [], vs) + rest), vs, rest,
                  ItemsFit(tc, elem, vs))
    decreases elem, 2, |vs|
  {
    if vs == [] {
      assert [] + rest == rest;
    } else {
      FirstItem(tc, elem, vs, rest);
      var later := WriteItems(tc, elem, [], vs[1..]) + rest;
      FieldIsExact(tc, elem, [], vs[0], later);
      ItemsAreExact(tc, elem, vs[1..], rest);
      assert vs == [vs[0]] + vs[1..];
    }
  }

  lemma {:induction false} FieldsAreExact(tc: TextCodec, fs: seq<Field>, before: seq<Value>, vs: seq<Value>,
                                          rest: Bytes)
    requires TextLaws(tc) && ReadableFields(fs) && FieldsHave(fs, vs)
    ensures Exact(ReadFields(tc, fs, before, WriteFields(tc, fs, vs) + rest), vs, rest, FieldsFit(tc, fs, before, vs))
    decreases fs, 0
  {
    if fs == [] {
      assert [] + rest == rest;
    } else {
      var later := WriteFields(tc, fs[1..], vs[1..]) + rest;
      assert WriteFields(tc, fs, vs) + rest == WriteField(tc, fs[0], vs[0]) + later;
      FieldIsExact(tc, fs[0], before, vs[0], later);
      FieldsAreExact(tc, fs[1..], before + [vs[0]], vs[1..], rest);
      assert vs == [vs[0]] + vs[1..];
    }
  }

  // ---------------------------------------------------------------- What the derived reader does not read

  /** A reader of marked lists: a one before each item, another marker behind the last. `limit` bounds the number
      of markers. */
  function ReadMarked(tc: TextCodec, elem: Field, end: nat, width: nat, bytes: Bytes, limit: nat): Read<seq<Value>>
    decreases limit
  {
    if limit == 0 then Failed
    else
      var marker := ReadInt(bytes, width);
      if marker.Failed? then Failed
      else if marker.value == end then Got([], marker.rest)
      else if marker.value != 1 then Failed
      else
        var first := ReadField(tc, elem, [], marker.rest);
        if first.Failed? then Failed
        else
          var later := ReadMarked(tc, elem, end, width, first.rest, limit - 1);
          if later.Failed? then Failed else Got([first.value] + later.value, later.rest)
  }

  /** Lists that end with a marker - "break": a two, "has-more": a zero - are read back by it, for markers of every
      width. */
  lemma MarkedRoundTrip(tc: TextCodec, listType: ListType, size: nat, elem: Field, v: Value, rest: Bytes, limit: nat)
    requires TextLaws(tc) && ReadableField(elem) && size > 0 && (listType.Break? || listType.HasMore?)
    requires FieldHas(Collection(listType, size, elem), v) && ItemsFit(tc, elem, v.items) && limit > |v.items|
    ensures ReadMarked(tc, elem, if listType.Break? then 2 else 0, size,
                       WriteField(tc, Collection(listType, size, elem), v) + rest, limit) == Got(v.items, rest)
  {
    var end := if listType.Break? then 2 else 0;
    var items := WriteItems(tc, elem, WriteInt(1, size), v.items);
    assert WriteField(tc, Collection(listType, size, elem), v) + rest == items + (WriteInt(end, size) + rest);
    MarkedItems(tc, elem, end, size, v.items, rest, limit);
  }

  lemma {:induction false} MarkedItems(tc: TextCodec, elem: Field, end: nat, width: nat, vs: seq<Value>, rest: Bytes,
                                       limit: nat)
    requires TextLaws(tc) && ReadableField(elem) && width > 0 && (end == 2 || end == 0)
    requires (forall i :: 0 <= i < |vs| ==> FieldHas(elem, vs[i])) && ItemsFit(tc, elem, vs) && limit > |vs|
    ensures ReadMarked(tc, elem, end, width,
                       WriteItems(tc, elem, WriteInt(1, width), vs) + (WriteInt(end, width) + rest), limit)
         == Got(vs, rest)
    decreases |vs|
  {
    if vs == [] {
      MarkerIsRead(end, width, rest);
      assert [] + (WriteInt(end, width) + rest) == WriteInt(end, width) + rest;
    } else {
      var later := WriteItems(tc, elem, WriteInt(1, width), vs[1..]);
      var tail := later + (WriteInt(end, width) + rest);
      MarkedItems(tc, elem, end, width, vs[1..], rest, limit - 1);
      OneMarkedItem(tc, elem, end, width, vs[0], tail, vs[1..], rest, limit);
      MarkedFirst(WriteInt(1, width), WriteField(tc, elem, vs[0]), later, WriteInt(end, width) + rest);
      assert [vs[0]] + vs[1..] == vs;
    }
  }

  lemma OneMarkedItem(tc: TextCodec, elem: Field, end: nat, width: nat, v: Value, tail: Bytes, later: seq<Value>,
                      rest: Bytes, limit: nat)
    requires TextLaws(tc) && ReadableField(elem) && width > 0 && limit > 0 && end != 1
    requires FieldHas(elem, v) && FieldFits(tc, elem, [], v)
    requires ReadMarked(tc, elem, end, width, tail, limit - 1) == Got(later, rest)
    ensures ReadMarked(tc, elem, end, width, WriteInt(1, width) + (WriteField(tc, elem, v) + tail), limit)
         == Got([v] + later, rest)
  {
    var behind := WriteField(tc, elem, v) + tail;
    FieldIsExact(tc, elem, [], v, tail);
    MarkerIsRead(1, width, behind);
    MarkedStep(tc, elem, end, width, WriteInt(1, width) + behind, behind, tail, limit);
  }

  lemma MarkerIsRead(marker: nat, width: nat, rest: Bytes)
    requires marker <= 2 && width > 0
    ensures ReadInt(WriteInt(marker, width) + rest, width) == Got(marker, rest)
  {
    SmallFits(width);
    IntRoundTrip(marker, width, rest);
  }

  /** One marker and the item behind it. */
  lemma MarkedStep(tc: TextCodec, elem: Field, end: nat, width: nat, bytes: Bytes, behind: Bytes, tail: Bytes, limit: nat)
    requires limit > 0 && end != 1 && ReadInt(bytes, width) == Got(1, behind)
    requires ReadField(tc, elem, [], behind).Got? && ReadField(tc, elem, [], behind).rest == tail
    ensures var later := ReadMarked(tc, elem, end, width, tail, limit - 1);
      ReadMarked(tc, elem, end, width, bytes, limit) ==
        if later.Failed? then Failed else Got([ReadField(tc, elem, [], behind).value] + later.value, later.rest)
  {
  }

  lemma MarkedFirst(marker: Bytes, first: Bytes, later: Bytes, rest: Bytes)
    ensures (marker + first + later) + rest == marker + (first + (later + rest))
  {
  }

  lemma SmallFits(width: nat)
    requires width > 0
    ensures 0x100 <= Pow256(width)
  {
    if width > 1 {
      SmallFits(width - 1);
    }
  }

  /** A list with a length starts with the number of its items, in 1, 2, 4 or 8 bytes for the sizes 1, 2, 3 and 4. */
  lemma LengthIsWritten(tc: TextCodec, size: nat, elem: Field, v: Value, rest: Bytes)
    requires FieldHas(Collection(Length, size, elem), v) && 1 <= size <= 4
    ensures var width := if size == 1 then 1 else if size == 2 then 2 else if size == 3 then 4 else 8;
      |v.items| < Pow256(width) ==>
        ReadInt(WriteField(tc, Collection(Length, size, elem), v) + rest, width)
          == Got(|v.items|, WriteItems(tc, elem, [], v.items) + rest)
  {
    var width := HeaderWidth(Length, size);
    var items := WriteItems(tc, elem, [], v.items);
    assert (WriteInt(|v.items|, width) + items) + rest == WriteInt(|v.items|, width) + (items + rest);
    if |v.items| < Pow256(width) {
      IntRoundTrip(|v.items|, width, items + rest);
    }
  }

  /** Flags, and the flag of an option, are a one or a zero; an option without a flag is what it holds. */
  lemma FlagsAreWritten(tc: TextCodec, b: bool, flag: Flag, elem: Field, v: Value)
    requires FieldHas(Optional(flag, elem), v)
    ensures Write(tc, BoolTy, VBool(b)) == if b then [1] else [0]
    ensures v.value.None? ==> WriteField(tc, Optional(flag, elem), v) == if flag.Flagged? then [0] else []
    ensures v.value.Some? ==>
      WriteField(tc, Optional(flag, elem), v) == (if flag.Flagged? then [1] else []) + WriteField(tc, elem, v.value.value)
  {
  }

  // ---------------------------------------------------------------- The order of what is written

  /** The number that bytes stand for, the first one counting least. */
  function LeValue(bytes: Bytes): nat {
    if bytes == [] then 0 else bytes[0] + 0x100 * LeValue(bytes[1..])
  }

  /** Numbers are written with their low byte first. */
  lemma {:induction false} LowByteFirst(n: nat, width: nat)
    requires n < Pow256(width)
    ensures LeValue(WriteInt(n, width)) == n
    decreases width
  {
    if width > 0 {
      LowByteFirst(n / 0x100, width - 1);
      assert WriteInt(n, width)[1..] == WriteInt(n / 0x100, width - 1);
    }
  }

  /** Fields are written one after the other. */
  lemma {:induction false} FieldsInOrder(tc: TextCodec, fs: seq<Field>, gs: seq<Field>, vs: seq<Value>, ws: seq<Value>)
    requires FieldsHave(fs, vs) && FieldsHave(gs, ws)
    ensures FieldsHave(fs + gs, vs + ws)
    ensures WriteFields(tc, fs + gs, vs + ws) == WriteFields(tc, fs, vs) + WriteFields(tc, gs, ws)
    decreases |fs|
  {
    if fs == [] {
      assert fs + gs == gs && vs + ws == ws;
    } else {
      assert (fs + gs)[1..] == fs[1..] + gs && (vs + ws)[1..] == vs[1..] + ws;
      FieldsInOrder(tc, fs[1..], gs, vs[1..], ws);
      Joined(WriteField(tc, fs[0], vs[0]), WriteFields(tc, fs[1..], vs[1..]), WriteFields(tc, gs, ws));
    }
  }

  lemma Joined(a: Bytes, b: Bytes, c: Bytes)
    ensures a + (b + c) == (a + b) + c
  {
  }

  /** Items are written one after the other, each behind its marker. */
  lemma {:induction false} ItemsInOrder(tc: TextCodec, elem: Field, lead: Bytes, vs: seq<Value>, ws: seq<Value>)
    requires forall i :: 0 <= i < |vs + ws| ==> FieldHas(elem, (vs + ws)[i])
    ensures (forall i :: 0 <= i < |vs| ==> FieldHas(elem, vs[i])) && (forall i :: 0 <= i < |ws| ==> FieldHas(elem, ws[i]))
    ensures WriteItems(tc, elem, lead, vs + ws) == WriteItems(tc, elem, lead, vs) + WriteItems(tc, elem, lead, ws)
    decreases |vs|
  {
    PartsHave(elem, vs, ws);
    if vs == [] {
      assert vs + ws == ws;
    } else {
      assert (vs + ws)[1..] == vs[1..] + ws;
      ItemsInOrder(tc, elem, lead, vs[1..], ws);
      Joined(lead + WriteField(tc, elem, vs[0]), WriteItems(tc, elem, lead, vs[1..]), WriteItems(tc, elem, lead, ws));
    }
  }

  lemma PartsHave(elem: Field, vs: seq<Value>, ws: seq<Value>)
    requires forall i :: 0 <= i < |vs + ws| ==> FieldHas(elem, (vs + ws)[i])
    ensures (forall i :: 0 <= i < |vs| ==> FieldHas(elem, vs[i])) && (forall i :: 0 <= i < |ws| ==> FieldHas(elem, ws[i]))
    ensures vs != [] ==> forall i :: 0 <= i < |vs[1..] + ws| ==> FieldHas(elem, (vs[1..] + ws)[i])
  {
    assert forall i :: 0 <= i < |vs| ==> vs[i] == (vs + ws)[i];
    assert forall i :: 0 <= i < |ws| ==> ws[i] == (vs + ws)[|vs| + i];
    if vs != [] {
      assert forall i :: 0 <= i < |vs[1..] + ws| ==> (vs[1..] + ws)[i] == (vs + ws)[i + 1];
    }
  }

  /** Prefixes: an enum starts with the tag of its variant, a text with the length of its UTF-8 form cut to 16 bits,
      in two bytes whatever its own width. */
  lemma PrefixesAreWritten(tc: TextCodec, size: nat, variants: seq<Variant>, v: Value, text: Text, width: nat)
    requires HasTy(EnumTy(size, variants), v)
    ensures Write(tc, EnumTy(size, variants), v)
         == WriteInt(variants[v.index].tag, size) + WriteFields(tc, variants[v.index].fields, v.fields)
    ensures WriteText(tc, text, 1) == WriteInt(|tc.utf8(text)| % 0x1_0000, 2) + tc.utf8(text)
    ensures WriteText(tc, text, 2) == WriteInt(|tc.utf8(text)| % 0x1_0000, 2) + WriteUnits(tc.utf16(text))
  {
  }
}
