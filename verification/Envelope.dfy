/**
 The envelope wire format (`envelope.rs`): one header line, then for every item
 a header line carrying the payload's byte length, the payload, and a newline.
 */
module Envelope {
  import opened Text
  import opened Bytes
  import opened Json
  import Utf8

  /** The largest `usize` on a 64-bit target. */
  const USIZE_MAX: nat := 0xFFFF_FFFF_FFFF_FFFF

  const NL: Byte := 10

  datatype EnvelopeItem = EnvelopeItem(
    itemType: string,
    attachmentType: Option<string>,
    filename: Option<string>,
    contentType: Option<string>,
    payload: seq<Byte>)

  datatype Envelope = Envelope(eventId: Option<string>, items: seq<EnvelopeItem>)

  // ----- printing

  /** `skip_serializing_if = "Option::is_none"`. */
  function OptField(key: string, v: Option<string>): seq<Field> {
    if v.None? then [] else [Field(key, Str(v.value))]
  }

  function ItemFields(item: EnvelopeItem): seq<Field> {
    [Field("type", Str(item.itemType)), Field("length", Num(|item.payload|))]
    + OptField("attachment_type", item.attachmentType)
    + OptField("filename", item.filename)
    + OptField("content_type", item.contentType)
  }

  function HeaderFields(eventId: Option<string>): seq<Field> {
    OptField("event_id", eventId)
  }

  function Line(fs: seq<Field>): seq<Byte> {
    Utf8.Encode(PrintObject(fs)) + [NL]
  }

  function ItemBytes(item: EnvelopeItem): seq<Byte> {
    Line(ItemFields(item)) + (item.payload + [NL])
  }

  function ItemsBytes(items: seq<EnvelopeItem>): seq<Byte> {
    if items == [] then [] else ItemBytes(items[0]) + ItemsBytes(items[1..])
  }

  function ToBytes(e: Envelope): seq<Byte> {
    Line(HeaderFields(e.eventId)) + ItemsBytes(e.items)
  }

  /** One more item at the end of the envelope is its bytes at the end of the wire. */
  lemma {:induction false} ItemsBytesPush(items: seq<EnvelopeItem>, item: EnvelopeItem)
    ensures ItemsBytes(items + [item]) == ItemsBytes(items) + ItemBytes(item)
  {
    hide ItemBytes;
    if items == [] {
      assert items + [item] == [item] && [item][1..] == [];
    } else {
      ItemsBytesPush(items[1..], item);
      assert (items + [item])[1..] == items[1..] + [item];
      Utf8.Moved(ItemBytes(items[0]), ItemsBytes(items[1..]), ItemBytes(item));
    }
  }

  method ToBytesRun(e: Envelope) returns (out: seq<Byte>)
    ensures out == ToBytes(e)
  {
    hide Line, ItemFields, HeaderFields;
    out := Line(HeaderFields(e.eventId));
    var i := 0;
    while i < |e.items|
      invariant 0 <= i <= |e.items|
      invariant out == Line(HeaderFields(e.eventId)) + ItemsBytes(e.items[..i])
    {
      var item := e.items[i];
      ItemsBytesPush(e.items[..i], item);
      assert e.items[..i + 1] == e.items[..i] + [item];
      ghost var head, done := Line(HeaderFields(e.eventId)), ItemsBytes(e.items[..i]);
      var line := Line(ItemFields(item));
      Pushed(head, done, line, item.payload);
      out := out + line;
      out := out + item.payload;
      out := out + [NL];
      i := i + 1;
    }
    assert e.items[..i] == e.items;
  }

  lemma {:induction false} Pushed(head: seq<Byte>, done: seq<Byte>, line: seq<Byte>, payload: seq<Byte>)
    ensures head + done + line + payload + [NL] == head + (done + (line + (payload + [NL])))
  {
  }

  // ----- parsing

  datatype Outcome<T> =
    | Ok(value: T)
    | Malformed
    | BadHeader
    /** The sum of a payload's start and its announced length does not fit `usize`. */
    | Overflow

  /** What a known header key is given in a header object. */
  datatype Given = Absent | Once(value: Value) | Repeated

  function Lookup(fs: seq<Field>, key: string): Given {
    if fs == [] then Absent
    else
      var rest := Lookup(fs[1..], key);
      if fs[0].key != key then rest
      else if rest.Absent? then Once(fs[0].value)
      else Repeated
  }

  /** An optional string field: missing and `null` are `None`; anything else but one string is an error. */
  function OptionalString(fs: seq<Field>, key: string): Option<Option<string>> {
    match Lookup(fs, key)
    case Absent => Some(None)
    case Once(Null) => Some(None)
    case Once(Str(s)) => Some(Some(s))
    case _ => None
  }

  datatype ItemHeader = ItemHeader(
    itemType: string,
    length: nat,
    attachmentType: Option<string>,
    filename: Option<string>,
    contentType: Option<string>)

  /** `type` and `length` are required; unknown keys are ignored. */
  function ItemHeaderOf(fs: seq<Field>): Option<ItemHeader> {
    var kind, length := Lookup(fs, "type"), Lookup(fs, "length");
    var attachment, file, content :=
      OptionalString(fs, "attachment_type"), OptionalString(fs, "filename"), OptionalString(fs, "content_type");
    if kind.Once? && kind.value.Str? && length.Once? && length.value.Num?
       && attachment.Some? && file.Some? && content.Some?
    then Some(ItemHeader(kind.value.s, length.value.n, attachment.value, file.value, content.value))
    else None
  }

  function ParseLine(line: seq<Byte>): Option<seq<Field>> {
    match Utf8.Decode(line)
    case None => None
    case Some(text) => ParseObject(text)
  }

  function ReadItemHeader(line: seq<Byte>): Option<ItemHeader> {
    match ParseLine(line)
    case None => None
    case Some(fs) => ItemHeaderOf(fs)
  }

  function ReadEnvelopeHeader(line: seq<Byte>): Option<Option<string>> {
    match ParseLine(line)
    case None => None
    case Some(fs) => OptionalString(fs, "event_id")
  }

  /** The first newline at or after `from`. */
  function NextNewline(bs: seq<Byte>, from: nat): (r: Option<nat>)
    requires from <= |bs|
    ensures r.Some? ==> from <= r.value < |bs| && bs[r.value] == NL
    ensures r.Some? ==> forall i :: from <= i < r.value ==> bs[i] != NL
    ensures r.None? ==> forall i :: from <= i < |bs| ==> bs[i] != NL
    decreases |bs| - from
  {
    if from == |bs| then None else if bs[from] == NL then Some(from) else NextNewline(bs, from + 1)
  }

  /** One item at `pos`, and the position of the next. */
  function ItemAt(bs: seq<Byte>, pos: nat): (r: Outcome<(EnvelopeItem, nat)>)
    requires pos < |bs|
    ensures r.Ok? ==> pos < r.value.1 <= |bs|
  {
    match NextNewline(bs, pos)
    case None => Malformed
    case Some(end) =>
      match ReadItemHeader(bs[pos..end])
      case None => BadHeader
      case Some(h) =>
        var start := end + 1;
        if start + h.length > USIZE_MAX then Overflow
        else if start + h.length > |bs| then Malformed
        else
          var stop := start + h.length;
          Ok((EnvelopeItem(h.itemType, h.attachmentType, h.filename, h.contentType, bs[start..stop]),
              if stop < |bs| && bs[stop] == NL then stop + 1 else stop))
  }

  function Prepend<T>(xs: seq<T>, r: Outcome<seq<T>>): Outcome<seq<T>> {
    match r
    case Ok(ys) => Ok(xs + ys)
    case _ => r
  }

  function ItemsFrom(bs: seq<Byte>, pos: nat): Outcome<seq<EnvelopeItem>>
    requires pos <= |bs|
    decreases |bs| - pos
  {
    if pos == |bs| then Ok([])
    else
      match ItemAt(bs, pos)
      case Ok(found) => Prepend([found.0], ItemsFrom(bs, found.1))
      case Malformed => Malformed
      case BadHeader => BadHeader
      case Overflow => Overflow
  }

  function FromBytes(bs: seq<Byte>): Outcome<Envelope> {
    match NextNewline(bs, 0)
    case None => Malformed
    case Some(nl) =>
      match ReadEnvelopeHeader(bs[..nl])
      case None => BadHeader
      case Some(eventId) =>
        match ItemsFrom(bs, nl + 1)
        case Ok(items) => Ok(Envelope(eventId, items))
        case Malformed => Malformed
        case BadHeader => BadHeader
        case Overflow => Overflow
  }

  method FindNewline(bs: seq<Byte>, from: nat) returns (r: Option<nat>)
    requires from <= |bs|
    ensures r == NextNewline(bs, from)
  {
    var i := from;
    while i < |bs|
      invariant from <= i <= |bs|
      invariant NextNewline(bs, from) == NextNewline(bs, i)
    {
      if bs[i] == NL {
        return Some(i);
      }
      i := i + 1;
    }
    r := None;
  }

  lemma {:induction false} PrependTwice<T>(xs: seq<T>, y: T, r: Outcome<seq<T>>)
    ensures Prepend(xs, Prepend([y], r)) == Prepend(xs + [y], r)
  {
    if r.Ok? {
      assert xs + ([y] + r.value) == (xs + [y]) + r.value;
    }
  }

  lemma {:induction false} PrependNothing<T>(r: Outcome<seq<T>>)
    ensures Prepend([], r) == r
  {
    if r.Ok? {
      assert [] + r.value == r.value;
    }
  }

  method ReadItem(bs: seq<Byte>, pos: nat) returns (r: Outcome<(EnvelopeItem, nat)>)
    requires pos < |bs|
    ensures r == ItemAt(bs, pos)
  {
    hide ReadItemHeader, NextNewline;
    var end := FindNewline(bs, pos);
    if end.None? {
      return Malformed;
    }
    var ih := ReadItemHeader(bs[pos..end.value]);
    if ih.None? {
      return BadHeader;
    }
    var start := end.value + 1;
    if start + ih.value.length > USIZE_MAX {
      return Overflow;
    }
    var stop := start + ih.value.length;
    if stop > |bs| {
      return Malformed;
    }
    var item := EnvelopeItem(ih.value.itemType, ih.value.attachmentType, ih.value.filename,
                             ih.value.contentType, bs[start..stop]);
    var next: nat := stop;
    if next < |bs| && bs[next] == NL {
      next := next + 1;
    }
    r := Ok((item, next));
  }

  /** The parsing loop: it ends on every input and never reads past the end. */
  method FromBytesRun(bs: seq<Byte>) returns (r: Outcome<Envelope>)
    ensures r == FromBytes(bs)
  {
    hide ReadEnvelopeHeader, ItemAt;
    var nl := FindNewline(bs, 0);
    if nl.None? {
      return Malformed;
    }
    var header := ReadEnvelopeHeader(bs[..nl.value]);
    if header.None? {
      return BadHeader;
    }
    var items := [];
    var pos: nat := nl.value + 1;
    PrependNothing(ItemsFrom(bs, pos));
    while pos < |bs|
      invariant nl.value < pos <= |bs|
      invariant ItemsFrom(bs, nl.value + 1) == Prepend(items, ItemsFrom(bs, pos))
      decreases |bs| - pos
    {
      var found := ReadItem(bs, pos);
      match found {
        case Malformed => return Malformed;
        case BadHeader => return BadHeader;
        case Overflow => return Overflow;
        case Ok(next) =>
          PrependTwice(items, next.0, ItemsFrom(bs, next.1));
          items := items + [next.0];
          pos := next.1;
      }
    }
    assert items + [] == items;
    r := Ok(Envelope(header.value, items));
  }

  // ----- the header line comes back

  lemma {:induction false} LookupConcat(a: seq<Field>, b: seq<Field>, key: string)
    ensures Lookup(b, key).Absent? ==> Lookup(a + b, key) == Lookup(a, key)
    ensures Lookup(a, key).Absent? ==> Lookup(a + b, key) == Lookup(b, key)
  {
    if a == [] {
      assert a + b == b;
    } else {
      LookupConcat(a[1..], b, key);
      assert (a + b)[1..] == a[1..] + b;
    }
  }

  /** An optional field gives its own key, when it is there, and no other. */
  lemma {:induction false} LookupInOpt(key: string, v: Option<string>, other: string)
    ensures Lookup(OptField(key, v), other) == if v.Some? && other == key then Once(Str(v.value)) else Absent
  {
    var last := OptField(key, v);
    assert Lookup([], other).Absent?;
    assert last != [] ==> last[1..] == [];
  }

  /** One more optional field behind fields that do not give its key. */
  lemma {:induction false} LookupOpt(fs: seq<Field>, key: string, v: Option<string>, other: string)
    ensures other != key ==> Lookup(fs + OptField(key, v), other) == Lookup(fs, other)
    ensures Lookup(fs, key).Absent? ==> OptionalString(fs + OptField(key, v), key) == Some(v)
  {
    var last := OptField(key, v);
    LookupInOpt(key, v, other);
    LookupInOpt(key, v, key);
    hide Lookup, OptField;
    LookupConcat(fs, last, other);
    LookupConcat(fs, last, key);
  }

  lemma {:induction false} ItemHeaderBack(item: EnvelopeItem)
    ensures ItemHeaderOf(ItemFields(item))
            == Some(ItemHeader(item.itemType, |item.payload|, item.attachmentType, item.filename, item.contentType))
  {
    var f0 := [Field("type", Str(item.itemType)), Field("length", Num(|item.payload|))];
    var f1 := f0 + OptField("attachment_type", item.attachmentType);
    var f2 := f1 + OptField("filename", item.filename);
    var f3 := f2 + OptField("content_type", item.contentType);
    assert f0[1..] == [f0[1]] && f0[1..][1..] == [];
    HeaderKeys(f0, item);
    hide Lookup, OptField;
    LookupOpt(f0, "attachment_type", item.attachmentType, "type");
    LookupOpt(f0, "attachment_type", item.attachmentType, "length");
    LookupOpt(f0, "attachment_type", item.attachmentType, "filename");
    LookupOpt(f0, "attachment_type", item.attachmentType, "content_type");
    LookupOpt(f1, "filename", item.filename, "type");
    LookupOpt(f1, "filename", item.filename, "length");
    LookupOpt(f1, "filename", item.filename, "attachment_type");
    LookupOpt(f1, "filename", item.filename, "content_type");
    LookupOpt(f2, "content_type", item.contentType, "type");
    LookupOpt(f2, "content_type", item.contentType, "length");
    LookupOpt(f2, "content_type", item.contentType, "attachment_type");
    LookupOpt(f2, "content_type", item.contentType, "filename");
  }

  lemma {:induction false} HeaderKeys(fs: seq<Field>, item: EnvelopeItem)
    requires fs == [Field("type", Str(item.itemType)), Field("length", Num(|item.payload|))]
    ensures Lookup(fs, "type") == Once(Str(item.itemType))
    ensures Lookup(fs, "length") == Once(Num(|item.payload|))
    ensures Lookup(fs, "attachment_type").Absent? && Lookup(fs, "filename").Absent? && Lookup(fs, "content_type").Absent?
  {
    LookupTwo(fs[0], fs[1], "type");
    LookupTwo(fs[0], fs[1], "length");
    LookupTwo(fs[0], fs[1], "attachment_type");
    LookupTwo(fs[0], fs[1], "filename");
    LookupTwo(fs[0], fs[1], "content_type");
  }

  lemma {:induction false} LookupTwo(a: Field, b: Field, key: string)
    requires a.key != b.key
    ensures Lookup([a, b], key)
            == if a.key == key then Once(a.value) else if b.key == key then Once(b.value) else Absent
  {
    assert [a, b][1..] == [b] && [b][1..] == [];
    assert Lookup([b], key) == if b.key == key then Once(b.value) else Absent;
  }

  /** A printed line holds no newline byte before its own, and parses to the printed fields. */
  lemma {:induction false} LineBack(fs: seq<Field>)
    requires forall i :: 0 <= i < |fs| ==> Printable(fs[i].value)
    ensures var text := Utf8.Encode(PrintObject(fs));
            ParseLine(text) == Some(fs) && forall i :: 0 <= i < |text| ==> text[i] != NL
  {
    ObjectBack(fs);
    Utf8.DecodeEncode(PrintObject(fs));
    ObjectOneLine(fs);
    Utf8.OneLineBytes(PrintObject(fs));
  }

  lemma {:induction false} NewlineFound(bs: seq<Byte>, from: nat, end: nat)
    requires from <= end < |bs| && bs[end] == NL
    requires forall i :: from <= i < end ==> bs[i] != NL
    ensures NextNewline(bs, from) == Some(end)
  {
  }

  lemma {:induction false} LineAt(bs: seq<Byte>, pos: nat, text: seq<Byte>, rest: seq<Byte>)
    requires pos <= |bs| && bs[pos..] == (text + [NL]) + rest
    requires forall i :: 0 <= i < |text| ==> text[i] != NL
    ensures NextNewline(bs, pos) == Some(pos + |text|)
    ensures bs[pos..pos + |text|] == text && bs[pos + |text| + 1..] == rest
  {
    var tail := bs[pos..];
    assert forall i :: 0 <= i < |tail| ==> bs[pos + i] == tail[i];
    assert tail[|text|] == NL;
    forall i | pos <= i < pos + |text| ensures bs[i] != NL {
      assert bs[i] == tail[i - pos] == text[i - pos];
    }
    NewlineFound(bs, pos, pos + |text|);
    assert bs[pos..pos + |text|] == tail[..|text|] == text;
    assert bs[pos + |text| + 1..] == tail[|text| + 1..] == rest;
  }

  // ----- the envelope comes back

  /** What is on the wire behind an item's header line: the payload, and its newline unless it was cut off. */
  ghost predicate PayloadThen(bs: seq<Byte>, item: EnvelopeItem, rest: seq<Byte>, cut: bool) {
    if cut then rest == [] && bs == item.payload else bs == item.payload + [NL] + rest
  }

  lemma {:induction false} ItemBack(bs: seq<Byte>, pos: nat, item: EnvelopeItem, behind: seq<Byte>, rest: seq<Byte>, cut: bool)
    requires pos <= |bs| <= USIZE_MAX && bs[pos..] == Line(ItemFields(item)) + behind
    requires PayloadThen(behind, item, rest, cut)
    ensures pos < |bs| && |rest| <= |bs|
    ensures ItemAt(bs, pos) == Ok((item, |bs| - |rest|))
    ensures bs[|bs| - |rest|..] == rest
  {
    hide *;
    var text := Utf8.Encode(PrintObject(ItemFields(item)));
    BehindIsLonger(behind, item, rest, cut);
    ItemLineBack(item);
    LineAt(bs, pos, text, behind);
    PayloadAt(bs, pos + |text| + 1, item, behind, rest, cut);
    ItemAtIs(bs, pos, text, item, |bs| - |rest|);
  }

  lemma {:induction false} BehindIsLonger(behind: seq<Byte>, item: EnvelopeItem, rest: seq<Byte>, cut: bool)
    requires PayloadThen(behind, item, rest, cut)
    ensures |item.payload| <= |behind|
  {
  }

  lemma {:induction false} ItemLineBack(item: EnvelopeItem)
    requires |item.payload| <= USIZE_MAX
    ensures var text := Utf8.Encode(PrintObject(ItemFields(item)));
            && Line(ItemFields(item)) == text + [NL]
            && (forall i :: 0 <= i < |text| ==> text[i] != NL)
            && ReadItemHeader(text)
               == Some(ItemHeader(item.itemType, |item.payload|, item.attachmentType, item.filename, item.contentType))
  {
    var fs := ItemFields(item);
    assert forall i :: 0 <= i < |fs| ==> Printable(fs[i].value);
    LineBack(fs);
    ItemHeaderBack(item);
    hide ItemFields, ItemHeaderOf, ParseLine, Utf8.Encode, PrintObject;
  }

  lemma {:induction false} ItemAtIs(bs: seq<Byte>, pos: nat, text: seq<Byte>, item: EnvelopeItem, next: nat)
    requires pos < |bs| <= USIZE_MAX
    requires NextNewline(bs, pos) == Some(pos + |text|) && bs[pos..pos + |text|] == text
    requires ReadItemHeader(text)
             == Some(ItemHeader(item.itemType, |item.payload|, item.attachmentType, item.filename, item.contentType))
    requires var start := pos + |text| + 1;
             var stop := start + |item.payload|;
             && stop <= |bs| && bs[start..stop] == item.payload
             && (if stop < |bs| && bs[stop] == NL then stop + 1 else stop) == next
    ensures ItemAt(bs, pos) == Ok((item, next))
  {
    hide ReadItemHeader, NextNewline;
  }

  lemma {:induction false} PayloadAt(bs: seq<Byte>, start: nat, item: EnvelopeItem, behind: seq<Byte>, rest: seq<Byte>, cut: bool)
    requires start <= |bs| && bs[start..] == behind
    requires PayloadThen(behind, item, rest, cut)
    ensures var stop := start + |item.payload|;
            && stop <= |bs| && bs[start..stop] == item.payload
            && |rest| <= |bs| && bs[|bs| - |rest|..] == rest
            && (if stop < |bs| && bs[stop] == NL then stop + 1 else stop) == |bs| - |rest|
  {
    var n := |item.payload|;
    assert bs[start..start + n] == behind[..n] == item.payload;
    if !cut {
      assert bs[start + n] == behind[n] == NL;
      assert bs[start + n + 1..] == behind[n + 1..] == rest;
    }
  }

  /** The items' bytes, whole or without the last newline. */
  function Wire(items: seq<EnvelopeItem>, cut: bool): seq<Byte> {
    var all := ItemsBytes(items);
    if cut && all != [] then all[..|all| - 1] else all
  }

  lemma {:induction false} WireSplit(items: seq<EnvelopeItem>, cut: bool)
    requires items != []
    ensures var last := cut && |items| == 1;
            var rest := Wire(items[1..], cut);
            var behind := if last then items[0].payload else items[0].payload + [NL] + rest;
            && Wire(items, cut) == Line(ItemFields(items[0])) + behind
            && PayloadThen(behind, items[0], rest, last)
  {
    hide Line, ItemFields;
    var line, more := Line(ItemFields(items[0])), ItemsBytes(items[1..]);
    var payload := items[0].payload;
    if |items| == 1 {
      assert ItemsBytes(items) == line + (payload + [NL]);
      assert (line + (payload + [NL]))[..|line| + |payload|] == line + payload;
    } else {
      assert ItemBytes(items[1]) != [];
      assert more != [];
      WireTail(line, payload, more);
    }
  }

  lemma {:induction false} WireTail(line: seq<Byte>, payload: seq<Byte>, more: seq<Byte>)
    requires more != []
    ensures var all := (line + (payload + [NL])) + more;
            && all == line + (payload + [NL] + more)
            && all[..|all| - 1] == line + (payload + [NL] + more[..|more| - 1])
  {
  }

  lemma {:induction false} WireNone(cut: bool)
    ensures Wire([], cut) == []
  {
  }

  lemma {:induction false} ItemsBack(bs: seq<Byte>, pos: nat, items: seq<EnvelopeItem>, cut: bool)
    requires pos <= |bs| <= USIZE_MAX && bs[pos..] == Wire(items, cut)
    ensures ItemsFrom(bs, pos) == Ok(items)
    decreases |items|
  {
    hide ItemAt, Line, ItemBytes, ItemFields, PayloadThen, Wire, ItemsBytes;
    if items == [] {
      WireNone(cut);
    } else {
      WireSplit(items, cut);
      var last := cut && |items| == 1;
      var rest := Wire(items[1..], cut);
      var behind := if last then items[0].payload else items[0].payload + [NL] + rest;
      ItemBack(bs, pos, items[0], behind, rest, last);
      ItemsBack(bs, |bs| - |rest|, items[1..], cut);
      assert [items[0]] + items[1..] == items;
    }
  }

  lemma {:induction false} WireNoLonger(e: Envelope, cut: bool)
    ensures |Line(HeaderFields(e.eventId)) + Wire(e.items, cut)| <= |ToBytes(e)|
  {
    hide ItemsBytes, Line, HeaderFields;
  }

  lemma {:induction false} RoundTripWire(e: Envelope, cut: bool)
    requires |ToBytes(e)| <= USIZE_MAX
    ensures FromBytes(Line(HeaderFields(e.eventId)) + Wire(e.items, cut)) == Ok(e)
  {
    hide ItemsBytes, Wire, HeaderFields, ReadEnvelopeHeader, Utf8.Encode, PrintObject, NextNewline, ItemsFrom;
    var text := Utf8.Encode(PrintObject(HeaderFields(e.eventId)));
    var bs := Line(HeaderFields(e.eventId)) + Wire(e.items, cut);
    WireNoLonger(e, cut);
    HeaderLineBack(e.eventId);
    assert bs[0..] == bs;
    LineAt(bs, 0, text, Wire(e.items, cut));
    ItemsBack(bs, |text| + 1, e.items, cut);
    assert bs[..|text|] == text;
  }

  lemma {:induction false} HeaderLineBack(eventId: Option<string>)
    ensures var text := Utf8.Encode(PrintObject(HeaderFields(eventId)));
            && (forall i :: 0 <= i < |text| ==> text[i] != NL)
            && ReadEnvelopeHeader(text) == Some(eventId)
  {
    var fs := HeaderFields(eventId);
    LineBack(fs);
    assert [] + OptField("event_id", eventId) == fs;
    LookupOpt([], "event_id", eventId, "event_id");
    hide OptionalString, ParseLine, Utf8.Encode, PrintObject;
  }

  /** The round trip, for arbitrary payload bytes (newlines included) and arbitrary header strings. */
  lemma {:induction false} RoundTrip(e: Envelope)
    requires |ToBytes(e)| <= USIZE_MAX
    ensures FromBytes(ToBytes(e)) == Ok(e)
  {
    RoundTripWire(e, false);
    hide FromBytes, HeaderFields, ItemsBytes, Line;
  }

  /** The parser accepts more than the printer emits: the very last newline may be missing. */
  lemma {:induction false} LastNewlineOptional(e: Envelope)
    requires |ToBytes(e)| <= USIZE_MAX && e.items != []
    ensures FromBytes(ToBytes(e)[..|ToBytes(e)| - 1]) == Ok(e)
  {
    hide FromBytes, HeaderFields, Line, ItemsBytes;
    RoundTripWire(e, true);
    ItemsNotEmpty(e.items);
    var head, body := Line(HeaderFields(e.eventId)), ItemsBytes(e.items);
    assert (head + body)[..|head + body| - 1] == head + body[..|body| - 1];
  }

  lemma {:induction false} ItemsNotEmpty(items: seq<EnvelopeItem>)
    requires items != []
    ensures ItemsBytes(items) != []
  {
    hide Line;
  }

  // ----- items whose payload is not there

  /** Whatever follows the items on the wire is parsed from where they end. */
  lemma {:induction false} ItemsThen(bs: seq<Byte>, pos: nat, items: seq<EnvelopeItem>, rest: seq<Byte>)
    requires pos <= |bs| <= USIZE_MAX && bs[pos..] == ItemsBytes(items) + rest
    ensures |rest| <= |bs|
    ensures ItemsFrom(bs, pos) == Prepend(items, ItemsFrom(bs, |bs| - |rest|))
    decreases |items|
  {
    hide ItemAt, Line, ItemFields;
    if items == [] {
      PrependNothing(ItemsFrom(bs, pos));
    } else {
      var more := ItemsBytes(items[1..]) + rest;
      var behind := items[0].payload + [NL] + more;
      Regroup(Line(ItemFields(items[0])), items[0].payload, ItemsBytes(items[1..]), rest);
      ItemBack(bs, pos, items[0], behind, more, false);
      ItemsThen(bs, |bs| - |more|, items[1..], rest);
      var r := ItemsFrom(bs, |bs| - |rest|);
      if r.Ok? {
        assert [items[0]] + (items[1..] + r.value) == items + r.value;
      }
    }
  }

  lemma {:induction false} Regroup(line: seq<Byte>, payload: seq<Byte>, more: seq<Byte>, rest: seq<Byte>)
    ensures ((line + (payload + [NL])) + more) + rest == line + (payload + [NL] + (more + rest))
  {
  }

  function AnnouncedFields(kind: string, n: nat): seq<Field> {
    [Field("type", Str(kind)), Field("length", Num(n))]
  }

  /** The header line of an item that announces `n` bytes of payload. */
  function Announcing(kind: string, n: nat): seq<Byte> {
    Line(AnnouncedFields(kind, n))
  }

  lemma {:induction false} AnnouncedHeader(kind: string, n: nat)
    ensures ItemHeaderOf(AnnouncedFields(kind, n)) == Some(ItemHeader(kind, n, None, None, None))
  {
    var fs := AnnouncedFields(kind, n);
    LookupTwo(fs[0], fs[1], "type");
    LookupTwo(fs[0], fs[1], "length");
    LookupTwo(fs[0], fs[1], "attachment_type");
    LookupTwo(fs[0], fs[1], "filename");
    LookupTwo(fs[0], fs[1], "content_type");
    hide Lookup;
  }

  lemma {:induction false} AnnouncedBack(kind: string, n: nat)
    requires n <= U64_MAX
    ensures var text := Utf8.Encode(PrintObject(AnnouncedFields(kind, n)));
            && Announcing(kind, n) == text + [NL]
            && (forall i :: 0 <= i < |text| ==> text[i] != NL)
            && ReadItemHeader(text) == Some(ItemHeader(kind, n, None, None, None))
  {
    var fs := AnnouncedFields(kind, n);
    assert forall i :: 0 <= i < |fs| ==> Printable(fs[i].value);
    LineBack(fs);
    AnnouncedHeader(kind, n);
    hide ItemHeaderOf, AnnouncedFields, ParseLine, Utf8.Encode, PrintObject;
  }

  lemma {:induction false} AnnouncedAt(bs: seq<Byte>, pos: nat, kind: string, n: nat)
    requires pos <= |bs| && bs[pos..] == Announcing(kind, n) && 0 < n <= U64_MAX
    ensures pos < |bs|
    ensures ItemAt(bs, pos) == if |bs| + n > USIZE_MAX then Overflow else Malformed
  {
    hide ReadItemHeader, Announcing, NextNewline, Utf8.Encode, PrintObject;
    AnnouncedBack(kind, n);
    var text := Utf8.Encode(PrintObject(AnnouncedFields(kind, n)));
    assert (text + [NL]) + [] == text + [NL];
    LineAt(bs, pos, text, []);
  }

  /**
   An item cut off behind its header is refused, never read: as malformed, or,
   when the announced end does not fit `usize`, as an overflow of the addition.
   */
  lemma {:induction false} CutOffItemRefused(e: Envelope, kind: string, n: nat)
    requires 0 < n <= U64_MAX && |ToBytes(e) + Announcing(kind, n)| <= USIZE_MAX
    ensures var bs := ToBytes(e) + Announcing(kind, n);
            FromBytes(bs) == if |bs| + n > USIZE_MAX then Overflow else Malformed
  {
    var tail := Announcing(kind, n);
    var head, body := Line(HeaderFields(e.eventId)), ItemsBytes(e.items);
    var bs := ToBytes(e) + tail;
    var text := Utf8.Encode(PrintObject(HeaderFields(e.eventId)));
    hide ItemsBytes, Announcing, HeaderFields, ReadEnvelopeHeader, Utf8.Encode, PrintObject, NextNewline, ItemAt;
    HeaderLineBack(e.eventId);
    Utf8.Moved(head, body, tail);
    assert bs[0..] == bs;
    LineAt(bs, 0, text, body + tail);
    ItemsThen(bs, |text| + 1, e.items, tail);
    assert bs[|bs| - |tail|..] == tail;
    AnnouncedAt(bs, |bs| - |tail|, kind, n);
    assert bs[..|text|] == text;
  }

  // ----- sealed payloads

  const SEALED_CONTENT_TYPE: string := "application/age-encrypted"
  const SEALED_NAME: string := "report.age"

  function Sealed(ciphertext: seq<Byte>, eventId: Option<string>): Envelope {
    Envelope(eventId, [EnvelopeItem("attachment", Some(SEALED_CONTENT_TYPE), Some(SEALED_NAME),
                                    Some(SEALED_CONTENT_TYPE), ciphertext)])
  }

  predicate IsSealedItem(item: EnvelopeItem) {
    item.itemType == "attachment" && item.attachmentType == Some(SEALED_CONTENT_TYPE)
  }

  /** The payload of the first sealed item. */
  function SealedPayload(items: seq<EnvelopeItem>): Option<seq<Byte>> {
    if items == [] then None
    else if IsSealedItem(items[0]) then Some(items[0].payload)
    else SealedPayload(items[1..])
  }

  /** Items that are not sealed attachments do not change which payload is found. */
  lemma {:induction false} SealedPayloadUnaffected(items: seq<EnvelopeItem>, extra: seq<EnvelopeItem>)
    requires forall i :: 0 <= i < |extra| ==> !IsSealedItem(extra[i])
    ensures SealedPayload(items + extra) == SealedPayload(items)
    decreases |items| + |extra|
  {
    if items != [] {
      SealedPayloadUnaffected(items[1..], extra);
      assert (items + extra)[1..] == items[1..] + extra;
    } else if extra != [] {
      SealedPayloadUnaffected([], extra[1..]);
      assert items + extra == extra && [] + extra[1..] == extra[1..];
    }
  }

  /** A sealed report that travels with extra items still yields its ciphertext at the other end. */
  lemma {:induction false} SealedSurvives(ciphertext: seq<Byte>, eventId: Option<string>, extra: seq<EnvelopeItem>)
    requires forall i :: 0 <= i < |extra| ==> !IsSealedItem(extra[i])
    requires |ToBytes(Envelope(eventId, Sealed(ciphertext, eventId).items + extra))| <= USIZE_MAX
    ensures var r := FromBytes(ToBytes(Envelope(eventId, Sealed(ciphertext, eventId).items + extra)));
            r.Ok? && SealedPayload(r.value.items) == Some(ciphertext)
  {
    var e := Envelope(eventId, Sealed(ciphertext, eventId).items + extra);
    RoundTrip(e);
    hide FromBytes, ToBytes;
    SealedPayloadUnaffected(Sealed(ciphertext, eventId).items, extra);
  }

  // ----- the wire in characters

  /** Printable ASCII that JSON strings hold as it is. */
  predicate Plain(s: string) {
    forall i :: 0 <= i < |s| ==> ' ' <= s[i] <= '~' && s[i] != '"' && s[i] != '\\'
  }

  lemma {:induction false} PlainPrinted(s: string)
    requires Plain(s)
    ensures PrintString(s) == "\"" + s + "\""
  {
    PlainEscaped(s);
  }

  lemma {:induction false} PlainEscaped(s: string)
    requires Plain(s)
    ensures Escaped(s) == s
  {
    if s != "" {
      PlainEscaped(s[1..]);
      assert EscapeChar(s[0]) == [s[0]];
    }
  }

  /** An optional header field behind others. */
  function OptText(key: string, v: Option<string>): string {
    if v.None? then "" else ",\"" + key + "\":\"" + v.value + "\""
  }

  predicate PlainItem(item: EnvelopeItem) {
    && Plain(item.itemType)
    && (item.attachmentType.Some? ==> Plain(item.attachmentType.value))
    && (item.filename.Some? ==> Plain(item.filename.value))
    && (item.contentType.Some? ==> Plain(item.contentType.value))
  }

  lemma {:induction false} OptPrinted(key: string, v: Option<string>, fs: seq<Field>)
    requires Plain(key) && (v.Some? ==> Plain(v.value))
    ensures PrintRest(OptField(key, v) + fs) == OptText(key, v) + PrintRest(fs)
  {
    hide PrintString;
    if v.None? {
      assert OptField(key, v) + fs == fs && "" + PrintRest(fs) == PrintRest(fs);
    } else {
      var f := Field(key, Str(v.value));
      assert ([f] + fs)[1..] == fs;
      PlainPrinted(key);
      PlainPrinted(v.value);
      assert "," + ("\"" + key + "\"" + ":" + ("\"" + v.value + "\"")) == OptText(key, v);
    }
  }

  /** The header of an item as it stands on the wire. */
  lemma {:induction false} ItemHeaderText(item: EnvelopeItem)
    requires PlainItem(item)
    ensures PrintObject(ItemFields(item))
         == "{\"type\":\"" + item.itemType + "\",\"length\":" + PrintNat(|item.payload|)
          + OptText("attachment_type", item.attachmentType) + OptText("filename", item.filename)
          + OptText("content_type", item.contentType) + "}"
  {
    hide *;
    var a, f, c := OptField("attachment_type", item.attachmentType), OptField("filename", item.filename),
      OptField("content_type", item.contentType);
    PlainItemIs(item);
    FieldsAre(item);
    ObjectTurn(Field("type", Str(item.itemType)), Field("length", Num(|item.payload|)), a + (f + c));
    StrField("type", item.itemType);
    NumField("length", |item.payload|);
    OptPrinted("attachment_type", item.attachmentType, f + c);
    OptPrinted("filename", item.filename, c);
    OptPrinted("content_type", item.contentType, []);
    NoMore(c);
    NamesQuoted(item.itemType, PrintNat(|item.payload|));
    HeaderPieces(item.itemType, PrintNat(|item.payload|), OptText("attachment_type", item.attachmentType),
      OptText("filename", item.filename), OptText("content_type", item.contentType));
  }

  lemma {:induction false} PlainItemIs(item: EnvelopeItem)
    requires PlainItem(item)
    ensures Plain(item.itemType) && Plain("attachment_type") && Plain("filename") && Plain("content_type")
    ensures Plain("type") && Plain("length")
    ensures item.attachmentType.Some? ==> Plain(item.attachmentType.value)
    ensures item.filename.Some? ==> Plain(item.filename.value)
    ensures item.contentType.Some? ==> Plain(item.contentType.value)
  {
  }

  lemma {:induction false} FieldsAre(item: EnvelopeItem)
    ensures var a, f, c := OptField("attachment_type", item.attachmentType), OptField("filename", item.filename),
              OptField("content_type", item.contentType);
            ItemFields(item) == [Field("type", Str(item.itemType)), Field("length", Num(|item.payload|))] + (a + (f + c))
  {
    hide OptField;
  }

  lemma {:induction false} ObjectTurn(k: Field, l: Field, rest: seq<Field>)
    ensures PrintObject([k, l] + rest) == "{" + PrintField(k) + ("," + PrintField(l) + PrintRest(rest))
  {
    hide PrintField;
    var fs := [k, l] + rest;
    assert fs[1..] == [l] + rest && fs[1..][1..] == rest;
  }

  lemma {:induction false} StrField(key: string, v: string)
    requires Plain(key) && Plain(v)
    ensures PrintField(Field(key, Str(v))) == "\"" + key + "\":\"" + v + "\""
  {
    PlainPrinted(key);
    PlainPrinted(v);
  }

  lemma {:induction false} NumField(key: string, n: nat)
    requires Plain(key)
    ensures PrintField(Field(key, Num(n))) == "\"" + key + "\":" + PrintNat(n)
  {
    PlainPrinted(key);
  }

  lemma {:induction false} NoMore(c: seq<Field>)
    ensures c + [] == c && PrintRest([]) == "}"
  {
  }

  lemma {:induction false} NamesQuoted(kind: string, length: string)
    ensures "\"" + "type" + "\":\"" + kind + "\"" == "\"type\":\"" + kind + "\""
    ensures "\"" + "length" + "\":" + length == "\"length\":" + length
  {
    assert "\"" + "type" + "\":\"" == "\"type\":\"";
    assert "\"" + "length" + "\":" == "\"length\":";
  }

  lemma {:induction false} HeaderPieces(kind: string, length: string, a: string, f: string, c: string)
    ensures "{" + ("\"type\":\"" + kind + "\"") + ("," + ("\"length\":" + length) + (a + (f + (c + "}"))))
         == "{\"type\":\"" + kind + "\",\"length\":" + length + a + f + c + "}"
  {
  }

  /** The header of the envelope as it stands on the wire. */
  lemma {:induction false} EnvelopeHeaderText(eventId: Option<string>)
    requires eventId.Some? ==> Plain(eventId.value)
    ensures PrintObject(HeaderFields(eventId))
         == if eventId.None? then "{}" else "{\"event_id\":\"" + eventId.value + "\"}"
  {
    hide *;
    if eventId.None? {
      EmptyObject();
    } else {
      EventIdIsPlain();
      HeaderField(eventId.value);
      StrField("event_id", eventId.value);
      BracesAround(eventId.value);
    }
  }

  lemma {:induction false} EventIdIsPlain()
    ensures Plain("event_id")
  {
  }

  lemma {:induction false} EmptyObject()
    ensures PrintObject(HeaderFields(None)) == "{}"
  {
  }

  lemma {:induction false} HeaderField(id: string)
    ensures PrintObject(HeaderFields(Some(id))) == "{" + PrintField(Field("event_id", Str(id))) + "}"
  {
    hide PrintField;
    var f := Field("event_id", Str(id));
    assert [f][1..] == [];
  }

  lemma {:induction false} BracesAround(v: string)
    ensures "{" + ("\"event_id\":\"" + v + "\"") + "}" == "{\"event_id\":\"" + v + "\"}"
  {
  }

  /** One item after the other on the wire: header line, payload and newline. */
  lemma {:induction false} WireIs(eventId: Option<string>, items: seq<EnvelopeItem>, item: EnvelopeItem)
    ensures ToBytes(Envelope(eventId, [])) == Utf8.Encode(PrintObject(HeaderFields(eventId))) + [10]
    ensures ToBytes(Envelope(eventId, items + [item]))
         == ToBytes(Envelope(eventId, items)) + (Utf8.Encode(PrintObject(ItemFields(item))) + [10] + (item.payload + [10]))
  {
    hide PrintObject, HeaderFields, ItemFields, ItemsBytes;
    ItemsBytesPush(items, item);
    NothingOnWire();
    var head := Utf8.Encode(PrintObject(HeaderFields(eventId))) + [10];
    assert head + [] == head;
    assert head + (ItemsBytes(items) + ItemBytes(item)) == head + ItemsBytes(items) + ItemBytes(item);
  }

  lemma {:induction false} NothingOnWire()
    ensures ItemsBytes([]) == []
  {
  }
}
