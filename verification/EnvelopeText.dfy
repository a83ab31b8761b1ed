/**
 What the envelope parser takes for an envelope, header by header: which headers it
 reads, where an item ends, and what makes it refuse one.
 */
module EnvelopeText {
  import opened Text
  import opened Bytes
  import opened Json
  import opened Envelope
  import JsonText
  import Utf8

  // ----- header objects

  /** The key is given exactly once, with that value. */
  ghost predicate GivenOnce(fs: seq<Field>, key: string, v: Value) {
    exists i :: 0 <= i < |fs| && fs[i] == Field(key, v) && forall j :: 0 <= j < |fs| && j != i ==> fs[j].key != key
  }

  ghost predicate NotGiven(fs: seq<Field>, key: string) {
    forall i :: 0 <= i < |fs| ==> fs[i].key != key
  }

  /** An optional string: not given or null, or given once. */
  ghost predicate GivenOptional(fs: seq<Field>, key: string, v: Option<string>) {
    match v
    case None => NotGiven(fs, key) || GivenOnce(fs, key, Null)
    case Some(s) => GivenOnce(fs, key, Str(s))
  }

  lemma {:induction false} LookupIs(fs: seq<Field>, key: string)
    ensures Lookup(fs, key).Absent? <==> NotGiven(fs, key)
    ensures forall v :: Lookup(fs, key) == Once(v) <==> GivenOnce(fs, key, v)
  {
    if fs != [] {
      var rest := fs[1..];
      LookupIs(rest, key);
      forall v ensures Lookup(fs, key) == Once(v) <==> GivenOnce(fs, key, v) {
        OnceTail(fs, key, v);
      }
      NotGivenTail(fs, key);
    }
  }

  lemma {:induction false} NotGivenTail(fs: seq<Field>, key: string)
    requires fs != []
    ensures NotGiven(fs, key) <==> fs[0].key != key && NotGiven(fs[1..], key)
  {
    assert forall i :: 0 <= i < |fs[1..]| ==> fs[1..][i] == fs[i + 1];
    assert forall i :: 0 < i < |fs| ==> fs[i] == fs[1..][i - 1];
  }

  lemma {:induction false} OnceTail(fs: seq<Field>, key: string, v: Value)
    requires fs != []
    ensures GivenOnce(fs, key, v) <==>
      if fs[0].key == key then fs[0].value == v && NotGiven(fs[1..], key) else GivenOnce(fs[1..], key, v)
  {
    var rest := fs[1..];
    assert forall i :: 0 <= i < |rest| ==> rest[i] == fs[i + 1];
    assert forall i :: 0 < i < |fs| ==> fs[i] == rest[i - 1];
    if GivenOnce(fs, key, v) {
      var i :| 0 <= i < |fs| && fs[i] == Field(key, v) && forall j :: 0 <= j < |fs| && j != i ==> fs[j].key != key;
      if i > 0 {
        assert rest[i - 1] == Field(key, v);
      }
    }
    if fs[0].key == key && fs[0].value == v && NotGiven(rest, key) {
      assert fs[0] == Field(key, v);
    }
    if fs[0].key != key && GivenOnce(rest, key, v) {
      var i :| 0 <= i < |rest| && rest[i] == Field(key, v) && forall j :: 0 <= j < |rest| && j != i ==> rest[j].key != key;
      assert fs[i + 1] == Field(key, v);
    }
  }

  lemma {:induction false} OptionalIs(fs: seq<Field>, key: string, v: Option<string>)
    ensures OptionalString(fs, key) == Some(v) <==> GivenOptional(fs, key, v)
  {
    LookupIs(fs, key);
    hide Lookup, GivenOnce, NotGiven;
    if v.Some? {
      assert Lookup(fs, key) == Once(Str(v.value)) <==> GivenOnce(fs, key, Str(v.value));
    }
    assert Lookup(fs, key) == Once(Null) <==> GivenOnce(fs, key, Null);
  }

  /** Type and length are needed, once each; the others may be missing or null; nothing may be given twice; other keys do not matter. */
  ghost predicate DescribesItem(fs: seq<Field>, h: ItemHeader) {
    && GivenOnce(fs, "type", Str(h.itemType)) && GivenOnce(fs, "length", Num(h.length))
    && GivenOptional(fs, "attachment_type", h.attachmentType)
    && GivenOptional(fs, "filename", h.filename)
    && GivenOptional(fs, "content_type", h.contentType)
  }

  lemma {:induction false} ItemHeaderIff(fs: seq<Field>, h: ItemHeader)
    ensures ItemHeaderOf(fs) == Some(h) <==> DescribesItem(fs, h)
  {
    LookupIs(fs, "type");
    LookupIs(fs, "length");
    OptionalIs(fs, "attachment_type", h.attachmentType);
    OptionalIs(fs, "filename", h.filename);
    OptionalIs(fs, "content_type", h.contentType);
    hide Lookup, OptionalString, GivenOnce, NotGiven, GivenOptional;
    assert Lookup(fs, "type") == Once(Str(h.itemType)) <==> GivenOnce(fs, "type", Str(h.itemType));
    assert Lookup(fs, "length") == Once(Num(h.length)) <==> GivenOnce(fs, "length", Num(h.length));
  }

  /** The line is the UTF-8 form of a text that writes the object. */
  ghost predicate LineHolds(line: seq<Byte>, fs: seq<Field>) {
    exists text :: line == Utf8.Encode(text) && JsonText.ObjectText(text, fs)
  }

  lemma {:induction false} LineIff(line: seq<Byte>, fs: seq<Field>)
    ensures ParseLine(line) == Some(fs) <==> LineHolds(line, fs)
  {
    hide Utf8.Decode, Utf8.Encode, ParseObject, JsonText.ObjectText;
    if ParseLine(line) == Some(fs) {
      var text := Utf8.Decode(line).value;
      Utf8.EncodeDecode(line);
      JsonText.ParseObjectIff(text, fs);
    }
    if text :| line == Utf8.Encode(text) && JsonText.ObjectText(text, fs) {
      Utf8.DecodeEncode(text);
      JsonText.ParseObjectIff(text, fs);
    }
  }

  // ----- items

  /**
   At `pos` stands an item that ends at `next`: a header line up to the first newline, the announced bytes
   behind it, and the newline behind those if there is one.
   */
  ghost predicate ItemStands(bs: seq<Byte>, pos: nat, item: EnvelopeItem, next: nat) {
    exists end: nat, fs ::
      && pos <= end < |bs| && bs[end] == 10 && (forall i :: pos <= i < end ==> bs[i] != 10)
      && LineHolds(bs[pos..end], fs) && DescribesItem(fs, HeaderOf(item)) && PayloadStands(bs, end, item, next)
  }

  /** The header an item is announced by. */
  function HeaderOf(item: EnvelopeItem): ItemHeader {
    ItemHeader(item.itemType, |item.payload|, item.attachmentType, item.filename, item.contentType)
  }

  predicate PayloadStands(bs: seq<Byte>, end: nat, item: EnvelopeItem, next: nat) {
    var stop := end + 1 + |item.payload|;
    && stop <= |bs| && stop <= 0xFFFF_FFFF_FFFF_FFFF && bs[end + 1..stop] == item.payload
    && next == if stop < |bs| && bs[stop] == 10 then stop + 1 else stop
  }

  lemma {:induction false} NewlineIs(bs: seq<Byte>, from: nat, end: nat)
    requires from <= end < |bs| && bs[end] == 10 && forall i :: from <= i < end ==> bs[i] != 10
    ensures NextNewline(bs, from) == Some(end)
  {
    var r := NextNewline(bs, from);
    assert r.Some?;
  }

  lemma {:induction false} HeaderLineIff(line: seq<Byte>, h: ItemHeader)
    ensures ReadItemHeader(line) == Some(h) <==> exists fs :: LineHolds(line, fs) && DescribesItem(fs, h)
  {
    hide ParseLine, ItemHeaderOf, LineHolds, DescribesItem;
    if ReadItemHeader(line) == Some(h) {
      var fs := ParseLine(line).value;
      LineIff(line, fs);
      ItemHeaderIff(fs, h);
    }
    if fs :| LineHolds(line, fs) && DescribesItem(fs, h) {
      LineIff(line, fs);
      ItemHeaderIff(fs, h);
    }
  }

  lemma {:induction false} ItemBehind(bs: seq<Byte>, pos: nat, end: nat, item: EnvelopeItem, next: nat)
    requires pos <= end < |bs| && NextNewline(bs, pos) == Some(end)
    ensures ItemAt(bs, pos) == Ok((item, next))
            <==> ReadItemHeader(bs[pos..end]) == Some(HeaderOf(item)) && PayloadStands(bs, end, item, next)
  {
    hide ReadItemHeader, NextNewline;
  }

  /** An item is read exactly where one stands. */
  lemma {:induction false} ItemIff(bs: seq<Byte>, pos: nat, item: EnvelopeItem, next: nat)
    requires pos < |bs|
    ensures ItemAt(bs, pos) == Ok((item, next)) <==> ItemStands(bs, pos, item, next)
  {
    if ItemAt(bs, pos) == Ok((item, next)) {
      var end := NextNewline(bs, pos).value;
      hide ItemAt, ReadItemHeader, LineHolds, DescribesItem, NextNewline, PayloadStands;
      ItemBehind(bs, pos, end, item, next);
      HeaderLineIff(bs[pos..end], HeaderOf(item));
    }
    hide ItemAt, ReadItemHeader, LineHolds, DescribesItem, NextNewline, PayloadStands;
    if end: nat, fs :|
      && pos <= end < |bs| && bs[end] == 10 && (forall i :: pos <= i < end ==> bs[i] != 10)
      && LineHolds(bs[pos..end], fs) && DescribesItem(fs, HeaderOf(item)) && PayloadStands(bs, end, item, next)
    {
      NewlineIs(bs, pos, end);
      HeaderLineIff(bs[pos..end], HeaderOf(item));
      ItemBehind(bs, pos, end, item, next);
    }
  }

  /** From `pos` on the bytes are items up to the end. */
  ghost predicate ItemsStand(bs: seq<Byte>, pos: nat, items: seq<EnvelopeItem>)
    decreases |items|
  {
    if items == [] then pos == |bs|
    else exists next :: ItemStands(bs, pos, items[0], next) && ItemsStand(bs, next, items[1..])
  }

  lemma {:induction false} ItemsIff(bs: seq<Byte>, pos: nat, items: seq<EnvelopeItem>)
    requires pos <= |bs|
    ensures ItemsFrom(bs, pos) == Ok(items) <==> ItemsStand(bs, pos, items)
    decreases |bs| - pos
  {
    hide ItemAt, ItemStands;
    if pos == |bs| {
      if items != [] {
        NoItemAtEnd(bs, items[0]);
      }
    } else {
      if ItemsFrom(bs, pos) == Ok(items) {
        var found := ItemAt(bs, pos).value;
        ItemIff(bs, pos, found.0, found.1);
        assert items[0] == found.0;
        var rest := ItemsFrom(bs, found.1).value;
        assert items[1..] == rest;
        ItemsIff(bs, found.1, rest);
      }
      if items != [] && ItemsStand(bs, pos, items) {
        var next :| ItemStands(bs, pos, items[0], next) && ItemsStand(bs, next, items[1..]);
        ItemIff(bs, pos, items[0], next);
        ItemsIff(bs, next, items[1..]);
        assert [items[0]] + items[1..] == items;
      }
    }
  }

  lemma {:induction false} NoItemAtEnd(bs: seq<Byte>, item: EnvelopeItem)
    ensures forall next :: !ItemStands(bs, |bs|, item, next)
  {
  }

  /** A header line, and items up to the end. */
  ghost predicate EnvelopeStands(bs: seq<Byte>, e: Envelope) {
    exists end: nat, fs ::
      && end < |bs| && bs[end] == 10 && (forall i :: 0 <= i < end ==> bs[i] != 10)
      && LineHolds(bs[..end], fs) && GivenOptional(fs, "event_id", e.eventId)
      && ItemsStand(bs, end + 1, e.items)
  }

  /** The parser returns an envelope exactly when the bytes are one. */
  lemma {:induction false} FromBytesIff(bs: seq<Byte>, e: Envelope)
    ensures FromBytes(bs) == Ok(e) <==> EnvelopeStands(bs, e)
  {
    hide ParseLine, OptionalString, LineHolds, GivenOptional, ItemsFrom, ItemsStand;
    if FromBytes(bs) == Ok(e) {
      var end := NextNewline(bs, 0).value;
      assert bs[0..end] == bs[..end];
      var fs := ParseLine(bs[..end]).value;
      LineIff(bs[..end], fs);
      OptionalIs(fs, "event_id", e.eventId);
      ItemsIff(bs, end + 1, e.items);
    }
    if end: nat, fs :|
      && end < |bs| && bs[end] == 10 && (forall i :: 0 <= i < end ==> bs[i] != 10)
      && LineHolds(bs[..end], fs) && GivenOptional(fs, "event_id", e.eventId)
      && ItemsStand(bs, end + 1, e.items)
    {
      NewlineIs(bs, 0, end);
      LineIff(bs[..end], fs);
      OptionalIs(fs, "event_id", e.eventId);
      ItemsIff(bs, end + 1, e.items);
    }
  }

  // ----- sealed reports

  /** An attachment of the sealed type. */
  predicate CarriesSealed(item: EnvelopeItem) {
    item.itemType == "attachment" && item.attachmentType == Some("application/age-encrypted")
  }

  /** The first item that carries a sealed report is the one taken; without one there is nothing to take. */
  lemma {:induction false} FirstSealedTaken(a: seq<EnvelopeItem>, item: EnvelopeItem, b: seq<EnvelopeItem>)
    requires forall i :: 0 <= i < |a| ==> !CarriesSealed(a[i])
    ensures SealedPayload(a) == None
    ensures CarriesSealed(item) ==> SealedPayload(a + [item] + b) == Some(item.payload)
  {
    var all := a + [item] + b;
    if a == [] {
      assert all[0] == item;
    } else {
      assert all[0] == a[0] && all[1..] == a[1..] + [item] + b;
      FirstSealedTaken(a[1..], item, b);
    }
  }

  /** A sealed envelope has one item; it is found again, and its header reads on the wire as `ItemHeaderText` says. */
  lemma {:induction false} SealedIs(ciphertext: seq<Byte>, eventId: Option<string>)
    ensures Sealed(ciphertext, eventId) == Envelope(eventId,
              [EnvelopeItem("attachment", Some("application/age-encrypted"), Some("report.age"),
                            Some("application/age-encrypted"), ciphertext)])
    ensures PlainItem(Sealed(ciphertext, eventId).items[0])
    ensures SealedPayload(Sealed(ciphertext, eventId).items) == Some(ciphertext)
  {
    SealedIsPlain(ciphertext, eventId);
    hide PlainItem;
    var items := Sealed(ciphertext, eventId).items;
    FirstSealedTaken([], items[0], []);
    assert [] + [items[0]] + [] == items;
  }

  lemma {:induction false} SealedIsPlain(ciphertext: seq<Byte>, eventId: Option<string>)
    ensures PlainItem(Sealed(ciphertext, eventId).items[0])
  {
  }
}
