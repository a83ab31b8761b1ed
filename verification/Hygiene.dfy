/**
 Transport hygiene (`hygiene.rs`): padding the serialized envelope up to a size
 bucket with a `_pad` item whose own header grows with the padding it announces,
 and the random send delay.
 */
module Hygiene {
  import opened Text
  import opened Bytes
  import opened Json
  import opened Decimal
  import opened Envelope
  import Utf8

  // ----- the padding length

  /** What `len` bytes of padding take, beyond the fixed framing. */
  function Taken(len: nat): nat {
    Digits(len) + len
  }

  /** `len` is the largest padding length that `budget` bytes have room for. */
  ghost predicate LargestFitting(len: nat, budget: nat) {
    Taken(len) <= budget < Taken(len + 1)
  }

  /** One refinement step never crosses the answer twice: from above it lands at or below, from below at or above. */
  lemma {:induction false} StepAlternates(len: nat, best: nat, budget: nat)
    requires LargestFitting(best, budget)
    ensures len >= best && (len > best || Taken(best) == budget) ==> budget - Digits(len) <= best
    ensures len <= best ==> budget - Digits(len) >= best + if Taken(best) == budget then 0 else 1
  {
    if len <= best {
      DigitsMonotone(len, best);
    } else {
      DigitsMonotone(best + 1, len);
    }
  }

  lemma {:induction false} LargestExists(budget: nat) returns (best: nat)
    requires budget >= 1
    ensures LargestFitting(best, budget)
  {
    best := 0;
    while Taken(best + 1) <= budget
      invariant Taken(best) <= budget
      decreases budget - best
    {
      best := best + 1;
    }
  }

  /** Two lengths cannot both be largest. */
  lemma {:induction false} LargestUnique(m: nat, n: nat, budget: nat)
    requires LargestFitting(m, budget) && LargestFitting(n, budget)
    ensures m == n
  {
    if m < n {
      DigitsMonotone(m + 1, n);
    } else if n < m {
      DigitsMonotone(n + 1, m);
    }
  }

  lemma {:induction false} ExactIsLargest(len: nat, budget: nat)
    requires Taken(len) == budget
    ensures LargestFitting(len, budget)
  {
    DigitsNext(len);
  }

  /**
   The four refinement steps and the clamp. From below a step lands at or above
   the answer and from above at or below it, so after an even number of steps
   only the clamp's direction is left; a fixpoint is the answer itself. (The
   source's exit for a budget smaller than the digits is never taken: see
   `DigitsAtMost`.)
   */
  method FitBudget(budget: nat) returns (len: nat)
    requires budget >= 1
    ensures LargestFitting(len, budget)
  {
    ghost var best := LargestExists(budget);
    len := budget;
    DigitsAtMost(budget);
    hide Digits;
    var i := 0;
    while i < 4
      invariant 0 <= i <= 4 && len <= budget
      invariant i == 0 || i == 2 || i == 4 ==> len >= best && (len > best || Taken(best) == budget)
      invariant i == 1 || i == 3 ==> len <= best
    {
      var digits := DecimalDigits(len);
      DigitsMonotone(len, budget);
      var candidate := budget - digits;
      if candidate == len {
        ExactIsLargest(len, budget);
        LargestUnique(len, best, budget);
        break;
      }
      StepAlternates(len, best, budget);
      len := candidate;
      i := i + 1;
    }
    len := Clamp(len, budget, best);
  }

  /** The final clamp: down to the first length that fits. */
  method Clamp(from: nat, budget: nat, ghost best: nat) returns (len: nat)
    requires LargestFitting(best, budget) && from >= best
    ensures len == best
  {
    hide Digits;
    len := from;
    var digits := DecimalDigits(len);
    while digits + len > budget && len > 0
      invariant digits == Digits(len) && len >= best
      decreases len
    {
      len := len - 1;
      digits := DecimalDigits(len);
    }
    if len > best {
      DigitsMonotone(best + 1, len);
    }
  }

  /** How many random bytes bring `current` to `target`; nothing when the gap is smaller than the framing. */
  method PadRandomLen(current: nat, target: nat, overhead: nat) returns (r: Option<nat>)
    ensures r.Some? <==> target > current && target >= current + overhead
    ensures r.Some? && target == current + overhead ==> r.value == 0
    ensures r.Some? && target > current + overhead ==> LargestFitting(r.value, target - current - overhead)
  {
    if target <= current {
      return None;
    }
    var available := target - current;
    if available <= overhead {
      return if available == overhead then Some(0) else None;
    }
    var len := FitBudget(available - overhead);
    r := Some(len);
  }

  /** The gaps no length header can fill: just below, the digit count jumps. */
  ghost predicate Unreachable(budget: nat) {
    exists k: nat :: k >= 1 && budget == Pow10(k) + k
  }

  /** The largest fitting length fills the budget, except that it is one byte short at the unreachable gaps. */
  lemma {:induction false} LargestLands(len: nat, budget: nat)
    requires LargestFitting(len, budget)
    ensures Taken(len) == if Unreachable(budget) then budget - 1 else budget
  {
    DigitsNext(len);
    hide Digits;
    if Taken(len) < budget {
      assert budget == Pow10(Digits(len)) + Digits(len);
    }
    if Unreachable(budget) {
      var k: nat :| k >= 1 && budget == Pow10(k) + k;
      DigitsOfPow10(k);
      LargestUnique(len, Pow10(k) - 1, budget);
    }
  }

  // ----- the padding item

  const PAD_NAME: string := "_pad"
  const PAD_CONTENT_TYPE: string := "application/octet-stream"

  function PadItem(payload: seq<Byte>): EnvelopeItem {
    EnvelopeItem("attachment", None, Some(PAD_NAME), Some(PAD_CONTENT_TYPE), payload)
  }

  /** The header as a JSON map: the same fields in key order, whatever the payload. */
  function MapFields(item: EnvelopeItem, length: nat): seq<Field> {
    OptField("attachment_type", item.attachmentType)
    + OptField("content_type", item.contentType)
    + OptField("filename", item.filename)
    + [Field("length", Num(length)), Field("type", Str(item.itemType))]
  }

  /** `serialize_item_header_len`. */
  function HeaderLen(item: EnvelopeItem, length: nat): nat {
    Utf8.ByteLen(PrintObject(MapFields(item, length)))
  }

  /** The framing of a padding item, without its digits and its payload. */
  function PadOverhead(): int {
    HeaderLen(PadItem([]), 0) - 1 + 1 + 1
  }

  /** The bytes of the printed fields, a separator counted with each. */
  function FieldsLen(fs: seq<Field>): nat {
    if fs == [] then 0 else Utf8.ByteLen(PrintField(fs[0])) + 1 + FieldsLen(fs[1..])
  }

  lemma {:induction false} FieldsLenConcat(a: seq<Field>, b: seq<Field>)
    ensures FieldsLen(a + b) == FieldsLen(a) + FieldsLen(b)
  {
    hide PrintField, Utf8.ByteLen;
    if a == [] {
      assert a + b == b;
    } else {
      FieldsLenConcat(a[1..], b);
      assert (a + b)[1..] == a[1..] + b;
    }
  }

  lemma {:induction false} RestLen(fs: seq<Field>)
    ensures Utf8.ByteLen(PrintRest(fs)) == FieldsLen(fs) + 1
  {
    hide PrintField;
    if fs == [] {
      assert "}"[1..] == "" && Utf8.Encode("") == [];
      assert Utf8.Encode("}") == Utf8.EncodeChar('}') + [];
    } else {
      RestLen(fs[1..]);
      Utf8.EncodeConcat("," + PrintField(fs[0]), PrintRest(fs[1..]));
      Utf8.EncodeCons(',', PrintField(fs[0]));
    }
  }

  lemma {:induction false} ObjectLen(fs: seq<Field>)
    requires fs != []
    ensures Utf8.ByteLen(PrintObject(fs)) == FieldsLen(fs) + 1
  {
    hide PrintField;
    RestLen(fs[1..]);
    Utf8.EncodeConcat("{" + PrintField(fs[0]), PrintRest(fs[1..]));
    Utf8.EncodeCons('{', PrintField(fs[0]));
  }

  /** The measured header and the one on the wire list the fields in different orders but are equally long. */
  lemma {:induction false} HeaderLenIsWireLen(item: EnvelopeItem)
    ensures HeaderLen(item, |item.payload|) == Utf8.ByteLen(PrintObject(ItemFields(item)))
  {
    var a := OptField("attachment_type", item.attachmentType);
    var c := OptField("content_type", item.contentType);
    var f := OptField("filename", item.filename);
    var l, t := Field("length", Num(|item.payload|)), Field("type", Str(item.itemType));
    ObjectLen(MapFields(item, |item.payload|));
    ObjectLen(ItemFields(item));
    hide PrintField, OptField, PrintObject;
    PairLen(l, t);
    PairLen(t, l);
    FieldsLenConcat(a, c);
    FieldsLenConcat(a + c, f);
    FieldsLenConcat(a + c + f, [l, t]);
    FieldsLenConcat([t, l], a);
    FieldsLenConcat([t, l] + a, f);
    FieldsLenConcat([t, l] + a + f, c);
  }

  lemma {:induction false} PairLen(x: Field, y: Field)
    ensures FieldsLen([x, y]) == Utf8.ByteLen(PrintField(x)) + Utf8.ByteLen(PrintField(y)) + 2
  {
    assert [x, y][1..] == [y] && [y][1..] == [];
    assert FieldsLen([y]) == Utf8.ByteLen(PrintField(y)) + 1;
  }

  lemma {:induction false} DigitsAscii(ds: string)
    requires All(ds, Digit)
    ensures Utf8.ByteLen(ds) == |ds|
  {
    if ds != "" {
      assert Digit.Has(ds[0]);
      assert forall i :: 0 <= i < |ds[1..]| ==> ds[1..][i] == ds[i + 1];
      DigitsAscii(ds[1..]);
    }
  }

  lemma {:induction false} LengthFieldLen(m: nat, n: nat)
    ensures Utf8.ByteLen(PrintField(Field("length", Num(n)))) - Digits(n)
            == Utf8.ByteLen(PrintField(Field("length", Num(m)))) - Digits(m)
  {
    var key := PrintString("length") + ":";
    Utf8.EncodeConcat(key, PrintNat(m));
    Utf8.EncodeConcat(key, PrintNat(n));
    DigitsAscii(PrintNat(m));
    DigitsAscii(PrintNat(n));
  }

  /** A header grows by exactly the digits of the length it announces. */
  lemma {:induction false} HeaderLenDigits(item: EnvelopeItem, m: nat, n: nat)
    ensures HeaderLen(item, n) - Digits(n) == HeaderLen(item, m) - Digits(m)
  {
    var front := OptField("attachment_type", item.attachmentType)
      + OptField("content_type", item.contentType) + OptField("filename", item.filename);
    var l, k, t := Field("length", Num(n)), Field("length", Num(m)), Field("type", Str(item.itemType));
    LengthFieldLen(m, n);
    ObjectLen(MapFields(item, n));
    ObjectLen(MapFields(item, m));
    hide PrintField, PrintObject, Utf8.ByteLen, FieldsLen, Digits;
    PairLen(l, t);
    PairLen(k, t);
    FieldsLenConcat(front, [l, t]);
    FieldsLenConcat(front, [k, t]);
  }

  /** What a padding item takes on the wire. */
  lemma {:induction false} PadItemLen(payload: seq<Byte>)
    ensures |ItemBytes(PadItem(payload))| == PadOverhead() + Taken(|payload|)
  {
    HeaderLenIsWireLen(PadItem(payload));
    HeaderLenDigits(PadItem(payload), 0, |payload|);
    assert MapFields(PadItem(payload), 0) == MapFields(PadItem([]), 0);
    assert Digits(0) == 1;
    hide PrintObject, ItemFields, MapFields;
  }

  function WithPad(e: Envelope, payload: seq<Byte>): Envelope {
    Envelope(e.eventId, e.items + [PadItem(payload)])
  }

  lemma {:induction false} WithPadLen(e: Envelope, payload: seq<Byte>)
    ensures |ToBytes(WithPad(e, payload))| == |ToBytes(e)| + PadOverhead() + Taken(|payload|)
  {
    ItemsBytesPush(e.items, PadItem(payload));
    PadItemLen(payload);
    hide ItemsBytes, ItemBytes, Line, HeaderFields, PadOverhead;
  }

  // ----- choosing the bucket

  /** A bucket the envelope can be brought to (or one byte off it). */
  predicate Admits(bucket: nat, current: nat, overhead: int) {
    bucket == current || (bucket > current && bucket >= current + overhead)
  }

  /** The least admitting bucket, in whatever order the buckets come. */
  function Chosen(buckets: seq<nat>, current: nat, overhead: int): (r: Option<nat>)
    ensures r.Some? ==> r.value in buckets && Admits(r.value, current, overhead)
    ensures forall b :: b in buckets && Admits(b, current, overhead) ==> r.Some? && r.value <= b
  {
    if buckets == [] then None
    else
      var rest := Chosen(buckets[1..], current, overhead);
      assert forall b :: b in buckets <==> b == buckets[0] || b in buckets[1..];
      if !Admits(buckets[0], current, overhead) then rest
      else if rest.Some? && rest.value < buckets[0] then rest
      else Some(buckets[0])
  }

  predicate Ascending(xs: seq<nat>) {
    forall i, j :: 0 <= i < j < |xs| ==> xs[i] <= xs[j]
  }

  function Insert(x: nat, xs: seq<nat>): (ys: seq<nat>)
    ensures Ascending(xs) ==> Ascending(ys)
    ensures forall y :: y in ys <==> y == x || y in xs
  {
    if xs == [] then [x]
    else if x <= xs[0] then [x] + xs
    else
      var rest := Insert(x, xs[1..]);
      assert Ascending(xs) ==> Ascending(xs[1..]);
      assert forall y :: y in xs <==> y == xs[0] || y in xs[1..];
      assert forall i :: 0 <= i < |rest| ==> rest[i] in rest;
      [xs[0]] + rest
  }

  /** The buckets at or above `current`, sorted. */
  function Candidates(buckets: seq<nat>, current: nat): (ys: seq<nat>)
    ensures Ascending(ys)
    ensures forall y :: y in ys <==> y in buckets && y >= current
  {
    if buckets == [] then []
    else
      var rest := Candidates(buckets[1..], current);
      assert forall b :: b in buckets <==> b == buckets[0] || b in buckets[1..];
      if buckets[0] >= current then Insert(buckets[0], rest) else rest
  }

  /** The random bytes, read off a tape. */
  function Noise(tape: nat -> Byte, n: nat): (r: seq<Byte>)
    ensures |r| == n
  {
    seq(n, i requires 0 <= i => tape(i))
  }

  /** Where a padded envelope lands: on its bucket, but for the gap that is all framing and the unreachable ones. */
  ghost predicate Lands(size: nat, target: nat, current: nat, overhead: int) {
    var gap := target - current - overhead;
    if gap == 0 then size == target + 1
    else if gap > 0 && Unreachable(gap) then size == target - 1
    else size == target
  }

  /** `out` is the envelope unchanged, or with one padding item that brings it to the chosen bucket. */
  ghost predicate PaddedTo(out: seq<Byte>, e: Envelope, tape: nat -> Byte, target: nat) {
    var current := |ToBytes(e)|;
    if target == current then out == ToBytes(e)
    else
      && Lands(|out|, target, current, 93)
      && exists n :: out == ToBytes(WithPad(e, Noise(tape, n)))
  }

  lemma {:induction false} PadLands(e: Envelope, payload: seq<Byte>, target: nat)
    requires target > |ToBytes(e)| && target >= |ToBytes(e)| + PadOverhead()
    requires var gap := target - |ToBytes(e)| - PadOverhead();
             if gap == 0 then |payload| == 0 else LargestFitting(|payload|, gap)
    ensures Lands(|ToBytes(WithPad(e, payload))|, target, |ToBytes(e)|, PadOverhead())
  {
    WithPadLen(e, payload);
    var gap := target - |ToBytes(e)| - PadOverhead();
    if gap == 0 {
      assert Digits(0) == 1;
    } else {
      LargestLands(|payload|, gap);
    }
  }

  /** The least bucket that is the size itself or leaves room for the 93 bytes of framing. */
  ghost predicate IsLeast(target: nat, buckets: seq<nat>, current: nat) {
    && target in buckets && (target == current || target >= current + 93)
    && forall b :: b in buckets && (b == current || b >= current + 93) ==> target <= b
  }

  /** In terms of the buckets: nothing to do without a reachable one, else the least reachable one is the target. */
  lemma {:induction false} PaddedAsChosen(out: seq<Byte>, e: Envelope, base: seq<Byte>, buckets: seq<nat>, tape: nat -> Byte)
    requires match Chosen(buckets, |base|, PadOverhead())
             case None => out == base
             case Some(target) => PaddedTo(out, e, tape, target)
    ensures (forall b :: b in buckets ==> b != |base| && b < |base| + 93) ==> out == base
    ensures forall target :: IsLeast(target, buckets, |base|) ==> PaddedTo(out, e, tape, target)
  {
    PadOverheadIs93();
    hide Chosen, PadOverhead, ToBytes, PaddedTo;
    forall t | IsLeast(t, buckets, |base|) ensures PaddedTo(out, e, tape, t) {
      LeastIs(t, buckets, |base|);
    }
    NoneIs(buckets, |base|);
  }

  lemma {:induction false} LeastIs(target: nat, buckets: seq<nat>, current: nat)
    requires IsLeast(target, buckets, current)
    ensures Chosen(buckets, current, 93) == Some(target)
  {
    assert Admits(target, current, 93);
  }

  lemma {:induction false} NoneIs(buckets: seq<nat>, current: nat)
    ensures (forall b :: b in buckets ==> b != current && b < current + 93) ==> Chosen(buckets, current, 93) == None
  {
  }

  method PadBytes(e: Envelope, base: seq<Byte>, buckets: seq<nat>, tape: nat -> Byte) returns (out: seq<Byte>)
    requires base == ToBytes(e)
    ensures (forall b :: b in buckets ==> b != |base| && b < |base| + 93) ==> out == base
    ensures forall target :: IsLeast(target, buckets, |base|) ==> PaddedTo(out, e, tape, target)
  {
    hide ToBytes, PadOverhead, LargestFitting;
    var current := |base|;
    PadOverheadIs93();
    var overhead := PadOverhead();
    var candidates := Candidates(buckets, current);
    var i := 0;
    while i < |candidates|
      invariant 0 <= i <= |candidates|
      invariant forall k :: 0 <= k < i ==> !Admits(candidates[k], current, overhead)
    {
      var target := candidates[i];
      if target == current {
        ChosenIs(buckets, candidates, i, current, overhead);
        PaddedAsChosen(base, e, base, buckets, tape);
        return base;
      }
      var len := PadRandomLen(current, target, overhead);
      if len.Some? {
        ChosenIs(buckets, candidates, i, current, overhead);
        var payload := Noise(tape, len.value);
        PadLands(e, payload, target);
        out := ToBytesRun(WithPad(e, payload));
        PaddedAsChosen(out, e, base, buckets, tape);
        return;
      }
      i := i + 1;
    }
    out := base;
    PaddedAsChosen(out, e, base, buckets, tape);
  }

  /** The first admitting candidate in ascending order is the least one. */
  lemma {:induction false} ChosenIs(buckets: seq<nat>, candidates: seq<nat>, i: nat, current: nat, overhead: int)
    requires candidates == Candidates(buckets, current) && i < |candidates|
    requires Admits(candidates[i], current, overhead)
    requires forall k :: 0 <= k < i ==> !Admits(candidates[k], current, overhead)
    ensures Chosen(buckets, current, overhead) == Some(candidates[i])
  {
    assert candidates[i] in buckets;
    var least := Chosen(buckets, current, overhead).value;
    assert least in candidates;
    var k :| 0 <= k < |candidates| && candidates[k] == least;
  }

  // ----- padding is invisible to the receiver

  /** A padded envelope parses to the original items and the padding item, and yields the same sealed payload. */
  lemma {:induction false} PaddedParses(e: Envelope, payload: seq<Byte>)
    requires |ToBytes(WithPad(e, payload))| <= USIZE_MAX
    ensures var pad := EnvelopeItem("attachment", None, Some("_pad"), Some("application/octet-stream"), payload);
            FromBytes(ToBytes(WithPad(e, payload))) == Ok(Envelope(e.eventId, e.items + [pad]))
    ensures SealedPayload(WithPad(e, payload).items) == SealedPayload(e.items)
  {
    hide FromBytes, ToBytes, SealedPayload, IsSealedItem;
    RoundTrip(WithPad(e, payload));
    PadNotSealed(payload);
    SealedPayloadUnaffected(e.items, [PadItem(payload)]);
  }

  lemma {:induction false} PadNotSealed(payload: seq<Byte>)
    ensures !IsSealedItem(PadItem(payload))
  {
  }

  // ----- the framing, computed

  lemma {:induction false} PlainLen(s: string)
    requires Plain(s)
    ensures Utf8.ByteLen(PrintString(s)) == |s| + 2
  {
    PlainEscaped(s);
    PlainBytes(s);
    Utf8.EncodeCons('"', s + "\"");
    Utf8.EncodeConcat(s, "\"");
    assert "\""[1..] == "";
    assert PrintString(s) == ['"'] + (s + "\"");
  }

  lemma {:induction false} PlainBytes(s: string)
    requires Plain(s)
    ensures Utf8.ByteLen(s) == |s|
  {
    if s != "" {
      PlainBytes(s[1..]);
    }
  }

  /** The framing of a padding item is 93 bytes. */
  lemma {:induction false} PadOverheadIs93()
    ensures PadOverhead() == 93
  {
    hide PrintField, PrintObject, Utf8.ByteLen, FieldsLen;
    var c, f := Field("content_type", Str(PAD_CONTENT_TYPE)), Field("filename", Str(PAD_NAME));
    var l, t := Field("length", Num(0)), Field("type", Str("attachment"));
    PadFieldLens();
    ZeroLengthField();
    ObjectLen(MapFields(PadItem([]), 0));
    assert MapFields(PadItem([]), 0) == [c, f] + [l, t];
    FieldsLenConcat([c, f], [l, t]);
    PairLen(c, f);
    PairLen(l, t);
  }

  lemma {:induction false} PadFieldLens()
    ensures Utf8.ByteLen(PrintField(Field("content_type", Str(PAD_CONTENT_TYPE)))) == 41
    ensures Utf8.ByteLen(PrintField(Field("filename", Str(PAD_NAME)))) == 17
    ensures Utf8.ByteLen(PrintField(Field("type", Str("attachment")))) == 19
  {
    hide PrintField, Utf8.ByteLen;
    PlainFieldLen("content_type", PAD_CONTENT_TYPE);
    PlainFieldLen("filename", PAD_NAME);
    PlainFieldLen("type", "attachment");
  }

  lemma {:induction false} ZeroLengthField()
    ensures Utf8.ByteLen(PrintField(Field("length", Num(0)))) == 10
  {
    var zero := PrintNat(0);
    assert |zero| == 1;
    hide PrintString, PrintNat, Utf8.Encode;
    assert Plain("length");
    PlainLen("length");
    DigitsAscii(zero);
    ColonLen(PrintString("length"), zero);
  }

  lemma {:induction false} ColonLen(key: string, v: string)
    ensures Utf8.ByteLen(key + ":" + v) == Utf8.ByteLen(key) + 1 + Utf8.ByteLen(v)
  {
    Utf8.EncodeConcat(key + ":", v);
    Utf8.EncodeConcat(key, ":");
    assert ":"[1..] == "" && Utf8.Encode("") == [];
    assert Utf8.Encode(":") == Utf8.EncodeChar(':') + [];
  }

  lemma {:induction false} PlainFieldLen(key: string, v: string)
    requires Plain(key) && Plain(v)
    ensures Utf8.ByteLen(PrintField(Field(key, Str(v)))) == |key| + |v| + 5
  {
    PlainLen(key);
    PlainLen(v);
    hide PrintString, Utf8.Encode;
    ColonLen(PrintString(key), PrintString(v));
  }
}
