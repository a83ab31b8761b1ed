/**
 The HTTP/1.1 exchange (`http.rs`): a response is read in chunks of whatever
 sizes the stream delivers, up to the end of the status line or a cap, and is
 reduced to a status code (status line: section 4 of RFC 9112).
 */
module Http {
  import opened Text
  import opened Bytes
  import opened Json
  import Utf8

  const MAX_RESPONSE_BYTES: nat := 65536

  datatype HttpOutcome = Accepted | Rejected(code: nat)

  datatype HttpError = WriteFailed | ReadFailed | BadStatusLine

  datatype HttpResult = Ok(outcome: HttpOutcome) | Err(error: HttpError)

  // ----- the status line

  predicate CrlfAt(bs: seq<Byte>, i: nat) {
    i + 1 < |bs| && bs[i] == 13 && bs[i + 1] == 10
  }

  /** The first CRLF at or after `i`. */
  function CrlfFrom(bs: seq<Byte>, i: nat): (r: Option<nat>)
    requires i <= |bs|
    ensures r.Some? ==> r.value >= i && CrlfAt(bs, r.value)
    ensures forall j :: i <= j && (r.None? || j < r.value) ==> !CrlfAt(bs, j)
    decreases |bs| - i
  {
    if i == |bs| then None else if CrlfAt(bs, i) then Some(i) else CrlfFrom(bs, i + 1)
  }

  function FirstCrlf(bs: seq<Byte>): Option<nat> {
    CrlfFrom(bs, 0)
  }

  /** The first line, without its line end; everything when there is none. */
  function FirstLine(bs: seq<Byte>): seq<Byte> {
    match FirstCrlf(bs)
    case Some(n) => bs[..n]
    case None => bs
  }

  /** `str::parse::<u16>`: digits, with an optional plus sign, up to 65535. */
  function ParseU16(s: string): Option<nat> {
    var ds := if s != "" && s[0] == '+' then s[1..] else s;
    if ds == "" || !AllDigits(ds) || NatOf(ds) > 0xFFFF then None else Some(NatOf(ds))
  }

  function ParseStatusText(text: string): Option<nat> {
    var parts := SplitWhitespace(text);
    if |parts| < 2 || !("HTTP/" <= parts[0]) then None else ParseU16(parts[1])
  }

  function ParseStatusLine(line: seq<Byte>): Option<nat> {
    match Utf8.Decode(line)
    case None => None
    case Some(text) => ParseStatusText(text)
  }

  function ParseStatusCode(response: seq<Byte>): Option<nat> {
    ParseStatusLine(FirstLine(response))
  }

  function Outcome(response: seq<Byte>): HttpResult {
    match ParseStatusCode(response)
    case None => Err(BadStatusLine)
    case Some(code) => Ok(if 200 <= code < 300 then Accepted else Rejected(code))
  }

  // ----- reading

  /** One read: some bytes (none at the end of the stream), or a failure. */
  datatype Read = Chunk(bytes: seq<Byte>) | Broken

  /** The reads a stream answers with; past the end of the list it stays at its end. */
  type Stream = seq<Read>

  /** The buffer the reading loop ends with, if no read fails before it ends. */
  function Collected(stream: Stream, buf: seq<Byte>): Option<seq<Byte>>
    decreases |stream|
  {
    if stream == [] then Some(buf)
    else if stream[0].Broken? then None
    else if stream[0].bytes == [] then Some(buf)
    else
      var more := buf + stream[0].bytes;
      if FirstCrlf(more).Some? || |more| >= MAX_RESPONSE_BYTES then Some(more)
      else Collected(stream[1..], more)
  }

  function Exchange(written: bool, stream: Stream): HttpResult {
    if !written then Err(WriteFailed)
    else
      match Collected(stream, [])
      case None => Err(ReadFailed)
      case Some(buf) => Outcome(buf)
  }

  method HasCrlf(bs: seq<Byte>) returns (found: bool)
    ensures found == FirstCrlf(bs).Some?
  {
    var i := 0;
    while i + 1 < |bs|
      invariant 0 <= i <= |bs|
      invariant FirstCrlf(bs) == CrlfFrom(bs, i)
    {
      if bs[i] == 13 && bs[i + 1] == 10 {
        return true;
      }
      i := i + 1;
    }
    assert CrlfFrom(bs, i).None?;
    found := false;
  }

  method PostEnvelope(written: bool, stream: Stream) returns (r: HttpResult)
    ensures r == Exchange(written, stream)
  {
    hide Outcome, FirstCrlf;
    if !written {
      return Err(WriteFailed);
    }
    var buf: seq<Byte> := [];
    var i := 0;
    while i < |stream|
      invariant 0 <= i <= |stream|
      invariant Collected(stream, []) == Collected(stream[i..], buf)
    {
      if stream[i].Broken? {
        return Err(ReadFailed);
      }
      var n := |stream[i].bytes|;
      if n == 0 {
        break;
      }
      buf := buf + stream[i].bytes;
      var complete := HasCrlf(buf);
      if complete || |buf| >= MAX_RESPONSE_BYTES {
        return Outcome(buf);
      }
      i := i + 1;
      assert stream[i - 1..][1..] == stream[i..];
    }
    r := Outcome(buf);
  }

  // ----- the outcome does not depend on how the response was cut into reads

  /** Everything the stream delivers before it ends or fails. */
  function Delivered(stream: Stream): seq<Byte> {
    if stream == [] || stream[0].Broken? || stream[0].bytes == [] then []
    else stream[0].bytes + Delivered(stream[1..])
  }

  predicate NeverBreaks(stream: Stream) {
    stream == [] || (stream[0].Chunk? && (stream[0].bytes == [] || NeverBreaks(stream[1..])))
  }

  lemma {:induction false} FirstCrlfIs(bs: seq<Byte>, n: nat)
    requires CrlfAt(bs, n) && forall j :: 0 <= j < n ==> !CrlfAt(bs, j)
    ensures FirstCrlf(bs) == Some(n)
  {
  }

  /** A buffer cut off behind the first line end has the same first line as the whole. */
  lemma {:induction false} PrefixLine(buf: seq<Byte>, rest: seq<Byte>)
    requires FirstCrlf(buf).Some?
    ensures FirstLine(buf + rest) == FirstLine(buf)
  {
    var n := FirstCrlf(buf).value;
    var bs := buf + rest;
    forall j | 0 <= j < n ensures !CrlfAt(bs, j) {
      assert !CrlfAt(buf, j);
    }
    assert CrlfAt(bs, n);
    FirstCrlfIs(bs, n);
    assert bs[..n] == buf[..n];
  }

  /** A buffer too short to hold the first line end does not show one. */
  lemma {:induction false} NoLineYet(buf: seq<Byte>, rest: seq<Byte>)
    requires FirstCrlf(buf).Some?
    ensures FirstCrlf(buf + rest).Some? && FirstCrlf(buf + rest).value + 2 <= |buf|
  {
    var n := FirstCrlf(buf).value;
    assert CrlfAt(buf + rest, n);
  }

  lemma {:induction false} CollectedLine(stream: Stream, buf: seq<Byte>)
    requires FirstCrlf(buf).None? && |buf| < MAX_RESPONSE_BYTES
    requires var all := FirstCrlf(buf + Delivered(stream));
             || (all.Some? && all.value + 2 <= MAX_RESPONSE_BYTES)
             || (NeverBreaks(stream) && |buf + Delivered(stream)| <= MAX_RESPONSE_BYTES)
    ensures Collected(stream, buf).Some?
    ensures FirstLine(Collected(stream, buf).value) == FirstLine(buf + Delivered(stream))
    decreases |stream|
  {
    hide FirstCrlf, FirstLine;
    if stream == [] || stream[0].Broken? || stream[0].bytes == [] {
      assert buf + Delivered(stream) == buf;
    } else {
      var more, rest := buf + stream[0].bytes, Delivered(stream[1..]);
      assert buf + Delivered(stream) == more + rest;
      if FirstCrlf(more).Some? {
        PrefixLine(more, rest);
      } else if |more| >= MAX_RESPONSE_BYTES {
        CapReached(more, rest);
        assert more + rest == more;
      } else {
        CollectedLine(stream[1..], more);
      }
    }
  }

  /** A full buffer without a line end cannot be a proper part of a response whose line ends within the cap. */
  lemma {:induction false} CapReached(more: seq<Byte>, rest: seq<Byte>)
    requires FirstCrlf(more).None? && |more| >= MAX_RESPONSE_BYTES
    requires var all := FirstCrlf(more + rest);
             || (all.Some? && all.value + 2 <= MAX_RESPONSE_BYTES)
             || |more + rest| <= MAX_RESPONSE_BYTES
    ensures rest == []
  {
    assert forall i: nat :: CrlfAt(more + rest, i) && i + 1 < |more| ==> CrlfAt(more, i);
  }

  /**
   If the first line ends within the cap, or the stream ends without exceeding
   it, then whatever the sizes of the reads the outcome is that of the first line.
   */
  lemma {:induction false} ReadsDoNotMatter(stream: Stream)
    requires var all := FirstCrlf(Delivered(stream));
             || (all.Some? && all.value + 2 <= 65536)
             || (NeverBreaks(stream) && |Delivered(stream)| <= 65536)
    ensures Exchange(true, stream) == Outcome(Delivered(stream))
  {
    assert [] + Delivered(stream) == Delivered(stream);
    CollectedLine(stream, []);
    hide FirstLine, Collected, Delivered, ParseStatusLine;
  }

  lemma {:induction false} BrokenCollects(stream: Stream, buf: seq<Byte>)
    requires FirstCrlf(buf + Delivered(stream)).None? && |buf + Delivered(stream)| < MAX_RESPONSE_BYTES
    requires !NeverBreaks(stream)
    ensures Collected(stream, buf).None?
    decreases |stream|
  {
    hide FirstCrlf;
    if stream[0].Chunk? && stream[0].bytes != [] {
      var more, rest := buf + stream[0].bytes, Delivered(stream[1..]);
      assert buf + Delivered(stream) == more + rest;
      if FirstCrlf(more).Some? {
        NoLineYet(more, rest);
      }
      BrokenCollects(stream[1..], more);
    }
  }

  /** A stream that breaks before the line end, with less than 64 KiB delivered, is a read failure; so is a failed write one of its own. */
  lemma {:induction false} EarlyBreakFails(stream: Stream)
    requires FirstCrlf(Delivered(stream)).None? && |Delivered(stream)| < 65536
    requires !NeverBreaks(stream)
    ensures Exchange(true, stream) == Err(ReadFailed)
    ensures Exchange(false, stream) == Err(WriteFailed)
  {
    hide FirstCrlf, Collected, Outcome;
    assert [] + Delivered(stream) == Delivered(stream);
    BrokenCollects(stream, []);
  }

  lemma {:induction false} FullCollects(stream: Stream, buf: seq<Byte>)
    requires FirstCrlf(buf + Delivered(stream)).None? && |buf + Delivered(stream)| >= MAX_RESPONSE_BYTES
    requires |buf| < MAX_RESPONSE_BYTES
    ensures var c := Collected(stream, buf);
            c.Some? && |c.value| >= MAX_RESPONSE_BYTES && c.value <= buf + Delivered(stream)
    decreases |stream|
  {
    hide FirstCrlf;
    if stream != [] && stream[0].Chunk? && stream[0].bytes != [] {
      var more, rest := buf + stream[0].bytes, Delivered(stream[1..]);
      assert buf + Delivered(stream) == more + rest;
      if FirstCrlf(more).Some? {
        NoLineYet(more, rest);
      } else if |more| < MAX_RESPONSE_BYTES {
        FullCollects(stream[1..], more);
      }
    }
  }

  /** With 64 KiB and no line end the reading stops and decides, whatever the stream does after that. */
  lemma {:induction false} FullBufferDecides(stream: Stream) returns (buf: seq<Byte>)
    requires FirstCrlf(Delivered(stream)).None? && |Delivered(stream)| >= 65536
    ensures |buf| >= 65536 && buf <= Delivered(stream) && Exchange(true, stream) == Outcome(buf)
  {
    hide FirstCrlf, Collected, Outcome;
    assert [] + Delivered(stream) == Delivered(stream);
    FullCollects(stream, []);
    buf := Collected(stream, []).value;
  }

  // ----- what a status line says

  predicate IsVersion(v: string) {
    "HTTP/" <= v
  }

  lemma {:induction false} ParseU16Back(n: nat)
    requires n <= 0xFFFF
    ensures ParseU16(PrintNat(n)) == Some(n)
  {
    NatBack(n);
    assert Digit.Has(PrintNat(n)[0]);
  }

  lemma {:induction false} DigitsAreAWord(s: string)
    requires s != "" && All(s, Digit)
    ensures IsWord(s)
  {
    forall i | 0 <= i < |s| ensures !IsWhitespace(s[i]) {
      assert Digit.Has(s[i]);
    }
  }

  lemma {:induction false} ParseU16Is(n: nat, plus: bool)
    ensures ParseU16((if plus then "+" else "") + PrintNat(n)) == if n <= 65535 then Some(n) else None
  {
    var ds := PrintNat(n);
    NatBack(n);
    assert Digit.Has(ds[0]);
    hide PrintNat, NatOf;
    assert "" + ds == ds && ("+" + ds)[1..] == ds;
  }

  lemma {:induction false} NotANumber(w: string)
    requires IsWord(w) && exists i :: 0 <= i < |w| && !('0' <= w[i] <= '9') && (i > 0 || w[i] != '+')
    ensures ParseU16(w) == None
  {
    var i :| 0 <= i < |w| && !('0' <= w[i] <= '9') && (i > 0 || w[i] != '+');
    var ds := if w[0] == '+' then w[1..] else w;
    var j := if w[0] == '+' then i - 1 else i;
    assert w[0] != '+' || i > 0;
    assert ds[j] == w[i] && !Digit.Has(ds[j]);
  }

  /**
   What is not understood: one word alone, a first word that is no HTTP version, a second that is no
   number (a plus sign is allowed), or one above 65535.
   */
  lemma {:induction false} StatusTextIs(first: string, second: string, reason: string)
    requires IsWord(first) && IsWord(second) && (reason == "" || IsWhitespace(reason[0]))
    ensures ParseStatusText(first) == None
    ensures ParseStatusText(first + " " + second + reason) == if "HTTP/" <= first then ParseU16(second) else None
  {
    hide SplitWhitespace, ParseU16, IsWord;
    NothingSplit();
    assert "" + first + "" == first;
    SplitHead("", first, "");
    var rest := " " + second + reason;
    assert rest[0] == ' ';
    assert first + " " + second + reason == "" + first + rest;
    SplitHead("", first, rest);
    SplitHead(" ", second, reason);
  }

  lemma {:induction false} NothingSplit()
    ensures SplitWhitespace("") == []
  {
    LeadIs("", Blank, 0, 0);
  }

  /** `version SP code [SP reason]` is read as its code, whatever the reason phrase. */
  lemma {:induction false} StatusTextBack(version: string, code: nat, reason: string)
    requires IsVersion(version) && IsWord(version) && code <= 0xFFFF
    requires reason == "" || IsWhitespace(reason[0])
    ensures ParseStatusText(version + " " + PrintNat(code) + reason) == Some(code)
  {
    var digits := PrintNat(code);
    var rest := " " + digits + reason;
    DigitsAreAWord(digits);
    hide PrintNat, NatOf, SplitWhitespace;
    assert rest[0] == ' ';
    assert version + " " + digits + reason == "" + version + rest;
    SplitHead("", version, rest);
    SplitHead(" ", digits, reason);
    ParseU16Back(code);
  }

  /** Nothing behind the status line's end has a say: the outcome is accepted exactly for the 2xx codes. */
  lemma {:induction false} StatusLineDecides(version: string, code: nat, reason: string, behind: seq<Byte>)
    requires IsVersion(version) && IsWord(version) && code <= 0xFFFF
    requires OneLine(reason) && (reason == "" || IsWhitespace(reason[0]))
    ensures var response := Utf8.Encode(version + " " + PrintNat(code) + reason) + [13, 10] + behind;
            Outcome(response) == Ok(if 200 <= code < 300 then Accepted else Rejected(code))
  {
    var text := version + " " + PrintNat(code) + reason;
    var line := Utf8.Encode(text);
    DigitsAreAWord(PrintNat(code));
    Utf8.OneLineBytes(text);
    hide PrintNat, ParseStatusText, Utf8.Encode;
    FirstLineIs(line, behind);
    Utf8.DecodeEncode(text);
    StatusTextBack(version, code, reason);
  }

  lemma {:induction false} FirstLineIs(line: seq<Byte>, behind: seq<Byte>)
    requires forall i :: 0 <= i < |line| - 1 ==> !(line[i] == 13 && line[i + 1] == 10)
    ensures FirstLine(line + [13, 10] + behind) == line
  {
    var response := line + [13, 10] + behind;
    forall j | 0 <= j < |line| ensures !CrlfAt(response, j) {
      assert response[j] == line[j];
      assert response[j + 1] == if j + 1 < |line| then line[j + 1] else 13;
    }
    FirstCrlfIs(response, |line|);
    assert response[..|line|] == line;
  }
}
