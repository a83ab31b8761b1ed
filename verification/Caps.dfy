/**
 The size caps of the sanitizer: bytes per field, lines per body, and the byte
 cursor that truncates at a character boundary.
 */
module Caps {
  import opened Text
  import opened Marking
  import opened Utf8
  import opened Bytes
  import opened Sanitize
  import Tokens
  import Paths
  import Replacing
  import FreeText
  import Leaks

  // ----- bytes

  lemma {:induction false} AsciiLength(s: string)
    requires forall i :: 0 <= i < |s| ==> IsAscii(s[i])
    ensures ByteLen(s) == |s|
  {
    if s != "" {
      AsciiLength(s[1..]);
    }
  }

  lemma {:induction false} MarkerLength()
    ensures ByteLen([ELLIPSIS] + TRUNCATED) == 14
  {
    AsciiLength(TRUNCATED);
    assert ([ELLIPSIS] + TRUNCATED)[1..] == TRUNCATED;
  }

  /**
   The cap holds for every field, except that a cap below the marker's own length
   yields the bare marker: the bound is exceeded exactly when it has to truncate
   under a cap smaller than 14.
   */
  lemma {:induction false} CapHolds(s: string, max: nat)
    ensures var n := ByteLen(CapBytes(s, max));
            && n <= (if max >= 14 then max else if ByteLen(s) <= max then max else 14)
            && (n <= max <==> ByteLen(s) <= max || max >= 14)
  {
    hide Encode, Fit;
    if ByteLen(s) > max {
      var head := s[..Fit(s, if max >= 14 then max - 14 else 0)];
      var mark := [ELLIPSIS] + TRUNCATED;
      MarkerLength();
      EncodeConcat(head, mark);
      assert head + [ELLIPSIS] + TRUNCATED == head + mark;
    }
  }

  /** Text within the cap is kept; otherwise the longest prefix that leaves room for the marker, cut between characters. */
  lemma {:induction false} CapKeepsMost(s: string, max: nat) returns (k: nat)
    ensures ByteLen(s) <= max ==> CapBytes(s, max) == s
    ensures ByteLen(s) > max ==>
      && k < |s| && CapBytes(s, max) == s[..k] + [ELLIPSIS] + TRUNCATED
      && (max >= 14 ==> ByteLen(s[..k]) + 14 <= max < ByteLen(s[..k + 1]) + 14)
      && (max < 14 ==> k == 0)
  {
    MarkerLength();
    k := Fit(s, if max >= 14 then max - 14 else 0);
    assert s[..|s|] == s;
    OnlyEmptyIsEmpty(s[..k]);
  }

  lemma {:induction false} OnlyEmptyIsEmpty(s: string)
    ensures ByteLen(s) == 0 <==> s == ""
  {
  }

  /** Every scrubbed field and backtrace is within the cap, or within the marker's own 14 bytes when the cap is smaller. */
  lemma {:induction false} FieldsCapped(s: string, z: Sanitizer)
    ensures var bound := if z.caps.maxFieldBytes >= 14 then z.caps.maxFieldBytes else 14;
            ByteLen(ScrubField(s, z)) <= bound && ByteLen(ScrubBacktrace(s, z)) <= bound
  {
    hide CapBytes;
    CapHolds(FreeText.RedactFreeText(StripIdentity(s, z), z.isSensitive), z.caps.maxFieldBytes);
    CapHolds(Join(ScrubLines(Take(Lines(s), z.caps.maxLines), z), "\n"), z.caps.maxFieldBytes);
  }

  // ----- lines

  function Newlines(s: string): nat {
    if s == "" then 0 else (if s[0] == '\n' then 1 else 0) + Newlines(s[1..])
  }

  lemma {:induction false} NewlinesConcat(a: string, b: string)
    ensures Newlines(a + b) == Newlines(a) + Newlines(b)
  {
    if a == "" {
      assert a + b == b;
    } else {
      assert (a + b)[1..] == a[1..] + b;
      NewlinesConcat(a[1..], b);
    }
  }

  lemma {:induction false} NoNewlines(s: string)
    requires '\n' !in s
    ensures Newlines(s) == 0
  {
    if s != "" {
      NoNewlines(s[1..]);
    }
  }

  lemma {:induction false} LinesCounted(s: string)
    ensures |Lines(s)| <= Newlines(s) + 1 && (s == "" ==> |Lines(s)| == 0)
    decreases |s|
  {
    if s != "" {
      var r := Find(s, "\n");
      if r.Some? {
        var n := r.value;
        LinesCounted(s[n + 1..]);
        assert s[n..n + 1] == "\n";
        assert s == s[..n] + ("\n" + s[n + 1..]);
        NewlinesConcat(s[..n], "\n" + s[n + 1..]);
        assert ("\n" + s[n + 1..])[1..] == s[n + 1..];
      }
    }
  }

  lemma {:induction false} JoinNewlines(ls: seq<string>)
    requires forall i :: 0 <= i < |ls| ==> '\n' !in ls[i]
    ensures Newlines(Join(ls, "\n")) <= (if |ls| == 0 then 0 else |ls| - 1)
  {
    if |ls| == 1 {
      NoNewlines(ls[0]);
    } else if |ls| > 1 {
      var rest := Join(ls[1..], "\n");
      JoinNewlines(ls[1..]);
      NoNewlines(ls[0]);
      NewlinesConcat(ls[0] + "\n", rest);
      NewlinesConcat(ls[0], "\n");
    }
  }

  lemma {:induction false} CapNewlines(s: string, max: nat)
    ensures Newlines(CapBytes(s, max)) <= Newlines(s)
  {
    hide Fit, Newlines, Encode;
    if ByteLen(s) > max {
      var head := s[..Fit(s, if max >= 14 then max - 14 else 0)];
      var tail := s[|head|..];
      NewlinesConcat(head, tail);
      assert s == head + tail;
      MarkerNewlines(head);
    }
  }

  lemma {:induction false} MarkerNewlines(head: string)
    ensures Newlines(head + [ELLIPSIS] + TRUNCATED) == Newlines(head)
  {
    hide Newlines;
    NewlinesConcat(head + [ELLIPSIS], TRUNCATED);
    NewlinesConcat(head, [ELLIPSIS]);
    NoNewlines(TRUNCATED);
    NoNewlines([ELLIPSIS]);
  }

  lemma {:induction false} StripIdentityNewline(s: string, z: Sanitizer)
    requires '\n' in StripIdentity(s, z)
    ensures '\n' in s
  {
    Leaks.PlaceholdersAreMarkers();
    var t := StripHome(s, z.identity);
    var u := StripToken(t, z.identity.hostname, HOST_PLACEHOLDER);
    var v := StripToken(u, z.identity.username, USER_PLACEHOLDER);
    var w := Paths.AnchorRoots(v, z.Roots());
    Paths.DropRewrites(None, w);
    RewriteNewline(w, Paths.DropPaths(w));
    Paths.AnchorPathsNewline(v, z.Roots());
    StripTokenNewline(u, z.identity.username, USER_PLACEHOLDER);
    StripTokenNewline(t, z.identity.hostname, HOST_PLACEHOLDER);
    if z.identity.home.Some? {
      ReplaceHomeNewline(s, z.identity.home.value);
    }
  }

  lemma {:induction false} StripTokenNewline(s: string, tok: Option<string>, mark: string)
    requires IsMarker(mark) && '\n' in StripToken(s, tok, mark)
    ensures '\n' in s
  {
    if tok.Some? {
      Tokens.ReplaceTokenRewrites(s, tok.value, mark);
      RewriteNewline(s, StripToken(s, tok, mark));
    }
  }

  lemma {:induction false} ReplaceHomeNewline(s: string, home: string)
    requires '\n' in ReplacePathPrefixes(s, home, HOME_PLACEHOLDER)
    ensures '\n' in s
  {
    Leaks.PlaceholdersAreMarkers();
    if home != "" {
      var alt := Paths.ForwardSlashes(home);
      var t := Replacing.Replace(s, home, HOME_PLACEHOLDER);
      Replacing.ReplaceRewrites(s, home, HOME_PLACEHOLDER);
      if alt != home {
        Replacing.ReplaceRewrites(t, alt, HOME_PLACEHOLDER);
        RewriteNewline(t, Replacing.Replace(t, alt, HOME_PLACEHOLDER));
      }
      RewriteNewline(s, t);
    }
  }

  lemma {:induction false} ScrubLineNoNewline(line: string, z: Sanitizer)
    requires '\n' !in line
    ensures '\n' !in ScrubLine(line, z)
  {
    hide StripIdentity, IsFrameSymbolLine, IsSafeShape;
    var stripped := StripIdentity(line, z);
    if '\n' in stripped { StripIdentityNewline(line, z); }
    if '\n' in FreeText.RedactFreeText(stripped, z.isSensitive) {
      FreeText.RedactFreeTextNewline(stripped, z.isSensitive);
    }
  }

  /** A scrubbed body never has more lines than the cap allows. */
  lemma {:induction false} BacktraceLinesCapped(s: string, z: Sanitizer)
    ensures |Lines(ScrubBacktrace(s, z))| <= z.caps.maxLines
  {
    hide ScrubLine, CapBytes, Newlines, Lines;
    var ls := Take(Lines(s), z.caps.maxLines);
    var out := ScrubLines(ls, z);
    forall i | 0 <= i < |out| ensures '\n' !in out[i] {
      ScrubLineNoNewline(ls[i], z);
    }
    var joined := Join(out, "\n");
    JoinNewlines(out);
    CapNewlines(joined, z.caps.maxFieldBytes);
    LinesCounted(ScrubBacktrace(s, z));
    if |out| == 0 {
      CapEmpty(z.caps.maxFieldBytes);
    }
  }

  lemma {:induction false} CapEmpty(max: nat)
    ensures CapBytes("", max) == ""
  {
  }

  // ----- the byte cursor

  /** `str::is_char_boundary`. */
  predicate IsCharBoundary(bs: seq<Byte>, i: nat)
    requires i <= |bs|
  {
    i == 0 || i == |bs| || !IsContinuation(bs[i])
  }

  /** Byte positions that are no boundary lie strictly inside a character. */
  lemma {:induction false} BoundaryIsCursor(bs: seq<Byte>, s: string, i: nat, k: nat)
    requires bs == Encode(s) && k < |s|
    requires |Encode(s[..k])| < i < |Encode(s[..k + 1])|
    ensures i < |bs| && !IsCharBoundary(bs, i)
  {
    var a := |Encode(s[..k])|;
    EncodedShape(s[k]);
    EncodeSplit(s, k + 1);
    EncodeStep(s, k);
    assert bs[i] == EncodeChar(s[k])[i - a];
  }

  lemma {:induction false} CursorIsBoundary(bs: seq<Byte>, s: string, i: nat, k: nat)
    requires Cursor(bs, s, i, k)
    ensures i <= |bs| && IsCharBoundary(bs, i)
  {
    CursorTail(bs, s, i, k);
    if k < |s| {
      ByteAt(bs, s, i, k);
      EncodedShape(s[k]);
    }
  }

  /** The loop `while end > 0 && !s.is_char_boundary(end) { end -= 1 }`, and the marker. */
  method CapBytesLoop(bs: seq<Byte>, max: nat, marker: seq<Byte>, ghost s: string) returns (out: seq<Byte>)
    requires bs == Encode(s) && marker == Encode([ELLIPSIS] + TRUNCATED)
    ensures out == Encode(CapBytes(s, max))
  {
    hide Encode;
    MarkerLength();
    if |bs| <= max {
      return bs;
    }
    var budget := if max >= |marker| then max - |marker| else 0;
    ghost var k := Fit(s, budget);
    var end := budget;
    CursorTail(bs, s, |Encode(s[..k])|, k);
    while end > 0 && !IsCharBoundary(bs, end)
      invariant |Encode(s[..k])| <= end <= budget
    {
      if end == |Encode(s[..k])| {
        CursorIsBoundary(bs, s, end, k);
      }
      end := end - 1;
    }
    FloorFound(bs, s, budget, end);
    EncodeConcat(s[..k], [ELLIPSIS] + TRUNCATED);
    assert s[..k] + [ELLIPSIS] + TRUNCATED == s[..k] + ([ELLIPSIS] + TRUNCATED);
    out := bs[..end] + marker;
  }

  /** A boundary between the longest fitting prefix and the budget is the end of that prefix. */
  lemma {:induction false} FloorFound(bs: seq<Byte>, s: string, budget: nat, end: nat)
    requires bs == Encode(s) && budget < |bs|
    requires |Encode(s[..Fit(s, budget)])| <= end <= budget && IsCharBoundary(bs, end)
    ensures end == |Encode(s[..Fit(s, budget)])| && bs[..end] == Encode(s[..Fit(s, budget)])
  {
    hide Fit, Encode, IsCharBoundary;
    var k := Fit(s, budget);
    EncodeSplit(s, k);
    assert s[..|s|] == s;
    if |Encode(s[..k])| < end {
      BoundaryIsCursor(bs, s, end, k);
    }
  }

  // ----- the sanitizer as it runs

  method StripIdentityRun(input: string, z: Sanitizer) returns (out: string)
    ensures out == StripIdentity(input, z)
  {
    var s := input;
    if z.identity.home.Some? && z.identity.home.value != "" {
      s := ReplacePathPrefixes(s, z.identity.home.value, HOME_PLACEHOLDER);
    }
    if z.identity.hostname.Some? && z.identity.hostname.value != "" {
      s := Tokens.ReplaceToken(s, z.identity.hostname.value, HOST_PLACEHOLDER);
    }
    if z.identity.username.Some? && z.identity.username.value != "" {
      s := Tokens.ReplaceToken(s, z.identity.username.value, USER_PLACEHOLDER);
    }
    out := Paths.AnchorPathsLoop(s, z.Roots());
  }

  method ScrubFieldRun(input: string, z: Sanitizer) returns (out: string)
    ensures out == ScrubField(input, z)
  {
    var stripped := StripIdentityRun(input, z);
    var redacted := FreeText.RedactFreeTextLoop(stripped, z.isSensitive);
    out := CapBytes(redacted, z.caps.maxFieldBytes);
  }

  method ScrubLineRun(line: string, z: Sanitizer) returns (out: string)
    ensures out == ScrubLine(line, z)
  {
    var stripped := StripIdentityRun(line, z);
    if IsFrameSymbolLine(Trim(stripped), z) {
      return stripped;
    }
    var redacted := FreeText.RedactFreeTextLoop(stripped, z.isSensitive);
    out := if IsSafeShape(redacted, z) then redacted else REDACTED_MARKER;
  }

  method ScrubBacktraceRun(input: string, z: Sanitizer) returns (out: string)
    ensures out == ScrubBacktrace(input, z)
  {
    hide ScrubLine, CapBytes, Lines;
    var lines := Take(Lines(input), z.caps.maxLines);
    var outLines: seq<string> := [];
    for i := 0 to |lines|
      invariant |outLines| == i && forall j :: 0 <= j < i ==> outLines[j] == ScrubLine(lines[j], z)
    {
      var l := ScrubLineRun(lines[i], z);
      outLines := outLines + [l];
    }
    assert outLines == ScrubLines(lines, z);
    out := CapBytes(Join(outLines, "\n"), z.caps.maxFieldBytes);
  }

  method SanitizeRun(report: Report, z: Sanitizer) returns (out: Report)
    ensures out == Sanitized(report, z)
  {
    hide ScrubField, ScrubBacktrace;
    var title := ScrubFieldRun(report.title, z);
    var body := ScrubBacktraceRun(report.body, z);
    var metadata: seq<(string, string)> := [];
    for i := 0 to |report.metadata|
      invariant |metadata| == i && forall j :: 0 <= j < i ==> metadata[j] == ScrubPair(report.metadata[j], z)
    {
      var k := ScrubFieldRun(report.metadata[i].0, z);
      var v := ScrubFieldRun(report.metadata[i].1, z);
      metadata := metadata + [(k, v)];
    }
    out := report.(title := title, body := body, metadata := metadata);
    assert out.metadata == Sanitized(report, z).metadata;
  }
}
