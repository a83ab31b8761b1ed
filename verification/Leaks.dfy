/**
 The privacy guarantees of the sanitizer over every input: the home path is gone
 from every previewable surface, and a scrubbed body has only safe lines.
 */
module Leaks {
  import opened Text
  import opened Marking
  import opened Replacing
  import opened Utf8
  import opened Sanitize
  import Tokens
  import Paths
  import Names
  import FreeText

  // ----- no stage re-creates the home path

  /** A home path: it has a separator, no ellipsis and no newline, and no marker overlaps it. */
  ghost predicate IsHomePath(p: string) {
    && IsForeign(p) && ELLIPSIS !in p && '\n' !in p
    && exists i :: 0 <= i < |p| && IsSeparator(p[i])
  }

  /** In particular every path without angle brackets. */
  lemma {:induction false} BracketFreeHomePath(p: string)
    requires '<' !in p && '>' !in p && ELLIPSIS !in p && '\n' !in p
    requires exists i :: 0 <= i < |p| && IsSeparator(p[i])
    ensures IsHomePath(p)
  {
    hide IsForeign;
    BracketFreeIsForeign(p);
  }

  /** An angle bracket does no harm by itself: no marker overlaps `/a<b`. */
  lemma {:induction false} LoneBracketHomePath()
    ensures IsHomePath("/a<b")
  {
    hide IsMarker;
    var p := "/a<b";
    assert IsSeparator(p[0]);
    forall m, j | IsMarker(m) && 0 <= j < |p| ensures !Meets(m, p[j..]) {
      MarkerShape(m);
      NoMarkerOnB(m);
      assert p[j..][0] == p[j];
      assert j == 2 ==> p[j..][1] == 'b';
    }
    forall m, i | IsMarker(m) && 0 <= i < |m| ensures !Meets(m[i..], p) {
      MarkerShape(m);
      assert m[i..][0] == m[i];
    }
  }

  lemma {:induction false} NoMarkerOnB(m: string)
    requires IsMarker(m)
    ensures |m| > 1 && m[1] != 'b'
  {
  }

  lemma {:induction false} ForwardSlashesHomePath(home: string)
    requires IsHomePath(home)
    ensures IsHomePath(Paths.ForwardSlashes(home))
  {
    hide IsForeign;
    var alt := Paths.ForwardSlashes(home);
    ForwardSlashesForeign(home);
    var i :| 0 <= i < |home| && IsSeparator(home[i]);
    assert IsSeparator(alt[i]);
  }

  /** Markers hold no separator, so turning separators around brings none closer. */
  lemma {:induction false} ForwardSlashesForeign(p: string)
    requires IsForeign(p)
    ensures IsForeign(Paths.ForwardSlashes(p))
  {
    hide IsMarker, Meets;
    var alt := Paths.ForwardSlashes(p);
    forall m, j | IsMarker(m) && 0 <= j < |alt| ensures !Meets(m, alt[j..]) {
      MarkerShape(m);
      MeetsTurned(m, p, j);
    }
    forall m, i | IsMarker(m) && 0 <= i < |m| ensures !Meets(m[i..], alt) {
      MarkerShape(m);
      MeetsTurned(m[i..], p, 0);
      assert alt[0..] == alt && p[0..] == p;
    }
  }

  lemma {:induction false} MeetsTurned(a: string, p: string, j: nat)
    requires j <= |p| && forall k :: 0 <= k < |a| ==> !IsSeparator(a[k])
    ensures Meets(a, Paths.ForwardSlashes(p)[j..]) ==> Meets(a, p[j..])
  {
    var alt, n := Paths.ForwardSlashes(p)[j..], |a|;
    forall k | 0 <= k < |alt| ensures alt[k] == if p[j + k] == '\\' then '/' else p[j + k] {
    }
    if a <= alt {
      assert forall k :: 0 <= k < n ==> a[k] == alt[k] == p[j..][k];
    }
    if alt <= a {
      assert forall k :: 0 <= k < |alt| ==> a[k] == alt[k] == p[j..][k];
    }
  }

  lemma {:induction false} PlaceholdersAreMarkers()
    ensures IsMarker(HOME_PLACEHOLDER) && IsMarker(USER_PLACEHOLDER) && IsMarker(HOST_PLACEHOLDER)
  {
  }

  /** Replacing the home prefix leaves neither of its two spellings. */
  lemma {:induction false} HomePrefixesGone(s: string, home: string)
    requires IsHomePath(home)
    ensures var t := ReplacePathPrefixes(s, home, HOME_PLACEHOLDER);
            !Occurs(home, t) && !Occurs(Paths.ForwardSlashes(home), t)
  {
    PlaceholdersAreMarkers();
    var alt := Paths.ForwardSlashes(home);
    ForwardSlashesHomePath(home);
    var t := Replace(s, home, HOME_PLACEHOLDER);
    ReplaceRemoves(s, home, HOME_PLACEHOLDER);
    if alt != home {
      ReplaceRemoves(t, alt, HOME_PLACEHOLDER);
      ReplaceRewrites(t, alt, HOME_PLACEHOLDER);
      if Occurs(home, Replace(t, alt, HOME_PLACEHOLDER)) {
        RewriteOccurs(t, Replace(t, alt, HOME_PLACEHOLDER), home);
      }
    }
  }

  lemma {:induction false} StripTokenOccurs(s: string, tok: Option<string>, mark: string, p: string)
    requires IsMarker(mark) && IsForeign(p) && Occurs(p, StripToken(s, tok, mark))
    ensures Occurs(p, s)
  {
    if tok.Some? {
      Tokens.ReplaceTokenRewrites(s, tok.value, mark);
      RewriteOccurs(s, StripToken(s, tok, mark), p);
    }
  }

  /** What the later identity stages leave, the home stage left. */
  lemma {:induction false} StripIdentityOccurs(s: string, z: Sanitizer, p: string)
    requires IsForeign(p) && Occurs(p, StripIdentity(s, z))
    ensures Occurs(p, StripHome(s, z.identity))
  {
    PlaceholdersAreMarkers();
    var t := StripHome(s, z.identity);
    var u := StripToken(t, z.identity.hostname, HOST_PLACEHOLDER);
    var v := StripToken(u, z.identity.username, USER_PLACEHOLDER);
    Paths.AnchorPathsOccurs(v, z.Roots(), p);
    StripTokenOccurs(u, z.identity.username, USER_PLACEHOLDER, p);
    StripTokenOccurs(t, z.identity.hostname, HOST_PLACEHOLDER, p);
  }

  /** `p` is the home path of `z` or its forward-slash form. */
  ghost predicate IsHomeSpelling(p: string, z: Sanitizer) {
    && z.identity.home.Some? && IsHomePath(z.identity.home.value)
    && (p == z.identity.home.value || p == Paths.ForwardSlashes(z.identity.home.value))
  }

  lemma {:induction false} StripIdentityNoHome(s: string, z: Sanitizer, p: string)
    requires IsHomeSpelling(p, z)
    ensures IsHomePath(p) && !Occurs(p, StripIdentity(s, z))
  {
    var home := z.identity.home.value;
    ForwardSlashesHomePath(home);
    HomePrefixesGone(s, home);
    if Occurs(p, StripIdentity(s, z)) {
      StripIdentityOccurs(s, z, p);
    }
  }

  /** Capping keeps a prefix and adds a marker no home path fits in. */
  lemma {:induction false} CapOccurs(s: string, max: nat, p: string)
    requires IsHomePath(p) && Occurs(p, CapBytes(s, max))
    ensures Occurs(p, s)
  {
    hide *;
    var cut, k := CapShape(s, max);
    if cut {
      HomePathHas(p);
      OccursAcross(s[..k], ELLIPSIS, TRUNCATED, p);
      MarkerHoldsNoPath(p);
      OccursInFront(s, k, p);
    }
  }

  lemma {:induction false} HomePathHas(p: string)
    requires IsHomePath(p)
    ensures p != "" && ELLIPSIS !in p && exists i :: 0 <= i < |p| && IsSeparator(p[i])
  {
    hide IsForeign;
  }

  lemma {:induction false} OccursInFront(s: string, k: nat, p: string)
    requires k <= |s| && Occurs(p, s[..k])
    ensures Occurs(p, s)
  {
    hide Occurs;
    OccursWithin("", s[..k], s[k..], p);
    assert s == "" + s[..k] + s[k..];
  }

  lemma {:induction false} CapShape(s: string, max: nat) returns (cut: bool, k: nat)
    ensures k <= |s|
    ensures CapBytes(s, max) == if cut then s[..k] + [ELLIPSIS] + TRUNCATED else s
  {
    hide Fit, ByteLen;
    cut, k := ByteLen(s) > max, Fit(s, if max >= 14 then max - 14 else 0);
  }

  lemma {:induction false} MarkerHoldsNoPath(p: string)
    requires exists i :: 0 <= i < |p| && IsSeparator(p[i])
    ensures !Occurs(p, TRUNCATED)
  {
    hide Occurs;
    NoSeparatorNoPath(TRUNCATED, p);
  }

  /** Text without separators holds no path. */
  lemma {:induction false} NoSeparatorNoPath(s: string, p: string)
    requires forall i :: 0 <= i < |s| ==> !IsSeparator(s[i])
    requires exists i :: 0 <= i < |p| && IsSeparator(p[i])
    ensures !Occurs(p, s)
  {
    var k :| 0 <= k < |p| && IsSeparator(p[k]);
    forall i ensures !At(s, p, i) {
      if 0 <= i && i + |p| <= |s| {
        Differs(s, p, i, k);
      }
    }
  }

  lemma {:induction false} ScrubFieldNoHome(s: string, z: Sanitizer, p: string)
    requires IsHomeSpelling(p, z)
    ensures !Occurs(p, ScrubField(s, z))
  {
    var stripped := StripIdentity(s, z);
    StripIdentityNoHome(s, z, p);
    var redacted := FreeText.RedactFreeText(stripped, z.isSensitive);
    if Occurs(p, ScrubField(s, z)) {
      CapOccurs(redacted, z.caps.maxFieldBytes, p);
      FreeText.RedactFreeTextOccurs(stripped, z.isSensitive, p);
    }
  }

  lemma {:induction false} ScrubLineNoHome(line: string, z: Sanitizer, p: string)
    requires IsHomeSpelling(p, z)
    ensures !Occurs(p, ScrubLine(line, z))
  {
    hide IsSafeShape, IsFrameSymbolLine, StripIdentity;
    var stripped := StripIdentity(line, z);
    StripIdentityNoHome(line, z, p);
    if Occurs(p, FreeText.RedactFreeText(stripped, z.isSensitive)) {
      FreeText.RedactFreeTextOccurs(stripped, z.isSensitive, p);
    }
    NoSeparatorNoPath(REDACTED_MARKER, p);
  }

  /** Joining with newlines creates nothing that has no newline. */
  lemma {:induction false} JoinOccurs(ls: seq<string>, p: string)
    requires p != "" && '\n' !in p && forall i :: 0 <= i < |ls| ==> !Occurs(p, ls[i])
    ensures !Occurs(p, Join(ls, "\n"))
  {
    if |ls| > 1 {
      JoinOccurs(ls[1..], p);
      if Occurs(p, Join(ls, "\n")) {
        OccursAcross(ls[0], '\n', Join(ls[1..], "\n"), p);
      }
    }
  }

  lemma {:induction false} ScrubBacktraceNoHome(s: string, z: Sanitizer, p: string)
    requires IsHomeSpelling(p, z)
    ensures !Occurs(p, ScrubBacktrace(s, z))
  {
    var ls := Take(Lines(s), z.caps.maxLines);
    var out := ScrubLines(ls, z);
    StripIdentityNoHome(s, z, p);
    forall i | 0 <= i < |out| ensures !Occurs(p, out[i]) {
      ScrubLineNoHome(ls[i], z, p);
    }
    JoinOccurs(out, p);
    if Occurs(p, ScrubBacktrace(s, z)) {
      CapOccurs(Join(out, "\n"), z.caps.maxFieldBytes, p);
    }
  }

  /**
   For every report, every identity and every detector: the home path, in either
   spelling, is nowhere in the sanitized title, body or metadata; the stream and
   the opaque attachments are carried through unchanged.
   */
  lemma {:induction false} HomeNeverLeaks(r: Report, z: Sanitizer, p: string)
    requires IsHomeSpelling(p, z)
    ensures var out := Sanitized(r, z);
            && !Occurs(p, out.title) && !Occurs(p, out.body)
            && |out.metadata| == |r.metadata|
            && (forall i :: 0 <= i < |out.metadata| ==>
                  !Occurs(p, out.metadata[i].0) && !Occurs(p, out.metadata[i].1))
            && out.attachments == r.attachments && out.stream == r.stream
  {
    ScrubFieldNoHome(r.title, z, p);
    ScrubBacktraceNoHome(r.body, z, p);
    var out := Sanitized(r, z);
    forall i | 0 <= i < |out.metadata|
      ensures !Occurs(p, out.metadata[i].0) && !Occurs(p, out.metadata[i].1)
    {
      ScrubFieldNoHome(r.metadata[i].0, z, p);
      ScrubFieldNoHome(r.metadata[i].1, z, p);
    }
  }

  // ----- a scrubbed body has only safe lines

  /** A home-style segment: no whitespace, no ellipsis, and a separator. */
  ghost predicate IsSegment(q: string) {
    && Lacks(q, Blank) && ELLIPSIS !in q
    && exists i :: 0 <= i < |q| && IsSeparator(q[i])
  }

  /** None of the five home-style segments occurs, in any ASCII case. */
  ghost predicate NoHomeSegment(s: string) {
    forall i :: 0 <= i < |HOME_SEGMENTS| ==> !Occurs(HOME_SEGMENTS[i], Lower(s))
  }

  lemma {:induction false} SegmentsAreSegments(i: nat)
    requires i < |HOME_SEGMENTS|
    ensures IsSegment(HOME_SEGMENTS[i])
  {
    var q := HOME_SEGMENTS[i];
    if i < 4 {
      assert IsSeparator(q[0]);
    } else {
      assert IsSeparator(q[2]);
    }
  }

  lemma {:induction false} UnnormalizedHomeIsSegments(t: string)
    ensures !ContainsUnnormalizedHome(t) <==> NoHomeSegment(t)
  {
    assert HOME_SEGMENTS[0] == "/home/" && HOME_SEGMENTS[1] == "/users/" && HOME_SEGMENTS[2] == "\\users\\"
        && HOME_SEGMENTS[3] == "/root/" && HOME_SEGMENTS[4] == "c:\\users";
  }

  lemma {:induction false} LowerKeepsInk(s: string, q: string, i: int)
    requires Lacks(q, Blank) && At(Lower(s), q, i)
    ensures forall j :: i <= j < i + |q| ==> !IsWhitespace(s[j])
  {
    forall j | i <= j < i + |q| ensures !IsWhitespace(s[j]) {
      assert Lower(s)[i..i + |q|][j - i] == LowerChar(s[j]);
      assert !Blank.Has(q[j - i]);
    }
  }

  /** Segments do not reach into the blanks that trimming removes. */
  lemma {:induction false} SegmentInTrimmed(s: string, q: string)
    requires IsSegment(q) && Occurs(q, Lower(s))
    ensures Occurs(q, Lower(Trim(s)))
  {
    hide IsWhitespace, Lower, Trim, At, Lacks;
    var i := SegmentAt(s, q);
    LowerKeepsInk(s, q, i);
    var a, b := TrimSpansInk(s, i, |q|);
    OccursInSlice(Lower(s), q, i, a, b);
    LowerSlice(s, a, b);
  }

  lemma {:induction false} SegmentAt(s: string, q: string) returns (i: nat)
    requires IsSegment(q) && Occurs(q, Lower(s))
    ensures At(Lower(s), q, i) && q != "" && i + |q| <= |s| && Lacks(q, Blank)
  {
    var low := Lower(s);
    i :| At(low, q, i);
  }

  /** Trimming keeps every stretch without whitespace. */
  lemma {:induction false} TrimSpansInk(s: string, i: nat, n: nat) returns (a: nat, b: nat)
    requires n > 0 && i + n <= |s|
    requires forall j :: i <= j < i + n ==> !IsWhitespace(s[j])
    ensures a <= i && i + n <= b <= |s| && s[a..b] == Trim(s)
  {
    hide IsWhitespace;
    a, b := TrimSplit(s, Blank);
    assert !Blank.Has(s[i]) && !Blank.Has(s[i + n - 1]);
  }

  lemma {:induction false} LowerSlice(s: string, a: nat, b: nat)
    requires a <= b <= |s|
    ensures Lower(s[a..b]) == Lower(s)[a..b]
  {
    hide LowerChar;
  }

  lemma {:induction false} OccursInSlice(s: string, p: string, i: int, a: nat, b: nat)
    requires At(s, p, i) && a <= i && i + |p| <= b <= |s|
    ensures Occurs(p, s[a..b])
  {
    var t := s[a..b];
    forall k | 0 <= k < |p| ensures t[i - a + k] == p[k] {
      assert s[i..i + |p|][k] == s[i + k];
    }
    assert t[i - a..i - a + |p|] == p;
    assert At(t, p, i - a);
  }

  /** Text without separators has no home-style segment. */
  lemma {:induction false} NoSeparatorNoSegment(s: string)
    requires NoSeparators(s)
    ensures NoHomeSegment(s)
  {
    forall i | 0 <= i < |HOME_SEGMENTS| ensures !Occurs(HOME_SEGMENTS[i], Lower(s)) {
      SegmentsAreSegments(i);
      NoSeparatorNoPath(Lower(s), HOME_SEGMENTS[i]);
    }
  }

  /** The allowlist lets no home-style segment through. */
  lemma {:induction false} SafeShapeNoSegment(line: string, z: Sanitizer)
    requires IsSafeShape(line, z)
    ensures NoHomeSegment(line)
  {
    var t := Trim(line);
    UnnormalizedHomeIsSegments(t);
    if t == "" {
      NoSeparatorNoSegment(t);
    }
    forall i | 0 <= i < |HOME_SEGMENTS| ensures !Occurs(HOME_SEGMENTS[i], Lower(line)) {
      SegmentsAreSegments(i);
      if Occurs(HOME_SEGMENTS[i], Lower(line)) {
        SegmentInTrimmed(line, HOME_SEGMENTS[i]);
      }
    }
  }

  predicate NoSeparators(s: string) {
    forall i :: 0 <= i < |s| ==> !IsSeparator(s[i])
  }

  /** The blanks around trimmed text are no separators either. */
  lemma {:induction false} TrimNoSeparators(s: string)
    requires NoSeparators(Trim(s))
    ensures NoSeparators(s)
  {
    var a, b := TrimSplit(s, Blank);
    forall i | 0 <= i < |s| ensures !IsSeparator(s[i]) {
      if a <= i < b {
        assert Trim(s)[i - a] == s[i];
      } else {
        assert Blank.Has(s[i]);
      }
    }
  }

  /** A frame-symbol line has no separator at all. */
  lemma {:induction false} FrameLineNoSeparator(line: string, z: Sanitizer)
    requires IsFrameSymbolLine(line, z)
    ensures NoSeparators(line)
  {
    hide Trim;
    var n := Find(line, ":").value;
    var head, tail := line[..n], line[n + 1..];
    TrimNoSeparators(head);
    TrimNoSeparators(tail);
    assert line[n..n + 1] == ":";
    assert line == head + ":" + tail;
  }

  lemma {:induction false} FrameLineSafe(line: string, z: Sanitizer)
    requires IsFrameSymbolLine(Trim(line), z)
    ensures IsSafeShape(line, z)
  {
    hide IsFrameSymbolLine, Trim, ContainsUnnormalizedHome, IsNormalizedLocationLine;
    FrameLineNoSeparator(Trim(line), z);
    NoSeparatorNoSegment(Trim(line));
    UnnormalizedHomeIsSegments(Trim(line));
  }

  /** Text without a separator starts no absolute location, with or without `at `. */
  lemma {:induction false} NoSlashNormalized(line: string)
    requires forall i :: 0 <= i < |line| ==> line[i] != '/'
    ensures IsNormalizedLocationLine(line)
  {
    hide Contains;
    var body := if "at " <= line then line[3..] else line;
    assert forall i :: 0 <= i < |body| ==> body[i] in line;
    assert !("/" <= body) by {
      assert body == "" || body[0] != '/';
    }
  }

  lemma {:induction false} NotContained(s: string, c: char)
    requires !Contains(s, [c])
    ensures forall i :: 0 <= i < |s| ==> s[i] != c
  {
    forall i | 0 <= i < |s| ensures s[i] != c {
      assert !At(s, [c], i);
      assert s[i..i + 1] == [s[i]];
    }
  }

  /** Behind `at `, if that is in front, there is no slash, or the home placeholder stands somewhere. */
  ghost predicate NotAbsolute(t: string) {
    var body := if |t| >= 3 && t[..3] == "at " then t[3..] else t;
    body == "" || body[0] != '/' || Occurs("<HOME>", body)
  }

  lemma {:induction false} NotAbsoluteIs(t: string)
    ensures NotAbsolute(t) <==> IsNormalizedLocationLine(t)
  {
    hide Occurs;
    var body := if "at " <= t then t[3..] else t;
    assert "/" <= body <==> body != "" && body[0] == '/';
  }

  /**
   What the allowlist comes down to: no home-style segment, and no absolute location in front.
   The frame, thread and prose clauses decide nothing, and an `@` is let through.
   */
  lemma {:induction false} SafeShapeIff(line: string, z: Sanitizer)
    ensures IsSafeShape(line, z)
            <==> Trim(line) == "" || (NoHomeSegment(Trim(line)) && NotAbsolute(Trim(line)))
  {
    SafeShapeIs(line, z);
    NotAbsoluteIs(Trim(line));
    hide Trim, IsSafeShape, NoHomeSegment, NotAbsolute, IsNormalizedLocationLine;
  }

  lemma {:induction false} SafeShapeIs(line: string, z: Sanitizer)
    ensures IsSafeShape(line, z)
            <==> Trim(line) == "" || (NoHomeSegment(Trim(line)) && IsNormalizedLocationLine(Trim(line)))
  {
    var t := Trim(line);
    UnnormalizedHomeIsSegments(t);
    hide Trim, Contains, IsFrameSymbolLine, IsNormalizedLocationLine, ContainsUnnormalizedHome, NoHomeSegment;
    if IsFrameSymbolLine(t, z) {
      FrameLineNoSeparator(t, z);
      NoSlashNormalized(t);
    } else if "thread '" <= t {
      ThreadNormalized(t);
    } else if !Contains(t, "/") {
      NotContained(t, '/');
      NoSlashNormalized(t);
    }
  }

  lemma {:induction false} ThreadNormalized(t: string)
    requires "thread '" <= t
    ensures IsNormalizedLocationLine(t)
  {
    assert t[0] == 't';
  }

  /** An e-mail address passes the allowlist, although the documentation of the shape says it fails. */
  lemma {:induction false} EmailIsSafeShape(z: Sanitizer)
    ensures IsSafeShape("contact a@b", z)
  {
    hide TrimBy, IsSafeShape, IsNormalizedLocationLine, NoHomeSegment;
    SafeShapeIs("contact a@b", z);
    TrimFixed("contact a@b", Blank);
    NoSeparatorNoSegment("contact a@b");
    NoSlashNormalized("contact a@b");
  }

  lemma {:induction false} MarkerSafe(z: Sanitizer)
    ensures IsSafeShape(REDACTED_MARKER, z)
  {
    hide IsFrameSymbolLine, TrimBy, ContainsUnnormalizedHome;
    TrimFixed(REDACTED_MARKER, Blank);
    NoSeparatorNoSegment(REDACTED_MARKER);
    UnnormalizedHomeIsSegments(REDACTED_MARKER);
  }

  /** Every scrubbed line is a safe shape: kept frame lines and the marker included. */
  lemma {:induction false} ScrubLineSafe(line: string, z: Sanitizer)
    ensures IsSafeShape(ScrubLine(line, z), z)
  {
    hide StripIdentity, IsFrameSymbolLine, IsSafeShape;
    var stripped := StripIdentity(line, z);
    if IsFrameSymbolLine(Trim(stripped), z) {
      FrameLineSafe(stripped, z);
    }
    MarkerSafe(z);
  }

  lemma {:induction false} LowerConcat(a: string, b: string)
    ensures Lower(a + b) == Lower(a) + Lower(b)
  {
  }

  /** The lower-case form of lines joined by newlines. */
  lemma {:induction false} JoinNoSegment(ls: seq<string>, q: string)
    requires IsSegment(q) && forall i :: 0 <= i < |ls| ==> !Occurs(q, Lower(ls[i]))
    ensures !Occurs(q, Lower(Join(ls, "\n")))
  {
    hide At, Occurs, Lower, IsSegment;
    if |ls| == 0 {
      LowerEmpty();
      SegmentShape(q);
      NotInEmpty(q);
    } else if |ls| > 1 {
      var rest := Join(ls[1..], "\n");
      JoinNoSegment(ls[1..], q);
      LowerNewline(ls[0], rest);
      SegmentShape(q);
      if Occurs(q, Lower(ls[0]) + ['\n'] + Lower(rest)) {
        OccursAcross(Lower(ls[0]), '\n', Lower(rest), q);
      }
    }
  }

  lemma {:induction false} LowerEmpty()
    ensures Lower("") == ""
  {
  }

  lemma {:induction false} NotInEmpty(q: string)
    requires q != ""
    ensures !Occurs(q, "")
  {
  }

  lemma {:induction false} LowerNewline(a: string, b: string)
    ensures Lower(a + "\n" + b) == Lower(a) + ['\n'] + Lower(b)
  {
    LowerConcat(a + "\n", b);
    LowerConcat(a, "\n");
  }

  lemma {:induction false} CapNoSegment(s: string, max: nat, q: string)
    requires IsSegment(q) && Occurs(q, Lower(CapBytes(s, max)))
    ensures Occurs(q, Lower(s))
  {
    hide CapBytes, At, Occurs, Lower, ByteLen;
    var cut, k := CapShape(s, max);
    if cut {
      LowerCapped(s[..k]);
      SegmentShape(q);
      OccursAcross(Lower(s[..k]), ELLIPSIS, TRUNCATED, q);
      MarkerHoldsNoPath(q);
      LowerConcat(s[..k], s[k..]);
      assert s == s[..k] + s[k..];
      OccursWithin("", Lower(s[..k]), Lower(s[k..]), q);
      assert "" + Lower(s[..k]) + Lower(s[k..]) == Lower(s[..k]) + Lower(s[k..]);
    }
  }

  lemma {:induction false} SegmentShape(q: string)
    requires IsSegment(q)
    ensures q != "" && ELLIPSIS !in q && '\n' !in q && exists i :: 0 <= i < |q| && IsSeparator(q[i])
  {
    forall i | 0 <= i < |q| ensures q[i] != '\n' {
      assert !Blank.Has(q[i]);
    }
  }

  lemma {:induction false} LowerCapped(head: string)
    ensures Lower(head + [ELLIPSIS] + TRUNCATED) == Lower(head) + [ELLIPSIS] + TRUNCATED
  {
  }

  /**
   For every input, identity and detector: every line of the scrubbed body before
   the cap is a safe shape, and the capped body has no home-style segment.
   */
  lemma {:induction false} ScrubBacktraceSafe(s: string, z: Sanitizer)
    ensures var out := ScrubLines(Take(Lines(s), z.caps.maxLines), z);
            |out| <= z.caps.maxLines && forall i :: 0 <= i < |out| ==> IsSafeShape(out[i], z)
    ensures NoHomeSegment(ScrubBacktrace(s, z))
  {
    hide IsSafeShape, ScrubLine, CapBytes;
    var ls := Take(Lines(s), z.caps.maxLines);
    var out := ScrubLines(ls, z);
    forall i | 0 <= i < |out| ensures IsSafeShape(out[i], z) && NoHomeSegment(out[i]) {
      ScrubLineSafe(ls[i], z);
      SafeShapeNoSegment(out[i], z);
    }
    var joined := Join(out, "\n");
    forall i | 0 <= i < |HOME_SEGMENTS| ensures !Occurs(HOME_SEGMENTS[i], Lower(ScrubBacktrace(s, z))) {
      SegmentsAreSegments(i);
      JoinNoSegment(out, HOME_SEGMENTS[i]);
      if Occurs(HOME_SEGMENTS[i], Lower(CapBytes(joined, z.caps.maxFieldBytes))) {
        CapNoSegment(joined, z.caps.maxFieldBytes, HOME_SEGMENTS[i]);
      }
    }
  }

  // ----- host name and user name

  predicate IsHostToken(t: string) {
    Tokens.IsToken(t) && t != "HOST" && t != "USER"
  }

  /** The two token stages, in the order the sanitizer runs them. */
  function StripTokens(s: string, host: string, user: string): string {
    Tokens.ReplaceToken(Tokens.ReplaceToken(s, host, HOST_PLACEHOLDER), user, USER_PLACEHOLDER)
  }

  lemma {:induction false} PlaceholderWords()
    ensures Tokens.IsPlaceholder(HOST_PLACEHOLDER, "HOST") && Tokens.IsPlaceholder(USER_PLACEHOLDER, "USER")
  {
  }

  /** After both stages neither name stands alone: the second stage exposes no host name. */
  lemma {:induction false} TokensGone(s: string, host: string, user: string)
    requires IsHostToken(host) && IsHostToken(user)
    ensures var out := StripTokens(s, host, user);
            Tokens.NowhereAlone(out, host) && Tokens.NowhereAlone(out, user)
  {
    PlaceholderWords();
    var u := Tokens.ReplaceToken(s, host, HOST_PLACEHOLDER);
    Tokens.ReplaceTokenClean(s, host, HOST_PLACEHOLDER, "HOST");
    Tokens.ReplaceTokenClean(u, user, USER_PLACEHOLDER, "USER");
    var out := StripTokens(s, host, user);
    forall i: nat ensures !Tokens.StandaloneAfter(false, out, host, i) {
      Tokens.ScanKeepsAway(u, user, USER_PLACEHOLDER, "USER", host, false, false, i);
    }
  }

  /**
   The host name goes first and therefore goes whole, even when it contains the
   user name (`ada-laptop` and `ada`): its first standalone occurrence becomes one
   placeholder, whatever the user stage does to the text around it.
   */
  lemma {:induction false} HostNotShattered(s: string, host: string, user: string, i: nat)
    requires IsHostToken(host) && IsHostToken(user)
    requires i + |host| <= |s| && Tokens.FirstAlone(false, s, host, i)
    ensures StripTokens(s, host, user)
         == Tokens.ReplaceToken(s[..i], user, USER_PLACEHOLDER)
          + (HOST_PLACEHOLDER
             + Tokens.Scan(Tokens.Scan(s[i + |host|..], host, HOST_PLACEHOLDER, true), user, USER_PLACEHOLDER, false))
  {
    hide Tokens.Scan;
    PlaceholderWords();
    var rest := Tokens.Scan(s[i + |host|..], host, HOST_PLACEHOLDER, true);
    Tokens.ScanFirst(s, host, HOST_PLACEHOLDER, false, i);
    assert s[..i] + (HOST_PLACEHOLDER + rest) == s[..i] + HOST_PLACEHOLDER + rest;
    Tokens.ScanAcross(s[..i], HOST_PLACEHOLDER, "HOST", rest, user, USER_PLACEHOLDER, false);
  }

  // ----- the names through path anchoring and path dropping

  /** The text the home stage and the two token stages leave. */
  function WithoutNames(s: string, z: Sanitizer): string {
    var t := StripHome(s, z.identity);
    StripToken(StripToken(t, z.identity.hostname, HOST_PLACEHOLDER), z.identity.username, USER_PLACEHOLDER)
  }

  /** `tok` is one of the two names, and the names are tokens. */
  predicate IsName(tok: string, id: HostIdentity) {
    && (id.hostname == Some(tok) || id.username == Some(tok))
    && (id.hostname.Some? ==> IsHostToken(id.hostname.value))
    && (id.username.Some? ==> IsHostToken(id.username.value))
  }

  lemma {:induction false} WithoutNamesHides(s: string, z: Sanitizer, tok: string)
    requires IsName(tok, z.identity)
    ensures Tokens.IsToken(tok) && Tokens.NowhereAlone(WithoutNames(s, z), tok)
  {
    hide Tokens.NowhereAlone, Tokens.ReplaceToken, Tokens.IsToken;
    PlaceholderWords();
    var t, id := StripHome(s, z.identity), z.identity;
    if id.hostname.Some? && id.username.Some? {
      TokensGone(t, id.hostname.value, id.username.value);
    } else if id.hostname.Some? {
      Tokens.ReplaceTokenClean(t, tok, HOST_PLACEHOLDER, "HOST");
    } else {
      Tokens.ReplaceTokenClean(t, tok, USER_PLACEHOLDER, "USER");
    }
  }

  /**
   The whole identity stage, for every text and every set of roots: a name stays hidden as long
   as no root exposes it at its turn and the word `path` is not itself a name that gets written.
   */
  lemma {:induction false} NamesGone(s: string, z: Sanitizer, tok: string)
    requires IsName(tok, z.identity)
    requires Names.NeverExposes(WithoutNames(s, z), z.Roots(), tok)
    requires tok == "path" ==> Paths.NoRuns(None, Paths.AnchorRoots(WithoutNames(s, z), z.Roots()))
    ensures Tokens.NowhereAlone(StripIdentity(s, z), tok)
  {
    hide Tokens.NowhereAlone, Tokens.IsToken, Names.NeverExposes, Paths.NoRuns;
    var v, rs := WithoutNames(s, z), z.Roots();
    WithoutNamesHides(s, z, tok);
    Names.AnchoringHides(v, rs, tok);
    Names.DropExposesNothing(Paths.AnchorRoots(v, rs), tok);
  }

  /**
   Exactly: a name is hidden when every piece the path drop keeps hides it. With foreign roots and
   nothing dropped, that can be told from the pieces between the roots before any is anchored.
   */
  lemma {:induction false} NamesGoneIff(s: string, z: Sanitizer, tok: string)
    requires IsName(tok, z.identity)
    ensures var v, rs := WithoutNames(s, z), z.Roots();
            var t, out := Paths.AnchorRoots(v, rs), StripIdentity(s, z);
            && (Tokens.NowhereAlone(out, tok)
                <==> Names.AllHide(Names.SplitAtRuns(None, t), tok) && (tok == "path" ==> Paths.NoRuns(None, t)))
            && (Names.AllForeign(rs) && Paths.NoRuns(None, t)
                ==> (Tokens.NowhereAlone(out, tok) <==> Names.Shielded(v, rs, tok)))
  {
    hide Tokens.NowhereAlone, Tokens.IsToken, Names.AllHide, Names.AllForeign, Names.Shielded, Paths.NoRuns;
    var v, rs := WithoutNames(s, z), z.Roots();
    var t := Paths.AnchorRoots(v, rs);
    WithoutNamesHides(s, z, tok);
    Names.DropPathsIff(t, tok);
    if Names.AllForeign(rs) && Paths.NoRuns(None, t) {
      Names.AnchoringIff(v, rs, tok);
      Paths.DropPathsIdempotent(t);
    }
  }

  lemma {:induction false} DropPathsIdle(s: string)
    requires NoSeparators(s)
    ensures Paths.DropPaths(s) == s
  {
    forall k | 0 <= k < |s| ensures Paths.RunLength(Paths.PrevAt(None, s, k), s[k..]) == 0 {
      assert forall j :: 0 <= j < |s[k..]| ==> s[k..][j] == s[k + j];
    }
    Paths.DropIdle(None, s);
  }

  /**
   A root can expose a name: the anchor `<tmp>` ends the identifier that hid the
   user name, so `/tmpada` comes out as `<tmp>ada`.
   */
  lemma {:induction false} AnchorExposesUser(z: Sanitizer)
    requires z.identity == HostIdentity(None, Some("ada"), None, Some("/tmp"), None, None)
    ensures StripIdentity("/tmpada", z) == "<tmp>ada"
    ensures !Tokens.NowhereAlone(StripIdentity("/tmpada", z), "ada")
  {
    hide Tokens.ReplaceToken, Tokens.NowhereAlone, Paths.AnchorPaths, Paths.PathRoots;
    TmpRootOnly(z);
    AdaHidden();
    AnchorTmp();
    AdaShown();
  }

  lemma {:induction false} AnchorTmp()
    ensures Paths.AnchorPaths("/tmpada", [Paths.Root("/tmp", "<tmp>")]) == "<tmp>ada"
  {
    hide Replace, Paths.DropPaths;
    var rs := [Paths.Root("/tmp", "<tmp>")];
    ReplaceTmp();
    assert rs[1..] == [];
    DropPathsIdle("<tmp>ada");
  }

  lemma {:induction false} AdaHidden()
    ensures Tokens.ReplaceToken("/tmpada", "ada", USER_PLACEHOLDER) == "/tmpada"
  {
    hide Tokens.Scan;
    var s := "/tmpada";
    forall i: nat ensures !Tokens.StandaloneAfter(false, s, "ada", i) {
      if i < 4 {
        Differs(s, "ada", i, 0);
      }
    }
    Tokens.ScanIdle(s, "ada", USER_PLACEHOLDER, false);
  }

  lemma {:induction false} AdaShown()
    ensures !Tokens.NowhereAlone("<tmp>ada", "ada")
  {
    assert "<tmp>ada"[5..8] == "ada";
    assert Tokens.StandaloneAfter(false, "<tmp>ada", "ada", 5);
  }

  lemma {:induction false} TmpRootOnly(z: Sanitizer)
    requires z.identity.home.None? && z.identity.cache.None? && z.identity.config.None?
    requires z.identity.tmp == Some("/tmp")
    ensures z.Roots() == [Paths.Root("/tmp", "<tmp>")]
  {
    TrimFixed("/tmp", Blank);
    assert Paths.ForwardSlashes("/tmp") == "/tmp";
    OneRootSorted(Paths.Root("/tmp", "<tmp>"));
    hide Paths.ForwardSlashes, Paths.SortLongestFirst;
  }

  lemma {:induction false} ReplaceTmp()
    ensures Replace("/tmpada", "/tmp", "<tmp>") == "<tmp>ada"
  {
    assert "/tmpada"[|"/tmp"|..] == "ada";
    assert IsSeparator("/tmp"[0]);
    NoSeparatorNoPath("ada", "/tmp");
    ReplaceIdle("ada", "/tmp", "<tmp>");
  }

  // ----- a home path that a marker overlaps

  /**
   Without its condition on markers `HomeNeverLeaks` fails: the marker of a dropped path
   completes the home path `/a<path>` in a text that did not hold it.
   */
  lemma {:induction false} BracketHomeCompleted(z: Sanitizer)
    requires z.identity == HostIdentity(Some("/a<path>"), None, None, None, None, None)
    ensures !Occurs("/a<path>", "x/a\\\\s")
    ensures Occurs("/a<path>", StripIdentity("x/a\\\\s", z))
  {
    hide Paths.DropPaths, Paths.PathRoots, Replace, Occurs, At;
    BracketHomeAbsent();
    assert Paths.ForwardSlashes("/a<path>") == "/a<path>";
    ReplaceIdle("x/a\\\\s", "/a<path>", HOME_PLACEHOLDER);
    ReplaceIdle("x/a\\\\s", "/a<path>", "<home>");
    BracketRootOnly(z);
    AnchorOne("x/a\\\\s", Paths.Root("/a<path>", "<home>"));
    ShareDropped();
    BracketHomeShown();
  }

  lemma {:induction false} AnchorOne(s: string, r: Paths.Root)
    requires r.prefix != "" && Replace(s, r.prefix, r.anchor) == s
    ensures Paths.AnchorPaths(s, [r]) == Paths.DropPaths(s)
  {
    hide Replace, Paths.DropPaths;
    var rs := [r];
    assert rs[1..] == [] && Paths.AnchorRoots(s, []) == s;
    assert Paths.AnchorRoots(s, rs) == Paths.AnchorRoots(Replace(s, r.prefix, r.anchor), rs[1..]);
  }

  lemma {:induction false} BracketHomeAbsent()
    ensures !Occurs("/a<path>", "x/a\\\\s")
  {
    var s, p := "x/a\\\\s", "/a<path>";
    forall i: nat ensures !At(s, p, i) {
    }
  }

  lemma {:induction false} BracketHomeShown()
    ensures Occurs("/a<path>", "x/a<path>")
  {
    assert "x/a<path>"[1..9] == "/a<path>";
    assert At("x/a<path>", "/a<path>", 1);
  }

  lemma {:induction false} BracketRootOnly(z: Sanitizer)
    requires z.identity == HostIdentity(Some("/a<path>"), None, None, None, None, None)
    ensures z.Roots() == [Paths.Root("/a<path>", "<home>")]
  {
    TrimFixed("/a<path>", Blank);
    assert Paths.ForwardSlashes("/a<path>") == "/a<path>";
    OneRootSorted(Paths.Root("/a<path>", "<home>"));
    hide Paths.ForwardSlashes, Paths.SortLongestFirst;
  }

  lemma {:induction false} OneRootSorted(r: Paths.Root)
    ensures Paths.SortLongestFirst([r]) == [r]
  {
    assert [r][..0] == [];
  }

  /** A share path is dropped even inside a word. */
  lemma {:induction false} ShareDropped()
    ensures Paths.DropPaths("x/a\\\\s") == "x/a<path>"
  {
    hide Paths.Drop, Paths.RunLength;
    KeptChar(None, 'x', "/a\\\\s");
    KeptChar(Some('x'), '/', "a\\\\s");
    KeptChar(Some('/'), 'a', "\\\\s");
    ShareRun();
    assert "x/a\\\\s" == ['x'] + "/a\\\\s" && "/a\\\\s" == ['/'] + "a\\\\s" && "a\\\\s" == ['a'] + "\\\\s";
    assert ['x'] + (['/'] + (['a'] + "<path>")) == "x/a<path>";
  }

  lemma {:induction false} KeptChar(prev: Option<char>, c: char, rest: string)
    requires Paths.StartLength(prev, [c] + rest) == 0
    ensures Paths.Drop(prev, [c] + rest) == [c] + Paths.Drop(Some(c), rest)
  {
    Paths.DropTurn(prev, [c] + rest);
    hide Paths.Drop;
    assert ([c] + rest)[1..] == rest;
  }

  lemma {:induction false} ShareRun()
    ensures Paths.Drop(Some('a'), "\\\\s") == "<path>"
  {
    Paths.DropTurn(Some('a'), "\\\\s");
    LeadIs("\\\\s", PathBody, 2, 3);
    assert "\\\\s"[3..] == "";
    assert Paths.Drop(Some('s'), "") == "";
  }

  // ----- what redaction does to a whole report

  /** After the identity stage the two texts differ at most in the cores of sensitive tokens. */
  ghost predicate AlikeButForSecrets(s: string, t: string, z: Sanitizer) {
    var ps, qs := FreeText.SplitKeepWs(StripIdentity(s, z)), FreeText.SplitKeepWs(StripIdentity(t, z));
    |ps| == |qs| && forall i :: 0 <= i < |ps| ==> FreeText.SameButForSecret(ps[i], qs[i], z.isSensitive)
  }

  /** No field shows anything of a sensitive token but its punctuation. */
  lemma {:induction false} FieldSecretsDoNotShow(s: string, t: string, z: Sanitizer)
    requires AlikeButForSecrets(s, t, z)
    ensures ScrubField(s, z) == ScrubField(t, z)
  {
    hide StripIdentity, FreeText.RedactFreeText, FreeText.SameButForSecret, CapBytes;
    FreeText.SecretsDoNotShow(StripIdentity(s, z), StripIdentity(t, z), z.isSensitive);
  }

  /** The line is a stack frame once its identity is stripped, and exempt from redaction. */
  predicate IsFrame(line: string, z: Sanitizer) {
    IsFrameSymbolLine(Trim(StripIdentity(line, z)), z)
  }

  /** Nor does any line of a body that is not a stack frame. */
  lemma {:induction false} LineSecretsDoNotShow(s: string, t: string, z: Sanitizer)
    requires AlikeButForSecrets(s, t, z) && !IsFrame(s, z) && !IsFrame(t, z)
    ensures ScrubLine(s, z) == ScrubLine(t, z)
  {
    hide StripIdentity, FreeText.RedactFreeText, FreeText.SameButForSecret, IsFrameSymbolLine, IsSafeShape;
    FreeText.SecretsDoNotShow(StripIdentity(s, z), StripIdentity(t, z), z.isSensitive);
  }

  /** The same line, or two that are no frames and differ at most in sensitive tokens. */
  ghost predicate SameLine(s: string, t: string, z: Sanitizer) {
    s == t || (AlikeButForSecrets(s, t, z) && !IsFrame(s, z) && !IsFrame(t, z))
  }

  ghost predicate SameReport(r: Report, r': Report, z: Sanitizer) {
    && r.stream == r'.stream && r.attachments == r'.attachments
    && AlikeButForSecrets(r.title, r'.title, z)
    && |r.metadata| == |r'.metadata|
    && (forall i :: 0 <= i < |r.metadata| ==>
          && AlikeButForSecrets(r.metadata[i].0, r'.metadata[i].0, z)
          && AlikeButForSecrets(r.metadata[i].1, r'.metadata[i].1, z))
    && |Lines(r.body)| == |Lines(r'.body)|
    && (forall i :: 0 <= i < |Lines(r.body)| ==> SameLine(Lines(r.body)[i], Lines(r'.body)[i], z))
  }

  /**
   Reports that differ only in what the detectors object to are sanitized to the same report: title,
   metadata keys and values, and every line of the body that is no stack frame.
   */
  lemma {:induction false} ReportSecretsDoNotShow(r: Report, r': Report, z: Sanitizer)
    requires SameReport(r, r', z)
    ensures Sanitized(r, z) == Sanitized(r', z)
  {
    hide AlikeButForSecrets, SameLine, ScrubField, ScrubLine, CapBytes, Lines;
    var out, out' := Sanitized(r, z), Sanitized(r', z);
    FieldSecretsDoNotShow(r.title, r'.title, z);
    BodySecretsDoNotShow(r.body, r'.body, z);
    forall i | 0 <= i < |r.metadata| ensures out.metadata[i] == out'.metadata[i] {
      FieldSecretsDoNotShow(r.metadata[i].0, r'.metadata[i].0, z);
      FieldSecretsDoNotShow(r.metadata[i].1, r'.metadata[i].1, z);
    }
    assert out.metadata == out'.metadata;
  }

  lemma {:induction false} BodySecretsDoNotShow(s: string, t: string, z: Sanitizer)
    requires |Lines(s)| == |Lines(t)|
    requires forall i :: 0 <= i < |Lines(s)| ==> SameLine(Lines(s)[i], Lines(t)[i], z)
    ensures ScrubBacktrace(s, z) == ScrubBacktrace(t, z)
  {
    hide AlikeButForSecrets, IsFrame, ScrubLine, CapBytes, Lines, Join;
    var ls, ms := Take(Lines(s), z.caps.maxLines), Take(Lines(t), z.caps.maxLines);
    forall i | 0 <= i < |ls| ensures ScrubLine(ls[i], z) == ScrubLine(ms[i], z) {
      assert SameLine(Lines(s)[i], Lines(t)[i], z);
      if ls[i] != ms[i] {
        LineSecretsDoNotShow(ls[i], ms[i], z);
      }
    }
    assert ScrubLines(ls, z) == ScrubLines(ms, z);
  }

  /** A field without sensitive tokens and clusters, within the cap, only loses identity. */
  lemma {:induction false} FieldIdle(s: string, z: Sanitizer)
    requires var t := StripIdentity(s, z);
             && (forall p :: p in FreeText.SplitKeepWs(t) ==> !FreeText.IsHit(p, z.isSensitive))
             && FreeText.NoClusters(t) && ByteLen(t) <= z.caps.maxFieldBytes
    ensures ScrubField(s, z) == StripIdentity(s, z)
  {
    hide StripIdentity, FreeText.RedactFreeText, FreeText.IsHit, FreeText.NoClusters, FreeText.SplitKeepWs, ByteLen;
    FreeText.RedactFreeTextIdle(StripIdentity(s, z), z.isSensitive);
  }

  /** In a field with one sensitive token the marker takes its place, between its punctuation. */
  lemma {:induction false} FieldOneToken(s: string, z: Sanitizer, a: string, lead: string, core: string, trail: string, b: string)
    requires StripIdentity(s, z) == a + (lead + core + trail) + b
    requires FreeText.Hugged(lead, core, trail) && z.isSensitive(core)
    requires a == "" || IsWhitespace(a[|a| - 1])
    requires b == "" || IsWhitespace(b[0])
    requires forall p :: p in FreeText.SplitKeepWs(a) || p in FreeText.SplitKeepWs(b) ==> !FreeText.IsHit(p, z.isSensitive)
    requires var out := a + (lead + "<redacted>" + trail) + b;
             FreeText.NoClusters(out) && ByteLen(out) <= z.caps.maxFieldBytes
    ensures ScrubField(s, z) == a + (lead + "<redacted>" + trail) + b
  {
    hide StripIdentity, FreeText.RedactFreeText, FreeText.IsHit, FreeText.NoClusters, FreeText.SplitKeepWs, FreeText.Hugged,
      IsWhitespace, ByteLen;
    FreeText.OneTokenRedacted(a, lead, core, trail, b, z.isSensitive);
  }

  /** A line that is no frame, has nothing sensitive and no cluster, and is of safe shape, only loses identity. */
  lemma {:induction false} LineIdle(line: string, z: Sanitizer)
    requires var t := StripIdentity(line, z);
             && (forall p :: p in FreeText.SplitKeepWs(t) ==> !FreeText.IsHit(p, z.isSensitive))
             && FreeText.NoClusters(t) && IsSafeShape(t, z)
    ensures ScrubLine(line, z) == StripIdentity(line, z)
  {
    hide StripIdentity, FreeText.RedactFreeText, FreeText.IsHit, FreeText.NoClusters, FreeText.SplitKeepWs, IsSafeShape,
      IsFrameSymbolLine;
    FreeText.RedactFreeTextIdle(StripIdentity(line, z), z.isSensitive);
  }

  /** What is left of a line once redacted, if it is not of safe shape, is the bare marker. */
  lemma {:induction false} UnsafeLineGone(line: string, z: Sanitizer)
    requires !IsFrame(line, z) && !IsSafeShape(FreeText.RedactFreeText(StripIdentity(line, z), z.isSensitive), z)
    ensures ScrubLine(line, z) == "<redacted>"
  {
    hide StripIdentity, FreeText.RedactFreeText, IsSafeShape, IsFrameSymbolLine;
  }

  /** Without a known identity the identity stage only drops paths. */
  lemma {:induction false} NoIdentity(s: string, z: Sanitizer)
    requires z.identity == HostIdentity(None, None, None, None, None, None)
    ensures StripIdentity(s, z) == Paths.DropPaths(s)
  {
    hide Paths.DropPaths;
    assert z.Roots() == [];
  }

  // ----- frame lines

  /** The characters beside letters and digits a frame line may show. */
  const FRAME_MARKS: set<char> :=
    {'_', ':', '<', '>', '{', '}', '(', ')', ',', ' ', '&', '*', '\'', '.', '+', '-', '[', ']'}

  predicate IsFrameText(c: char, z: Sanitizer) {
    || 'a' <= c <= 'z' || 'A' <= c <= 'Z' || '0' <= c <= '9' || c in FRAME_MARKS
    || (c >= '\U{80}' && z.isForeignAlnum(c))
  }

  lemma {:induction false} FrameCharsAre(c: char, z: Sanitizer)
    ensures IsFrameChar(c, z) <==> IsFrameText(c, z)
  {
  }

  /** A digit, a colon behind it, and something behind that. */
  ghost predicate NumberedPart(line: string) {
    exists a: nat, n: nat, b: nat ::
      a < n < b < |line| && '0' <= line[a] <= '9' && line[n] == ':' && !IsWhitespace(line[b])
  }

  /** A line exempt from redaction has a number, a colon and more, and shows letters, digits and frame marks only: no `@`, slash, quote or equals sign. */
  lemma {:induction false} FrameLineShows(line: string, z: Sanitizer)
    requires IsFrameSymbolLine(line, z)
    ensures forall i :: 0 <= i < |line| ==> IsWhitespace(line[i]) || IsFrameText(line[i], z)
    ensures NumberedPart(line)
  {
    hide *;
    FrameLineHas(line, z);
    FrameLineText(line, z);
  }

  lemma {:induction false} FrameLineText(line: string, z: Sanitizer)
    requires IsFrameSymbolLine(line, z)
    ensures forall i :: 0 <= i < |line| ==> IsWhitespace(line[i]) || IsFrameText(line[i], z)
  {
    hide IsFrameChar, IsFrameText, IsWhitespace, Trim;
    var n := Find(line, ":").value;
    var head, tail := line[..n], line[n + 1..];
    assert line[n..n + 1] == ":";
    FrameCharsAre(':', z);
    ColonIsFrameText(z);
    HeadShows(head, z);
    TailShows(tail, z);
    assert line == head + ":" + tail;
  }

  lemma {:induction false} FrameLineHas(line: string, z: Sanitizer)
    requires IsFrameSymbolLine(line, z)
    ensures NumberedPart(line)
  {
    hide Trim, IsFrameChar, IsWhitespace;
    var n := Find(line, ":").value;
    var head, tail := line[..n], line[n + 1..];
    assert line[n..n + 1] == ":";
    assert IsDigit(Trim(head)[0]);
    var a := TrimmedAt(head);
    var b := TrimmedAt(tail);
    assert line[a] == head[a] && line[n + 1 + b] == tail[b];
  }

  lemma {:induction false} TrimmedAt(s: string) returns (a: nat)
    requires Trim(s) != ""
    ensures a < |s| && s[a] == Trim(s)[0] && !IsWhitespace(s[a])
  {
    var b: nat;
    a, b := TrimSplit(s, Blank);
    assert !Blank.Has(s[a]);
  }

  lemma {:induction false} ColonIsFrameText(z: Sanitizer)
    ensures IsFrameText(':', z)
  {
  }

  lemma {:induction false} HeadShows(s: string, z: Sanitizer)
    requires forall i :: 0 <= i < |Trim(s)| ==> IsDigit(Trim(s)[i])
    ensures forall i :: 0 <= i < |s| ==> IsWhitespace(s[i]) || IsFrameText(s[i], z)
  {
    hide IsWhitespace;
    var a, b := TrimSplit(s, Blank);
    forall i | 0 <= i < |s| ensures IsWhitespace(s[i]) || IsFrameText(s[i], z) {
      if a <= i < b {
        assert IsDigit(Trim(s)[i - a]);
      } else {
        assert Blank.Has(s[i]);
      }
    }
  }

  lemma {:induction false} TailShows(s: string, z: Sanitizer)
    requires forall i :: 0 <= i < |Trim(s)| ==> IsFrameChar(Trim(s)[i], z)
    ensures forall i :: 0 <= i < |s| ==> IsWhitespace(s[i]) || IsFrameText(s[i], z)
  {
    hide IsWhitespace, IsFrameChar, IsFrameText;
    var a, b := TrimSplit(s, Blank);
    forall i | 0 <= i < |s| ensures IsWhitespace(s[i]) || IsFrameText(s[i], z) {
      if a <= i < b {
        assert IsFrameChar(Trim(s)[i - a], z);
        FrameCharsAre(s[i], z);
      } else {
        assert Blank.Has(s[i]);
      }
    }
  }

  /** Digits, a colon and a symbol make a frame line, which is kept as it is. */
  lemma {:induction false} FrameLineKept(digits: string, symbol: string, line: string, z: Sanitizer)
    requires digits != "" && forall i :: 0 <= i < |digits| ==> '0' <= digits[i] <= '9'
    requires symbol != "" && symbol[0] != ' ' && symbol[|symbol| - 1] != ' '
    requires forall i :: 0 <= i < |symbol| ==> IsFrameText(symbol[i], z) && (symbol[i] == ' ' || !IsWhitespace(symbol[i]))
    requires StripIdentity(line, z) == digits + ": " + symbol
    ensures IsFrame(line, z) && ScrubLine(line, z) == digits + ": " + symbol
  {
    hide *;
    var t := digits + ": " + symbol;
    ColonFound(digits, " " + symbol);
    SymbolEnds(digits, symbol, z);
    assert t == digits + (":" + (" " + symbol));
    TrimInk(digits);
    TrimLeadingBlank(symbol);
    TrimInk(t);
    FrameParts(t, |digits|, z);
    FrameIsKept(line, z);
  }

  lemma {:induction false} ColonFound(digits: string, rest: string)
    requires forall i :: 0 <= i < |digits| ==> digits[i] != ':'
    ensures var t := digits + (":" + rest);
            Find(t, ":") == Some(|digits|) && t[..|digits|] == digits && t[|digits| + 1..] == rest
  {
    var t := digits + (":" + rest);
    forall j | 0 <= j < |digits| ensures !At(t, ":", j) {
      Differs(t, ":", j, 0);
    }
    assert t[|digits|..|digits| + 1] == ":";
    assert At(t, ":", |digits|);
  }

  /** Neither part starts or ends with a blank, and both are made of the right characters. */
  lemma {:induction false} SymbolEnds(digits: string, symbol: string, z: Sanitizer)
    requires digits != "" && forall i :: 0 <= i < |digits| ==> '0' <= digits[i] <= '9'
    requires symbol != "" && symbol[0] != ' ' && symbol[|symbol| - 1] != ' '
    requires forall i :: 0 <= i < |symbol| ==> IsFrameText(symbol[i], z) && (symbol[i] == ' ' || !IsWhitespace(symbol[i]))
    ensures var t := digits + ": " + symbol;
            && t != "" && !Blank.Has(t[0]) && !Blank.Has(t[|t| - 1])
            && !Blank.Has(digits[0]) && !Blank.Has(digits[|digits| - 1])
            && !IsWhitespace(symbol[0]) && !IsWhitespace(symbol[|symbol| - 1])
    ensures forall i :: 0 <= i < |digits| ==> digits[i] != ':' && IsDigit(digits[i])
    ensures forall i :: 0 <= i < |symbol| ==> IsFrameChar(symbol[i], z)
  {
    hide IsFrameText, IsFrameChar;
    forall i | 0 <= i < |symbol| ensures IsFrameChar(symbol[i], z) {
      FrameCharsAre(symbol[i], z);
    }
  }

  lemma {:induction false} FrameParts(t: string, n: nat, z: Sanitizer)
    requires n < |t| && Find(t, ":") == Some(n) && Trim(t) == t
    requires var idx, rest := Trim(t[..n]), Trim(t[n + 1..]);
             && idx != "" && (forall i :: 0 <= i < |idx| ==> IsDigit(idx[i]))
             && rest != "" && (forall i :: 0 <= i < |rest| ==> IsFrameChar(rest[i], z))
    ensures IsFrameSymbolLine(Trim(t), z)
  {
    hide Trim, IsFrameChar;
  }

  lemma {:induction false} FrameIsKept(line: string, z: Sanitizer)
    requires IsFrameSymbolLine(Trim(StripIdentity(line, z)), z)
    ensures IsFrame(line, z) && ScrubLine(line, z) == StripIdentity(line, z)
  {
    hide Trim, StripIdentity, IsFrameSymbolLine;
  }

  lemma {:induction false} TrimInk(s: string)
    requires s != "" && !Blank.Has(s[0]) && !Blank.Has(s[|s| - 1])
    ensures Trim(s) == s
  {
    TrimFixed(s, Blank);
  }

  lemma {:induction false} TrimLeadingBlank(s: string)
    requires s != "" && !IsWhitespace(s[0]) && !IsWhitespace(s[|s| - 1])
    ensures Trim(" " + s) == s
  {
    var t := " " + s;
    assert t[1] == s[0] && t[|t| - 1] == s[|s| - 1];
    LeadIs(t, Blank, 0, 1);
    TrailIs(t, Blank, |t|);
    assert t[1..|t|] == s;
  }
}
