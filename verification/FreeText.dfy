/**
 Free-text redaction: every sensitive token becomes one uniform marker, and
 clusters of markers collapse to one so that their number is not disclosed.
 The detectors are a parameter: everything here holds for any of them.
 */
module FreeText {
  import opened Text
  import opened Marking

  const REDACTED := "<redacted>"

  type Detector = string -> bool

  lemma {:induction false} RedactedShape()
    ensures IsMarker(REDACTED) && REDACTED[0] == '<' && '<' !in REDACTED[1..]
    ensures |REDACTED| == 10
  {
  }

  // ----- splitting, losslessly

  function ClassAt(s: string): Class
    requires s != ""
  {
    if IsWhitespace(s[0]) then Blank else Ink
  }

  /** The maximal runs of whitespace and of other characters, in order. */
  function SplitKeepWs(s: string): seq<string>
    decreases |s|
  {
    if s == "" then []
    else
      var n := LeadFrom(s, ClassAt(s), 0);
      [s[..n]] + SplitKeepWs(s[n..])
  }

  function Concat(ps: seq<string>): string {
    if ps == [] then "" else ps[0] + Concat(ps[1..])
  }

  /** Rejoining the pieces gives the text back. */
  lemma {:induction false} SplitLossless(s: string)
    ensures Concat(SplitKeepWs(s)) == s
    decreases |s|
  {
    if s != "" {
      var n := LeadFrom(s, ClassAt(s), 0);
      SplitLossless(s[n..]);
      assert s == s[..n] + s[n..];
    }
  }

  /** Pieces are non-empty, of one kind each, and alternate. */
  lemma {:induction false} SplitAlternates(s: string)
    ensures var ps := SplitKeepWs(s);
            && (s != "" ==> ps != [] && ps[0] != "" && ps[0][0] == s[0])
            && (forall i :: 0 <= i < |ps| ==> ps[i] != "" && All(ps[i], ClassAt(ps[i])))
            && (forall i :: 0 < i < |ps| ==> ClassAt(ps[i - 1]) != ClassAt(ps[i]))
    decreases |s|
  {
    if s != "" {
      var n := LeadFrom(s, ClassAt(s), 0);
      var rest := SplitKeepWs(s[n..]);
      SplitAlternates(s[n..]);
      assert SplitKeepWs(s) == [s[..n]] + rest;
      assert n < |s| ==> s[n..][0] == s[n];
    }
  }

  /** The loop over `char_indices`, cutting where the kind changes. */
  method SplitKeepWsLoop(input: string) returns (out: seq<string>)
    ensures out == SplitKeepWs(input)
  {
    out := [];
    var start := 0;
    var inWs := input != "" && IsWhitespace(input[0]);
    assert input[0..] == input;
    for idx := 0 to |input|
      invariant 0 <= start <= idx && (idx > 0 ==> start < idx)
      invariant start < |input| ==> inWs == IsWhitespace(input[start])
      invariant forall j :: start <= j < idx ==> IsWhitespace(input[j]) == inWs
      invariant out + SplitKeepWs(input[start..]) == SplitKeepWs(input)
    {
      var isWs := IsWhitespace(input[idx]);
      if isWs != inWs {
        CutPiece(input, start, idx);
        PieceMoved(out, input[start..idx], SplitKeepWs(input[idx..]));
        out := out + [input[start..idx]];
        start := idx;
        inWs := isWs;
      }
    }
    assert input[start..|input|] == input[start..] && input[|input|..] == "";
    if start < |input| {
      CutPiece(input, start, |input|);
      out := out + [input[start..]];
    }
  }

  lemma {:induction false} PieceMoved(out: seq<string>, piece: string, rest: seq<string>)
    ensures out + ([piece] + rest) == out + [piece] + rest
  {
  }

  lemma {:induction false} CutPiece(s: string, start: nat, end: nat)
    requires start < end <= |s|
    requires forall j :: start <= j < end ==> IsWhitespace(s[j]) == IsWhitespace(s[start])
    requires end < |s| ==> IsWhitespace(s[end]) != IsWhitespace(s[start])
    ensures SplitKeepWs(s[start..]) == [s[start..end]] + SplitKeepWs(s[end..])
  {
    var t := s[start..];
    LeadIs(t, ClassAt(t), 0, end - start);
    assert t[..end - start] == s[start..end] && t[end - start..] == s[end..];
  }

  // ----- redacting tokens

  /** Where the identifier core of a token lies, inside its hugging punctuation. */
  function CoreStart(tok: string): (n: nat)
    ensures n <= |tok|
  {
    LeadFrom(tok, Edge, 0)
  }

  function CoreEnd(tok: string): (n: nat)
    ensures n <= |tok|
  {
    TrailFrom(tok, Edge, |tok|)
  }

  function RedactToken(tok: string, isSensitive: Detector): string {
    var a, b := CoreStart(tok), CoreEnd(tok);
    if a >= b then tok
    else if isSensitive(tok[a..b]) then tok[..a] + REDACTED + tok[b..]
    else tok
  }

  function RedactPiece(p: string, isSensitive: Detector): string {
    if p == "" || IsWhitespace(p[0]) then p else RedactToken(p, isSensitive)
  }

  function RedactPieces(ps: seq<string>, isSensitive: Detector): string {
    if ps == [] then "" else RedactPiece(ps[0], isSensitive) + RedactPieces(ps[1..], isSensitive)
  }

  lemma {:induction false} RedactPieceRewrites(p: string, isSensitive: Detector)
    ensures Rewrites(p, RedactPiece(p, isSensitive))
  {
    hide Rewrites, CoreStart, CoreEnd, IsWhitespace;
    var a, b := CoreStart(p), CoreEnd(p);
    RewriteRefl(p);
    if a < b {
      RewriteCore(p[..a], p[a..b], p[b..]);
      assert p == p[..a] + p[a..b] + p[b..];
    }
  }

  lemma {:induction false} RewriteCore(lead: string, core: string, trail: string)
    ensures Rewrites(lead + core + trail, lead + REDACTED + trail)
  {
    hide Rewrites;
    RedactedShape();
    RewriteRefl(trail);
    RewriteMark(core, REDACTED, trail, trail);
    RewriteKeepAll(lead, core + trail, REDACTED + trail);
    assert lead + core + trail == lead + (core + trail);
    assert lead + REDACTED + trail == lead + (REDACTED + trail);
  }

  lemma {:induction false} RedactPiecesRewrites(ps: seq<string>, isSensitive: Detector)
    ensures Rewrites(Concat(ps), RedactPieces(ps, isSensitive))
  {
    if ps == [] {
      RewriteNothing();
    } else {
      RedactPieceRewrites(ps[0], isSensitive);
      RedactPiecesRewrites(ps[1..], isSensitive);
      RewriteConcat(ps[0], RedactPiece(ps[0], isSensitive), Concat(ps[1..]), RedactPieces(ps[1..], isSensitive));
    }
  }

  // ----- collapsing clusters

  /** `trim_start_matches` over whitespace and simple joining punctuation. */
  function TrimJoin(s: string): string {
    DropWhile(s, Joiner)
  }

  /** A further marker follows, separated only by joining characters. */
  predicate MarkerFollows(s: string) {
    REDACTED <= TrimJoin(s)
  }

  /** Skips every further member of the cluster. */
  function Skip(s: string): (r: string)
    ensures |r| <= |s| && !MarkerFollows(r)
    decreases |s|
  {
    if MarkerFollows(s) then Skip(TrimJoin(s)[|REDACTED|..]) else s
  }

  function Collapse(s: string): string
    decreases |s|
  {
    if REDACTED <= s then REDACTED + Collapse(Skip(s[|REDACTED|..]))
    else if s == "" then ""
    else [s[0]] + Collapse(s[1..])
  }

  function RedactFreeText(s: string, isSensitive: Detector): string {
    Collapse(RedactPieces(SplitKeepWs(s), isSensitive))
  }

  lemma {:induction false} SkipIsSuffix(s: string)
    ensures s[|s| - |Skip(s)|..] == Skip(s)
    decreases |s|
  {
    if MarkerFollows(s) {
      var t := TrimJoin(s)[|REDACTED|..];
      SkipIsSuffix(t);
      assert t == s[|s| - |t|..];
    }
  }

  lemma {:induction false} CollapseRewrites(s: string)
    ensures Rewrites(s, Collapse(s))
    decreases |s|
  {
    hide Rewrites, MarkerFollows, Skip;
    RedactedShape();
    if REDACTED <= s {
      var t := s[|REDACTED|..];
      var rest := Skip(t);
      SkipIsSuffix(t);
      CollapseRewrites(rest);
      var gone := s[..|s| - |rest|];
      RewriteMark(gone, REDACTED, rest, Collapse(rest));
      assert s[|s| - |rest|..] == t[|t| - |rest|..];
      assert s == gone + rest;
    } else if s == "" {
      RewriteNothing();
    } else {
      CollapseRewrites(s[1..]);
      RewriteKeep(s[0], s[1..], Collapse(s[1..]));
      assert s == [s[0]] + s[1..];
    }
  }

  /** The whole stage is a chain of two rewritings, so it creates no foreign text. */
  lemma {:induction false} RedactFreeTextOccurs(s: string, isSensitive: Detector, p: string)
    requires IsForeign(p) && Occurs(p, RedactFreeText(s, isSensitive))
    ensures Occurs(p, s)
  {
    var ps := SplitKeepWs(s);
    var mid := RedactPieces(ps, isSensitive);
    CollapseRewrites(mid);
    RewriteOccurs(mid, Collapse(mid), p);
    RedactPiecesRewrites(ps, isSensitive);
    SplitLossless(s);
    RewriteOccurs(s, mid, p);
  }

  lemma {:induction false} RedactFreeTextNewline(s: string, isSensitive: Detector)
    requires '\n' in RedactFreeText(s, isSensitive)
    ensures '\n' in s
  {
    var ps := SplitKeepWs(s);
    var mid := RedactPieces(ps, isSensitive);
    CollapseRewrites(mid);
    RewriteNewline(mid, Collapse(mid));
    RedactPiecesRewrites(ps, isSensitive);
    SplitLossless(s);
    RewriteNewline(s, mid);
  }

  // ----- the loops

  /** Up to the leftmost marker everything is copied. */
  lemma {:induction false} CollapseCopies(s: string, pos: nat)
    requires pos <= |s| && Leftmost(s, REDACTED, pos)
    ensures Collapse(s) == s[..pos] + Collapse(s[pos..])
    decreases pos
  {
    hide Skip, MarkerFollows, Leftmost, At;
    if pos == 0 {
      assert s[0..] == s;
    } else {
      var t := s[1..];
      LeftmostTail(s, REDACTED, pos);
      CollapseCopies(t, pos - 1);
      assert t[pos - 1..] == s[pos..];
      assert s[..pos] == [s[0]] + t[..pos - 1];
    }
  }

  lemma {:induction false} CollapseFound(s: string, pos: nat)
    requires Leftmost(s, REDACTED, pos)
    ensures Collapse(s) == s[..pos] + REDACTED + Collapse(Skip(s[pos + |REDACTED|..]))
  {
    hide Skip, MarkerFollows;
    var t := s[pos..];
    CollapseCopies(s, pos);
    assert t[..|REDACTED|] == s[pos..pos + |REDACTED|];
    assert t[|REDACTED|..] == s[pos + |REDACTED|..];
  }

  lemma {:induction false} CollapseNone(s: string)
    requires !Occurs(REDACTED, s)
    ensures Collapse(s) == s
  {
    if REDACTED <= s {
      assert At(s, REDACTED, 0);
    } else if s != "" {
      OccursTail(s, REDACTED);
      CollapseNone(s[1..]);
    }
  }

  method CollapseLoop(s: string) returns (out: string)
    ensures out == Collapse(s)
  {
    out := "";
    var rest := s;
    while true
      invariant out + Collapse(rest) == Collapse(s)
      decreases |rest|
    {
      hide Collapse, Skip, MarkerFollows;
      var found := Find(rest, REDACTED);
      match found
      case None =>
        CollapseNone(rest);
        return out + rest;
      case Some(pos) =>
        CollapseFound(rest, pos);
        ghost var after := rest[pos + |REDACTED|..];
        Regroup(out, rest[..pos], REDACTED, Collapse(Skip(after)));
        out := out + rest[..pos] + REDACTED;
        rest := SkipLoop(rest[pos + |REDACTED|..]);
    }
  }

  lemma {:induction false} Regroup(out: string, a: string, b: string, rest: string)
    ensures out + (a + b + rest) == out + a + b + rest
  {
  }

  /** Consumes every further marker that only joining characters separate from the last one. */
  method SkipLoop(s: string) returns (rest: string)
    ensures rest == Skip(s)
  {
    rest := s;
    while MarkerFollows(rest)
      invariant Skip(rest) == Skip(s)
      decreases |rest|
    {
      rest := TrimJoin(rest)[|REDACTED|..];
    }
  }

  method RedactFreeTextLoop(input: string, isSensitive: Detector) returns (out: string)
    ensures out == RedactFreeText(input, isSensitive)
  {
    var raws := SplitKeepWsLoop(input);
    var joined := "";
    hide RedactPiece, Collapse, SplitKeepWs;
    assert raws[0..] == raws;
    for i := 0 to |raws|
      invariant joined + RedactPieces(raws[i..], isSensitive) == RedactPieces(raws, isSensitive)
    {
      assert raws[i..][0] == raws[i] && raws[i..][1..] == raws[i + 1..];
      var piece := RedactPiece(raws[i], isSensitive);
      Regroup(joined, piece, "", RedactPieces(raws[i + 1..], isSensitive));
      assert piece + "" == piece && joined + piece + "" == joined + piece;
      joined := joined + piece;
    }
    assert joined + "" == joined;
    out := CollapseLoop(joined);
  }

  // ----- what collapsing achieves

  /** Between any two remaining markers there is a character that does not join. */
  ghost predicate NoClusters(t: string) {
    forall i :: At(t, REDACTED, i) ==> !MarkerFollows(t[i + |REDACTED|..])
  }

  lemma {:induction false} TrimJoinCons(c: char, x: string)
    ensures TrimJoin([c] + x) == if Joiner.Has(c) then TrimJoin(x) else [c] + x
  {
    var s := [c] + x;
    if Joiner.Has(c) {
      var n := LeadFrom(x, Joiner, 0);
      LeadIs(s, Joiner, 0, n + 1);
      assert s[n + 1..] == x[n..];
    } else {
      LeadIs(s, Joiner, 0, 0);
    }
  }

  lemma {:induction false} CollapsePrefix(s: string, q: string)
    requires '<' !in q && q <= Collapse(s)
    ensures q <= s
    decreases |q|
  {
    if q != "" {
      RedactedShape();
      assert q[0] == Collapse(s)[0];
      assert Collapse(s)[1..] == Collapse(s[1..]);
      CollapsePrefix(s[1..], q[1..]);
      assert q == [q[0]] + q[1..];
    }
  }

  /** A marker at the head of the output is one at the head of the input. */
  lemma {:induction false} CollapseHead(s: string)
    requires REDACTED <= Collapse(s)
    ensures REDACTED <= s
  {
    RedactedShape();
    if !(REDACTED <= s) {
      var q := REDACTED[1..];
      assert Collapse(s)[1..] == Collapse(s[1..]);
      assert q <= Collapse(s[1..]);
      CollapsePrefix(s[1..], q);
    }
  }

  lemma {:induction false} FollowsKept(u: string)
    requires MarkerFollows(Collapse(u))
    ensures MarkerFollows(u)
    decreases |u|
  {
    RedactedShape();
    if REDACTED <= u {
      TrimJoinCons(u[0], u[1..]);
      assert u == [u[0]] + u[1..];
    } else if u != "" {
      TrimJoinCons(u[0], Collapse(u[1..]));
      TrimJoinCons(u[0], u[1..]);
      assert u == [u[0]] + u[1..];
      if Joiner.Has(u[0]) {
        FollowsKept(u[1..]);
      } else {
        CollapseHead(u);
      }
    }
  }

  lemma {:induction false} CollapseCleanAt(s: string, i: nat)
    ensures At(Collapse(s), REDACTED, i) ==> !MarkerFollows(Collapse(s)[i + |REDACTED|..])
    decreases |s|
  {
    hide MarkerFollows, Skip;
    RedactedShape();
    var t := Collapse(s);
    if REDACTED <= s {
      var rest := Skip(s[|REDACTED|..]);
      if i == 0 {
        assert t[|REDACTED|..] == Collapse(rest);
        if MarkerFollows(Collapse(rest)) { FollowsKept(rest); }
      } else if i < |REDACTED| {
        Differs(t, REDACTED, i, 0);
      } else {
        AtShift(REDACTED, Collapse(rest), REDACTED, i);
        CollapseCleanAt(rest, i - |REDACTED|);
        if At(t, REDACTED, i) {
          assert t[i + |REDACTED|..] == Collapse(rest)[i..];
        }
      }
    } else if s != "" && i > 0 {
      AtShift([s[0]], Collapse(s[1..]), REDACTED, i);
      CollapseCleanAt(s[1..], i - 1);
      if At(t, REDACTED, i) {
        assert t[i + |REDACTED|..] == Collapse(s[1..])[i - 1 + |REDACTED|..];
      }
    } else if REDACTED <= t {
      CollapseHead(s);
    }
  }

  /** No cluster is left, so the number of redactions inside one is not disclosed. */
  lemma {:induction false} CollapseNoClusters(s: string)
    ensures NoClusters(Collapse(s))
  {
    forall i | At(Collapse(s), REDACTED, i) ensures !MarkerFollows(Collapse(s)[i + |REDACTED|..]) {
      CollapseCleanAt(s, i);
    }
  }

  lemma {:induction false} CollapseIdle(t: string)
    requires NoClusters(t)
    ensures Collapse(t) == t
    decreases |t|
  {
    if t != "" {
      var n := if REDACTED <= t then |REDACTED| else 1;
      var head, rest := t[..n], t[n..];
      assert t == head + rest;
      forall i | At(rest, REDACTED, i) ensures !MarkerFollows(rest[i + |REDACTED|..]) {
        AtShift(head, rest, REDACTED, i + n);
        assert rest[i + |REDACTED|..] == t[i + n + |REDACTED|..];
      }
      CollapseIdle(rest);
      if REDACTED <= t {
        assert At(t, REDACTED, 0);
      }
    }
  }

  /** Collapsing is idempotent; its fixed points are the texts without clusters. */
  lemma {:induction false} CollapseIdempotent(s: string)
    ensures Collapse(Collapse(s)) == Collapse(s)
    ensures Collapse(s) == s <==> NoClusters(s)
  {
    CollapseNoClusters(s);
    CollapseIdle(Collapse(s));
    if NoClusters(s) {
      CollapseIdle(s);
    }
  }

  // ----- the number of markers in a cluster does not show

  /** `x` is wholly part of a cluster: joining characters and markers only. */
  predicate Swallowed(x: string)
    decreases |x|
  {
    TrimJoin(x) == "" || (MarkerFollows(x) && Swallowed(TrimJoin(x)[|REDACTED|..]))
  }

  lemma {:induction false} TrimJoinConcat(x: string, z: string)
    ensures TrimJoin(x) != "" ==> TrimJoin(x + z) == TrimJoin(x) + z
    ensures TrimJoin(x) == "" && (z == "" || !Joiner.Has(z[0])) ==> TrimJoin(x + z) == z
  {
    var s, n := x + z, LeadFrom(x, Joiner, 0);
    if n < |x| || z == "" || !Joiner.Has(z[0]) {
      assert n < |s| ==> s[n] == if n < |x| then x[n] else z[0];
      LeadIs(s, Joiner, 0, n);
      assert s[n..] == x[n..] + z;
    }
  }

  /** A marker cannot begin in `t` and end in a marker that follows it. */
  lemma {:induction false} NoStraddle(t: string, w: string)
    requires t != ""
    ensures REDACTED <= t + REDACTED + w <==> REDACTED <= t
  {
    RedactedShape();
    var s := t + REDACTED + w;
    if |t| < |REDACTED| {
      assert REDACTED[|t|] == REDACTED[1..][|t| - 1];
      Differs(s, REDACTED, 0, |t|);
      assert !At(s, REDACTED, 0);
    } else {
      assert s[..|REDACTED|] == t[..|REDACTED|];
    }
  }

  /** Skipping over `x` and a marker: either `x` is part of the cluster or the skip stops in it. */
  lemma {:induction false} SkipPast(x: string, w: string)
    ensures Skip(x + REDACTED + w) == if Swallowed(x) then Skip(w) else Skip(x) + REDACTED + w
    ensures !Swallowed(x) ==> |Skip(x)| <= |x|
    decreases |x|
  {
    RedactedShape();
    var z, t := REDACTED + w, TrimJoin(x);
    assert x + REDACTED + w == x + z;
    TrimJoinConcat(x, z);
    if t == "" {
      assert z[|REDACTED|..] == w;
    } else {
      NoStraddle(t, w);
      assert t + z == t + REDACTED + w;
      if MarkerFollows(x) {
        var x' := t[|REDACTED|..];
        assert (t + z)[|REDACTED|..] == x' + REDACTED + w;
        SkipPast(x', w);
      }
    }
  }

  /** A cluster with one more marker, or one more joining stretch, collapses to the same text. */
  lemma {:induction false} ClusterCountHidden(x: string, j: string, y: string)
    requires All(j, Joiner)
    ensures Collapse(x + REDACTED + j + REDACTED + y) == Collapse(x + REDACTED + y)
    decreases |x|
  {
    hide Collapse, Skip, Swallowed;
    RedactedShape();
    var more := j + REDACTED + y;
    assert x + REDACTED + j + REDACTED + y == x + REDACTED + more;
    SkipCluster(j, y);
    if x == "" {
      CollapseMarker(x, more);
      CollapseMarker(x, y);
    } else if REDACTED <= x {
      var x' := x[|REDACTED|..];
      CollapseMarker(x, more);
      CollapseMarker(x, y);
      if !Swallowed(x') {
        var left := Skip(x');
        SkipPast(x', y);
        ClusterCountHidden(left, j, y);
        assert left + REDACTED + j + REDACTED + y == left + REDACTED + more;
      }
    } else {
      CollapseChar(x, more);
      CollapseChar(x, y);
      ClusterCountHidden(x[1..], j, y);
      assert x[1..] + REDACTED + j + REDACTED + y == x[1..] + REDACTED + more;
    }
  }

  lemma {:induction false} SkipCluster(j: string, y: string)
    requires All(j, Joiner)
    ensures Skip(j + REDACTED + y) == Skip(y)
  {
    LeadIs(j, Joiner, 0, |j|);
    SkipPast(j, y);
  }

  /** How collapsing proceeds at a marker, with another marker further on. */
  lemma {:induction false} CollapseMarker(x: string, w: string)
    requires x == "" || REDACTED <= x
    ensures Collapse(x + REDACTED + w) ==
      if x == "" then REDACTED + Collapse(Skip(w))
      else var x' := x[|REDACTED|..];
        REDACTED + Collapse(if Swallowed(x') then Skip(w) else Skip(x') + REDACTED + w)
  {
    RedactedShape();
    var s := x + REDACTED + w;
    if x == "" {
      assert s[|REDACTED|..] == w;
    } else {
      var x' := x[|REDACTED|..];
      NoStraddle(x, w);
      assert s[|REDACTED|..] == x' + REDACTED + w;
      SkipPast(x', w);
    }
  }

  lemma {:induction false} CollapseChar(x: string, w: string)
    requires x != "" && !(REDACTED <= x)
    ensures Collapse(x + REDACTED + w) == [x[0]] + Collapse(x[1..] + REDACTED + w)
  {
    NoStraddle(x, w);
    assert (x + REDACTED + w)[1..] == x[1..] + REDACTED + w;
  }

  // ----- what redaction leaves alone, and what it hides

  /** The token has a core and the detectors object to it. */
  predicate IsHit(p: string, isSensitive: Detector) {
    && p != "" && !IsWhitespace(p[0])
    && CoreStart(p) < CoreEnd(p) && isSensitive(p[CoreStart(p)..CoreEnd(p)])
  }

  lemma {:induction false} RedactPiecesIdle(ps: seq<string>, isSensitive: Detector)
    requires forall i :: 0 <= i < |ps| ==> !IsHit(ps[i], isSensitive)
    ensures RedactPieces(ps, isSensitive) == Concat(ps)
  {
    if ps != [] {
      RedactPiecesIdle(ps[1..], isSensitive);
    }
  }

  /** Text with nothing sensitive and no clusters comes through unchanged. */
  lemma {:induction false} RedactFreeTextIdle(s: string, isSensitive: Detector)
    requires forall i :: 0 <= i < |SplitKeepWs(s)| ==> !IsHit(SplitKeepWs(s)[i], isSensitive)
    requires NoClusters(s)
    ensures RedactFreeText(s, isSensitive) == s
  {
    RedactPiecesIdle(SplitKeepWs(s), isSensitive);
    SplitLossless(s);
    CollapseIdle(s);
  }

  /** Two tokens with the same hugging punctuation around sensitive cores. */
  predicate SameButForSecret(p: string, q: string, isSensitive: Detector) {
    || p == q
    || (IsHit(p, isSensitive) && IsHit(q, isSensitive)
        && p[..CoreStart(p)] == q[..CoreStart(q)] && p[CoreEnd(p)..] == q[CoreEnd(q)..])
  }

  /** The marker is typeless: nothing of a sensitive core reaches the output. */
  lemma {:induction false} SecretsDoNotShow(s: string, s': string, isSensitive: Detector)
    requires var ps, qs := SplitKeepWs(s), SplitKeepWs(s');
             |ps| == |qs| && forall i :: 0 <= i < |ps| ==> SameButForSecret(ps[i], qs[i], isSensitive)
    ensures RedactFreeText(s, isSensitive) == RedactFreeText(s', isSensitive)
  {
    SecretPieces(SplitKeepWs(s), SplitKeepWs(s'), isSensitive);
  }

  lemma {:induction false} SecretPieces(ps: seq<string>, qs: seq<string>, isSensitive: Detector)
    requires |ps| == |qs| && forall i :: 0 <= i < |ps| ==> SameButForSecret(ps[i], qs[i], isSensitive)
    ensures RedactPieces(ps, isSensitive) == RedactPieces(qs, isSensitive)
  {
    if ps != [] {
      SecretPieces(ps[1..], qs[1..], isSensitive);
      assert SameButForSecret(ps[0], qs[0], isSensitive);
    }
  }

  // ----- one token among others

  /** The punctuation that hugs a token, and what joins the markers of a cluster beside whitespace. */
  const HUGGING: set<char> := {'.', ',', ';', ':', '!', '?', ')', '(', '"', '\'', '<', '>'}
  const JOINING: set<char> := {',', ';', ':', '/', '-', '.'}

  lemma {:induction false} EdgesAre(c: char)
    ensures Edge.Has(c) <==> c in HUGGING
    ensures c in HUGGING ==> !IsWhitespace(c)
  {
  }

  lemma {:induction false} JoinersAre(c: char)
    ensures Joiner.Has(c) <==> IsWhitespace(c) || c in JOINING
  {
  }

  lemma {:induction false} SplitTurn(s: string, n: nat)
    requires s != "" && n == LeadFrom(s, ClassAt(s), 0)
    ensures n > 0 && SplitKeepWs(s) == [s[..n]] + SplitKeepWs(s[n..])
  {
    hide IsWhitespace;
  }

  /** Where the kind of character changes, the pieces of two texts stay apart. */
  lemma {:induction false} SplitConcat(x: string, y: string)
    requires x != "" && y != "" ==> IsWhitespace(x[|x| - 1]) != IsWhitespace(y[0])
    ensures SplitKeepWs(x + y) == SplitKeepWs(x) + SplitKeepWs(y)
    decreases |x|
  {
    hide IsWhitespace, SplitKeepWs;
    if x == "" || y == "" {
      NothingToSplit();
      assert x + y == if x == "" then y else x;
    } else {
      var n := LeadFrom(x, ClassAt(x), 0);
      SplitTurn(x, n);
      SeamSplit(x, y, n);
      SplitConcat(x[n..], y);
      assert [x[..n]] + (SplitKeepWs(x[n..]) + SplitKeepWs(y)) == ([x[..n]] + SplitKeepWs(x[n..])) + SplitKeepWs(y);
    }
  }

  lemma {:induction false} NothingToSplit()
    ensures SplitKeepWs("") == []
  {
  }

  lemma {:induction false} SeamSplit(x: string, y: string, n: nat)
    requires x != "" && y != "" && IsWhitespace(x[|x| - 1]) != IsWhitespace(y[0])
    requires n == LeadFrom(x, ClassAt(x), 0)
    ensures SplitKeepWs(x + y) == [x[..n]] + SplitKeepWs(x[n..] + y)
  {
    hide IsWhitespace, SplitKeepWs;
    var s := x + y;
    assert n < |s| ==> s[n] == if n < |x| then x[n] else y[0];
    LeadIs(s, ClassAt(x), 0, n);
    SplitTurn(s, n);
    assert s[..n] == x[..n] && s[n..] == x[n..] + y;
  }

  lemma {:induction false} RedactPiecesConcat(ps: seq<string>, qs: seq<string>, isSensitive: Detector)
    ensures RedactPieces(ps + qs, isSensitive) == RedactPieces(ps, isSensitive) + RedactPieces(qs, isSensitive)
  {
    hide RedactPiece;
    if ps == [] {
      assert ps + qs == qs;
    } else {
      assert (ps + qs)[1..] == ps[1..] + qs;
      RedactPiecesConcat(ps[1..], qs, isSensitive);
    }
  }

  /** A core with hugging punctuation around it. */
  predicate Hugged(lead: string, core: string, trail: string) {
    && core != "" && core[0] !in HUGGING && core[|core| - 1] !in HUGGING
    && (forall i :: 0 <= i < |core| ==> !IsWhitespace(core[i]))
    && (forall i :: 0 <= i < |lead| ==> lead[i] in HUGGING)
    && (forall i :: 0 <= i < |trail| ==> trail[i] in HUGGING)
  }

  lemma {:induction false} CoreIs(lead: string, core: string, trail: string)
    requires Hugged(lead, core, trail)
    ensures var tok := lead + core + trail;
            CoreStart(tok) == |lead| && CoreEnd(tok) == |lead| + |core| && IsWord(tok)
  {
    var tok := lead + core + trail;
    forall i | 0 <= i < |tok|
      ensures !IsWhitespace(tok[i])
      ensures i < |lead| || i >= |lead| + |core| ==> Edge.Has(tok[i])
      ensures i == |lead| || i == |lead| + |core| - 1 ==> !Edge.Has(tok[i])
    {
      EdgesAre(tok[i]);
      if i < |lead| {
        assert tok[i] == lead[i];
      } else if i < |lead| + |core| {
        assert tok[i] == core[i - |lead|];
      } else {
        assert tok[i] == trail[i - |lead| - |core|];
      }
    }
    hide IsWhitespace, IsEdgePunct;
    LeadIs(tok, Edge, 0, |lead|);
    TrailIs(tok, Edge, |lead| + |core|);
  }

  lemma {:induction false} OneWordSplit(w: string)
    requires IsWord(w)
    ensures SplitKeepWs(w) == [w] && ClassAt(w) == Ink
  {
    LeadIs(w, Ink, 0, |w|);
    assert w[|w|..] == "" && w[..|w|] == w;
    assert !Blank.Has(w[0]);
  }

  lemma {:induction false} HuggedRedacted(lead: string, core: string, trail: string, isSensitive: Detector)
    requires Hugged(lead, core, trail) && isSensitive(core)
    ensures RedactPieces([lead + core + trail], isSensitive) == lead + "<redacted>" + trail
  {
    var tok := lead + core + trail;
    CoreIs(lead, core, trail);
    OneWordSplit(tok);
    assert tok[|lead|..|lead| + |core|] == core;
    assert tok[..|lead|] == lead && tok[|lead| + |core|..] == trail;
    hide CoreStart, CoreEnd, IsWhitespace;
    assert RedactPiece(tok, isSensitive) == lead + REDACTED + trail;
    assert RedactPieces([tok][1..], isSensitive) == "";
    assert lead + REDACTED + trail + "" == lead + REDACTED + trail;
  }

  /**
   One sensitive token in any text: it gives way to the marker with its punctuation left in place, and
   nothing else changes, if no other token is sensitive and the marker joins no cluster.
   */
  lemma {:induction false} OneTokenRedacted(a: string, lead: string, core: string, trail: string, b: string, isSensitive: Detector)
    requires Hugged(lead, core, trail) && isSensitive(core)
    requires a == "" || IsWhitespace(a[|a| - 1])
    requires b == "" || IsWhitespace(b[0])
    requires forall i :: 0 <= i < |SplitKeepWs(a)| ==> !IsHit(SplitKeepWs(a)[i], isSensitive)
    requires forall i :: 0 <= i < |SplitKeepWs(b)| ==> !IsHit(SplitKeepWs(b)[i], isSensitive)
    requires NoClusters(a + (lead + "<redacted>" + trail) + b)
    ensures RedactFreeText(a + (lead + core + trail) + b, isSensitive) == a + (lead + "<redacted>" + trail) + b
  {
    hide *;
    var tok, out := lead + core + trail, lead + "<redacted>" + trail;
    CoreIs(lead, core, trail);
    PiecesAround(a, tok, b);
    HuggedRedacted(lead, core, trail, isSensitive);
    RedactAround(a, tok, out, b, isSensitive);
    CollapseIdle(a + out + b);
    Stages(a + tok + b, isSensitive);
  }

  lemma {:induction false} Stages(s: string, isSensitive: Detector)
    ensures RedactFreeText(s, isSensitive) == Collapse(RedactPieces(SplitKeepWs(s), isSensitive))
  {
  }

  lemma {:induction false} PiecesAround(a: string, w: string, b: string)
    requires IsWord(w) && (a == "" || IsWhitespace(a[|a| - 1])) && (b == "" || IsWhitespace(b[0]))
    ensures SplitKeepWs(a + w + b) == SplitKeepWs(a) + ([w] + SplitKeepWs(b))
  {
    hide IsWhitespace, SplitKeepWs, IsWord;
    WordEnds(w);
    OneWordSplit(w);
    SplitConcat(w, b);
    SplitConcat(a, w + b);
    assert a + w + b == a + (w + b);
  }

  lemma {:induction false} RedactAround(a: string, w: string, out: string, b: string, isSensitive: Detector)
    requires forall i :: 0 <= i < |SplitKeepWs(a)| ==> !IsHit(SplitKeepWs(a)[i], isSensitive)
    requires forall i :: 0 <= i < |SplitKeepWs(b)| ==> !IsHit(SplitKeepWs(b)[i], isSensitive)
    requires RedactPieces([w], isSensitive) == out
    ensures RedactPieces(SplitKeepWs(a) + ([w] + SplitKeepWs(b)), isSensitive) == a + out + b
  {
    hide SplitKeepWs, RedactPieces, IsHit;
    RedactPiecesConcat([w], SplitKeepWs(b), isSensitive);
    RedactPiecesConcat(SplitKeepWs(a), [w] + SplitKeepWs(b), isSensitive);
    RedactPiecesIdle(SplitKeepWs(a), isSensitive);
    RedactPiecesIdle(SplitKeepWs(b), isSensitive);
    SplitLossless(a);
    SplitLossless(b);
    assert a + (out + b) == a + out + b;
  }

  lemma {:induction false} WordEnds(w: string)
    requires IsWord(w)
    ensures w != "" && !IsWhitespace(w[0]) && !IsWhitespace(w[|w| - 1])
    ensures forall b: string :: (w + b)[0] == w[0]
  {
    assert !Blank.Has(w[0]) && !Blank.Has(w[|w| - 1]);
  }

  /** Two markers become one exactly when there is only whitespace and joining punctuation between them. */
  lemma {:induction false} TwoMarkers(j: string)
    requires '<' !in j
    ensures Collapse("<redacted>" + j + "<redacted>") ==
      if forall i :: 0 <= i < |j| ==> IsWhitespace(j[i]) || j[i] in JOINING then "<redacted>"
      else "<redacted>" + j + "<redacted>"
  {
    forall i | 0 <= i < |j| ensures Joiner.Has(j[i]) <==> IsWhitespace(j[i]) || j[i] in JOINING {
      JoinersAre(j[i]);
    }
    hide IsWhitespace;
    if All(j, Joiner) {
      ClusterCountHidden("", j, "");
      assert "" + REDACTED + j + REDACTED + "" == REDACTED + j + REDACTED;
      assert "" + REDACTED + "" == REDACTED;
      MarkerAlone();
    } else {
      MarkersApart(j);
    }
  }

  lemma {:induction false} MarkerAlone()
    ensures Collapse(REDACTED) == REDACTED
  {
    RedactedShape();
    assert REDACTED[|REDACTED|..] == "";
    assert TrimJoin("") == "";
    assert Collapse("") == "" && REDACTED + "" == REDACTED;
  }

  lemma {:induction false} MarkersApart(j: string)
    requires '<' !in j && !All(j, Joiner)
    ensures Collapse(REDACTED + j + REDACTED) == REDACTED + j + REDACTED
  {
    RedactedShape();
    var s, n := REDACTED + j + REDACTED, LeadFrom(j, Joiner, 0);
    assert n < |j|;
    var rest := j + REDACTED;
    assert s == REDACTED + rest && s[|REDACTED|..] == rest;
    assert rest[n] == j[n];
    LeadIs(rest, Joiner, 0, n);
    assert rest[n..][0] == j[n] && j[n] in j;
    assert !MarkerFollows(rest);
    CopiedUpToMarker(j, REDACTED);
    MarkerAlone();
    hide Collapse;
    assert Skip(rest) == rest;
    CollapseMarkerFirst(rest);
  }

  lemma {:induction false} CollapseMarkerFirst(rest: string)
    ensures Collapse(REDACTED + rest) == REDACTED + Collapse(Skip(rest))
  {
    hide Skip;
    RedactedShape();
    assert (REDACTED + rest)[|REDACTED|..] == rest;
  }

  lemma {:induction false} CopiedUpToMarker(j: string, y: string)
    requires '<' !in j
    ensures Collapse(j + y) == j + Collapse(y)
  {
    hide Skip, MarkerFollows;
    RedactedShape();
    if j == "" {
      assert j + y == y && "" + Collapse(y) == Collapse(y);
    } else {
      assert (j + y)[0] == j[0] && j[0] in j;
      assert (j + y)[1..] == j[1..] + y;
      CopiedUpToMarker(j[1..], y);
      assert [j[0]] + (j[1..] + Collapse(y)) == j + Collapse(y);
    }
  }
}
