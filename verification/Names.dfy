/**
 Which names path anchoring and path dropping can bring to light. Both stages cut
 the text into pieces and put markers between them, so a name can only come to
 stand alone at the edge of a piece.
 */
module Names {
  import opened Text
  import opened Marking
  import opened Replacing
  import opened Tokens
  import opened Paths

  // ----- across a marker

  /** Left of a marker a token stands alone exactly when it does in the text that ends there. */
  lemma {:induction false} AloneLeft(a: string, mark: string, b: string, tok: string, i: nat)
    requires mark != "" && !IsWordChar(mark[0]) && i + |tok| <= |a|
    ensures StandaloneAfter(false, a + mark + b, tok, i) <==> StandaloneAfter(false, a, tok, i)
  {
    var s := a + mark + b;
    assert s[i..i + |tok|] == a[i..i + |tok|];
    assert s[|a|] == mark[0];
  }

  /** Nothing that starts left of a marker reaches into it. */
  lemma {:induction false} NoneAcross(a: string, mark: string, b: string, tok: string, i: nat)
    requires mark != "" && mark[0] !in tok && i < |a| < i + |tok|
    ensures !StandaloneAfter(false, a + mark + b, tok, i)
  {
    Differs(a + mark + b, tok, i, |a| - i);
  }

  lemma {:induction false} AloneInMark(a: string, mark: string, word: string, b: string, tok: string, i: nat)
    requires IsToken(tok) && IsPlaceholder(mark, word) && tok != word
    requires |a| <= i < |a| + |mark|
    ensures !StandaloneAfter(false, a + mark + b, tok, i)
  {
    assert a + mark + b == a + (mark + b);
    if a == "" {
      assert a + (mark + b) == mark + b;
      OutsidePlaceholder(mark, word, b, false, tok, i);
    } else {
      AloneShift(false, a, mark + b, tok, i);
      OutsidePlaceholder(mark, word, b, IsWordChar(a[|a| - 1]), tok, i - |a|);
    }
  }

  lemma {:induction false} AloneRight(a: string, mark: string, word: string, b: string, tok: string, i: nat)
    requires IsPlaceholder(mark, word)
    ensures StandaloneAfter(false, a + mark + b, tok, |a| + |mark| + i) <==> StandaloneAfter(false, b, tok, i)
  {
    ClosesMark(mark, word);
    assert (a + mark)[|a + mark| - 1] == mark[|mark| - 1];
    AloneShift(false, a + mark, b, tok, |a| + |mark| + i);
  }

  lemma {:induction false} MarkShowsWord(a: string, mark: string, word: string, b: string)
    requires IsPlaceholder(mark, word)
    ensures StandaloneAfter(false, a + mark + b, word, |a| + 1)
  {
    var s, i := a + mark + b, |a| + 1;
    assert s[i..i + |word|] == word;
    assert s[|a|] == '<' && s[i + |word|] == '>';
  }

  /** A token stands alone in marked text exactly when it does on one side, or is the marker's word. */
  lemma {:induction false} AloneAcross(a: string, mark: string, word: string, b: string, tok: string)
    requires IsToken(tok) && IsPlaceholder(mark, word)
    ensures NowhereAlone(a + mark + b, tok) <==> NowhereAlone(a, tok) && NowhereAlone(b, tok) && tok != word
  {
    hide StandaloneAfter, IsToken, IsPlaceholder;
    var s := a + mark + b;
    MarkEnds(mark, word);
    MarkShowsWord(a, mark, word, b);
    if NowhereAlone(s, tok) {
      forall i: nat ensures !StandaloneAfter(false, a, tok, i) {
        if i + |tok| <= |a| {
          AloneLeft(a, mark, b, tok, i);
          assert !StandaloneAfter(false, s, tok, i);
        } else {
          PastEnd(a, tok, i);
        }
      }
      forall i: nat ensures !StandaloneAfter(false, b, tok, i) {
        AloneRight(a, mark, word, b, tok, i);
        assert !StandaloneAfter(false, s, tok, |a| + |mark| + i);
      }
    }
    if NowhereAlone(a, tok) && NowhereAlone(b, tok) && tok != word {
      forall i: nat ensures !StandaloneAfter(false, s, tok, i) {
        if i + |tok| <= |a| {
          AloneLeft(a, mark, b, tok, i);
        } else if i < |a| {
          NoBracketInToken(tok);
          NoneAcross(a, mark, b, tok, i);
        } else if i < |a| + |mark| {
          AloneInMark(a, mark, word, b, tok, i);
        } else {
          AloneRight(a, mark, word, b, tok, i - |a| - |mark|);
        }
      }
    }
  }

  lemma {:induction false} MarkEnds(mark: string, word: string)
    requires IsPlaceholder(mark, word)
    ensures mark != "" && mark[0] == '<' && !IsWordChar(mark[0])
  {
  }

  lemma {:induction false} NoBracketInToken(tok: string)
    requires IsToken(tok)
    ensures '<' !in tok
  {
  }

  lemma {:induction false} PastEnd(s: string, tok: string, i: nat)
    requires i + |tok| > |s|
    ensures !StandaloneAfter(false, s, tok, i)
  {
  }

  // ----- pieces

  /** Every piece is free of the standalone token. */
  ghost predicate AllHide(ps: seq<string>, tok: string) {
    forall k :: 0 <= k < |ps| ==> NowhereAlone(ps[k], tok)
  }

  /** Pieces joined by markers show the token exactly when a piece does, or a marker there is named like it. */
  lemma {:induction false} JoinAlone(ps: seq<string>, mark: string, word: string, tok: string)
    requires IsToken(tok) && IsPlaceholder(mark, word) && ps != []
    ensures NowhereAlone(Join(ps, mark), tok) <==> AllHide(ps, tok) && (tok == word ==> |ps| == 1)
  {
    hide NowhereAlone, IsToken, IsPlaceholder;
    if |ps| > 1 {
      JoinAlone(ps[1..], mark, word, tok);
      AloneAcross(ps[0], mark, word, Join(ps[1..], mark), tok);
      assert AllHide(ps, tok) <==> NowhereAlone(ps[0], tok) && AllHide(ps[1..], tok) by {
        assert forall k :: 0 <= k < |ps[1..]| ==> ps[1..][k] == ps[k + 1];
        assert forall k :: 0 < k < |ps| ==> ps[k] == ps[1..][k - 1];
      }
    }
  }

  /** One more character at the front of the first piece. */
  function Extend(c: char, ps: seq<string>): (r: seq<string>)
    requires ps != []
    ensures |r| == |ps|
  {
    [[c] + ps[0]] + ps[1..]
  }

  lemma {:induction false} JoinExtend(c: char, ps: seq<string>, sep: string)
    requires ps != []
    ensures Join(Extend(c, ps), sep) == [c] + Join(ps, sep)
  {
    var r := Extend(c, ps);
    assert r[1..] == ps[1..];
    if |ps| > 1 {
      assert ([c] + ps[0]) + sep + Join(ps[1..], sep) == [c] + (ps[0] + sep + Join(ps[1..], sep));
    }
  }

  lemma {:induction false} JoinCut(ps: seq<string>, sep: string)
    requires ps != []
    ensures Join([""] + ps, sep) == sep + Join(ps, sep)
  {
    assert ([""] + ps)[1..] == ps;
    assert "" + sep + Join(ps, sep) == sep + Join(ps, sep);
  }

  /** The pieces between the replaced occurrences (`str::split`). */
  function Split(s: string, pat: string): (ps: seq<string>)
    requires pat != ""
    ensures ps != []
    decreases |s|
  {
    if pat <= s then [""] + Split(s[|pat|..], pat)
    else if s == "" then [""]
    else Extend(s[0], Split(s[1..], pat))
  }

  /** Replacing joins the pieces by the marker; joining them by the pattern gives the text back. */
  lemma {:induction false} ReplaceJoins(s: string, pat: string, mark: string)
    requires pat != ""
    ensures Replace(s, pat, mark) == Join(Split(s, pat), mark)
    ensures s == Join(Split(s, pat), pat)
    decreases |s|
  {
    if pat <= s {
      var rest := s[|pat|..];
      ReplaceJoins(rest, pat, mark);
      JoinCut(Split(rest, pat), mark);
      JoinCut(Split(rest, pat), pat);
      assert s == pat + rest;
    } else if s != "" {
      ReplaceJoins(s[1..], pat, mark);
      JoinExtend(s[0], Split(s[1..], pat), mark);
      JoinExtend(s[0], Split(s[1..], pat), pat);
      assert s == [s[0]] + s[1..];
    }
  }

  /** There is one piece exactly when nothing is replaced. */
  lemma {:induction false} OnePiece(s: string, pat: string)
    requires pat != ""
    ensures |Split(s, pat)| == 1 <==> !Occurs(pat, s)
    ensures !Occurs(pat, s) ==> Split(s, pat) == [s]
    decreases |s|
  {
    if pat <= s {
      assert At(s, pat, 0);
    } else if s == "" {
      assert forall i :: !At(s, pat, i);
    } else {
      OccursTail(s, pat);
      OnePiece(s[1..], pat);
      assert s == [s[0]] + s[1..];
    }
  }

  // ----- one root

  /** Where piece `k` stands in the joined text. */
  lemma {:induction false} JoinAround(ps: seq<string>, sep: string, k: nat) returns (l: string, r: string)
    requires k < |ps| && sep != ""
    ensures Join(ps, sep) == l + ps[k] + r
    ensures l == "" <==> k == 0
    ensures k > 0 ==> l[|l| - 1] == sep[|sep| - 1]
    ensures r == "" <==> k == |ps| - 1
    ensures k < |ps| - 1 ==> r[0] == sep[0]
  {
    JoinTurn(ps, sep);
    hide Join;
    if k == 0 {
      l, r := "", if |ps| == 1 then "" else sep + Join(ps[1..], sep);
      FromTheLeft(ps[0], sep, r);
    } else {
      l, r := JoinAround(ps[1..], sep, k - 1);
      Deeper(ps[0], sep, l, ps[k], r);
      l := ps[0] + sep + l;
    }
  }

  lemma {:induction false} JoinTurn(ps: seq<string>, sep: string)
    requires ps != []
    ensures Join(ps, sep) == if |ps| == 1 then ps[0] else ps[0] + sep + Join(ps[1..], sep)
  {
  }

  lemma {:induction false} FromTheLeft(p: string, sep: string, r: string)
    ensures "" + p + r == p + r && p == p + ""
    ensures sep <= r ==> p + sep + r[|sep|..] == p + r
  {
  }

  lemma {:induction false} Deeper(p: string, sep: string, l: string, q: string, r: string)
    ensures p + sep + (l + q + r) == (p + sep + l) + q + r
    ensures sep != "" ==> (p + sep + l)[|p + sep + l| - 1] == if l == "" then sep[|sep| - 1] else l[|l| - 1]
  {
  }

  /** The token opens the piece, and no word character follows it there. */
  predicate Opens(p: string, tok: string) {
    tok <= p && !WordAt(p, |tok|)
  }

  /** The token closes the piece, and no word character precedes it there. */
  predicate Closes(p: string, tok: string) {
    var n := |p| - |tok|;
    n >= 0 && p[n..] == tok && (n == 0 || !IsWordChar(p[n - 1]))
  }

  /**
   Some replaced occurrence of the root stands between a word character of its own and the token:
   the token directly follows it, or directly precedes it, and ends or starts there as a word.
   */
  ghost predicate Exposes(s: string, pat: string, tok: string)
    requires pat != ""
  {
    var ps := Split(s, pat);
    || (exists k :: 0 < k < |ps| && IsWordChar(pat[|pat| - 1]) && Opens(ps[k], tok))
    || (exists k :: 0 <= k < |ps| - 1 && IsWordChar(pat[0]) && Closes(ps[k], tok))
  }

  lemma {:induction false} OpensAlone(p: string, tok: string)
    ensures Opens(p, tok) <==> StandaloneAfter(false, p, tok, 0)
    ensures Closes(p, tok) && tok != "" ==> StandaloneAfter(false, p, tok, |p| - |tok|)
    ensures |p| >= |tok| && StandaloneAfter(false, p, tok, |p| - |tok|) ==> Closes(p, tok)
  {
  }

  /** A token that stands alone in a piece but not in the text stands at an edge where a word character was cut off. */
  lemma {:induction false} AtAnEdge(l: string, p: string, r: string, tok: string, i: nat)
    requires tok != "" && NowhereAlone(l + p + r, tok) && StandaloneAfter(false, p, tok, i)
    ensures || (i == 0 && l != "" && IsWordChar(l[|l| - 1]))
            || (i + |tok| == |p| && r != "" && IsWordChar(r[0]))
  {
    var s, j := l + p + r, |l| + i;
    assert !StandaloneAfter(false, s, tok, j);
    assert s[j..j + |tok|] == p[i..i + |tok|];
    assert i > 0 ==> s[j - 1] == p[i - 1];
    assert i == 0 && l != "" ==> s[j - 1] == l[|l| - 1];
    assert i + |tok| < |p| ==> s[j + |tok|] == p[i + |tok|];
    assert i + |tok| == |p| && r != "" ==> s[j + |tok|] == r[0];
  }

  lemma {:induction false} PieceShows(s: string, pat: string, tok: string, k: nat)
    requires pat != "" && IsToken(tok) && NowhereAlone(s, tok)
    requires k < |Split(s, pat)| && !NowhereAlone(Split(s, pat)[k], tok)
    ensures Exposes(s, pat, tok)
  {
    var ps := Split(s, pat);
    ReplaceJoins(s, pat, "");
    hide Split;
    var l, r := JoinAround(ps, pat, k);
    var i: nat :| StandaloneAfter(false, ps[k], tok, i);
    hide NowhereAlone, StandaloneAfter, IsWordChar;
    AtAnEdge(l, ps[k], r, tok, i);
    OpensAlone(ps[k], tok);
    if i == 0 && l != "" && IsWordChar(l[|l| - 1]) {
      assert 0 < k < |ps| && Opens(ps[k], tok);
    } else {
      assert |ps[k]| - |tok| == i;
      assert 0 <= k < |ps| - 1 && Closes(ps[k], tok);
    }
  }

  /**
   Anchoring one root, exactly: in a text without the standalone name it stays hidden unless the root
   is cut off right next to it, or the anchor itself is named like it and gets written.
   */
  lemma {:induction false} AnchorExposesIff(s: string, pat: string, mark: string, word: string, tok: string)
    requires pat != "" && IsToken(tok) && IsPlaceholder(mark, word) && NowhereAlone(s, tok)
    ensures NowhereAlone(Replace(s, pat, mark), tok)
            <==> !Exposes(s, pat, tok) && (tok == word ==> !Occurs(pat, s))
  {
    var ps := Split(s, pat);
    ReplaceJoins(s, pat, mark);
    JoinAlone(ps, mark, word, tok);
    OnePiece(s, pat);
    hide Split, Replace, IsPlaceholder, Occurs;
    if Exposes(s, pat, tok) {
      var k :| 0 <= k < |ps| && (Opens(ps[k], tok) || Closes(ps[k], tok));
      OpensAlone(ps[k], tok);
      assert !NowhereAlone(ps[k], tok);
    } else {
      forall k | 0 <= k < |ps| ensures NowhereAlone(ps[k], tok) {
        if !NowhereAlone(ps[k], tok) {
          PieceShows(s, pat, tok, k);
        }
      }
    }
  }

  // ----- all roots

  function AnchorWord(anchor: string): string {
    if |anchor| >= 2 then anchor[1..|anchor| - 1] else ""
  }

  lemma {:induction false} AnchorIsPlaceholder(anchor: string)
    requires IsAnchor(anchor)
    ensures IsPlaceholder(anchor, AnchorWord(anchor))
  {
  }

  /** No root exposes the token at its turn. */
  ghost predicate NeverExposes(s: string, rs: seq<Root>, tok: string)
    requires Anchoring(rs)
    decreases |rs|
  {
    rs == []
    || (FirstRoot(rs);
        && !Exposes(s, rs[0].prefix, tok)
        && (tok == AnchorWord(rs[0].anchor) ==> !Occurs(rs[0].prefix, s))
        && NeverExposes(Replace(s, rs[0].prefix, rs[0].anchor), rs[1..], tok))
  }

  lemma {:induction false} AnchoringHides(s: string, rs: seq<Root>, tok: string)
    requires Anchoring(rs) && IsToken(tok) && NowhereAlone(s, tok) && NeverExposes(s, rs, tok)
    ensures NowhereAlone(AnchorRoots(s, rs), tok)
    decreases |rs|
  {
    hide NowhereAlone, Exposes, Replace, Occurs, IsToken, IsPlaceholder;
    if rs != [] {
      var r := rs[0];
      assert IsRoot(r);
      AnchorIsPlaceholder(r.anchor);
      AnchorExposesIff(s, r.prefix, r.anchor, AnchorWord(r.anchor), tok);
      AnchoringHides(Replace(s, r.prefix, r.anchor), rs[1..], tok);
    }
  }

  /** Text in which the pattern starts nowhere is copied up to where it may. */
  lemma {:induction false} ReplaceSkips(k: string, rest: string, pat: string, mark: string)
    requires pat != "" && forall i: nat :: i < |k| ==> !At(k + rest, pat, i)
    ensures Replace(k + rest, pat, mark) == k + Replace(rest, pat, mark)
  {
    var s := k + rest;
    if k == "" {
      assert s == rest && "" + Replace(rest, pat, mark) == Replace(rest, pat, mark);
    } else {
      assert !At(s, pat, 0);
      assert s[1..] == k[1..] + rest;
      forall i: nat | i < |k[1..]| ensures !At(k[1..] + rest, pat, i) {
        AtInTail(s, pat, i);
        assert !At(s, pat, i + 1);
      }
      ReplaceSkips(k[1..], rest, pat, mark);
      assert [s[0]] + (k[1..] + Replace(rest, pat, mark)) == k + Replace(rest, pat, mark);
    }
  }

  /** One step of the replacement. */
  lemma {:induction false} ReplaceStep(s: string, pat: string, mark: string)
    requires pat != "" && s != ""
    ensures pat <= s ==> Replace(s, pat, mark) == mark + Replace(s[|pat|..], pat, mark)
    ensures !(pat <= s) ==> Replace(s, pat, mark) == [s[0]] + Replace(s[1..], pat, mark)
  {
  }

  /** A foreign pattern is replaced on either side of a marker independently. */
  lemma {:induction false} ReplaceAcross(a: string, m: string, b: string, pat: string, mark: string)
    requires IsForeign(pat) && IsMarker(m)
    ensures pat != ""
    ensures Replace(a + m + b, pat, mark) == Replace(a, pat, mark) + m + Replace(b, pat, mark)
    decreases |a|
  {
    hide IsForeign, IsMarker, Replace, At;
    ForeignHead(a, m, b, pat);
    if a == "" {
      MarkerFirst(m, b, pat, mark);
    } else {
      var n := if pat <= a then |pat| else 1;
      ReplaceAcross(a[n..], m, b, pat, mark);
      ReplaceStep(a, pat, mark);
      ReplaceStep(a + m + b, pat, mark);
      DropHead(a, m, b, n);
      Regroup(if pat <= a then mark else [a[0]], Replace(a[n..], pat, mark), m, Replace(b, pat, mark));
    }
  }

  lemma {:induction false} DropHead(a: string, m: string, b: string, n: nat)
    requires 0 < n <= |a|
    ensures (a + m + b)[n..] == a[n..] + m + b && (a + m + b)[0] == a[0]
  {
  }

  lemma {:induction false} Regroup(h: string, a: string, m: string, b: string)
    ensures h + (a + m + b) == (h + a) + m + b
  {
  }

  lemma {:induction false} MarkerFirst(m: string, b: string, pat: string, mark: string)
    requires pat != "" && IsForeign(pat) && IsMarker(m)
    ensures Replace("" + m + b, pat, mark) == Replace("", pat, mark) + m + Replace(b, pat, mark)
  {
    hide IsMarker, IsForeign;
    assert "" + m + b == m + b;
    forall i: nat | i < |m| ensures !At(m + b, pat, i) {
      OutsideMarker(m, b, pat, i);
    }
    ReplaceSkips(m, b, pat, mark);
    assert "" + m + Replace(b, pat, mark) == m + Replace(b, pat, mark);
  }

  /** No foreign text starts left of a marker and reaches into it. */
  lemma {:induction false} ForeignHead(a: string, m: string, b: string, pat: string)
    requires IsForeign(pat) && IsMarker(m)
    ensures pat != "" && (pat <= a + m + b <==> pat <= a)
  {
    hide IsMarker, Meets;
    if |a| < |pat| && pat <= a + m + b {
      TailMeets(a, m, b, pat);
    } else if |pat| <= |a| {
      assert (a + m + b)[..|pat|] == a[..|pat|];
    }
  }

  lemma {:induction false} TailMeets(a: string, m: string, b: string, pat: string)
    requires |a| < |pat| && pat <= a + m + b
    ensures Meets(m, pat[|a|..])
  {
    var q := pat[|a|..];
    forall k | 0 <= k < |q| ensures q[k] == (m + b)[k] {
      assert q[k] == pat[|a| + k] == (a + m + b)[|a| + k];
    }
    HeadMeets(m, b, q);
  }

  ghost predicate AllForeign(rs: seq<Root>) {
    forall i :: 0 <= i < |rs| ==> IsForeign(rs[i].prefix) && IsAnchor(rs[i].anchor)
  }

  lemma {:induction false} ForeignRoots(rs: seq<Root>)
    requires AllForeign(rs)
    ensures Anchoring(rs)
    ensures rs != [] ==> AllForeign(rs[1..]) && IsForeign(rs[0].prefix) && rs[0].prefix != "" && IsAnchor(rs[0].anchor)
  {
  }

  lemma {:induction false} AnchorAcross(a: string, m: string, b: string, rs: seq<Root>)
    requires AllForeign(rs) && IsMarker(m)
    ensures Anchoring(rs)
    ensures AnchorRoots(a + m + b, rs) == AnchorRoots(a, rs) + m + AnchorRoots(b, rs)
    decreases |rs|
  {
    ForeignRoots(rs);
    hide Replace, IsForeign, IsMarker, AllForeign;
    if rs != [] {
      var r := rs[0];
      ReplaceAcross(a, m, b, r.prefix, r.anchor);
      AnchorAcross(Replace(a, r.prefix, r.anchor), m, Replace(b, r.prefix, r.anchor), rs[1..]);
    }
  }

  function AnchorEach(ps: seq<string>, rs: seq<Root>): (r: seq<string>)
    requires Anchoring(rs)
    ensures |r| == |ps| && forall k :: 0 <= k < |ps| ==> r[k] == AnchorRoots(ps[k], rs)
  {
    seq(|ps|, k requires 0 <= k < |ps| => AnchorRoots(ps[k], rs))
  }

  /** Foreign roots are anchored in every piece independently. */
  lemma {:induction false} AnchorJoin(ps: seq<string>, m: string, rs: seq<Root>)
    requires AllForeign(rs) && IsMarker(m) && ps != []
    ensures Anchoring(rs) && AnchorRoots(Join(ps, m), rs) == Join(AnchorEach(ps, rs), m)
  {
    ForeignRoots(rs);
    hide AllForeign, IsMarker, AnchorRoots;
    if |ps| > 1 {
      AnchorJoin(ps[1..], m, rs);
      AnchorAcross(ps[0], m, Join(ps[1..], m), rs);
      assert AnchorEach(ps, rs)[1..] == AnchorEach(ps[1..], rs);
    }
  }

  /** The token stands alone in none of the pieces the text falls into when all roots are cut out. */
  ghost predicate Shielded(s: string, rs: seq<Root>, tok: string)
    requires AllForeign(rs)
    decreases |rs|
  {
    if rs == [] then NowhereAlone(s, tok)
    else
      ForeignRoots(rs);
      var ps := Split(s, rs[0].prefix);
      && (forall k :: 0 <= k < |ps| ==> Shielded(ps[k], rs[1..], tok))
      && (tok == AnchorWord(rs[0].anchor) ==> !Occurs(rs[0].prefix, s))
  }

  /** Anchoring all roots, exactly, for roots that no marker overlaps. */
  lemma {:induction false} AnchoringIff(s: string, rs: seq<Root>, tok: string)
    requires AllForeign(rs) && IsToken(tok)
    ensures Anchoring(rs)
    ensures NowhereAlone(AnchorRoots(s, rs), tok) <==> Shielded(s, rs, tok)
    decreases |rs|
  {
    ForeignRoots(rs);
    hide NowhereAlone, Replace, Occurs, IsToken, IsPlaceholder, AllForeign, IsForeign, IsMarker, Split;
    if rs != [] {
      var r, ps := rs[0], Split(s, rs[0].prefix);
      AnchorIsPlaceholder(r.anchor);
      ClosesMark(r.anchor, AnchorWord(r.anchor));
      ReplaceJoins(s, r.prefix, r.anchor);
      AnchorJoin(ps, r.anchor, rs[1..]);
      JoinAlone(AnchorEach(ps, rs[1..]), r.anchor, AnchorWord(r.anchor), tok);
      OnePiece(s, r.prefix);
      forall k | 0 <= k < |ps|
        ensures NowhereAlone(AnchorEach(ps, rs[1..])[k], tok) <==> Shielded(ps[k], rs[1..], tok)
      {
        AnchoringIff(ps[k], rs[1..], tok);
      }
    }
  }

  // ----- dropped paths

  /** What the path drop keeps: the pieces between the runs. */
  function SplitAtRuns(prev: Option<char>, s: string): (ps: seq<string>)
    ensures ps != []
    decreases |s|
  {
    if s == "" then [""]
    else
      var n := Paths.RunLength(prev, s);
      if n > 0 then [""] + SplitAtRuns(Some(s[n - 1]), s[n..])
      else Extend(s[0], SplitAtRuns(Some(s[0]), s[1..]))
  }

  lemma {:induction false} DropJoins(prev: Option<char>, s: string)
    ensures Drop(prev, s) == Join(SplitAtRuns(prev, s), PATH_DROP)
    decreases |s|
  {
    hide Paths.RunLength;
    if s != "" {
      var n := Paths.RunLength(prev, s);
      if n > 0 {
        DropJoins(Some(s[n - 1]), s[n..]);
        JoinCut(SplitAtRuns(Some(s[n - 1]), s[n..]), PATH_DROP);
      } else {
        DropJoins(Some(s[0]), s[1..]);
        JoinExtend(s[0], SplitAtRuns(Some(s[0]), s[1..]), PATH_DROP);
      }
    }
  }

  lemma {:induction false} NoRunsTail(prev: Option<char>, s: string)
    requires s != "" && Paths.RunLength(prev, s) == 0
    ensures NoRuns(prev, s) <==> NoRuns(Some(s[0]), s[1..])
  {
    hide Paths.RunLength;
    var t := s[1..];
    forall k | 0 <= k < |t|
      ensures Paths.RunLength(PrevAt(Some(s[0]), t, k), t[k..]) == Paths.RunLength(PrevAt(prev, s, k + 1), s[k + 1..])
    {
      assert t[k..] == s[k + 1..];
    }
    if NoRuns(Some(s[0]), t) {
      forall k | 0 <= k < |s| ensures Paths.RunLength(PrevAt(prev, s, k), s[k..]) == 0 {
        if k == 0 {
          assert s[0..] == s;
        } else {
          assert Paths.RunLength(PrevAt(Some(s[0]), t, k - 1), t[k - 1..]) == 0;
        }
      }
    }
  }

  lemma {:induction false} NoRunsHead(prev: Option<char>, s: string)
    ensures s == "" ==> NoRuns(prev, s)
    ensures Paths.RunLength(prev, s) > 0 ==> !NoRuns(prev, s)
  {
    hide Paths.RunLength;
    if s != "" && Paths.RunLength(prev, s) > 0 {
      assert s[0..] == s && Paths.RunLength(PrevAt(prev, s, 0), s[0..]) > 0;
    }
  }

  lemma {:induction false} OnePieceIffNoRuns(prev: Option<char>, s: string)
    ensures |SplitAtRuns(prev, s)| == 1 <==> NoRuns(prev, s)
    ensures NoRuns(prev, s) ==> SplitAtRuns(prev, s) == [s]
    decreases |s|
  {
    hide NoRuns, Paths.RunLength;
    if s == "" {
      NoRunsHead(prev, s);
    } else {
      if Paths.RunLength(prev, s) > 0 {
        NoRunsHead(prev, s);
      } else {
        NoRunsTail(prev, s);
        OnePieceIffNoRuns(Some(s[0]), s[1..]);
        assert s == [s[0]] + s[1..];
      }
    }
  }

  /**
   Dropping the absolute paths, exactly: a name stands alone in the output when it does in one
   of the pieces kept, or when it is the word of the marker and something was dropped.
   */
  lemma {:induction false} DropPathsIff(s: string, tok: string)
    requires IsToken(tok)
    ensures NowhereAlone(DropPaths(s), tok)
            <==> AllHide(SplitAtRuns(None, s), tok) && (tok == "path" ==> NoRuns(None, s))
  {
    DropJoins(None, s);
    JoinAlone(SplitAtRuns(None, s), PATH_DROP, "path", tok);
    OnePieceIffNoRuns(None, s);
  }

  /** A run that starts with a letter stands behind something that may open a path. */
  lemma {:induction false} RunOpens(prev: Option<char>, s: string)
    requires Paths.RunLength(prev, s) > 0
    ensures s != "" && (IsWordChar(s[0]) ==> OpensPath(prev))
  {
  }

  /** `p` is kept from `l + p + r`: behind a run no path character starts it, and a run behind it may open there. */
  predicate MayStand(prev: Option<char>, l: string, p: string, r: string) {
    && (l != "" && p != "" ==> !PathBody.Has(p[0]))
    && (r != "" && IsWordChar(r[0]) && (p != "" || l == "") ==> OpensPath(PrevAt(prev, p, |p|)))
  }

  lemma {:induction false} KeptBehindRun(prev: Option<char>, run: string, last: Option<char>, l: string, p: string, r: string)
    requires run != "" && MayStand(last, l, p, r)
    requires l == "" && p != "" ==> !PathBody.Has(p[0])
    ensures MayStand(prev, run + l, p, r)
  {
    hide OpensPath, IsWordChar;
  }

  lemma {:induction false} KeptBehindChar(prev: Option<char>, c: char, l: string, p: string, r: string)
    requires MayStand(Some(c), l, p, r)
    ensures l == "" ==> MayStand(prev, "", [c] + p, r)
    ensures l != "" ==> MayStand(prev, [c] + l, p, r)
  {
    hide OpensPath, IsWordChar;
  }

  /** Where a kept piece stands in the text. */
  lemma {:induction false} RunsAround(prev: Option<char>, s: string, k: nat) returns (l: string, r: string)
    requires k < |SplitAtRuns(prev, s)|
    ensures s == l + SplitAtRuns(prev, s)[k] + r
    ensures l == "" <==> k == 0
    ensures MayStand(prev, l, SplitAtRuns(prev, s)[k], r)
    decreases |s|
  {
    l, r := "", s;
    if s != "" {
      var n := Paths.RunLength(prev, s);
      if n > 0 {
        RunOpens(prev, s);
        hide Paths.RunLength, OpensPath, IsWordChar;
        if k > 0 {
          l, r := RunsAround(Some(s[n - 1]), s[n..], k - 1);
          KeptBehindRun(prev, s[..n], Some(s[n - 1]), l, SplitAtRuns(prev, s)[k], r);
          CutBack(s, n, l, SplitAtRuns(prev, s)[k], r);
          l := s[..n] + l;
        }
      } else {
        hide Paths.RunLength, MayStand;
        l, r := RunsAround(Some(s[0]), s[1..], k);
        var p := SplitAtRuns(Some(s[0]), s[1..])[k];
        KeptBehindChar(prev, s[0], l, p, r);
        CutBack(s, 1, l, p, r);
        if k > 0 {
          l := [s[0]] + l;
        }
      }
    }
  }

  lemma {:induction false} CutBack(s: string, n: nat, l: string, p: string, r: string)
    requires 0 < n <= |s| && s[n..] == l + p + r
    ensures s == (s[..n] + l) + p + r
    ensures n == 1 ==> s == ([s[0]] + l) + p + r && (l == "" ==> s == "" + ([s[0]] + p) + r)
  {
  }

  /** Dropping paths brings no name to light: it hides in every piece kept when it hides in the text. */
  lemma {:induction false} DropExposesNothing(s: string, tok: string)
    requires IsToken(tok) && NowhereAlone(s, tok)
    ensures AllHide(SplitAtRuns(None, s), tok)
    ensures NowhereAlone(DropPaths(s), tok) <==> (tok == "path" ==> NoRuns(None, s))
  {
    DropPathsIff(s, tok);
    var ps := SplitAtRuns(None, s);
    hide NoRuns, SplitAtRuns, DropPaths;
    forall k | 0 <= k < |ps| ensures NowhereAlone(ps[k], tok) {
      if i: nat :| StandaloneAfter(false, ps[k], tok, i) {
        var l, r := RunsAround(None, s, k);
        AtAnEdge(l, ps[k], r, tok, i);
        NoWordAtRunEdge(ps[k], tok, i);
      }
    }
  }

  /** A word character is a path character and opens no path. */
  lemma {:induction false} NoWordAtRunEdge(p: string, tok: string, i: nat)
    requires IsToken(tok) && StandaloneAfter(false, p, tok, i)
    ensures p != ""
    ensures i == 0 ==> PathBody.Has(p[0])
    ensures i + |tok| == |p| ==> !OpensPath(PrevAt(None, p, |p|))
  {
    assert p[i..i + |tok|] == tok;
    assert p[i] == tok[0] && p[i + |tok| - 1] == tok[|tok| - 1];
  }
}
