/**
 Removal of a host name or user name: every occurrence bounded by non-word bytes
 gives way to a placeholder, and longer identifiers are left alone.
 */
module Tokens {
  import opened Text
  import opened Marking
  import opened Utf8
  import opened Bytes

  predicate IsWordChar(c: char) { IsAlnum(c) || c == '_' }

  predicate WordAt(s: string, i: nat) { i < |s| && IsWordChar(s[i]) }

  /** Scans `s`; `prev` says whether a word character stands right before it. */
  function Scan(s: string, tok: string, mark: string, prev: bool): string
    requires tok != ""
    decreases |s|
  {
    if tok <= s && !prev && !WordAt(s, |tok|) then
      mark + Scan(s[|tok|..], tok, mark, IsWordChar(tok[|tok| - 1]))
    else if s == "" then ""
    else [s[0]] + Scan(s[1..], tok, mark, IsWordChar(s[0]))
  }

  function ReplaceToken(s: string, tok: string, mark: string): string {
    if tok == "" then s else Scan(s, tok, mark, false)
  }

  lemma {:induction false} ScanEmpty(tok: string, mark: string, prev: bool)
    requires tok != ""
    ensures Scan("", tok, mark, prev) == ""
  {
  }

  /** One turn of the scan. */
  lemma {:induction false} ScanTurn(s: string, tok: string, mark: string, prev: bool, n: nat)
    requires tok != "" && s != ""
    requires n == if tok <= s && !prev && !WordAt(s, |tok|) then |tok| else 1
    ensures Scan(s, tok, mark, prev)
         == (if tok <= s && !prev && !WordAt(s, |tok|) then mark else [s[0]]) + Scan(s[n..], tok, mark, IsWordChar(s[n - 1]))
  {
  }

  lemma {:induction false} ScanRewrites(s: string, tok: string, mark: string, prev: bool)
    requires tok != "" && IsMarker(mark)
    ensures Rewrites(s, Scan(s, tok, mark, prev))
    decreases |s|
  {
    if tok <= s && !prev && !WordAt(s, |tok|) {
      var rest := s[|tok|..];
      ScanRewrites(rest, tok, mark, IsWordChar(tok[|tok| - 1]));
      RewriteMark(tok, mark, rest, Scan(rest, tok, mark, IsWordChar(tok[|tok| - 1])));
      assert s == tok + rest;
    } else if s == "" {
      RewriteNothing();
    } else {
      ScanRewrites(s[1..], tok, mark, IsWordChar(s[0]));
      RewriteKeep(s[0], s[1..], Scan(s[1..], tok, mark, IsWordChar(s[0])));
      assert s == [s[0]] + s[1..];
    }
  }

  lemma {:induction false} ReplaceTokenRewrites(s: string, tok: string, mark: string)
    requires IsMarker(mark)
    ensures Rewrites(s, ReplaceToken(s, tok, mark))
  {
    if tok == "" { RewriteRefl(s); } else { ScanRewrites(s, tok, mark, false); }
  }

  // ----- no standalone occurrence is left

  /** An occurrence with no word character on either side, given what stands before `s`. */
  predicate StandaloneAfter(prev: bool, s: string, tok: string, i: nat) {
    && At(s, tok, i)
    && !(if i == 0 then prev else IsWordChar(s[i - 1]))
    && !WordAt(s, i + |tok|)
  }

  ghost predicate Away(prev: bool, s: string, tok: string) {
    forall i: nat :: !StandaloneAfter(prev, s, tok, i)
  }

  /** The token stands alone nowhere in `s`. */
  ghost predicate NowhereAlone(s: string, tok: string) {
    Away(false, s, tok)
  }

  /** A token that starts and ends with a word character and holds no angle bracket. */
  predicate IsToken(tok: string) {
    && tok != "" && IsWordChar(tok[0]) && IsWordChar(tok[|tok| - 1])
    && '<' !in tok && '>' !in tok
  }

  /** The placeholder for a word: the word in angle brackets. */
  predicate IsPlaceholder(mark: string, word: string) {
    mark == "<" + word + ">" && forall i :: 0 <= i < |word| ==> IsWordChar(word[i])
  }

  /** A scan that does not open with a marker kept the first character. */
  lemma {:induction false} ScanOpens(s: string, tok: string, mark: string, prev: bool)
    requires tok != "" && IsBracketed(mark)
    ensures var r := Scan(s, tok, mark, prev);
            r != "" && r[0] != '<' ==> s != "" && r == [s[0]] + Scan(s[1..], tok, mark, IsWordChar(s[0]))
  {
  }

  /** Bracket-free text at the head was kept, and scanning went on right behind it. */
  lemma {:induction false} ScanHead(s: string, tok: string, mark: string, prev: bool, q: string)
    requires tok != "" && IsBracketed(mark) && '<' !in q
    requires q <= Scan(s, tok, mark, prev)
    ensures q <= s
    ensures q != "" ==> Scan(s, tok, mark, prev)[|q|..] == Scan(s[|q|..], tok, mark, IsWordChar(q[|q| - 1]))
    decreases |q|
  {
    hide Scan, IsWordChar, IsBracketed;
    if q != "" {
      var r := Scan(s, tok, mark, prev);
      assert q[0] == r[0];
      ScanOpens(s, tok, mark, prev);
      var rest := Scan(s[1..], tok, mark, IsWordChar(s[0]));
      ScanHead(s[1..], tok, mark, IsWordChar(s[0]), q[1..]);
      assert q == [s[0]] + q[1..];
      assert r[|q|..] == rest[|q| - 1..] && s[|q|..] == s[1..][|q| - 1..];
    }
  }

  lemma {:induction false} AloneShift(prev: bool, a: string, b: string, tok: string, i: nat)
    requires a != "" && i >= |a|
    ensures StandaloneAfter(prev, a + b, tok, i)
            <==> StandaloneAfter(IsWordChar(a[|a| - 1]), b, tok, i - |a|)
  {
    AtShift(a, b, tok, i);
    hide At, IsWordChar;
    var s := a + b;
    assert i > |a| && i <= |s| ==> s[i - 1] == b[i - |a| - 1];
    assert i + |tok| < |s| ==> s[i + |tok|] == b[i + |tok| - |a|];
  }

  lemma {:induction false} AloneAtHead(prev: bool, s: string, tok: string)
    ensures StandaloneAfter(prev, s, tok, 0) <==> tok <= s && !prev && !WordAt(s, |tok|)
  {
  }

  lemma {:induction false} ScanCleanAt(s: string, tok: string, mark: string, word: string, prev: bool, shown: bool, i: nat)
    requires IsToken(tok) && IsPlaceholder(mark, word) && tok != word
    requires shown == prev || !WordAt(s, 0)
    ensures !StandaloneAfter(shown, Scan(s, tok, mark, prev), tok, i)
    decreases |s|
  {
    hide Scan, StandaloneAfter, IsWordChar;
    var r := Scan(s, tok, mark, prev);
    if s == "" {
      ScanEmpty(tok, mark, prev);
      AloneAtHead(shown, "", tok);
      NothingAlone(shown, tok, i);
    } else if tok <= s && !prev && !WordAt(s, |tok|) {
      ScanTurn(s, tok, mark, prev, |tok|);
      var p := IsWordChar(s[|tok| - 1]);
      if i < |mark| {
        OutsidePlaceholder(mark, word, Scan(s[|tok|..], tok, mark, p), shown, tok, i);
      } else {
        AloneShift(shown, mark, Scan(s[|tok|..], tok, mark, p), tok, i);
        ClosesMark(mark, word);
        NotBehind(s, |tok|);
        ScanCleanAt(s[|tok|..], tok, mark, word, p, false, i - |mark|);
      }
    } else {
      ScanTurn(s, tok, mark, prev, 1);
      var p := IsWordChar(s[0]);
      if i > 0 {
        AloneShift(shown, [s[0]], Scan(s[1..], tok, mark, p), tok, i);
        ScanCleanAt(s[1..], tok, mark, word, p, p, i - 1);
      } else {
        AloneAtHead(shown, r, tok);
        if tok <= r {
          ClosesMark(mark, word);
          ScanHead(s, tok, mark, prev, tok);
          ScanNext(r, s, tok, tok, mark);
          HeadIsWord(s, tok);
        }
      }
    }
  }

  lemma {:induction false} NothingAlone(prev: bool, tok: string, i: nat)
    requires tok != ""
    ensures !StandaloneAfter(prev, "", tok, i)
  {
  }

  lemma {:induction false} ClosesMark(mark: string, word: string)
    requires IsPlaceholder(mark, word)
    ensures mark != "" && !IsWordChar(mark[|mark| - 1]) && IsBracketed(mark)
  {
    assert mark[|mark| - 1] == '>';
  }

  lemma {:induction false} NotBehind(s: string, n: nat)
    requires !WordAt(s, n) && n <= |s|
    ensures !WordAt(s[n..], 0)
  {
  }

  lemma {:induction false} HeadIsWord(s: string, tok: string)
    requires IsToken(tok) && tok <= s
    ensures WordAt(s, 0)
  {
    assert s[0] == tok[0];
  }

  /** What follows a kept token is what followed it in the input. */
  lemma {:induction false} ScanNext(r: string, s: string, q: string, tok: string, mark: string)
    requires IsToken(tok) && q <= r && q <= s && r[|q|..] == Scan(s[|q|..], tok, mark, true)
    ensures WordAt(r, |q|) == WordAt(s, |q|)
  {
    assert WordAt(r, |q|) == WordAt(r[|q|..], 0);
    assert WordAt(s, |q|) == WordAt(s[|q|..], 0);
  }

  /** Nothing standalone starts inside the placeholder, unless it is the placeholder's word. */
  lemma {:induction false} OutsidePlaceholder(mark: string, word: string, rest: string, shown: bool, tok: string, i: nat)
    requires IsToken(tok) && IsPlaceholder(mark, word) && tok != word && i < |mark|
    ensures !StandaloneAfter(shown, mark + rest, tok, i)
  {
    var s := mark + rest;
    if i == 0 {
      Differs(s, tok, 0, 0);
    } else if i + |tok| >= |mark| {
      Differs(s, tok, i, |mark| - 1 - i);
    } else if i == 1 && |tok| == |word| {
      assert s[1..1 + |tok|] == word;
    } else if i > 1 {
      assert s[i - 1] == word[i - 2];
    } else {
      assert s[i + |tok|] == word[|tok|];
    }
  }

  /** After the removal no standalone occurrence of the token is left. */
  lemma {:induction false} ReplaceTokenClean(s: string, tok: string, mark: string, word: string)
    requires IsToken(tok) && IsPlaceholder(mark, word) && tok != word
    ensures NowhereAlone(ReplaceToken(s, tok, mark), tok)
  {
    forall i: nat ensures !StandaloneAfter(false, ReplaceToken(s, tok, mark), tok, i) {
      ScanCleanAt(s, tok, mark, word, false, false, i);
    }
  }

  // ----- text without a standalone occurrence is a fixed point

  lemma {:induction false} ScanIdle(s: string, tok: string, mark: string, prev: bool)
    requires tok != "" && Away(prev, s, tok)
    ensures Scan(s, tok, mark, prev) == s
    decreases |s|
  {
    assert !StandaloneAfter(prev, s, tok, 0);
    if s != "" {
      var t, p := s[1..], IsWordChar(s[0]);
      assert s == [s[0]] + t;
      forall i: nat ensures !StandaloneAfter(p, t, tok, i) {
        AtShift([s[0]], t, tok, i + 1);
        assert !StandaloneAfter(prev, s, tok, i + 1);
      }
      ScanIdle(t, tok, mark, p);
    }
  }

  /** Removal is idempotent; its fixed points are the texts without a standalone occurrence. */
  lemma {:induction false} ReplaceTokenIdempotent(s: string, tok: string, mark: string, word: string)
    requires IsToken(tok) && IsPlaceholder(mark, word) && tok != word
    ensures var r := ReplaceToken(s, tok, mark); ReplaceToken(r, tok, mark) == r
    ensures ReplaceToken(s, tok, mark) == s <==> NowhereAlone(s, tok)
  {
    ReplaceTokenClean(s, tok, mark, word);
    ScanIdle(ReplaceToken(s, tok, mark), tok, mark, false);
    if NowhereAlone(s, tok) {
      ScanIdle(s, tok, mark, false);
    }
  }

  /** A letter, a digit or an underscore stands at `k`. */
  predicate InWord(s: string, k: int) {
    0 <= k < |s| && ('a' <= s[k] <= 'z' || 'A' <= s[k] <= 'Z' || '0' <= s[k] <= '9' || s[k] == '_')
  }

  lemma {:induction false} AloneIs(s: string, tok: string, i: nat)
    ensures StandaloneAfter(false, s, tok, i) <==> At(s, tok, i) && !InWord(s, i - 1) && !InWord(s, i + |tok|)
  {
  }

  /**
   In characters: no occurrence is left that has neither a letter, a digit nor an underscore right before or
   behind it; and a text in which every occurrence has one is not changed.
   */
  lemma {:induction false} OnlyStandaloneGo(s: string, tok: string, mark: string, word: string)
    requires IsToken(tok) && IsPlaceholder(mark, word) && tok != word
    ensures var r := ReplaceToken(s, tok, mark);
            forall i: nat :: At(r, tok, i) ==> InWord(r, i - 1) || InWord(r, i + |tok|)
    ensures (forall i: nat :: At(s, tok, i) ==> InWord(s, i - 1) || InWord(s, i + |tok|)) ==> ReplaceToken(s, tok, mark) == s
  {
    ReplaceTokenClean(s, tok, mark, word);
    hide StandaloneAfter, InWord, At, Scan;
    var r := ReplaceToken(s, tok, mark);
    forall i: nat | At(r, tok, i) ensures InWord(r, i - 1) || InWord(r, i + |tok|) {
      AloneIs(r, tok, i);
      assert !StandaloneAfter(false, r, tok, i);
    }
    if forall i: nat :: At(s, tok, i) ==> InWord(s, i - 1) || InWord(s, i + |tok|) {
      forall i: nat ensures !StandaloneAfter(false, s, tok, i) {
        AloneIs(s, tok, i);
      }
      ScanIdle(s, tok, mark, false);
    }
  }

  // ----- two tokens in turn

  /** Removing one token does not make another one stand alone. */
  lemma {:induction false} ScanKeepsAway(s: string, tok: string, mark: string, word: string, other: string,
                                         prev: bool, shown: bool, i: nat)
    requires IsToken(tok) && IsToken(other) && IsPlaceholder(mark, word) && other != word
    requires Away(prev, s, other)
    requires shown == prev || !WordAt(s, 0)
    ensures !StandaloneAfter(shown, Scan(s, tok, mark, prev), other, i)
    decreases |s|
  {
    hide Scan, StandaloneAfter, IsWordChar, Away;
    var r := Scan(s, tok, mark, prev);
    if s == "" {
      ScanEmpty(tok, mark, prev);
      NothingAlone(shown, other, i);
    } else if tok <= s && !prev && !WordAt(s, |tok|) {
      ScanTurn(s, tok, mark, prev, |tok|);
      var p := IsWordChar(s[|tok| - 1]);
      if i < |mark| {
        OutsidePlaceholder(mark, word, Scan(s[|tok|..], tok, mark, p), shown, other, i);
      } else {
        AloneShift(shown, mark, Scan(s[|tok|..], tok, mark, p), other, i);
        ClosesMark(mark, word);
        NotBehind(s, |tok|);
        AwayInTail(s, other, prev, |tok|);
        ScanKeepsAway(s[|tok|..], tok, mark, word, other, p, false, i - |mark|);
      }
    } else {
      ScanTurn(s, tok, mark, prev, 1);
      var p := IsWordChar(s[0]);
      if i > 0 {
        AloneShift(shown, [s[0]], Scan(s[1..], tok, mark, p), other, i);
        AwayInTail(s, other, prev, 1);
        ScanKeepsAway(s[1..], tok, mark, word, other, p, p, i - 1);
      } else {
        AloneAtHead(shown, r, other);
        if other <= r {
          ClosesMark(mark, word);
          ScanHead(s, tok, mark, prev, other);
          ScanNext(r, s, other, tok, mark);
          HeadIsWord(s, other);
          AwayAtHead(prev, s, other);
        }
      }
    }
  }

  lemma {:induction false} AwayAtHead(prev: bool, s: string, tok: string)
    requires Away(prev, s, tok)
    ensures !(tok <= s && !prev && !WordAt(s, |tok|))
  {
    assert !StandaloneAfter(prev, s, tok, 0);
  }

  lemma {:induction false} AwayInTail(s: string, tok: string, prev: bool, n: nat)
    requires 0 < n <= |s| && Away(prev, s, tok)
    ensures Away(IsWordChar(s[n - 1]), s[n..], tok)
  {
    var t, p := s[n..], IsWordChar(s[n - 1]);
    assert s == s[..n] + t;
    forall j: nat ensures !StandaloneAfter(p, t, tok, j) {
      AtShift(s[..n], t, tok, j + n);
      assert !StandaloneAfter(prev, s, tok, j + n);
    }
  }

  ghost predicate FirstAlone(prev: bool, s: string, tok: string, i: nat) {
    && StandaloneAfter(prev, s, tok, i)
    && forall j: nat :: j < i ==> !StandaloneAfter(prev, s, tok, j)
  }

  lemma {:induction false} FirstInTail(prev: bool, s: string, tok: string, i: nat)
    requires tok != "" && FirstAlone(prev, s, tok, i) && i > 0
    ensures s != "" && FirstAlone(IsWordChar(s[0]), s[1..], tok, i - 1)
    ensures i + |tok| <= |s| && !StandaloneAfter(prev, s, tok, 0)
  {
    assert i + |tok| <= |s|;
    hide StandaloneAfter, IsWordChar;
    var t, p := s[1..], IsWordChar(s[0]);
    assert s == [s[0]] + t;
    forall j: nat | j < i ensures StandaloneAfter(p, t, tok, j) <==> StandaloneAfter(prev, s, tok, j + 1) {
      AloneShift(prev, [s[0]], t, tok, j + 1);
    }
    AloneShift(prev, [s[0]], t, tok, i);
  }

  /** The first standalone occurrence is replaced whole, and scanning resumes right behind it. */
  lemma {:induction false} ScanFirst(s: string, tok: string, mark: string, prev: bool, i: nat)
    requires tok != "" && i + |tok| <= |s| && FirstAlone(prev, s, tok, i)
    ensures Scan(s, tok, mark, prev)
         == s[..i] + (mark + Scan(s[i + |tok|..], tok, mark, IsWordChar(tok[|tok| - 1])))
    decreases i
  {
    hide At, FirstAlone, StandaloneAfter, Scan;
    if i > 0 {
      var t, rest := s[1..], s[i + |tok|..];
      FirstInTail(prev, s, tok, i);
      ScanFirst(t, tok, mark, IsWordChar(s[0]), i - 1);
      assert t[i - 1 + |tok|..] == rest;
      HeadNotAlone(prev, s, tok, mark);
      assert s[..i] == [s[0]] + t[..i - 1];
    } else {
      HeadAlone(prev, s, tok, mark);
      assert s[..0] + (mark + Scan(s[|tok|..], tok, mark, IsWordChar(tok[|tok| - 1])))
          == mark + Scan(s[|tok|..], tok, mark, IsWordChar(tok[|tok| - 1]));
    }
  }

  lemma {:induction false} HeadAlone(prev: bool, s: string, tok: string, mark: string)
    requires tok != "" && FirstAlone(prev, s, tok, 0)
    ensures tok <= s
    ensures Scan(s, tok, mark, prev) == mark + Scan(s[|tok|..], tok, mark, IsWordChar(tok[|tok| - 1]))
  {
  }

  lemma {:induction false} HeadNotAlone(prev: bool, s: string, tok: string, mark: string)
    requires tok != "" && s != "" && !StandaloneAfter(prev, s, tok, 0)
    ensures Scan(s, tok, mark, prev) == [s[0]] + Scan(s[1..], tok, mark, IsWordChar(s[0]))
  {
  }

  /** Where the token cannot be replaced, one character is kept. */
  lemma {:induction false} ScanKeeps(c: char, rest: string, tok: string, mark: string, prev: bool)
    requires tok != "" && (prev || !(tok <= [c] + rest) || WordAt([c] + rest, |tok|))
    ensures Scan([c] + rest, tok, mark, prev) == [c] + Scan(rest, tok, mark, IsWordChar(c))
  {
    var s := [c] + rest;
    ScanTurn(s, tok, mark, prev, 1);
    assert s[1..] == rest;
  }

  /** Inside a placeholder's word nothing of another token is found. */
  lemma {:induction false} ScanWordTail(u: string, b: string, tok: string, mark: string)
    requires IsToken(tok) && forall i :: 0 <= i < |u| ==> IsWordChar(u[i])
    ensures Scan(u + ">" + b, tok, mark, true) == u + (">" + Scan(b, tok, mark, false))
    decreases |u|
  {
    hide Scan;
    if u == "" {
      assert u + ">" + b == ['>'] + b;
      ScanKeeps('>', b, tok, mark, true);
    } else {
      var rest := u[1..] + ">" + b;
      assert u + ">" + b == [u[0]] + rest;
      ScanKeeps(u[0], rest, tok, mark, true);
      ScanWordTail(u[1..], b, tok, mark);
      assert u == [u[0]] + u[1..];
    }
  }

  lemma {:induction false} ScanPlaceholder(shown: string, word: string, b: string, tok: string, mark: string, prev: bool)
    requires IsToken(tok) && IsPlaceholder(shown, word) && tok != word
    ensures Scan(shown + b, tok, mark, prev) == shown + Scan(b, tok, mark, false)
  {
    hide Scan;
    var t, tail := word + ">" + b, Scan(b, tok, mark, false);
    assert shown + b == ['<'] + t;
    BracketNotToken(t, tok);
    ScanKeeps('<', t, tok, mark, prev);
    if word == "" {
      assert t == ['>'] + b;
      BracketNotToken(b, tok);
      ScanKeeps('>', b, tok, mark, false);
    } else {
      var rest := word[1..] + ">" + b;
      assert t == [word[0]] + rest;
      PlaceholderWordKept(word, b, tok);
      ScanKeeps(word[0], rest, tok, mark, false);
      ScanWordTail(word[1..], b, tok, mark);
      assert word == [word[0]] + word[1..];
    }
    assert shown + tail == ['<'] + (word + (">" + tail));
  }

  lemma {:induction false} BracketNotToken(rest: string, tok: string)
    requires IsToken(tok)
    ensures !(tok <= ['<'] + rest) && !(tok <= ['>'] + rest)
  {
    assert tok[0] in tok;
  }

  lemma {:induction false} PlaceholderWordKept(word: string, b: string, tok: string)
    requires IsToken(tok) && tok != word && forall i :: 0 <= i < |word| ==> IsWordChar(word[i])
    ensures var t := word + ">" + b; tok <= t ==> WordAt(t, |tok|)
  {
    var t := word + ">" + b;
    if |tok| > |word| {
      Differs(t, tok, 0, |word|);
      assert !At(t, tok, 0);
    } else if tok <= t {
      assert t[..|tok|] == word[..|tok|];
      assert |tok| < |word| ==> t[|tok|] == word[|tok|];
    }
  }

  /** A placeholder already in the text splits the scan in two. */
  lemma {:induction false} ScanAcross(a: string, shown: string, word: string, b: string, tok: string, mark: string, prev: bool)
    requires IsToken(tok) && IsPlaceholder(shown, word) && tok != word
    ensures Scan(a + shown + b, tok, mark, prev)
         == Scan(a, tok, mark, prev) + (shown + Scan(b, tok, mark, false))
    decreases |a|
  {
    hide Scan;
    if a == "" {
      assert a + shown + b == shown + b;
      assert Scan("", tok, mark, prev) == "" by { ScanEmpty(tok, mark, prev); }
      ScanPlaceholder(shown, word, b, tok, mark, prev);
    } else {
      var z := shown + b;
      HeadBeforePlaceholder(a, z, tok);
      assert a + shown + b == a + z;
      var n := if tok <= a && !prev && !WordAt(a, |tok|) then |tok| else 1;
      assert (a + z)[n..] == a[n..] + shown + b;
      ScanAcross(a[n..], shown, word, b, tok, mark, IsWordChar(a[n - 1]));
      ScanTurn(a, tok, mark, prev, n);
      ScanTurn(a + z, tok, mark, prev, n);
    }
  }

  lemma {:induction false} HeadBeforePlaceholder(a: string, z: string, tok: string)
    requires IsToken(tok) && a != "" && z != "" && z[0] == '<'
    ensures tok <= a + z <==> tok <= a
    ensures tok <= a ==> (WordAt(a + z, |tok|) <==> WordAt(a, |tok|))
  {
    var s := a + z;
    if |tok| > |a| {
      Differs(s, tok, 0, |a|);
      assert !At(s, tok, 0);
    } else {
      assert s[..|tok|] == a[..|tok|];
    }
  }

  // ----- identifiers are preserved: the word-by-word reading

  /** The length of the run of word characters at the head. */
  function RunLength(s: string): (n: nat)
    ensures n <= |s|
    ensures forall i :: 0 <= i < n ==> IsWordChar(s[i])
    ensures !WordAt(s, n)
  {
    if WordAt(s, 0) then 1 + RunLength(s[1..]) else 0
  }

  /** Each maximal word equal to the token is replaced; everything else is copied. */
  function WordByWord(s: string, tok: string, mark: string): string
    decreases |s|
  {
    if s == "" then ""
    else
      var n := RunLength(s);
      if n == 0 then [s[0]] + WordByWord(s[1..], tok, mark)
      else (if s[..n] == tok then mark else s[..n]) + WordByWord(s[n..], tok, mark)
  }

  /** Inside a word nothing is replaced. */
  lemma {:induction false} ScanInsideWord(s: string, tok: string, mark: string)
    requires IsToken(tok)
    ensures Scan(s, tok, mark, true) == s[..RunLength(s)] + Scan(s[RunLength(s)..], tok, mark, false)
    decreases |s|
  {
    hide IsWordChar;
    var n := RunLength(s);
    if n > 0 {
      ScanInsideWord(s[1..], tok, mark);
      assert s[..n] == [s[0]] + s[1..][..n - 1];
      assert s[1..][n - 1..] == s[n..];
    } else {
      assert s[0..] == s;
    }
  }

  /** At a word the scan copies it whole or, when it is the token, replaces it. */
  lemma {:induction false} ScanWord(s: string, tok: string, mark: string)
    requires WordAt(s, 0) && tok != "" && forall i :: 0 <= i < |tok| ==> IsWordChar(tok[i])
    ensures var n := RunLength(s);
            Scan(s, tok, mark, false) == (if s[..n] == tok then mark else s[..n]) + Scan(s[n..], tok, mark, false)
  {
    var n := RunLength(s);
    WordHead(s, tok);
    if s[..n] == tok {
      ScanInsideWord(s[n..], tok, mark);
      assert s[n..][0..] == s[n..];
    } else {
      assert Scan(s, tok, mark, false) == [s[0]] + Scan(s[1..], tok, mark, true);
      ScanKept(s, tok, mark);
    }
  }

  lemma {:induction false} ScanKept(s: string, tok: string, mark: string)
    requires WordAt(s, 0) && IsToken(tok)
    ensures var n := RunLength(s);
            [s[0]] + Scan(s[1..], tok, mark, true) == s[..n] + Scan(s[n..], tok, mark, false)
  {
    var n, t := RunLength(s), s[1..];
    ScanInsideWord(t, tok, mark);
    assert t[n - 1..] == s[n..];
    assert s[..n] == [s[0]] + t[..n - 1];
  }

  /** For a token made of word characters the scan is the word-by-word replacement. */
  lemma {:induction false} ReplaceTokenIsWordByWord(s: string, tok: string, mark: string)
    requires tok != "" && forall i :: 0 <= i < |tok| ==> IsWordChar(tok[i])
    ensures ReplaceToken(s, tok, mark) == WordByWord(s, tok, mark)
    decreases |s|
  {
    if s != "" {
      var n := RunLength(s);
      if n == 0 {
        ReplaceTokenIsWordByWord(s[1..], tok, mark);
      } else {
        ScanWord(s, tok, mark);
        ReplaceTokenIsWordByWord(s[n..], tok, mark);
      }
    }
  }

  /** At the start of a word, a token of word characters stands alone exactly when it is the word. */
  lemma {:induction false} WordHead(s: string, tok: string)
    requires tok != "" && forall i :: 0 <= i < |tok| ==> IsWordChar(tok[i])
    ensures tok <= s && !WordAt(s, |tok|) <==> s[..RunLength(s)] == tok
  {
    var n := RunLength(s);
    if tok <= s {
      assert forall i :: 0 <= i < |tok| ==> s[i] == tok[i];
      if |tok| == n {
        assert s[..n] == tok;
      }
    }
  }

  // ----- the byte cursor

  predicate IsWordByte(b: Byte) {
    || 'a' as int <= b <= 'z' as int || 'A' as int <= b <= 'Z' as int
    || '0' as int <= b <= '9' as int || b == '_' as int
  }

  /** A word byte at a character boundary is a word character, on either side. */
  lemma {:induction false} BoundaryBytes(bs: seq<Byte>, s: string, i: nat, k: nat)
    requires Cursor(bs, s, i, k)
    ensures i < |bs| && IsWordByte(bs[i]) <==> WordAt(s, k)
    ensures 0 < i <= |bs| && IsWordByte(bs[i - 1]) <==> k > 0 && IsWordChar(s[k - 1])
  {
    CursorTail(bs, s, i, k);
    if k < |s| {
      ByteAt(bs, s, i, k);
    }
    if k > 0 {
      ByteBefore(bs, s, i, k);
    }
  }

  /** The token stands at byte `i` with no word byte on either side. */
  predicate AloneAtByte(bs: seq<Byte>, token: seq<Byte>, i: nat)
    requires i <= |bs|
  {
    && token <= bs[i..]
    && (i == 0 || !IsWordByte(bs[i - 1]))
    && (i + |token| >= |bs| || !IsWordByte(bs[i + |token|]))
  }

  /** `tok` stands alone at character `k`. */
  ghost predicate AloneAt(s: string, tok: string, k: nat) {
    && k <= |s| && tok <= s[k..]
    && !(k > 0 && IsWordChar(s[k - 1])) && !WordAt(s, k + |tok|)
  }

  lemma {:induction false} AloneAtBoth(bs: seq<Byte>, s: string, i: nat, k: nat, tok: string)
    requires Cursor(bs, s, i, k)
    ensures i <= |bs| && (AloneAtByte(bs, Encode(tok), i) <==> AloneAt(s, tok, k))
  {
    CursorTail(bs, s, i, k);
    EncodePrefix(tok, s[k..]);
    BoundaryBytes(bs, s, i, k);
    if tok <= s[k..] {
      CursorJump(bs, s, i, k, tok);
      BoundaryBytes(bs, s, i + |Encode(tok)|, k + |tok|);
    }
  }

  /** The scan of what follows character `k`, as bytes. */
  ghost function ScanFrom(s: string, tok: string, mark: string, k: nat): seq<Byte>
    requires tok != "" && k <= |s|
  {
    Encode(Scan(s[k..], tok, mark, k > 0 && IsWordChar(s[k - 1])))
  }

  lemma {:induction false} ScanFromEnds(s: string, tok: string, mark: string)
    requires tok != ""
    ensures ScanFrom(s, tok, mark, 0) == Encode(Scan(s, tok, mark, false))
    ensures ScanFrom(s, tok, mark, |s|) == []
  {
    assert s[0..] == s;
  }

  lemma {:induction false} ScanFromToken(s: string, tok: string, mark: string, k: nat)
    requires tok != "" && AloneAt(s, tok, k)
    ensures k + |tok| <= |s|
    ensures ScanFrom(s, tok, mark, k) == Encode(mark) + ScanFrom(s, tok, mark, k + |tok|)
  {
    var n := k + |tok|;
    assert s[k..][|tok|..] == s[n..] && s[n - 1] == tok[|tok| - 1];
    assert WordAt(s[k..], |tok|) == WordAt(s, n);
    EncodeConcat(mark, Scan(s[n..], tok, mark, IsWordChar(s[n - 1])));
  }

  lemma {:induction false} ScanFromChar(s: string, tok: string, mark: string, k: nat)
    requires tok != "" && k < |s| && !AloneAt(s, tok, k)
    ensures ScanFrom(s, tok, mark, k) == Encode([s[k]]) + ScanFrom(s, tok, mark, k + 1)
  {
    assert s[k..][1..] == s[k + 1..];
    assert tok <= s[k..] ==> WordAt(s[k..], |tok|) == WordAt(s, k + |tok|);
    EncodeConcat([s[k]], Scan(s[k + 1..], tok, mark, IsWordChar(s[k])));
  }

  /**
   The scan as the crate runs it, with a byte cursor. Every slice it takes is at a
   character boundary, and its output is the UTF-8 form of `ReplaceToken`.
   */
  method ReplaceTokenBytes(haystack: seq<Byte>, token: seq<Byte>, placeholder: seq<Byte>,
                           ghost s: string, ghost tok: string, ghost mark: string)
    returns (out: seq<Byte>)
    requires haystack == Encode(s) && token == Encode(tok) && placeholder == Encode(mark)
    ensures out == Encode(ReplaceToken(s, tok, mark))
  {
    if |token| == 0 {
      EmptyToken(s, tok, mark);
      return haystack;
    }
    hide Encode, Scan, ScanFrom, Cursor;
    CursorStart(s);
    var i := 0;
    ghost var k: nat := 0;
    out := [];
    while i < |haystack|
      invariant Cursor(haystack, s, i, k) && k <= |s| && tok != ""
      invariant out + ScanFrom(s, tok, mark, k) == ScanFrom(s, tok, mark, 0)
    {
      var piece, next;
      ghost var k';
      piece, next, k' := NextTokenPiece(haystack, token, placeholder, i, s, tok, mark, k);
      Moved(out, piece, ScanFrom(s, tok, mark, k'));
      out := out + piece;
      i, k := next, k';
    }
    AtTheEnd(haystack, s, i, k);
    ScanFromEnds(s, tok, mark);
  }

  lemma {:induction false} EmptyToken(s: string, tok: string, mark: string)
    requires |Encode(tok)| == 0
    ensures ReplaceToken(s, tok, mark) == s
  {
  }

  lemma {:induction false} CursorStart(s: string)
    ensures Cursor(Encode(s), s, 0, 0)
  {
  }

  lemma {:induction false} AtTheEnd(bs: seq<Byte>, s: string, i: nat, k: nat)
    requires Cursor(bs, s, i, k) && i >= |bs|
    ensures k == |s|
  {
    CursorTail(bs, s, i, k);
  }

  /** One turn of the scan: the placeholder for a token that stands alone here, else the character here. */
  method NextTokenPiece(haystack: seq<Byte>, token: seq<Byte>, placeholder: seq<Byte>, i: nat,
                        ghost s: string, ghost tok: string, ghost mark: string, ghost k: nat)
    returns (piece: seq<Byte>, next: nat, ghost k': nat)
    requires token == Encode(tok) && placeholder == Encode(mark) && tok != ""
    requires Cursor(haystack, s, i, k) && i < |haystack| && k <= |s|
    ensures i < next && k' <= |s| && Cursor(haystack, s, next, k')
    ensures ScanFrom(s, tok, mark, k) == piece + ScanFrom(s, tok, mark, k')
  {
    hide Encode, Scan, ScanFrom, AloneAt, AloneAtByte, Cursor, Width;
    CursorTail(haystack, s, i, k);
    AloneAtBoth(haystack, s, i, k, tok);
    if AloneAtByte(haystack, token, i) {
      ScanFromToken(s, tok, mark, k);
      AloneIsHere(s, tok, k);
      CursorJump(haystack, s, i, k, tok);
      return placeholder, i + |token|, k + |tok|;
    }
    ScanFromChar(s, tok, mark, k);
    CursorStep(haystack, s, i, k);
    var w := Width(haystack[i]);
    WidthPositive(haystack[i]);
    return haystack[i..i + w], i + w, k + 1;
  }

  lemma {:induction false} WidthPositive(b: Byte)
    ensures Width(b) >= 1
  {
  }

  lemma {:induction false} AloneIsHere(s: string, tok: string, k: nat)
    requires AloneAt(s, tok, k) && tok != ""
    ensures k <= |s| && tok <= s[k..] && |Encode(tok)| > 0
  {
  }
}
