/**
 Text as the crates see it: a Rust `str` is a sequence of Unicode scalar values.
 This module defines literal occurrences, character classes, trimming and
 splitting, and the law of leftmost literal replacement (`str::replace`).
 */
module Text {

  datatype Option<+T> = None | Some(value: T)

  /** `p` stands literally in `s` at index `i`. */
  predicate At(s: string, p: string, i: int) {
    0 <= i <= i + |p| <= |s| && s[i..i + |p|] == p
  }

  ghost predicate Occurs(p: string, s: string) {
    exists i :: At(s, p, i)
  }

  /** An occurrence that starts past `a` is one in the rest, and the other way round. */
  lemma {:induction false} AtShift(a: string, b: string, p: string, i: int)
    requires i >= |a|
    ensures At(a + b, p, i) <==> At(b, p, i - |a|)
  {
    if i + |p| <= |a| + |b| {
      assert (a + b)[i..i + |p|] == b[i - |a|..i - |a| + |p|];
    }
  }

  /** One differing character refutes an occurrence. */
  lemma {:induction false} Differs(s: string, p: string, i: nat, k: nat)
    requires k < |p| && i + k < |s| && s[i + k] != p[k]
    ensures !At(s, p, i)
  {
    if i + |p| <= |s| {
      assert s[i..i + |p|][k] == s[i + k];
    }
  }

  /** Text without the character `c` occurs on one side of it or the other, never across. */
  lemma {:induction false} OccursAcross(a: string, c: char, b: string, p: string)
    requires p != "" && c !in p && Occurs(p, a + [c] + b)
    ensures Occurs(p, a) || Occurs(p, b)
  {
    var s := a + [c] + b;
    var i :| At(s, p, i);
    if i + |p| <= |a| {
      assert a[i..i + |p|] == s[i..i + |p|];
      assert At(a, p, i);
    } else if i <= |a| {
      Differs(s, p, i, |a| - i);
    } else {
      assert s == (a + [c]) + b;
      AtShift(a + [c], b, p, i);
    }
  }

  /** Executable form of `Occurs` (`str::contains`). */
  predicate Contains(s: string, p: string)
    ensures Contains(s, p) <==> Occurs(p, s)
  {
    if p <= s then
      assert At(s, p, 0);
      true
    else if s == "" then
      false
    else
      var r := Contains(s[1..], p);
      OccursTail(s, p);
      r
  }

  /** An occurrence is either at the head or in the tail. */
  lemma {:induction false} OccursTail(s: string, p: string)
    requires s != "" && !(p <= s)
    ensures Occurs(p, s) <==> Occurs(p, s[1..])
  {
    assert s == [s[0]] + s[1..];
    if Occurs(p, s) {
      var i :| At(s, p, i);
      assert i != 0;
      AtShift([s[0]], s[1..], p, i);
    }
    if Occurs(p, s[1..]) {
      var i :| At(s[1..], p, i);
      AtShift([s[0]], s[1..], p, i + 1);
    }
  }

  /** Occurrences survive in any surrounding text. */
  lemma {:induction false} OccursWithin(a: string, m: string, b: string, p: string)
    requires Occurs(p, m)
    ensures Occurs(p, a + m + b)
  {
    var i :| At(m, p, i);
    var s := a + m + b;
    assert s[|a| + i..|a| + i + |p|] == m[i..i + |p|];
    assert At(s, p, |a| + i);
  }

  lemma {:induction false} OccursAfter(a: string, m: string, p: string)
    requires Occurs(p, m)
    ensures Occurs(p, a + m)
  {
    OccursWithin(a, m, "", p);
    assert a + m + "" == a + m;
  }

  ghost predicate Leftmost(s: string, p: string, i: nat) {
    At(s, p, i) && forall j :: 0 <= j < i ==> !At(s, p, j)
  }

  lemma {:induction false} LeftmostTail(s: string, p: string, i: nat)
    requires Leftmost(s, p, i) && 0 < i
    ensures s != "" && !(p <= s) && Leftmost(s[1..], p, i - 1)
  {
    assert s == [s[0]] + s[1..];
    assert !At(s, p, 0);
    forall j | 0 <= j < i ensures At(s[1..], p, j) == At(s, p, j + 1) {
      AtShift([s[0]], s[1..], p, j + 1);
    }
  }

  /** `str::find`: the leftmost occurrence. */
  function Find(s: string, p: string): (r: Option<nat>)
    ensures r.Some? ==> Leftmost(s, p, r.value)
    ensures r.None? ==> !Occurs(p, s)
  {
    FindFrom(s, p, 0)
  }

  function FindFrom(s: string, p: string, i: nat): (r: Option<nat>)
    requires i <= |s|
    requires forall j :: 0 <= j < i ==> !At(s, p, j)
    ensures r.Some? ==> i <= r.value && Leftmost(s, p, r.value)
    ensures r.None? ==> !Occurs(p, s)
    decreases |s| - i
  {
    if At(s, p, i) then Some(i)
    else if i == |s| then None
    else FindFrom(s, p, i + 1)
  }

  // ----- character classes

  predicate IsDigit(c: char) { '0' <= c <= '9' }

  predicate IsHexDigit(c: char) { '0' <= c <= '9' || 'a' <= c <= 'f' || 'A' <= c <= 'F' }

  predicate IsAlpha(c: char) { 'a' <= c <= 'z' || 'A' <= c <= 'Z' }

  predicate IsAlnum(c: char) { IsAlpha(c) || IsDigit(c) }

  predicate IsAscii(c: char) { c < '\U{80}' }

  predicate IsSeparator(c: char) { c == '/' || c == '\\' }

  /** The Unicode White_Space property, as `char::is_whitespace` tests it. */
  predicate IsWhitespace(c: char) {
    || '\U{09}' <= c <= '\U{0D}' || c == ' ' || c == '\U{85}' || c == '\U{A0}'
    || c == '\U{1680}' || '\U{2000}' <= c <= '\U{200A}'
    || c == '\U{2028}' || c == '\U{2029}' || c == '\U{202F}' || c == '\U{205F}' || c == '\U{3000}'
  }

  function LowerChar(c: char): char {
    if 'A' <= c <= 'Z' then (c as int + 32) as char else c
  }

  /** `str::to_ascii_lowercase`. */
  function Lower(s: string): (r: string)
    ensures |r| == |s|
    ensures forall i :: 0 <= i < |s| ==> r[i] == LowerChar(s[i])
  {
    seq(|s|, i requires 0 <= i < |s| => LowerChar(s[i]))
  }

  predicate IsEdgePunct(c: char) {
    || c == '.' || c == ',' || c == ';' || c == ':' || c == '!' || c == '?'
    || c == ')' || c == '(' || c == '\"' || c == '\'' || c == '<' || c == '>'
  }

  predicate EndsPath(c: char) {
    || c == ' ' || c == '\t' || c == '\n' || c == '\r' || c == '\"' || c == '\''
    || c == '(' || c == ')' || c == '[' || c == ']' || c == '{' || c == '}' || c == ',' || c == ';'
  }

  /** The classes the crates trim, take and split by. */
  datatype Class =
    | Blank          // char::is_whitespace
    | Ink            // everything else
    | Digit          // char::is_ascii_digit
    | Plus           // '+'
    | Vee            // 'v' or 'V'
    | ColonOrBlank   // ':' or whitespace
    | Edge           // prose punctuation that hugs a token
    | Joiner         // whitespace and simple joining punctuation
    | PathBody       // what extends an absolute path: no blank, quote, bracket, ',' or ';'
  {
    predicate Has(c: char) {
      match this
      case Blank => IsWhitespace(c)
      case Ink => !IsWhitespace(c)
      case Digit => IsDigit(c)
      case Plus => c == '+'
      case Vee => c == 'v' || c == 'V'
      case ColonOrBlank => c == ':' || IsWhitespace(c)
      case Edge => IsEdgePunct(c)
      case Joiner => IsWhitespace(c) || c == ',' || c == ';' || c == ':' || c == '/' || c == '-' || c == '.'
      case PathBody => !EndsPath(c)
    }
  }

  ghost predicate All(s: string, k: Class) {
    forall i :: 0 <= i < |s| ==> k.Has(s[i])
  }

  ghost predicate Lacks(s: string, k: Class) {
    forall i :: 0 <= i < |s| ==> !k.Has(s[i])
  }

  // ----- trimming and taking

  /** The first index at or after `i` outside the class. */
  function LeadFrom(s: string, k: Class, i: nat): (n: nat)
    requires i <= |s|
    ensures i <= n <= |s|
    ensures forall j :: i <= j < n ==> k.Has(s[j])
    ensures n < |s| ==> !k.Has(s[n])
    decreases |s| - i
  {
    if i == |s| || !k.Has(s[i]) then i else LeadFrom(s, k, i + 1)
  }

  /** The end of the text once its trailing run in the class is cut, scanning down from `i`. */
  function TrailFrom(s: string, k: Class, i: nat): (n: nat)
    requires i <= |s|
    ensures n <= i
    ensures forall j :: n <= j < i ==> k.Has(s[j])
    ensures n > 0 ==> !k.Has(s[n - 1])
  {
    if i == 0 || !k.Has(s[i - 1]) then i else TrailFrom(s, k, i - 1)
  }

  /** `chars().all(|c| c.is_ascii_digit())`. */
  predicate AllDigits(s: string)
    ensures AllDigits(s) <==> All(s, Digit)
  {
    LeadFrom(s, Digit, 0) == |s|
  }

  /** `trim_start_matches`. */
  function DropWhile(s: string, k: Class): string {
    s[LeadFrom(s, k, 0)..]
  }

  /** `trim_matches`. */
  function TrimBy(s: string, k: Class): string {
    var a, b := LeadFrom(s, k, 0), TrailFrom(s, k, |s|);
    if a < b then s[a..b] else ""
  }

  /** `str::trim`. */
  function Trim(s: string): string {
    TrimBy(s, Blank)
  }

  /** A run of the class followed by something outside it has a known length. */
  lemma {:induction false} LeadIs(s: string, k: Class, i: nat, n: nat)
    requires i <= n <= |s|
    requires forall j :: i <= j < n ==> k.Has(s[j])
    requires n < |s| ==> !k.Has(s[n])
    ensures LeadFrom(s, k, i) == n
  {
  }

  lemma {:induction false} TrailIs(s: string, k: Class, n: nat)
    requires n <= |s|
    requires forall j :: n <= j < |s| ==> k.Has(s[j])
    requires n > 0 ==> !k.Has(s[n - 1])
    ensures TrailFrom(s, k, |s|) == n
  {
  }

  /** What trimming leaves, located in the original. */
  lemma {:induction false} TrimSplit(s: string, k: Class) returns (a: nat, b: nat)
    ensures a <= b <= |s| && s[a..b] == TrimBy(s, k)
    ensures forall j :: 0 <= j < a || b <= j < |s| ==> k.Has(s[j])
    ensures a < b ==> !k.Has(s[a]) && !k.Has(s[b - 1])
  {
    a, b := LeadFrom(s, k, 0), TrailFrom(s, k, |s|);
    if a >= b {
      a, b := |s|, |s|;
    }
  }

  /** Text that starts and ends outside the class is its own trimming. */
  lemma {:induction false} TrimFixed(s: string, k: Class)
    requires s == "" || (!k.Has(s[0]) && !k.Has(s[|s| - 1]))
    ensures TrimBy(s, k) == s
  {
    LeadIs(s, k, 0, 0);
    TrailIs(s, k, |s|);
  }

  // ----- lines

  /** Drops one carriage return at the end. */
  function StripReturn(s: string): string {
    if s != "" && s[|s| - 1] == '\r' then s[..|s| - 1] else s
  }

  /** `str::lines`: a line ends at "\n" or "\r\n"; the last one may have no end. */
  function Lines(s: string): (ls: seq<string>)
    ensures forall i :: 0 <= i < |ls| ==> '\n' !in ls[i]
    decreases |s|
  {
    if s == "" then []
    else
      match Find(s, "\n")
      case None =>
        assert forall i :: 0 <= i < |s| ==> s[i] != '\n' by { NoNewline(s); }
        [s]
      case Some(n) =>
        assert '\n' !in s[..n] by { LineHead(s, n); }
        [StripReturn(s[..n])] + Lines(s[n + 1..])
  }

  predicate OneLine(s: string) {
    forall i :: 0 <= i < |s| ==> s[i] != '\n'
  }

  lemma {:induction false} NoNewline(s: string)
    requires !Occurs("\n", s)
    ensures '\n' !in s
  {
    if i :| 0 <= i < |s| && s[i] == '\n' {
      assert At(s, "\n", i);
    }
  }

  lemma {:induction false} LineHead(s: string, n: nat)
    requires Leftmost(s, "\n", n)
    ensures '\n' !in s[..n]
  {
    forall i | 0 <= i < n ensures s[i] != '\n' {
      assert !At(s, "\n", i);
      assert s[i..i + 1] == [s[i]];
    }
  }

  // ----- whitespace tokens

  /** A word is non-empty and free of whitespace. */
  ghost predicate IsWord(w: string) {
    w != "" && Lacks(w, Blank)
  }

  /** `split_whitespace().collect()`. */
  function SplitWhitespace(s: string): (ws: seq<string>)
    ensures forall i :: 0 <= i < |ws| ==> IsWord(ws[i])
    decreases |s|
  {
    var a := LeadFrom(s, Blank, 0);
    if a == |s| then []
    else
      var b := LeadFrom(s, Ink, a);
      assert IsWord(s[a..b]);
      [s[a..b]] + SplitWhitespace(s[b..])
  }

  function Join(ws: seq<string>, sep: string): string {
    if |ws| == 0 then ""
    else if |ws| == 1 then ws[0]
    else ws[0] + sep + Join(ws[1..], sep)
  }

  /** A word followed by the end or by whitespace is split off whole. */
  lemma {:induction false} SplitHead(lead: string, w: string, rest: string)
    requires All(lead, Blank) && IsWord(w)
    requires rest == "" || IsWhitespace(rest[0])
    ensures SplitWhitespace(lead + w + rest) == [w] + SplitWhitespace(rest)
  {
    var s, a, b := lead + w + rest, |lead|, |lead| + |w|;
    assert s[a] == w[0];
    assert b < |s| ==> s[b] == rest[0];
    LeadIs(s, Blank, 0, a);
    LeadIs(s, Ink, a, b);
    assert s[a..b] == w && s[b..] == rest;
  }

  /** Joining words with one blank and splitting again gives the words back. */
  lemma {:induction false} SplitJoin(lead: string, ws: seq<string>)
    requires All(lead, Blank)
    requires forall i :: 0 <= i < |ws| ==> IsWord(ws[i])
    ensures SplitWhitespace(lead + Join(ws, " ")) == ws
    decreases |ws|
  {
    if |ws| == 0 {
      assert lead + Join(ws, " ") == lead;
      LeadIs(lead, Blank, 0, |lead|);
    } else if |ws| == 1 {
      assert lead + Join(ws, " ") == lead + ws[0] + "";
      SplitHead(lead, ws[0], "");
      LeadIs("", Blank, 0, 0);
    } else {
      var rest := " " + Join(ws[1..], " ");
      assert lead + Join(ws, " ") == lead + ws[0] + rest;
      assert rest[0] == ' ';
      SplitHead(lead, ws[0], rest);
      SplitJoin(" ", ws[1..]);
    }
  }
}
