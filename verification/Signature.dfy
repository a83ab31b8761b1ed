/**
 Crash signatures (`signature.rs`): raw stack frames are normalized to bare
 symbol names, so that the same code path has the same signature on every
 machine, and the first surviving names are hashed.
 */
module Signature {
  import opened Text

  const SIGNATURE_FRAME_DEPTH: nat := 8
  const CLOSURE: string := "::{{closure}}"

  // ----- the stages

  /** The first index at or after `i` holding `c`; the end when there is none. */
  function IndexFrom(s: string, c: char, i: nat): (n: nat)
    requires i <= |s|
    ensures i <= n <= |s|
    ensures n < |s| ==> s[n] == c
    ensures forall j :: i <= j < n ==> s[j] != c
    decreases |s| - i
  {
    if i == |s| || s[i] == c then i else IndexFrom(s, c, i + 1)
  }

  /** `split(p).next()`. */
  function UpTo(s: string, p: string): string {
    match Find(s, p)
    case None => s
    case Some(n) => s[..n]
  }

  /** `trim_start`. */
  function TrimStart(s: string): string {
    DropWhile(s, Blank)
  }

  /** `"<n>: rest"` and `"#<n> rest"` give `rest`. */
  function StripFrameOrdinal(s: string): (r: Option<string>)
    ensures r.Some? ==> |r.value| < |s|
  {
    var n := IndexFrom(s, ':', 0);
    if 0 < n < |s| && AllDigits(s[..n]) then Some(TrimStart(s[n + 1..]))
    else if s != "" && s[0] == '#' then
      var rest := TrimStart(s[1..]);
      var k := LeadFrom(rest, Digit, 0);
      if k > 0 then Some(TrimStart(rest[k..])) else None
    else None
  }

  function DropOrdinal(s: string): string {
    match StripFrameOrdinal(s)
    case Some(rest) => rest
    case None => s
  }

  /** What is kept of `s` from `i` on, inside `depth` open groups. */
  function AngleFrom(s: string, i: nat, depth: nat): string
    requires i <= |s|
    decreases |s| - i
  {
    if i == |s| then ""
    else if s[i] == '<' then AngleFrom(s, i + 1, depth + 1)
    else if s[i] == '>' then AngleFrom(s, i + 1, if depth == 0 then 0 else depth - 1)
    else if depth == 0 then [s[i]] + AngleFrom(s, i + 1, 0)
    else AngleFrom(s, i + 1, depth)
  }

  function StripAngleGroups(s: string): string {
    AngleFrom(s, 0, 0)
  }

  predicate LooksLikePath(tok: string) {
    || '/' in tok
    || '\\' in tok
    || (|tok| >= 2 && tok[1] == ':' && IsAlpha(tok[0]) && (|tok| == 2 || tok[2] != ':'))
  }

  predicate AllHex(s: string) {
    forall i :: 0 <= i < |s| ==> IsHexDigit(s[i])
  }

  predicate LooksLikeAddress(tok: string) {
    var t := DropWhile(tok, Plus);
    |t| > 2 && t[0] == '0' && (t[1] == 'x' || t[1] == 'X') && AllHex(t[2..])
  }

  /** The first token that is neither a path nor an address. */
  function FirstSymbol(toks: seq<string>): Option<string> {
    if toks == [] then None
    else if LooksLikePath(toks[0]) || LooksLikeAddress(toks[0]) then FirstSymbol(toks[1..])
    else Some(toks[0])
  }

  /** The last occurrence at or below `i`. */
  function FindLastFrom(s: string, p: string, i: nat): (r: Option<nat>)
    ensures r.Some? ==> r.value <= i && At(s, p, r.value)
    ensures forall j :: (if r.Some? then r.value else -1) < j <= i ==> !At(s, p, j)
  {
    if At(s, p, i) then Some(i) else if i == 0 then None else FindLastFrom(s, p, i - 1)
  }

  /** `rfind`. */
  function FindLast(s: string, p: string): (r: Option<nat>)
    ensures r.Some? ==> At(s, p, r.value)
    ensures r.None? ==> !Occurs(p, s)
    ensures r.Some? ==> forall j :: r.value < j ==> !At(s, p, j)
  {
    FindLastFrom(s, p, |s|)
  }

  /** Everything before the first closure marker. */
  function StripClosures(s: string): string {
    UpTo(s, CLOSURE)
  }

  predicate IsHash(suffix: string) {
    8 <= |suffix| <= 20 && AllHex(suffix)
  }

  function StripHash(s: string): string {
    match FindLast(s, "::h")
    case None => s
    case Some(n) => if IsHash(s[n + 3..]) then s[..n] else s
  }

  /** The first colon at or after `i` with a digit behind it; the end when there is none. */
  function LineColonFrom(s: string, i: nat): (n: nat)
    requires i <= |s|
    ensures i <= n <= |s|
    ensures forall j :: i <= j < n ==> !LineColon(s, j)
    decreases |s| - i
  {
    if i == |s| || LineColon(s, i) then i else LineColonFrom(s, i + 1)
  }

  predicate LineColon(s: string, i: int) {
    0 <= i < |s| - 1 && s[i] == ':' && IsDigit(s[i + 1])
  }

  function StripOffsetAndLine(symbol: string): string {
    var s := symbol[..IndexFrom(symbol, '+', 0)];
    s[..LineColonFrom(s, 0)]
  }

  /** The stages behind the choice of the symbol token. */
  function Finish(tok: string): Option<string> {
    var s := TrimBy(StripOffsetAndLine(StripHash(StripClosures(tok))), ColonOrBlank);
    if s == "" || LooksLikePath(s) || LooksLikeAddress(s) then None else Some(s)
  }

  /** The part of a frame that may hold the symbol. */
  function SymbolPart(raw: string): string {
    StripAngleGroups(Trim(UpTo(UpTo(DropOrdinal(Trim(raw)), " at "), " @ ")))
  }

  function NormalizeFrame(raw: string): Option<string> {
    match FirstSymbol(SplitWhitespace(SymbolPart(raw)))
    case None => None
    case Some(tok) => Finish(tok)
  }

  // ----- the loops

  method StripAngleGroupsLoop(s: string) returns (out: string)
    ensures out == StripAngleGroups(s)
  {
    out := "";
    var depth: nat := 0;
    var i := 0;
    while i < |s|
      invariant 0 <= i <= |s|
      invariant out + AngleFrom(s, i, depth) == StripAngleGroups(s)
    {
      if s[i] == '<' {
        depth := depth + 1;
      } else if s[i] == '>' {
        depth := if depth == 0 then 0 else depth - 1;
      } else if depth == 0 {
        assert out + ([s[i]] + AngleFrom(s, i + 1, 0)) == (out + [s[i]]) + AngleFrom(s, i + 1, 0);
        out := out + [s[i]];
      }
      i := i + 1;
    }
  }

  /** Cutting at the last closure marker until none is left cuts at the first. */
  method StripClosuresLoop(symbol: string) returns (s: string)
    ensures s == StripClosures(symbol)
  {
    s := symbol;
    var idx := FindLast(s, CLOSURE);
    assert symbol[..|symbol|] == symbol;
    while idx.Some?
      invariant s == symbol[..|s|] && |s| <= |symbol|
      invariant idx == FindLast(s, CLOSURE)
      invariant s == symbol || (At(symbol, CLOSURE, |s|) && idx.None? == !Occurs(CLOSURE, s))
      decreases |s|
    {
      CutKeepsMarkers(symbol, s, idx.value);
      s := s[..idx.value];
      idx := FindLast(s, CLOSURE);
    }
    NoEarlierMarker(symbol, s);
  }

  lemma {:induction false} CutKeepsMarkers(symbol: string, s: string, n: nat)
    requires |s| <= |symbol| && s == symbol[..|s|] && At(s, CLOSURE, n)
    ensures At(symbol, CLOSURE, n) && s[..n] == symbol[..n]
  {
    assert symbol[n..n + |CLOSURE|] == s[n..n + |CLOSURE|];
  }

  lemma {:induction false} NoEarlierMarker(symbol: string, s: string)
    requires |s| <= |symbol| && s == symbol[..|s|] && !Occurs(CLOSURE, s)
    requires s == symbol || At(symbol, CLOSURE, |s|)
    ensures s == StripClosures(symbol)
  {
    var first := Find(symbol, CLOSURE);
    if first.Some? {
      AtPrefix(symbol, s, CLOSURE, first.value);
      MarkersApart(symbol, first.value, |s|);
    }
  }

  lemma {:induction false} AtPrefix(s: string, t: string, p: string, n: nat)
    requires |t| <= |s| && t == s[..|t|]
    ensures At(s, p, n) && n + |p| <= |t| ==> At(t, p, n)
  {
    if n + |p| <= |t| {
      assert t[n..n + |p|] == s[n..n + |p|];
    }
  }

  /** Two different occurrences of the marker do not overlap. */
  lemma {:induction false} MarkersApart(s: string, m: nat, n: nat)
    ensures At(s, CLOSURE, m) && m < n < m + |CLOSURE| ==> !At(s, CLOSURE, n)
  {
    if At(s, CLOSURE, m) && m < n < m + |CLOSURE| {
      var k := n - m;
      assert s[m + k] == s[m..m + |CLOSURE|][k] == CLOSURE[k];
      if k == 1 {
        assert s[m + 2] == s[m..m + |CLOSURE|][2] == CLOSURE[2];
        Differs(s, CLOSURE, n, 1);
      } else {
        Differs(s, CLOSURE, n, 0);
      }
    }
  }

  /** The index loop of the line-suffix cut. */
  method StripOffsetAndLineLoop(symbol: string) returns (r: string)
    ensures r == StripOffsetAndLine(symbol)
  {
    var s := symbol[..IndexFrom(symbol, '+', 0)];
    var cut := |s|;
    var i := 0;
    while i < |s|
      invariant 0 <= i <= |s| && cut == |s|
      invariant LineColonFrom(s, 0) == LineColonFrom(s, i)
    {
      if s[i] == ':' && i + 1 < |s| && IsDigit(s[i + 1]) {
        cut := i;
        break;
      }
      i := i + 1;
    }
    r := s[..cut];
  }

  method NormalizeFrameRun(raw: string) returns (r: Option<string>)
    ensures r == NormalizeFrame(raw)
  {
    hide StripAngleGroups, StripClosures, StripOffsetAndLine, StripHash, LooksLikePath, LooksLikeAddress,
      SplitWhitespace, TrimBy, DropOrdinal, UpTo;
    var s := DropOrdinal(Trim(raw));
    s := Trim(UpTo(UpTo(s, " at "), " @ "));
    s := StripAngleGroupsLoop(s);
    var toks := SplitWhitespace(s);
    var symbol: Option<string> := None;
    var i := 0;
    while i < |toks|
      invariant 0 <= i <= |toks| && symbol == None
      invariant FirstSymbol(toks) == FirstSymbol(toks[i..])
    {
      if LooksLikePath(toks[i]) || LooksLikeAddress(toks[i]) {
        assert toks[i..][1..] == toks[i + 1..];
        i := i + 1;
        continue;
      }
      symbol := Some(toks[i]);
      break;
    }
    if symbol.None? {
      return None;
    }
    var t := StripClosuresLoop(symbol.value);
    t := StripHash(t);
    t := StripOffsetAndLineLoop(t);
    t := TrimBy(t, ColonOrBlank);
    if t == "" || LooksLikePath(t) || LooksLikeAddress(t) {
      return None;
    }
    r := Some(t);
  }

  // ----- what a normalized name never contains

  /** Free of whitespace, path separators and angle brackets. */
  predicate IsNameChar(c: char) {
    !IsWhitespace(c) && c != '/' && c != '\\' && c != '<' && c != '>'
  }

  ghost predicate NameChars(s: string) {
    forall i :: 0 <= i < |s| ==> IsNameChar(s[i])
  }

  ghost predicate NoPlus(s: string) {
    forall i :: 0 <= i < |s| ==> s[i] != '+'
  }

  ghost predicate NoLineColon(s: string) {
    forall i :: 0 <= i < |s| ==> !LineColon(s, i)
  }

  /** What every normalized name is. */
  ghost predicate IsName(s: string) {
    && s != ""
    && NameChars(s) && NoPlus(s) && NoLineColon(s) && !Occurs(CLOSURE, s)
    && !LooksLikePath(s) && !LooksLikeAddress(s)
  }

  lemma {:induction false} AngleFromClean(s: string, i: nat, depth: nat)
    requires i <= |s|
    ensures |AngleFrom(s, i, depth)| <= |s| - i
    ensures forall c :: c in AngleFrom(s, i, depth) ==> c != '<' && c != '>'
    decreases |s| - i
  {
    if i < |s| {
      AngleFromClean(s, i + 1, if s[i] == '<' then depth + 1 else if s[i] != '>' || depth == 0 then depth else depth - 1);
    }
  }

  /** A token of the stripped text that is not a path has name characters only. */
  lemma {:induction false} TokenIsName(s: string, tok: string)
    requires tok in SplitWhitespace(StripAngleGroups(s)) && !LooksLikePath(tok)
    ensures NameChars(tok)
  {
    AngleFromClean(s, 0, 0);
    SplitChars(StripAngleGroups(s), tok);
    hide SplitWhitespace, StripAngleGroups;
    forall i | 0 <= i < |tok| ensures IsNameChar(tok[i]) {
      assert tok[i] in tok;
    }
  }

  /** The words of a text are made of its characters and are no longer than it. */
  lemma {:induction false} SplitChars(s: string, w: string)
    requires w in SplitWhitespace(s)
    ensures IsWord(w) && |w| <= |s| && forall c :: c in w ==> c in s
    decreases |s|
  {
    var a := LeadFrom(s, Blank, 0);
    var b := LeadFrom(s, Ink, a);
    if w != s[a..b] {
      SplitChars(s[b..], w);
    }
  }

  lemma {:induction false} FirstSymbolIn(toks: seq<string>)
    ensures var r := FirstSymbol(toks);
            r.Some? ==> r.value in toks && !LooksLikePath(r.value) && !LooksLikeAddress(r.value)
  {
    hide LooksLikePath, LooksLikeAddress;
    if toks != [] && (LooksLikePath(toks[0]) || LooksLikeAddress(toks[0])) {
      FirstSymbolIn(toks[1..]);
    }
  }

  /** A piece of clean text is clean. */
  lemma {:induction false} PieceClean(s: string, a: nat, b: nat)
    requires a <= b <= |s|
    ensures NameChars(s) ==> NameChars(s[a..b])
    ensures NoPlus(s) ==> NoPlus(s[a..b])
    ensures NoLineColon(s) ==> NoLineColon(s[a..b])
    ensures !Occurs(CLOSURE, s) ==> !Occurs(CLOSURE, s[a..b])
  {
    if Occurs(CLOSURE, s[a..b]) {
      OccursWithin(s[..a], s[a..b], s[b..], CLOSURE);
      assert s == s[..a] + s[a..b] + s[b..];
    }
    hide Occurs;
    if NoLineColon(s) {
      forall i | 0 <= i < |s[a..b]| ensures !LineColon(s[a..b], i) {
        assert !LineColon(s, a + i);
      }
    }
  }

  lemma {:induction false} ClosuresGone(s: string)
    ensures var t := StripClosures(s); t <= s && !Occurs(CLOSURE, t)
  {
    var n := Find(s, CLOSURE);
    if n.Some? && Occurs(CLOSURE, s[..n.value]) {
      var i :| At(s[..n.value], CLOSURE, i);
      assert s[i..i + |CLOSURE|] == s[..n.value][i..i + |CLOSURE|];
      assert At(s, CLOSURE, i);
    }
  }

  lemma {:induction false} OffsetAndLineGone(s: string)
    ensures var t := StripOffsetAndLine(s); t <= s && NoPlus(t) && NoLineColon(t)
  {
    var u := s[..IndexFrom(s, '+', 0)];
    var t := u[..LineColonFrom(u, 0)];
    forall i | 0 <= i < |t| ensures !LineColon(t, i) {
      assert !LineColon(u, i);
    }
  }

  lemma {:induction false} FinishIsName(tok: string)
    requires NameChars(tok)
    ensures Finish(tok).Some? ==> IsName(Finish(tok).value) && |Finish(tok).value| <= |tok|
  {
    hide StripClosures, StripOffsetAndLine, LooksLikePath, LooksLikeAddress, NameChars, NoPlus, NoLineColon, Occurs, FindLast;
    var c := StripClosures(tok);
    var h := StripHash(c);
    var o := StripOffsetAndLine(h);
    ClosuresGone(tok);
    OffsetAndLineGone(h);
    var a, b := TrimSplit(o, ColonOrBlank);
    assert h == c[0..|h|] && c == tok[0..|c|] && o == h[0..|o|];
    PieceClean(tok, 0, |c|);
    PieceClean(c, 0, |h|);
    PieceClean(h, 0, |o|);
    PieceClean(o, a, b);
  }

  /** A drive prefix: one letter and a single colon. */
  predicate StartsWithDrive(s: string) {
    |s| >= 2 && ('a' <= s[0] <= 'z' || 'A' <= s[0] <= 'Z') && s[1] == ':' && (|s| == 2 || s[2] != ':')
  }

  predicate IsHexNumber(s: string) {
    |s| > 2 && s[0] == '0' && (s[1] == 'x' || s[1] == 'X') && HexFrom(s, 2)
  }

  lemma {:induction false} PathsAndAddresses(s: string)
    requires s != "" && NameChars(s) && NoPlus(s)
    ensures LooksLikePath(s) <==> StartsWithDrive(s)
    ensures LooksLikeAddress(s) <==> IsHexNumber(s)
  {
    assert forall i :: 0 <= i < |s| ==> IsNameChar(s[i]);
    LeadIs(s, Plus, 0, 0);
    assert s[0..] == s;
    if |s| > 2 {
      assert forall j :: 2 <= j < |s| ==> s[j] == s[2..][j - 2];
    }
  }

  /** Every result is a name: no path, no drive, no address, no line number, no generics, no closure ordinal. */
  lemma {:induction false} NormalizedIsName(raw: string)
    requires NormalizeFrame(raw).Some?
    ensures var s := NormalizeFrame(raw).value;
            && IsName(s) && !Occurs("::{{closure}}", s) && !StartsWithDrive(s) && !IsHexNumber(s)
            && forall i :: 0 <= i < |s| - 1 ==> !(s[i] == ':' && '0' <= s[i + 1] <= '9')
  {
    NormalizedName(raw);
    var s := NormalizeFrame(raw).value;
    hide NormalizeFrame, LooksLikePath, LooksLikeAddress, Occurs, StartsWithDrive, IsHexNumber;
    PathsAndAddresses(s);
    forall i | 0 <= i < |s| - 1 ensures !(s[i] == ':' && '0' <= s[i + 1] <= '9') {
      assert !LineColon(s, i);
    }
  }

  lemma {:induction false} NormalizedName(raw: string)
    requires NormalizeFrame(raw).Some?
    ensures IsName(NormalizeFrame(raw).value)
  {
    hide Finish, LooksLikePath, LooksLikeAddress, IsName, StripAngleGroups, DropOrdinal, UpTo, SplitWhitespace;
    var toks := SplitWhitespace(SymbolPart(raw));
    FirstSymbolIn(toks);
    var tok := FirstSymbol(toks).value;
    TokenIsName(Trim(UpTo(UpTo(DropOrdinal(Trim(raw)), " at "), " @ ")), tok);
    FinishIsName(tok);
  }

  // ----- noise does not change a name

  /** A name the normalizer leaves alone. */
  ghost predicate IsSymbol(sym: string) {
    NormalizeFrame(sym) == Some(sym)
  }

  lemma {:induction false} NameIsWord(s: string)
    requires s != "" && NameChars(s)
    ensures IsWord(s)
  {
    forall i | 0 <= i < |s| ensures !IsWhitespace(s[i]) {
      assert IsNameChar(s[i]);
    }
  }

  lemma {:induction false} WordStages(s: string)
    requires IsWord(s)
    ensures Trim(s) == s && SplitWhitespace(s) == [s]
    ensures UpTo(s, " at ") == s && UpTo(s, " @ ") == s
  {
    TrimFixed(s, Blank);
    assert "" + s + "" == s;
    SplitHead("", s, "");
    LeadIs("", Blank, 0, 0);
    NoBlankFound(s, " at ");
    NoBlankFound(s, " @ ");
  }

  lemma {:induction false} NoBlankFound(s: string, p: string)
    requires Lacks(s, Blank) && p != "" && p[0] == ' '
    ensures UpTo(s, p) == s
  {
    forall i: nat | i < |s| ensures !At(s, p, i) {
      assert !Blank.Has(s[i]);
      Differs(s, p, i, 0);
    }
  }

  lemma {:induction false} AngleFromSame(s: string, i: nat)
    requires i <= |s| && NameChars(s)
    ensures AngleFrom(s, i, 0) == s[i..]
    decreases |s| - i
  {
    if i < |s| {
      assert IsNameChar(s[i]);
      AngleFromSame(s, i + 1);
      assert [s[i]] + s[i + 1..] == s[i..];
    }
  }

  /** Without an ordinal in front, a name reaches the final stages unchanged. */
  lemma {:induction false} NameReachesFinish(s: string)
    requires s != "" && NameChars(s) && StripFrameOrdinal(s).None?
    requires !LooksLikePath(s) && !LooksLikeAddress(s)
    ensures NormalizeFrame(s) == Finish(s)
  {
    hide StripFrameOrdinal, LooksLikePath, LooksLikeAddress, Finish, AngleFrom, Trim, UpTo, SplitWhitespace;
    NameIsWord(s);
    WordStages(s);
    AngleFromSame(s, 0);
    assert s[0..] == s;
    assert SymbolPart(s) == s;
    assert FirstSymbol([s]) == Some(s);
  }

  /** The final stages and the splitting never lengthen: an ordinal that is dropped does not come back. */
  lemma {:induction false} OrdinalShortens(s: string)
    requires IsWord(s) && StripFrameOrdinal(s).Some? && NormalizeFrame(s).Some?
    ensures |NormalizeFrame(s).value| < |s|
  {
    hide Finish, LooksLikePath, LooksLikeAddress, SplitWhitespace, StripFrameOrdinal, AngleFrom, UpTo, Trim;
    WordStages(s);
    var d := DropOrdinal(s);
    var cut := UpTo(UpTo(d, " at "), " @ ");
    UpToShorter(d, " at ");
    UpToShorter(UpTo(d, " at "), " @ ");
    TrimShorter(cut);
    AngleFromClean(Trim(cut), 0, 0);
    var toks := SplitWhitespace(SymbolPart(s));
    FirstSymbolIn(toks);
    var tok := FirstSymbol(toks).value;
    SplitChars(SymbolPart(s), tok);
    TokenIsName(Trim(cut), tok);
    FinishIsName(tok);
  }

  lemma {:induction false} UpToShorter(s: string, p: string)
    ensures |UpTo(s, p)| <= |s|
  {
  }

  lemma {:induction false} TrimShorter(s: string)
    ensures |Trim(s)| <= |s|
  {
  }

  /** What makes a name a symbol. */
  lemma {:induction false} SymbolIff(s: string)
    ensures IsSymbol(s) <==> IsName(s) && StripFrameOrdinal(s).None? && Finish(s) == Some(s)
  {
    hide Finish, LooksLikePath, LooksLikeAddress, StripFrameOrdinal, NameChars, NoPlus, NoLineColon, Occurs, NormalizeFrame;
    if IsSymbol(s) {
      NormalizedIsName(s);
      NameIsWord(s);
      if StripFrameOrdinal(s).Some? {
        OrdinalShortens(s);
      } else {
        NameReachesFinish(s);
      }
    } else if IsName(s) && StripFrameOrdinal(s).None? {
      NameReachesFinish(s);
    }
  }

  predicate IsPathChar(c: char) {
    IsAlpha(c) || c == '_' || c == ':'
  }

  /** A `::` path of letters and underscores that does not end in `::h` and 8 to 20 hexadecimal letters. */
  predicate IsPlainPath(s: string) {
    && s != "" && s[0] != ':' && s[|s| - 1] != ':'
    && (forall i :: 0 <= i < |s| ==> IsPathChar(s[i]))
    && (|s| > 2 && s[1] == ':' ==> s[2] == ':')
    && (forall i :: 0 <= i < |s| - 10 && s[i] == ':' && s[i + 1] == ':' && s[i + 2] == 'h' ==>
          |s| - i > 23 || !HexFrom(s, i + 3))
  }

  /** Plain symbol paths are kept as they are. */
  lemma {:induction false} PlainPathIsSymbol(s: string)
    requires IsPlainPath(s)
    ensures IsSymbol(s)
  {
    PlainPathIsName(s);
    PlainPathFinishes(s);
    hide Finish, StripFrameOrdinal, IsPlainPath, LooksLikePath, LooksLikeAddress, NoPlus, NoLineColon, Occurs, NameChars, NormalizeFrame;
    SymbolIff(s);
  }

  lemma {:induction false} PlainPathIsName(s: string)
    requires IsPlainPath(s)
    ensures IsName(s) && StripFrameOrdinal(s).None?
  {
    forall i: nat | i < |s|
      ensures IsNameChar(s[i]) && s[i] != '+' && !IsDigit(s[i]) && s[i] != '#'
      ensures !At(s, CLOSURE, i)
    {
      assert IsPathChar(s[i]);
      PlainPathNoMarker(s, i);
    }
    assert !Digit.Has(s[0]) && s[0] == s[..1][0];
    LeadIs(s, Plus, 0, 0);
    assert DropWhile(s, Plus) == s;
    var n := IndexFrom(s, ':', 0);
    assert n > 0 ==> !Digit.Has(s[..n][0]);
  }

  lemma {:induction false} PlainPathNoMarker(s: string, i: nat)
    requires IsPlainPath(s) && i < |s|
    ensures !At(s, CLOSURE, i)
  {
    if i + 2 < |s| {
      assert IsPathChar(s[i + 2]);
      Differs(s, CLOSURE, i, 2);
    }
  }

  lemma {:induction false} PlainPathNoHash(s: string)
    requires IsPlainPath(s)
    ensures StripHash(s) == s
  {
    var n := FindLast(s, "::h");
    if n.Some? {
      var i := n.value;
      assert s[i..i + 3][0] == s[i] && s[i..i + 3][1] == s[i + 1] && s[i..i + 3][2] == s[i + 2];
      HashIs(s, i + 3);
    }
  }

  lemma {:induction false} PlainPathFinishes(s: string)
    requires IsPlainPath(s)
    ensures Finish(s) == Some(s)
  {
    PlainPathIsName(s);
    assert IsPathChar(s[0]) && IsPathChar(s[|s| - 1]);
    assert !ColonOrBlank.Has(s[0]) && !ColonOrBlank.Has(s[|s| - 1]);
    hide LooksLikePath, LooksLikeAddress, NameChars, NoPlus, NoLineColon, StripFrameOrdinal, StripOffsetAndLine, FindLast, IsPlainPath;
    NoMarkerNoCut(s);
    PlainPathNoHash(s);
    NothingToCut(s);
    TrimFixed(s, ColonOrBlank);
  }

  /** A symbol keeps being free of an ordinal when noise follows it. */
  lemma {:induction false} OrdinalStaysAbsent(sym: string, noise: string)
    requires IsWord(sym) && StripFrameOrdinal(sym).None? && |noise| >= 2
    requires (noise[0] == ':' && !AllDigits(sym)) || (noise[0] == ' ' && noise[1] == 'a')
    ensures StripFrameOrdinal(sym + noise).None?
  {
    var s := sym + noise;
    var n := IndexFrom(s, ':', 0);
    ColonBehind(sym, noise);
    if sym[0] == '#' {
      HashBehind(sym, noise);
    }
  }

  /** What stands before the first colon is not all digits. */
  lemma {:induction false} ColonBehind(sym: string, noise: string)
    requires IsWord(sym) && StripFrameOrdinal(sym).None? && noise != ""
    requires (noise[0] == ':' && !AllDigits(sym)) || noise[0] == ' '
    ensures var n := IndexFrom(sym + noise, ':', 0);
            n == 0 || !AllDigits((sym + noise)[..n])
  {
    var s := sym + noise;
    var m, n := IndexFrom(sym, ':', 0), IndexFrom(s, ':', 0);
    assert s[|sym|] == noise[0];
    if m < |sym| {
      assert s[m] == ':';
      assert n == m && s[..n] == sym[..m];
    } else if noise[0] == ':' {
      assert n == |sym| && s[..n] == sym;
    } else {
      assert n > |sym|;
      assert !Digit.Has(s[..n][|sym|]);
    }
  }

  /** What stands behind a leading `#` does not start with a digit. */
  lemma {:induction false} HashBehind(sym: string, noise: string)
    requires IsWord(sym) && sym[0] == '#' && StripFrameOrdinal(sym).None? && |noise| >= 2
    requires noise[0] == ':' || (noise[0] == ' ' && noise[1] == 'a')
    ensures LeadFrom(TrimStart((sym + noise)[1..]), Digit, 0) == 0
  {
    var tail := (sym + noise)[1..];
    if |sym| > 1 {
      assert tail[0] == sym[1] && !Blank.Has(sym[1]);
      var own := sym[1..];
      assert own[0] == sym[1];
      LeadIs(own, Blank, 0, 0);
      LeadIs(tail, Blank, 0, 0);
      assert TrimStart(own) == own && TrimStart(tail) == tail;
    } else {
      assert tail == noise;
      LeadIs(noise, Blank, 0, if noise[0] == ' ' then 1 else 0);
    }
  }

  /** A symbol-like word in front of a source location: only the word counts. */
  lemma {:induction false} LocationCutOff(v: string, location: string)
    requires v != "" && NameChars(v) && StripFrameOrdinal(v).None?
    requires !LooksLikePath(v) && !LooksLikeAddress(v)
    requires location != "" && !IsWhitespace(location[0])
    ensures NormalizeFrame(v + " at " + location) == Finish(v)
  {
    hide StripFrameOrdinal, LooksLikePath, LooksLikeAddress, Finish, AngleFrom, Trim, UpTo, SplitWhitespace;
    NameIsWord(v);
    var raw := v + " at " + location;
    var kept := TrimmedLocation(v, location);
    assert Trim(raw) == v + (" at " + kept);
    OrdinalStaysAbsent(v, " at " + kept);
    FirstAt(v, kept);
    WordStages(v);
    AngleFromSame(v, 0);
    assert v[0..] == v;
    assert SymbolPart(raw) == v;
    assert FirstSymbol([v]) == Some(v);
  }

  /** Trimming leaves the separator and the start of the location. */
  lemma {:induction false} TrimmedLocation(v: string, location: string) returns (kept: string)
    requires IsWord(v) && location != "" && !IsWhitespace(location[0])
    ensures Trim(v + " at " + location) == v + (" at " + kept)
  {
    var s := v + " at " + location;
    var b := TrailFrom(s, Blank, |s|);
    assert !Blank.Has(v[0]) && s[0] == v[0];
    LeadIs(s, Blank, 0, 0);
    assert s[|v| + 4] == location[0];
    assert b > |v| + 4;
    kept := location[..b - |v| - 4];
    assert s[..b] == v + (" at " + kept);
  }

  lemma {:induction false} FirstAt(v: string, kept: string)
    requires IsWord(v)
    ensures UpTo(v + (" at " + kept), " at ") == v
  {
    var s := v + (" at " + kept);
    assert s[|v|..|v| + 4] == " at ";
    assert At(s, " at ", |v|);
    forall i: nat | i < |v| ensures !At(s, " at ", i) {
      assert !Blank.Has(v[i]) && s[i] == v[i];
      Differs(s, " at ", i, 0);
    }
    var n := Find(s, " at ").value;
    assert n == |v| && s[..n] == v;
  }

  // ----- the hash suffix

  function WithHash(sym: string, hash: string): string {
    sym + ("::h" + hash)
  }

  lemma {:induction false} HashChars(sym: string, hash: string)
    requires NameChars(sym) && AllHex(hash)
    ensures NameChars(WithHash(sym, hash))
  {
    var v := WithHash(sym, hash);
    forall i | 0 <= i < |v| ensures IsNameChar(v[i]) {
      if i < |sym| {
        assert IsNameChar(sym[i]);
      } else if i >= |sym| + 3 {
        assert IsHexDigit(hash[i - |sym| - 3]);
      }
    }
  }

  lemma {:induction false} HashNotPathNorAddress(sym: string, hash: string)
    requires sym != "" && NameChars(sym) && NoPlus(sym) && AllHex(hash)
    requires !LooksLikePath(sym)
    ensures !LooksLikePath(WithHash(sym, hash)) && !LooksLikeAddress(WithHash(sym, hash))
  {
    var v := WithHash(sym, hash);
    HashChars(sym, hash);
    assert forall i :: 0 <= i < |v| ==> IsNameChar(v[i]);
    assert v[0] == sym[0] && v[|sym|] == ':';
    LeadIs(v, Plus, 0, 0);
    assert DropWhile(v, Plus) == v;
    if |sym| >= 2 {
      assert v[1] == sym[1] && v[2..][|sym| - 2] == ':';
    }
  }

  /** The hash marker is the last `::h`, and no closure marker arises at the seam. */
  lemma {:induction false} HashFound(sym: string, hash: string)
    requires AllHex(hash)
    ensures FindLast(WithHash(sym, hash), "::h") == Some(|sym|)
    ensures !Occurs(CLOSURE, sym) ==> !Occurs(CLOSURE, WithHash(sym, hash))
  {
    var v, b := WithHash(sym, hash), |sym|;
    assert v[b] == ':' && v[b + 1] == ':' && v[b + 2] == 'h';
    assert v[b..b + 3] == "::h";
    forall i | b + 3 <= i < |v| ensures v[i] != ':' {
      assert IsHexDigit(hash[i - b - 3]);
    }
    forall j: nat | b < j < |v| ensures !At(v, "::h", j) {
      Differs(v, "::h", j, if j == b + 1 then 1 else 0);
    }
    assert At(v, "::h", b);
    if !Occurs(CLOSURE, sym) {
      forall i: nat | i < |v| ensures !At(v, CLOSURE, i) {
        NoMarkerAt(sym, hash, i);
      }
    }
  }

  lemma {:induction false} NoMarkerAt(sym: string, hash: string, i: nat)
    requires !Occurs(CLOSURE, sym) && AllHex(hash)
    requires i < |WithHash(sym, hash)|
    ensures !At(WithHash(sym, hash), CLOSURE, i)
  {
    var v, b := WithHash(sym, hash), |sym|;
    assert v[b] == ':' && v[b + 1] == ':' && v[b + 2] == 'h';
    if i + |CLOSURE| <= b {
      assert v[i..i + |CLOSURE|] == sym[i..i + |CLOSURE|];
      assert !At(sym, CLOSURE, i);
    } else if i + 1 < b {
      Differs(v, CLOSURE, i, b - i);
    } else if i <= b {
      Differs(v, CLOSURE, i, 2);
    } else if i == b + 1 {
      Differs(v, CLOSURE, i, 1);
    } else if i == b + 2 {
      Differs(v, CLOSURE, i, 0);
    } else {
      assert IsHexDigit(hash[i - b - 3]);
      Differs(v, CLOSURE, i, 0);
    }
  }

  lemma {:induction false} NoMarkerNoCut(v: string)
    requires !Occurs(CLOSURE, v)
    ensures StripClosures(v) == v
  {
  }

  lemma {:induction false} HashFinishes(sym: string, hash: string)
    requires IsName(sym) && Finish(sym) == Some(sym) && IsHash(hash)
    ensures Finish(WithHash(sym, hash)) == Some(sym)
  {
    hide StripOffsetAndLine, LooksLikePath, LooksLikeAddress, NameChars, NoPlus, NoLineColon, Occurs, FindLast, Find, TrimBy;
    var v := WithHash(sym, hash);
    HashFound(sym, hash);
    NoMarkerNoCut(v);
    assert v[|sym| + 3..] == hash && v[..|sym|] == sym;
    assert StripHash(v) == sym;
    LastStagesFixed(sym);
  }

  /** On a fixed point every stage is the identity, because none lengthens. */
  lemma {:induction false} LastStagesFixed(sym: string)
    requires Finish(sym) == Some(sym)
    ensures TrimBy(StripOffsetAndLine(sym), ColonOrBlank) == sym
  {
    hide LooksLikePath, LooksLikeAddress, Occurs, FindLast;
    var c := StripClosures(sym);
    var h := StripHash(c);
    var o := StripOffsetAndLine(h);
    assert |c| <= |sym| && |h| <= |c| && |o| <= |h|;
    assert |TrimBy(o, ColonOrBlank)| <= |o|;
    assert c == sym[..|c|] && h == c[..|h|];
    assert h == sym;
  }

  /** A build hash behind a symbol does not change it, unless the symbol is a bare number. */
  lemma {:induction false} HashIgnored(sym: string, hash: string)
    requires IsSymbol(sym) && !AllDigits(sym) && IsHash(hash)
    ensures NormalizeFrame(WithHash(sym, hash)) == Some(sym)
  {
    hide Finish, StripFrameOrdinal, LooksLikePath, LooksLikeAddress, NoPlus, NoLineColon, Occurs, NameChars, NormalizeFrame;
    SymbolIff(sym);
    NameIsWord(sym);
    HashChars(sym, hash);
    HashNotPathNorAddress(sym, hash);
    OrdinalStaysAbsent(sym, "::h" + hash);
    NameReachesFinish(WithHash(sym, hash));
    HashFinishes(sym, hash);
  }

  /** A source location, with or without a build hash before it, does not change the symbol. */
  lemma {:induction false} LocationIgnored(sym: string, hash: string, location: string)
    requires IsSymbol(sym) && location != "" && !IsWhitespace(location[0])
    ensures NormalizeFrame(sym + " at " + location) == Some(sym)
    ensures IsHash(hash) && !AllDigits(sym) ==> NormalizeFrame(WithHash(sym, hash) + " at " + location) == Some(sym)
  {
    hide Finish, StripFrameOrdinal, LooksLikePath, LooksLikeAddress, NoPlus, NoLineColon, Occurs, NameChars, NormalizeFrame;
    SymbolIff(sym);
    LocationCutOff(sym, location);
    if IsHash(hash) && !AllDigits(sym) {
      NameIsWord(sym);
      HashChars(sym, hash);
      HashNotPathNorAddress(sym, hash);
      OrdinalStaysAbsent(sym, "::h" + hash);
      LocationCutOff(WithHash(sym, hash), location);
      HashFinishes(sym, hash);
    }
  }

  /** A bare number, taken for a frame ordinal, gives way to the build hash behind it. */
  lemma {:induction false} NumberLost(sym: string, hash: string)
    requires sym != "" && AllDigits(sym) && IsHash(hash)
    ensures NormalizeFrame(WithHash(sym, hash)) != Some(sym)
  {
    var v, rest := WithHash(sym, hash), ":h" + hash;
    NumberWithHash(sym, hash);
    HashRestChars(hash);
    hide Finish, StripFrameOrdinal, DropOrdinal, SplitWhitespace, Trim, UpTo, AngleFrom;
    NameIsWord(rest);
    WordStages(v);
    WordStages(rest);
    AngleFromSame(rest, 0);
    assert rest[0..] == rest;
    assert SymbolPart(v) == rest;
    assert FirstSymbol([rest]) == Some(rest) || FirstSymbol([rest]).None?;
    HashRestFinishes(hash);
    assert Digit.Has(sym[0]);
  }

  /** A build hash leaves a symbol alone exactly when the symbol is not a bare number. */
  lemma {:induction false} HashIgnoredIff(sym: string, hash: string)
    requires IsSymbol(sym) && IsHash(hash)
    ensures NormalizeFrame(WithHash(sym, hash)) == Some(sym) <==> !AllDigits(sym)
  {
    hide NormalizeFrame, AllDigits, IsHash, IsSymbol;
    if AllDigits(sym) {
      SymbolNotEmpty(sym);
      NumberLost(sym, hash);
    } else {
      HashIgnored(sym, hash);
    }
  }

  lemma {:induction false} SymbolNotEmpty(sym: string)
    requires IsSymbol(sym)
    ensures sym != ""
  {
    hide NormalizeFrame, IsName;
    NormalizedIsName(sym);
    NameOneLine(sym);
  }

  lemma {:induction false} NumberWithHash(sym: string, hash: string)
    requires sym != "" && AllDigits(sym) && IsHash(hash)
    ensures IsWord(WithHash(sym, hash)) && DropOrdinal(WithHash(sym, hash)) == ":h" + hash
  {
    var v := WithHash(sym, hash);
    forall i | 0 <= i < |v| ensures !IsWhitespace(v[i]) && (i < |sym| ==> v[i] != ':') {
      if i < |sym| {
        assert Digit.Has(sym[i]);
      } else if i >= |sym| + 3 {
        assert IsHexDigit(hash[i - |sym| - 3]);
      }
    }
    assert v[|sym|] == ':';
    assert IndexFrom(v, ':', 0) == |sym| && v[..|sym|] == sym;
    var rest := v[|sym| + 1..];
    assert rest == ":h" + hash;
    LeadIs(rest, Blank, 0, 0);
  }

  lemma {:induction false} HashRestChars(hash: string)
    requires AllHex(hash)
    ensures NameChars(":h" + hash)
  {
    var rest := ":h" + hash;
    forall i | 0 <= i < |rest| ensures IsNameChar(rest[i]) {
      if i >= 2 {
        assert IsHexDigit(hash[i - 2]);
      }
    }
  }

  lemma {:induction false} HashRestFinishes(hash: string)
    requires IsHash(hash)
    ensures Finish(":h" + hash).Some? ==> Finish(":h" + hash).value[0] == 'h'
  {
    var rest := ":h" + hash;
    forall i | 1 <= i < |rest| ensures rest[i] != ':' && rest[i] != '+' && !ColonOrBlank.Has(rest[i]) {
      if i >= 2 {
        assert IsHexDigit(hash[i - 2]);
      }
    }
    forall i: nat, p: string | i < |rest| && |p| >= 2 && p[0] == p[1] == ':' ensures !At(rest, p, i) {
      if i + 1 < |rest| {
        Differs(rest, p, i, 1);
      }
    }
    assert !LineColon(rest, 0) && NoLineColon(rest) && NoPlus(rest);
    hide LooksLikePath, LooksLikeAddress, StripOffsetAndLine;
    assert StripClosures(rest) == rest;
    assert StripHash(rest) == rest;
    NothingToCut(rest);
    LeadIs(rest, ColonOrBlank, 0, 1);
    TrailIs(rest, ColonOrBlank, |rest|);
  }

  lemma {:induction false} NothingToCut(s: string)
    requires NoPlus(s) && NoLineColon(s)
    ensures StripOffsetAndLine(s) == s
  {
    assert s[..|s|] == s;
    assert IndexFrom(s, '+', 0) == |s|;
    assert LineColonFrom(s, 0) == |s| by { NoLineColonFrom(s, 0); }
  }

  lemma {:induction false} NoLineColonFrom(s: string, i: nat)
    requires i <= |s| && NoLineColon(s)
    ensures LineColonFrom(s, i) == |s|
    decreases |s| - i
  {
    if i < |s| {
      assert !LineColon(s, i);
      NoLineColonFrom(s, i + 1);
    }
  }

  // ----- generic arguments

  /** `g` closes exactly the groups it opens, inside `depth` groups that are open before it and after it. */
  ghost predicate Balanced(g: string, depth: nat) {
    if g == "" then depth == 0
    else if g[0] == '<' then Balanced(g[1..], depth + 1)
    else if g[0] == '>' then depth > 0 && Balanced(g[1..], depth - 1)
    else Balanced(g[1..], depth)
  }

  /** Everything inside a group is passed over, nested groups included. */
  lemma {:induction false} InsideGroup(s: string, i: nat, g: string, depth: nat)
    requires i + |g| <= |s| && s[i..i + |g|] == g && Balanced(g, depth)
    ensures AngleFrom(s, i, depth + 1) == AngleFrom(s, i + |g|, 1)
    decreases |g|
  {
    if g != "" {
      assert s[i] == g[0] && s[i + 1..i + |g|] == g[1..];
      InsideGroup(s, i + 1, g[1..], if g[0] == '<' then depth + 1 else if g[0] == '>' then depth - 1 else depth);
    }
  }

  /** Stripping looks at what is ahead only. */
  lemma {:induction false} AngleShift(a: string, b: string, i: nat, depth: nat)
    requires i <= |b|
    ensures AngleFrom(a + b, |a| + i, depth) == AngleFrom(b, i, depth)
    decreases |b| - i
  {
    if i < |b| {
      assert (a + b)[|a| + i] == b[i];
      AngleShift(a, b, i + 1,
        if b[i] == '<' then depth + 1 else if b[i] == '>' && depth > 0 then depth - 1 else depth);
    }
  }

  ghost predicate BracketFree(s: string) {
    forall i :: 0 <= i < |s| ==> s[i] != '<' && s[i] != '>'
  }

  lemma {:induction false} AngleCopies(s: string, i: nat, n: nat)
    requires i + n <= |s| && BracketFree(s[i..i + n])
    ensures AngleFrom(s, i, 0) == s[i..i + n] + AngleFrom(s, i + n, 0)
    decreases n
  {
    if n == 0 {
      assert s[i..i] + AngleFrom(s, i, 0) == AngleFrom(s, i, 0);
    } else {
      var w := s[i..i + n];
      assert s[i] == w[0] && s[i + 1..i + n] == w[1..];
      AngleCopies(s, i + 1, n - 1);
      assert [s[i]] + (w[1..] + AngleFrom(s, i + n, 0)) == w + AngleFrom(s, i + n, 0);
    }
  }

  /** A balanced group is dropped with all it holds; what stands before it is kept, and stripping goes on behind it. */
  lemma {:induction false} GroupDropped(a: string, g: string, b: string)
    requires BracketFree(a) && Balanced(g, 0)
    ensures StripAngleGroups(a + "<" + g + ">" + b) == a + StripAngleGroups(b)
  {
    hide AngleFrom, Balanced;
    var s := a + "<" + g + ">" + b;
    var close := |a| + 1 + |g|;
    assert s[0..|a|] == a && s[|a|] == '<' && s[|a| + 1..close] == g && s[close] == '>';
    AngleCopies(s, 0, |a|);
    GroupOpens(s, |a|);
    InsideGroup(s, |a| + 1, g, 0);
    GroupCloses(s, close);
    assert s == (a + "<" + g + ">") + b;
    AngleShift(a + "<" + g + ">", b, 0, 0);
  }

  lemma {:induction false} GroupOpens(s: string, i: nat)
    requires i < |s| && s[i] == '<'
    ensures AngleFrom(s, i, 0) == AngleFrom(s, i + 1, 1)
  {
  }

  lemma {:induction false} GroupCloses(s: string, i: nat)
    requires i < |s| && s[i] == '>'
    ensures AngleFrom(s, i, 1) == AngleFrom(s, i + 1, 0)
  {
  }

  /** `w` is `v` with any number of balanced groups put in. */
  ghost predicate Decorated(w: string, v: string)
    decreases |w|
  {
    || w == v
    || exists p, g, q, u ::
         && w == p + "<" + g + ">" + q && v == p + u
         && BracketFree(p) && Balanced(g, 0) && Decorated(q, u)
  }

  /** The first group of a decorated word, and what is around it. */
  lemma {:induction false} FirstGroup(w: string, v: string) returns (p: string, g: string, q: string, u: string)
    requires Decorated(w, v) && w != v && NameChars(v)
    ensures w == p + "<" + g + ">" + q && v == p + u && NameChars(u)
    ensures BracketFree(p) && Balanced(g, 0) && Decorated(q, u)
    ensures |q| < |w| && w[|p|] == '<' && w[..|p|] == p && w[|w| - |q| - 1] == '>' && w[|w| - |q|..] == q
    ensures v[..|p|] == p && v[|p|..] == u
  {
    hide Balanced, NameChars, BracketFree;
    p, g, q, u :| w == p + "<" + g + ">" + q && v == p + u
      && BracketFree(p) && Balanced(g, 0) && Decorated(q, u);
    hide Decorated;
    GroupPlaces(p, g, q, u);
    PieceClean(v, |p|, |v|);
  }

  lemma {:induction false} GroupPlaces(p: string, g: string, q: string, u: string)
    ensures var w, v := p + "<" + g + ">" + q, p + u;
            && |q| < |w| && w[|p|] == '<' && w[..|p|] == p && w[|w| - |q| - 1] == '>' && w[|w| - |q|..] == q
            && v[..|p|] == p && v[|p|..] == u && v[|p|..|v|] == u
  {
    var w := p + "<" + g + ">" + q;
    assert w == p + ("<" + (g + (">" + q)));
    assert w[|p| + 1 + |g|] == '>';
  }

  lemma {:induction false} DecoratedStrips(w: string, v: string)
    requires Decorated(w, v) && NameChars(v)
    ensures StripAngleGroups(w) == v
    decreases |w|
  {
    hide StripAngleGroups, Balanced, Decorated, NameChars;
    if w == v {
      NamesHaveNoGroups(v);
    } else {
      var p, g, q, u := FirstGroup(w, v);
      GroupDropped(p, g, q);
      DecoratedStrips(q, u);
    }
  }

  lemma {:induction false} NamesHaveNoGroups(v: string)
    requires NameChars(v)
    ensures StripAngleGroups(v) == v
  {
    AngleFromSame(v, 0);
    assert v[0..] == v;
  }

  /** A decorated word has a blank at neither end. */
  lemma {:induction false} DecoratedEnds(w: string, v: string)
    requires Decorated(w, v) && v != "" && NameChars(v)
    ensures w != "" && !IsWhitespace(w[0]) && !IsWhitespace(w[|w| - 1])
  {
    hide Balanced, Decorated, NameChars;
    NamesNotBlank(v);
    var m := DecoratedLast(w, v);
    if w != v {
      var p, g, q, u := FirstGroup(w, v);
      assert w[0] == if p == "" then '<' else v[..|p|][0];
    }
  }

  /** Up to the first group a decorated word reads like the word itself. */
  lemma {:induction false} DecoratedHead(w: string, v: string) returns (n: nat)
    requires Decorated(w, v) && NameChars(v)
    ensures n <= |w| && n <= |v| && w[..n] == v[..n]
    ensures n < |w| ==> w[n] == '<'
    ensures n == |w| ==> w == v
  {
    hide Decorated, NameChars;
    if w == v {
      n := |w|;
    } else {
      var p, g, q, u := FirstGroup(w, v);
      n := |p|;
    }
  }

  // ----- what may follow a symbol

  /** Nothing, or what formatters put behind a symbol: a source location. */
  predicate IsTail(tail: string) {
    || tail == ""
    || (|tail| > 4 && tail[..4] == " at " && !IsWhitespace(tail[4]))
    || (|tail| > 3 && tail[..3] == " @ " && !IsWhitespace(tail[3]) && !("at " <= tail[3..]))
  }

  /** Groups and a location bring no ordinal in front. */
  lemma {:induction false} NoOrdinalInFront(w: string, v: string, tail: string)
    requires v != "" && NameChars(v) && StripFrameOrdinal(v).None? && Decorated(w, v) && IsTail(tail)
    ensures StripFrameOrdinal(w + tail).None?
  {
    hide Decorated, NameChars, IsTail;
    var s := w + tail;
    var n := IndexFrom(s, ':', 0);
    var k := DecoratedHead(w, v);
    TailStarts(tail);
    FirstNotBlank(v);
    if 0 < n < |s| && AllDigits(s[..n]) {
      OrdinalInWord(w, v, tail, k, n);
    }
    if s[0] == '#' {
      HashInWord(w, v, tail, k);
    }
  }

  lemma {:induction false} TailStarts(tail: string)
    requires IsTail(tail)
    ensures tail != "" ==> |tail| >= 2 && tail[0] == ' ' && (tail[1] == 'a' || tail[1] == '@')
  {
    assert |tail| > 4 && tail[..4] == " at " ==> tail[..4][0] == ' ' && tail[..4][1] == 'a';
    assert |tail| > 3 && tail[..3] == " @ " ==> tail[..3][0] == ' ' && tail[..3][1] == '@';
  }

  lemma {:induction false} FirstNotBlank(v: string)
    requires v != "" && NameChars(v)
    ensures forall i :: 0 <= i < |v| ==> !IsWhitespace(v[i])
  {
    forall i | 0 <= i < |v| ensures !IsWhitespace(v[i]) {
      assert IsNameChar(v[i]);
    }
  }

  lemma {:induction false} OrdinalInWord(w: string, v: string, tail: string, k: nat, n: nat)
    requires k <= |w| && k <= |v| && w[..k] == v[..k] && (k < |w| ==> w[k] == '<') && (k == |w| ==> w == v)
    requires tail != "" ==> tail[0] == ' '
    requires n == IndexFrom(w + tail, ':', 0) && 0 < n < |w + tail|
    ensures AllDigits((w + tail)[..n]) ==> StripFrameOrdinal(v).Some?
  {
    var s := w + tail;
    if n >= k {
      assert s[k] == if k < |w| then '<' else tail[0];
      assert s[..n][k] == s[k];
      assert !Digit.Has(s[..n][k]);
    } else {
      assert v[..k][n] == w[..k][n] == s[n];
      assert s[..n] == v[..n];
      assert forall i :: 0 <= i < n ==> s[i] == v[..n][i];
      assert IndexFrom(v, ':', 0) == n;
    }
  }

  lemma {:induction false} HashInWord(w: string, v: string, tail: string, k: nat)
    requires v != "" && (forall i :: 0 <= i < |v| ==> !IsWhitespace(v[i])) && StripFrameOrdinal(v).None?
    requires k <= |w| && k <= |v| && w[..k] == v[..k] && (k < |w| ==> w[k] == '<') && (k == |w| ==> w == v)
    requires tail != "" ==> |tail| >= 2 && tail[0] == ' ' && (tail[1] == 'a' || tail[1] == '@')
    requires w != "" && w[0] == '#'
    ensures LeadFrom(TrimStart((w + tail)[1..]), Digit, 0) == 0
  {
    var rest := (w + tail)[1..];
    assert v[0] == '#';
    if |w| > 1 {
      assert rest[0] == w[1];
      if k > 1 {
        assert w[1] == v[1];
        assert v[1..][0] == v[1];
        LeadIs(v[1..], Blank, 0, 0);
        assert TrimStart(v[1..]) == v[1..];
      }
      assert !IsWhitespace(rest[0]);
      LeadIs(rest, Blank, 0, 0);
      assert TrimStart(rest) == rest;
    } else {
      assert rest == tail;
      LeadIs(tail, Blank, 0, if tail == "" then 0 else 1);
    }
  }

  /** What the location leaves of the text in front of it. */
  lemma {:induction false} TailCut(w: string, tail: string)
    requires w != "" && !IsWhitespace(w[0]) && !IsWhitespace(w[|w| - 1])
    requires !Occurs(" at ", w) && !Occurs(" @ ", w) && IsTail(tail)
    requires !EndsIn(w, " at") && !EndsIn(w, " @")
    ensures Trim(UpTo(UpTo(Trim(w + tail), " at "), " @ ")) == w
  {
    hide Trim, UpTo, Occurs;
    if tail == "" {
      assert w + tail == w;
      TrimInk(w);
      NotFound(w, " at ");
      NotFound(w, " @ ");
    } else if |tail| > 4 && tail[..4] == " at " {
      var kept := TrimmedTail(w, tail, 4);
      assert " at "[..3] == " at";
      FoundBehind(w, " at ", kept);
      NotFound(w, " @ ");
      TrimInk(w);
    } else {
      var kept := TrimmedTail(w, tail, 3);
      PrefixThrough("at ", kept, tail[3..]);
      AtSignCut(w, kept);
      TrimInk(w);
    }
  }

  lemma {:induction false} PrefixThrough(a: string, b: string, c: string)
    requires b <= c && !(a <= c)
    ensures !(a <= b)
  {
  }

  predicate EndsIn(s: string, p: string) {
    |p| <= |s| && s[|s| - |p|..] == p
  }

  /** Behind its last group a decorated word has no blank. */
  lemma {:induction false} DecoratedLast(w: string, v: string) returns (m: nat)
    requires Decorated(w, v) && NameChars(v)
    ensures m <= |w| && (m > 0 ==> w[m - 1] == '>')
    ensures forall i :: m <= i < |w| ==> !IsWhitespace(w[i])
    decreases |w|
  {
    hide Balanced, IsWhitespace, Decorated, NameChars;
    if w == v {
      m := 0;
      NamesNotBlank(v);
    } else {
      var p, g, q, u := FirstGroup(w, v);
      m := DecoratedLast(q, u);
      var at := |w| - |q|;
      assert forall i :: at <= i < |w| ==> w[i] == w[at..][i - at];
      m := m + at;
    }
  }

  lemma {:induction false} NamesNotBlank(v: string)
    requires NameChars(v)
    ensures forall i :: 0 <= i < |v| ==> !IsWhitespace(v[i])
  {
    forall i | 0 <= i < |v| ensures !IsWhitespace(v[i]) {
      assert IsNameChar(v[i]);
    }
  }

  lemma {:induction false} NoHalfTail(w: string, v: string)
    requires Decorated(w, v) && NameChars(v)
    ensures !EndsIn(w, " at") && !EndsIn(w, " @")
  {
    hide Decorated, NameChars;
    var m := DecoratedLast(w, v);
    EndsApart(w, " at", m);
    EndsApart(w, " @", m);
  }

  lemma {:induction false} EndsApart(w: string, p: string, m: nat)
    requires m <= |w| && (m > 0 ==> w[m - 1] == '>') && forall i :: m <= i < |w| ==> !IsWhitespace(w[i])
    requires p != "" && p[0] == ' ' && '>' !in p
    ensures !EndsIn(w, p)
  {
    if |p| <= |w| {
      var at := |w| - |p|;
      if m <= at {
        assert w[at] != ' ';
        assert w[at..][0] == w[at];
      } else {
        assert w[at..][m - 1 - at] == '>';
      }
    }
  }

  lemma {:induction false} TrimInk(s: string)
    requires s != "" && !IsWhitespace(s[0]) && !IsWhitespace(s[|s| - 1])
    ensures Trim(s) == s
  {
    TrimFixed(s, Blank);
  }

  lemma {:induction false} NotFound(s: string, p: string)
    requires !Occurs(p, s)
    ensures UpTo(s, p) == s
  {
  }

  lemma {:induction false} TrimmedTail(w: string, tail: string, n: nat) returns (kept: string)
    requires w != "" && !IsWhitespace(w[0]) && 0 < n < |tail| && !IsWhitespace(tail[n])
    ensures Trim(w + tail) == w + (tail[..n] + kept)
    ensures kept != "" && kept[0] == tail[n] && kept <= tail[n..]
  {
    var s := w + tail;
    var b := TrailFrom(s, Blank, |s|);
    LeadIs(s, Blank, 0, 0);
    assert s[|w| + n] == tail[n] && !Blank.Has(tail[n]);
    assert b > |w| + n;
    kept := tail[n..b - |w|];
    assert s[..b] == w + (tail[..n] + kept);
  }

  /** The marker of a location is found right behind a text that does not hold it. */
  lemma {:induction false} FoundBehind(w: string, p: string, kept: string)
    requires !Occurs(p, w) && |p| > 1 && p[0] == p[|p| - 1] == ' ' && !EndsIn(w, p[..|p| - 1])
    requires forall i :: 0 < i < |p| - 1 ==> p[i] != ' '
    ensures UpTo(w + (p + kept), p) == w
  {
    var s := w + (p + kept);
    assert s[|w|..|w| + |p|] == p;
    assert At(s, p, |w|);
    forall i: nat | i < |w| ensures !At(s, p, i) {
      if i + |p| <= |w| {
        assert s[i..i + |p|] == w[i..i + |p|];
        assert !At(w, p, i);
      } else {
        assert s[|w|] == ' ';
        CrossingFails(s, w, p, i);
      }
    }
    var n := Find(s, p).value;
    assert n == |w| && s[..n] == w;
  }

  /** No occurrence of `p` runs from `w` into the blank behind it. */
  lemma {:induction false} CrossingFails(s: string, w: string, p: string, i: nat)
    requires w <= s && i < |w| < i + |p| && |w| < |s| && s[|w|] == ' '
    requires |p| > 1 && p[|p| - 1] == ' ' && !EndsIn(w, p[..|p| - 1])
    requires forall j :: 0 < j < |p| - 1 ==> p[j] != ' '
    ensures !At(s, p, i)
  {
    if i + |p| - 1 > |w| {
      Differs(s, p, i, |w| - i);
    } else if At(s, p, i) {
      HalfAtEnd(s, w, p, i);
    }
  }

  lemma {:induction false} HalfAtEnd(s: string, w: string, p: string, i: nat)
    requires w <= s && At(s, p, i) && |p| > 1 && i + |p| - 1 == |w|
    ensures EndsIn(w, p[..|p| - 1])
  {
    assert w[i..] == s[i..|w|];
    assert s[i..i + |p|][..|p| - 1] == s[i..|w|];
  }

  /** An at-sign location is cut off, whatever the cut at ` at ` leaves of it. */
  lemma {:induction false} AtSignCut(w: string, kept: string)
    requires w != "" && !Occurs(" at ", w) && !Occurs(" @ ", w) && !EndsIn(w, " at") && !EndsIn(w, " @")
    requires kept != "" && kept[0] != ' ' && !("at " <= kept)
    ensures UpTo(UpTo(w + (" @ " + kept), " at "), " @ ") == w
  {
    var s := w + (" @ " + kept);
    assert s[|w|] == ' ' && s[|w| + 1] == '@' && s[|w| + 2] == ' ';
    assert s[|w| + 3..] == kept;
    forall i: nat | i <= |w| + 3 ensures !At(s, " at ", i) {
      NoAtBefore(s, w, kept, i);
    }
    var n := Find(s, " at ");
    var c := if n.Some? then n.value else |s|;
    assert c > |w| + 3;
    assert s[..c] == w + (" @ " + s[|w| + 3..c]);
    assert UpTo(s, " at ") == s[..c];
    hide UpTo, Occurs, EndsIn;
    AtSignEnds(w);
    FoundBehind(w, " @ ", s[|w| + 3..c]);
  }

  lemma {:induction false} AtSignEnds(w: string)
    requires !EndsIn(w, " @")
    ensures !EndsIn(w, " @ "[..2])
  {
    assert " @ "[..2] == " @";
  }

  lemma {:induction false} AtBehind(s: string, i: nat, kept: string)
    requires At(s, " at ", i) && i + 1 <= |s| && s[i + 1..] == kept
    ensures "at " <= kept
  {
    assert s[i..i + 4][1..] == kept[..3];
  }

  lemma {:induction false} NoAtBefore(s: string, w: string, kept: string, i: nat)
    requires s == w + (" @ " + kept) && kept != "" && kept[0] != ' ' && !("at " <= kept)
    requires !Occurs(" at ", w) && !EndsIn(w, " at") && i <= |w| + 3
    ensures !At(s, " at ", i)
  {
    assert s[|w|] == ' ' && s[|w| + 1] == '@' && s[|w| + 2] == ' ' && s[|w| + 3] == kept[0];
    if i + 4 <= |w| {
      assert s[i..i + 4] == w[i..i + 4];
      assert !At(w, " at ", i);
    } else if i < |w| {
      assert " at "[..3] == " at";
      CrossingFails(s, w, " at ", i);
    } else if i == |w| {
      Differs(s, " at ", i, 1);
    } else if i == |w| + 2 {
      if At(s, " at ", i) {
        AtBehind(s, i, kept);
      }
    } else {
      Differs(s, " at ", i, 0);
    }
  }
  /** Groups and a location add nothing: a decorated word goes to the final stages as the word itself. */
  lemma {:induction false} DecorationIgnored(w: string, v: string, tail: string)
    requires v != "" && NameChars(v) && StripFrameOrdinal(v).None? && !LooksLikePath(v) && !LooksLikeAddress(v)
    requires Decorated(w, v) && !Occurs(" at ", w) && !Occurs(" @ ", w) && IsTail(tail)
    ensures NormalizeFrame(w + tail) == Finish(v)
  {
    hide *;
    DecoratedEnds(w, v);
    NoHalfTail(w, v);
    NoOrdinalInFront(w, v, tail);
    TailKeepsOrdinal(w, v, tail);
    TailCut(w, tail);
    DecoratedStrips(w, v);
    PartIs(w + tail, w);
    NameIsWord(v);
    WordStages(v);
    OneSymbol(v);
    Normalized(w + tail, v);
  }

  lemma {:induction false} PartIs(raw: string, w: string)
    requires StripFrameOrdinal(Trim(raw)).None?
    requires Trim(UpTo(UpTo(Trim(raw), " at "), " @ ")) == w
    ensures SymbolPart(raw) == StripAngleGroups(w)
  {
    hide StripFrameOrdinal, Trim, UpTo, StripAngleGroups;
  }

  lemma {:induction false} OneSymbol(v: string)
    requires !LooksLikePath(v) && !LooksLikeAddress(v)
    ensures FirstSymbol([v]) == Some(v)
  {
    hide LooksLikePath, LooksLikeAddress;
  }

  lemma {:induction false} Normalized(raw: string, v: string)
    requires FirstSymbol(SplitWhitespace(SymbolPart(raw))) == Some(v)
    ensures NormalizeFrame(raw) == Finish(v)
  {
    hide FirstSymbol, SplitWhitespace, SymbolPart, Finish;
  }

  /** Trimming the end of a location brings no ordinal in front either. */
  lemma {:induction false} TailKeepsOrdinal(w: string, v: string, tail: string)
    requires v != "" && NameChars(v) && StripFrameOrdinal(v).None? && Decorated(w, v) && IsTail(tail)
    ensures StripFrameOrdinal(Trim(w + tail)).None?
  {
    hide Decorated, NameChars, StripFrameOrdinal, Trim;
    DecoratedEnds(w, v);
    if tail == "" {
      assert w + tail == w;
      TrimInk(w);
      NoOrdinalInFront(w, v, tail);
    } else {
      var n := if |tail| > 4 && tail[..4] == " at " then 4 else 3;
      var kept := TrimmedTail(w, tail, n);
      TailStays(tail, n, kept);
      NoOrdinalInFront(w, v, tail[..n] + kept);
    }
  }

  lemma {:induction false} TailStays(tail: string, n: nat, kept: string)
    requires IsTail(tail) && tail != "" && n == (if |tail| > 4 && tail[..4] == " at " then 4 else 3)
    requires kept != "" && kept[0] == tail[n] && kept <= tail[n..]
    ensures IsTail(tail[..n] + kept)
  {
    var t := tail[..n] + kept;
    assert t[..n] == tail[..n] && t[n] == kept[0] && t[n..] == kept;
    if n == 3 {
      PrefixThrough("at ", kept, tail[3..]);
    }
  }

  /** Hexadecimal digits from `i` on. */
  predicate HexFrom(s: string, i: nat) {
    forall j :: i <= j < |s| ==> '0' <= s[j] <= '9' || 'a' <= s[j] <= 'f' || 'A' <= s[j] <= 'F'
  }

  lemma {:induction false} HashIs(s: string, i: nat)
    requires i <= |s|
    ensures IsHash(s[i..]) <==> 8 <= |s| - i <= 20 && HexFrom(s, i)
  {
    assert forall j :: i <= j < |s| ==> s[j] == s[i..][j - i];
  }

  /** What compilers and formatters put behind a symbol: a build hash, a closure, an offset or a line. */
  ghost predicate IsNoise(suffix: string) {
    || suffix == ""
    || (11 <= |suffix| <= 23 && suffix[..3] == "::h" && HexFrom(suffix, 3))
    || "::{{closure}}" <= suffix
    || suffix[0] == '+'
    || (|suffix| > 1 && suffix[0] == ':' && IsDigit(suffix[1]))
  }

  /** The final stages cut an offset, a line or a closure off a finished symbol, whatever follows in them. */
  lemma {:induction false} SuffixFinishes(sym: string, suffix: string)
    requires IsName(sym) && Finish(sym) == Some(sym) && IsNoise(suffix)
    ensures Finish(sym + suffix) == Some(sym)
  {
    hide Finish, IsHash, LooksLikePath, LooksLikeAddress, NameChars, NoPlus, NoLineColon, Occurs;
    SymbolEnd(sym);
    if suffix == "" {
      assert sym + suffix == sym;
    } else if 11 <= |suffix| <= 23 && suffix[..3] == "::h" && HexFrom(suffix, 3) {
      HashIs(suffix, 3);
      assert suffix == "::h" + suffix[3..];
      HashFinishes(sym, suffix[3..]);
    } else if CLOSURE <= suffix {
      ClosureCut(sym, suffix);
      LastStages(sym + suffix, sym);
    } else {
      MarkCut(sym, suffix);
    }
  }

  lemma {:induction false} SymbolEnd(sym: string)
    requires IsName(sym) && Finish(sym) == Some(sym)
    ensures sym != "" && !ColonOrBlank.Has(sym[0]) && !ColonOrBlank.Has(sym[|sym| - 1])
    ensures StripHash(sym) == sym && StripOffsetAndLine(sym) == sym && TrimBy(sym, ColonOrBlank) == sym
  {
    hide LooksLikePath, LooksLikeAddress, Occurs, FindLast, NameChars;
    var c := StripClosures(sym);
    var h := StripHash(c);
    var o := StripOffsetAndLine(h);
    assert |c| <= |sym| && |h| <= |c| && |o| <= |h|;
    assert |TrimBy(o, ColonOrBlank)| <= |o|;
    assert c == sym[..|c|] && h == c[..|h|] && o == h[..|o|];
    assert o == sym && h == sym && c == sym;
    var a, b := TrimSplit(sym, ColonOrBlank);
    assert a == 0 && b == |sym|;
  }

  /** Once hash, offset and line are off, trimming and the last tests accept the symbol. */
  lemma {:induction false} LastStages(v: string, sym: string)
    requires IsName(sym) && StripClosures(v) == sym
    requires StripHash(sym) == sym && StripOffsetAndLine(sym) == sym && TrimBy(sym, ColonOrBlank) == sym
    ensures Finish(v) == Some(sym)
  {
    hide StripClosures, StripHash, StripOffsetAndLine, TrimBy, LooksLikePath, LooksLikeAddress, NameChars, NoPlus, NoLineColon, Occurs;
  }

  lemma {:induction false} ClosureCut(sym: string, suffix: string)
    requires !Occurs(CLOSURE, sym) && sym != "" && sym[|sym| - 1] != ':' && CLOSURE <= suffix
    ensures StripClosures(sym + suffix) == sym
  {
    var v := sym + suffix;
    assert v[|sym|..|sym| + |CLOSURE|] == suffix[..|CLOSURE|] == CLOSURE;
    assert At(v, CLOSURE, |sym|);
    assert suffix[0] == suffix[..|CLOSURE|][0] == ':' && v[|sym|] == ':';
    forall i: nat | i < |sym| ensures !At(v, CLOSURE, i) {
      if i + |CLOSURE| <= |sym| {
        assert v[i..i + |CLOSURE|] == sym[i..i + |CLOSURE|];
        assert !At(sym, CLOSURE, i);
      } else if i + 1 == |sym| {
        Differs(v, CLOSURE, i, 0);
      } else {
        assert |sym| - i >= 2;
        Differs(v, CLOSURE, i, |sym| - i);
      }
    }
    var n := Find(v, CLOSURE).value;
    assert n == |sym| && v[..n] == sym;
  }

  /** An offset or a line behind the symbol: closures and hashes are sought, but nothing before it is cut. */
  lemma {:induction false} MarkCut(sym: string, suffix: string)
    requires IsName(sym) && sym[|sym| - 1] != ':' && suffix != ""
    requires suffix[0] == '+' || (|suffix| > 1 && suffix[0] == ':' && IsDigit(suffix[1]))
    requires StripHash(sym) == sym && TrimBy(sym, ColonOrBlank) == sym
    ensures Finish(sym + suffix) == Some(sym)
  {
    hide LooksLikePath, LooksLikeAddress, NameChars, NoPlus, NoLineColon, Occurs, StripHash, StripClosures, StripOffsetAndLine, TrimBy;
    var n := if suffix[0] == '+' then 1 else 2;
    var v := sym + suffix;
    var c := StripClosures(v);
    ClosuresKeep(sym, suffix, n);
    var x := c[|sym|..];
    HashKeeps(sym, x, n);
    var h := StripHash(c);
    assert c == sym + x;
    var y := h[|sym|..];
    assert h == sym + y;
    OffsetCuts(sym, y, n);
  }

  /** The mark `suffix[..n]` is in no closure marker, so what is cut stands behind it. */
  lemma {:induction false} ClosuresKeep(sym: string, suffix: string, n: nat)
    requires !Occurs(CLOSURE, sym) && sym != "" && sym[|sym| - 1] != ':' && 1 <= n <= 2 && n <= |suffix|
    requires if n == 1 then suffix[0] == '+' else suffix[0] == ':' && IsDigit(suffix[1])
    ensures var c := StripClosures(sym + suffix);
            |c| >= |sym| + n && c[..|sym|] == sym && c[|sym|..] <= suffix
  {
    var v := sym + suffix;
    assert v[|sym|] == suffix[0] && (n == 2 ==> v[|sym| + 1] == suffix[1]);
    forall i: nat | i < |sym| + n ensures !At(v, CLOSURE, i) {
      NoClosureOver(sym, suffix, n, i);
    }
    var f := Find(v, CLOSURE);
    if f.Some? {
      assert f.value >= |sym| + n;
      assert v[..f.value] == sym + suffix[..f.value - |sym|];
    }
  }

  lemma {:induction false} NoClosureOver(sym: string, suffix: string, n: nat, i: nat)
    requires !Occurs(CLOSURE, sym) && sym != "" && sym[|sym| - 1] != ':' && 1 <= n <= 2 && n <= |suffix|
    requires if n == 1 then suffix[0] == '+' else suffix[0] == ':' && IsDigit(suffix[1])
    requires i < |sym| + n
    ensures !At(sym + suffix, CLOSURE, i)
  {
    var v := sym + suffix;
    if i + |CLOSURE| <= |sym| {
      assert v[i..i + |CLOSURE|] == sym[i..i + |CLOSURE|];
      assert !At(sym, CLOSURE, i);
    } else if i + 1 == |sym| {
      Differs(v, CLOSURE, i, 0);
    } else if i < |sym| {
      Differs(v, CLOSURE, i, |sym| - i);
    } else {
      Differs(v, CLOSURE, i, |sym| + n - 1 - i);
    }
  }

  /** A hash reaches to the end of the text, so none can start before the mark. */
  lemma {:induction false} HashKeeps(sym: string, x: string, n: nat)
    requires sym != "" && sym[|sym| - 1] != ':' && 1 <= n <= 2 && n <= |x|
    requires if n == 1 then x[0] == '+' else x[0] == ':' && IsDigit(x[1])
    ensures var h := StripHash(sym + x);
            |h| >= |sym| + n && h[..|sym|] == sym && h[|sym|..] <= x
  {
    var v := sym + x;
    var f := FindLast(v, "::h");
    if f.Some? && IsHash(v[f.value + 3..]) {
      HashBehindMark(v, |sym|, n, f.value);
      assert v[..f.value] == sym + x[..f.value - |sym|];
    }
  }

  lemma {:induction false} HashBehindMark(v: string, m: nat, n: nat, i: nat)
    requires 1 <= n <= 2 && 0 < m && m + n <= |v| && v[m - 1] != ':'
    requires if n == 1 then v[m] == '+' else v[m] == ':' && IsDigit(v[m + 1])
    requires At(v, "::h", i) && IsHash(v[i + 3..])
    ensures i >= m + n
  {
    assert v[i..i + 3][0] == v[i] && v[i..i + 3][1] == v[i + 1] && v[i..i + 3][2] == v[i + 2];
    assert forall j :: i + 3 <= j < |v| ==> v[j] == v[i + 3..][j - i - 3];
  }

  /** What is kept of a token ends at its first plus sign or at its first colon with a digit behind it. */
  lemma {:induction false} CutAtOffsetOrLine(s: string, n: nat)
    requires n <= |s|
    requires forall i :: 0 <= i < n ==> s[i] != '+' && !(s[i] == ':' && i + 1 < |s| && '0' <= s[i + 1] <= '9')
    requires n < |s| ==> s[n] == '+' || (s[n] == ':' && n + 1 < |s| && '0' <= s[n + 1] <= '9')
    ensures StripOffsetAndLine(s) == s[..n]
  {
    var p := IndexFrom(s, '+', 0);
    var u := s[..p];
    assert n < |s| && s[n] == ':' ==> p >= n + 2;
    assert n <= p && u[..n] == s[..n];
    assert forall i :: 0 <= i < n ==> !LineColon(u, i);
    if n < p {
      LineColonAt(u, n, 0);
    } else {
      NoLineColonFrom(u, 0);
    }
  }

  lemma {:induction false} OffsetCuts(sym: string, y: string, n: nat)
    requires NoPlus(sym) && NoLineColon(sym) && sym != "" && sym[|sym| - 1] != ':' && 1 <= n <= 2 && n <= |y|
    requires if n == 1 then y[0] == '+' else y[0] == ':' && IsDigit(y[1])
    ensures StripOffsetAndLine(sym + y) == sym
  {
    hide StripOffsetAndLine;
    var v := sym + y;
    assert v[|sym|] == y[0] && (n == 2 ==> v[|sym| + 1] == y[1]);
    forall i | 0 <= i < |sym| ensures v[i] != '+' && !(v[i] == ':' && i + 1 < |v| && '0' <= v[i + 1] <= '9') {
      assert sym[i] == v[i] && !LineColon(sym, i);
    }
    CutAtOffsetOrLine(v, |sym|);
    assert v[..|sym|] == sym;
  }

  lemma {:induction false} LineColonAt(u: string, m: nat, i: nat)
    requires i <= m < |u| && LineColon(u, m) && forall j :: i <= j < m ==> !LineColon(u, j)
    ensures LineColonFrom(u, i) == m
    decreases m - i
  {
    if i < m {
      LineColonAt(u, m, i + 1);
    }
  }

  /** Generic arguments do not show, nested ones included: the symbol is what stands around them. */
  lemma {:induction false} GenericsIgnored(p: string, g: string, q: string)
    requires IsSymbol(p + q) && Balanced(g, 0) && !Occurs(" at ", g) && !Occurs(" @ ", g)
    ensures NormalizeFrame(p + "<" + g + ">" + q) == Some(p + q)
  {
    hide *;
    var sym, w := p + q, p + "<" + g + ">" + q;
    SymbolIff(sym);
    SymbolWord(sym);
    OneGroup(p, g, q);
    BlankInGroup(p, g, q, " at ");
    BlankInGroup(p, g, q, " @ ");
    NoTail();
    DecorationIgnored(w, sym, "");
    assert w + "" == w;
  }

  lemma {:induction false} NoTail()
    ensures IsTail("")
  {
  }

  lemma {:induction false} SymbolWord(sym: string)
    requires IsName(sym)
    ensures sym != "" && NameChars(sym) && !LooksLikePath(sym) && !LooksLikeAddress(sym)
  {
  }

  lemma {:induction false} OneGroup(p: string, g: string, q: string)
    requires NameChars(p + q) && Balanced(g, 0)
    ensures Decorated(p + "<" + g + ">" + q, p + q)
  {
    forall i | 0 <= i < |p| ensures p[i] != '<' && p[i] != '>' {
      assert IsNameChar((p + q)[i]);
    }
    assert Decorated(q, q);
  }

  /** Text that starts and ends with a blank occurs in the group, if at all. */
  lemma {:induction false} BlankInGroup(p: string, g: string, q: string, x: string)
    requires NameChars(p + q) && !Occurs(x, g)
    requires |x| > 1 && x[0] == ' ' && '<' !in x && '>' !in x
    ensures !Occurs(x, p + "<" + g + ">" + q)
  {
    hide Occurs, NameChars;
    NamesNotBlank(p + q);
    NotInWord(p, x, p + q, 0);
    NotInWord(q, x, p + q, |p|);
    assert p + "<" + g == p + ['<'] + g;
    assert p + "<" + g + ">" + q == (p + "<" + g) + ['>'] + q;
    if Occurs(x, p + "<" + g + ">" + q) {
      OccursAcross(p + "<" + g, '>', q, x);
      OccursAcross(p, '<', g, x);
    }
  }

  lemma {:induction false} NotInWord(p: string, x: string, v: string, at: nat)
    requires at + |p| <= |v| && p == v[at..at + |p|] && x != "" && x[0] == ' '
    requires forall i :: 0 <= i < |v| ==> !IsWhitespace(v[i])
    ensures !Occurs(x, p)
  {
    forall i: nat | i < |p| ensures !At(p, x, i) {
      assert p[i] == v[at + i];
      Differs(p, x, i, 0);
    }
  }

  /** An address or offset in front of a symbol is passed over. */
  lemma {:induction false} AddressSkipped(pluses: string, x: char, hex: string, sym: string)
    requires IsSymbol(sym) && (x == 'x' || x == 'X') && hex != "" && HexFrom(hex, 0)
    requires forall i :: 0 <= i < |pluses| ==> pluses[i] == '+'
    ensures NormalizeFrame(pluses + ['0', x] + hex + " " + sym) == Some(sym)
  {
    hide NormalizeFrame, Finish, LooksLikePath, Occurs, IsName, NameChars, HexFrom;
    SymbolIff(sym);
    SymbolWord(sym);
    NamesNotBlank(sym);
    var addr := pluses + ['0', x] + hex;
    var raw := addr + " " + sym;
    AddressIs(pluses, x, hex);
    AddressPart(addr, |pluses| + 1, sym);
    AddressWords(addr, sym);
    assert [addr, sym][1..] == [sym];
    OneSymbol(sym);
    assert FirstSymbol([addr, sym]) == Some(sym);
    Normalized(raw, sym);
  }

  lemma {:induction false} AddressIs(pluses: string, x: char, hex: string)
    requires (x == 'x' || x == 'X') && hex != "" && HexFrom(hex, 0)
    requires forall i :: 0 <= i < |pluses| ==> pluses[i] == '+'
    ensures var t := pluses + ['0', x] + hex;
            LooksLikeAddress(t) && NameChars(t) && ':' !in t && t[0] != '#' && t[|pluses| + 1] == x
  {
    var t, body := pluses + ['0', x] + hex, ['0', x] + hex;
    AddressChars(pluses, x, hex);
    hide NameChars;
    PlusesGo(pluses, body);
    assert pluses + body == t && body[2..] == hex;
  }

  lemma {:induction false} AddressChars(pluses: string, x: char, hex: string)
    requires (x == 'x' || x == 'X') && HexFrom(hex, 0)
    requires forall i :: 0 <= i < |pluses| ==> pluses[i] == '+'
    ensures var t := pluses + ['0', x] + hex;
            NameChars(t) && ':' !in t && t[0] != '#' && t[|pluses| + 1] == x
  {
    var t := pluses + ['0', x] + hex;
    assert t[|pluses|] == '0';
  }

  lemma {:induction false} PlusesGo(pluses: string, t: string)
    requires (forall i :: 0 <= i < |pluses| ==> pluses[i] == '+') && t != "" && t[0] != '+'
    ensures DropWhile(pluses + t, Plus) == t
  {
    var s := pluses + t;
    assert s[|pluses|] == t[0];
    LeadIs(s, Plus, 0, |pluses|);
    assert s[|pluses|..] == t;
  }

  lemma {:induction false} AddressWords(addr: string, sym: string)
    requires IsWord(addr) && IsWord(sym)
    ensures SplitWhitespace(addr + " " + sym) == [addr, sym]
  {
    hide IsWhitespace, SplitWhitespace;
    SplitJoin("", [addr, sym]);
    assert [addr, sym][1..] == [sym];
    assert Join([addr, sym], " ") == addr + " " + sym;
    assert "" + (addr + " " + sym) == addr + " " + sym;
  }

  lemma {:induction false} AddressPart(addr: string, k: nat, sym: string)
    requires NameChars(addr) && NameChars(sym) && sym != ""
    requires k < |addr| && (addr[k] == 'x' || addr[k] == 'X') && ':' !in addr && addr[0] != '#'
    ensures SymbolPart(addr + " " + sym) == addr + " " + sym
    ensures IsWord(addr) && IsWord(sym)
  {
    var raw := addr + " " + sym;
    NameIsWord(addr);
    NameIsWord(sym);
    NamesNotBlank(addr);
    NamesNotBlank(sym);
    TrimInk(raw);
    OneBlank(addr, sym, " at ");
    OneBlank(addr, sym, " @ ");
    var n := IndexFrom(raw, ':', 0);
    assert forall i :: 0 <= i < |addr| ==> raw[i] == addr[i];
    assert raw[..n][k] == addr[k];
    NotBracketed(addr, sym);
  }

  /** One blank makes no text with two. */
  lemma {:induction false} OneBlank(a: string, b: string, x: string)
    requires forall i :: 0 <= i < |a| ==> !IsWhitespace(a[i])
    requires forall i :: 0 <= i < |b| ==> !IsWhitespace(b[i])
    requires |x| > 1 && x[0] == x[|x| - 1] == ' '
    ensures UpTo(a + " " + b, x) == a + " " + b
  {
    var s := a + " " + b;
    assert forall i :: 0 <= i < |s| ==> s[i] == if i < |a| then a[i] else if i == |a| then ' ' else b[i - |a| - 1];
    forall i: nat | i < |s| ensures !At(s, x, i) {
      if i == |a| {
        if i + |x| <= |s| {
          Differs(s, x, i, |x| - 1);
        }
      } else {
        Differs(s, x, i, 0);
      }
    }
  }

  lemma {:induction false} NotBracketed(a: string, b: string)
    requires NameChars(a) && NameChars(b)
    ensures StripAngleGroups(a + " " + b) == a + " " + b
  {
    var s := a + " " + b;
    forall i | 0 <= i < |s| ensures s[i] != '<' && s[i] != '>' {
      if i < |a| { assert IsNameChar(a[i]); } else if i > |a| { assert IsNameChar(b[i - |a| - 1]); }
    }
    assert s[0..|s|] == s;
    AngleCopies(s, 0, |s|);
    assert s + AngleFrom(s, |s|, 0) == s;
  }

  // ----- signatures

  /** The names that survive, in order. */
  function Survivors(frames: seq<string>): seq<string> {
    if frames == [] then []
    else
      match NormalizeFrame(frames[0])
      case None => Survivors(frames[1..])
      case Some(name) => [name] + Survivors(frames[1..])
  }

  function Top(frames: seq<string>): seq<string> {
    var names := Survivors(frames);
    if |names| <= SIGNATURE_FRAME_DEPTH then names else names[..SIGNATURE_FRAME_DEPTH]
  }

  /** `hash` stands for the digest of the joined names. */
  function CrashSignature(frames: seq<string>, hash: string -> string): Option<string> {
    if Top(frames) == [] then None else Some(hash(Join(Top(frames), "\n")))
  }

  method CrashSignatureRun(frames: seq<string>, hash: string -> string) returns (r: Option<string>)
    ensures r == CrashSignature(frames, hash)
  {
    hide Survivors, NormalizeFrame, Join;
    var normalized: seq<string> := [];
    var i := 0;
    assert frames[0..] == frames && [] + Survivors(frames) == Survivors(frames);
    while i < |frames| && |normalized| < SIGNATURE_FRAME_DEPTH
      invariant 0 <= i <= |frames| && |normalized| <= SIGNATURE_FRAME_DEPTH
      invariant Survivors(frames) == normalized + Survivors(frames[i..])
    {
      var name := NormalizeFrameRun(frames[i]);
      SurvivorsNext(frames, i, normalized);
      if name.Some? {
        normalized := normalized + [name.value];
      }
      i := i + 1;
    }
    SurvivorsEnd(frames[i..]);
    PrefixOfSum(normalized, Survivors(frames[i..]), |normalized|);
    assert Top(frames) == normalized;
    if normalized == [] {
      return None;
    }
    r := Some(hash(Join(normalized, "\n")));
  }

  lemma {:induction false} SurvivorsEnd(rest: seq<string>)
    ensures rest == [] ==> Survivors(rest) == []
  {
  }

  lemma {:induction false} SurvivorsNext(frames: seq<string>, i: nat, done: seq<string>)
    requires i < |frames|
    ensures var name := NormalizeFrame(frames[i]);
            done + Survivors(frames[i..])
            == (if name.Some? then done + [name.value] else done) + Survivors(frames[i + 1..])
  {
    hide NormalizeFrame;
    assert frames[i..][1..] == frames[i + 1..];
    var rest := Survivors(frames[i + 1..]);
    var name := NormalizeFrame(frames[i]);
    if name.Some? {
      assert done + ([name.value] + rest) == (done + [name.value]) + rest;
    }
  }

  lemma {:induction false} SurvivorsHead(frames: seq<string>)
    requires frames != []
    ensures var name := NormalizeFrame(frames[0]);
            Survivors(frames) == (if name.Some? then [name.value] else []) + Survivors(frames[1..])
  {
    hide NormalizeFrame;
  }

  lemma {:induction false} SurvivorsConcat(a: seq<string>, b: seq<string>)
    ensures Survivors(a + b) == Survivors(a) + Survivors(b)
  {
    hide NormalizeFrame, Survivors;
    if a == [] {
      SurvivorsEnd(a);
      assert a + b == b && [] + Survivors(b) == Survivors(b);
    } else {
      SurvivorsConcat(a[1..], b);
      SurvivorsHead(a);
      SurvivorsHead(a + b);
      assert (a + b)[1..] == a[1..] + b && (a + b)[0] == a[0];
    }
  }

  lemma {:induction false} TopWithin(frames: seq<string>, deeper: seq<string>)
    requires |Survivors(frames)| >= SIGNATURE_FRAME_DEPTH
    ensures Top(frames + deeper) == Top(frames)
  {
    hide Survivors;
    SurvivorsConcat(frames, deeper);
    PrefixOfSum(Survivors(frames), Survivors(deeper), SIGNATURE_FRAME_DEPTH);
  }

  lemma {:induction false} PrefixOfSum(a: seq<string>, b: seq<string>, n: nat)
    requires n <= |a|
    ensures (a + b)[..n] == a[..n]
    ensures |a| == n ==> a[..n] == a
    ensures |a + b| == n ==> a + b == a
  {
  }

  /** Frames beyond the first eight surviving names have no say. */
  lemma {:induction false} DeepFramesIgnored(frames: seq<string>, deeper: seq<string>, hash: string -> string)
    requires |Survivors(frames)| >= 8
    ensures CrashSignature(frames + deeper, hash) == CrashSignature(frames, hash)
  {
    hide Join, Top;
    TopWithin(frames, deeper);
  }

  /** Frames without a symbol have no say, wherever they stand. */
  lemma {:induction false} NamelessFramesIgnored(a: seq<string>, frame: string, b: seq<string>, hash: string -> string)
    requires NormalizeFrame(frame).None?
    ensures CrashSignature(a + [frame] + b, hash) == CrashSignature(a + b, hash)
  {
    assert Survivors([frame]) == [] by { assert [frame][1..] == []; }
    hide Survivors, Join, NormalizeFrame;
    SurvivorsConcat(a + [frame], b);
    SurvivorsConcat(a, [frame]);
    SurvivorsConcat(a, b);
    assert Survivors(a) + [] == Survivors(a);
  }

  /** What tools print in front of a frame: nothing, `12:` or `#3`, and blanks. */
  ghost predicate IsOrdinal(o: string) {
    || o == ""
    || exists digits, gap ::
         && digits != "" && All(digits, Digit) && All(gap, Blank)
         && (o == digits + ":" + gap || (gap != "" && o == "#" + digits + gap))
  }

  /** The suffix goes with the symbol: names of digits only, and lines behind one letter, would be misread. */
  ghost predicate Suits(sym: string, suffix: string) {
    || suffix == ""
    || (IsNoise(suffix) && NameChars(suffix) && !AllDigits(sym) && (|sym| > 1 || suffix[0] == '+' || "::" <= suffix))
  }

  /**
   One frame as some machine may print it: an ordinal or none, the symbol with any generic arguments in it
   and a build hash, closure, offset or line behind it, and a source location or none.
   */
  ghost predicate Prints(frame: string, sym: string) {
    && IsSymbol(sym)
    && exists o, w, suffix, tail ::
         && frame == o + (w + tail) && IsOrdinal(o) && Suits(sym, suffix) && Decorated(w, sym + suffix)
         && !Occurs(" at ", w) && !Occurs(" @ ", w) && IsTail(tail)
  }

  lemma {:induction false} PrintsNormalizes(frame: string, sym: string)
    requires Prints(frame, sym)
    ensures NormalizeFrame(frame) == Some(sym)
  {
    hide NormalizeFrame, IsOrdinal, Suits, Decorated, Occurs, IsTail;
    var o, w, suffix, tail :|
      && frame == o + (w + tail) && IsOrdinal(o) && Suits(sym, suffix) && Decorated(w, sym + suffix)
      && !Occurs(" at ", w) && !Occurs(" @ ", w) && IsTail(tail);
    hide *;
    SymbolIff(sym);
    SymbolIs(sym);
    var v := sym + suffix;
    SuffixIsName(sym, suffix);
    SuitsFinishes(sym, suffix);
    DecorationIgnored(w, v, tail);
    TailKeepsOrdinal(w, v, tail);
    DecoratedEnds(w, v);
    OrdinalIgnored(o, w + tail);
  }

  lemma {:induction false} SymbolIs(sym: string)
    requires IsSymbol(sym)
    ensures NormalizeFrame(sym) == Some(sym)
  {
  }

  lemma {:induction false} SuitsFinishes(sym: string, suffix: string)
    requires IsName(sym) && Finish(sym) == Some(sym) && Suits(sym, suffix)
    ensures Finish(sym + suffix) == Some(sym)
  {
    hide IsName, Finish;
    SuffixFinishes(sym, suffix);
  }

  /** With a suffix the symbol is still a word of the right kind. */
  lemma {:induction false} SuffixIsName(sym: string, suffix: string)
    requires IsName(sym) && StripFrameOrdinal(sym).None? && Suits(sym, suffix)
    ensures var v := sym + suffix;
            v != "" && NameChars(v) && StripFrameOrdinal(v).None? && !LooksLikePath(v) && !LooksLikeAddress(v)
  {
    if suffix == "" {
      assert sym + suffix == sym;
    } else {
      NoiseStarts(suffix);
      hide IsNoise, StripFrameOrdinal, LooksLikeAddress, Occurs, AllDigits, NoLineColon;
      var v := sym + suffix;
      forall i | 0 <= i < |v| ensures IsNameChar(v[i]) {
        if i < |sym| { assert IsNameChar(sym[i]); } else { assert IsNameChar(suffix[i - |sym|]); }
      }
      NoPathNorAddress(sym, suffix);
      NameIsWord(sym);
      NoOrdinalWithNoise(sym, suffix);
    }
  }

  lemma {:induction false} NoiseStarts(suffix: string)
    requires IsNoise(suffix) && suffix != ""
    ensures suffix[0] == ':' || suffix[0] == '+'
    ensures suffix[0] == ':' ==> |suffix| > 1 && (suffix[1] == ':' || IsDigit(suffix[1]))
  {
    assert 11 <= |suffix| && suffix[..3] == "::h" ==> suffix[..3][0] == ':' && suffix[..3][1] == ':';
    assert CLOSURE <= suffix ==> suffix[..|CLOSURE|][0] == ':' && suffix[..|CLOSURE|][1] == ':';
  }

  lemma {:induction false} NoPathNorAddress(sym: string, suffix: string)
    requires sym != "" && NameChars(sym) && NameChars(sym + suffix) && NoPlus(sym) && !LooksLikePath(sym)
    requires suffix != "" && (suffix[0] == '+' || (suffix[0] == ':' && |suffix| > 1))
    requires |sym| > 1 || suffix[0] == '+' || suffix[1] == ':'
    ensures !LooksLikePath(sym + suffix) && !LooksLikeAddress(sym + suffix)
  {
    var v := sym + suffix;
    assert forall i :: 0 <= i < |v| ==> IsNameChar(v[i]);
    assert v[0] == sym[0] && v[|sym|] == suffix[0] && (|suffix| > 1 ==> v[|sym| + 1] == suffix[1]);
    LeadIs(v, Plus, 0, 0);
    assert DropWhile(v, Plus) == v;
    if |sym| >= 2 {
      assert v[1] == sym[1] && v[2..][|sym| - 2] == suffix[0];
      assert |sym| > 2 ==> v[2] == sym[2];
    }
  }

  lemma {:induction false} NoOrdinalWithNoise(sym: string, suffix: string)
    requires IsWord(sym) && StripFrameOrdinal(sym).None? && suffix != "" && !AllDigits(sym)
    requires suffix[0] == ':' || suffix[0] == '+'
    ensures StripFrameOrdinal(sym + suffix).None?
  {
    var s := sym + suffix;
    var m, n := IndexFrom(sym, ':', 0), IndexFrom(s, ':', 0);
    assert s[|sym|] == suffix[0];
    if m < |sym| {
      assert s[m] == ':';
      assert n == m && s[..n] == sym[..m];
    } else if n < |s| && AllDigits(s[..n]) {
      DigitsInside(s[..n], sym);
    }
    if s[0] == '#' {
      HashStays(sym, suffix);
    }
  }

  lemma {:induction false} DigitsInside(a: string, sym: string)
    requires AllDigits(a) && sym <= a
    ensures AllDigits(sym)
  {
    forall i | 0 <= i < |sym| ensures Digit.Has(sym[i]) {
      assert Digit.Has(a[i]);
    }
  }

  lemma {:induction false} HashStays(sym: string, suffix: string)
    requires IsWord(sym) && sym[0] == '#' && StripFrameOrdinal(sym).None? && suffix != ""
    requires suffix[0] == ':' || suffix[0] == '+'
    ensures LeadFrom(TrimStart((sym + suffix)[1..]), Digit, 0) == 0
  {
    var tail := (sym + suffix)[1..];
    assert tail[0] == if |sym| > 1 then sym[1] else suffix[0];
    if |sym| > 1 {
      var own := sym[1..];
      assert own[0] == sym[1] && !Blank.Has(sym[1]);
      LeadIs(own, Blank, 0, 0);
      assert TrimStart(own) == own;
    }
    LeadIs(tail, Blank, 0, 0);
    assert TrimStart(tail) == tail;
  }

  /** An ordinal in front changes nothing. */
  lemma {:induction false} OrdinalIgnored(o: string, body: string)
    requires IsOrdinal(o) && body != "" && !IsWhitespace(body[0]) && StripFrameOrdinal(Trim(body)).None?
    ensures NormalizeFrame(o + body) == NormalizeFrame(body)
  {
    hide StripFrameOrdinal, Trim, NormalizeFrame, IsWhitespace;
    if o == "" {
      assert o + body == body;
    } else {
      var digits, gap :| digits != "" && All(digits, Digit) && All(gap, Blank)
        && (o == digits + ":" + gap || (gap != "" && o == "#" + digits + gap));
      OrdinalInk(o, digits, gap);
      var kept := TrimmedBody(o, body);
      assert OrdinalThen(o + kept, "", digits, gap, kept) by {
        assert "#" + "" + digits == "#" + digits;
      }
      OrdinalTaken(o + kept, "", digits, gap, kept);
      SameBody(o + body, body);
    }
  }

  /** `s` is digits and a colon, or a hash and digits, then blanks and `rest`. */
  ghost predicate OrdinalThen(s: string, lead: string, digits: string, gap: string, rest: string) {
    && digits != "" && All(digits, Digit) && All(lead, Blank) && All(gap, Blank)
    && (rest == "" || !IsWhitespace(rest[0]))
    && (s == digits + ":" + gap + rest
        || (s == "#" + lead + digits + gap + rest && (gap == "" && rest != "" ==> !('0' <= rest[0] <= '9'))))
  }

  /** Exactly these ordinals are taken off; anything else stays in front of the frame. */
  lemma {:induction false} OrdinalIff(s: string, rest: string)
    ensures StripFrameOrdinal(s) == Some(rest) <==> exists lead, digits, gap :: OrdinalThen(s, lead, digits, gap, rest)
  {
    hide StripFrameOrdinal, OrdinalThen;
    if StripFrameOrdinal(s) == Some(rest) {
      var lead, digits, gap := OrdinalWas(s, rest);
    }
    if lead, digits, gap :| OrdinalThen(s, lead, digits, gap, rest) {
      OrdinalTaken(s, lead, digits, gap, rest);
    }
  }

  lemma {:induction false} OrdinalWas(s: string, rest: string) returns (lead: string, digits: string, gap: string)
    requires StripFrameOrdinal(s) == Some(rest)
    ensures OrdinalThen(s, lead, digits, gap, rest)
  {
    hide IsWhitespace, OrdinalThen, TrimStart;
    var n := IndexFrom(s, ':', 0);
    if 0 < n < |s| && AllDigits(s[..n]) {
      lead, digits := "", s[..n];
      gap := BlanksOff(s[n + 1..]);
      ColonThen(s, n, gap, rest);
    } else {
      lead := BlanksOff(s[1..]);
      var t := TrimStart(s[1..]);
      var k := LeadFrom(t, Digit, 0);
      digits := t[..k];
      gap := BlanksOff(t[k..]);
      HashThen(s, lead, t, k, gap, rest);
    }
  }

  lemma {:induction false} ColonThen(s: string, n: nat, gap: string, rest: string)
    requires 0 < n < |s| && s[n] == ':' && All(s[..n], Digit)
    requires s[n + 1..] == gap + rest && All(gap, Blank) && (rest == "" || !IsWhitespace(rest[0]))
    ensures OrdinalThen(s, "", s[..n], gap, rest)
  {
    hide IsWhitespace;
    assert s == s[..n] + ":" + s[n + 1..];
    assert s[..n] + ":" + (gap + rest) == s[..n] + ":" + gap + rest;
  }

  lemma {:induction false} HashThen(s: string, lead: string, t: string, k: nat, gap: string, rest: string)
    requires s != "" && s[0] == '#' && s[1..] == lead + t && All(lead, Blank)
    requires 0 < k <= |t| && All(t[..k], Digit) && (k < |t| ==> !Digit.Has(t[k]))
    requires t[k..] == gap + rest && All(gap, Blank) && (rest == "" || !IsWhitespace(rest[0]))
    ensures OrdinalThen(s, lead, t[..k], gap, rest)
  {
    hide IsWhitespace;
    assert s == "#" + s[1..] && t == t[..k] + t[k..];
    assert "#" + (lead + (t[..k] + (gap + rest))) == "#" + lead + t[..k] + gap + rest;
    if gap == "" && rest != "" {
      assert t[k..][0] == rest[0] && k < |t| && t[k] == rest[0];
    }
  }

  /** The blanks in front that `trim_start` takes off. */
  lemma {:induction false} BlanksOff(s: string) returns (gap: string)
    ensures s == gap + TrimStart(s) && All(gap, Blank)
    ensures TrimStart(s) == "" || !IsWhitespace(TrimStart(s)[0])
  {
    var k := LeadFrom(s, Blank, 0);
    gap := s[..k];
    assert TrimStart(s) == s[k..];
    assert k < |s| ==> !Blank.Has(s[k]);
  }

  lemma {:induction false} OrdinalTaken(s: string, lead: string, digits: string, gap: string, rest: string)
    requires OrdinalThen(s, lead, digits, gap, rest)
    ensures StripFrameOrdinal(s) == Some(rest)
  {
    hide StripFrameOrdinal, IsWhitespace, All;
    if s == digits + ":" + gap + rest {
      ColonTaken(s, digits, gap, rest);
    } else {
      HashTaken(s, lead, digits, gap, rest);
    }
  }

  lemma {:induction false} ColonTaken(s: string, digits: string, gap: string, rest: string)
    requires digits != "" && All(digits, Digit) && All(gap, Blank) && (rest == "" || !IsWhitespace(rest[0]))
    requires s == digits + ":" + gap + rest
    ensures StripFrameOrdinal(s) == Some(rest)
  {
    hide IsWhitespace, TrimStart;
    BlanksGo(gap, rest);
    forall i | 0 <= i < |digits| ensures s[i] != ':' {
      assert Digit.Has(digits[i]);
    }
    assert s[|digits|] == ':' && s[..|digits|] == digits;
    assert IndexFrom(s, ':', 0) == |digits|;
    assert s[|digits| + 1..] == gap + rest;
  }

  lemma {:induction false} HashTaken(s: string, lead: string, digits: string, gap: string, rest: string)
    requires digits != "" && All(digits, Digit) && All(lead, Blank) && All(gap, Blank)
    requires rest == "" || !IsWhitespace(rest[0])
    requires s == "#" + lead + digits + gap + rest && (gap == "" && rest != "" ==> !('0' <= rest[0] <= '9'))
    ensures StripFrameOrdinal(s) == Some(rest)
  {
    hide IsWhitespace, TrimStart, All, LeadFrom;
    BlanksGo(gap, rest);
    HashFirst(s);
    var t := digits + (gap + rest);
    assert s[1..] == lead + t;
    DigitsFirst(digits, t);
    BlanksGo(lead, t);
    DigitsEnd(digits, gap, rest);
    assert t[|digits|..] == gap + rest;
  }

  lemma {:induction false} HashFirst(s: string)
    requires s != "" && s[0] == '#'
    ensures var n := IndexFrom(s, ':', 0); 0 < n < |s| ==> !AllDigits(s[..n])
  {
    var n := IndexFrom(s, ':', 0);
    assert n > 0 ==> !Digit.Has(s[..n][0]);
  }

  lemma {:induction false} DigitsFirst(digits: string, t: string)
    requires digits != "" && All(digits, Digit) && digits <= t
    ensures t != "" && !IsWhitespace(t[0])
  {
    assert Digit.Has(digits[0]) && t[0] == digits[0];
    DigitsAreInk(digits[0]);
  }

  lemma {:induction false} DigitsEnd(digits: string, gap: string, rest: string)
    requires All(digits, Digit) && All(gap, Blank) && (gap == "" && rest != "" ==> !('0' <= rest[0] <= '9'))
    ensures LeadFrom(digits + (gap + rest), Digit, 0) == |digits|
  {
    var t := digits + (gap + rest);
    if gap != "" {
      BlankNoDigit(gap[0]);
      assert t[|digits|] == gap[0];
    } else if rest != "" {
      assert t[|digits|] == rest[0];
    }
    LeadIs(t, Digit, 0, |digits|);
  }

  lemma {:induction false} BlanksGo(gap: string, rest: string)
    requires All(gap, Blank) && (rest == "" || !IsWhitespace(rest[0]))
    ensures TrimStart(gap + rest) == rest
  {
    var s := gap + rest;
    assert rest != "" ==> s[|gap|] == rest[0];
    LeadIs(s, Blank, 0, |gap|);
    assert s[|gap|..] == rest;
  }

  lemma {:induction false} OrdinalInk(o: string, digits: string, gap: string)
    requires digits != "" && All(digits, Digit) && (o == digits + ":" + gap || o == "#" + digits + gap)
    ensures o != "" && !IsWhitespace(o[0])
  {
    assert Digit.Has(digits[0]);
  }

  lemma {:induction false} SameBody(a: string, b: string)
    requires DropOrdinal(Trim(a)) == DropOrdinal(Trim(b))
    ensures NormalizeFrame(a) == NormalizeFrame(b)
  {
    hide DropOrdinal, Trim, UpTo, StripAngleGroups, SplitWhitespace, Finish;
  }

  lemma {:induction false} TrimmedBody(o: string, body: string) returns (kept: string)
    requires o != "" && !IsWhitespace(o[0]) && body != "" && !IsWhitespace(body[0])
    ensures kept == Trim(body) && Trim(o + body) == o + kept && kept != "" && kept[0] == body[0]
  {
    var s := o + body;
    var b := TrailFrom(body, Blank, |body|);
    LeadIs(body, Blank, 0, 0);
    assert s[|o|] == body[0];
    LeadIs(s, Blank, 0, 0);
    assert !Blank.Has(body[0]);
    assert b > 0;
    forall j: nat | |o| + b <= j < |s| ensures Blank.Has(s[j]) {
      assert s[j] == body[j - |o|];
    }
    assert s[|o| + b - 1] == body[b - 1];
    TrailIs(s, Blank, |o| + b);
    kept := body[..b];
    assert s[..|o| + b] == o + kept;
  }

  lemma {:induction false} DigitsAreInk(c: char)
    ensures Digit.Has(c) ==> !Blank.Has(c)
  {
  }

  lemma {:induction false} BlankNoDigit(c: char)
    ensures Blank.Has(c) ==> !Digit.Has(c)
  {
  }

  lemma {:induction false} PrintsSurvive(frames: seq<string>, syms: seq<string>)
    requires |frames| == |syms| && forall i :: 0 <= i < |frames| ==> Prints(frames[i], syms[i])
    ensures Survivors(frames) == syms
  {
    hide NormalizeFrame, Prints;
    if frames != [] {
      PrintsNormalizes(frames[0], syms[0]);
      PrintsSurvive(frames[1..], syms[1..]);
      assert [syms[0]] + syms[1..] == syms;
    }
  }

  /** Two machines that crash on the same code path have the same signature, whatever their paths, lines and builds. */
  lemma {:induction false} SamePathSameSignature(a: seq<string>, b: seq<string>, syms: seq<string>, hash: string -> string)
    requires |a| == |b| == |syms|
    requires forall i :: 0 <= i < |a| ==> Prints(a[i], syms[i]) && Prints(b[i], syms[i])
    ensures CrashSignature(a, hash) == CrashSignature(b, hash)
  {
    hide Prints, Survivors, Join;
    PrintsSurvive(a, syms);
    PrintsSurvive(b, syms);
  }

  // ----- different paths, different signatures

  ghost predicate AllNames(names: seq<string>) {
    forall i :: 0 <= i < |names| ==> OneLine(names[i]) && names[i] != ""
  }

  lemma {:induction false} SurvivorsAreNames(frames: seq<string>)
    ensures AllNames(Survivors(frames))
  {
    hide NormalizeFrame, OneLine;
    if frames != [] {
      SurvivorsAreNames(frames[1..]);
      if NormalizeFrame(frames[0]).Some? {
        NormalizedIsName(frames[0]);
        NameOneLine(NormalizeFrame(frames[0]).value);
      }
    }
  }

  lemma {:induction false} NameOneLine(s: string)
    requires IsName(s)
    ensures OneLine(s) && s != ""
  {
    hide LooksLikePath, LooksLikeAddress, Occurs;
    forall i | 0 <= i < |s| ensures s[i] != '\n' {
      assert IsNameChar(s[i]);
    }
  }

  /** Joining with newlines loses nothing. */
  lemma {:induction false} JoinInjective(a: seq<string>, b: seq<string>)
    requires AllNames(a) && AllNames(b) && a != [] && b != []
    requires Join(a, "\n") == Join(b, "\n")
    ensures a == b
    decreases |a|
  {
    var x, y := Join(a[1..], "\n"), Join(b[1..], "\n");
    JoinSplit(a);
    JoinSplit(b);
    hide Join;
    var j := Join(a, "\n");
    SameHead(a[0], b[0], j, if |a| == 1 then "" else "\n" + x, if |b| == 1 then "" else "\n" + y);
    if |a| > 1 {
      assert ("\n" + x)[1..] == x && ("\n" + y)[1..] == y;
      JoinInjective(a[1..], b[1..]);
    }
    assert a == [a[0]] + a[1..] && b == [b[0]] + b[1..];
  }

  lemma {:induction false} JoinSplit(a: seq<string>)
    requires a != []
    ensures Join(a, "\n") == a[0] + if |a| == 1 then "" else "\n" + Join(a[1..], "\n")
  {
  }

  lemma {:induction false} HeadLength(p: string, x: string)
    requires OneLine(p) && (x == "" || x[0] == '\n')
    ensures IndexFrom(p + x, '\n', 0) == |p|
  {
    var n := IndexFrom(p + x, '\n', 0);
    assert x != "" ==> (p + x)[|p|] == '\n';
    assert forall i :: 0 <= i < |p| ==> (p + x)[i] == p[i];
  }

  lemma {:induction false} SameHead(p: string, q: string, j: string, x: string, y: string)
    requires OneLine(p) && OneLine(q) && j == p + x == q + y
    requires (x == "" || x[0] == '\n') && (y == "" || y[0] == '\n')
    ensures p == q && x == y
  {
    HeadLength(p, x);
    HeadLength(q, y);
    assert j[..|p|] == p && j[..|q|] == q && j[|p|..] == x && j[|q|..] == y;
  }

  ghost predicate Injective(hash: string -> string) {
    forall x, y :: hash(x) == hash(y) ==> x == y
  }

  function FirstEight(names: seq<string>): seq<string> {
    names[..if |names| < 8 then |names| else 8]
  }

  lemma {:induction false} TopIs(frames: seq<string>)
    ensures Top(frames) == FirstEight(Survivors(frames))
  {
    hide Survivors;
    var names := Survivors(frames);
    assert names[..|names|] == names;
  }

  /** With a collision-free hash, signatures agree exactly when the first eight surviving names do. */
  lemma {:induction false} SignatureIffTop(a: seq<string>, b: seq<string>, hash: string -> string)
    requires Injective(hash)
    ensures CrashSignature(a, hash) == CrashSignature(b, hash) <==> FirstEight(Survivors(a)) == FirstEight(Survivors(b))
  {
    TopIs(a);
    TopIs(b);
    SurvivorsAreNames(a);
    SurvivorsAreNames(b);
    hide Survivors, OneLine, Join, FirstEight;
    if Top(a) != [] && Top(b) != [] && CrashSignature(a, hash) == CrashSignature(b, hash) {
      JoinInjective(Top(a), Top(b));
    }
  }
}
