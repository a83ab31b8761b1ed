/**
 Quasi-identifiers (`quasi.rs`): only an allowlist of metadata keys reaches the
 wire, in a fixed order and with coarsened values.
 */
module Quasi {
  import opened Text

  /** Where the coarsening functions cut. */
  datatype Stop =
    | Sign      // '-' and '+'
    | Dot       // '.'
    | TagEnd    // '-', '_' and '.'
  {
    predicate Has(c: char) {
      match this
      case Sign => c == '-' || c == '+'
      case Dot => c == '.'
      case TagEnd => c == '-' || c == '_' || c == '.'
    }
  }

  function StopFrom(s: string, k: Stop, i: nat): (n: nat)
    requires i <= |s|
    ensures i <= n <= |s|
    ensures forall j :: i <= j < n ==> !k.Has(s[j])
    ensures n < |s| ==> k.Has(s[n])
    decreases |s| - i
  {
    if i == |s| || k.Has(s[i]) then i else StopFrom(s, k, i + 1)
  }

  /** The first part of `s.split(k)`. */
  function FirstPart(s: string, k: Stop): string {
    s[..StopFrom(s, k, 0)]
  }

  /** The second part of `s.split(k)`, if there is one. */
  function SecondPart(s: string, k: Stop): Option<string> {
    var n := StopFrom(s, k, 0);
    if n == |s| then None else Some(FirstPart(s[n + 1..], k))
  }

  predicate AllLetters(s: string) {
    forall i :: 0 <= i < |s| ==> IsAlpha(s[i])
  }

  /** A decimal number as text. */
  predicate IsNumber(s: string) {
    s != "" && AllDigits(s)
  }

  // ----- the three coarsenings

  function CoarsenVersion(raw: string): Option<string> {
    var core := FirstPart(DropWhile(Trim(raw), Vee), Sign);
    var major := Trim(FirstPart(core, Dot));
    var minor := match SecondPart(core, Dot) case None => "0" case Some(p) => Trim(p);
    if !IsNumber(major) then None
    else Some(major + "." + if IsNumber(minor) then minor else "0")
  }

  function CoarsenOsVersionToken(tok: string): Option<string> {
    var major := Trim(FirstPart(tok, Dot));
    if !IsNumber(major) then None
    else
      match SecondPart(tok, Dot)
      case Some(minor) => Some(if IsNumber(minor) then major + "." + minor else major)
      case None => Some(major)
  }

  /** `chars().next().unwrap_or(' ')`. */
  function FirstChar(tok: string): char {
    if tok == "" then ' ' else tok[0]
  }

  /** The platform words, and at most one version token behind them. */
  function OsWords(toks: seq<string>): seq<string> {
    if toks == [] then []
    else if IsAlpha(FirstChar(toks[0])) then [toks[0]] + OsWords(toks[1..])
    else if IsDigit(FirstChar(toks[0])) then
      match CoarsenOsVersionToken(toks[0])
      case Some(v) => [v]
      case None => []
    else []
  }

  function CoarsenOs(raw: string): Option<string> {
    var words := OsWords(SplitWhitespace(Trim(raw)));
    if words == [] then None else Some(Join(words, " "))
  }

  function CoarsenLocale(raw: string): Option<string> {
    var lang := Trim(FirstPart(Trim(raw), TagEnd));
    if lang == "" || !AllLetters(lang) then None else Some(Lower(lang))
  }

  /** The token loop. */
  method CoarsenOsRun(raw: string) returns (r: Option<string>)
    ensures r == CoarsenOs(raw)
  {
    hide CoarsenOsVersionToken, SplitWhitespace, Trim;
    var toks := SplitWhitespace(Trim(raw));
    var words: seq<string> := [];
    var tookVersion := false;
    var i := 0;
    assert toks[0..] == toks && [] + OsWords(toks) == OsWords(toks);
    while i < |toks|
      invariant 0 <= i <= |toks|
      invariant tookVersion ==> words == OsWords(toks)
      invariant !tookVersion ==> words + OsWords(toks[i..]) == OsWords(toks)
    {
      OsWordsNext(toks, i, words);
      var first := FirstChar(toks[i]);
      if IsAlpha(first) && !tookVersion {
        words := words + [toks[i]];
      } else if IsDigit(first) && !tookVersion {
        var v := CoarsenOsVersionToken(toks[i]);
        if v.Some? {
          words := words + [v.value];
        }
        tookVersion := true;
      } else {
        return if words == [] then None else Some(Join(words, " "));
      }
      i := i + 1;
    }
    assert words + [] == words;
    r := if words == [] then None else Some(Join(words, " "));
  }

  /** What one token adds to the words. */
  lemma {:induction false} OsWordsNext(toks: seq<string>, i: nat, words: seq<string>)
    requires i < |toks|
    ensures var first, v := FirstChar(toks[i]), CoarsenOsVersionToken(toks[i]);
            words + OsWords(toks[i..])
            == if IsAlpha(first) then (words + [toks[i]]) + OsWords(toks[i + 1..])
               else if IsDigit(first) && v.Some? then words + [v.value]
               else words
  {
    hide CoarsenOsVersionToken;
    assert toks[i..][1..] == toks[i + 1..];
    assert words + [] == words;
    assert words + ([toks[i]] + OsWords(toks[i + 1..])) == (words + [toks[i]]) + OsWords(toks[i + 1..]);
  }

  // ----- each coarsening is idempotent

  lemma {:induction false} NumberEdges(s: string)
    requires IsNumber(s)
    ensures Trim(s) == s && IsDigit(s[0]) && IsDigit(s[|s| - 1])
    ensures forall k: Stop :: StopFrom(s, k, 0) == |s|
  {
    assert Digit.Has(s[0]) && Digit.Has(s[|s| - 1]);
    TrimFixed(s, Blank);
    forall k: Stop ensures StopFrom(s, k, 0) == |s| {
      var n := StopFrom(s, k, 0);
      assert n < |s| ==> Digit.Has(s[n]);
    }
  }

  /** The first stop is known when nothing before it stops. */
  lemma {:induction false} StopIs(s: string, k: Stop, n: nat)
    requires n <= |s|
    requires forall j :: 0 <= j < n ==> !k.Has(s[j])
    requires n < |s| ==> k.Has(s[n])
    ensures StopFrom(s, k, 0) == n
  {
  }

  /** `MAJOR.MINOR` splits at its dot and nowhere else. */
  lemma {:induction false} DottedParts(major: string, minor: string)
    requires IsNumber(major) && IsNumber(minor)
    ensures var v := major + "." + minor;
            && Trim(v) == v && DropWhile(v, Vee) == v
            && FirstPart(v, Sign) == v
            && FirstPart(v, Dot) == major && SecondPart(v, Dot) == Some(minor)
  {
    var v := major + "." + minor;
    NumberEdges(major);
    NumberEdges(minor);
    assert v[0] == major[0] && v[|v| - 1] == minor[|minor| - 1];
    TrimFixed(v, Blank);
    LeadIs(v, Vee, 0, 0);
    forall j | 0 <= j < |v| ensures !Sign.Has(v[j]) && (j < |major| ==> !Dot.Has(v[j])) {
      assert j < |major| ==> Digit.Has(major[j]);
      assert j > |major| ==> Digit.Has(minor[j - |major| - 1]);
    }
    StopIs(v, Sign, |v|);
    StopIs(v, Dot, |major|);
    assert v[|major| + 1..] == minor && v[..|major|] == major && v[..|v|] == v;
    assert FirstPart(minor, Dot) == minor[..|minor|] == minor;
  }

  lemma {:induction false} VersionIdempotent(raw: string)
    requires CoarsenVersion(raw).Some?
    ensures CoarsenVersion(CoarsenVersion(raw).value) == CoarsenVersion(raw)
  {
    hide Trim, DropWhile, FirstPart, SecondPart, AllDigits;
    var core := FirstPart(DropWhile(Trim(raw), Vee), Sign);
    var major := Trim(FirstPart(core, Dot));
    var minor := match SecondPart(core, Dot) case None => "0" case Some(p) => Trim(p);
    ZeroIsNumber();
    var kept := if IsNumber(minor) then minor else "0";
    DottedParts(major, kept);
    NumberTrimmed(major);
    NumberTrimmed(kept);
  }

  lemma {:induction false} NumberTrimmed(s: string)
    requires IsNumber(s)
    ensures Trim(s) == s
  {
    NumberEdges(s);
  }

  lemma {:induction false} ZeroIsNumber()
    ensures IsNumber("0")
  {
    LeadIs("0", Digit, 0, 1);
  }

  /** A coarsened version token starts with a digit, holds no whitespace, and coarsens to itself. */
  lemma {:induction false} OsTokenFixed(tok: string)
    requires CoarsenOsVersionToken(tok).Some?
    ensures var v := CoarsenOsVersionToken(tok).value;
            && IsWord(v) && IsDigit(v[0]) && CoarsenOsVersionToken(v) == Some(v)
  {
    var major := Trim(FirstPart(tok, Dot));
    var second := SecondPart(tok, Dot);
    hide Trim, FirstPart, SecondPart, AllDigits;
    NumberTrimmed(major);
    WholeNumber(major);
    if second.Some? && IsNumber(second.value) {
      DottedParts(major, second.value);
      DottedWord(major, second.value);
    } else {
      DottedWord(major, "");
      assert major + "" == major;
    }
  }

  lemma {:induction false} WholeNumber(s: string)
    requires IsNumber(s)
    ensures FirstPart(s, Dot) == s && SecondPart(s, Dot) == None
  {
    NumberEdges(s);
    assert s[..|s|] == s;
  }

  lemma {:induction false} DottedWord(major: string, minor: string)
    requires IsNumber(major) && All(minor, Digit)
    ensures IsWord(major) && IsWord(major + "." + minor) && IsDigit(major[0])
    ensures (major + "." + minor)[0] == major[0]
  {
    var v := major + "." + minor;
    forall j | 0 <= j < |v| ensures !IsWhitespace(v[j]) && (j < |major| ==> IsDigit(major[j])) {
      assert j < |major| ==> Digit.Has(major[j]);
      assert j > |major| ==> Digit.Has(minor[j - |major| - 1]);
    }
  }

  lemma {:induction false} OsWordsFixed(toks: seq<string>)
    requires forall i :: 0 <= i < |toks| ==> IsWord(toks[i])
    ensures forall i :: 0 <= i < |OsWords(toks)| ==> IsWord(OsWords(toks)[i])
    ensures OsWords(OsWords(toks)) == OsWords(toks)
  {
    hide CoarsenOsVersionToken;
    if toks != [] {
      if IsAlpha(FirstChar(toks[0])) {
        OsWordsFixed(toks[1..]);
        var rest := OsWords(toks[1..]);
        assert ([toks[0]] + rest)[1..] == rest;
      } else if IsDigit(FirstChar(toks[0])) && CoarsenOsVersionToken(toks[0]).Some? {
        OsTokenFixed(toks[0]);
      }
    }
  }

  /** Words joined by single blanks have no blank at either end. */
  lemma {:induction false} JoinTrimmed(ws: seq<string>)
    requires ws != [] && forall i :: 0 <= i < |ws| ==> IsWord(ws[i])
    ensures var s := Join(ws, " ");
            s != "" && !IsWhitespace(s[0]) && !IsWhitespace(s[|s| - 1])
  {
    assert !Blank.Has(ws[0][0]) && !Blank.Has(ws[0][|ws[0]| - 1]);
    if |ws| > 1 {
      JoinTrimmed(ws[1..]);
    }
  }

  lemma {:induction false} OsIdempotent(raw: string)
    requires CoarsenOs(raw).Some?
    ensures CoarsenOs(CoarsenOs(raw).value) == CoarsenOs(raw)
  {
    hide OsWords, Join;
    var toks := SplitWhitespace(Trim(raw));
    var words := OsWords(toks);
    OsWordsFixed(toks);
    JoinTrimmed(words);
    TrimFixed(Join(words, " "), Blank);
    SplitJoin("", words);
    assert "" + Join(words, " ") == Join(words, " ");
  }

  lemma {:induction false} LocaleIdempotent(raw: string)
    requires CoarsenLocale(raw).Some?
    ensures CoarsenLocale(CoarsenLocale(raw).value) == CoarsenLocale(raw)
  {
    hide Trim, FirstPart, Lower;
    var lang := Trim(FirstPart(Trim(raw), TagEnd));
    LowerLetters(lang);
    LocaleHidesRegion(Lower(lang), "");
    assert Lower(lang) + "" == Lower(lang);
  }

  lemma {:induction false} LowerLetters(s: string)
    requires AllLetters(s)
    ensures AllLetters(Lower(s)) && Lower(Lower(s)) == Lower(s)
  {
    forall i | 0 <= i < |s| ensures IsAlpha(Lower(s)[i]) && LowerChar(Lower(s)[i]) == Lower(s)[i] {
      assert IsAlpha(s[i]);
    }
  }

  // ----- what the coarsenings hide

  /** What may follow `MAJOR.MINOR`: a patch level, a pre-release or build metadata. */
  predicate IsDetail(suffix: string) {
    suffix == "" || suffix[0] == '.' || suffix[0] == '-' || suffix[0] == '+'
  }

  /** Trimming keeps the number and the start of the detail. */
  lemma {:induction false} DetailTrimmed(v: string, suffix: string) returns (kept: string)
    requires v != "" && !IsWhitespace(v[0]) && !IsWhitespace(v[|v| - 1]) && IsDetail(suffix)
    ensures Trim(v + suffix) == v + kept && IsDetail(kept)
    ensures |kept| <= |suffix| && (suffix != "" ==> kept != "" && kept[0] == suffix[0])
  {
    var s := v + suffix;
    var b := TrailFrom(s, Blank, |s|);
    LeadIs(s, Blank, 0, 0);
    if suffix != "" {
      assert s[|v|] == suffix[0];
      assert b > |v|;
    } else {
      assert s[|s| - 1] == v[|v| - 1];
    }
    kept := suffix[..b - |v|];
    assert s[..b] == v + kept;
  }

  /** Cutting at the first sign leaves the number, and behind it nothing or a dot. */
  lemma {:induction false} CoreOf(v: string, kept: string) returns (more: string)
    requires FirstPart(v, Sign) == v && IsDetail(kept)
    ensures FirstPart(v + kept, Sign) == v + more
    ensures more == "" || more[0] == '.'
  {
    var s := v + kept;
    var n := StopFrom(s, Sign, 0);
    assert StopFrom(v, Sign, 0) == |v|;
    assert forall j :: 0 <= j < |v| ==> s[j] == v[j];
    assert n >= |v|;
    more := kept[..n - |v|];
    assert s[..n] == v + more;
    assert more != "" ==> more[0] == s[|v|];
  }

  lemma {:induction false} PartsOf(major: string, minor: string, more: string)
    requires IsNumber(major) && IsNumber(minor) && (more == "" || more[0] == '.')
    ensures var core := major + "." + minor + more;
            FirstPart(core, Dot) == major && SecondPart(core, Dot) == Some(minor)
  {
    var core := major + "." + minor + more;
    var tail := minor + more;
    forall j | 0 <= j < |major| ensures !Dot.Has(core[j]) {
      assert Digit.Has(major[j]);
    }
    forall j | 0 <= j < |minor| ensures !Dot.Has(tail[j]) {
      assert Digit.Has(minor[j]);
    }
    StopIs(core, Dot, |major|);
    StopIs(tail, Dot, |minor|);
    assert core[|major| + 1..] == tail && core[..|major|] == major && tail[..|minor|] == minor;
  }

  /** A number in digits. */
  predicate IsDigits(s: string) {
    s != "" && forall i :: 0 <= i < |s| ==> '0' <= s[i] <= '9'
  }

  lemma {:induction false} DigitsAre(s: string)
    ensures IsDigits(s) <==> IsNumber(s)
  {
    if IsNumber(s) {
      assert forall i :: 0 <= i < |s| ==> Digit.Has(s[i]);
    }
  }

  /** What may stand before the number: blanks, then any `v`. */
  predicate IsVersionLead(blanks: string, vs: string) {
    && (forall i :: 0 <= i < |blanks| ==> IsWhitespace(blanks[i]))
    && (forall i :: 0 <= i < |vs| ==> vs[i] == 'v' || vs[i] == 'V')
  }

  /** Patch level, pre-release and build metadata, whatever they are, do not reach the coarse version, nor does a `v`. */
  lemma {:induction false} VersionHidesDetail(blanks: string, vs: string, major: string, minor: string, suffix: string)
    requires IsVersionLead(blanks, vs) && IsDigits(major) && IsDigits(minor) && IsDetail(suffix)
    ensures CoarsenVersion(blanks + vs + (major + "." + minor) + suffix) == Some(major + "." + minor)
  {
    hide Trim, FirstPart, SecondPart, AllDigits, DropWhile;
    var v := major + "." + minor;
    DigitsAre(major);
    DigitsAre(minor);
    NumberTrimmed(major);
    NumberTrimmed(minor);
    VersionEdges(major, minor);
    var kept := LeadDropped(blanks, vs, v, suffix);
    DottedParts(major, minor);
    var more := CoreOf(v, kept);
    PartsOf(major, minor, more);
  }

  /** Blanks in front and any `v` go before the number is looked at. */
  lemma {:induction false} LeadDropped(blanks: string, vs: string, v: string, suffix: string) returns (kept: string)
    requires IsVersionLead(blanks, vs) && v != "" && IsDigit(v[0]) && !IsWhitespace(v[|v| - 1]) && IsDetail(suffix)
    ensures DropWhile(Trim(blanks + vs + v + suffix), Vee) == v + kept && IsDetail(kept)
    ensures |kept| <= |suffix| && (suffix != "" ==> kept != "" && kept[0] == suffix[0])
  {
    hide IsWhitespace, Trim, DropWhile, IsDetail;
    var w := vs + v;
    InkLead(vs, v);
    kept := DetailTrimmed(w, suffix);
    assert blanks + vs + v + suffix == blanks + (w + suffix);
    BlanksTrimmed(blanks, w + suffix);
    VeesDropped(vs, v, kept);
  }

  lemma {:induction false} InkLead(vs: string, v: string)
    requires IsVersionLead("", vs) && v != "" && IsDigit(v[0])
    ensures vs + v != "" && !IsWhitespace((vs + v)[0])
    ensures (vs + v)[|vs + v| - 1] == v[|v| - 1]
    ensures forall suffix: string :: (vs + v + suffix)[0] == (vs + v)[0]
  {
    assert (vs + v)[0] == if vs == "" then v[0] else vs[0];
  }

  lemma {:induction false} VeesDropped(vs: string, v: string, kept: string)
    requires IsVersionLead("", vs) && v != "" && IsDigit(v[0])
    ensures DropWhile(vs + v + kept, Vee) == v + kept
  {
    var t := vs + v + kept;
    assert t[|vs|] == v[0];
    LeadIs(t, Vee, 0, |vs|);
    assert t[|vs|..] == v + kept;
  }

  lemma {:induction false} BlanksTrimmed(blanks: string, s: string)
    requires forall i :: 0 <= i < |blanks| ==> IsWhitespace(blanks[i])
    requires s != "" && !IsWhitespace(s[0])
    ensures Trim(blanks + s) == Trim(s)
  {
    var t, b := blanks + s, TrailFrom(s, Blank, |s|);
    hide IsWhitespace;
    assert !Blank.Has(s[0]);
    LeadIs(s, Blank, 0, 0);
    assert t[|blanks|] == s[0];
    LeadIs(t, Blank, 0, |blanks|);
    assert b > 0 && t[|blanks| + b - 1] == s[b - 1];
    forall j: nat | |blanks| + b <= j < |t| ensures Blank.Has(t[j]) {
      assert t[j] == s[j - |blanks|];
    }
    TrailIs(t, Blank, |blanks| + b);
    assert t[|blanks|..|blanks| + b] == s[0..b];
  }

  /** Every coarse version is two numbers with a dot between them. */
  lemma {:induction false} VersionShape(raw: string)
    requires CoarsenVersion(raw).Some?
    ensures exists major, minor :: IsDigits(major) && IsDigits(minor) && CoarsenVersion(raw).value == major + "." + minor
  {
    hide Trim, FirstPart, SecondPart, AllDigits, DropWhile;
    var core := FirstPart(DropWhile(Trim(raw), Vee), Sign);
    var major := Trim(FirstPart(core, Dot));
    var minor := match SecondPart(core, Dot) case None => "0" case Some(p) => Trim(p);
    var m := if IsNumber(minor) then minor else "0";
    ZeroIsNumber();
    DigitsAre(major);
    DigitsAre(m);
    assert CoarsenVersion(raw).value == major + "." + m;
  }

  /** Without a second number the minor version is 0. */
  lemma {:induction false} MinorMissing(blanks: string, vs: string, major: string, suffix: string)
    requires IsVersionLead(blanks, vs) && IsDigits(major)
    requires suffix == "" || suffix[0] == '-' || suffix[0] == '+'
    ensures CoarsenVersion(blanks + vs + major + suffix) == Some(major + ".0")
  {
    hide Trim, FirstPart, SecondPart, AllDigits, DropWhile;
    DigitsAre(major);
    NumberEdges(major);
    NumberTrimmed(major);
    WholeNumber(major);
    ZeroIsNumber();
    var kept := LeadDropped(blanks, vs, major, suffix);
    SignCuts(major, kept);
    assert major + ".0" == major + "." + "0";
  }

  lemma {:induction false} SignCuts(major: string, kept: string)
    requires IsNumber(major) && (kept == "" || kept[0] == '-' || kept[0] == '+')
    ensures FirstPart(major + kept, Sign) == major
  {
    var t := major + kept;
    forall j | 0 <= j < |major| ensures !Sign.Has(t[j]) {
      assert Digit.Has(major[j]);
    }
    StopIs(t, Sign, |major|);
    assert t[..|major|] == major;
  }

  /** What does not start with a number is no version. */
  lemma {:induction false} VersionRefused(raw: string)
    requires Trim(raw) != "" && var c := Trim(raw)[0]; !('0' <= c <= '9') && c != 'v' && c != 'V'
    ensures CoarsenVersion(raw) == None
  {
    var s := Trim(raw);
    TrimmedStart(raw);
    hide Trim;
    LeadIs(s, Vee, 0, 0);
    assert DropWhile(s, Vee) == s;
    var core := FirstPart(s, Sign);
    var part := FirstPart(core, Dot);
    if part != "" {
      assert part[0] == s[0];
      FirstNotNumber(part);
    } else {
      EmptyTrimmed();
    }
  }

  lemma {:induction false} TrimmedStart(raw: string)
    requires Trim(raw) != ""
    ensures !IsWhitespace(Trim(raw)[0])
  {
    var a, b := TrimSplit(raw, Blank);
    assert Trim(raw)[0] == raw[a];
  }

  lemma {:induction false} EmptyTrimmed()
    ensures Trim("") == ""
  {
  }

  lemma {:induction false} FirstNotNumber(part: string)
    requires part != "" && !IsWhitespace(part[0]) && !('0' <= part[0] <= '9')
    ensures !IsNumber(Trim(part))
  {
    LeadIs(part, Blank, 0, 0);
    var a, b := TrimSplit(part, Blank);
    assert Trim(part) != "" ==> Trim(part)[0] == part[0];
    if Trim(part) != "" {
      assert !Digit.Has(Trim(part)[0]);
    }
  }

  /** Every coarse OS string is words that start with a letter, then at most one number or two with a dot. */
  lemma {:induction false} OsShape(toks: seq<string>)
    requires forall i :: 0 <= i < |toks| ==> IsWord(toks[i])
    ensures var ws := OsWords(toks);
            && (forall i :: 0 <= i < |ws| - 1 ==> StartsWithLetter(ws[i]))
            && (ws != [] ==> StartsWithLetter(ws[|ws| - 1]) || IsOsVersion(ws[|ws| - 1]))
  {
    hide CoarsenOsVersionToken, IsOsVersion;
    if toks != [] {
      if IsAlpha(FirstChar(toks[0])) {
        OsShape(toks[1..]);
      } else if CoarsenOsVersionToken(toks[0]).Some? {
        OsVersionShape(toks[0]);
      }
    }
  }

  predicate StartsWithLetter(s: string) {
    s != "" && ('a' <= s[0] <= 'z' || 'A' <= s[0] <= 'Z')
  }

  ghost predicate IsOsVersion(s: string) {
    IsDigits(s) || exists major, minor :: IsDigits(major) && IsDigits(minor) && s == major + "." + minor
  }

  lemma {:induction false} OsVersionShape(tok: string)
    requires CoarsenOsVersionToken(tok).Some?
    ensures IsOsVersion(CoarsenOsVersionToken(tok).value)
  {
    hide Trim, FirstPart, SecondPart, AllDigits;
    var major := Trim(FirstPart(tok, Dot));
    DigitsAre(major);
    match SecondPart(tok, Dot)
    case Some(minor) => DigitsAre(minor);
    case None =>
  }

  lemma {:induction false} VersionEdges(major: string, minor: string)
    requires IsNumber(major) && IsNumber(minor)
    ensures var v := major + "." + minor;
            v != "" && IsDigit(v[0]) && !IsWhitespace(v[0]) && !IsWhitespace(v[|v| - 1])
  {
    NumberEdges(major);
    NumberEdges(minor);
  }

  /**
   Of an OS string the leading platform words are kept, then the coarse form of one version token;
   whatever follows it, build numbers included, is not.
   */
  lemma {:induction false} OsKeepsPlatformAndVersion(words: seq<string>, version: string, behind: seq<string>)
    requires forall i :: 0 <= i < |words| ==> StartsWithLetter(words[i])
    requires version != "" && '0' <= version[0] <= '9'
    ensures OsWords(words + [version] + behind)
            == match CoarsenOsVersionToken(version) case Some(v) => words + [v] case None => words
  {
    hide CoarsenOsVersionToken;
    var x := words + [version] + behind;
    if words != [] {
      assert x[0] == words[0] && x[1..] == words[1..] + [version] + behind;
      OsKeepsPlatformAndVersion(words[1..], version, behind);
    } else {
      assert x[0] == version;
    }
  }

  /** Of a dotted version token the first two numbers are kept. */
  lemma {:induction false} OsTokenKeepsTwo(major: string, minor: string, more: string)
    requires IsDigits(major) && IsDigits(minor) && (more == "" || more[0] == '.')
    ensures CoarsenOsVersionToken(major + "." + minor + more) == Some(major + "." + minor)
    ensures CoarsenOsVersionToken(major) == Some(major)
  {
    hide Trim, FirstPart, SecondPart, AllDigits;
    DigitsAre(major);
    DigitsAre(minor);
    NumberTrimmed(major);
    PartsOf(major, minor, more);
    WholeNumber(major);
  }

  /** A whole OS string of words: platform words and a version token, as coarsened; what stands behind is dropped. */
  lemma {:induction false} OsStringCoarsened(words: seq<string>, version: string, behind: seq<string>)
    requires forall i :: 0 <= i < |words| ==> IsWord(words[i]) && StartsWithLetter(words[i])
    requires IsWord(version) && '0' <= version[0] <= '9'
    requires forall i :: 0 <= i < |behind| ==> IsWord(behind[i])
    ensures var raw := Join(words + [version] + behind, " ");
            CoarsenOs(raw) ==
              match CoarsenOsVersionToken(version)
              case Some(v) => Some(Join(words + [v], " "))
              case None => if words == [] then None else Some(Join(words, " "))
  {
    assert version != "";
    hide CoarsenOsVersionToken, IsWord, StartsWithLetter, Join, OsWords, SplitWhitespace, Trim;
    var x := words + [version] + behind;
    OsKeepsPlatformAndVersion(words, version, behind);
    JoinedWords(x);
  }

  lemma {:induction false} JoinedWords(x: seq<string>)
    requires x != [] && forall i :: 0 <= i < |x| ==> IsWord(x[i])
    ensures SplitWhitespace(Trim(Join(x, " "))) == x
  {
    hide IsWord;
    JoinTrimmed(x);
    TrimFixed(Join(x, " "), Blank);
    SplitJoin("", x);
    assert "" + Join(x, " ") == Join(x, " ");
  }

  /** Of a locale the language subtag is kept, in lower case, and nothing of region, script or encoding. */
  lemma {:induction false} LocaleHidesRegion(lang: string, region: string)
    requires lang != "" && AllLetters(lang)
    requires region == "" || region[0] == '-' || region[0] == '_' || region[0] == '.'
    ensures CoarsenLocale(lang + region) == Some(Lower(lang))
  {
    var s := lang + region;
    assert IsAlpha(lang[0]) && IsAlpha(lang[|lang| - 1]);
    var kept := TagTrimmed(lang, region);
    LanguageFirst(lang, kept);
    TrimFixed(lang, Blank);
  }

  /** Every coarse locale is lower-case letters. */
  lemma {:induction false} LocaleShape(raw: string)
    requires CoarsenLocale(raw).Some?
    ensures var lang := CoarsenLocale(raw).value; lang != "" && forall i :: 0 <= i < |lang| ==> 'a' <= lang[i] <= 'z'
  {
    hide Trim, FirstPart;
    var lang := Trim(FirstPart(Trim(raw), TagEnd));
    forall i | 0 <= i < |lang| ensures 'a' <= Lower(lang)[i] <= 'z' {
      assert IsAlpha(lang[i]);
    }
  }

  lemma {:induction false} TagTrimmed(lang: string, region: string) returns (kept: string)
    requires lang != "" && IsAlpha(lang[0]) && IsAlpha(lang[|lang| - 1])
    requires region == "" || TagEnd.Has(region[0])
    ensures Trim(lang + region) == lang + kept && (kept == "" || TagEnd.Has(kept[0]))
  {
    var s := lang + region;
    var b := TrailFrom(s, Blank, |s|);
    LeadIs(s, Blank, 0, 0);
    assert s[|lang| - 1] == lang[|lang| - 1];
    assert region != "" ==> s[|lang|] == region[0];
    kept := region[..b - |lang|];
    assert s[..b] == lang + kept;
  }

  lemma {:induction false} LanguageFirst(lang: string, kept: string)
    requires AllLetters(lang) && (kept == "" || TagEnd.Has(kept[0]))
    ensures FirstPart(lang + kept, TagEnd) == lang
  {
    var t := lang + kept;
    forall j | 0 <= j < |lang| ensures !TagEnd.Has(t[j]) {
      assert IsAlpha(lang[j]);
    }
    StopIs(t, TagEnd, |lang|);
    assert t[..|lang|] == lang;
  }

  // ----- the allowlist

  datatype Allowed = AppVersion | Os | Locale
  {
    function Key(): string {
      match this
      case AppVersion => "app_version"
      case Os => "os"
      case Locale => "locale"
    }

    function Coarsen(raw: string): Option<string> {
      match this
      case AppVersion => CoarsenVersion(raw)
      case Os => CoarsenOs(raw)
      case Locale => CoarsenLocale(raw)
    }
  }

  const ALLOWED_FIELDS: seq<Allowed> := [AppVersion, Os, Locale]

  type Metadata = seq<(string, string)>

  /** `eq_ignore_ascii_case`. */
  predicate Matches(key: string, field: Allowed) {
    Lower(key) == Lower(field.Key())
  }

  /** The value of the first pair with the field's key. */
  function FirstValue(m: Metadata, field: Allowed): Option<string> {
    if m == [] then None
    else if Matches(m[0].0, field) then Some(m[0].1)
    else FirstValue(m[1..], field)
  }

  function SafeField(m: Metadata, field: Allowed): Metadata {
    match FirstValue(m, field)
    case None => []
    case Some(raw) =>
      match field.Coarsen(raw)
      case None => []
      case Some(coarse) => [(field.Key(), coarse)]
  }

  function SafeFieldsOf(m: Metadata, fields: seq<Allowed>): Metadata {
    if fields == [] then [] else SafeField(m, fields[0]) + SafeFieldsOf(m, fields[1..])
  }

  function SafeFields(m: Metadata): Metadata {
    SafeFieldsOf(m, ALLOWED_FIELDS)
  }

  method SafeFieldsRun(metadata: Metadata) returns (out: Metadata)
    ensures out == SafeFields(metadata)
  {
    hide SafeField;
    out := [];
    var i := 0;
    while i < |ALLOWED_FIELDS|
      invariant 0 <= i <= |ALLOWED_FIELDS|
      invariant out + SafeFieldsOf(metadata, ALLOWED_FIELDS[i..]) == SafeFields(metadata)
    {
      var field := ALLOWED_FIELDS[i];
      SafeFieldsNext(metadata, ALLOWED_FIELDS[i..], out);
      assert ALLOWED_FIELDS[i..][1..] == ALLOWED_FIELDS[i + 1..];
      out := out + SafeField(metadata, field);
      i := i + 1;
    }
  }

  lemma {:induction false} SafeFieldsNext(m: Metadata, fields: seq<Allowed>, out: Metadata)
    requires fields != []
    ensures out + SafeFieldsOf(m, fields) == (out + SafeField(m, fields[0])) + SafeFieldsOf(m, fields[1..])
  {
  }

  /** At most one pair for each allowed field, in allowlist order, and nothing else. */
  lemma {:induction false} SafeFieldsShape(m: Metadata)
    ensures SafeFields(m) == SafeField(m, AppVersion) + SafeField(m, Os) + SafeField(m, Locale)
    ensures forall p :: p in SafeFields(m) ==>
              (p.0 == "app_version" || p.0 == "os" || p.0 == "locale")
    ensures forall i, j :: 0 <= i < j < |SafeFields(m)| ==> SafeFields(m)[i].0 != SafeFields(m)[j].0
    ensures |SafeFields(m)| <= 3
  {
    hide SafeField, SafeFields;
    Unfold(m);
    SafeFieldKey(m, AppVersion);
    SafeFieldKey(m, Os);
    SafeFieldKey(m, Locale);
    assert AppVersion.Key()[0] == 'a' && Os.Key()[0] == 'o' && Locale.Key()[0] == 'l';
    forall field: Allowed, p | p in SafeField(m, field) ensures p.0 == field.Key() {
      SafeFieldKey(m, field);
    }
  }

  lemma {:induction false} Unfold(m: Metadata)
    ensures SafeFields(m) == SafeField(m, AppVersion) + SafeField(m, Os) + SafeField(m, Locale)
  {
    hide SafeField;
    assert ALLOWED_FIELDS[1..] == [Os, Locale] && [Os, Locale][1..] == [Locale] && [Locale][1..] == [];
    assert SafeFieldsOf(m, [Locale]) == SafeField(m, Locale) + [];
    assert SafeFieldsOf(m, [Os, Locale]) == SafeField(m, Os) + SafeField(m, Locale);
  }

  lemma {:induction false} SafeFieldKey(m: Metadata, field: Allowed)
    ensures forall p :: p in SafeField(m, field) ==> p.0 == field.Key()
    ensures |SafeField(m, field)| <= 1
  {
  }

  /** The value of an allowed field is the coarse form of the first value whose key matches in any letter case. */
  lemma {:induction false} FirstKeyDecides(a: Metadata, key: string, raw: string, b: Metadata, field: Allowed)
    requires Lower(key) == field.Key()
    requires forall i :: 0 <= i < |a| ==> Lower(a[i].0) != field.Key()
    ensures SafeField(a + [(key, raw)] + b, field) ==
      match field.Coarsen(raw) case Some(coarse) => [(field.Key(), coarse)] case None => []
    ensures field.Key() == match field case AppVersion => "app_version" case Os => "os" case Locale => "locale"
    ensures field.Coarsen(raw)
            == match field case AppVersion => CoarsenVersion(raw) case Os => CoarsenOs(raw) case Locale => CoarsenLocale(raw)
  {
    LowerKey(field);
    hide CoarsenVersion, CoarsenOs, CoarsenLocale, Lower;
    FirstValueIs(a, key, raw, b, field);
  }

  lemma {:induction false} LowerKey(field: Allowed)
    ensures Lower(field.Key()) == field.Key()
  {
  }

  lemma {:induction false} FirstValueIs(a: Metadata, key: string, raw: string, b: Metadata, field: Allowed)
    requires Lower(key) == Lower(field.Key())
    requires forall i :: 0 <= i < |a| ==> Lower(a[i].0) != Lower(field.Key())
    ensures FirstValue(a + [(key, raw)] + b, field) == Some(raw)
  {
    hide Lower;
    var m := a + [(key, raw)] + b;
    if a != [] {
      assert m[0] == a[0] && m[1..] == a[1..] + [(key, raw)] + b;
      FirstValueIs(a[1..], key, raw, b, field);
    } else {
      assert m[0] == (key, raw);
    }
  }

  /** A field without any matching key is left out. */
  lemma {:induction false} NoKeyNoField(m: Metadata, field: Allowed)
    requires forall i :: 0 <= i < |m| ==> Lower(m[i].0) != field.Key()
    ensures SafeField(m, field) == []
  {
    LowerKey(field);
    hide CoarsenVersion, CoarsenOs, CoarsenLocale, Lower;
    NoFirstValue(m, field);
  }

  lemma {:induction false} NoFirstValue(m: Metadata, field: Allowed)
    requires forall i :: 0 <= i < |m| ==> Lower(m[i].0) != Lower(field.Key())
    ensures FirstValue(m, field) == None
  {
    hide Lower;
    if m != [] {
      NoFirstValue(m[1..], field);
    }
  }

  // ----- non-interference

  /** Pairs whose key does not match, or comes after one that does, have no say in the first value. */
  lemma {:induction false} FirstValueIgnores(a: Metadata, p: (string, string), b: Metadata, field: Allowed)
    requires !Matches(p.0, field) || FirstValue(a, field).Some?
    ensures FirstValue(a + [p] + b, field) == FirstValue(a + b, field)
  {
    hide Matches;
    if a == [] {
      assert [] + [p] + b == [p] + b && [] + b == b;
      assert ([p] + b)[1..] == b;
    } else {
      assert (a + [p] + b)[1..] == a[1..] + [p] + b && (a + b)[1..] == a[1..] + b;
      assert (a + [p] + b)[0] == a[0] && (a + b)[0] == a[0];
      if !Matches(a[0].0, field) {
        FirstValueIgnores(a[1..], p, b, field);
      }
    }
  }

  /** A pair that cannot be the first of any allowed field. */
  ghost predicate Irrelevant(a: Metadata, p: (string, string)) {
    forall field: Allowed :: !Matches(p.0, field) || FirstValue(a, field).Some?
  }

  /**
   Non-interference: inserting or deleting a pair whose key is not on the allowlist, or which
   duplicates an earlier key, changes nothing; so neither does changing such a pair into another.
   */
  lemma {:induction false} NonInterference(a: Metadata, p: (string, string), q: (string, string), b: Metadata)
    requires Irrelevant(a, p)
    ensures SafeFields(a + [p] + b) == SafeFields(a + b)
    ensures Irrelevant(a, q) ==> SafeFields(a + [p] + b) == SafeFields(a + [q] + b)
  {
    Ignored(a, p, b);
    if Irrelevant(a, q) {
      Ignored(a, q, b);
    }
  }

  lemma {:induction false} Ignored(a: Metadata, p: (string, string), b: Metadata)
    requires Irrelevant(a, p)
    ensures SafeFields(a + [p] + b) == SafeFields(a + b)
  {
    hide Matches, FirstValue;
    Unfold(a + [p] + b);
    Unfold(a + b);
    hide SafeFields;
    forall field: Allowed ensures SafeField(a + [p] + b, field) == SafeField(a + b, field) {
      FirstValueIgnores(a, p, b, field);
    }
  }

  // ----- idempotence

  lemma {:induction false} KeysDiffer(f: Allowed, g: Allowed)
    ensures Matches(f.Key(), g) <==> f == g
  {
    assert |Lower(f.Key())| == |f.Key()|;
    assert |Lower(g.Key())| == |g.Key()|;
  }

  /** Among fields in allowlist order, the first value of one is its own. */
  lemma {:induction false} OwnValue(m: Metadata, field: Allowed)
    ensures FirstValue(SafeFields(m), field)
            == if SafeField(m, field) == [] then None else Some(SafeField(m, field)[0].1)
  {
    Unfold(m);
    hide SafeField, SafeFields, Matches;
    var v, o, l := SafeField(m, AppVersion), SafeField(m, Os), SafeField(m, Locale);
    SafeFieldKey(m, AppVersion);
    SafeFieldKey(m, Os);
    SafeFieldKey(m, Locale);
    OneField(v, AppVersion, o + l, field);
    OneField(o, Os, l, field);
    OneField(l, Locale, [], field);
    assert v + o + l == v + (o + l) && l + [] == l;
  }

  lemma {:induction false} OneField(own: Metadata, f: Allowed, rest: Metadata, field: Allowed)
    requires |own| <= 1 && forall p :: p in own ==> p.0 == f.Key()
    ensures FirstValue(own + rest, field)
            == if own != [] && f == field then Some(own[0].1) else FirstValue(rest, field)
  {
    KeysDiffer(f, field);
    hide Matches;
    if own == [] {
      assert own + rest == rest;
    } else {
      assert own[0] in own;
      assert (own + rest)[1..] == rest;
    }
  }

  lemma {:induction false} CoarsenIdempotent(field: Allowed, raw: string)
    requires field.Coarsen(raw).Some?
    ensures field.Coarsen(field.Coarsen(raw).value) == field.Coarsen(raw)
  {
    hide CoarsenVersion, CoarsenOs, CoarsenLocale;
    match field
    case AppVersion => VersionIdempotent(raw);
    case Os => OsIdempotent(raw);
    case Locale => LocaleIdempotent(raw);
  }

  /** What has passed the allowlist passes it unchanged. */
  lemma {:induction false} SafeFieldsIdempotent(m: Metadata)
    ensures SafeFields(SafeFields(m)) == SafeFields(m)
  {
    hide FirstValue, SafeFields;
    var out := SafeFields(m);
    forall field: Allowed ensures SafeField(out, field) == SafeField(m, field) {
      OwnValue(m, field);
      var raw := FirstValue(m, field);
      if raw.Some? && field.Coarsen(raw.value).Some? {
        CoarsenIdempotent(field, raw.value);
      }
    }
    Unfold(m);
    Unfold(out);
  }
}
