/**
 The texts the header parser accepts are exactly the ways to write a flat object
 of strings, unsigned integers, booleans and null (RFC 8259): any escape, either
 case of hexadecimal digits, surrogate pairs, and blanks wherever they are allowed.
 */
module JsonText {
  import opened Text
  import opened Json

  // ----- the grammar

  /** The hexadecimal digit of a number below 16, in either case. */
  predicate HexOf(c: char, v: nat) {
    || (v < 10 && c as int == '0' as int + v)
    || (10 <= v < 16 && (c as int == 'a' as int + v - 10 || c as int == 'A' as int + v - 10))
  }

  predicate Hex4Of(h: string, a: nat, b: nat, c: nat, d: nat) {
    |h| == 4 && HexOf(h[0], a) && HexOf(h[1], b) && HexOf(h[2], c) && HexOf(h[3], d)
  }

  /** Four hexadecimal digits that spell `n`. */
  ghost predicate Hex4(h: string, n: nat) {
    exists a: nat, b: nat, c: nat, d: nat :: Hex4Of(h, a, b, c, d) && n == 4096 * a + 256 * b + 16 * c + d
  }

  /** `e` is one way to write the character `c` (section 7 of RFC 8259). */
  ghost predicate CharText(e: string, c: char) {
    || (e == [c] && c >= ' ' && c != '"' && c != '\\')
    || (|e| == 2 && e[0] == '\\' && ShortFor(e[1], c))
    || (|e| == 6 && e[0] == '\\' && e[1] == 'u' && Hex4(e[2..], c as int))
    || (|e| == 12 && e[0] == '\\' && e[1] == 'u' && e[6] == '\\' && e[7] == 'u' && SurrogatesFor(e[2..6], e[8..], c))
  }

  predicate ShortFor(x: char, c: char) {
    || (x == '"' && c == '"') || (x == '\\' && c == '\\') || (x == '/' && c == '/')
    || (x == 'b' && c == '\U{08}') || (x == 'f' && c == '\U{0C}')
    || (x == 'n' && c == '\U{0A}') || (x == 'r' && c == '\U{0D}') || (x == 't' && c == '\U{09}')
  }

  /** The two code units of a character beyond the first 65536. */
  ghost predicate SurrogatesFor(h: string, l: string, c: char) {
    exists hi: nat, lo: nat ::
      && Hex4(h, hi) && Hex4(l, lo) && 0xD800 <= hi < 0xDC00 <= lo < 0xE000
      && c as int == 0x10000 + 1024 * (hi - 0xD800) + (lo - 0xDC00)
  }

  ghost predicate StringText(e: string, s: string)
    decreases |e|
  {
    if s == "" then e == ""
    else exists k :: 0 < k <= |e| && CharText(e[..k], s[0]) && StringText(e[k..], s[1..])
  }

  /** Blanks, tabs and line ends. */
  predicate Spaces(w: string) {
    forall i :: 0 <= i < |w| ==> w[i] == ' ' || w[i] == '\t' || w[i] == '\n' || w[i] == '\r'
  }

  /** Decimal digits without a leading zero, up to `u64`. */
  predicate NatText(e: string, n: nat) {
    e == PrintNat(n) && n <= 0xFFFF_FFFF_FFFF_FFFF
  }

  ghost predicate ValueText(e: string, v: Value) {
    match v
    case Str(s) => |e| >= 2 && e[0] == '"' && e[|e| - 1] == '"' && StringText(e[1..|e| - 1], s)
    case Num(n) => NatText(e, n)
    case Bool(b) => e == if b then "true" else "false"
    case Null => e == "null"
  }

  /** A key, a colon and a value, with blanks around each. */
  ghost predicate FieldText(e: string, f: Field) {
    exists w0, k, w1, w2, v, w3 :: FieldOf(e, f, w0, k, w1, w2, v, w3)
  }

  ghost predicate FieldOf(e: string, f: Field, w0: string, k: string, w1: string, w2: string, v: string, w3: string) {
    && e == w0 + ("\"" + (k + ("\"" + (w1 + (":" + (w2 + (v + w3)))))))
    && Spaces(w0) && Spaces(w1) && Spaces(w2) && Spaces(w3)
    && StringText(k, f.key) && ValueText(v, f.value)
  }

  /** Further members, each behind a comma, and the closing brace. */
  ghost predicate RestText(e: string, fs: seq<Field>)
    decreases |fs|
  {
    if fs == [] then e == "}"
    else exists m, r :: e == "," + (m + r) && FieldText(m, fs[0]) && RestText(r, fs[1..])
  }

  ghost predicate ObjectText(e: string, fs: seq<Field>) {
    exists w0, w1, m, r, w2 :: ObjectOf(e, fs, w0, w1, m, r, w2)
  }

  /** Blanks, a brace, blanks, the first member and the others, or none, and blanks. */
  ghost predicate ObjectOf(e: string, fs: seq<Field>, w0: string, w1: string, m: string, r: string, w2: string) {
    && e == w0 + ("{" + (w1 + (m + (r + w2))))
    && Spaces(w0) && Spaces(w1) && Spaces(w2)
    && if fs == [] then m == "" && r == "}" else FieldText(m, fs[0]) && RestText(r, fs[1..])
  }

  // ----- blanks

  lemma {:induction false} SkipsSpaces(w: string, t: string)
    requires Spaces(w)
    ensures SkipSpace(w + t) == SkipSpace(t)
  {
    if w == "" {
      assert w + t == t;
    } else {
      assert (w + t)[0] == w[0] && (w + t)[1..] == w[1..] + t;
      SkipsSpaces(w[1..], t);
    }
  }

  /** What is skipped are blanks, and what follows them is none. */
  lemma {:induction false} SkippedIs(s: string) returns (w: string)
    ensures Spaces(w) && s == w + SkipSpace(s)
    ensures SkipSpace(s) != "" ==> !IsJsonSpace(SkipSpace(s)[0])
  {
    if s != "" && IsJsonSpace(s[0]) {
      var v := SkippedIs(s[1..]);
      w := [s[0]] + v;
      assert s == [s[0]] + s[1..];
      assert [s[0]] + (v + SkipSpace(s)) == w + SkipSpace(s);
    } else {
      w := "";
      assert "" + s == s;
    }
  }

  lemma {:induction false} NoneSkipped(t: string)
    requires t == "" || !IsJsonSpace(t[0])
    ensures SkipSpace(t) == t
  {
  }

  // ----- hexadecimal digits

  lemma {:induction false} HexOfIs(c: char, v: nat)
    ensures HexOf(c, v) <==> IsHexDigit(c) && HexValue(c) == v
  {
  }

  lemma {:induction false} Hex4Is(s: string, n: nat)
    requires |s| >= 4
    ensures Hex4(s[..4], n) <==> ParseHex4(s) == Some(n)
  {
    hide HexOf, IsHexDigit, HexValue;
    var h := s[..4];
    assert h[0] == s[0] && h[1] == s[1] && h[2] == s[2] && h[3] == s[3];
    if ParseHex4(s) == Some(n) {
      HexOfIs(h[0], HexValue(s[0]));
      HexOfIs(h[1], HexValue(s[1]));
      HexOfIs(h[2], HexValue(s[2]));
      HexOfIs(h[3], HexValue(s[3]));
      assert Hex4Of(h, HexValue(s[0]), HexValue(s[1]), HexValue(s[2]), HexValue(s[3]));
    }
    if a: nat, b: nat, c: nat, d: nat :| Hex4Of(h, a, b, c, d) && n == 4096 * a + 256 * b + 16 * c + d {
      HexOfIs(h[0], a);
      HexOfIs(h[1], b);
      HexOfIs(h[2], c);
      HexOfIs(h[3], d);
    }
  }

  lemma {:induction false} Hex4Of4(h: string, t: string, n: nat)
    requires |h| == 4
    ensures Hex4(h, n) <==> ParseHex4(h + t) == Some(n)
  {
    hide Hex4, ParseHex4;
    assert (h + t)[..4] == h;
    Hex4Is(h + t, n);
  }

  // ----- strings

  lemma {:induction false} ShortIs(x: char, c: char, t: string)
    requires x != 'u'
    ensures ShortFor(x, c) <==> ParseEscape([x] + t) == Done(c, t)
  {
    hide ParseUnicode;
    assert ([x] + t)[1..] == t;
  }

  lemma {:induction false} UnitIs(h: string, c: char, t: string)
    requires |h| == 4 && Hex4(h, c as int)
    ensures ParseUnicode(h + t) == Done(c, t)
  {
    hide Hex4, ParseHex4;
    Hex4Of4(h, t, c as int);
    assert (h + t)[4..] == t;
  }

  lemma {:induction false} PairIs(h: string, l: string, c: char, t: string)
    requires |h| == 4 && |l| == 4 && SurrogatesFor(h, l, c)
    ensures ParseUnicode(h + ("\\u" + (l + t))) == Done(c, t)
  {
    hide Hex4, ParseHex4;
    var hi: nat, lo: nat :|
      && Hex4(h, hi) && Hex4(l, lo) && 0xD800 <= hi < 0xDC00 <= lo < 0xE000
      && c as int == 0x10000 + 1024 * (hi - 0xD800) + (lo - 0xDC00);
    var s := h + ("\\u" + (l + t));
    Hex4Of4(h, "\\u" + (l + t), hi);
    Hex4Of4(l, t, lo);
    assert s[4] == '\\' && s[5] == 'u' && s[6..] == l + t && s[10..] == t;
  }

  /** However a character is written, the parser reads it and goes on behind it. */
  lemma {:induction false} CharRead(e: string, c: char, t: string)
    requires CharText(e, c)
    ensures ParseString(e + t) == Prepend(c, ParseString(t))
  {
    hide ParseUnicode, Hex4, ShortFor, SurrogatesFor;
    var s := e + t;
    if e == [c] && c >= ' ' && c != '"' && c != '\\' {
      assert s[1..] == t;
    } else if |e| == 2 {
      NotUnicode(e[1], c);
      ShortIs(e[1], c, t);
      assert s[1..] == [e[1]] + t;
    } else if |e| == 6 {
      UnitIs(e[2..], c, t);
      assert s[1..] == e[1..] + t && (e[1..] + t)[1..] == e[2..] + t;
    } else {
      var h, l := e[2..6], e[8..];
      PairIs(h, l, c, t);
      PairShape(e, t);
    }
  }

  lemma {:induction false} NotUnicode(x: char, c: char)
    requires ShortFor(x, c)
    ensures x != 'u'
  {
  }

  lemma {:induction false} PairShape(e: string, t: string)
    requires |e| == 12 && e[0] == '\\' && e[1] == 'u' && e[6] == '\\' && e[7] == 'u'
    ensures (e + t)[0] == '\\' && (e + t)[1..][0] == 'u'
    ensures (e + t)[1..][1..] == e[2..6] + ("\\u" + (e[8..] + t))
  {
  }

  lemma {:induction false} StringRead(e: string, s: string, t: string)
    requires StringText(e, s)
    ensures ParseString(e + ("\"" + t)) == Done(s, t)
    decreases |e|
  {
    hide CharText, ParseString;
    if s == "" {
      QuoteRead(t);
      assert e + ("\"" + t) == "\"" + t;
    } else {
      var k :| 0 < k <= |e| && CharText(e[..k], s[0]) && StringText(e[k..], s[1..]);
      StringRead(e[k..], s[1..], t);
      CharRead(e[..k], s[0], e[k..] + ("\"" + t));
      assert e + ("\"" + t) == e[..k] + (e[k..] + ("\"" + t));
      assert [s[0]] + s[1..] == s;
    }
  }

  lemma {:induction false} QuoteRead(t: string)
    ensures ParseString("\"" + t) == Done("", t)
  {
    assert ("\"" + t)[1..] == t;
  }

  /** What the parser reads of a string was a way to write it. */
  lemma {:induction false} StringWas(s: string) returns (e: string)
    requires ParseString(s).Done?
    ensures s == e + ("\"" + ParseString(s).rest) && StringText(e, ParseString(s).value)
    decreases |s|
  {
    hide ParseEscape, CharText;
    if s[0] == '"' {
      e := "";
      assert s == "" + ("\"" + s[1..]);
    } else {
      var r := ParseString(s);
      var k := CharWas(s);
      var d := StringWas(s[k..]);
      e := s[..k] + d;
      assert s == s[..k] + s[k..];
      assert s[..k] + (d + ("\"" + r.rest)) == e + ("\"" + r.rest);
      assert e[..k] == s[..k] && e[k..] == d;
    }
  }

  /** The first character read, and how long it was written. */
  lemma {:induction false} CharWas(s: string) returns (k: nat)
    requires ParseString(s).Done? && s[0] != '"'
    ensures 0 < k <= |s| && ParseString(s[k..]).Done?
    ensures var r := ParseString(s); r.value != "" && CharText(s[..k], r.value[0])
    ensures ParseString(s) == Prepend(ParseString(s).value[0], ParseString(s[k..]))
  {
    if s[0] == '\\' {
      var x := ParseEscape(s[1..]);
      k := EscapeWas(s[1..]);
      k := k + 1;
      hide ParseEscape, CharText;
      assert s[1..][k - 1..] == s[k..];
      EscapeText(s, k, x.value);
    } else {
      k := 1;
    }
  }

  /** An escape behind its backslash: how long it is and what it stands for. */
  ghost predicate EscapeFor(e: string, c: char) {
    || (|e| == 1 && ShortFor(e[0], c))
    || (|e| == 5 && e[0] == 'u' && Hex4(e[1..], c as int))
    || (|e| == 11 && e[0] == 'u' && e[5] == '\\' && e[6] == 'u' && SurrogatesFor(e[1..5], e[7..], c))
  }

  lemma {:induction false} EscapeText(s: string, k: nat, c: char)
    requires 1 <= k <= |s| && s[0] == '\\' && EscapeFor(s[1..][..k - 1], c)
    ensures CharText(s[..k], c)
  {
    hide Hex4, ShortFor, SurrogatesFor;
    var e, f := s[..k], s[1..][..k - 1];
    assert e[1..] == f;
    assert |e| == 6 ==> e[2..] == f[1..];
    assert |e| == 12 ==> e[2..6] == f[1..5] && e[8..] == f[7..];
  }

  lemma {:induction false} EscapeWas(s: string) returns (k: nat)
    requires ParseEscape(s).Done?
    ensures 0 < k <= |s| && ParseEscape(s).rest == s[k..] && EscapeFor(s[..k], ParseEscape(s).value)
  {
    hide Hex4, ShortFor, SurrogatesFor, ParseUnicode;
    var r := ParseEscape(s);
    if s[0] == 'u' {
      k := UnicodeWas(s[1..]);
      k := k + 1;
      assert s[1..][k - 1..] == s[k..];
      var e := s[..k];
      assert e[1..] == s[1..][..k - 1];
      assert k == 11 ==> e[1..5] == e[1..][..4] && e[7..] == e[1..][6..];
    } else {
      k := 1;
      assert s == [s[0]] + s[1..];
      ShortIs(s[0], r.value, s[1..]);
      assert s[..1] == [s[0]];
    }
  }

  lemma {:induction false} UnicodeWas(s: string) returns (k: nat)
    requires ParseUnicode(s).Done?
    ensures k <= |s| && ParseUnicode(s).rest == s[k..]
    ensures var c, e := ParseUnicode(s).value, s[..k];
            || (k == 4 && Hex4(e, c as int))
            || (k == 10 && e[4] == '\\' && e[5] == 'u' && SurrogatesFor(e[..4], e[6..], c))
  {
    hide Hex4, ParseHex4;
    var hi := ParseHex4(s).value;
    Hex4Is(s, hi);
    if hi < 0xD800 || hi >= 0xE000 {
      k := 4;
    } else {
      k := 10;
      var lo := ParseHex4(s[6..]).value;
      Hex4Is(s[6..], lo);
      var e := s[..k];
      assert e[..4] == s[..4] && e[6..] == s[6..][..4];
    }
  }

  // ----- values

  /** What may stand behind a value: nothing that would go on with a number. */
  predicate Follows(t: string) {
    t == "" || (!IsDigit(t[0]) && t[0] != '.' && t[0] != 'e' && t[0] != 'E')
  }

  lemma {:induction false} NatRead(e: string, n: nat, t: string)
    requires NatText(e, n) && Follows(t)
    ensures ParseNat(e + t) == Done(n, t) && e != "" && IsDigit(e[0])
  {
    ParseNatBack(n, t);
    assert Digit.Has(e[0]);
  }

  lemma {:induction false} NatWas(s: string) returns (e: string)
    requires ParseNat(s).Done?
    ensures s == e + ParseNat(s).rest && NatText(e, ParseNat(s).value) && Follows(ParseNat(s).rest)
  {
    var n := LeadFrom(s, Digit, 0);
    e := s[..n];
    assert s == s[..n] + s[n..];
    DigitsPrinted(e);
    assert n < |s| ==> !Digit.Has(s[n]);
  }

  /** Digits without a leading zero are the print of their number. */
  lemma {:induction false} DigitsPrinted(ds: string)
    requires ds != "" && All(ds, Digit) && (|ds| > 1 ==> ds[0] != '0')
    ensures PrintNat(NatOf(ds)) == ds
    ensures ds[0] != '0' ==> NatOf(ds) > 0
  {
    var front, last := ds[..|ds| - 1], ds[|ds| - 1];
    assert ds == front + [last];
    assert Digit.Has(last);
    var d := last as int - '0' as int;
    assert 0 <= d < 10 && DigitChar(d) == last;
    if front == "" {
      assert NatOf(ds) == d;
    } else {
      assert forall i :: 0 <= i < |front| ==> front[i] == ds[i];
      DigitsPrinted(front);
      LastDigit(NatOf(front), d);
    }
  }

  lemma {:induction false} LastDigit(n: nat, d: nat)
    requires n > 0 && d < 10
    ensures PrintNat(10 * n + d) == PrintNat(n) + [DigitChar(d)]
  {
    assert (10 * n + d) / 10 == n && (10 * n + d) % 10 == d;
  }

  lemma {:induction false} ValueRead(e: string, v: Value, t: string)
    requires ValueText(e, v) && Follows(t)
    ensures ParseValue(e + t) == Done(v, t)
    ensures e != "" && !IsJsonSpace(e[0])
  {
    hide ParseString, ParseNat, StringText, NatText;
    match v
    case Str(s) =>
      var b := e[1..|e| - 1];
      StringRead(b, s, t);
      assert (e + t)[1..] == b + ("\"" + t);
    case Num(n) =>
      NatRead(e, n, t);
    case Bool(b) => LiteralBack(e, t);
    case Null => LiteralBack(e, t);
  }

  lemma {:induction false} ValueWas(s: string) returns (e: string)
    requires ParseValue(s).Done?
    ensures s == e + ParseValue(s).rest && ValueText(e, ParseValue(s).value)
  {
    hide ParseString, ParseNat, StringText, NatText;
    var r := ParseValue(s);
    if s[0] == '"' {
      var b := StringWas(s[1..]);
      e := "\"" + b + "\"";
      assert s == [s[0]] + s[1..];
      assert "\"" + (b + ("\"" + r.rest)) == e + r.rest;
      assert e[1..|e| - 1] == b;
    } else if IsDigit(s[0]) {
      e := NatWas(s);
    } else {
      var n := if "false" <= s then 5 else 4;
      e := s[..n];
      assert s == s[..n] + s[n..];
    }
  }

  // ----- members

  lemma {:induction false} AfterKeyRead(w1: string, w2: string, v: string, w3: string, f: Field, t: string)
    requires Spaces(w1) && Spaces(w2) && Spaces(w3) && ValueText(v, f.value)
    requires t == "" || t[0] == ',' || t[0] == '}'
    ensures ParseAfterKey(f.key, w1 + (":" + (w2 + (v + (w3 + t))))) == Done(f, t)
  {
    hide ParseValue, ValueText, SkipSpace, Spaces;
    var x := w3 + t;
    FollowsSpaces(w3, t);
    ValueRead(v, f.value, x);
    SkipsSpaces(w1, ":" + (w2 + (v + x)));
    NoneSkipped(":" + (w2 + (v + x)));
    assert (":" + (w2 + (v + x)))[1..] == w2 + (v + x);
    SkipsSpaces(w2, v + x);
    assert (v + x)[0] == v[0];
    NoneSkipped(v + x);
    SkipsSpaces(w3, t);
    NoneSkipped(t);
  }

  lemma {:induction false} FollowsSpaces(w: string, t: string)
    requires Spaces(w) && (t == "" || t[0] == ',' || t[0] == '}')
    ensures Follows(w + t)
  {
    assert w != "" ==> (w + t)[0] == w[0];
    assert w == "" ==> w + t == t;
  }

  lemma {:induction false} FieldRead(e: string, f: Field, t: string)
    requires FieldText(e, f) && (t == "" || t[0] == ',' || t[0] == '}')
    ensures ParseField(e + t) == Done(f, t)
  {
    hide *;
    var w0, k, w1, w2, v, w3 := FieldParts(e, f);
    var x := w1 + (":" + (w2 + (v + (w3 + t))));
    FieldPieces(w0, k, w1, w2, v, w3, t);
    StringRead(k, f.key, x);
    AfterKeyRead(w1, w2, v, w3, f, t);
    KeyRead(w0, k + ("\"" + x), f.key, x);
  }

  lemma {:induction false} KeyRead(w0: string, body: string, key: string, x: string)
    requires Spaces(w0) && ParseString(body) == Done(key, x)
    ensures ParseField(w0 + ("\"" + body)) == ParseAfterKey(key, x)
  {
    hide ParseAfterKey, ParseString, SkipSpace, Spaces;
    var y := "\"" + body;
    SkipsSpaces(w0, y);
    NoneSkipped(y);
    assert y[1..] == body;
  }

  lemma {:induction false} FieldParts(e: string, f: Field)
    returns (w0: string, k: string, w1: string, w2: string, v: string, w3: string)
    requires FieldText(e, f)
    ensures e == w0 + ("\"" + (k + ("\"" + (w1 + (":" + (w2 + (v + w3)))))))
    ensures Spaces(w0) && Spaces(w1) && Spaces(w2) && Spaces(w3) && StringText(k, f.key) && ValueText(v, f.value)
  {
    hide StringText, ValueText, Spaces;
    w0, k, w1, w2, v, w3 :| FieldOf(e, f, w0, k, w1, w2, v, w3);
  }

  lemma {:induction false} FieldPieces(w0: string, k: string, w1: string, w2: string, v: string, w3: string, t: string)
    ensures w0 + ("\"" + (k + ("\"" + (w1 + (":" + (w2 + (v + w3))))))) + t
         == w0 + ("\"" + (k + ("\"" + (w1 + (":" + (w2 + (v + (w3 + t))))))))
  {
  }

  lemma {:induction false} FieldWas(s: string) returns (e: string)
    requires ParseField(s).Done?
    ensures s == e + ParseField(s).rest && FieldText(e, ParseField(s).value)
  {
    hide ParseValue, ParseString, StringText, ValueText, SkipSpace, Spaces;
    var r := ParseField(s);
    var w0 := SkippedIs(s);
    var t0 := SkipSpace(s);
    var k := StringWas(t0[1..]);
    var x := ParseString(t0[1..]).rest;
    var w1 := SkippedIs(x);
    var u := SkipSpace(x);
    var w2 := SkippedIs(u[1..]);
    var v := ValueWas(SkipSpace(u[1..]));
    var y := ParseValue(SkipSpace(u[1..])).rest;
    var w3 := SkippedIs(y);
    e := w0 + ("\"" + (k + ("\"" + (w1 + (":" + (w2 + (v + w3)))))));
    assert t0 == "\"" + t0[1..] && u == ":" + u[1..];
    FieldPieces(w0, k, w1, w2, v, w3, r.rest);
    assert FieldOf(e, r.value, w0, k, w1, w2, v, w3);
  }

  // ----- objects

  lemma {:induction false} RestRead(e: string, fs: seq<Field>, t: string)
    requires RestText(e, fs)
    ensures ParseRest(e + t) == Done(fs, t)
    ensures e != "" && (e[0] == ',' || e[0] == '}')
    decreases |fs|
  {
    hide ParseField, FieldText;
    if fs == [] {
      assert (e + t)[1..] == t;
    } else {
      var m, r :| e == "," + (m + r) && FieldText(m, fs[0]) && RestText(r, fs[1..]);
      RestRead(r, fs[1..], t);
      assert (r + t)[0] == r[0];
      FieldRead(m, fs[0], r + t);
      assert (e + t)[0] == ',' && (e + t)[1..] == m + (r + t);
      assert [fs[0]] + fs[1..] == fs;
    }
  }

  lemma {:induction false} RestWas(s: string) returns (e: string)
    requires ParseRest(s).Done?
    ensures s == e + ParseRest(s).rest && RestText(e, ParseRest(s).value)
    decreases |s|
  {
    hide ParseField, FieldText;
    if s[0] == '}' {
      e := "}";
      assert s == "}" + s[1..];
    } else {
      var r := ParseRest(s);
      var f := ParseField(s[1..]);
      var m := FieldWas(s[1..]);
      var d := RestWas(f.rest);
      e := "," + (m + d);
      assert s == "," + s[1..];
      assert "," + (m + (d + r.rest)) == e + r.rest;
      assert r.value[1..] == ParseRest(f.rest).value && r.value[0] == f.value;
    }
  }

  lemma {:induction false} ObjectRead(e: string, fs: seq<Field>)
    requires ObjectText(e, fs)
    ensures ParseObject(e) == Some(fs)
  {
    hide ParseField, ParseRest, FieldText, RestText, SkipSpace, Spaces;
    var w0, w1, m, r, w2 :| ObjectOf(e, fs, w0, w1, m, r, w2);
    var x := m + (r + w2);
    var y := "{" + (w1 + x);
    SkipsSpaces(w0, y);
    NoneSkipped(y);
    assert y[1..] == w1 + x;
    SkipsSpaces(w1, x);
    AllSkipped(w2);
    if fs == [] {
      assert x == "}" + w2 && x[1..] == w2;
      NoneSkipped(x);
    } else {
      MembersRead(m, r, w2, fs);
    }
  }

  lemma {:induction false} AllSkipped(w: string)
    requires Spaces(w)
    ensures SkipSpace(w) == ""
  {
    SkipsSpaces(w, "");
    assert w + "" == w;
  }

  lemma {:induction false} MembersRead(m: string, r: string, w2: string, fs: seq<Field>)
    requires fs != [] && FieldText(m, fs[0]) && RestText(r, fs[1..])
    ensures var u := SkipSpace(m + (r + w2));
            && u != "" && u[0] != '}'
            && ParseField(u) == Done(fs[0], r + w2) && ParseRest(r + w2) == Done(fs[1..], w2)
            && [fs[0]] + fs[1..] == fs
  {
    hide *;
    var x := r + w2;
    RestRead(r, fs[1..], w2);
    AtHead(r, w2);
    FieldRead(m, fs[0], x);
    FirstIsQuote(m + x);
    assert [fs[0]] + fs[1..] == fs;
  }

  lemma {:induction false} AtHead(r: string, t: string)
    requires r != ""
    ensures (r + t)[0] == r[0]
  {
  }

  /** A member starts with a quote behind its blanks, and may as well be read from there. */
  lemma {:induction false} FirstIsQuote(s: string)
    requires ParseField(s).Done?
    ensures var u := SkipSpace(s); u != "" && u[0] != '}' && ParseField(u) == ParseField(s)
  {
    hide ParseAfterKey, ParseString, SkipSpace;
    var w := SkippedIs(s);
    NoneSkipped(SkipSpace(s));
  }

  lemma {:induction false} ObjectWas(s: string, fs: seq<Field>)
    requires ParseObject(s) == Some(fs)
    ensures ObjectText(s, fs)
  {
    hide ParseField, ParseRest, FieldText, RestText, SkipSpace, Spaces;
    var w0 := SkippedIs(s);
    var t := SkipSpace(s);
    var w1 := SkippedIs(t[1..]);
    var u := SkipSpace(t[1..]);
    assert t == "{" + t[1..];
    if u != "" && u[0] == '}' {
      var w2 := SkippedIs(u[1..]);
      assert w2 + "" == w2;
      assert u == "}" + u[1..];
      assert ObjectOf(s, fs, w0, w1, "", "}", w2);
    } else {
      var f := ParseField(u);
      var m := FieldWas(u);
      var r := RestWas(f.rest);
      var x := ParseRest(f.rest);
      var w2 := SkippedIs(x.rest);
      assert w2 + "" == w2;
      assert fs[0] == f.value && fs[1..] == x.value;
      assert ObjectOf(s, fs, w0, w1, m, r, w2);
    }
  }

  /** The texts the parser takes for a flat object are exactly the ways to write it. */
  lemma {:induction false} ParseObjectIff(s: string, fs: seq<Field>)
    ensures ParseObject(s) == Some(fs) <==> ObjectText(s, fs)
  {
    if ObjectText(s, fs) {
      ObjectRead(s, fs);
    }
    if ParseObject(s) == Some(fs) {
      ObjectWas(s, fs);
    }
  }
}
