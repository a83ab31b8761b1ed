/**
 The JSON the envelope headers are written in (RFC 8259): flat objects of strings,
 unsigned integers, booleans and null, printed compactly and parsed with
 insignificant whitespace.
 */
module Json {
  import opened Text
  import opened Bytes

  datatype Value = Str(s: string) | Num(n: nat) | Bool(b: bool) | Null

  datatype Field = Field(key: string, value: Value)

  // ----- printing

  function DigitChar(d: nat): (c: char)
    requires d < 10
    ensures IsDigit(c)
  {
    ('0' as int + d) as char
  }

  function HexChar(d: nat): char
    requires d < 16
  {
    if d < 10 then ('0' as int + d) as char else ('a' as int + d - 10) as char
  }

  /** The escape of one character inside a string (section 7 of RFC 8259). */
  function EscapeChar(c: char): string {
    if c == '"' then "\\\""
    else if c == '\\' then "\\\\"
    else if c == '\U{08}' then "\\b"
    else if c == '\U{0C}' then "\\f"
    else if c == '\n' then "\\n"
    else if c == '\r' then "\\r"
    else if c == '\t' then "\\t"
    else if c < ' ' then "\\u00" + [HexChar(c as int / 16), HexChar(c as int % 16)]
    else [c]
  }

  function Escaped(s: string): string {
    if s == "" then "" else EscapeChar(s[0]) + Escaped(s[1..])
  }

  function PrintString(s: string): string {
    "\"" + Escaped(s) + "\""
  }

  /** Decimal digits without leading zeros. */
  function PrintNat(n: nat): (s: string)
    ensures s != "" && All(s, Digit)
  {
    if n < 10 then [DigitChar(n)] else PrintNat(n / 10) + [DigitChar(n % 10)]
  }

  function PrintValue(v: Value): string {
    match v
    case Str(s) => PrintString(s)
    case Num(n) => PrintNat(n)
    case Bool(b) => if b then "true" else "false"
    case Null => "null"
  }

  function PrintField(f: Field): string {
    PrintString(f.key) + ":" + PrintValue(f.value)
  }

  /** The fields after the first, each behind a comma, and the closing brace. */
  function PrintRest(fs: seq<Field>): string {
    if fs == [] then "}" else "," + PrintField(fs[0]) + PrintRest(fs[1..])
  }

  function PrintObject(fs: seq<Field>): string {
    if fs == [] then "{}" else "{" + PrintField(fs[0]) + PrintRest(fs[1..])
  }

  // ----- parsing

  predicate IsJsonSpace(c: char) {
    c == ' ' || c == '\t' || c == '\n' || c == '\r'
  }

  function SkipSpace(s: string): (r: string)
    ensures |r| <= |s|
  {
    if s != "" && IsJsonSpace(s[0]) then SkipSpace(s[1..]) else s
  }

  function HexValue(c: char): (v: nat)
    requires IsHexDigit(c)
    ensures v < 16
  {
    if IsDigit(c) then c as int - '0' as int
    else if 'a' <= c <= 'f' then c as int - 'a' as int + 10
    else c as int - 'A' as int + 10
  }

  /** Four hexadecimal digits. */
  function ParseHex4(s: string): (r: Option<nat>)
    ensures r.Some? ==> |s| >= 4 && r.value < 0x10000
  {
    if |s| < 4 || !(IsHexDigit(s[0]) && IsHexDigit(s[1]) && IsHexDigit(s[2]) && IsHexDigit(s[3])) then None
    else Some(HexValue(s[0]) * 4096 + HexValue(s[1]) * 256 + HexValue(s[2]) * 16 + HexValue(s[3]))
  }

  datatype Parsed<T> = Fail | Done(value: T, rest: string)

  /** What follows `\u`: one code unit, or a surrogate pair; a lone surrogate is refused. */
  function ParseUnicode(s: string): (r: Parsed<char>)
    ensures r.Done? ==> |r.rest| < |s|
  {
    match ParseHex4(s)
    case None => Fail
    case Some(n) =>
      if n < 0xD800 || n >= 0xE000 then Done(n as char, s[4..])
      else if n >= 0xDC00 || |s| < 6 || s[4] != '\\' || s[5] != 'u' then Fail
      else match ParseHex4(s[6..])
        case None => Fail
        case Some(m) =>
          if m < 0xDC00 || m >= 0xE000 then Fail
          else Done((0x10000 + (n - 0xD800) * 0x400 + (m - 0xDC00)) as char, s[10..])
  }

  /** What follows a backslash. */
  function ParseEscape(s: string): (r: Parsed<char>)
    ensures r.Done? ==> |r.rest| < |s|
  {
    if s == "" then Fail
    else if s[0] == '"' || s[0] == '\\' || s[0] == '/' then Done(s[0], s[1..])
    else if s[0] == 'b' then Done('\U{08}', s[1..])
    else if s[0] == 'f' then Done('\U{0C}', s[1..])
    else if s[0] == 'n' then Done('\n', s[1..])
    else if s[0] == 'r' then Done('\r', s[1..])
    else if s[0] == 't' then Done('\t', s[1..])
    else if s[0] == 'u' then ParseUnicode(s[1..])
    else Fail
  }

  /** The string body up to and including its closing quote; control characters are refused. */
  function ParseString(s: string): (r: Parsed<string>)
    ensures r.Done? ==> |r.rest| < |s|
    decreases |s|
  {
    if s == "" then Fail
    else if s[0] == '"' then Done("", s[1..])
    else if s[0] == '\\' then
      match ParseEscape(s[1..])
      case Fail => Fail
      case Done(c, t) => Prepend(c, ParseString(t))
    else if s[0] < ' ' then Fail
    else Prepend(s[0], ParseString(s[1..]))
  }

  function Prepend(c: char, r: Parsed<string>): Parsed<string> {
    if r.Fail? then Fail else Done([c] + r.value, r.rest)
  }

  function NatOf(ds: string): nat
    requires All(ds, Digit)
  {
    if ds == "" then 0 else NatOf(ds[..|ds| - 1]) * 10 + (ds[|ds| - 1] as int - '0' as int)
  }

  /** An unsigned integer: no leading zeros, no fraction or exponent, and within `u64`. */
  function ParseNat(s: string): (r: Parsed<nat>)
    ensures r.Done? ==> |r.rest| < |s|
  {
    var n := LeadFrom(s, Digit, 0);
    var ds, rest := s[..n], s[n..];
    if n == 0 || (n > 1 && s[0] == '0') then Fail
    else if rest != "" && (rest[0] == '.' || rest[0] == 'e' || rest[0] == 'E') then Fail
    else
      assert All(ds, Digit);
      if NatOf(ds) > U64_MAX then Fail else Done(NatOf(ds), rest)
  }

  function ParseValue(s: string): (r: Parsed<Value>)
    ensures r.Done? ==> |r.rest| < |s|
  {
    if s == "" then Fail
    else if s[0] == '"' then
      var r := ParseString(s[1..]);
      if r.Fail? then Fail else Done(Str(r.value), r.rest)
    else if IsDigit(s[0]) then
      var r := ParseNat(s);
      if r.Fail? then Fail else Done(Num(r.value), r.rest)
    else if "true" <= s then Done(Bool(true), s[4..])
    else if "false" <= s then Done(Bool(false), s[5..])
    else if "null" <= s then Done(Null, s[4..])
    else Fail
  }

  /** `: value`, with insignificant whitespace around its parts. */
  function ParseAfterKey(key: string, s: string): (r: Parsed<Field>)
    ensures r.Done? ==> |r.rest| < |s|
  {
    var u := SkipSpace(s);
    if u == "" || u[0] != ':' then Fail
    else
      var v := ParseValue(SkipSpace(u[1..]));
      if v.Fail? then Fail else Done(Field(key, v.value), SkipSpace(v.rest))
  }

  /** `"key" : value`. */
  function ParseField(s: string): (r: Parsed<Field>)
    ensures r.Done? ==> |r.rest| < |s|
  {
    var t := SkipSpace(s);
    if t == "" || t[0] != '"' then Fail
    else
      var k := ParseString(t[1..]);
      if k.Fail? then Fail else ParseAfterKey(k.value, k.rest)
  }

  /** The rest of the members after one, up to the closing brace. */
  function ParseRest(s: string): (r: Parsed<seq<Field>>)
    ensures r.Done? ==> |r.rest| < |s|
    decreases |s|
  {
    if s == "" then Fail
    else if s[0] == '}' then Done([], s[1..])
    else if s[0] != ',' then Fail
    else
      var f := ParseField(s[1..]);
      if f.Fail? then Fail
      else
        var r := ParseRest(f.rest);
        if r.Fail? then Fail else Done([f.value] + r.value, r.rest)
  }

  /** A whole text holding one flat object and nothing else. */
  function ParseObject(s: string): Option<seq<Field>> {
    var t := SkipSpace(s);
    if t == "" || t[0] != '{' then None
    else
      var u := SkipSpace(t[1..]);
      var r :=
        if u != "" && u[0] == '}' then Done([], u[1..])
        else
          var f := ParseField(u);
          if f.Fail? then Fail
          else
            var r := ParseRest(f.rest);
            if r.Fail? then Fail else Done([f.value] + r.value, r.rest);
      if r.Fail? || SkipSpace(r.rest) != "" then None else Some(r.value)
  }

  // ----- parsing undoes printing

  lemma {:induction false} HexBack(d: nat)
    requires d < 16
    ensures IsHexDigit(HexChar(d)) && HexValue(HexChar(d)) == d
  {
  }

  /** Control characters without a short escape are written `\u00XX`. */
  lemma {:induction false} UnicodeBack(c: char, t: string)
    requires c < ' '
    ensures ParseUnicode("00" + [HexChar(c as int / 16), HexChar(c as int % 16)] + t) == Done(c, t)
  {
    var hi, lo := c as int / 16, c as int % 16;
    HexBack(hi);
    HexBack(lo);
    var u := "00" + [HexChar(hi), HexChar(lo)] + t;
    assert u[0] == '0' && u[1] == '0' && u[2] == HexChar(hi) && u[3] == HexChar(lo) && u[4..] == t;
    assert HexValue('0') == 0;
    assert ParseHex4(u) == Some(hi * 16 + lo);
  }

  predicate HasShortEscape(c: char) {
    c == '"' || c == '\\' || c == '\U{08}' || c == '\U{0C}' || c == '\n' || c == '\r' || c == '\t'
  }

  lemma {:induction false} EscapeBack(c: char, t: string)
    ensures ParseString(EscapeChar(c) + t) == Prepend(c, ParseString(t))
  {
    if HasShortEscape(c) {
      ShortEscapeBack(c, t);
    } else if c < ' ' {
      LongEscapeBack(c, t);
    } else {
      assert ([c] + t)[1..] == t;
    }
  }

  lemma {:induction false} ShortEscapeBack(c: char, t: string)
    requires HasShortEscape(c)
    ensures ParseString(EscapeChar(c) + t) == Prepend(c, ParseString(t))
  {
    hide ParseUnicode;
    var s := EscapeChar(c) + t;
    var u := s[1..];
    assert u[1..] == t;
    assert ParseEscape(u) == Done(c, t);
  }

  lemma {:induction false} LongEscapeBack(c: char, t: string)
    requires c < ' ' && !HasShortEscape(c)
    ensures ParseString(EscapeChar(c) + t) == Prepend(c, ParseString(t))
  {
    UnicodeBack(c, t);
    hide ParseUnicode, HexChar;
    var s := EscapeChar(c) + t;
    var v := "00" + [HexChar(c as int / 16), HexChar(c as int % 16)] + t;
    var u := s[1..];
    assert u == "u" + v;
    assert u[0] == 'u' && u[1..] == v;
    assert ParseEscape(u) == Done(c, t);
  }

  lemma {:induction false} StringBack(s: string, t: string)
    ensures ParseString(Escaped(s) + "\"" + t) == Done(s, t)
    decreases |s|
  {
    hide ParseEscape, EscapeChar;
    var tail := Escaped(s) + "\"" + t;
    if s == "" {
      assert tail[1..] == t;
    } else {
      var rest := Escaped(s[1..]) + "\"" + t;
      assert tail == EscapeChar(s[0]) + rest;
      EscapeBack(s[0], rest);
      StringBack(s[1..], t);
      assert [s[0]] + s[1..] == s;
    }
  }

  lemma {:induction false} NatBack(n: nat)
    ensures NatOf(PrintNat(n)) == n
    ensures n > 0 ==> PrintNat(n)[0] != '0'
    ensures |PrintNat(n)| > 1 ==> n > 0
  {
    if n >= 10 {
      NatBack(n / 10);
      var s := PrintNat(n);
      assert s[..|s| - 1] == PrintNat(n / 10);
    }
  }

  lemma {:induction false} ParseNatBack(n: nat, t: string)
    requires n <= U64_MAX
    requires t == "" || (!IsDigit(t[0]) && t[0] != '.' && t[0] != 'e' && t[0] != 'E')
    ensures ParseNat(PrintNat(n) + t) == Done(n, t)
  {
    var ds := PrintNat(n);
    var s := ds + t;
    NatBack(n);
    LeadIs(s, Digit, 0, |ds|);
    assert s[..|ds|] == ds && s[|ds|..] == t;
  }

  /** What may stand behind a printed value. */
  predicate EndsValue(t: string) {
    t == "" || t[0] == ',' || t[0] == '}'
  }

  predicate Printable(v: Value) {
    v.Num? ==> v.n <= U64_MAX
  }

  lemma {:induction false} ValueBack(v: Value, t: string)
    requires EndsValue(t) && Printable(v)
    ensures PrintValue(v) != "" && !IsJsonSpace(PrintValue(v)[0])
    ensures ParseValue(PrintValue(v) + t) == Done(v, t)
  {
    hide ParseValue, ParseNat, PrintNat, Escaped;
    match v
    case Str(x) => TextBack(x, t);
    case Num(n) => NumberBack(n, t);
    case Bool(b) => WordsBack(b, t);
    case Null => NullBack(t);
  }

  lemma {:induction false} TextBack(x: string, t: string)
    ensures PrintString(x)[0] == '"' && ParseValue(PrintString(x) + t) == Done(Str(x), t)
  {
    hide ParseNat, ParseString, Escaped;
    var s := PrintString(x) + t;
    assert s[1..] == Escaped(x) + "\"" + t;
    StringBack(x, t);
  }

  lemma {:induction false} NumberBack(n: nat, t: string)
    requires EndsValue(t) && n <= U64_MAX
    ensures IsDigit(PrintNat(n)[0]) && ParseValue(PrintNat(n) + t) == Done(Num(n), t)
  {
    hide ParseNat, ParseString, PrintNat;
    ParseNatBack(n, t);
    assert Digit.Has(PrintNat(n)[0]);
    assert (PrintNat(n) + t)[0] == PrintNat(n)[0];
  }

  lemma {:induction false} WordsBack(b: bool, t: string)
    ensures ParseValue((if b then "true" else "false") + t) == Done(Bool(b), t)
  {
    hide ParseNat, ParseString;
    LiteralBack(if b then "true" else "false", t);
  }

  lemma {:induction false} NullBack(t: string)
    ensures ParseValue("null" + t) == Done(Null, t)
  {
    hide ParseNat, ParseString;
    LiteralBack("null", t);
  }

  lemma {:induction false} LiteralBack(w: string, t: string)
    ensures w <= w + t && (w + t)[|w|..] == t
    ensures w != "" ==> (w + t)[0] == w[0]
  {
  }

  lemma {:induction false} FieldBack(f: Field, t: string)
    requires EndsValue(t) && Printable(f.value)
    ensures PrintField(f) != "" && PrintField(f)[0] == '"'
    ensures ParseField(PrintField(f) + t) == Done(f, t)
  {
    var u := ":" + (PrintValue(f.value) + t);
    AfterKeyBack(f, t);
    StringBack(f.key, u);
    hide ParseAfterKey, ParseString, PrintValue, Escaped;
    FieldShape(Escaped(f.key), PrintValue(f.value), t);
  }

  lemma {:induction false} FieldShape(e: string, v: string, t: string)
    ensures var s := "\"" + e + "\"" + ":" + v + t;
            s[0] == '"' && s[1..] == e + "\"" + (":" + (v + t))
  {
  }

  lemma {:induction false} AfterKeyBack(f: Field, t: string)
    requires EndsValue(t) && Printable(f.value)
    ensures ParseAfterKey(f.key, ":" + (PrintValue(f.value) + t)) == Done(f, t)
  {
    var w := PrintValue(f.value) + t;
    var u := ":" + w;
    ValueBack(f.value, t);
    hide ParseValue, PrintValue;
    assert u[1..] == w;
    assert w[0] == PrintValue(f.value)[0];
    assert SkipSpace(u) == u && SkipSpace(w) == w && SkipSpace(t) == t;
  }

  lemma {:induction false} RestBack(fs: seq<Field>)
    requires forall i :: 0 <= i < |fs| ==> Printable(fs[i].value)
    ensures EndsValue(PrintRest(fs))
    ensures ParseRest(PrintRest(fs)) == Done(fs, "")
  {
    hide PrintField, ParseField;
    if fs != [] {
      var t := PrintRest(fs[1..]);
      RestBack(fs[1..]);
      FieldBack(fs[0], t);
      assert PrintRest(fs)[1..] == PrintField(fs[0]) + t;
      assert [fs[0]] + fs[1..] == fs;
    }
  }

  /** For every list of fields with arbitrary keys and strings, parsing undoes printing. */
  lemma {:induction false} ObjectBack(fs: seq<Field>)
    requires forall i :: 0 <= i < |fs| ==> Printable(fs[i].value)
    ensures ParseObject(PrintObject(fs)) == Some(fs)
  {
    hide PrintField, ParseField;
    if fs != [] {
      var t := PrintRest(fs[1..]);
      RestBack(fs[1..]);
      FieldBack(fs[0], t);
      assert PrintObject(fs)[1..] == PrintField(fs[0]) + t;
      assert [fs[0]] + fs[1..] == fs;
    } else {
      assert "{}"[1..] == "}" && "}"[1..] == "";
    }
  }

  // ----- printed objects stay on one line

  lemma {:induction false} EscapedOneLine(s: string)
    ensures OneLine(Escaped(s))
  {
    if s != "" {
      EscapedOneLine(s[1..]);
      var c := s[0] as int;
      if c < 32 {
        HexBack(c / 16);
        HexBack(c % 16);
      }
    }
  }

  lemma {:induction false} FieldOneLine(f: Field)
    ensures OneLine(PrintField(f))
  {
    EscapedOneLine(f.key);
    match f.value
    case Str(s) => EscapedOneLine(s);
    case Num(n) =>
      assert forall i :: 0 <= i < |PrintNat(n)| ==> Digit.Has(PrintNat(n)[i]);
    case Bool(_) =>
    case Null =>
  }

  lemma {:induction false} RestOneLine(fs: seq<Field>)
    ensures OneLine(PrintRest(fs))
  {
    hide PrintField;
    if fs != [] {
      FieldOneLine(fs[0]);
      RestOneLine(fs[1..]);
    }
  }

  /** Whatever the strings hold, a printed object has no newline. */
  lemma {:induction false} ObjectOneLine(fs: seq<Field>)
    ensures OneLine(PrintObject(fs))
  {
    hide PrintField;
    if fs != [] {
      FieldOneLine(fs[0]);
      RestOneLine(fs[1..]);
    }
  }
}
