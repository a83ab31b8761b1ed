/**
 UTF-8 (RFC 3629, section 3). Rust strings are UTF-8 bytes, and the scrubbing
 scanners move a byte cursor; this module relates byte positions to characters.
 */
module Utf8 {
  import opened Text
  import opened Bytes

  /** The width a lead byte announces. */
  function Width(lead: Byte): nat {
    if lead < 0x80 then 1 else if lead < 0xE0 then 2 else if lead < 0xF0 then 3 else 4
  }

  predicate IsContinuation(b: Byte) { 0x80 <= b < 0xC0 }

  /** The number one encoded character spells. */
  function Value(bs: seq<Byte>): int
    requires 1 <= |bs| <= 4
  {
    if |bs| == 1 then bs[0]
    else if |bs| == 2 then (bs[0] as int - 0xC0) * 64 + (bs[1] as int - 0x80)
    else if |bs| == 3 then
      (bs[0] as int - 0xE0) * 4096 + (bs[1] as int - 0x80) * 64 + (bs[2] as int - 0x80)
    else
      (bs[0] as int - 0xF0) * 262144 + (bs[1] as int - 0x80) * 4096
      + (bs[2] as int - 0x80) * 64 + (bs[3] as int - 0x80)
  }

  /** The scalar values that take exactly `w` bytes: nothing overlong, no surrogates. */
  predicate InWidth(n: int, w: nat) {
    match w
    case 1 => 0 <= n < 0x80
    case 2 => 0x80 <= n < 0x800
    case 3 => 0x800 <= n < 0xD800 || 0xE000 <= n < 0x10000
    case _ => 0x10000 <= n < 0x110000
  }

  function EncodeChar(c: char): (bs: seq<Byte>)
    ensures 1 <= |bs| <= 4
    ensures IsAscii(c) ==> bs == [c as int]
    ensures !IsAscii(c) ==> forall i :: 0 <= i < |bs| ==> bs[i] >= 0x80
  {
    var n := c as int;
    if n < 0x80 then [n]
    else if n < 0x800 then [0xC0 + n / 64, 0x80 + n % 64]
    else if n < 0x10000 then [0xE0 + n / 4096, 0x80 + n / 64 % 64, 0x80 + n % 64]
    else [0xF0 + n / 262144, 0x80 + n / 4096 % 64, 0x80 + n / 64 % 64, 0x80 + n % 64]
  }

  /** What the bytes of one character look like. */
  lemma {:induction false} EncodedShape(c: char)
    ensures var bs := EncodeChar(c);
            && Width(bs[0]) == |bs|
            && (forall i :: 1 <= i < |bs| ==> IsContinuation(bs[i]))
            && Value(bs) == c as int && InWidth(c as int, |bs|)
  {
    var n := c as int;
    if n >= 0x10000 {
      Recombine(n);
    } else if n >= 0x800 {
      Recombine(n);
    }
  }

  lemma {:induction false} Recombine(n: nat)
    ensures n == n / 4096 * 4096 + n / 64 % 64 * 64 + n % 64
    ensures n == n / 262144 * 262144 + n / 4096 % 64 * 4096 + n / 64 % 64 * 64 + n % 64
  {
    var q := n / 64;
    var p := q / 64;
    assert n == 4096 * p + (64 * (q % 64) + n % 64);
    assert n / 4096 == p;
    assert n == 262144 * (p / 64) + (4096 * (p % 64) + 64 * (q % 64) + n % 64);
    assert n / 262144 == p / 64;
  }

  function Encode(s: string): seq<Byte> {
    if s == "" then [] else EncodeChar(s[0]) + Encode(s[1..])
  }

  /** The length in bytes (`str::len`). */
  function ByteLen(s: string): nat {
    |Encode(s)|
  }

  /** The scalar value at the head of the bytes, if they begin with a well-formed one. */
  function Scalar(bs: seq<Byte>): (r: Option<int>)
    ensures r.Some? ==> 0 <= r.value < 0xD800 || 0xE000 <= r.value < 0x110000
    ensures r.Some? ==> bs != [] && Width(bs[0]) <= |bs|
  {
    if bs == [] then None
    else
      var w := Width(bs[0]);
      if |bs| < w || exists i :: 1 <= i < w && !IsContinuation(bs[i]) then None
      else
        var n := Value(bs[..w]);
        if InWidth(n, w) then Some(n) else None
  }

  /** `std::str::from_utf8`. */
  function Decode(bs: seq<Byte>): Option<string> {
    if bs == [] then Some("")
    else
      match Scalar(bs)
      case None => None
      case Some(n) =>
        match Decode(bs[Width(bs[0])..])
        case None => None
        case Some(rest) => Some([n as char] + rest)
  }

  lemma {:induction false} ScalarOfEncoded(c: char, rest: seq<Byte>)
    ensures Scalar(EncodeChar(c) + rest) == Some(c as int)
    ensures Width((EncodeChar(c) + rest)[0]) == |EncodeChar(c)|
  {
    EncodedShape(c);
    var e := EncodeChar(c);
    var bs := e + rest;
    assert bs[..|e|] == e;
    assert bs[0] == e[0] && forall i :: 1 <= i < |e| ==> bs[i] == e[i];
  }

  /** Decoding undoes encoding. */
  lemma {:induction false} DecodeEncode(s: string)
    ensures Decode(Encode(s)) == Some(s)
  {
    if s != "" {
      var c, rest := EncodeChar(s[0]), Encode(s[1..]);
      ScalarOfEncoded(s[0], rest);
      DecodeEncode(s[1..]);
      DecodeStep(c + rest, |c|);
      assert (c + rest)[|c|..] == rest;
      assert s == [s[0]] + s[1..];
    }
  }

  lemma {:induction false} DecodeStep(bs: seq<Byte>, w: nat)
    requires Scalar(bs).Some? && Width(bs[0]) == w && Decode(bs[w..]).Some?
    ensures Decode(bs) == Some([Scalar(bs).value as char] + Decode(bs[w..]).value)
  {
  }

  /** Only well-formed bytes decode: what decodes is the encoding of the result. */
  lemma {:induction false} EncodeDecode(bs: seq<Byte>)
    requires Decode(bs).Some?
    ensures Encode(Decode(bs).value) == bs
  {
    if bs != [] {
      var w := Width(bs[0]);
      var c := Scalar(bs).value as char;
      DecodeStep(bs, w);
      var rest := Decode(bs[w..]).value;
      EncodeScalar(bs);
      EncodeDecode(bs[w..]);
      EncodeCons(c, rest);
      assert bs == bs[..w] + bs[w..];
    }
  }

  lemma {:induction false} EncodeCons(c: char, rest: string)
    ensures Encode([c] + rest) == EncodeChar(c) + Encode(rest)
  {
    assert ([c] + rest)[1..] == rest;
  }

  lemma {:induction false} EncodeScalar(bs: seq<Byte>)
    requires Scalar(bs).Some?
    ensures EncodeChar(Scalar(bs).value as char) == bs[..Width(bs[0])]
  {
    var w := Width(bs[0]);
    var c := Scalar(bs).value as char;
    EncodedShape(c);
    var e, f := EncodeChar(c), bs[..w];
    assert forall i :: 1 <= i < w ==> IsContinuation(f[i]);
    assert |e| == w && Value(e) == Value(f);
    DigitsAgree(e, f);
  }

  /** Two encoded characters of one width and one value agree digit by digit. */
  lemma {:induction false} DigitsAgree(x: seq<Byte>, y: seq<Byte>)
    requires 1 <= |x| == |y| <= 4 && Value(x) == Value(y)
    requires forall i :: 1 <= i < |x| ==> IsContinuation(x[i]) && IsContinuation(y[i])
    ensures forall i :: 0 <= i < |x| ==> x[i] == y[i]
  {
    if |x| == 2 {
      SameDigits(0, 0, x[0] as int - 0xC0, x[1] as int - 0x80, 0, 0, y[0] as int - 0xC0, y[1] as int - 0x80);
    } else if |x| == 3 {
      SameDigits(0, x[0] as int - 0xE0, x[1] as int - 0x80, x[2] as int - 0x80,
                 0, y[0] as int - 0xE0, y[1] as int - 0x80, y[2] as int - 0x80);
    } else if |x| == 4 {
      SameDigits(x[0] as int - 0xF0, x[1] as int - 0x80, x[2] as int - 0x80, x[3] as int - 0x80,
                 y[0] as int - 0xF0, y[1] as int - 0x80, y[2] as int - 0x80, y[3] as int - 0x80);
    }
  }

  /** Base-64 digits below the leading ones are determined by the number. */
  lemma {:induction false} SameDigits(a: int, b: int, c: int, d: int, a': int, b': int, c': int, d': int)
    requires 0 <= d < 64 && 0 <= d' < 64
    requires (0 <= c < 64 && 0 <= c' < 64) || a == b == a' == b' == 0
    requires (0 <= b < 64 && 0 <= b' < 64) || a == a' == 0
    requires a * 262144 + b * 4096 + c * 64 + d == a' * 262144 + b' * 4096 + c' * 64 + d'
    ensures a == a' && b == b' && c == c' && d == d'
  {
    assert d == d';
    assert a * 4096 + b * 64 + c == a' * 4096 + b' * 64 + c';
  }

  lemma {:induction false} EncodeConcat(s: string, t: string)
    ensures Encode(s + t) == Encode(s) + Encode(t)
  {
    if s == "" {
      assert s + t == t;
    } else {
      assert (s + t)[1..] == s[1..] + t;
      EncodeConcat(s[1..], t);
    }
  }

  /** Splitting the text at character `k` splits the bytes at a character boundary. */
  lemma {:induction false} EncodeSplit(s: string, k: nat)
    requires k <= |s|
    ensures Encode(s) == Encode(s[..k]) + Encode(s[k..])
  {
    EncodeConcat(s[..k], s[k..]);
    assert s == s[..k] + s[k..];
  }

  /** One character further is one encoded character further. */
  lemma {:induction false} EncodeStep(s: string, k: nat)
    requires k < |s|
    ensures Encode(s[..k + 1]) == Encode(s[..k]) + EncodeChar(s[k])
    ensures Encode(s[k..]) == EncodeChar(s[k]) + Encode(s[k + 1..])
  {
    EncodeConcat(s[..k], [s[k]]);
    assert s[..k + 1] == s[..k] + [s[k]];
    assert Encode([s[k]]) == EncodeChar(s[k]);
    assert s[k..][1..] == s[k + 1..];
  }

  /** Encoded text is a byte prefix exactly when the text is a prefix. */
  lemma {:induction false} EncodePrefix(p: string, s: string)
    ensures Encode(p) <= Encode(s) <==> p <= s
  {
    if p <= s {
      EncodeSplit(s, |p|);
      assert s[..|p|] == p;
    } else if s != "" && Encode(p) <= Encode(s) {
      EncodeHeads(p, s);
      EncodePrefix(p[1..], s[1..]);
    }
  }

  /** A common byte prefix starts with the same character and goes on after it. */
  lemma {:induction false} EncodeHeads(p: string, s: string)
    requires p != "" && s != "" && Encode(p) <= Encode(s)
    ensures p[0] == s[0] && Encode(p[1..]) <= Encode(s[1..])
  {
    var c, d := EncodeChar(p[0]), EncodeChar(s[0]);
    assert c[0] == Encode(p)[0] && d[0] == Encode(s)[0];
    ScalarOfEncoded(p[0], []);
    ScalarOfEncoded(s[0], []);
    assert c + [] == c && d + [] == d;
    SamePrefix(c, Encode(p[1..]), d, Encode(s[1..]));
  }

  lemma {:induction false} SamePrefix(a: seq<Byte>, x: seq<Byte>, b: seq<Byte>, y: seq<Byte>)
    requires a + x <= b + y && |a| == |b|
    ensures a == b && x <= y
  {
    assert (a + x)[..|a|] == a && (b + y)[..|a|] == b;
    assert (a + x)[|a|..] == x && (b + y)[|a|..] == y;
  }

  /** One-line text has no newline byte. */
  lemma {:induction false} OneLineBytes(s: string)
    requires OneLine(s)
    ensures forall i :: 0 <= i < |Encode(s)| ==> Encode(s)[i] != 10
  {
    if s != "" {
      OneLineBytes(s[1..]);
      assert s[0] != '\n';
      assert IsAscii(s[0]) ==> EncodeChar(s[0])[0] != 10;
    }
  }

  // ----- byte cursors

  /** Moving a piece from what is still to come to what is already written. */
  lemma {:induction false} Moved(out: seq<Byte>, piece: seq<Byte>, rest: seq<Byte>)
    ensures out + (piece + rest) == (out + piece) + rest
  {
  }

  /** Byte index `i` of the encoded text is the boundary before character `k`. */
  ghost predicate Cursor(bs: seq<Byte>, s: string, i: nat, k: nat) {
    k <= |s| && bs == Encode(s) && i == |Encode(s[..k])|
  }

  lemma {:induction false} CursorTail(bs: seq<Byte>, s: string, i: nat, k: nat)
    requires Cursor(bs, s, i, k)
    ensures i <= |bs| && bs[i..] == Encode(s[k..])
    ensures i == 0 <==> k == 0
    ensures i < |bs| <==> k < |s|
  {
    EncodeSplit(s, k);
  }

  /** One character further: its width is announced by its lead byte. */
  lemma {:induction false} CursorStep(bs: seq<Byte>, s: string, i: nat, k: nat)
    requires Cursor(bs, s, i, k) && k < |s|
    ensures i < |bs| && i + Width(bs[i]) <= |bs|
    ensures bs[i..i + Width(bs[i])] == Encode([s[k]])
    ensures Cursor(bs, s, i + Width(bs[i]), k + 1)
  {
    EncodeSplit(s, k);
    EncodeStep(s, k);
    EncodeSplit(s, k + 1);
    EncodedShape(s[k]);
    assert bs[i] == EncodeChar(s[k])[0];
    assert Encode([s[k]]) == EncodeChar(s[k]);
  }

  /** A stretch of text further. */
  lemma {:induction false} CursorJump(bs: seq<Byte>, s: string, i: nat, k: nat, p: string)
    requires Cursor(bs, s, i, k) && p <= s[k..]
    ensures k + |p| <= |s| && Cursor(bs, s, i + |Encode(p)|, k + |p|)
  {
    assert s[..k + |p|] == s[..k] + p;
    EncodeConcat(s[..k], p);
  }

  /** The byte at a boundary is the first byte of the character there. */
  lemma {:induction false} ByteAt(bs: seq<Byte>, s: string, i: nat, k: nat)
    requires Cursor(bs, s, i, k) && k < |s|
    ensures i < |bs| && bs[i] == EncodeChar(s[k])[0]
  {
    EncodeSplit(s, k);
    EncodeStep(s, k);
  }

  /** The byte before a boundary is the last byte of the character before it. */
  lemma {:induction false} ByteBefore(bs: seq<Byte>, s: string, i: nat, k: nat)
    requires Cursor(bs, s, i, k) && k > 0
    ensures 0 < i <= |bs|
    ensures var c := EncodeChar(s[k - 1]); bs[i - 1] == c[|c| - 1]
  {
    EncodeSplit(s, k);
    EncodeStep(s, k - 1);
  }
}
