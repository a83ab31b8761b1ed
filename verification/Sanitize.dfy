/**
 The sanitizer: identity removal, path anchoring, free-text redaction, the
 safe-shape allowlist for backtrace lines, and the size caps.
 */
module Sanitize {
  import opened Text
  import opened Replacing
  import opened Utf8
  import opened Bytes
  import Tokens
  import Paths
  import FreeText

  const HOME_PLACEHOLDER := "<HOME>"
  const USER_PLACEHOLDER := "<USER>"
  const HOST_PLACEHOLDER := "<HOST>"
  const REDACTED_MARKER := "<redacted>"
  const ELLIPSIS := '\U{2026}'
  const TRUNCATED := "[truncated]"

  datatype HostIdentity = HostIdentity(
    home: Option<string>, username: Option<string>, hostname: Option<string>,
    tmp: Option<string>, cache: Option<string>, config: Option<string>)

  datatype SizeCaps = SizeCaps(maxFieldBytes: nat, maxLines: nat)

  /**
   A sanitizer with its identity and caps. The PII detectors and the part of
   `char::is_alphanumeric` beyond ASCII are parameters: nothing depends on them.
   */
  datatype Sanitizer = Sanitizer(
    identity: HostIdentity, caps: SizeCaps,
    isSensitive: FreeText.Detector, isForeignAlnum: char -> bool)
  {
    /** The recognized roots, as `HostIdentity::path_roots` builds them. */
    function Roots(): (rs: seq<Paths.Root>)
      ensures Paths.Anchoring(rs)
    {
      Paths.PathRoots(identity.home, identity.tmp, identity.cache, identity.config)
    }
  }

  datatype Stream = CrashReports | ManualIssues

  datatype Attachment = Attachment(name: string, contentType: string, bytes: seq<Byte>)

  datatype Report = Report(
    stream: Stream, title: string, body: string,
    metadata: seq<(string, string)>, attachments: seq<Attachment>)

  // ----- identity

  function ReplacePathPrefixes(s: string, home: string, mark: string): string {
    if home == "" then s
    else
      var t, alt := Replace(s, home, mark), Paths.ForwardSlashes(home);
      if alt != home then Replace(t, alt, mark) else t
  }

  function StripHome(s: string, id: HostIdentity): string {
    match id.home
    case None => s
    case Some(home) => ReplacePathPrefixes(s, home, HOME_PLACEHOLDER)
  }

  function StripToken(s: string, tok: Option<string>, mark: string): string {
    match tok
    case None => s
    case Some(t) => Tokens.ReplaceToken(s, t, mark)
  }

  /** Home first, then the host name, then the user name it may contain; then paths. */
  function StripIdentity(s: string, z: Sanitizer): string {
    var t := StripHome(s, z.identity);
    var u := StripToken(t, z.identity.hostname, HOST_PLACEHOLDER);
    var v := StripToken(u, z.identity.username, USER_PLACEHOLDER);
    Paths.AnchorPaths(v, z.Roots())
  }

  // ----- the safe-shape allowlist

  const HOME_SEGMENTS := ["/home/", "/users/", "\\users\\", "/root/", "c:\\users"]

  predicate ContainsUnnormalizedHome(line: string) {
    var lower := Lower(line);
    || Contains(lower, "/home/") || Contains(lower, "/users/") || Contains(lower, "\\users\\")
    || Contains(lower, "/root/") || Contains(lower, "c:\\users")
  }

  predicate IsFrameChar(c: char, z: Sanitizer) {
    || IsAlnum(c) || (!IsAscii(c) && z.isForeignAlnum(c))
    || c == '_' || c == ':' || c == '<' || c == '>' || c == '{' || c == '}' || c == '(' || c == ')'
    || c == ',' || c == ' ' || c == '&' || c == '*' || c == '\'' || c == '.' || c == '+' || c == '-'
    || c == '[' || c == ']'
  }

  /** `N: symbol`: digits before the first colon, symbol characters after it. */
  predicate IsFrameSymbolLine(line: string, z: Sanitizer) {
    match Find(line, ":")
    case None => false
    case Some(n) =>
      var idx, rest := Trim(line[..n]), Trim(line[n + 1..]);
      && idx != "" && (forall i :: 0 <= i < |idx| ==> IsDigit(idx[i]))
      && rest != "" && (forall i :: 0 <= i < |rest| ==> IsFrameChar(rest[i], z))
  }

  predicate IsNormalizedLocationLine(line: string) {
    var body := if "at " <= line then line[3..] else line;
    Contains(body, HOME_PLACEHOLDER) || !("/" <= body)
  }

  predicate IsSafeShape(line: string, z: Sanitizer) {
    var trimmed := Trim(line);
    || trimmed == ""
    || (&& !ContainsUnnormalizedHome(trimmed)
        && (|| IsFrameSymbolLine(trimmed, z)
            || IsNormalizedLocationLine(trimmed)
            || ("thread '" <= trimmed && Contains(trimmed, "panicked"))
            || (!Contains(trimmed, "/") && !Contains(trimmed, "\\") && !Contains(trimmed, "@"))))
  }

  // ----- caps

  /** How many leading characters fit into `budget` bytes. */
  function Fit(s: string, budget: nat): (k: nat)
    ensures k <= |s| && |Encode(s[..k])| <= budget
    ensures k < |s| ==> |Encode(s[..k + 1])| > budget
  {
    FitFrom(s, budget, 0)
  }

  function FitFrom(s: string, budget: nat, k: nat): (n: nat)
    requires k <= |s| && |Encode(s[..k])| <= budget
    ensures n <= |s| && |Encode(s[..n])| <= budget
    ensures n < |s| ==> |Encode(s[..n + 1])| > budget
    decreases |s| - k
  {
    if k < |s| && |Encode(s[..k + 1])| <= budget then FitFrom(s, budget, k + 1) else k
  }

  function CapBytes(s: string, max: nat): string {
    if ByteLen(s) <= max then s
    else s[..Fit(s, if max >= 14 then max - 14 else 0)] + [ELLIPSIS] + TRUNCATED
  }

  // ----- fields, lines and reports

  function ScrubField(s: string, z: Sanitizer): string {
    CapBytes(FreeText.RedactFreeText(StripIdentity(s, z), z.isSensitive), z.caps.maxFieldBytes)
  }

  function ScrubLine(line: string, z: Sanitizer): string {
    var stripped := StripIdentity(line, z);
    if IsFrameSymbolLine(Trim(stripped), z) then stripped
    else
      var redacted := FreeText.RedactFreeText(stripped, z.isSensitive);
      if IsSafeShape(redacted, z) then redacted else REDACTED_MARKER
  }

  function ScrubLines(ls: seq<string>, z: Sanitizer): (out: seq<string>)
    ensures |out| == |ls|
    ensures forall i :: 0 <= i < |ls| ==> out[i] == ScrubLine(ls[i], z)
  {
    seq(|ls|, i requires 0 <= i < |ls| => ScrubLine(ls[i], z))
  }

  function Take(ls: seq<string>, n: nat): seq<string> {
    if |ls| <= n then ls else ls[..n]
  }

  function ScrubBacktrace(s: string, z: Sanitizer): string {
    CapBytes(Join(ScrubLines(Take(Lines(s), z.caps.maxLines), z), "\n"), z.caps.maxFieldBytes)
  }

  function ScrubPair(p: (string, string), z: Sanitizer): (string, string) {
    (ScrubField(p.0, z), ScrubField(p.1, z))
  }

  function Sanitized(r: Report, z: Sanitizer): Report {
    r.(title := ScrubField(r.title, z),
       body := ScrubBacktrace(r.body, z),
       metadata := seq(|r.metadata|, i requires 0 <= i < |r.metadata| => ScrubPair(r.metadata[i], z)))
  }
}
