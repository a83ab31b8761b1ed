# A model of anonymous crash reporting, verified in Dafny

The system sanitizes crash reports on the device, minimizes native minidumps in
place, spools what it may send, and delivers padded envelopes over an anonymous
transport; crashes of the same code path share a low-entropy signature. This
project models that logic and proves what it is for. `dafny verify dfyconfig.toml`
checks everything.

The modules follow the crates:

- **Text sanitizer** (`sanitize.rs`, `redact.rs`): `Text`, `Bytes` and `Utf8` give
  Rust strings their characters, classes and bytes. `Marking` states the one shape
  all scanners share: the output keeps stretches of the input in order, with
  `<...>` markers in between. `Replacing`, `Tokens`, `Paths` and `FreeText` are the
  scanners, `Names` says which names the path stages can bring to light, `Sanitize`
  is the chain, and `Leaks` and `Caps` are what the chain guarantees.
  The detectors of personal data are one arbitrary predicate, so the theorems hold
  for every detector. Scanners that move a byte cursor have a character-level
  definition, and a byte-level method proved to compute its UTF-8 form.
- **Minidump minimizer** (`scrub.rs`, `monitor.rs`): `Minidump` holds the in-place
  methods on a byte array and the function each computes; `MinidumpLaws`,
  `MinidumpEffect` and `MinidumpTwice` prove what that function does; `Monitor` is
  the handler that reads, scrubs, deletes and spools under arbitrary faults.
- **Envelope and padding** (`envelope.rs`, `hygiene.rs`): `Json` writes and reads the
  header lines character by character, `Decimal` counts digits, `Envelope` is the
  wire format, `JsonText` and `EnvelopeText` are the grammars of what the parsers
  take, and `Hygiene` is the padding whose header length depends on the padding.
- **Spool, retry and drain** (`spool.rs`, `config.rs`, `http.rs`, `transport.rs`):
  `Spool` is the budgeted directory, `Retry` the delays (in nanoseconds) and the
  attempts, `Http` the response reader, and `Drain` the worker as a state machine
  whose steps interleave with the application's and the network's.
- **Normalizers** (`signature.rs`, `quasi.rs`): `Signature` and `Quasi`.

A loop of the source is a method proved to compute a specification function; the
theorems are lemmas about those functions.

Where the source does less than its documentation or tests say, the model keeps the
code and a lemma gives the exact condition or a concrete input: the jitter may exceed its upper bound by
less than a millisecond (`JitterWithinBoundsIff`), backoffs can shrink through
truncation (`BackoffMonotoneIff`), padding misses its bucket by one byte at certain
gaps (`LargestLands`, `PadBytes`), the field cap yields to its own marker
(`CapHolds`), a home path that a marker overlaps can be completed by it
(`BracketHomeCompleted`), a `<tmp>` anchor can leave a user name standing alone
(`AnchorExposesUser`, and exactly when: `AnchorExposesIff`, `NamesGoneIff`), a line
with an `@` passes the safe-shape allowlist (`SafeShapeIff`, `EmailIsSafeShape`), an announced payload length can overflow an addition
(`CutOffItemRefused`), a bare number followed by a build hash is lost
(`HashIgnoredIff`), and a report that exceeds the budgets on its own is accepted, evicts the whole
spool and is evicted with it (`NewestSurvivesIff`, `OversizeEmptiesSpool`).

## Model

| member | source | states |
|---|---|---|
| `Replacing.ReplaceRemoves` | crates/itasha-report-core/src/sanitize.rs:369-382 | a pattern no marker overlaps (in particular one with a separator and no angle bracket) does not occur in the result of replacing it by a marker, not even across a seam |
| `Replacing.ReplaceLeftmost` | crates/itasha-report-core/src/sanitize.rs:369-382 | the leftmost occurrence is the one replaced and scanning resumes right behind it |
| `Replacing.ReplaceIdle` | crates/itasha-report-core/src/sanitize.rs:369-382 | text without the pattern is unchanged |
| `Marking.RewriteOccurs` | crates/itasha-report-core/src/sanitize.rs:224-248 | whatever a marker-inserting stage outputs, foreign text (overlapped by none of the eight markers) occurring in it occurred in the input |
| `Marking.BracketFreeIsForeign` | crates/itasha-report-core/src/sanitize.rs:224-248 | text with a separator and no angle bracket is foreign |
| `Tokens.ReplaceTokenClean` | crates/itasha-report-core/src/sanitize.rs:386-411 | no occurrence of the token bounded by non-word bytes is left, for every token that starts and ends with a word byte, holds no angle bracket and is not the placeholder's word |
| `Tokens.OnlyStandaloneGo` | crates/itasha-report-core/src/sanitize.rs:386-416 | in characters: no occurrence is left that has neither a letter, a digit nor an underscore beside it, and a text in which every occurrence has one is unchanged |
| `Tokens.ReplaceTokenIdempotent` | crates/itasha-report-core/src/sanitize.rs:386-411 | removing a token twice is removing it once; the fixed points are exactly the texts without a standalone occurrence |
| `Tokens.ReplaceTokenIsWordByWord` | crates/itasha-report-core/src/sanitize.rs:386-411 | for a token of word bytes the cursor scan is the word-by-word replacement: longer identifiers that contain the token are preserved |
| `Tokens.ScanFirst` | crates/itasha-report-core/src/sanitize.rs:394-410 | the first standalone occurrence is replaced whole, everything before it is copied, and the scan goes on right behind it |
| `Tokens.ScanKeepsAway` | crates/itasha-report-core/src/sanitize.rs:224-248 | removing a second token never makes the first one stand alone again |
| `Tokens.ScanAcross` | crates/itasha-report-core/src/sanitize.rs:224-248 | a placeholder already in the text splits the scan of another token in two |
| `Tokens.ReplaceTokenRewrites` | crates/itasha-report-core/src/sanitize.rs:386-411 | the scan keeps stretches of its input in order and puts markers in place of the rest |
| `Tokens.ReplaceTokenBytes` | crates/itasha-report-core/src/sanitize.rs:386-411 | the byte-cursor loop computes the UTF-8 form of the character-level scan; every slice is at a character boundary |
| `Tokens.BoundaryBytes` | crates/itasha-report-core/src/sanitize.rs:396-404 | testing the bytes next to a boundary is testing the characters next to it |
| `Utf8.DecodeEncode` | crates/itasha-report-transport-tor/src/http.rs:122-122 | decoding undoes encoding |
| `Utf8.EncodeDecode` | crates/itasha-report-transport-tor/src/http.rs:122-122 | only well-formed bytes decode: what decodes is the encoding of the result |
| `Paths.DropPathsClean` | crates/itasha-report-core/src/redact.rs:116-181 | after the path drop no absolute path starts at any position of the output |
| `Paths.NoPathLeft` | crates/itasha-report-core/src/redact.rs:116-181 | in characters: no `/` is left that is first or behind one of blank, tab, quotes, `(`, `=`, `:`, `,` and has a path character behind it, no double backslash, and no letter, colon and slash in such a place |
| `Paths.UntouchedIffNoPath` | crates/itasha-report-core/src/redact.rs:116-181 | a text is unchanged exactly when no such start is in it |
| `Paths.PathGoesWhole` | crates/itasha-report-core/src/redact.rs:116-181 | an absolute path gives way to one marker from its start up to the first blank, tab, line end, quote, bracket, comma or semicolon; what stands before it is kept, and the drop starts afresh behind it |
| `Paths.RootsAre` | crates/itasha-report-core/src/redact.rs:54-83 | the recognized roots are exactly the directories given, trimmed, and their forward-slash forms: home as `<home>`, temporary as `<tmp>`, cache and configuration as `<cache>` |
| `Paths.DropPathsIdempotent` | crates/itasha-report-core/src/redact.rs:116-132 | the path drop reaches its fixpoint in one pass; its fixed points are exactly the texts in which no path starts |
| `Paths.DropRewrites` | crates/itasha-report-core/src/redact.rs:116-132 | text outside the dropped runs is preserved in order, each run gives way to one marker |
| `Paths.DropPathsBytes` | crates/itasha-report-core/src/redact.rs:116-132 | the byte loop computes the UTF-8 form of the character-level pass, slicing only at character boundaries |
| `Paths.RunLengthBytes` | crates/itasha-report-core/src/redact.rs:135-181 | the byte-level start test and run extension find the same run as the character-level definition, which `PathAtIs` pins in characters |
| `Paths.ExtendRun` | crates/itasha-report-core/src/redact.rs:177-180 | the run ends at the first byte that cannot be part of a path |
| `Paths.NestedRootFirst` | crates/itasha-report-core/src/redact.rs:54-83 | a root nested under another one is tried before it |
| `Paths.SortKeeps` | crates/itasha-report-core/src/redact.rs:54-83 | sorting the roots loses none and invents none |
| `Paths.AnchorRootsRemoves` | crates/itasha-report-core/src/redact.rs:93-104 | no registered root that is foreign text is left once every root was anchored, whatever the order and the other roots |
| `Paths.AnchorPathsOccurs` | crates/itasha-report-core/src/redact.rs:93-104 | anchoring and dropping create no foreign text |
| `Paths.AnchorPathsLoop` | crates/itasha-report-core/src/redact.rs:93-104 | the loop over the roots computes the anchoring |
| `FreeText.SplitLossless` | crates/itasha-report-core/src/redact.rs:230-250 | the pieces concatenate to the input |
| `FreeText.SplitAlternates` | crates/itasha-report-core/src/redact.rs:230-250 | the pieces are non-empty and alternate between whitespace and ink, so they are the maximal runs |
| `FreeText.SplitKeepWsLoop` | crates/itasha-report-core/src/redact.rs:230-250 | the loop computes those pieces |
| `FreeText.CollapseNoClusters` | crates/itasha-report-core/src/redact.rs:439-462 | between any two remaining markers stands a character that does not join them |
| `FreeText.CollapseIdempotent` | crates/itasha-report-core/src/redact.rs:439-462 | collapsing twice is collapsing once; the fixed points are exactly the texts without a cluster |
| `FreeText.ClusterCountHidden` | crates/itasha-report-core/src/redact.rs:439-462 | inputs that differ only in how many markers a cluster holds have equal outputs |
| `FreeText.CollapseLoop` | crates/itasha-report-core/src/redact.rs:439-462 | the find-and-skip loop computes the collapse |
| `FreeText.RedactFreeTextIdle` | crates/itasha-report-core/src/redact.rs:212-226 | without a sensitive core or a cluster the text is unchanged, for every detector |
| `FreeText.SecretsDoNotShow` | crates/itasha-report-core/src/redact.rs:212-282 | inputs that differ only in the sensitive cores have equal outputs, for every detector |
| `FreeText.OneTokenRedacted` | crates/itasha-report-core/src/redact.rs:212-282 | one sensitive token in any text gives way to `<redacted>` between its hugging punctuation, and nothing else changes |
| `FreeText.TwoMarkers` | crates/itasha-report-core/src/redact.rs:439-462 | two markers become one exactly when only whitespace and `,;:/-.` stand between them |
| `FreeText.RedactFreeTextOccurs` | crates/itasha-report-core/src/redact.rs:212-226 | redaction creates no foreign text |
| `FreeText.RedactFreeTextLoop` | crates/itasha-report-core/src/redact.rs:212-226 | the loop over the pieces computes the redaction |
| `Leaks.HomeNeverLeaks` | crates/itasha-report-core/src/sanitize.rs:179-188 | for every report and every home path that has a separator, no ellipsis or newline, and that no marker overlaps, neither the path nor its forward-slash form occurs in the title, the body or any metadata key or value; attachments are unchanged |
| `Leaks.BracketFreeHomePath` | crates/itasha-report-core/src/sanitize.rs:179-188 | every path without angle brackets, ellipsis or newline is such a home path |
| `Leaks.BracketHomeCompleted` | crates/itasha-report-core/src/sanitize.rs:224-248 | without the condition on markers that fails: the marker of a dropped path completes the home path `/a<path>` in a text that did not hold it |
| `Leaks.ScrubFieldNoHome` | crates/itasha-report-core/src/sanitize.rs:199-203 | no scrubbed field holds the home path: none of the seven stages re-creates it |
| `Leaks.ScrubBacktraceNoHome` | crates/itasha-report-core/src/sanitize.rs:208-215 | no scrubbed backtrace does either, across line joins and the cap |
| `Leaks.ReportSecretsDoNotShow` | crates/itasha-report-core/src/sanitize.rs:179-275 | reports that after the identity stage differ only in the cores of sensitive tokens, in title, metadata keys and values and the lines that are no stack frames, are sanitized to the same report, for every detector |
| `Leaks.FieldSecretsDoNotShow` | crates/itasha-report-core/src/sanitize.rs:199-203 | two such fields are scrubbed to the same field |
| `Leaks.LineSecretsDoNotShow` | crates/itasha-report-core/src/sanitize.rs:256-275 | two such lines that are no stack frames are scrubbed to the same line |
| `Leaks.FieldIdle` | crates/itasha-report-core/src/sanitize.rs:199-203 | a field without sensitive tokens and clusters, within the cap, only loses identity |
| `Leaks.FieldOneToken` | crates/itasha-report-core/src/sanitize.rs:199-203 | in a field with one sensitive token `<redacted>` takes its place between its punctuation |
| `Leaks.LineIdle` | crates/itasha-report-core/src/sanitize.rs:256-275 | a line of safe shape that is no stack frame and has nothing sensitive only loses identity |
| `Leaks.UnsafeLineGone` | crates/itasha-report-core/src/sanitize.rs:256-275 | a line that is not of safe shape after redaction is the bare marker |
| `Leaks.NoIdentity` | crates/itasha-report-core/src/sanitize.rs:224-248 | without a known identity the identity stage only drops paths |
| `Leaks.FrameLineShows` | crates/itasha-report-core/src/sanitize.rs:345-359 | a line exempt from redaction has a number, a colon and more behind it, and shows letters, digits and eighteen marks only: no `@`, slash, quote or equals sign |
| `Leaks.FrameLineKept` | crates/itasha-report-core/src/sanitize.rs:256-275 | digits, a colon and such a symbol are kept as they are |
| `Leaks.CapOccurs` | crates/itasha-report-core/src/sanitize.rs:419-432 | truncation and its marker cannot assemble a home path |
| `Leaks.ScrubLineSafe` | crates/itasha-report-core/src/sanitize.rs:256-275 | every scrubbed line, kept frame lines and the bare marker included, has a safe shape |
| `Leaks.SafeShapeNoSegment` | crates/itasha-report-core/src/sanitize.rs:302-343 | a line of safe shape holds none of the five home-style segments in any ASCII case |
| `Leaks.ScrubBacktraceSafe` | crates/itasha-report-core/src/sanitize.rs:208-215 | at most `max_lines` lines, each of safe shape before the cap, and no home-style segment in the result |
| `Leaks.SafeShapeIff` | crates/itasha-report-core/src/sanitize.rs:302-359 | a line has a safe shape exactly when it is blank, or holds no home-style segment and does not start with an absolute location: the frame, thread and prose clauses decide nothing |
| `Leaks.EmailIsSafeShape` | crates/itasha-report-core/src/sanitize.rs:299-330 | a line with an e-mail address has a safe shape |
| `Leaks.TokensGone` | crates/itasha-report-core/src/sanitize.rs:224-248 | after host name and user name were removed in turn neither stands alone |
| `Leaks.HostNotShattered` | crates/itasha-report-core/src/sanitize.rs:224-248 | a host name that contains the user name is replaced whole, because it is removed first |
| `Names.ReplaceJoins` | crates/itasha-report-core/src/sanitize.rs:369-382 | replacing joins by the marker the pieces between the leftmost occurrences; joining them by the pattern gives the text back |
| `Names.AnchorExposesIff` | crates/itasha-report-core/src/redact.rs:93-101 | anchoring one root, for every text in which the name is hidden and every root: it stays hidden exactly when no replaced occurrence has the name right behind a word character the root ends with, or right before one it starts with, where the name ends or starts as a word |
| `Names.AnchoringHides` | crates/itasha-report-core/src/redact.rs:93-101 | a name no root exposes at its turn is hidden after all of them |
| `Names.AnchoringIff` | crates/itasha-report-core/src/redact.rs:93-101 | for roots no marker overlaps, exactly: the name is hidden after anchoring when it is hidden in every piece the text falls into when all roots are cut out |
| `Names.DropPathsIff` | crates/itasha-report-core/src/redact.rs:116-132 | a name is hidden after the path drop exactly when it is hidden in every piece kept, and is not the word `path` with something dropped |
| `Names.DropExposesNothing` | crates/itasha-report-core/src/redact.rs:116-181 | the path drop brings no name to light: a name hidden in the text is hidden in every piece kept |
| `Leaks.NamesGone` | crates/itasha-report-core/src/sanitize.rs:224-248 | through the whole identity stage, for every text and every set of roots: host name and user name are hidden in the result if no root exposes them at its turn |
| `Leaks.NamesGoneIff` | crates/itasha-report-core/src/sanitize.rs:224-248 | exactly: a name is hidden in the result when every piece the path drop keeps hides it; with foreign roots and nothing dropped, when the pieces between the roots do |
| `Leaks.AnchorExposesUser` | crates/itasha-report-core/src/sanitize.rs:224-248 | a root that exposes a name: `/tmpada` with temporary directory `/tmp` and user `ada` becomes `<tmp>ada` |
| `Caps.CapHolds` | crates/itasha-report-core/src/sanitize.rs:419-432 | the byte cap is met exactly unless truncation is needed under a cap smaller than the 14-byte marker |
| `Caps.CapKeepsMost` | crates/itasha-report-core/src/sanitize.rs:419-432 | text within the cap is kept; otherwise the longest prefix that leaves room for the marker is, cut between characters |
| `Caps.FieldsCapped` | crates/itasha-report-core/src/sanitize.rs:199-215 | fields and backtraces take at most max(`max_field_bytes`, 14) bytes |
| `Caps.BacktraceLinesCapped` | crates/itasha-report-core/src/sanitize.rs:208-215 | a scrubbed backtrace has at most `max_lines` lines |
| `Caps.CapBytesLoop` | crates/itasha-report-core/src/sanitize.rs:419-432 | backing up to a character boundary, byte by byte, finds that prefix |
| `Caps.StripIdentityRun` | crates/itasha-report-core/src/sanitize.rs:224-248 | the identity stages in the order the crate runs them |
| `Caps.ScrubBacktraceRun` | crates/itasha-report-core/src/sanitize.rs:208-215 | the line loop computes the scrubbed backtrace |
| `Caps.SanitizeRun` | crates/itasha-report-core/src/sanitize.rs:179-188 | the report loop scrubs every surface |
| `Minidump.ScrubInPlace` | crates/itasha-crash-capture/src/scrub.rs:181-257 | for every byte array, without any well-formedness assumption: all accesses are in range, an error leaves the buffer untouched, and success leaves what the specification says |
| `Minidump.CoarsenNameInPlace` | crates/itasha-crash-capture/src/scrub.rs:328-391 | the overlapping forward move and the zero fill compute the name cut |
| `Minidump.ShiftForward` | crates/itasha-crash-capture/src/scrub.rs:378-385 | the unit-by-unit move over itself reads every unit before it is overwritten |
| `Minidump.CoarsenModuleListInPlace` | crates/itasha-crash-capture/src/scrub.rs:271-319 | the record loop, bounded by the buffer's length, zeroes and cuts record after record |
| `Minidump.BaseStart` | crates/itasha-crash-capture/src/scrub.rs:352-363 | the scan finds the unit behind the last 0x2F or 0x5C with high byte 0 |
| `MinidumpLaws.ScrubForwardOnly` | crates/itasha-crash-capture/src/scrub.rs:181-391 | on success every output byte at offset p is zero or equals the input byte at some offset q with q >= p |
| `MinidumpLaws.NameBecomesBasename` | crates/itasha-crash-capture/src/scrub.rs:328-391 | a well-formed name becomes the units after its last `/` (0x2F) or `\` (0x5C) followed by zeros, and no such unit is left in it; the length prefix and all bytes outside are unchanged |
| `MinidumpLaws.NameIdempotent` | crates/itasha-crash-capture/src/scrub.rs:328-391 | cutting a name twice is cutting it once, for every buffer and offset |
| `MinidumpEffect.ScrubExact` | crates/itasha-crash-capture/src/scrub.rs:181-257 | on a dump whose declared stretches keep out of each other's way the scrub has exactly the planned effect, and reports the planned counts, saturated |
| `MinidumpTwice.HeaderIs` | crates/itasha-crash-capture/src/scrub.rs:181-208 | in bytes: fewer than 32 are too few, the first four must be `MDMP`, and a directory past the end is refused; nothing else is |
| `MinidumpTwice.ScrubInDumpTerms` | crates/itasha-crash-capture/src/scrub.rs:133-391 | in numbers: for the eleven erased stream types the directory slot and the payload in bounds are zero; every record of a type 4 stream, 108 bytes each, has zeros at 12 to 20 and its basename; and no byte that no entry lays claim to changes |
| `MinidumpTwice.CountsExact` | crates/itasha-crash-capture/src/scrub.rs:181-257 | for every dump with a readable header, overlapping or not: the number of dropped streams is the number of identifying entries, without saturation, and the number of zeroed bytes is the saturated sum of their payload sizes in bounds |
| `MinidumpTwice.ScrubTwice` | crates/itasha-crash-capture/src/scrub.rs:181-257 | scrubbing again changes no byte and drops no stream |
| `Monitor.MonitorHandler.MinimizeDeleteAndSpool` | crates/itasha-crash-capture/src/monitor.rs:138-198 | one outcome is recorded; the spool gains the scrubbed bytes only if reading, scrubbing and deleting all succeeded, and only after the deletion; a spool that saves and then fails still holds them |
| `Monitor.MonitorHandler.OnMinidumpCreated` | crates/itasha-crash-capture/src/monitor.rs:213-223 | one callback is one step of the run |
| `Monitor.MonitorHandler.TakeOutcomes` | crates/itasha-crash-capture/src/monitor.rs:110-113 | hands over all outcomes in order and leaves none |
| `Monitor.RunIsFailClosed` | crates/itasha-crash-capture/src/monitor.rs:138-198 | over every run and every combination of faults: one outcome per capture in order, every spooled dump is a successful scrub of a captured one, spooled right after its raw form was deleted, and what is reported as written is in the spool |
| `Monitor.OutcomeIs` | crates/itasha-crash-capture/src/monitor.rs:138-198 | a capture is reported as written exactly when it was scrubbed, deleted and saved, with its scrub's counts, and each failure class exactly for its failures |
| `Monitor.RunLeaves` | crates/itasha-crash-capture/src/monitor.rs:138-223 | a run leaves in the spool exactly the scrubbed bytes of the dumps that were read, scrubbed, deleted and not refused, in order, and a raw file only where its deletion failed |
| `Monitor.SpooledIsMinimized` | crates/itasha-crash-capture/src/monitor.rs:138-198 | whatever reaches the spool is the minimized form of a captured dump: every byte is zero or one the dump holds at or behind its place, and where the dump's stretches keep apart identifying payloads and slots are zero, modules coarsened and the rest untouched |
| `Json.ObjectBack` | crates/itasha-report-core/src/envelope.rs:94-110 | parsing undoes printing, for every list of fields with arbitrary keys and strings (escapes of section 7 of RFC 8259, decimal lengths) |
| `Json.ObjectOneLine` | crates/itasha-report-core/src/envelope.rs:216-239 | a printed header has no newline, whatever its strings hold |
| `Json.ParseNatBack` | crates/itasha-report-core/src/envelope.rs:100-110 | a decimal length is read back as itself, up to `u64` |
| `JsonText.ParseObjectIff` | crates/itasha-report-core/src/envelope.rs:94-110 | the parser takes a text for a flat object exactly when it is a way to write that object: blanks around every part, any escape, hexadecimal digits of either case, surrogate pairs, numbers without leading zeros up to `u64` (sections 2 to 7 of RFC 8259) |
| `Envelope.ToBytesRun` | crates/itasha-report-core/src/envelope.rs:216-239 | the serializing loop computes the wire format |
| `Envelope.FromBytesRun` | crates/itasha-report-core/src/envelope.rs:242-287 | the parsing loop ends on every input, never reads past the end, and computes the parser's specification |
| `Envelope.RoundTrip` | crates/itasha-report-core/src/envelope.rs:216-287 | `from_bytes(to_bytes(e))` is `e`, for arbitrary payload bytes and header strings |
| `Envelope.ItemHeaderText` | crates/itasha-report-core/src/envelope.rs:94-110 | an item's header on the wire, in characters: type, length, then attachment type, file name and content type where given |
| `Envelope.EnvelopeHeaderText` | crates/itasha-report-core/src/envelope.rs:216-239 | the envelope's header on the wire, in characters |
| `Envelope.WireIs` | crates/itasha-report-core/src/envelope.rs:216-239 | each further item is its header, a newline, its payload and a newline at the end of the wire |
| `EnvelopeText.ItemHeaderIff` | crates/itasha-report-core/src/envelope.rs:94-110 | a header object announces an item exactly when type and length are given once, the other three once, as null or not at all; other keys do not matter |
| `EnvelopeText.ItemIff` | crates/itasha-report-core/src/envelope.rs:252-282 | an item is read exactly where a header line, the announced bytes and, if there, a newline stand |
| `EnvelopeText.FromBytesIff` | crates/itasha-report-core/src/envelope.rs:242-287 | the parser returns an envelope exactly when the bytes are a header line and such items up to their end |
| `EnvelopeText.SealedIs` | crates/itasha-report-core/src/envelope.rs:185-194 | a sealed envelope has one item, the attachment `report.age` with the ciphertext as its payload |
| `EnvelopeText.FirstSealedTaken` | crates/itasha-report-core/src/envelope.rs:204-212 | the payload of the first attachment of type `application/age-encrypted` is taken, and nothing if there is none |
| `Envelope.LastNewlineOptional` | crates/itasha-report-core/src/envelope.rs:279-281 | the parser accepts more than the printer emits: the very last newline may be missing |
| `Envelope.ItemsThen` | crates/itasha-report-core/src/envelope.rs:252-282 | whatever follows the items on the wire is parsed from exactly where they end |
| `Envelope.CutOffItemRefused` | crates/itasha-report-core/src/envelope.rs:260-268 | an item cut off behind its header is refused as malformed, or, exactly when the announced end exceeds `usize`, runs into the overflowing addition |
| `Envelope.SealedPayloadUnaffected` | crates/itasha-report-core/src/envelope.rs:204-212 | items that are no sealed attachment do not change which payload is found |
| `Envelope.SealedSurvives` | crates/itasha-report-core/src/envelope.rs:185-212 | a sealed report that travels with further items yields its ciphertext at the other end |
| `Decimal.DecimalDigits` | crates/itasha-report-transport-tor/src/hygiene.rs:85-95 | the division loop counts the decimal digits |
| `Decimal.DigitsNext` | crates/itasha-report-transport-tor/src/hygiene.rs:85-95 | counting up, a digit is gained exactly on reaching a power of ten |
| `Hygiene.FitBudget` | crates/itasha-report-transport-tor/src/hygiene.rs:62-79 | the four refinement steps and the clamp find the largest length L with digits(L) + L within the budget |
| `Hygiene.PadRandomLen` | crates/itasha-report-transport-tor/src/hygiene.rs:48-81 | a padding length is given exactly when the gap is at least the framing: 0 when it is equal, else the largest fitting one |
| `Hygiene.LargestLands` | crates/itasha-report-transport-tor/src/hygiene.rs:48-81 | that length fills the gap, except one byte short exactly when gap minus framing is 10^k + k for some k >= 1 |
| `Hygiene.HeaderLenIsWireLen` | crates/itasha-report-transport-tor/src/hygiene.rs:123-140 | the header measured through a sorted map is as long as the one on the wire |
| `Hygiene.PadItemLen` | crates/itasha-report-transport-tor/src/hygiene.rs:104-118 | a padding item takes the fixed framing, its length's digits and its payload |
| `Hygiene.PadOverheadIs93` | crates/itasha-report-transport-tor/src/hygiene.rs:104-118 | the framing is 93 bytes, computed from the printed header |
| `Hygiene.PadBytes` | crates/itasha-report-transport-tor/src/hygiene.rs:158-202 | the least bucket that is the size itself or at least 93 bytes above it is the target, whatever their order; the result lands on it, one byte over when the gap is all framing, one short at 10^k + k; without such a bucket the bytes are unchanged |
| `Hygiene.PaddedParses` | crates/itasha-report-transport-tor/src/hygiene.rs:190-202 | a padded envelope parses to the original items and one attachment named `_pad` of type `application/octet-stream`, and yields the same sealed payload |
| `Spool.NamesSortByTime` | crates/itasha-report-core/src/spool.rs:194-206 | file names sort as (time, counter), for every `u128` time and every counter below 10^12 |
| `Decimal.PaddedOrder` | crates/itasha-report-core/src/spool.rs:194-206 | zero-padded numerals of one width sort as the numbers they spell |
| `Spool.Spool.List` | crates/itasha-report-core/src/spool.rs:129-142 | the report files of the directory, ascending by name, whatever order they are found in |
| `Spool.ListedIff` | crates/itasha-report-core/src/spool.rs:129-142 | a file is listed exactly when its name starts with `report-` and ends with `.json` |
| `Spool.Spool.EnforceBudget` | crates/itasha-report-core/src/spool.rs:171-188 | the two eviction loops, with removals that may fail; a file that could not be removed still counts as gone |
| `Spool.Spool.Enqueue` | crates/itasha-report-core/src/spool.rs:108-126 | before the rename the listed reports are untouched, whatever fails; after it the budgets are enforced on old and new together |
| `Spool.EnforcedIsLongestSuffix` | crates/itasha-report-core/src/spool.rs:171-188 | with removals succeeding the spool is exactly the longest suffix, in list order, that meets both budgets; no other file is touched |
| `Spool.EnqueueKeepsNewest` | crates/itasha-report-core/src/spool.rs:108-188 | with a clock past every earlier stamp that is the longest suffix of the old reports followed by the new one |
| `Spool.NewestSurvivesIff` | crates/itasha-report-core/src/spool.rs:108-188 | the report just enqueued is still spooled exactly when the count budget admits one report and the byte budget admits this one; otherwise nothing is left |
| `Spool.OversizeEmptiesSpool` | crates/itasha-report-core/src/spool.rs:171-188 | a report larger than the byte budget evicts everything, itself included |
| `Spool.EnforceOnce` | crates/itasha-report-core/src/spool.rs:108-188 | enforcing the budgets before a later report comes makes no difference to what is left after it |
| `Spool.RunIsEnforcedAtEnd` | crates/itasha-report-core/src/spool.rs:108-188 | evicting after every arrival of a run leaves what evicting once at its end would leave |
| `Spool.RunKeepsLatest` | crates/itasha-report-core/src/spool.rs:108-188 | over whole runs the spool is exactly the longest suffix, meeting both budgets, of everything it ever held and received, in arrival order |
| `Retry.JitterWithinMillisecond` | crates/itasha-report-transport-tor/src/hygiene.rs:230-240 | the delay is at least the lower bound and less than a millisecond above the upper one |
| `Retry.JitterWithinBoundsIff` | crates/itasha-report-transport-tor/src/hygiene.rs:230-240 | it never exceeds the upper bound exactly when the lower bound has no larger sub-millisecond part (or nothing is drawn, or the draw is capped) |
| `Retry.JitterMayOverrun` | crates/itasha-report-transport-tor/src/hygiene.rs:230-240 | bounds of 0.9 and 1.1 milliseconds can delay by 1.9 |
| `Retry.BackoffCapped` | crates/itasha-report-transport-tor/src/config.rs:92-105 | no backoff exceeds `max_backoff` |
| `Retry.BackoffFormula` | crates/itasha-report-transport-tor/src/config.rs:92-105 | for whole milliseconds attempt n waits min(max, base * 2^min(n-1,32)), exactly when that is within `u64` milliseconds or n is 1 |
| `Retry.BackoffMonotoneIff` | crates/itasha-report-transport-tor/src/config.rs:92-105 | backoffs never get shorter exactly for policies that lose nothing to truncation after the first attempt |
| `Retry.Transmit` | crates/itasha-report-transport-tor/src/transport.rs:199-243 | one attempt takes at most two timeouts, and is answered exactly if both its phases succeeded in time |
| `Retry.ClassifyTransmit` | crates/itasha-report-transport-tor/src/transport.rs:115-121 | sent exactly for a 2xx, unreachable exactly when there was no answer |
| `Retry.TransmitWithRetry` | crates/itasha-report-transport-tor/src/transport.rs:336-374 | every attempt before the last had no answer or a refusal outside 400 to 499; the last was accepted or refused with 400 to 499, unless it is number max(1, max_attempts); its result is returned; the time is exactly the jitter, the attempts and the backoffs between them, and at most jitter + 2N timeouts + (N-1) maximal backoffs |
| `Retry.SpentAtMost` | crates/itasha-report-transport-tor/src/transport.rs:336-374 | k attempts and the backoffs between them never exceed the bound for N |
| `Drain.AlwaysInv` | crates/itasha-report-transport-tor/src/transport.rs:258-321 | the invariant holds in every state any interleaving of worker, application and network can reach |
| `Drain.ExactlyOnePlace` | crates/itasha-report-transport-tor/src/transport.rs:258-321 | every report enqueued is in exactly one of: on disk, delivered, dropped, evicted; at most one 2xx is seen for it, and it is not sent again after one |
| `Drain.LeavesOnlyBy` | crates/itasha-report-transport-tor/src/transport.rs:278-308 | a file leaves the spool only after its 2xx, after a load or build failure, or by eviction |
| `Drain.FatesAreFinal` | crates/itasha-report-transport-tor/src/transport.rs:258-321 | however a run goes on, no report leaves the delivered, dropped or evicted ones, and no 2xx is un-seen |
| `Drain.TallyAddsUp` | crates/itasha-report-transport-tor/src/transport.rs:74-90 | retained is the sum of its two classes, and sent + retained + dropped is the number of snapshot entries processed |
| `Drain.EvictedBeforeLoad` | crates/itasha-report-transport-tor/src/transport.rs:280-287 | an entry evicted between the snapshot and its turn cannot be loaded and is counted as dropped |
| `Drain.TallyCounts` | crates/itasha-report-transport-tor/src/transport.rs:74-90 | each counter of a pass is the number of entries disposed of in its way |
| `Drain.Worker.DrainSpool` | crates/itasha-report-transport-tor/src/transport.rs:258-321 | one pass, with the application acting between any two steps: each entry processed is settled by the class of its last answer, or dropped if it was evicted, unreadable or unbuildable, and the report counts exactly that; entries are left over only when the budget is used up, and the pass ends within the budget plus one report |
| `Drain.Worker.Process` | crates/itasha-report-transport-tor/src/transport.rs:278-317 | one entry: dropped exactly when its file is gone, unreadable or unbuildable, else settled by its last answer; nothing else is disposed of |
| `Drain.Worker.GiveUp` | crates/itasha-report-transport-tor/src/transport.rs:282-302 | an entry that cannot be loaded or built loses its file and is counted as dropped |
| `Drain.Worker.Deliver` | crates/itasha-report-transport-tor/src/transport.rs:304-317 | one report is settled by the class of the answer its retries end with: its file goes exactly on a 2xx, which is seen once; the time is exactly the jitter, the attempts and the backoffs |
| `Http.PostEnvelope` | crates/itasha-report-transport-tor/src/http.rs:65-113 | the read loop computes the outcome for whatever reads the stream answers with |
| `Http.ReadsDoNotMatter` | crates/itasha-report-transport-tor/src/http.rs:91-107 | if the first line ends within 65536 bytes, or the stream ends by then, the outcome is that of the first line however the response was cut into reads |
| `Http.EarlyBreakFails` | crates/itasha-report-transport-tor/src/http.rs:65-113 | a stream that breaks before the line end, with less than 64 KiB delivered, is a read failure; a failed write is a write failure |
| `Http.FullBufferDecides` | crates/itasha-report-transport-tor/src/http.rs:91-107 | with 64 KiB and no line end the reading stops and decides, whatever the stream does after that |
| `Http.StatusTextIs` | crates/itasha-report-transport-tor/src/http.rs:118-133 | a status line of one word, or whose first word does not start with `HTTP/`, is refused; else its second word decides |
| `Http.ParseU16Is` | crates/itasha-report-transport-tor/src/http.rs:129-132 | a number in decimal digits, with or without a plus sign, is the code if it is at most 65535, and refused above |
| `Http.NotANumber` | crates/itasha-report-transport-tor/src/http.rs:129-132 | a word with any other character in it is refused |
| `Http.StatusLineDecides` | crates/itasha-report-transport-tor/src/http.rs:108-133 | a status line is accepted exactly for the codes 200 to 299, whatever the reason phrase and whatever follows the line (section 4 of RFC 9112) |
| `Signature.NormalizedIsName` | crates/itasha-report-aggregate/src/signature.rs:69-122 | every result is non-empty and holds no whitespace, `/`, backslash, `<`, `>` or `+`, no colon before a digit and no `::{{closure}}`, and is neither a drive path nor a hexadecimal address |
| `Signature.SymbolIff` | crates/itasha-report-aggregate/src/signature.rs:69-141 | a text is left alone exactly when it is such a name, has no ordinal in front and passes the final stages |
| `Signature.PlainPathIsSymbol` | crates/itasha-report-aggregate/src/signature.rs:69-122 | plain symbol paths are left alone |
| `Signature.HashIgnoredIff` | crates/itasha-report-aggregate/src/signature.rs:125-197 | a build hash behind a symbol changes nothing exactly when the symbol is not a bare number |
| `Signature.LocationIgnored` | crates/itasha-report-aggregate/src/signature.rs:69-122 | a source location behind a symbol, with or without a build hash before it, changes nothing |
| `Signature.SamePathSameSignature` | crates/itasha-report-aggregate/src/signature.rs:47-216 | machines that print the same symbols with different ordinals, generic arguments, hashes, closures, offsets, lines and locations have the same signature |
| `Signature.PrintsNormalizes` | crates/itasha-report-aggregate/src/signature.rs:69-216 | a symbol is found again behind an ordinal, with any balanced generic arguments in it, in front of a build hash, a closure, an offset or a line, and in front of ` at ` or ` @ ` and a location |
| `Signature.GroupDropped` | crates/itasha-report-aggregate/src/signature.rs:144-156 | a balanced angle group is dropped with all it holds, nested groups included; what stands before it is kept, and stripping goes on behind it |
| `Signature.GenericsIgnored` | crates/itasha-report-aggregate/src/signature.rs:69-156 | generic arguments in a symbol change nothing |
| `Signature.AddressSkipped` | crates/itasha-report-aggregate/src/signature.rs:69-122 | an address or offset in front of a symbol, `0x` or `0X` with any pluses before it, changes nothing |
| `Signature.OrdinalIff` | crates/itasha-report-aggregate/src/signature.rs:124-142 | exactly digits and a colon, or a hash, blanks and digits, and the blanks behind them, are taken off as an ordinal; anything else stays |
| `Signature.CutAtOffsetOrLine` | crates/itasha-report-aggregate/src/signature.rs:200-216 | what is kept ends at the first plus sign or at the first colon with a digit behind it, if that comes first |
| `Signature.DeepFramesIgnored` | crates/itasha-report-aggregate/src/signature.rs:47-59 | frames beyond the first eight surviving names have no say |
| `Signature.NamelessFramesIgnored` | crates/itasha-report-aggregate/src/signature.rs:47-59 | frames without a symbol have no say, wherever they stand |
| `Signature.SignatureIffTop` | crates/itasha-report-aggregate/src/signature.rs:47-59 | with a collision-free hash, signatures agree exactly when the first eight surviving names do |
| `Signature.StripClosuresLoop` | crates/itasha-report-aggregate/src/signature.rs:182-187 | cutting at the last closure marker until none is left cuts at the first |
| `Signature.StripAngleGroupsLoop` | crates/itasha-report-aggregate/src/signature.rs:144-156 | the depth loop computes the text outside the groups |
| `Signature.StripOffsetAndLineLoop` | crates/itasha-report-aggregate/src/signature.rs:200-216 | the index loop finds the first colon before a digit |
| `Signature.NormalizeFrameRun` | crates/itasha-report-aggregate/src/signature.rs:69-122 | the stages and the token loop compute the normalization |
| `Signature.CrashSignatureRun` | crates/itasha-report-aggregate/src/signature.rs:47-59 | the loop over the frames computes the signature |
| `Quasi.VersionIdempotent` | crates/itasha-report-core/src/quasi.rs:126-143 | coarsening a version twice is coarsening it once |
| `Quasi.VersionHidesDetail` | crates/itasha-report-core/src/quasi.rs:126-143 | patch level, pre-release and build metadata do not reach the coarse version, nor do blanks and a `v` in front |
| `Quasi.VersionShape` | crates/itasha-report-core/src/quasi.rs:126-143 | every coarse version is two numbers with a dot between them |
| `Quasi.MinorMissing` | crates/itasha-report-core/src/quasi.rs:126-143 | a version without a second number gets 0 for it |
| `Quasi.VersionRefused` | crates/itasha-report-core/src/quasi.rs:126-143 | what does not start with a number or a `v` is no version |
| `Quasi.OsIdempotent` | crates/itasha-report-core/src/quasi.rs:153-198 | coarsening an OS string twice is coarsening it once, through split and join |
| `Quasi.OsKeepsPlatformAndVersion` | crates/itasha-report-core/src/quasi.rs:153-182 | the leading platform words and the coarse form of one version token are kept, nothing behind it is |
| `Quasi.OsTokenKeepsTwo` | crates/itasha-report-core/src/quasi.rs:186-198 | of a dotted version token the first two numbers are kept |
| `Quasi.OsStringCoarsened` | crates/itasha-report-core/src/quasi.rs:153-182 | a whole OS string of platform words, a version token and more is coarsened to the words and the coarse token |
| `Quasi.OsShape` | crates/itasha-report-core/src/quasi.rs:153-198 | every coarse OS string is words that start with a letter, and at most one number, or two with a dot, at the end |
| `Quasi.LocaleIdempotent` | crates/itasha-report-core/src/quasi.rs:204-216 | coarsening a locale twice is coarsening it once |
| `Quasi.LocaleHidesRegion` | crates/itasha-report-core/src/quasi.rs:204-216 | the language subtag is kept in lower case, region, script and encoding are not |
| `Quasi.LocaleShape` | crates/itasha-report-core/src/quasi.rs:204-216 | every coarse locale is lower-case letters |
| `Quasi.SafeFieldsShape` | crates/itasha-report-core/src/quasi.rs:98-113 | at most one pair for each allowed key, in allowlist order, and nothing else |
| `Quasi.FirstKeyDecides` | crates/itasha-report-core/src/quasi.rs:98-113 | the value of `app_version`, `os` and `locale` is the coarse form of the first value whose key matches in any letter case |
| `Quasi.NoKeyNoField` | crates/itasha-report-core/src/quasi.rs:98-113 | a field whose key is not given is left out |
| `Quasi.SafeFieldsIdempotent` | crates/itasha-report-core/src/quasi.rs:98-113 | what has passed the allowlist passes it unchanged |
| `Quasi.NonInterference` | crates/itasha-report-core/src/quasi.rs:98-113 | inserting, deleting or changing a pair whose key is not allowed, or that duplicates an earlier key, changes nothing |
| `Quasi.CoarsenOsRun` | crates/itasha-report-core/src/quasi.rs:153-182 | the token loop computes the coarse OS string |
| `Quasi.SafeFieldsRun` | crates/itasha-report-core/src/quasi.rs:98-113 | the allowlist loop computes the safe fields |

## Left out

- Encryption of sealed reports, the STAR aggregation and the BLAKE3 digest: library code; the digest is a function parameter, taken to be injective only where a lemma says so.
- The individual detectors of personal data and the entropy score: one arbitrary predicate on tokens.
- Non-ASCII alphanumerics in frame lines: `char::is_alphanumeric` beyond ASCII is an arbitrary predicate.
- Native capture, the crash-reporting process and its messages, the live Tor connector: foreign calls.
- The HTTPS backend, the browser intake and percent-encoding: network and user-interface plumbing.
- Consent tokens, nonces and event ids: nothing to prove over runs.
- Real files, locks, clocks and randomness: a directory is a map, removals, writes and reads succeed or fail as parameters say, time is a number, random draws are parameters. Reading the directory or a file's size is taken to succeed.
- Crashes and cancellation of the drain worker between a 2xx and the removal of its file, and a second worker on the same spool: one worker runs each pass to its end.
- The step of `send` that refuses oversize reports before they are enqueued, and the report's own JSON inside the event item.
- Header lines that hold nested arrays or objects, fractional or negative numbers, or that are themselves arrays: the model's parser refuses them, the library's accepts some of them, and malformed UTF-8, in positions it ignores.
- `target_bucket` and `is_explicitly_dropped`: nothing in the delivery path calls them.
- The request headers written before the body, the Display texts of errors, log lines and configuration setters.
- 32-bit `usize`: 64 bits are assumed throughout; the addition that can overflow in the parser is a separate outcome.
- Durations near the end of their range: sums of delays are unbounded numbers.
- Leaks.HomeNeverLeaks: assumes the home path has a separator, no ellipsis or newline, and that no marker overlaps it, because a marker can complete a path it overlaps (`BracketHomeCompleted`); which overlapped paths can never be completed is not characterized.
- Leaks.NamesGone: sufficient for every set of roots; the exact form, `NamesGoneIff`, looks at the text after anchoring where paths are dropped, because a dropped path can take an exposed name with it.
- MinidumpEffect.ScrubExact: assumes no planned change lies where the scrub reads structure and no two overlap except alike, because otherwise a later step reads what an earlier one wrote; `ScrubInPlace` and `ScrubForwardOnly` assume nothing.
- Drain.ExactlyOnePlace: file removals of the worker are taken to succeed unless the file was evicted before.
- Spool.EnforcedIsLongestSuffix: assumes removals succeed; `EnforceBudget` states the result when they do not.
