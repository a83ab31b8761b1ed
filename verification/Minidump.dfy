/**
 The byte-level minidump minimizer: identifying streams are zeroed and their
 directory entries neutralized, module names are cut to their basename, and the
 machine-specific module fields are zeroed, all in place.
 */
module Minidump {
  import opened Bytes

  const MINIDUMP_SIGNATURE: nat := 0x504d_444d
  const HEADER_SIZE: nat := 32
  const DIRECTORY_ENTRY_SIZE: nat := 12
  const MODULE_ENTRY_SIZE: nat := 108
  const MODULE_CHECKSUM_OFFSET: nat := 12
  const MODULE_NAME_RVA_OFFSET: nat := 20
  const MODULE_LIST_STREAM: nat := 4

  datatype ScrubReport = ScrubReport(streamsDropped: nat, modulesCoarsened: nat, bytesZeroed: nat)

  datatype ScrubError = TooShort | BadSignature | DirectoryOutOfBounds

  datatype Result<+T> = Ok(value: T) | Err(error: ScrubError)

  /** The streams that carry identity and no stack: environment, command line, maps, heap, handles, comments. */
  predicate IsIdentifyingStream(t: nat) {
    || t == 0x4767_0007 || t == 0x4767_0006 || t == 0x4767_0004 || t == 0x4767_0009 || t == 0x4767_0008
    || t == 0x4d7a_0003 || t == 9 || t == 16 || t == 12 || t == 10 || t == 11
  }

  // ----- what each in-place step computes

  function ZeroRange(b: seq<Byte>, lo: nat, hi: nat): (r: seq<Byte>)
    ensures |r| == |b|
    ensures forall p {:trigger r[p]} :: 0 <= p < |b| ==> r[p] == if lo <= p < hi then 0 else b[p]
  {
    seq(|b|, p requires 0 <= p < |b| => if lo <= p < hi then 0 else b[p])
  }

  /** The code units of a name: where they start and how many there are. */
  datatype Name = NoName | Name(lo: nat, units: nat)

  /** A byte length that holds a positive number of whole code units. */
  predicate HoldsUnits(byteLen: nat) {
    byteLen != 0 && byteLen % 2 == 0
  }

  function UnitsIn(byteLen: nat): (n: nat)
    ensures HoldsUnits(byteLen) ==> n > 0 && 2 * n == byteLen
  {
    byteLen / 2
  }

  /** The length-prefixed name at `rva`, if its length is even, non-zero and in bounds. */
  function NameAt(b: seq<Byte>, rva: nat): (r: Name)
    ensures r.Name? ==> r.lo == rva + 4 && r.units > 0 && r.lo + 2 * r.units <= |b|
  {
    if rva + 4 > |b| then NoName
    else
      var byteLen := U32(b, rva);
      if !HoldsUnits(byteLen) || rva + 4 + byteLen > |b| then NoName
      else Name(rva + 4, UnitsIn(byteLen))
  }

  /** The UTF-16LE unit at `p` is `/` or `\`. */
  predicate IsSeparatorUnit(b: seq<Byte>, p: nat)
    requires p + 2 <= |b|
  {
    b[p + 1] == 0 && (b[p] == '/' as int || b[p] == '\\' as int)
  }

  /** The number of leading units up to and including the last `/` (0x2F) or `\` (0x5C) among the first `units`. */
  function BaseStart(b: seq<Byte>, lo: nat, units: nat): (n: nat)
    requires lo + 2 * units <= |b|
    ensures n <= units
    ensures n > 0 ==> b[lo + 2 * n - 1] == 0 && (b[lo + 2 * n - 2] == 0x2F || b[lo + 2 * n - 2] == 0x5C)
    ensures forall i :: n <= i < units ==> b[lo + 2 * i + 1] != 0 || (b[lo + 2 * i] != 0x2F && b[lo + 2 * i] != 0x5C)
  {
    if units == 0 then 0
    else if IsSeparatorUnit(b, lo + 2 * (units - 1)) then units
    else BaseStart(b, lo, units - 1)
  }

  /** Byte `p` of a name once its basename has moved to the front. */
  function NameByte(b: seq<Byte>, lo: nat, units: nat, p: nat): Byte
    requires lo <= p < lo + 2 * units <= |b|
  {
    var src := p + 2 * BaseStart(b, lo, units);
    if src < lo + 2 * units then b[src] else 0
  }

  function CutName(b: seq<Byte>, lo: nat, units: nat): (r: seq<Byte>)
    requires lo + 2 * units <= |b|
    ensures |r| == |b|
    ensures forall p {:trigger r[p]} :: 0 <= p < |b| ==> r[p] == if lo <= p < lo + 2 * units then NameByte(b, lo, units, p) else b[p]
  {
    seq(|b|, p requires 0 <= p < |b| => if lo <= p < lo + 2 * units then NameByte(b, lo, units, p) else b[p])
  }

  function CoarsenName(b: seq<Byte>, rva: nat): (r: seq<Byte>)
    ensures |r| == |b|
  {
    match NameAt(b, rva)
    case NoName => b
    case Name(lo, units) => CutName(b, lo, units)
  }

  function RecordOffset(rva: nat, i: nat): nat {
    rva + 4 + i * MODULE_ENTRY_SIZE
  }

  /** One module record: zero checksum and time stamp, then cut its name to the basename. */
  function CoarsenRecord(b: seq<Byte>, r: nat): (c: seq<Byte>)
    requires r + MODULE_ENTRY_SIZE <= |b|
    ensures |c| == |b|
  {
    var z := ZeroRange(b, r + MODULE_CHECKSUM_OFFSET, r + MODULE_NAME_RVA_OFFSET);
    CoarsenName(z, U32(z, r + MODULE_NAME_RVA_OFFSET))
  }

  datatype Coarsened = Coarsened(buf: seq<Byte>, modules: nat)

  /** Records `i` up to `count`, stopping at the first that does not fit the buffer. */
  function CoarsenRecords(b: seq<Byte>, rva: nat, i: nat, count: nat): (c: Coarsened)
    ensures |c.buf| == |b| && c.modules <= U32_MAX
    decreases count - i
  {
    if i >= count || RecordOffset(rva, i) + MODULE_ENTRY_SIZE > |b| then Coarsened(b, 0)
    else
      var rest := CoarsenRecords(CoarsenRecord(b, RecordOffset(rva, i)), rva, i + 1, count);
      Coarsened(rest.buf, SaturatingAdd(1, rest.modules))
  }

  predicate ModuleListReadable(b: seq<Byte>, rva: nat, size: nat) {
    rva + size <= |b| && size >= 4
  }

  function CoarsenModuleList(b: seq<Byte>, rva: nat, size: nat): (c: Coarsened)
    ensures |c.buf| == |b|
  {
    if ModuleListReadable(b, rva, size) then CoarsenRecords(b, rva, 0, U32(b, rva)) else Coarsened(b, 0)
  }

  // ----- the whole dump

  datatype Entry = Entry(dirOffset: nat, streamType: nat, dataSize: nat, rva: nat)

  datatype Directory = Directory(rva: nat, count: nat)

  function ParseHeader(b: seq<Byte>): (r: Result<Directory>)
    ensures r.Ok? ==> |b| >= HEADER_SIZE && r.value.rva + r.value.count * DIRECTORY_ENTRY_SIZE <= |b|
  {
    if |b| < HEADER_SIZE then Err(TooShort)
    else if U32(b, 0) != MINIDUMP_SIGNATURE then Err(BadSignature)
    else
      var d := Directory(U32(b, 12), U32(b, 8));
      if d.rva + d.count * DIRECTORY_ENTRY_SIZE > |b| then Err(DirectoryOutOfBounds) else Ok(d)
  }

  function EntryOffset(d: Directory, i: nat): nat {
    d.rva + i * DIRECTORY_ENTRY_SIZE
  }

  function EntryAt(b: seq<Byte>, off: nat): Entry
    requires off + DIRECTORY_ENTRY_SIZE <= |b|
  {
    Entry(off, U32(b, off), U32(b, off + 4), U32(b, off + 8))
  }

  function Entries(b: seq<Byte>, d: Directory): (es: seq<Entry>)
    requires d.rva + d.count * DIRECTORY_ENTRY_SIZE <= |b|
    ensures |es| == d.count
    ensures forall i :: 0 <= i < d.count ==>
      EntryOffset(d, i) + DIRECTORY_ENTRY_SIZE <= |b| && es[i] == EntryAt(b, EntryOffset(d, i))
  {
    seq(d.count, i requires 0 <= i < d.count => EntryAt(b, EntryOffset(d, i)))
  }

  datatype Scrubbed = Scrubbed(buf: seq<Byte>, report: ScrubReport)

  predicate PayloadInBounds(b: seq<Byte>, e: Entry) {
    e.rva + e.dataSize <= |b|
  }

  /** What one directory entry, as read before any change, makes of the buffer and the report. */
  function ScrubEntry(s: Scrubbed, e: Entry): (t: Scrubbed)
    ensures |t.buf| == |s.buf|
  {
    if IsIdentifyingStream(e.streamType) then
      var wiped := if PayloadInBounds(s.buf, e) then ZeroRange(s.buf, e.rva, e.rva + e.dataSize) else s.buf;
      Scrubbed(
        ZeroRange(wiped, e.dirOffset, e.dirOffset + DIRECTORY_ENTRY_SIZE),
        s.report.(streamsDropped := SaturatingAdd(s.report.streamsDropped, 1),
                  bytesZeroed := if PayloadInBounds(s.buf, e)
                                 then SaturatingAdd(s.report.bytesZeroed, e.dataSize) else s.report.bytesZeroed))
    else if e.streamType == MODULE_LIST_STREAM then
      var c := CoarsenModuleList(s.buf, e.rva, e.dataSize);
      Scrubbed(c.buf, s.report.(modulesCoarsened := SaturatingAdd(s.report.modulesCoarsened, c.modules)))
    else s
  }

  function ScrubEntries(s: Scrubbed, es: seq<Entry>): (t: Scrubbed)
    ensures |t.buf| == |s.buf|
    decreases |es|
  {
    if es == [] then s else ScrubEntries(ScrubEntry(s, es[0]), es[1..])
  }

  function Scrub(b: seq<Byte>): Result<Scrubbed> {
    match ParseHeader(b)
    case Err(e) => Err(e)
    case Ok(d) => Ok(ScrubEntries(Scrubbed(b, ScrubReport(0, 0, 0)), Entries(b, d)))
  }

  // ----- the in-place methods

  method ReadU32(buf: array<Byte>, off: nat) returns (ok: bool, n: nat)
    ensures ok <==> off + 4 <= buf.Length
    ensures ok ==> n == U32(buf[..], off)
    ensures !ok ==> n == 0
  {
    if off + 4 > buf.Length {
      return false, 0;
    }
    ok, n := true, U32(buf[..], off);
  }

  /** `for b in &mut buf[lo..hi] { *b = 0 }`, also how a zero `u32` is written. */
  method ZeroFill(buf: array<Byte>, lo: nat, hi: nat)
    requires lo <= hi <= buf.Length
    modifies buf
    ensures buf[..] == ZeroRange(old(buf[..]), lo, hi)
  {
    for p := lo to hi
      invariant forall j :: 0 <= j < buf.Length ==> buf[j] == if lo <= j < p then 0 else old(buf[j])
    {
      buf[p] := 0;
    }
  }

  /** The scan for the last path separator. */
  method LastSeparator(buf: array<Byte>, lo: nat, units: nat) returns (base: nat)
    requires lo + 2 * units <= buf.Length
    ensures base == BaseStart(buf[..], lo, units)
  {
    base := 0;
    for i := 0 to units
      invariant base <= i
      invariant base == BaseStart(buf[..], lo, i)
    {
      if IsSeparatorUnit(buf[..], lo + 2 * i) {
        base := i + 1;
      }
    }
  }

  /** The bytes once `n` code units have moved from unit `base` to the front. */
  function Shifted(b: seq<Byte>, lo: nat, base: nat, n: nat): (r: seq<Byte>)
    requires lo + 2 * (base + n) <= |b|
    ensures |r| == |b|
    ensures forall p {:trigger r[p]} :: 0 <= p < |b| ==> r[p] == if lo <= p < lo + 2 * n then b[p + 2 * base] else b[p]
  {
    seq(|b|, p requires 0 <= p < |b| => if lo <= p < lo + 2 * n then b[p + 2 * base] else b[p])
  }

  /** The overlapping move of `n` code units from unit `base` to the front, unit by unit. */
  method ShiftForward(buf: array<Byte>, lo: nat, base: nat, n: nat)
    requires lo + 2 * (base + n) <= buf.Length
    modifies buf
    ensures buf[..] == Shifted(old(buf[..]), lo, base, n)
  {
    for j := 0 to n
      invariant forall p {:trigger buf[p]} :: 0 <= p < buf.Length ==>
        buf[p] == if lo <= p < lo + 2 * j then old(buf[p + 2 * base]) else old(buf[p])
    {
      var src, dst := lo + (base + j) * 2, lo + j * 2;
      buf[dst] := buf[src];
      buf[dst + 1] := buf[src + 1];
    }
  }

  /** Zero-fills code units `from` up to `to`. */
  method ZeroUnits(buf: array<Byte>, lo: nat, from: nat, to: nat)
    requires from <= to && lo + 2 * to <= buf.Length
    modifies buf
    ensures buf[..] == ZeroRange(old(buf[..]), lo + 2 * from, lo + 2 * to)
  {
    for k := from to to
      invariant forall p {:trigger buf[p]} :: 0 <= p < buf.Length ==>
        buf[p] == if lo + 2 * from <= p < lo + 2 * k then 0 else old(buf[p])
    {
      buf[lo + k * 2] := 0;
      buf[lo + k * 2 + 1] := 0;
    }
  }

  /** Moving the basename and zeroing the freed tail is cutting the name; there is nothing to do without a separator. */
  lemma {:induction false} CutNameIs(b: seq<Byte>, lo: nat, units: nat, base: nat)
    requires lo + 2 * units <= |b| && base == BaseStart(b, lo, units)
    ensures base <= units
    ensures CutName(b, lo, units)
         == ZeroRange(Shifted(b, lo, base, units - base), lo + 2 * (units - base), lo + 2 * units)
    ensures base == 0 ==> CutName(b, lo, units) == b
  {
    hide BaseStart;
    var r := CutName(b, lo, units);
    var t := ZeroRange(Shifted(b, lo, base, units - base), lo + 2 * (units - base), lo + 2 * units);
    forall p | 0 <= p < |b| ensures r[p] == t[p] && (base == 0 ==> r[p] == b[p]) {
      if lo <= p < lo + 2 * units {
        assert r[p] == NameByte(b, lo, units, p);
      }
    }
  }

  /** The basename moves to the front of its string and the freed tail is zero-filled. */
  method CutNameInPlace(buf: array<Byte>, lo: nat, units: nat)
    requires lo + 2 * units <= buf.Length
    modifies buf
    ensures buf[..] == CutName(old(buf[..]), lo, units)
  {
    hide BaseStart, CutName, Shifted, ZeroRange;
    var base := LastSeparator(buf, lo, units);
    CutNameIs(buf[..], lo, units, base);
    if base > 0 {
      ShiftForward(buf, lo, base, units - base);
      ZeroUnits(buf, lo, units - base, units);
    }
  }

  method CoarsenNameInPlace(buf: array<Byte>, rva: nat)
    modifies buf
    ensures buf[..] == CoarsenName(old(buf[..]), rva)
  {
    hide CutName, U32, CoarsenName, HoldsUnits, UnitsIn;
    var ok, byteLen := ReadU32(buf, rva);
    CoarsenNameIs(buf[..], rva);
    if ok && HoldsUnits(byteLen) && rva + 4 + byteLen <= buf.Length {
      CutNameInPlace(buf, rva + 4, UnitsIn(byteLen));
    }
  }

  /** The conditions under which a name is cut, and where. */
  lemma {:induction false} CoarsenNameIs(b: seq<Byte>, rva: nat)
    ensures var ok := rva + 4 <= |b|;
            var n := if ok then U32(b, rva) else 0;
            if ok && HoldsUnits(n) && rva + 4 + n <= |b|
            then rva + 4 + 2 * UnitsIn(n) <= |b| && CoarsenName(b, rva) == CutName(b, rva + 4, UnitsIn(n))
            else CoarsenName(b, rva) == b
  {
    hide U32, CutName, HoldsUnits, UnitsIn;
  }

  method CoarsenRecordInPlace(buf: array<Byte>, r: nat)
    requires r + MODULE_ENTRY_SIZE <= buf.Length
    modifies buf
    ensures buf[..] == CoarsenRecord(old(buf[..]), r)
  {
    ZeroFill(buf, r + MODULE_CHECKSUM_OFFSET, r + MODULE_NAME_RVA_OFFSET);
    var _, nameRva := ReadU32(buf, r + MODULE_NAME_RVA_OFFSET);
    CoarsenNameInPlace(buf, nameRva);
  }

  /** The loop over the records, left at the first one that does not fit the buffer. */
  method CoarsenRecordsInPlace(buf: array<Byte>, rva: nat, count: nat) returns (coarsened: nat)
    modifies buf
    ensures Coarsened(buf[..], coarsened) == CoarsenRecords(old(buf[..]), rva, 0, count)
  {
    hide CoarsenRecord, CoarsenRecords, RecordOffset;
    coarsened := 0;
    var i := 0;
    ghost var all := CoarsenRecords(buf[..], rva, 0, count);
    while i < count && RecordOffset(rva, i) + MODULE_ENTRY_SIZE <= buf.Length
      invariant i <= count && coarsened <= U32_MAX
      invariant all.buf == CoarsenRecords(buf[..], rva, i, count).buf
      invariant all.modules == SaturatingAdd(coarsened, CoarsenRecords(buf[..], rva, i, count).modules)
    {
      RecordsStep(buf[..], rva, i, count, coarsened);
      CoarsenRecordInPlace(buf, RecordOffset(rva, i));
      coarsened := SaturatingAdd(coarsened, 1);
      i := i + 1;
    }
    RecordsEnd(buf[..], rva, i, count);
  }

  method CoarsenModuleListInPlace(buf: array<Byte>, rva: nat, size: nat) returns (coarsened: nat)
    modifies buf
    ensures Coarsened(buf[..], coarsened) == CoarsenModuleList(old(buf[..]), rva, size)
  {
    if rva + size > buf.Length || size < 4 {
      return 0;
    }
    var _, count := ReadU32(buf, rva);
    coarsened := CoarsenRecordsInPlace(buf, rva, count);
  }

  lemma {:induction false} RecordsEnd(b: seq<Byte>, rva: nat, i: nat, count: nat)
    requires i >= count || RecordOffset(rva, i) + MODULE_ENTRY_SIZE > |b|
    ensures CoarsenRecords(b, rva, i, count) == Coarsened(b, 0)
  {
  }

  lemma {:induction false} RecordsStep(b: seq<Byte>, rva: nat, i: nat, count: nat, coarsened: nat)
    requires i < count && RecordOffset(rva, i) + MODULE_ENTRY_SIZE <= |b|
    ensures var c := CoarsenRecords(b, rva, i, count);
            var d := CoarsenRecords(CoarsenRecord(b, RecordOffset(rva, i)), rva, i + 1, count);
            c.buf == d.buf && SaturatingAdd(coarsened, c.modules) == SaturatingAdd(SaturatingAdd(coarsened, 1), d.modules)
  {
    hide CoarsenRecord;
    var d := CoarsenRecords(CoarsenRecord(b, RecordOffset(rva, i)), rva, i + 1, count);
    SaturatingAssoc(coarsened, 1, d.modules);
  }

  /** Reads the whole directory before anything is changed. */
  method ReadDirectory(buf: array<Byte>, d: Directory) returns (entries: seq<Entry>)
    requires d.rva + d.count * DIRECTORY_ENTRY_SIZE <= buf.Length
    ensures entries == Entries(buf[..], d)
  {
    entries := [];
    for i := 0 to d.count
      invariant |entries| == i && entries == Entries(buf[..], d)[..i]
    {
      entries := entries + [EntryAt(buf[..], EntryOffset(d, i))];
    }
  }

  method ScrubEntryInPlace(buf: array<Byte>, before: ScrubReport, e: Entry) returns (report: ScrubReport)
    requires e.dirOffset + DIRECTORY_ENTRY_SIZE <= buf.Length
    modifies buf
    ensures Scrubbed(buf[..], report) == ScrubEntry(Scrubbed(old(buf[..]), before), e)
  {
    report := before;
    if IsIdentifyingStream(e.streamType) {
      if e.rva + e.dataSize <= buf.Length {
        ZeroFill(buf, e.rva, e.rva + e.dataSize);
        report := report.(bytesZeroed := SaturatingAdd(report.bytesZeroed, e.dataSize));
      }
      ZeroFill(buf, e.dirOffset, e.dirOffset + DIRECTORY_ENTRY_SIZE);
      report := report.(streamsDropped := SaturatingAdd(report.streamsDropped, 1));
    } else if e.streamType == MODULE_LIST_STREAM {
      var n := CoarsenModuleListInPlace(buf, e.rva, e.dataSize);
      report := report.(modulesCoarsened := SaturatingAdd(report.modulesCoarsened, n));
    }
  }

  method ScrubInPlace(buf: array<Byte>) returns (r: Result<ScrubReport>)
    modifies buf
    ensures match Scrub(old(buf[..]))
            case Err(e) => r == Err(e) && buf[..] == old(buf[..])
            case Ok(s) => r == Ok(s.report) && buf[..] == s.buf
  {
    var parsed := ParseHeader(buf[..]);
    if parsed.Err? {
      return Err(parsed.error);
    }
    var report := ScrubReport(0, 0, 0);
    var entries := ReadDirectory(buf, parsed.value);
    ghost var all := ScrubEntries(Scrubbed(buf[..], report), entries);
    assert entries[0..] == entries;
    hide ScrubEntry, ParseHeader;
    for i := 0 to |entries|
      invariant ScrubEntries(Scrubbed(buf[..], report), entries[i..]) == all
    {
      assert entries[i..][0] == entries[i] && entries[i..][1..] == entries[i + 1..];
      report := ScrubEntryInPlace(buf, report, entries[i]);
    }
    return Ok(report);
  }
}
