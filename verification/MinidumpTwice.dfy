/**
 The effect in the dump's own terms, and the second run: scrubbing a scrubbed dump
 changes nothing and drops no stream.
 */
module MinidumpTwice {
  import opened Bytes
  import opened Minidump
  import opened MinidumpLaws
  import opened MinidumpEffect

  // ----- what is in the plan

  lemma {:induction false} PlanIs(b: seq<Byte>, es: seq<Entry>, op: Op)
    ensures op in PlanEntries(b, es) <==> exists i :: 0 <= i < |es| && op in PlanEntry(b, es[i])
  {
    hide PlanEntry;
    if es != [] {
      PlanIs(b, es[1..], op);
      if i :| 0 <= i < |es| && op in PlanEntry(b, es[i]) {
        assert i > 0 ==> es[1..][i - 1] == es[i];
      }
      if i :| 0 <= i < |es[1..]| && op in PlanEntry(b, es[1..][i]) {
        assert es[1..][i] == es[i + 1];
      }
    }
  }

  lemma {:induction false} PlanHas(b: seq<Byte>, es: seq<Entry>, i: nat, op: Op)
    requires i < |es| && op in PlanEntry(b, es[i])
    ensures op in PlanEntries(b, es)
  {
    hide PlanEntry;
    if i > 0 {
      PlanHas(b, es[1..], i - 1, op);
    }
  }

  lemma {:induction false} ReadIs(b: seq<Byte>, es: seq<Entry>, i: nat, s: Span)
    requires i < |es| && s in ReadEntry(b, es[i])
    ensures s in ReadEntries(b, es)
  {
    hide ReadEntry;
    if i > 0 {
      ReadIs(b, es[1..], i - 1, s);
    }
  }

  lemma {:induction false} RecordsIs(b: seq<Byte>, rva: nat, i: nat, count: nat, k: nat)
    requires i <= k < count && RecordFits(b, rva, k)
    ensures forall op :: op in PlanRecord(b, RecordOffset(rva, k)) ==> op in PlanRecords(b, rva, i, count)
    ensures forall s :: s in ReadRecord(b, RecordOffset(rva, k)) ==> s in ReadRecords(b, rva, i, count)
    decreases k - i
  {
    hide PlanRecord, ReadRecord;
    assert RecordFits(b, rva, i);
    if i < k {
      RecordsIs(b, rva, i + 1, count, k);
    }
  }

  /** Every planned change of a module list belongs to one of its records. */
  lemma {:induction false} RecordsOnly(b: seq<Byte>, rva: nat, i: nat, count: nat, op: Op)
    requires op in PlanRecords(b, rva, i, count)
    ensures exists k :: i <= k < count && RecordFits(b, rva, k) && op in PlanRecord(b, RecordOffset(rva, k))
    decreases count - i
  {
    hide PlanRecord;
    if op !in PlanRecord(b, RecordOffset(rva, i)) {
      RecordsOnly(b, rva, i + 1, count, op);
    }
  }

  /** Record `k` of the module list that entry `i` locates. */
  predicate HasRecord(b: seq<Byte>, es: seq<Entry>, i: nat, k: nat) {
    && i < |es| && IsModuleList(b, es[i])
    && k < U32(b, es[i].rva) && RecordFits(b, es[i].rva, k)
  }

  lemma {:induction false} RecordPlanned(b: seq<Byte>, es: seq<Entry>, i: nat, k: nat)
    requires HasRecord(b, es, i, k)
    ensures forall op :: op in PlanRecord(b, RecordOffset(es[i].rva, k)) ==> op in PlanEntries(b, es)
    ensures forall s :: s in ReadRecord(b, RecordOffset(es[i].rva, k)) ==> s in ReadEntries(b, es)
  {
    var rva, count := es[i].rva, U32(b, es[i].rva);
    RecordsIs(b, rva, 0, count, k);
    forall op | op in PlanRecord(b, RecordOffset(rva, k)) ensures op in PlanEntries(b, es) {
      PlanHas(b, es, i, op);
    }
    forall s | s in ReadRecord(b, RecordOffset(rva, k)) ensures s in ReadEntries(b, es) {
      assert s in ReadEntry(b, es[i]);
      ReadIs(b, es, i, s);
    }
  }

  // ----- the effect in the dump's own terms

  ghost predicate ZeroedIn(c: seq<Byte>, lo: nat, hi: nat) {
    hi <= |c| && forall p :: lo <= p < hi ==> c[p] == 0
  }

  lemma {:induction false} WipedIsZero(b: seq<Byte>, ops: seq<Op>, c: seq<Byte>, lo: nat, hi: nat)
    requires InBounds(ops, |b|) && Effect(b, ops, c) && Wipe(lo, hi) in ops
    ensures ZeroedIn(c, lo, hi)
  {
    assert Wipe(lo, hi).Where().hi <= |b|;
    forall p: nat | lo <= p < hi ensures c[p] == 0 {
      assert In(Wipe(lo, hi).Where(), p);
    }
  }

  /** Identifying streams: payload and directory slot are zeroed. */
  lemma {:induction false} StreamsErased(b: seq<Byte>, es: seq<Entry>, c: seq<Byte>, i: nat)
    requires InBounds(PlanEntries(b, es), |b|) && Effect(b, PlanEntries(b, es), c)
    requires i < |es| && IsIdentifyingStream(es[i].streamType)
    ensures ZeroedIn(c, es[i].dirOffset, es[i].dirOffset + DIRECTORY_ENTRY_SIZE)
    ensures PayloadInBounds(b, es[i]) ==> ZeroedIn(c, es[i].rva, es[i].rva + es[i].dataSize)
  {
    hide *;
    var e, ops := es[i], PlanEntries(b, es);
    StreamPlanned(b, es, i);
    WipedIsZero(b, ops, c, e.dirOffset, e.dirOffset + DIRECTORY_ENTRY_SIZE);
    if PayloadInBounds(b, e) {
      WipedIsZero(b, ops, c, e.rva, e.rva + e.dataSize);
    }
  }

  lemma {:induction false} StreamPlanned(b: seq<Byte>, es: seq<Entry>, i: nat)
    requires i < |es| && IsIdentifyingStream(es[i].streamType)
    ensures Wipe(es[i].dirOffset, es[i].dirOffset + DIRECTORY_ENTRY_SIZE) in PlanEntries(b, es)
    ensures PayloadInBounds(b, es[i]) ==> Wipe(es[i].rva, es[i].rva + es[i].dataSize) in PlanEntries(b, es)
  {
    hide *;
    var e := es[i];
    StreamOps(b, e);
    PlanHas(b, es, i, Wipe(e.dirOffset, e.dirOffset + DIRECTORY_ENTRY_SIZE));
    if PayloadInBounds(b, e) {
      PlanHas(b, es, i, Wipe(e.rva, e.rva + e.dataSize));
    }
  }

  lemma {:induction false} StreamOps(b: seq<Byte>, e: Entry)
    requires IsIdentifyingStream(e.streamType)
    ensures Wipe(e.dirOffset, e.dirOffset + DIRECTORY_ENTRY_SIZE) in PlanEntry(b, e)
    ensures PayloadInBounds(b, e) ==> Wipe(e.rva, e.rva + e.dataSize) in PlanEntry(b, e)
  {
  }

  /** Modules: checksum and time stamp are zeroed, a well-formed name holds its basename. */
  lemma {:induction false} ModuleCoarsened(b: seq<Byte>, es: seq<Entry>, c: seq<Byte>, i: nat, k: nat)
    requires InBounds(PlanEntries(b, es), |b|) && Effect(b, PlanEntries(b, es), c)
    requires HasRecord(b, es, i, k)
    ensures var r := RecordOffset(es[i].rva, k);
            && ZeroedIn(c, r + MODULE_CHECKSUM_OFFSET, r + MODULE_NAME_RVA_OFFSET)
            && match NameAt(b, U32(b, r + MODULE_NAME_RVA_OFFSET))
               case NoName => true
               case Name(lo, units) => HoldsBasename(b, c, lo, units)
  {
    var ops, r := PlanEntries(b, es), RecordOffset(es[i].rva, k);
    RecordPlanned(b, es, i, k);
    var fields := Wipe(r + MODULE_CHECKSUM_OFFSET, r + MODULE_NAME_RVA_OFFSET);
    assert fields in PlanRecord(b, r);
    WipedIsZero(b, ops, c, fields.lo, fields.hi);
    var n := NameAt(b, U32(b, r + MODULE_NAME_RVA_OFFSET));
    if n.Name? {
      assert Base(n.lo, n.units) in PlanRecord(b, r);
      NameHeld(b, ops, c, n.lo, n.units);
    }
  }

  lemma {:induction false} NameHeld(b: seq<Byte>, ops: seq<Op>, c: seq<Byte>, lo: nat, units: nat)
    requires InBounds(ops, |b|) && Effect(b, ops, c) && Base(lo, units) in ops
    ensures lo + 2 * units <= |b| == |c| && HoldsBasename(b, c, lo, units)
    ensures forall p: nat :: lo <= p < lo + 2 * units ==> c[p] == NameByte(b, lo, units, p)
  {
    assert Base(lo, units).Where().hi <= |b|;
    var d := CutName(b, lo, units);
    forall p: nat | lo <= p < lo + 2 * units ensures c[p] == NameByte(b, lo, units, p) == d[p] {
      assert In(Base(lo, units).Where(), p);
    }
    CutHoldsBasename(b, lo, units);
    SameUnits(b, d, c, lo, units);
  }

  lemma {:induction false} SameUnits(b: seq<Byte>, d: seq<Byte>, c: seq<Byte>, lo: nat, units: nat)
    requires lo + 2 * units <= |b| == |c| == |d| && HoldsBasename(b, d, lo, units)
    requires forall p: nat :: lo <= p < lo + 2 * units ==> c[p] == d[p]
    ensures HoldsBasename(b, c, lo, units)
  {
    var base: nat :| BasenameFrom(b, d, lo, units, base);
    forall k | 0 <= k < units ensures Unit(c, lo, k) == Unit(d, lo, k) {
      assert c[lo + 2 * k] == d[lo + 2 * k] && c[lo + 2 * k + 1] == d[lo + 2 * k + 1];
    }
    assert BasenameFrom(b, c, lo, units, base);
  }

  /** Position `p` lies in no payload, directory slot, fingerprint field or name the dump declares. */
  ghost predicate Elsewhere(b: seq<Byte>, es: seq<Entry>, p: nat) {
    && (forall i :: 0 <= i < |es| && IsIdentifyingStream(es[i].streamType) ==>
          && !(es[i].dirOffset <= p < es[i].dirOffset + DIRECTORY_ENTRY_SIZE)
          && (PayloadInBounds(b, es[i]) ==> !(es[i].rva <= p < es[i].rva + es[i].dataSize)))
    && (forall i: nat, k: nat :: HasRecord(b, es, i, k) ==>
          forall op :: op in PlanRecord(b, RecordOffset(es[i].rva, k)) ==> !In(op.Where(), p))
  }

  /** Nothing else changes. */
  lemma {:induction false} ElsewhereUnchanged(b: seq<Byte>, es: seq<Entry>, c: seq<Byte>, p: nat)
    requires InBounds(PlanEntries(b, es), |b|) && Effect(b, PlanEntries(b, es), c)
    requires p < |b| && Elsewhere(b, es, p)
    ensures c[p] == b[p]
  {
    forall op | op in PlanEntries(b, es) ensures !In(op.Where(), p) {
      PlanIs(b, es, op);
      var i :| 0 <= i < |es| && op in PlanEntry(b, es[i]);
      if IsModuleList(b, es[i]) {
        RecordsOnly(b, es[i].rva, 0, U32(b, es[i].rva), op);
        var k :| 0 <= k < U32(b, es[i].rva) && RecordFits(b, es[i].rva, k)
                 && op in PlanRecord(b, RecordOffset(es[i].rva, k));
        assert HasRecord(b, es, i, k);
      }
    }
    assert Untouched(PlanEntries(b, es), p);
  }

  // ----- the counts

  /** Environment, command line, process status, maps, auxiliary vector and limits of Linux; heap, regions, handles, comments. */
  const ERASED_STREAMS: set<nat> :=
    {0x47670007, 0x47670006, 0x47670004, 0x47670009, 0x47670008, 0x4d7a0003, 9, 16, 12, 10, 11}

  lemma {:induction false} ErasedAre(kind: nat)
    ensures IsIdentifyingStream(kind) <==> kind in ERASED_STREAMS
  {
  }

  /** How many entries are of erased streams. */
  function Identifying(es: seq<Entry>): nat {
    if es == [] then 0 else (if es[0].streamType in ERASED_STREAMS then 1 else 0) + Identifying(es[1..])
  }

  /** The payload bytes of the identifying streams that lie within a buffer of length `len`. */
  function PayloadBytes(len: nat, es: seq<Entry>): nat {
    if es == [] then 0
    else
      (if es[0].streamType in ERASED_STREAMS && es[0].rva + es[0].dataSize <= len then es[0].dataSize else 0)
      + PayloadBytes(len, es[1..])
  }

  lemma {:induction false} IdentifyingWithin(es: seq<Entry>)
    ensures Identifying(es) <= |es|
  {
    if es != [] {
      IdentifyingWithin(es[1..]);
    }
  }

  /** The two counts look at the entries and the length of the buffer only, never at what was changed on the way. */
  lemma {:induction false} EntriesCounted(s: Scrubbed, es: seq<Entry>)
    ensures var t := ScrubEntries(s, es).report;
            && (s.report.streamsDropped <= U32_MAX ==>
                  t.streamsDropped == Saturate(s.report.streamsDropped + Identifying(es)))
            && (s.report.bytesZeroed <= U32_MAX ==>
                  t.bytesZeroed == Saturate(s.report.bytesZeroed + PayloadBytes(|s.buf|, es)))
    decreases |es|
  {
    hide ZeroRange, CoarsenModuleList, IsIdentifyingStream, ModuleListReadable;
    if es != [] {
      ErasedAre(es[0].streamType);
      EntriesCounted(ScrubEntry(s, es[0]), es[1..]);
    }
  }

  /**
   For every dump with a readable header, overlapping stretches or not: the number of dropped streams
   is exact, as a directory cannot list enough of them to saturate, and the number of zeroed bytes is
   the saturated sum of the payload sizes in bounds.
   */
  lemma {:induction false} CountsExact(b: seq<Byte>)
    requires ParseHeader(b).Ok?
    ensures Scrub(b).Ok?
    ensures var es, report := Entries(b, ParseHeader(b).value), Scrub(b).value.report;
            && report.streamsDropped == Identifying(es)
            && report.bytesZeroed == Saturate(PayloadBytes(|b|, es))
  {
    hide ScrubEntries, U32;
    var es := Entries(b, ParseHeader(b).value);
    EntriesCounted(Scrubbed(b, ScrubReport(0, 0, 0)), es);
    IdentifyingWithin(es);
  }

  /** The payload of an identifying stream, if it is in bounds, and its directory slot are zero. */
  ghost predicate StreamErased(b: seq<Byte>, c: seq<Byte>, e: Entry) {
    && ZeroedIn(c, e.dirOffset, e.dirOffset + DIRECTORY_ENTRY_SIZE)
    && (PayloadInBounds(b, e) ==> ZeroedIn(c, e.rva, e.rva + e.dataSize))
  }

  /** The record's checksum and time stamp are zero, and its name, if well-formed, is its basename and zeros. */
  ghost predicate RecordCoarsened(b: seq<Byte>, c: seq<Byte>, r: nat) {
    && r + MODULE_ENTRY_SIZE <= |b| == |c|
    && ZeroedIn(c, r + MODULE_CHECKSUM_OFFSET, r + MODULE_NAME_RVA_OFFSET)
    && match NameAt(b, U32(b, r + MODULE_NAME_RVA_OFFSET))
       case NoName => true
       case Name(lo, units) => HoldsBasename(b, c, lo, units)
  }

  lemma {:induction false} StreamIsErased(b: seq<Byte>, es: seq<Entry>, c: seq<Byte>, i: nat)
    requires InBounds(PlanEntries(b, es), |b|) && Effect(b, PlanEntries(b, es), c)
    requires i < |es| && IsIdentifyingStream(es[i].streamType)
    ensures StreamErased(b, c, es[i])
  {
    hide Effect, InBounds, PlanEntries, ZeroedIn, IsIdentifyingStream;
    StreamsErased(b, es, c, i);
  }

  lemma {:induction false} RecordIsCoarsened(b: seq<Byte>, es: seq<Entry>, c: seq<Byte>, i: nat, k: nat)
    requires InBounds(PlanEntries(b, es), |b|) && Effect(b, PlanEntries(b, es), c)
    requires HasRecord(b, es, i, k)
    ensures RecordCoarsened(b, c, RecordOffset(es[i].rva, k))
  {
    EffectLength(b, PlanEntries(b, es), c);
    hide Effect, InBounds, PlanEntries, ZeroedIn, HoldsBasename, NameAt, U32;
    ModuleCoarsened(b, es, c, i, k);
  }

  // ----- the same in numbers

  /** The byte length of the string at `n`, if it is even, positive and in bounds, else 0. */
  function NameLength(b: seq<Byte>, n: nat): (len: nat)
    ensures n + 4 + len <= |b| || len == 0
  {
    if n + 4 <= |b| && U32(b, n) % 2 == 0 && n + 4 + U32(b, n) <= |b| then U32(b, n) else 0
  }

  /** Checksum and time stamp at 12 to 20 are zero; the string the number at 20 points to is its basename and zeros. */
  ghost predicate RecordMinimized(b: seq<Byte>, c: seq<Byte>, r: nat)
    requires r + 108 <= |b| == |c|
  {
    && ZeroedIn(c, r + 12, r + 20)
    && var n := U32(b, r + 20); var len := NameLength(b, n);
       len > 0 ==> HoldsBasename(b, c, n + 4, len / 2)
  }

  /** The slot of an erased stream is zero and so is its payload if it is in bounds; the records of a module list are minimized. */
  ghost predicate EntryMinimized(b: seq<Byte>, c: seq<Byte>, at: nat)
    requires at + 12 <= |b| == |c|
  {
    var kind, size, rva := U32(b, at), U32(b, at + 4), U32(b, at + 8);
    && (kind in ERASED_STREAMS ==>
          ZeroedIn(c, at, at + 12) && (rva + size <= |b| ==> ZeroedIn(c, rva, rva + size)))
    && (kind == 4 && rva + size <= |b| && size >= 4 ==>
          forall k: nat :: k < U32(b, rva) && rva + 4 + 108 * k + 108 <= |b| ==> RecordMinimized(b, c, rva + 4 + 108 * k))
  }

  ghost predicate RecordCovers(b: seq<Byte>, r: nat, p: nat)
    requires r + 108 <= |b|
  {
    var n := U32(b, r + 20);
    r + 12 <= p < r + 20 || n + 4 <= p < n + 4 + NameLength(b, n)
  }

  /** The entry at `at` lays claim to position `p`. */
  ghost predicate EntryCovers(b: seq<Byte>, at: nat, p: nat)
    requires at + 12 <= |b|
  {
    var kind, size, rva := U32(b, at), U32(b, at + 4), U32(b, at + 8);
    || (kind in ERASED_STREAMS && (at <= p < at + 12 || rva <= p < rva + size <= |b|))
    || (kind == 4 && rva + size <= |b| && size >= 4 &&
        exists k: nat :: k < U32(b, rva) && rva + 4 + 108 * k + 108 <= |b| && RecordCovers(b, rva + 4 + 108 * k, p))
  }

  /** No entry of the directory lays claim to `p`. */
  ghost predicate Unclaimed(b: seq<Byte>, d: Directory, p: nat)
    requires d.rva + 12 * d.count <= |b|
  {
    forall i: nat :: i < d.count ==> !EntryCovers(b, d.rva + 12 * i, p)
  }

  /**
   `c` is the minimized form of the dump `b`: every entry of its directory (their number at 8, their place at 12)
   is minimized, and every byte to which no entry lays claim is the byte of `b`.
   */
  ghost predicate Minimized(b: seq<Byte>, c: seq<Byte>)
    requires |b| >= 16
  {
    var d := Directory(U32(b, 12), U32(b, 8));
    && |c| == |b| && d.rva + 12 * d.count <= |b|
    && (forall i: nat :: i < d.count ==> EntryMinimized(b, c, d.rva + 12 * i))
    && (forall p: nat :: p < |b| && Unclaimed(b, d, p) ==> c[p] == b[p])
  }

  lemma {:induction false} NameInNumbers(b: seq<Byte>, n: nat)
    ensures var len := NameLength(b, n);
            NameAt(b, n) == if len > 0 then Name(n + 4, len / 2) else NoName
    ensures NameLength(b, n) % 2 == 0
  {
    hide U32;
  }

  lemma {:induction false} RecordInNumbers(b: seq<Byte>, c: seq<Byte>, r: nat)
    requires RecordCoarsened(b, c, r)
    ensures RecordMinimized(b, c, r)
  {
    hide U32, HoldsBasename, ZeroedIn, NameAt, NameLength;
    NameInNumbers(b, U32(b, r + 20));
  }

  lemma {:induction false} RecordCoversIs(b: seq<Byte>, r: nat, p: nat)
    requires r + 108 <= |b| && !RecordCovers(b, r, p)
    ensures forall op :: op in PlanRecord(b, r) ==> !In(op.Where(), p)
  {
    hide U32, NameAt, NameLength;
    NameInNumbers(b, U32(b, r + 20));
  }

  lemma {:induction false} ModulesAre(b: seq<Byte>, e: Entry)
    ensures IsModuleList(b, e) <==> e.streamType == 4 && e.rva + e.dataSize <= |b| && e.dataSize >= 4
  {
  }

  lemma {:induction false} RecordsAre(b: seq<Byte>, rva: nat, k: nat)
    ensures RecordOffset(rva, k) == rva + 4 + 108 * k
    ensures RecordFits(b, rva, k) <==> rva + 4 + 108 * k + 108 <= |b|
  {
  }

  /** What a scrub does to the stretches of one entry. */
  lemma {:induction false} EntryInNumbers(b: seq<Byte>, es: seq<Entry>, c: seq<Byte>, i: nat, at: nat)
    requires InBounds(PlanEntries(b, es), |b|) && Effect(b, PlanEntries(b, es), c)
    requires i < |es| && at + 12 <= |b| == |c| && es[i] == EntryAt(b, at)
    ensures EntryMinimized(b, c, at)
  {
    hide Effect, InBounds, PlanEntries, U32, ZeroedIn, IsIdentifyingStream, IsModuleList, RecordCoarsened, RecordMinimized,
      RecordOffset, RecordFits;
    var e := es[i];
    ErasedAre(e.streamType);
    ModulesAre(b, e);
    if IsIdentifyingStream(e.streamType) {
      StreamIsErased(b, es, c, i);
    }
    if IsModuleList(b, e) {
      forall k: nat | k < U32(b, e.rva) && e.rva + 4 + 108 * k + 108 <= |b|
        ensures RecordMinimized(b, c, e.rva + 4 + 108 * k)
      {
        RecordsAre(b, e.rva, k);
        RecordIsCoarsened(b, es, c, i, k);
        RecordInNumbers(b, c, RecordOffset(e.rva, k));
      }
    }
  }

  /** A position no entry lays claim to is in no planned stretch. */
  lemma {:induction false} ElsewhereInNumbers(b: seq<Byte>, d: Directory, p: nat)
    requires ParseHeader(b) == Ok(d) && Unclaimed(b, d, p)
    ensures Elsewhere(b, Entries(b, d), p)
  {
    hide ParseHeader, U32, IsIdentifyingStream, IsModuleList, PlanRecord, RecordCovers;
    var es := Entries(b, d);
    forall i: nat | i < |es| ensures !EntryCovers(b, es[i].dirOffset, p) && es[i] == EntryAt(b, es[i].dirOffset) {
      assert es[i].dirOffset == d.rva + 12 * i;
      assert !EntryCovers(b, d.rva + 12 * i, p);
    }
    forall i | 0 <= i < |es| && IsIdentifyingStream(es[i].streamType)
      ensures !(es[i].dirOffset <= p < es[i].dirOffset + DIRECTORY_ENTRY_SIZE)
      ensures PayloadInBounds(b, es[i]) ==> !(es[i].rva <= p < es[i].rva + es[i].dataSize)
    {
      ErasedAre(es[i].streamType);
      assert !EntryCovers(b, es[i].dirOffset, p);
    }
    forall i: nat, k: nat | HasRecord(b, es, i, k)
      ensures forall op :: op in PlanRecord(b, RecordOffset(es[i].rva, k)) ==> !In(op.Where(), p)
    {
      ModulesAre(b, es[i]);
      RecordsAre(b, es[i].rva, k);
      assert !EntryCovers(b, es[i].dirOffset, p);
      RecordCoversIs(b, RecordOffset(es[i].rva, k), p);
    }
  }

  /** What a scrub does to a dump whose declared stretches keep out of each other's way. */
  lemma {:induction false} ScrubInDumpTerms(b: seq<Byte>)
    requires ParseHeader(b).Ok? && Separated(b, Entries(b, ParseHeader(b).value))
    ensures Scrub(b).Ok? && Minimized(b, Scrub(b).value.buf)
  {
    hide *;
    HeaderIs(b);
    var d := ParseHeader(b).value;
    var es := Entries(b, d);
    ScrubExact(b);
    var c := Scrub(b).value.buf;
    EffectLength(b, PlanEntries(b, es), c);
    forall i: nat | i < d.count ensures d.rva + 12 * i + 12 <= |b| && EntryMinimized(b, c, d.rva + 12 * i) {
      SlotInNumbers(b, d, i);
      EntryInNumbers(b, es, c, i, d.rva + 12 * i);
    }
    forall p: nat | p < |b| && Unclaimed(b, d, p) ensures c[p] == b[p] {
      ElsewhereInNumbers(b, d, p);
      ElsewhereUnchanged(b, es, c, p);
    }
    IsMinimized(b, c);
  }

  lemma {:induction false} SlotInNumbers(b: seq<Byte>, d: Directory, i: nat)
    requires d.rva + d.count * DIRECTORY_ENTRY_SIZE <= |b| && i < d.count
    ensures d.rva + 12 * i + 12 <= |b| && Entries(b, d)[i] == EntryAt(b, d.rva + 12 * i)
  {
  }

  lemma {:induction false} IsMinimized(b: seq<Byte>, c: seq<Byte>)
    requires |b| >= 16 && |c| == |b| && U32(b, 12) + 12 * U32(b, 8) <= |b|
    requires forall i: nat :: i < U32(b, 8) ==> EntryMinimized(b, c, U32(b, 12) + 12 * i)
    requires forall p: nat :: p < |b| && Unclaimed(b, Directory(U32(b, 12), U32(b, 8)), p) ==> c[p] == b[p]
    ensures Minimized(b, c)
  {
    hide U32, EntryMinimized, Unclaimed;
  }

  /** Which buffers are refused, and how: 32 bytes, the letters `MDMP`, and a directory within the buffer are needed. */
  lemma {:induction false} HeaderIs(b: seq<Byte>)
    ensures Scrub(b) == Err(TooShort) <==> |b| < 32
    ensures Scrub(b) == Err(BadSignature) <==> |b| >= 32 && b[..4] != [0x4D, 0x44, 0x4D, 0x50]
    ensures Scrub(b) == Err(DirectoryOutOfBounds)
            <==> |b| >= 32 && b[..4] == [0x4D, 0x44, 0x4D, 0x50] && U32(b, 12) + 12 * U32(b, 8) > |b|
    ensures Scrub(b).Ok? <==> ParseHeader(b).Ok?
    ensures ParseHeader(b).Ok? ==> ParseHeader(b).value == Directory(U32(b, 12), U32(b, 8))
  {
    hide ScrubEntries, Entries;
  }

  // ----- the second run

  /** The header and the directory are written by nothing but the neutralizing of slots. */
  ghost predicate DirectoryKept(b: seq<Byte>, d: Directory, es: seq<Entry>) {
    && d.rva >= 16
    && forall i, op :: 0 <= i < |es| && op in PlanData(b, es[i]) ==>
         Apart(op.Where(), Span(0, 16)) && Apart(op.Where(), Span(d.rva, d.rva + d.count * DIRECTORY_ENTRY_SIZE))
  }

  lemma {:induction false} ReadSame(b: seq<Byte>, c: seq<Byte>, off: nat)
    requires off + 4 <= |b| == |c| && forall p: nat :: off <= p < off + 4 ==> c[p] == b[p]
    ensures U32(c, off) == U32(b, off)
  {
  }

  lemma {:induction false} SlotsApart(d: Directory, i: nat, j: nat)
    requires i < j < d.count
    ensures EntryOffset(d, i) + DIRECTORY_ENTRY_SIZE <= EntryOffset(d, j)
    ensures EntryOffset(d, j) + DIRECTORY_ENTRY_SIZE <= d.rva + d.count * DIRECTORY_ENTRY_SIZE
  {
  }

  /** A header byte, or a byte of a slot that is not dropped, is in no planned stretch. */
  lemma {:induction false} KeptByte(b: seq<Byte>, d: Directory, es: seq<Entry>, p: nat)
    requires ParseHeader(b) == Ok(d) && es == Entries(b, d) && DirectoryKept(b, d, es)
    requires p < 16 || exists j :: 0 <= j < d.count && !IsIdentifyingStream(es[j].streamType)
                                    && EntryOffset(d, j) <= p < EntryOffset(d, j) + DIRECTORY_ENTRY_SIZE
    ensures Untouched(PlanEntries(b, es), p)
  {
    forall op | op in PlanEntries(b, es) ensures !In(op.Where(), p) {
      hide PlanEntries, PlanEntry, PlanData;
      PlanIs(b, es, op);
      var i :| 0 <= i < |es| && op in PlanEntry(b, es[i]);
      if p < 16 {
        KeptHeader(b, d, es, op, i);
      } else {
        var j :| 0 <= j < d.count && !IsIdentifyingStream(es[j].streamType)
                 && EntryOffset(d, j) <= p < EntryOffset(d, j) + DIRECTORY_ENTRY_SIZE;
        KeptSlot(b, d, es, op, i, j);
      }
    }
  }

  lemma {:induction false} KeptHeader(b: seq<Byte>, d: Directory, es: seq<Entry>, op: Op, i: nat)
    requires ParseHeader(b) == Ok(d) && es == Entries(b, d) && DirectoryKept(b, d, es)
    requires i < d.count && op in PlanEntry(b, es[i])
    ensures Apart(op.Where(), Span(0, 16))
  {
  }

  lemma {:induction false} KeptSlot(b: seq<Byte>, d: Directory, es: seq<Entry>, op: Op, i: nat, j: nat)
    requires ParseHeader(b) == Ok(d) && es == Entries(b, d) && DirectoryKept(b, d, es)
    requires i < d.count && j < d.count && op in PlanEntry(b, es[i]) && !IsIdentifyingStream(es[j].streamType)
    ensures Apart(op.Where(), Span(EntryOffset(d, j), EntryOffset(d, j) + DIRECTORY_ENTRY_SIZE))
  {
    if i < j {
      SlotsApart(d, i, j);
    } else if j < i {
      SlotsApart(d, j, i);
    }
    if op in PlanData(b, es[i]) {
      assert EntryOffset(d, j) + DIRECTORY_ENTRY_SIZE <= d.rva + d.count * DIRECTORY_ENTRY_SIZE;
    }
  }

  /** The scrubbed dump has the same header; its dropped entries read as empty, the others as before. */
  lemma {:induction false} DirectoryAfter(b: seq<Byte>, d: Directory, es: seq<Entry>, c: seq<Byte>)
    requires ParseHeader(b) == Ok(d) && es == Entries(b, d) && DirectoryKept(b, d, es)
    requires InBounds(PlanEntries(b, es), |b|) && Effect(b, PlanEntries(b, es), c)
    ensures ParseHeader(c) == Ok(d)
    ensures forall j :: 0 <= j < d.count ==>
      Entries(c, d)[j] == if IsIdentifyingStream(es[j].streamType) then Entry(es[j].dirOffset, 0, 0, 0) else es[j]
  {
    forall p: nat | p < 16 ensures c[p] == b[p] {
      KeptByte(b, d, es, p);
    }
    ReadSame(b, c, 0);
    ReadSame(b, c, 8);
    ReadSame(b, c, 12);
    forall j | 0 <= j < d.count
      ensures Entries(c, d)[j] == if IsIdentifyingStream(es[j].streamType) then Entry(es[j].dirOffset, 0, 0, 0) else es[j]
    {
      EntryAfter(b, d, es, c, j);
    }
  }

  lemma {:induction false} EntryAfter(b: seq<Byte>, d: Directory, es: seq<Entry>, c: seq<Byte>, j: nat)
    requires ParseHeader(b) == Ok(d) && es == Entries(b, d) && DirectoryKept(b, d, es) && j < d.count
    requires InBounds(PlanEntries(b, es), |b|) && Effect(b, PlanEntries(b, es), c)
    ensures EntryOffset(d, j) + DIRECTORY_ENTRY_SIZE <= |c|
    ensures EntryAt(c, EntryOffset(d, j))
         == if IsIdentifyingStream(es[j].streamType) then Entry(es[j].dirOffset, 0, 0, 0) else es[j]
  {
    hide Effect, InBounds, PlanEntries, IsIdentifyingStream, DirectoryKept, U32, EntryAt, ZeroedIn, Untouched;
    var off := EntryOffset(d, j);
    EffectLength(b, PlanEntries(b, es), c);
    if IsIdentifyingStream(es[j].streamType) {
      StreamsErased(b, es, c, j);
      SlotIsAt(b, d, j);
      ZeroEntry(c, off);
    } else {
      forall p: nat | off <= p < off + DIRECTORY_ENTRY_SIZE ensures p < |b| == |c| && c[p] == b[p] {
        KeptByte(b, d, es, p);
        UntouchedKept(b, PlanEntries(b, es), c, p);
      }
      SameEntry(b, c, off);
    }
  }

  lemma {:induction false} EffectLength(b: seq<Byte>, ops: seq<Op>, c: seq<Byte>)
    requires InBounds(ops, |b|) && Effect(b, ops, c)
    ensures |b| == |c|
  {
  }

  lemma {:induction false} UntouchedKept(b: seq<Byte>, ops: seq<Op>, c: seq<Byte>, p: nat)
    requires InBounds(ops, |b|) && Effect(b, ops, c) && Untouched(ops, p) && p < |b|
    ensures |b| == |c| && c[p] == b[p]
  {
  }

  lemma {:induction false} SlotIsAt(b: seq<Byte>, d: Directory, j: nat)
    requires d.rva + d.count * DIRECTORY_ENTRY_SIZE <= |b| && j < d.count
    ensures Entries(b, d)[j].dirOffset == EntryOffset(d, j)
  {
  }

  lemma {:induction false} ZeroEntry(c: seq<Byte>, off: nat)
    requires ZeroedIn(c, off, off + DIRECTORY_ENTRY_SIZE)
    ensures EntryAt(c, off) == Entry(off, 0, 0, 0)
  {
    assert forall p :: off <= p < off + DIRECTORY_ENTRY_SIZE ==> c[p] == 0;
  }

  lemma {:induction false} SameEntry(b: seq<Byte>, c: seq<Byte>, off: nat)
    requires off + DIRECTORY_ENTRY_SIZE <= |b| == |c|
    requires forall p: nat :: off <= p < off + DIRECTORY_ENTRY_SIZE ==> c[p] == b[p]
    ensures EntryAt(c, off) == EntryAt(b, off)
  {
    hide U32;
    ReadSame(b, c, off);
    ReadSame(b, c, off + 4);
    ReadSame(b, c, off + 8);
  }

  /** Structure that nothing has written reads the same afterwards. */
  lemma {:induction false} StructureAfter(b: seq<Byte>, es: seq<Entry>, c: seq<Byte>)
    requires Separated(b, es) && InBounds(PlanEntries(b, es), |b|) && Effect(b, PlanEntries(b, es), c)
    ensures Agree(b, c, ReadEntries(b, es))
  {
    forall s, p: nat | s in ReadEntries(b, es) && In(s, p) && p < |b| ensures c[p] == b[p] {
      assert forall op :: op in PlanEntries(b, es) ==> Apart(op.Where(), s);
      assert Untouched(PlanEntries(b, es), p);
    }
  }

  lemma {:induction false} RecordStill(b: seq<Byte>, es: seq<Entry>, c: seq<Byte>, i: nat, k: nat)
    requires Separated(b, es) && InBounds(PlanEntries(b, es), |b|) && Effect(b, PlanEntries(b, es), c)
    requires HasRecord(b, es, i, k)
    ensures CoarsenRecord(c, RecordOffset(es[i].rva, k)) == c
  {
    hide Effect, Separated, InBounds, PlanEntries, ZeroedIn, U32, NameAt, HoldsBasename, IsModuleList, CoarsenRecord;
    NameReadAgain(b, es, c, i, k);
    ModuleCoarsened(b, es, c, i, k);
    RecordUnchanged(b, c, RecordOffset(es[i].rva, k));
  }

  /** A record that is zero where it is zeroed and names a basename is left alone. */
  lemma {:induction false} RecordUnchanged(b: seq<Byte>, c: seq<Byte>, r: nat)
    requires r + MODULE_ENTRY_SIZE <= |b| == |c|
    requires ZeroedIn(c, r + MODULE_CHECKSUM_OFFSET, r + MODULE_NAME_RVA_OFFSET)
    requires var at := r + MODULE_NAME_RVA_OFFSET;
             && U32(c, at) == U32(b, at) && NameAt(c, U32(b, at)) == NameAt(b, U32(b, at))
             && match NameAt(b, U32(b, at))
                case NoName => true
                case Name(lo, units) => HoldsBasename(b, c, lo, units)
    ensures CoarsenRecord(c, r) == c
  {
    var at := r + MODULE_NAME_RVA_OFFSET;
    assert ZeroRange(c, r + MODULE_CHECKSUM_OFFSET, at) == c;
    hide Unit, IsSeparatorUnit, IsSlash, BaseStart, U32, NameAt;
    var n := NameAt(b, U32(b, at));
    if n.Name? {
      forall k | 0 <= k < n.units ensures !IsSeparatorUnit(c, n.lo + 2 * k) {
        SlashIsSeparator(c, n.lo, k);
      }
    }
    NoSeparatorNoCut(c, U32(b, at));
  }

  /** The name a record points to is found in the same place after the scrub. */
  lemma {:induction false} NameReadAgain(b: seq<Byte>, es: seq<Entry>, c: seq<Byte>, i: nat, k: nat)
    requires Separated(b, es) && InBounds(PlanEntries(b, es), |b|) && Effect(b, PlanEntries(b, es), c)
    requires HasRecord(b, es, i, k)
    ensures |b| == |c|
    ensures var at := RecordOffset(es[i].rva, k) + MODULE_NAME_RVA_OFFSET;
            U32(c, at) == U32(b, at) && NameAt(c, U32(b, at)) == NameAt(b, U32(b, at))
  {
    hide Effect, Separated, InBounds, PlanEntries, ReadEntries, ReadRecord, PlanRecord, Agree, U32, NameAt, IsModuleList;
    var r := RecordOffset(es[i].rva, k);
    StructureAfter(b, es, c);
    RecordPlanned(b, es, i, k);
    NameReadsAlike(b, c, r, ReadEntries(b, es));
  }

  lemma {:induction false} NameReadsAlike(b: seq<Byte>, c: seq<Byte>, r: nat, rs: seq<Span>)
    requires r + MODULE_ENTRY_SIZE <= |b| && Agree(b, c, rs)
    requires forall s :: s in ReadRecord(b, r) ==> s in rs
    ensures |b| == |c|
    ensures var at := r + MODULE_NAME_RVA_OFFSET;
            U32(c, at) == U32(b, at) && NameAt(c, U32(b, at)) == NameAt(b, U32(b, at))
  {
    var at := r + MODULE_NAME_RVA_OFFSET;
    var n := U32(b, at);
    assert Span(at, at + 4) in ReadRecord(b, r) && Span(n, n + 4) in ReadRecord(b, r);
    ReadAgree(b, c, rs, at);
    forall p: nat | n <= p < n + 4 && p < |b| ensures c[p] == b[p] {
      assert In(Span(n, n + 4), p);
    }
    SameName(b, c, n);
  }

  lemma {:induction false} RecordsStill(c: seq<Byte>, rva: nat, i: nat, count: nat)
    requires forall k :: i <= k < count && RecordFits(c, rva, k) ==> CoarsenRecord(c, RecordOffset(rva, k)) == c
    ensures CoarsenRecords(c, rva, i, count).buf == c
    decreases count - i
  {
    hide CoarsenRecord;
    if i < count && RecordFits(c, rva, i) {
      RecordsStill(c, rva, i + 1, count);
    }
  }

  /** An entry that no longer changes the buffer nor drops a stream. */
  ghost predicate Still(c: seq<Byte>, e: Entry) {
    && !IsIdentifyingStream(e.streamType)
    && (e.streamType == MODULE_LIST_STREAM ==> CoarsenModuleList(c, e.rva, e.dataSize).buf == c)
  }

  lemma {:induction false} EntriesStill(s: Scrubbed, es: seq<Entry>)
    requires forall i :: 0 <= i < |es| ==> Still(s.buf, es[i])
    ensures var t := ScrubEntries(s, es);
            t.buf == s.buf && t.report.streamsDropped == s.report.streamsDropped
    decreases |es|
  {
    hide CoarsenModuleList;
    if es != [] {
      assert Still(s.buf, es[0]);
      EntriesStill(ScrubEntry(s, es[0]), es[1..]);
    }
  }

  lemma {:induction false} EntryStill(b: seq<Byte>, es: seq<Entry>, c: seq<Byte>, i: nat)
    requires Separated(b, es) && InBounds(PlanEntries(b, es), |b|) && Effect(b, PlanEntries(b, es), c)
    requires i < |es| && !IsIdentifyingStream(es[i].streamType)
    ensures Still(c, es[i])
  {
    var e := es[i];
    if IsModuleList(b, e) {
      StructureAfter(b, es, c);
      assert Span(e.rva, e.rva + 4) in ReadEntry(b, e);
      ReadIs(b, es, i, Span(e.rva, e.rva + 4));
      ReadAgree(b, c, ReadEntries(b, es), e.rva);
      var count := U32(b, e.rva);
      forall k | 0 <= k < count && RecordFits(c, e.rva, k)
        ensures CoarsenRecord(c, RecordOffset(e.rva, k)) == c
      {
        RecordStill(b, es, c, i, k);
      }
      RecordsStill(c, e.rva, 0, count);
    }
  }

  /**
   On a dump that reads as structure nothing it has written and whose header and
   directory no payload or name covers, a second scrub changes no byte and drops
   no stream.
   */
  lemma {:induction false} ScrubTwice(b: seq<Byte>, d: Directory)
    requires ParseHeader(b) == Ok(d)
    requires Separated(b, Entries(b, d)) && DirectoryKept(b, d, Entries(b, d))
    ensures Scrub(b).Ok?
    ensures var c := Scrub(b).value.buf;
            Scrub(c).Ok? && Scrub(c).value.buf == c && Scrub(c).value.report.streamsDropped == 0
  {
    hide Scrub, Still, Effect, InBounds, PlanEntries, Separated, DirectoryKept, IsIdentifyingStream, ParseHeader;
    var es := Entries(b, d);
    ScrubExact(b);
    var c := Scrub(b).value.buf;
    DirectoryAfter(b, d, es, c);
    var fs := Entries(c, d);
    forall i | 0 <= i < |fs| ensures Still(c, fs[i]) {
      if IsIdentifyingStream(es[i].streamType) {
        EmptyEntryStill(c, es[i].dirOffset);
      } else {
        EntryStill(b, es, c, i);
      }
    }
    ScrubStill(c, d);
  }

  lemma {:induction false} EmptyEntryStill(c: seq<Byte>, at: nat)
    ensures Still(c, Entry(at, 0, 0, 0))
  {
  }

  lemma {:induction false} ScrubStill(c: seq<Byte>, d: Directory)
    requires ParseHeader(c) == Ok(d)
    requires forall i :: 0 <= i < d.count ==> Still(c, Entries(c, d)[i])
    ensures Scrub(c).Ok? && Scrub(c).value.buf == c && Scrub(c).value.report.streamsDropped == 0
  {
    hide Still;
    EntriesStill(Scrubbed(c, ScrubReport(0, 0, 0)), Entries(c, d));
  }
}
