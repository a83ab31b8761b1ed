/**
 The exact effect of scrubbing. The minimizer reads offsets out of the very buffer
 it is changing, so its effect is stated against a plan drawn up from the original
 bytes; the two agree whenever nothing that is written is read as structure.
 */
module MinidumpEffect {
  import opened Bytes
  import opened Minidump
  import opened MinidumpLaws

  datatype Span = Span(lo: nat, hi: nat)

  predicate In(s: Span, p: nat) { s.lo <= p < s.hi }

  predicate Apart(s: Span, t: Span) {
    s.lo >= s.hi || t.lo >= t.hi || s.hi <= t.lo || t.hi <= s.lo
  }

  /** One change: wipe a stretch, or cut the name at `lo` to its basename. */
  datatype Op = Wipe(lo: nat, hi: nat) | Base(lo: nat, units: nat)
  {
    function Where(): Span {
      if Wipe? then Span(lo, hi) else Span(lo, lo + 2 * units)
    }
  }

  function Apply(b: seq<Byte>, op: Op): (c: seq<Byte>)
    ensures |c| == |b|
    ensures forall p {:trigger c[p]} :: 0 <= p < |b| && !In(op.Where(), p) ==> c[p] == b[p]
  {
    match op
    case Wipe(lo, hi) => ZeroRange(b, lo, hi)
    case Base(lo, units) => if lo + 2 * units <= |b| then CutName(b, lo, units) else b
  }

  function ApplyAll(b: seq<Byte>, ops: seq<Op>): (c: seq<Byte>)
    ensures |c| == |b|
  {
    if ops == [] then b else Apply(ApplyAll(b, ops[..|ops| - 1]), ops[|ops| - 1])
  }

  lemma {:induction false} ApplyConcat(b: seq<Byte>, x: seq<Op>, y: seq<Op>)
    ensures ApplyAll(b, x + y) == ApplyAll(ApplyAll(b, x), y)
    decreases |y|
  {
    if y == [] {
      assert x + y == x;
    } else {
      var y' := y[..|y| - 1];
      assert (x + y)[..|x + y| - 1] == x + y';
      ApplyConcat(b, x, y');
    }
  }

  // ----- the plan, and what is read while carrying it out

  function PlanRecord(b: seq<Byte>, r: nat): seq<Op>
    requires r + MODULE_ENTRY_SIZE <= |b|
  {
    var fields := Wipe(r + MODULE_CHECKSUM_OFFSET, r + MODULE_NAME_RVA_OFFSET);
    match NameAt(b, U32(b, r + MODULE_NAME_RVA_OFFSET))
    case NoName => [fields]
    case Name(lo, units) => [fields, Base(lo, units)]
  }

  function ReadRecord(b: seq<Byte>, r: nat): seq<Span>
    requires r + MODULE_ENTRY_SIZE <= |b|
  {
    var at := r + MODULE_NAME_RVA_OFFSET;
    [Span(at, at + 4), Span(U32(b, at), U32(b, at) + 4)]
  }

  /** The records of a module list that fit the buffer. */
  predicate RecordFits(b: seq<Byte>, rva: nat, i: nat) {
    RecordOffset(rva, i) + MODULE_ENTRY_SIZE <= |b|
  }

  function PlanRecords(b: seq<Byte>, rva: nat, i: nat, count: nat): seq<Op>
    decreases count - i
  {
    if i >= count || !RecordFits(b, rva, i) then []
    else PlanRecord(b, RecordOffset(rva, i)) + PlanRecords(b, rva, i + 1, count)
  }

  function ReadRecords(b: seq<Byte>, rva: nat, i: nat, count: nat): seq<Span>
    decreases count - i
  {
    if i >= count || !RecordFits(b, rva, i) then []
    else ReadRecord(b, RecordOffset(rva, i)) + ReadRecords(b, rva, i + 1, count)
  }

  function RecordCount(b: seq<Byte>, rva: nat, i: nat, count: nat): nat
    decreases count - i
  {
    if i >= count || !RecordFits(b, rva, i) then 0 else 1 + RecordCount(b, rva, i + 1, count)
  }

  /** Everything one entry changes except its own directory slot. */
  function PlanData(b: seq<Byte>, e: Entry): seq<Op> {
    if IsIdentifyingStream(e.streamType) then
      if PayloadInBounds(b, e) then [Wipe(e.rva, e.rva + e.dataSize)] else []
    else if e.streamType == MODULE_LIST_STREAM && ModuleListReadable(b, e.rva, e.dataSize) then
      PlanRecords(b, e.rva, 0, U32(b, e.rva))
    else []
  }

  function PlanEntry(b: seq<Byte>, e: Entry): seq<Op> {
    PlanData(b, e)
    + (if IsIdentifyingStream(e.streamType) then [Wipe(e.dirOffset, e.dirOffset + DIRECTORY_ENTRY_SIZE)] else [])
  }

  function ReadEntry(b: seq<Byte>, e: Entry): seq<Span> {
    if !IsIdentifyingStream(e.streamType) && e.streamType == MODULE_LIST_STREAM
       && ModuleListReadable(b, e.rva, e.dataSize) then
      [Span(e.rva, e.rva + 4)] + ReadRecords(b, e.rva, 0, U32(b, e.rva))
    else []
  }

  function PlanEntries(b: seq<Byte>, es: seq<Entry>): seq<Op> {
    if es == [] then [] else PlanEntry(b, es[0]) + PlanEntries(b, es[1..])
  }

  function ReadEntries(b: seq<Byte>, es: seq<Entry>): seq<Span> {
    if es == [] then [] else ReadEntry(b, es[0]) + ReadEntries(b, es[1..])
  }

  /** No change falls on a stretch that is read as structure. */
  ghost predicate Undisturbed(ops: seq<Op>, rs: seq<Span>) {
    forall op, s :: op in ops && s in rs ==> Apart(op.Where(), s)
  }

  /** Names meet no other change; they may coincide. */
  ghost predicate Compatible(ops: seq<Op>) {
    forall x, y :: x in ops && y in ops && x.Base? && x != y ==> Apart(x.Where(), y.Where())
  }

  // ----- the code carries out the plan

  ghost predicate Agree(b: seq<Byte>, c: seq<Byte>, rs: seq<Span>) {
    |b| == |c| && forall s, p: nat {:trigger In(s, p)} :: s in rs && In(s, p) && p < |b| ==> c[p] == b[p]
  }

  lemma {:induction false} ApplyAgree(b: seq<Byte>, c: seq<Byte>, ops: seq<Op>, rs: seq<Span>)
    requires Agree(b, c, rs) && Undisturbed(ops, rs)
    ensures Agree(b, ApplyAll(c, ops), rs)
  {
    if ops != [] {
      var front, last := ops[..|ops| - 1], ops[|ops| - 1];
      ApplyAgree(b, c, front, rs);
      assert last in ops;
    }
  }

  lemma {:induction false} ReadAgree(b: seq<Byte>, c: seq<Byte>, rs: seq<Span>, off: nat)
    requires Agree(b, c, rs) && Span(off, off + 4) in rs && off + 4 <= |b|
    ensures U32(c, off) == U32(b, off)
  {
    var s := Span(off, off + 4);
    assert In(s, off) && In(s, off + 1) && In(s, off + 2) && In(s, off + 3);
  }

  lemma {:induction false} CarryRecord(b: seq<Byte>, c: seq<Byte>, r: nat, rs: seq<Span>)
    requires r + MODULE_ENTRY_SIZE <= |b| && Agree(b, c, rs)
    requires forall s :: s in ReadRecord(b, r) ==> s in rs
    requires Undisturbed(PlanRecord(b, r), rs)
    ensures CoarsenRecord(c, r) == ApplyAll(c, PlanRecord(b, r))
  {
    var at := r + MODULE_NAME_RVA_OFFSET;
    var fields := Wipe(r + MODULE_CHECKSUM_OFFSET, at);
    var n := U32(b, at);
    assert Span(at, at + 4) in ReadRecord(b, r) && Span(n, n + 4) in ReadRecord(b, r);
    ReadAgree(b, c, rs, at);
    var z := ZeroRange(c, fields.lo, fields.hi);
    assert U32(z, at) == n;
    assert fields in PlanRecord(b, r);
    forall p | n <= p < n + 4 && p < |b| ensures z[p] == b[p] {
      assert In(Span(n, n + 4), p);
    }
    SameName(b, z, n);
    hide U32, ReadRecord, Agree, Undisturbed, NameAt, CutName, ZeroRange;
    ApplyTwo(c, fields, if NameAt(b, n).Name? then Base(NameAt(b, n).lo, NameAt(b, n).units) else fields);
  }

  lemma {:induction false} ApplyTwo(c: seq<Byte>, x: Op, y: Op)
    ensures ApplyAll(c, [x]) == Apply(c, x)
    ensures ApplyAll(c, [x, y]) == Apply(Apply(c, x), y)
  {
    assert ApplyAll(c, []) == c;
    assert [x][..0] == [] && [x, y][..1] == [x];
    assert ApplyAll(c, [x]) == Apply(c, x);
  }

  lemma {:induction false} CarryRecords(b: seq<Byte>, c: seq<Byte>, rva: nat, i: nat, count: nat, rs: seq<Span>)
    requires Agree(b, c, rs)
    requires forall s :: s in ReadRecords(b, rva, i, count) ==> s in rs
    requires Undisturbed(PlanRecords(b, rva, i, count), rs)
    ensures CoarsenRecords(c, rva, i, count)
         == Coarsened(ApplyAll(c, PlanRecords(b, rva, i, count)), Saturate(RecordCount(b, rva, i, count)))
    decreases count - i
  {
    hide CoarsenRecord, PlanRecord, ReadRecord, Agree, RecordOffset;
    if i < count && RecordFits(b, rva, i) {
      assert |b| == |c| by { AgreeLength(b, c, rs); }
      var r := RecordOffset(rva, i);
      var here, later := PlanRecord(b, r), PlanRecords(b, rva, i + 1, count);
      CarryRecord(b, c, r, rs);
      ApplyAgree(b, c, here, rs);
      CarryRecords(b, ApplyAll(c, here), rva, i + 1, count, rs);
      ApplyConcat(c, here, later);
    } else {
      AgreeLength(b, c, rs);
    }
  }

  lemma {:induction false} AgreeLength(b: seq<Byte>, c: seq<Byte>, rs: seq<Span>)
    requires Agree(b, c, rs)
    ensures |b| == |c|
  {
  }

  predicate IsModuleList(b: seq<Byte>, e: Entry) {
    && !IsIdentifyingStream(e.streamType) && e.streamType == MODULE_LIST_STREAM
    && ModuleListReadable(b, e.rva, e.dataSize)
  }

  /** The report one entry adds, read off the original bytes. */
  function CountEntry(b: seq<Byte>, n: ScrubReport, e: Entry): ScrubReport {
    if IsIdentifyingStream(e.streamType) then
      ScrubReport(n.streamsDropped + 1, n.modulesCoarsened,
                  n.bytesZeroed + if PayloadInBounds(b, e) then e.dataSize else 0)
    else if IsModuleList(b, e) then
      n.(modulesCoarsened := n.modulesCoarsened + RecordCount(b, e.rva, 0, U32(b, e.rva)))
    else n
  }

  function CountEntries(b: seq<Byte>, n: ScrubReport, es: seq<Entry>): ScrubReport
    decreases |es|
  {
    if es == [] then n else CountEntries(b, CountEntry(b, n, es[0]), es[1..])
  }

  function SaturateReport(n: ScrubReport): ScrubReport {
    ScrubReport(Saturate(n.streamsDropped), Saturate(n.modulesCoarsened), Saturate(n.bytesZeroed))
  }

  lemma {:induction false} CarryEntry(b: seq<Byte>, c: seq<Byte>, n: ScrubReport, e: Entry, rs: seq<Span>)
    requires Agree(b, c, rs)
    requires forall s :: s in ReadEntry(b, e) ==> s in rs
    requires Undisturbed(PlanEntry(b, e), rs)
    ensures ScrubEntry(Scrubbed(c, SaturateReport(n)), e)
         == Scrubbed(ApplyAll(c, PlanEntry(b, e)), SaturateReport(CountEntry(b, n, e)))
  {
    AgreeLength(b, c, rs);
    if IsIdentifyingStream(e.streamType) {
      var slot := Wipe(e.dirOffset, e.dirOffset + DIRECTORY_ENTRY_SIZE);
      ApplyConcat(c, PlanData(b, e), [slot]);
      ApplyOne(ApplyAll(c, PlanData(b, e)), slot);
      if PayloadInBounds(b, e) {
        ApplyOne(c, Wipe(e.rva, e.rva + e.dataSize));
      }
    } else if IsModuleList(b, e) {
      assert Span(e.rva, e.rva + 4) in ReadEntry(b, e);
      ReadAgree(b, c, rs, e.rva);
      assert PlanEntry(b, e) == PlanRecords(b, e.rva, 0, U32(b, e.rva));
      CarryRecords(b, c, e.rva, 0, U32(b, e.rva), rs);
    }
  }

  lemma {:induction false} ApplyOne(c: seq<Byte>, op: Op)
    ensures ApplyAll(c, [op]) == Apply(c, op)
  {
    assert [op][..0] == [];
  }

  lemma {:induction false} CarryEntries(b: seq<Byte>, c: seq<Byte>, n: ScrubReport, es: seq<Entry>, rs: seq<Span>)
    requires Agree(b, c, rs)
    requires forall s :: s in ReadEntries(b, es) ==> s in rs
    requires Undisturbed(PlanEntries(b, es), rs)
    ensures ScrubEntries(Scrubbed(c, SaturateReport(n)), es)
         == Scrubbed(ApplyAll(c, PlanEntries(b, es)), SaturateReport(CountEntries(b, n, es)))
    decreases |es|
  {
    hide ScrubEntry, PlanEntry, ReadEntry, CountEntry, Agree;
    if es != [] {
      var here, later := PlanEntry(b, es[0]), PlanEntries(b, es[1..]);
      CarryEntry(b, c, n, es[0], rs);
      ApplyAgree(b, c, here, rs);
      CarryEntries(b, ApplyAll(c, here), CountEntry(b, n, es[0]), es[1..], rs);
      ApplyConcat(c, here, later);
    }
  }

  /** A dump that never reads as structure what it has written, and whose names meet no other change. */
  ghost predicate Separated(b: seq<Byte>, es: seq<Entry>) {
    && Undisturbed(PlanEntries(b, es), ReadEntries(b, es))
    && Compatible(PlanEntries(b, es))
  }

  /** On such a dump the buffer ends as the plan says, and the report is exact up to saturation. */
  lemma {:induction false} ScrubCarriesPlan(b: seq<Byte>)
    requires ParseHeader(b).Ok?
    requires var es := Entries(b, ParseHeader(b).value); Separated(b, es)
    ensures var es := Entries(b, ParseHeader(b).value);
            Scrub(b) == Ok(Scrubbed(ApplyAll(b, PlanEntries(b, es)),
                                    SaturateReport(CountEntries(b, ScrubReport(0, 0, 0), es))))
  {
    var es := Entries(b, ParseHeader(b).value);
    CarryEntries(b, b, ScrubReport(0, 0, 0), es, ReadEntries(b, es));
  }

  // ----- the effect, byte by byte

  ghost predicate InBounds(ops: seq<Op>, n: nat) {
    forall op :: op in ops ==> op.Where().hi <= n
  }

  /** Wiped bytes are zero, names hold their basename, every other byte is as before. */
  ghost predicate Effect(b: seq<Byte>, ops: seq<Op>, c: seq<Byte>)
    requires InBounds(ops, |b|)
  {
    && |c| == |b|
    && (forall op, p: nat {:trigger In(op.Where(), p)} :: op in ops && In(op.Where(), p) ==>
          c[p] == if op.Wipe? then 0 else NameByte(b, op.lo, op.units, p))
    && (forall p: nat {:trigger c[p]} :: p < |b| && Untouched(ops, p) ==> c[p] == b[p])
  }

  ghost predicate Untouched(ops: seq<Op>, p: nat) {
    forall op :: op in ops ==> !In(op.Where(), p)
  }

  /** A name that already holds its basename is cut to itself. */
  lemma {:induction false} BaseAgain(b: seq<Byte>, c: seq<Byte>, lo: nat, units: nat)
    requires lo + 2 * units <= |b| == |c|
    requires forall p: nat :: lo <= p < lo + 2 * units ==> c[p] == NameByte(b, lo, units, p)
    ensures BaseStart(c, lo, units) == 0 && CutName(c, lo, units) == c
  {
    hide BaseStart, IsSeparatorUnit, IsSlash;
    var d := CutName(b, lo, units);
    forall k | 0 <= k < units ensures !IsSeparatorUnit(c, lo + 2 * k) {
      CutUnit(b, lo, units, k);
      assert Unit(c, lo, k) == Unit(d, lo, k);
      SlashIsSeparator(c, lo, k);
    }
    NoSeparatorNoBase(c, lo, units);
    var e := CutName(c, lo, units);
    forall p | 0 <= p < |c| ensures e[p] == c[p] {
    }
  }

  /** Where two buffers agree on a name, they cut it alike. */
  lemma {:induction false} BaseAlike(b: seq<Byte>, c: seq<Byte>, lo: nat, units: nat)
    requires lo + 2 * units <= |b| == |c|
    requires forall p :: lo <= p < lo + 2 * units ==> c[p] == b[p]
    ensures BaseStart(c, lo, units) == BaseStart(b, lo, units)
  {
    if units > 0 {
      BaseAlike(b, c, lo, units - 1);
    }
  }

  lemma {:induction false} CutAlike(b: seq<Byte>, c: seq<Byte>, lo: nat, units: nat)
    requires lo + 2 * units <= |b| == |c|
    requires forall p :: lo <= p < lo + 2 * units ==> c[p] == b[p]
    ensures forall p {:trigger NameByte(b, lo, units, p)} :: lo <= p < lo + 2 * units ==>
      NameByte(c, lo, units, p) == NameByte(b, lo, units, p)
  {
    BaseAlike(b, c, lo, units);
    hide BaseStart;
  }

  /** One more change, on top of those already made. */
  lemma {:induction false} EffectStep(b: seq<Byte>, c: seq<Byte>, front: seq<Op>, last: Op)
    requires InBounds(front + [last], |b|) && Compatible(front + [last])
    requires InBounds(front, |b|) && Effect(b, front, c)
    ensures Effect(b, front + [last], Apply(c, last))
  {
    var ops, d := front + [last], Apply(c, last);
    assert last in ops;
    if last.Base? {
      BaseStep(b, c, front, last);
    }
    forall op, p: nat | op in ops && In(op.Where(), p)
      ensures d[p] == if op.Wipe? then 0 else NameByte(b, op.lo, op.units, p)
    {
      if op != last {
        assert op in front;
        assert In(last.Where(), p) ==> op.Wipe? && last.Wipe?;
      }
    }
    forall p: nat | p < |b| && Untouched(ops, p) ensures d[p] == b[p] {
      assert Untouched(front, p);
    }
  }

  lemma {:induction false} BaseStep(b: seq<Byte>, c: seq<Byte>, front: seq<Op>, last: Op)
    requires last.Base? && InBounds(front + [last], |b|) && Compatible(front + [last])
    requires InBounds(front, |b|) && Effect(b, front, c)
    ensures forall p: nat {:trigger In(last.Where(), p)} :: In(last.Where(), p) ==>
      Apply(c, last)[p] == NameByte(b, last.lo, last.units, p)
  {
    hide NameByte;
    assert last in front + [last];
    if last in front {
      forall p: nat | last.lo <= p < last.lo + 2 * last.units
        ensures c[p] == NameByte(b, last.lo, last.units, p)
      {
        assert In(last.Where(), p);
      }
      BaseAgain(b, c, last.lo, last.units);
    } else {
      forall p: nat | last.lo <= p < last.lo + 2 * last.units ensures c[p] == b[p] {
        assert In(last.Where(), p);
        forall op | op in front ensures !In(op.Where(), p) {
          assert op in front + [last];
        }
        assert Untouched(front, p);
      }
      CutAlike(b, c, last.lo, last.units);
    }
  }

  lemma {:induction false} ApplyAllEffect(b: seq<Byte>, ops: seq<Op>)
    requires InBounds(ops, |b|) && Compatible(ops)
    ensures Effect(b, ops, ApplyAll(b, ops))
  {
    if ops != [] {
      var front, last := ops[..|ops| - 1], ops[|ops| - 1];
      assert ops == front + [last];
      ApplyAllEffect(b, front);
      EffectStep(b, ApplyAll(b, front), front, last);
    }
  }

  lemma {:induction false} PlanRecordsInBounds(b: seq<Byte>, rva: nat, i: nat, count: nat)
    ensures InBounds(PlanRecords(b, rva, i, count), |b|)
    decreases count - i
  {
    if i < count && RecordFits(b, rva, i) {
      PlanRecordsInBounds(b, rva, i + 1, count);
    }
  }

  predicate SlotsInBounds(b: seq<Byte>, es: seq<Entry>) {
    forall i :: 0 <= i < |es| ==> es[i].dirOffset + DIRECTORY_ENTRY_SIZE <= |b|
  }

  lemma {:induction false} PlanInBounds(b: seq<Byte>, es: seq<Entry>)
    requires SlotsInBounds(b, es)
    ensures InBounds(PlanEntries(b, es), |b|)
  {
    if es != [] {
      var e := es[0];
      PlanInBounds(b, es[1..]);
      if IsModuleList(b, e) {
        PlanRecordsInBounds(b, e.rva, 0, U32(b, e.rva));
      }
      assert InBounds(PlanEntry(b, e), |b|);
    }
  }

  /**
   Exact effect: on a dump that reads as structure nothing it has written, every
   planned stretch ends wiped or cut to its basename, every other byte is
   unchanged, and the counts are those of the original dump, saturated.
   */
  lemma {:induction false} ScrubExact(b: seq<Byte>)
    requires ParseHeader(b).Ok?
    requires Separated(b, Entries(b, ParseHeader(b).value))
    ensures var es := Entries(b, ParseHeader(b).value);
            && InBounds(PlanEntries(b, es), |b|)
            && Scrub(b).Ok? && Effect(b, PlanEntries(b, es), Scrub(b).value.buf)
            && Scrub(b).value.report == SaturateReport(CountEntries(b, ScrubReport(0, 0, 0), es))
  {
    var es := Entries(b, ParseHeader(b).value);
    PlanInBounds(b, es);
    ApplyAllEffect(b, PlanEntries(b, es));
    ScrubCarriesPlan(b);
  }
}
