/**
 What the minimizer does to any buffer at all, and exactly what it does to a dump
 whose written stretches are never read as structure.
 */
module MinidumpLaws {
  import opened Bytes
  import opened Minidump

  // ----- any buffer: bytes only move forward or become zero

  /** Every byte of `c` is zero or stood at the same or a later offset of `b`. */
  ghost predicate ForwardOnly(b: seq<Byte>, c: seq<Byte>) {
    |c| == |b| && forall p {:trigger c[p]} :: 0 <= p < |b| ==> c[p] == 0 || ComesFrom(b, p, c[p])
  }

  ghost predicate ComesFrom(b: seq<Byte>, p: nat, x: Byte) {
    exists q :: p <= q < |b| && b[q] == x
  }

  lemma {:induction false} ForwardRefl(b: seq<Byte>)
    ensures ForwardOnly(b, b)
  {
  }

  lemma {:induction false} ForwardTrans(a: seq<Byte>, b: seq<Byte>, c: seq<Byte>)
    requires ForwardOnly(a, b) && ForwardOnly(b, c)
    ensures ForwardOnly(a, c)
  {
    forall p | 0 <= p < |a| ensures c[p] == 0 || ComesFrom(a, p, c[p]) {
      if c[p] != 0 {
        var q :| p <= q < |b| && b[q] == c[p];
        var r :| q <= r < |a| && a[r] == b[q];
        assert p <= r < |a| && a[r] == c[p];
      }
    }
  }

  lemma {:induction false} ForwardZero(b: seq<Byte>, lo: nat, hi: nat)
    ensures ForwardOnly(b, ZeroRange(b, lo, hi))
  {
  }

  lemma {:induction false} ForwardName(b: seq<Byte>, rva: nat)
    ensures ForwardOnly(b, CoarsenName(b, rva))
  {
    var n := NameAt(b, rva);
    if n.Name? {
      var c := CutName(b, n.lo, n.units);
      forall p | 0 <= p < |b| ensures c[p] == 0 || ComesFrom(b, p, c[p]) {
        if n.lo <= p < n.lo + 2 * n.units {
          var src := p + 2 * BaseStart(b, n.lo, n.units);
          if src < n.lo + 2 * n.units {
            assert c[p] == b[src];
          }
        }
      }
    }
  }

  lemma {:induction false} ForwardRecord(b: seq<Byte>, r: nat)
    requires r + MODULE_ENTRY_SIZE <= |b|
    ensures ForwardOnly(b, CoarsenRecord(b, r))
  {
    var z := ZeroRange(b, r + MODULE_CHECKSUM_OFFSET, r + MODULE_NAME_RVA_OFFSET);
    var n := U32(z, r + MODULE_NAME_RVA_OFFSET);
    ForwardZero(b, r + MODULE_CHECKSUM_OFFSET, r + MODULE_NAME_RVA_OFFSET);
    ForwardName(z, n);
    ForwardTrans(b, z, CoarsenName(z, n));
  }

  lemma {:induction false} ForwardRecords(b: seq<Byte>, rva: nat, i: nat, count: nat)
    ensures ForwardOnly(b, CoarsenRecords(b, rva, i, count).buf)
    decreases count - i
  {
    hide CoarsenRecord, ForwardOnly;
    ForwardRefl(b);
    if i < count && RecordOffset(rva, i) + MODULE_ENTRY_SIZE <= |b| {
      var c := CoarsenRecord(b, RecordOffset(rva, i));
      ForwardRecord(b, RecordOffset(rva, i));
      ForwardRecords(c, rva, i + 1, count);
      ForwardTrans(b, c, CoarsenRecords(c, rva, i + 1, count).buf);
    }
  }

  lemma {:induction false} ForwardEntry(s: Scrubbed, e: Entry)
    ensures ForwardOnly(s.buf, ScrubEntry(s, e).buf)
  {
    hide ForwardOnly, CoarsenRecords;
    ForwardRefl(s.buf);
    var wiped := if PayloadInBounds(s.buf, e) then ZeroRange(s.buf, e.rva, e.rva + e.dataSize) else s.buf;
    ForwardZero(s.buf, e.rva, e.rva + e.dataSize);
    ForwardZero(wiped, e.dirOffset, e.dirOffset + DIRECTORY_ENTRY_SIZE);
    ForwardTrans(s.buf, wiped, ZeroRange(wiped, e.dirOffset, e.dirOffset + DIRECTORY_ENTRY_SIZE));
    if ModuleListReadable(s.buf, e.rva, e.dataSize) {
      ForwardRecords(s.buf, e.rva, 0, U32(s.buf, e.rva));
    }
  }

  lemma {:induction false} ForwardEntries(s: Scrubbed, es: seq<Entry>)
    ensures ForwardOnly(s.buf, ScrubEntries(s, es).buf)
    decreases |es|
  {
    hide ForwardOnly, ScrubEntry;
    ForwardRefl(s.buf);
    if es != [] {
      var t := ScrubEntry(s, es[0]);
      ForwardEntry(s, es[0]);
      ForwardEntries(t, es[1..]);
      ForwardTrans(s.buf, t.buf, ScrubEntries(t, es[1..]).buf);
    }
  }

  /**
   For every byte buffer, well formed or not: scrubbing keeps the length, and each
   output byte is zero or an input byte from the same or a later offset. Nothing
   is ever copied towards the end of the file.
   */
  lemma {:induction false} ScrubForwardOnly(b: seq<Byte>)
    requires Scrub(b).Ok?
    ensures ForwardOnly(b, Scrub(b).value.buf)
  {
    ForwardEntries(Scrubbed(b, ScrubReport(0, 0, 0)), Entries(b, ParseHeader(b).value));
  }

  // ----- names

  /** The code unit `k` of a name. */
  function Unit(b: seq<Byte>, lo: nat, k: nat): (Byte, Byte)
    requires lo + 2 * k + 2 <= |b|
  {
    (b[lo + 2 * k], b[lo + 2 * k + 1])
  }

  /** The code unit of `/` or `\`, low byte first. */
  predicate IsSlash(u: (Byte, Byte)) {
    u == (0x2F, 0) || u == (0x5C, 0)
  }

  /** In `c` the string holds the units of `b` from unit `base` on, which is the first or follows a slash, then zeros; no slash is left. */
  ghost predicate BasenameFrom(b: seq<Byte>, c: seq<Byte>, lo: nat, units: nat, base: nat)
    requires lo + 2 * units <= |b| == |c|
  {
    && base <= units && (base == 0 || IsSlash(Unit(b, lo, base - 1)))
    && (forall k :: 0 <= k < units ==>
          Unit(c, lo, k) == if k < units - base then Unit(b, lo, base + k) else (0, 0))
    && (forall k :: 0 <= k < units ==> !IsSlash(Unit(c, lo, k)))
  }

  /** In `c` the string holds the code units after its last slash in `b`, then zeros. */
  ghost predicate HoldsBasename(b: seq<Byte>, c: seq<Byte>, lo: nat, units: nat)
    requires lo + 2 * units <= |b| == |c|
  {
    exists base: nat :: BasenameFrom(b, c, lo, units, base)
  }

  ghost predicate SameOutside(b: seq<Byte>, c: seq<Byte>, lo: nat, hi: nat) {
    |b| == |c| && forall p {:trigger c[p]} :: 0 <= p < |b| && !(lo <= p < hi) ==> c[p] == b[p]
  }

  /** Names are read alike where their length prefixes agree. */
  lemma {:induction false} SameName(b: seq<Byte>, c: seq<Byte>, rva: nat)
    requires |b| == |c| && forall p :: rva <= p < rva + 4 && p < |b| ==> c[p] == b[p]
    ensures NameAt(c, rva) == NameAt(b, rva)
  {
    if rva + 4 <= |b| {
      assert U32(c, rva) == U32(b, rva);
    }
  }

  /**
   For any even, non-zero, in-bounds length: the string becomes the code units after
   its last `/` or `\`, followed by zeros; no separator is left in it, and its
   length prefix and every byte outside it are unchanged.
   */
  lemma {:induction false} NameBecomesBasename(b: seq<Byte>, rva: nat)
    requires NameAt(b, rva).Name?
    ensures var Name(lo, units) := NameAt(b, rva);
            var c := CoarsenName(b, rva);
            HoldsBasename(b, c, lo, units) && SameOutside(b, c, lo, lo + 2 * units) && NameAt(c, rva) == NameAt(b, rva)
  {
    var Name(lo, units) := NameAt(b, rva);
    CutHoldsBasename(b, lo, units);
    SameName(b, CoarsenName(b, rva), rva);
  }

  lemma {:induction false} CutHoldsBasename(b: seq<Byte>, lo: nat, units: nat)
    requires lo + 2 * units <= |b|
    ensures HoldsBasename(b, CutName(b, lo, units), lo, units)
  {
    hide BaseStart, CutName;
    var c, base := CutName(b, lo, units), BaseStart(b, lo, units);
    forall k | 0 <= k < units
      ensures Unit(c, lo, k) == if k < units - base then Unit(b, lo, base + k) else (0, 0)
      ensures !IsSlash(Unit(c, lo, k))
    {
      CutUnit(b, lo, units, k);
    }
    assert BasenameFrom(b, c, lo, units, base);
  }

  lemma {:induction false} CutUnit(b: seq<Byte>, lo: nat, units: nat, k: nat)
    requires k < units && lo + 2 * units <= |b|
    ensures var c, base := CutName(b, lo, units), BaseStart(b, lo, units);
            && Unit(c, lo, k) == (if k < units - base then Unit(b, lo, base + k) else (0, 0))
            && !IsSlash(Unit(c, lo, k)) && !IsSeparatorUnit(c, lo + 2 * k)
  {
    var c, base, p := CutName(b, lo, units), BaseStart(b, lo, units), lo + 2 * k;
    assert c[p] == NameByte(b, lo, units, p) && c[p + 1] == NameByte(b, lo, units, p + 1);
    if k < units - base {
      assert b[lo + 2 * (base + k) + 1] == c[p + 1];
    }
  }

  lemma {:induction false} SlashIsSeparator(b: seq<Byte>, lo: nat, k: nat)
    requires lo + 2 * k + 2 <= |b|
    ensures IsSlash(Unit(b, lo, k)) <==> IsSeparatorUnit(b, lo + 2 * k)
  {
  }

  lemma {:induction false} NoSeparatorNoBase(c: seq<Byte>, lo: nat, units: nat)
    requires lo + 2 * units <= |c| && forall k :: 0 <= k < units ==> !IsSeparatorUnit(c, lo + 2 * k)
    ensures BaseStart(c, lo, units) == 0
  {
    if units > 0 {
      NoSeparatorNoBase(c, lo, units - 1);
      assert !IsSeparatorUnit(c, lo + 2 * (units - 1));
    }
  }

  lemma {:induction false} NoSeparatorNoCut(c: seq<Byte>, rva: nat)
    requires NameAt(c, rva).Name? ==>
      var Name(lo, units) := NameAt(c, rva); forall k :: 0 <= k < units ==> !IsSeparatorUnit(c, lo + 2 * k)
    ensures CoarsenName(c, rva) == c
  {
    var n := NameAt(c, rva);
    if n.Name? {
      NoSeparatorNoBase(c, n.lo, n.units);
      var d := CutName(c, n.lo, n.units);
      forall p | 0 <= p < |c| ensures d[p] == c[p] {
      }
    }
  }

  /** Cutting a name again changes nothing, whatever the bytes. */
  lemma {:induction false} NameIdempotent(b: seq<Byte>, rva: nat)
    ensures CoarsenName(CoarsenName(b, rva), rva) == CoarsenName(b, rva)
  {
    hide CoarsenName, IsSeparatorUnit, IsSlash, Unit;
    if NameAt(b, rva).Name? {
      NameBecomesBasename(b, rva);
      var c, n := CoarsenName(b, rva), NameAt(b, rva);
      forall k | 0 <= k < n.units ensures !IsSeparatorUnit(c, n.lo + 2 * k) {
        SlashIsSeparator(c, n.lo, k);
      }
    } else {
      NoNameNoCut(b, rva);
    }
    NoSeparatorNoCut(CoarsenName(b, rva), rva);
  }

  lemma {:induction false} NoNameNoCut(b: seq<Byte>, rva: nat)
    requires NameAt(b, rva).NoName?
    ensures CoarsenName(b, rva) == b
  {
  }
}
