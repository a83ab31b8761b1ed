/**
 The capture monitor: read the raw dump, minimize it, delete the raw file, and only
 then spool the minimized bytes. Every fault combination is an input.
 */
module Monitor {
  import opened Bytes
  import opened Minidump
  import Laws = MinidumpLaws
  import Effects = MinidumpEffect
  import Twice = MinidumpTwice

  /** The user-visible failure classes; their texts carry nothing else. */
  datatype Reason = NotCreated | NotProcessed | NotCleaned | NotSaved

  datatype CaptureOutcome = MinidumpWritten(scrub: ScrubReport) | CaptureFailed(reason: Reason)

  /**
   How spooling ends: saved; not saved; or saved and then failed while enforcing the
   budget, which the caller cannot tell from the second.
   */
  datatype Spooling = Saved | Refused | SavedThenFailed

  /** Which file operations succeed during one capture. */
  datatype Faults = Faults(readOk: bool, deleteOk: bool, spooling: Spooling)

  /** What the writer hands over: a dump file with these bytes, or its own failure. */
  datatype Capture = Written(raw: seq<Byte>, faults: Faults) | WriterFailed

  datatype RawFile = Absent | Present(bytes: seq<Byte>)

  /** Side effects on durable storage, in order. */
  datatype Effect = RawDeleted | Spooled(bytes: seq<Byte>)

  datatype State = State(raw: RawFile, spool: seq<seq<Byte>>, outcomes: seq<CaptureOutcome>, log: seq<Effect>)

  /** The bytes that may be persisted: only a successful scrub has any. */
  predicate Clears(c: Capture) {
    c.Written? && c.faults.readOk && c.faults.deleteOk && Scrub(c.raw).Ok?
  }

  function Outcome(c: Capture): CaptureOutcome {
    match c
    case WriterFailed => CaptureFailed(NotCreated)
    case Written(raw, f) =>
      if !f.readOk then CaptureFailed(NotProcessed)
      else match Scrub(raw)
        case Err(_) => CaptureFailed(NotCleaned)
        case Ok(s) =>
          if !f.deleteOk then CaptureFailed(NotProcessed)
          else if f.spooling.Saved? then MinidumpWritten(s.report) else CaptureFailed(NotSaved)
  }

  /** The outcome of a capture, case by case; what is reported as written is what was saved. */
  lemma {:induction false} OutcomeIs(c: Capture)
    ensures Outcome(c).MinidumpWritten? <==> Clears(c) && c.faults.spooling.Saved?
    ensures Outcome(c).MinidumpWritten? ==> Outcome(c).scrub == Scrub(c.raw).value.report
    ensures Outcome(c) == CaptureFailed(NotCreated) <==> c.WriterFailed?
    ensures Outcome(c) == CaptureFailed(NotCleaned) <==> c.Written? && c.faults.readOk && Scrub(c.raw).Err?
    ensures Outcome(c) == CaptureFailed(NotProcessed)
            <==> c.Written? && (!c.faults.readOk || (Scrub(c.raw).Ok? && !c.faults.deleteOk))
    ensures Outcome(c) == CaptureFailed(NotSaved) <==> Clears(c) && !c.faults.spooling.Saved?
  {
    hide Scrub;
  }

  class MonitorHandler {
    var raw: RawFile
    var spool: seq<seq<Byte>>
    var outcomes: seq<CaptureOutcome>
    ghost var log: seq<Effect>

    ghost function View(): State
      reads this
    {
      State(raw, spool, outcomes, log)
    }

    constructor ()
      ensures View() == State(Absent, [], [], [])
    {
      raw, spool, outcomes, log := Absent, [], [], [];
    }

    method Record(outcome: CaptureOutcome)
      modifies this`outcomes
      ensures outcomes == old(outcomes) + [outcome]
    {
      outcomes := outcomes + [outcome];
    }

    method TakeOutcomes() returns (taken: seq<CaptureOutcome>)
      modifies this`outcomes
      ensures taken == old(outcomes) && outcomes == []
    {
      taken := outcomes;
      outcomes := [];
    }

    /** `std::fs::remove_file` on the raw dump. */
    method RemoveRaw(deleteOk: bool) returns (ok: bool)
      modifies this`raw, this`log
      ensures ok == deleteOk
      ensures if deleteOk then raw == Absent && log == old(log) + [RawDeleted] else raw == old(raw) && log == old(log)
    {
      ok := deleteOk;
      if deleteOk {
        raw := Absent;
        log := log + [RawDeleted];
      }
    }

    /**
     Exactly one outcome is recorded, whatever fails. The spool gains the scrubbed
     bytes precisely when reading, scrubbing and deleting succeed and the spool does
     not refuse them (it may save them and fail afterwards); the deletion is logged
     before the spooling. Otherwise it gains nothing.
     */
    method MinimizeDeleteAndSpool(f: Faults)
      requires raw.Present?
      modifies this
      ensures var c := Written(old(raw.bytes), f);
              && outcomes == old(outcomes) + [Outcome(c)]
              && raw == (if f.deleteOk then Absent else old(raw))
              && spool == old(spool) + (if Clears(c) && !f.spooling.Refused? then [Scrub(c.raw).value.buf] else [])
              && log == old(log) + (if f.deleteOk then [RawDeleted] else [])
                        + (if Clears(c) && !f.spooling.Refused? then [Spooled(Scrub(c.raw).value.buf)] else [])
    {
      hide Scrub;
      ghost var log0 := log;
      assert log0 + [] == log0 && log0 + [] + [] == log0;
      if !f.readOk {
        var _ := RemoveRaw(f.deleteOk);
        Record(CaptureFailed(NotProcessed));
        return;
      }
      var contents := raw.bytes;
      var bytes := new Byte[|contents|](i requires 0 <= i < |contents| => contents[i]);
      assert bytes[..] == contents;
      var scrub := ScrubInPlace(bytes);
      if scrub.Err? {
        ZeroFill(bytes, 0, bytes.Length);
        var _ := RemoveRaw(f.deleteOk);
        Record(CaptureFailed(NotCleaned));
        return;
      }
      var deleted := RemoveRaw(f.deleteOk);
      if !deleted {
        ZeroFill(bytes, 0, bytes.Length);
        Record(CaptureFailed(NotProcessed));
        return;
      }
      if !f.spooling.Refused? {
        spool := spool + [bytes[..]];
        log := log + [Spooled(bytes[..])];
      }
      if f.spooling.Saved? {
        Record(MinidumpWritten(scrub.value));
      } else {
        Record(CaptureFailed(NotSaved));
      }
    }

    /** The server callback: one dump, one outcome. */
    method OnMinidumpCreated(c: Capture)
      modifies this
      ensures View() == Captured(old(View()), c)
    {
      match c
      case WriterFailed =>
        Record(CaptureFailed(NotCreated));
      case Written(bytes, f) =>
        raw := Present(bytes);
        MinimizeDeleteAndSpool(f);
    }
  }

  /** One capture as a step of the whole state. */
  function Captured(s: State, c: Capture): State {
    var t := s.(outcomes := s.outcomes + [Outcome(c)]);
    match c
    case WriterFailed => t
    case Written(raw, f) =>
      var u := t.(raw := if f.deleteOk then Absent else Present(raw),
                  log := s.log + (if f.deleteOk then [RawDeleted] else []));
      if Clears(c) && !f.spooling.Refused? then
        u.(spool := s.spool + [Scrub(raw).value.buf], log := u.log + [Spooled(Scrub(raw).value.buf)])
      else u.(spool := s.spool + [], log := u.log + [])
  }

  function Run(s: State, cs: seq<Capture>): State {
    if cs == [] then s else Captured(Run(s, cs[..|cs| - 1]), cs[|cs| - 1])
  }

  /** What a run persists, in order: the scrubbed bytes of the dumps that were read, scrubbed, deleted and not refused. */
  function Persisted(cs: seq<Capture>): seq<seq<Byte>> {
    if cs == [] then []
    else
      var c := cs[|cs| - 1];
      Persisted(cs[..|cs| - 1])
      + (if c.Written? && c.faults.readOk && Scrub(c.raw).Ok? && c.faults.deleteOk && !c.faults.spooling.Refused?
         then [Scrub(c.raw).value.buf] else [])
  }

  /** The raw dump a run leaves behind, if its last deletion failed. */
  function LeftBehind(cs: seq<Capture>): RawFile {
    if cs == [] then Absent
    else
      var c := cs[|cs| - 1];
      if c.WriterFailed? then LeftBehind(cs[..|cs| - 1]) else if c.faults.deleteOk then Absent else Present(c.raw)
  }

  function Deletions(log: seq<Effect>): nat {
    if log == [] then 0 else Deletions(log[..|log| - 1]) + if log[|log| - 1].RawDeleted? then 1 else 0
  }

  function DeletedCaptures(cs: seq<Capture>): nat {
    if cs == [] then 0
    else DeletedCaptures(cs[..|cs| - 1]) + if cs[|cs| - 1].Written? && cs[|cs| - 1].faults.deleteOk then 1 else 0
  }

  lemma {:induction false} DeletionsPush(log: seq<Effect>, e: Effect)
    ensures Deletions(log + [e]) == Deletions(log) + if e.RawDeleted? then 1 else 0
  {
    assert (log + [e])[..|log|] == log;
  }

  /** What a run leaves: exactly the persisted dumps in the spool, and a raw file only where its deletion failed. */
  lemma {:induction false} RunLeaves(cs: seq<Capture>)
    ensures var s := Run(State(Absent, [], [], []), cs);
            s.spool == Persisted(cs) && s.raw == LeftBehind(cs) && Deletions(s.log) == DeletedCaptures(cs)
  {
    hide Scrub, Outcome, Captured;
    if cs != [] {
      RunLeaves(cs[..|cs| - 1]);
      CaptureLeaves(Run(State(Absent, [], [], []), cs[..|cs| - 1]), cs[|cs| - 1]);
    }
  }

  lemma {:induction false} CaptureLeaves(s: State, c: Capture)
    ensures var t := Captured(s, c);
            && t.spool == s.spool + (if Clears(c) && !c.faults.spooling.Refused? then [Scrub(c.raw).value.buf] else [])
            && t.raw == (if c.WriterFailed? then s.raw else if c.faults.deleteOk then Absent else Present(c.raw))
            && Deletions(t.log) == Deletions(s.log) + if c.Written? && c.faults.deleteOk then 1 else 0
  {
    hide Scrub, Outcome, Deletions;
    DeletionsPush(s.log, RawDeleted);
    if Clears(c) {
      DeletionsPush(s.log + [RawDeleted], Spooled(Scrub(c.raw).value.buf));
    }
    assert s.log + [] == s.log && s.spool + [] == s.spool && s.log + [RawDeleted] + [] == s.log + [RawDeleted];
  }

  /** Every spooled dump was deleted in raw form just before it was spooled. */
  predicate DeletedFirst(log: seq<Effect>) {
    forall i :: 0 <= i < |log| && log[i].Spooled? ==> i > 0 && log[i - 1] == RawDeleted
  }

  /**
   Over every run of captures under every combination of faults: one outcome per
   capture in order, each spooled dump is the output of a successful scrub of a dump
   captured in this run, and it was spooled only after its raw form was deleted. A
   capture reported as written has its scrubbed bytes in the spool.
   */
  lemma {:induction false} RunIsFailClosed(cs: seq<Capture>)
    ensures var s := Run(State(Absent, [], [], []), cs);
            && |s.outcomes| == |cs|
            && (forall i :: 0 <= i < |cs| ==> s.outcomes[i] == Outcome(cs[i]))
            && (forall x :: x in s.spool ==> exists i :: 0 <= i < |cs| && Clears(cs[i]) && x == Scrub(cs[i].raw).value.buf)
            && (forall i :: 0 <= i < |cs| && s.outcomes[i].MinidumpWritten? ==>
                  Clears(cs[i]) && Scrub(cs[i].raw).value.buf in s.spool)
            && DeletedFirst(s.log)
  {
    hide Scrub, Outcome, DeletedFirst, Captured;
    var start := State(Absent, [], [], []);
    if cs == [] {
      NothingLogged();
    } else {
      var front, last := cs[..|cs| - 1], cs[|cs| - 1];
      RunIsFailClosed(front);
      var s, t := Run(start, front), Run(start, cs);
      CaptureStep(s, last);
      forall x | x in t.spool ensures exists i :: 0 <= i < |cs| && Clears(cs[i]) && x == Scrub(cs[i].raw).value.buf {
        if x in s.spool {
          var i :| 0 <= i < |front| && Clears(front[i]) && x == Scrub(front[i].raw).value.buf;
          assert cs[i] == front[i];
        } else {
          assert cs[|cs| - 1] == last;
        }
      }
      forall i | 0 <= i < |cs| && t.outcomes[i].MinidumpWritten?
        ensures Clears(cs[i]) && Scrub(cs[i].raw).value.buf in t.spool
      {
        if i < |front| {
          assert cs[i] == front[i] && s.outcomes[i].MinidumpWritten?;
        }
      }
    }
  }

  lemma {:induction false} NothingLogged()
    ensures DeletedFirst([])
  {
  }

  /** One capture adds its outcome, and to the spool at most its own scrubbed dump, right behind the deletion. */
  lemma {:induction false} CaptureStep(s: State, c: Capture)
    requires DeletedFirst(s.log)
    ensures var t := Captured(s, c);
            && t.outcomes == s.outcomes + [Outcome(c)]
            && (forall x :: x in t.spool ==> x in s.spool || (Clears(c) && x == Scrub(c.raw).value.buf))
            && (forall x :: x in s.spool ==> x in t.spool)
            && (Outcome(c).MinidumpWritten? ==> Clears(c) && Scrub(c.raw).value.buf in t.spool)
            && DeletedFirst(t.log)
  {
    hide Scrub, Outcome;
    OutcomeIs(c);
  }

  /**
   Every spooled dump is the minimized form of a dump captured in this run: each of its bytes is zero or
   one the capture holds at the same or a later offset, and where the capture's declared stretches keep
   apart its identifying payloads and slots are zero, its modules coarsened and the rest untouched.
   */
  lemma {:induction false} SpooledIsMinimized(cs: seq<Capture>, x: seq<Byte>)
    requires x in Run(State(Absent, [], [], []), cs).spool
    ensures exists i :: 0 <= i < |cs| && cs[i].Written? && IsMinimizedForm(cs[i].raw, x)
  {
    hide Run, Scrub, IsMinimizedForm;
    RunIsFailClosed(cs);
    var i :| 0 <= i < |cs| && Clears(cs[i]) && x == Scrub(cs[i].raw).value.buf;
    ClearedIsMinimized(cs[i]);
  }

  ghost predicate IsMinimizedForm(raw: seq<Byte>, x: seq<Byte>) {
    && |x| == |raw| && Laws.ForwardOnly(raw, x)
    && ParseHeader(raw).Ok?
    && (Effects.Separated(raw, Entries(raw, ParseHeader(raw).value)) ==> Twice.Minimized(raw, x))
  }

  lemma {:induction false} ClearedIsMinimized(c: Capture)
    requires Clears(c)
    ensures c.Written? && Scrub(c.raw).Ok? && IsMinimizedForm(c.raw, Scrub(c.raw).value.buf)
  {
    hide Effects.Separated, Twice.Minimized, Laws.ForwardOnly, ScrubEntries;
    Laws.ScrubForwardOnly(c.raw);
    if Effects.Separated(c.raw, Entries(c.raw, ParseHeader(c.raw).value)) {
      Twice.ScrubInDumpTerms(c.raw);
    }
  }
}
