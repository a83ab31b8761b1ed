/**
 Draining the spool (`transport.rs`): one worker walks over a snapshot of the
 spool, transmits each report and removes it, while the application goes on
 enqueueing, and so evicting, between any two of its steps. The machine's
 actions are the worker's steps, the application's, and the network's answers.
 */
module Drain {
  import opened Text
  import opened Retry

  /** Reports are numbered in the order they were enqueued. */
  type Id = nat

  datatype DrainReport = DrainReport(
    sent: nat,
    retained: nat,
    dropped: nat,
    retainedEndpointRejected: nat,
    retainedUnreachable: nat)

  const NOTHING_YET: DrainReport := DrainReport(0, 0, 0, 0, 0)

  /** Where the worker is; `rest` are the snapshot entries it has not started. */
  datatype Phase =
    | Idle(rest: seq<Id>)
    | Choosing(rest: seq<Id>)
    | Dropping(id: Id, rest: seq<Id>)
    | InFlight(id: Id, rest: seq<Id>)
    | Settling(id: Id, answer: Disposition, rest: seq<Id>)

  /**
   `files` are the reports on disk. The other sets record, for each file that was removed,
   which kind of step removed it; `acks` counts the 2xx answers the client saw.
   */
  datatype State = State(
    acks: seq<nat>,
    files: set<Id>,
    delivered: set<Id>,
    dropped: set<Id>,
    evicted: set<Id>,
    snapshot: seq<Id>,
    phase: Phase,
    tally: DrainReport)

  datatype Action =
    | Enqueue
    | Evict(victim: Id)
    | StartPass
    | StopPass
    /** Reading the next file; it can only succeed while the file is there. */
    | Load(ok: bool)
    | BuildFails
    | Drop
    | Answer(answer: Disposition)
    | Settle

  const START: State := State([], {}, {}, {}, {}, [], Idle([]), NOTHING_YET)

  /** The ids below `n` that are on disk, oldest first (`list`). */
  function Listed(files: set<Id>, n: nat): (ids: seq<Id>)
    ensures forall i :: 0 <= i < |ids| ==> ids[i] in files && ids[i] < n
    ensures forall i, j :: 0 <= i < j < |ids| ==> ids[i] < ids[j]
    ensures forall id :: id in files && id < n ==> id in ids
  {
    if n == 0 then []
    else if n - 1 in files then Listed(files, n - 1) + [n - 1]
    else Listed(files, n - 1)
  }

  function CountAnswer(t: DrainReport, answer: Disposition): DrainReport {
    match answer
    case Sent => t.(sent := t.sent + 1)
    case RetainedEndpointRejected =>
      t.(retained := t.retained + 1, retainedEndpointRejected := t.retainedEndpointRejected + 1)
    case RetainedUnreachable =>
      t.(retained := t.retained + 1, retainedUnreachable := t.retainedUnreachable + 1)
  }

  /** One step; an action that is not enabled changes nothing. */
  function Apply(s: State, a: Action): State {
    match a
    case Enqueue =>
      s.(acks := s.acks + [0], files := s.files + {|s.acks|})
    case Evict(victim) =>
      if victim in s.files then s.(files := s.files - {victim}, evicted := s.evicted + {victim}) else s
    case StartPass =>
      if s.phase.Idle? then
        var ids := Listed(s.files, |s.acks|);
        s.(snapshot := ids, phase := Choosing(ids), tally := NOTHING_YET)
      else s
    case StopPass =>
      if s.phase.Choosing? then s.(phase := Idle(s.phase.rest)) else s
    case Load(ok) =>
      if !s.phase.Choosing? || s.phase.rest == [] then s
      else
        var id, rest := s.phase.rest[0], s.phase.rest[1..];
        if !ok then s.(phase := Dropping(id, rest))
        else if id in s.files then s.(phase := InFlight(id, rest))
        else s
    case BuildFails =>
      if s.phase.InFlight? then s.(phase := Dropping(s.phase.id, s.phase.rest)) else s
    case Drop =>
      if s.phase.Dropping? then
        var id := s.phase.id;
        s.(files := s.files - {id},
           dropped := if id in s.files then s.dropped + {id} else s.dropped,
           tally := s.tally.(dropped := s.tally.dropped + 1),
           phase := Choosing(s.phase.rest))
      else s
    case Answer(answer) =>
      if s.phase.InFlight? && s.phase.id < |s.acks| then
        var id := s.phase.id;
        s.(acks := if answer.Sent? then s.acks[id := s.acks[id] + 1] else s.acks,
           phase := Settling(id, answer, s.phase.rest))
      else s
    case Settle =>
      if s.phase.Settling? then
        var id := s.phase.id;
        var gone := s.phase.answer.Sent?;
        s.(files := if gone then s.files - {id} else s.files,
           delivered := if gone && id in s.files then s.delivered + {id} else s.delivered,
           tally := CountAnswer(s.tally, s.phase.answer),
           phase := Choosing(s.phase.rest))
      else s
  }

  function Replay(trace: seq<Action>): State {
    if trace == [] then START else Apply(Replay(trace[..|trace| - 1]), trace[|trace| - 1])
  }

  // ----- what every step keeps

  /** The entries of the snapshot the worker has not finished with. */
  function Pending(p: Phase): seq<Id> {
    if p.Idle? || p.Choosing? then p.rest else [p.id] + p.rest
  }

  /** Every enqueued report is in exactly one place. */
  ghost predicate InOnePlace(s: State, id: Id) {
    && (id in s.files ==> id !in s.delivered && id !in s.dropped && id !in s.evicted)
    && (id in s.delivered ==> id !in s.dropped && id !in s.evicted)
    && (id in s.dropped ==> id !in s.evicted)
    && (id < |s.acks| <==> id in s.files || id in s.delivered || id in s.dropped || id in s.evicted)
  }

  /** The report whose 2xx was seen but whose file is about to be removed. */
  predicate JustAcked(p: Phase, id: Id) {
    p.Settling? && p.answer.Sent? && p.id == id
  }

  /** At most one 2xx; a report that has one is delivered or evicted, or about to be removed; delivery needs one. */
  ghost predicate AckedOnce(s: State, id: Id)
    requires id < |s.acks|
  {
    && s.acks[id] <= 1
    && (s.acks[id] == 1 ==> id in s.delivered || id in s.evicted || JustAcked(s.phase, id))
    && (id in s.delivered || JustAcked(s.phase, id) ==> s.acks[id] == 1)
  }

  ghost predicate Counted(s: State) {
    && s.tally.retained == s.tally.retainedEndpointRejected + s.tally.retainedUnreachable
    && s.tally.sent + s.tally.retained + s.tally.dropped + |Pending(s.phase)| == |s.snapshot|
  }

  /** A pending entry is on disk or evicted, and without a 2xx unless it was just acknowledged. */
  ghost predicate Unsettled(s: State, id: Id) {
    && id < |s.acks|
    && (!s.phase.Idle? ==>
          (id in s.files || id in s.evicted) && (s.acks[id] == 0 || JustAcked(s.phase, id)))
  }

  ghost predicate Increasing(ids: seq<Id>) {
    forall i, j :: 0 <= i < j < |ids| ==> ids[i] < ids[j]
  }

  ghost predicate Fresh(s: State) {
    var p := Pending(s.phase);
    Increasing(p) && forall id :: id in p ==> Unsettled(s, id)
  }

  ghost predicate Inv(s: State) {
    && (forall id: Id :: InOnePlace(s, id))
    && (forall id: Id :: id < |s.acks| ==> AckedOnce(s, id))
    && Counted(s)
    && Fresh(s)
  }

  /** With the first entry finished, the others are pending, and none of them is the finished one. */
  lemma {:induction false} FirstDone(id: Id, rest: seq<Id>)
    requires Increasing([id] + rest)
    ensures Increasing(rest) && id !in rest
    ensures forall x :: x in rest ==> x in [id] + rest
  {
    var p := [id] + rest;
    forall i | 0 <= i < |rest| ensures rest[i] > id {
      assert p[0] == id && p[i + 1] == rest[i];
    }
    forall i, j | 0 <= i < j < |rest| ensures rest[i] < rest[j] {
      assert p[i + 1] == rest[i] && p[j + 1] == rest[j];
    }
  }

  lemma {:induction false} EnqueueKeeps(s: State)
    requires Inv(s)
    ensures Inv(Apply(s, Enqueue))
  {
    var t := Apply(s, Enqueue);
    assert InOnePlace(s, |s.acks|);
    assert !s.phase.Idle? && !s.phase.Choosing? ==> s.phase.id in Pending(s.phase);
    forall id: Id ensures InOnePlace(t, id) {
      assert InOnePlace(s, id);
    }
    forall id: Id | id < |t.acks| ensures AckedOnce(t, id) {
      assert InOnePlace(s, id);
      assert id < |s.acks| ==> AckedOnce(s, id);
    }
  }

  lemma {:induction false} EvictKeeps(s: State, victim: Id)
    requires Inv(s)
    ensures Inv(Apply(s, Evict(victim)))
  {
    var t := Apply(s, Evict(victim));
    forall id: Id ensures InOnePlace(t, id) {
      assert InOnePlace(s, id);
    }
    forall id: Id | id < |t.acks| ensures AckedOnce(t, id) {
      assert InOnePlace(s, id);
      assert id < |s.acks| ==> AckedOnce(s, id);
    }
  }

  lemma {:induction false} StartPassKeeps(s: State)
    requires Inv(s)
    ensures Inv(Apply(s, StartPass))
  {
    var t := Apply(s, StartPass);
    if s.phase.Idle? {
      forall id | id in s.files ensures id < |s.acks| && s.acks[id] == 0 {
        assert InOnePlace(s, id) && AckedOnce(s, id);
      }
    }
    forall id: Id ensures InOnePlace(t, id) {
      assert InOnePlace(s, id);
    }
    forall id: Id | id < |t.acks| ensures AckedOnce(t, id) {
      assert InOnePlace(s, id);
      assert id < |s.acks| ==> AckedOnce(s, id);
    }
  }

  lemma {:induction false} StopPassKeeps(s: State)
    requires Inv(s)
    ensures Inv(Apply(s, StopPass))
  {
    var t := Apply(s, StopPass);
    forall id: Id ensures InOnePlace(t, id) {
      assert InOnePlace(s, id);
    }
    forall id: Id | id < |t.acks| ensures AckedOnce(t, id) {
      assert InOnePlace(s, id);
      assert id < |s.acks| ==> AckedOnce(s, id);
    }
  }

  lemma {:induction false} LoadKeeps(s: State, ok: bool)
    requires Inv(s)
    ensures Inv(Apply(s, Load(ok)))
  {
    var t := Apply(s, Load(ok));
    if s.phase.Choosing? && s.phase.rest != [] {
      assert [s.phase.rest[0]] + s.phase.rest[1..] == s.phase.rest;
    }
    forall id: Id ensures InOnePlace(t, id) {
      assert InOnePlace(s, id);
    }
    forall id: Id | id < |t.acks| ensures AckedOnce(t, id) {
      assert InOnePlace(s, id);
      assert id < |s.acks| ==> AckedOnce(s, id);
    }
  }

  lemma {:induction false} BuildFailsKeeps(s: State)
    requires Inv(s)
    ensures Inv(Apply(s, BuildFails))
  {
    var t := Apply(s, BuildFails);
    forall id: Id ensures InOnePlace(t, id) {
      assert InOnePlace(s, id);
    }
    forall id: Id | id < |t.acks| ensures AckedOnce(t, id) {
      assert InOnePlace(s, id);
      assert id < |s.acks| ==> AckedOnce(s, id);
    }
  }

  lemma {:induction false} DropKeeps(s: State)
    requires Inv(s)
    ensures Inv(Apply(s, Drop))
  {
    var t := Apply(s, Drop);
    if s.phase.Dropping? {
      FirstDone(s.phase.id, s.phase.rest);
      assert s.phase.id in Pending(s.phase);
    }
    forall id: Id ensures InOnePlace(t, id) {
      assert InOnePlace(s, id);
    }
    forall id: Id | id < |t.acks| ensures AckedOnce(t, id) {
      assert InOnePlace(s, id);
      assert id < |s.acks| ==> AckedOnce(s, id);
    }
  }

  lemma {:induction false} AnswerKeeps(s: State, answer: Disposition)
    requires Inv(s)
    ensures Inv(Apply(s, Answer(answer)))
  {
    var t := Apply(s, Answer(answer));
    if s.phase.InFlight? {
      FirstDone(s.phase.id, s.phase.rest);
      assert s.phase.id in Pending(s.phase);
    }
    forall id: Id ensures InOnePlace(t, id) {
      assert InOnePlace(s, id);
    }
    forall id: Id | id < |t.acks| ensures AckedOnce(t, id) {
      assert InOnePlace(s, id);
      assert id < |s.acks| ==> AckedOnce(s, id);
    }
  }

  lemma {:induction false} SettleKeeps(s: State)
    requires Inv(s)
    ensures Inv(Apply(s, Settle))
  {
    var t := Apply(s, Settle);
    if s.phase.Settling? {
      FirstDone(s.phase.id, s.phase.rest);
      assert s.phase.id in Pending(s.phase);
    }
    forall id: Id ensures InOnePlace(t, id) {
      assert InOnePlace(s, id);
    }
    forall id: Id | id < |t.acks| ensures AckedOnce(t, id) {
      assert InOnePlace(s, id);
      assert id < |s.acks| ==> AckedOnce(s, id);
    }
  }

  lemma {:induction false} StepKeeps(s: State, a: Action)
    requires Inv(s)
    ensures Inv(Apply(s, a))
  {
    hide Inv, Apply;
    match a
    case Enqueue => EnqueueKeeps(s);
    case Evict(victim) => EvictKeeps(s, victim);
    case StartPass => StartPassKeeps(s);
    case StopPass => StopPassKeeps(s);
    case Load(ok) => LoadKeeps(s, ok);
    case BuildFails => BuildFailsKeeps(s);
    case Drop => DropKeeps(s);
    case Answer(answer) => AnswerKeeps(s, answer);
    case Settle => SettleKeeps(s);
  }

  /** The invariant holds in every state any interleaving can reach. */
  lemma {:induction false} AlwaysInv(trace: seq<Action>)
    ensures Inv(Replay(trace))
  {
    if trace != [] {
      AlwaysInv(trace[..|trace| - 1]);
      StepKeeps(Replay(trace[..|trace| - 1]), trace[|trace| - 1]);
    }
  }

  // ----- what it means

  /**
   In every reachable state every report enqueued so far is in exactly one of: on disk, removed
   after a 2xx, removed because it could not be loaded or built, evicted; none was answered 2xx twice,
   and none that was answered 2xx is sent again.
   */
  lemma {:induction false} ExactlyOnePlace(trace: seq<Action>, id: Id)
    ensures var s := Replay(trace);
            id < |s.acks| ==>
              && (id in s.files || id in s.delivered || id in s.dropped || id in s.evicted)
              && InOnePlace(s, id)
              && s.acks[id] <= 1
              && (id in s.delivered ==> s.acks[id] == 1)
              && (id in s.files && s.acks[id] == 1 ==> JustAcked(s.phase, id))
              && (s.phase.InFlight? && s.phase.id == id ==> s.acks[id] == 0)
  {
    AlwaysInv(trace);
    var s := Replay(trace);
    assert InOnePlace(s, id);
    assert id < |s.acks| ==> AckedOnce(s, id);
    assert s.phase.InFlight? ==> s.phase.id in Pending(s.phase);
  }

  /** The retained total is the sum of its classes, and the counters add up to the entries processed. */
  lemma {:induction false} TallyAddsUp(trace: seq<Action>)
    ensures var s := Replay(trace);
            && s.tally.retained == s.tally.retainedEndpointRejected + s.tally.retainedUnreachable
            && s.tally.sent + s.tally.retained + s.tally.dropped == |s.snapshot| - |Pending(s.phase)|
  {
    AlwaysInv(trace);
  }

  /** A file leaves the spool only after its 2xx, after a load or build failure, or by eviction. */
  lemma {:induction false} LeavesOnlyBy(trace: seq<Action>, a: Action, id: Id)
    requires id in Replay(trace).files && id !in Apply(Replay(trace), a).files
    ensures var s, t := Replay(trace), Apply(Replay(trace), a);
            || (a.Evict? && a.victim == id && id in t.evicted)
            || (a.Drop? && s.phase.Dropping? && s.phase.id == id && id in t.dropped)
            || (a.Settle? && JustAcked(s.phase, id) && id in t.delivered && id < |s.acks| && s.acks[id] == 1)
  {
    var s := Replay(trace);
    AlwaysInv(trace);
    assert InOnePlace(s, id) && AckedOnce(s, id);
  }

  lemma {:induction false} FateStep(s: State, a: Action)
    ensures FatesKept(s, Apply(s, a))
  {
  }

  /** `t` keeps what `s` delivered, dropped, evicted and saw answered with a 2xx. */
  ghost predicate FatesKept(s: State, t: State) {
    && s.delivered <= t.delivered && s.dropped <= t.dropped && s.evicted <= t.evicted
    && |s.acks| <= |t.acks| && forall i :: 0 <= i < |s.acks| ==> s.acks[i] <= t.acks[i]
  }

  /** A fate is final: however a run goes on, no report leaves the delivered, dropped or evicted ones, and no 2xx is un-seen. */
  lemma {:induction false} FatesAreFinal(trace: seq<Action>, more: seq<Action>)
    ensures FatesKept(Replay(trace), Replay(trace + more))
    decreases |more|
  {
    hide Apply;
    if more == [] {
      assert trace + more == trace;
    } else {
      var front, a := more[..|more| - 1], more[|more| - 1];
      FatesAreFinal(trace, front);
      assert trace + more == (trace + front) + [a];
      ReplayNext(trace + front, a);
      FateStep(Replay(trace + front), a);
    }
  }

  /** A report evicted between the snapshot and its turn cannot be loaded, and is counted as dropped. */
  lemma {:induction false} EvictedBeforeLoad(s: State)
    requires s.phase.Choosing? && s.phase.rest != [] && s.phase.rest[0] !in s.files
    ensures Apply(s, Load(true)) == s
    ensures var t := Apply(Apply(s, Load(false)), Drop);
            && t.tally == s.tally.(dropped := s.tally.dropped + 1)
            && t.dropped == s.dropped && t.files == s.files && t.phase == Choosing(s.phase.rest[1..])
  {
    assert s.files - {s.phase.rest[0]} == s.files;
  }

  /** What the application's own steps do: a new report is on disk, an evicted one is not. */
  lemma {:induction false} AppSteps(s: State, victim: Id)
    ensures var t := Apply(s, Enqueue);
            t.acks == s.acks + [0] && t.files == s.files + {|s.acks|} && t.evicted == s.evicted
    ensures var t := Apply(s, Evict(victim));
            && victim !in t.files && t.files == s.files - {victim} && t.acks == s.acks
            && (victim in s.files ==> victim in t.evicted)
  {
  }

  lemma {:induction false} ReplayNext(trace: seq<Action>, a: Action)
    ensures Replay(trace + [a]) == Apply(Replay(trace), a)
  {
    assert (trace + [a])[..|trace|] == trace;
  }

  // ----- what a step leaves alone

  /** The report the worker is busy with. */
  function Busy(p: Phase): set<Id> {
    if p.Idle? || p.Choosing? then {} else {p.id}
  }

  /** From `s` to `t` nothing happened to the reports outside `busy` but eviction, and no fate was undone. */
  ghost predicate Kept(s: State, t: State, busy: set<Id>) {
    && |s.acks| <= |t.acks|
    && (forall id: Id :: id < |s.acks| && id !in busy ==> t.acks[id] == s.acks[id])
    && s.delivered <= t.delivered && s.dropped <= t.dropped && s.evicted <= t.evicted
    && (forall id: Id :: id in s.files && id !in busy ==> id in t.files || id in t.evicted)
  }

  lemma {:induction false} StepKeepsOthers(s: State, a: Action)
    ensures Kept(s, Apply(s, a), Busy(s.phase))
  {
  }

  lemma {:induction false} KeptOn(s: State, t: State, u: State, a: set<Id>, b: set<Id>, busy: set<Id>)
    requires Kept(s, t, a) && Kept(t, u, b) && a <= busy && b <= busy
    ensures Kept(s, u, busy) && s.evicted <= t.evicted <= u.evicted
  {
  }

  /** What the application may have done from `s` to `t`. */
  ghost predicate AppOnly(s: State, t: State) {
    t.phase == s.phase && t.tally == s.tally && t.snapshot == s.snapshot && Kept(s, t, {})
  }

  lemma {:induction false} IsAppOnly(s: State, t: State)
    requires t.phase == s.phase && t.tally == s.tally && t.snapshot == s.snapshot && Kept(s, t, {})
    ensures AppOnly(s, t)
  {
  }

  // ----- how an entry is disposed of

  /** Dropped (`None`), or settled by the class of its last answer. */
  type Disposal = Option<Disposition>

  function CountDisposal(t: DrainReport, d: Disposal): DrainReport {
    match d
    case None => t.(dropped := t.dropped + 1)
    case Some(answer) => CountAnswer(t, answer)
  }

  /** Where a report is, and how many 2xx were seen for it, once it was disposed of like that. */
  ghost predicate DisposedOf(s: State, id: Id, d: Disposal) {
    && id < |s.acks|
    && match d
       case None => s.acks[id] == 0 && (id in s.dropped || id in s.evicted)
       case Some(Sent) => s.acks[id] == 1 && (id in s.delivered || id in s.evicted)
       case Some(_) => s.acks[id] == 0 && (id in s.files || id in s.evicted)
  }

  lemma {:induction false} DisposedOfStays(s: State, t: State, busy: set<Id>, id: Id, d: Disposal)
    requires DisposedOf(s, id, d) && Kept(s, t, busy) && id !in busy
    ensures DisposedOf(t, id, d) && s.evicted <= t.evicted
  {
  }

  /** From in flight to settled, with the application acting before and after the answer. */
  lemma {:induction false} Delivered(s0: State, s1: State, d: Disposition, s3: State)
    requires s0.phase.InFlight? && Inv(s1) && Inv(s3)
    requires AppOnly(s0, s1) && AppOnly(Apply(s1, Answer(d)), s3)
    ensures var id, s4 := s0.phase.id, Apply(s3, Settle);
            && s4.phase == Choosing(s0.phase.rest) && s4.snapshot == s0.snapshot
            && s4.tally == CountAnswer(s0.tally, d)
            && DisposedOf(s4, id, Some(d)) && Kept(s0, s4, {id})
  {
    var id, s2, s4 := s0.phase.id, Apply(s1, Answer(d)), Apply(s3, Settle);
    PendingUnsettled(s1, id);
    PendingUnsettled(s3, id);
    assert s2.phase == Settling(id, d, s0.phase.rest);
    StepKeepsOthers(s1, Answer(d));
    StepKeepsOthers(s3, Settle);
  }

  lemma {:induction false} PendingUnsettled(s: State, id: Id)
    requires Inv(s) && id in Pending(s.phase)
    ensures Unsettled(s, id)
  {
  }

  lemma {:induction false} GivenUp(s0: State, s1: State)
    requires s0.phase.Dropping? && Inv(s1) && AppOnly(s0, s1)
    ensures var id, s2 := s0.phase.id, Apply(s1, Drop);
            && s2.phase == Choosing(s0.phase.rest) && s2.snapshot == s0.snapshot
            && s2.tally == CountDisposal(s0.tally, None)
            && DisposedOf(s2, id, None) && Kept(s0, s2, {id})
  {
    PendingUnsettled(s1, s0.phase.id);
    StepKeepsOthers(s1, Drop);
  }

  lemma {:induction false} StartMoves(s: State)
    requires s.phase.Idle?
    ensures var t, ids := Apply(s, StartPass), Listed(s.files, |s.acks|);
            t.phase == Choosing(ids) && t.snapshot == ids && t.tally == NOTHING_YET
  {
  }

  /** Reading the next file; a pending file that is not there was evicted. */
  lemma {:induction false} LoadMoves(s: State, ok: bool)
    requires Inv(s) && s.phase.Choosing? && s.phase.rest != [] && (ok ==> s.phase.rest[0] in s.files)
    ensures var t, id, rest := Apply(s, Load(ok)), s.phase.rest[0], s.phase.rest[1..];
            && t.phase == (if ok then InFlight(id, rest) else Dropping(id, rest))
            && t.snapshot == s.snapshot && t.tally == s.tally && Kept(s, t, {})
            && (id !in s.files ==> id in s.evicted)
  {
    PendingUnsettled(s, s.phase.rest[0]);
  }

  lemma {:induction false} BuildFailsMoves(s: State)
    requires s.phase.InFlight?
    ensures var t := Apply(s, BuildFails);
            && t.phase == Dropping(s.phase.id, s.phase.rest)
            && t.snapshot == s.snapshot && t.tally == s.tally && Kept(s, t, {})
  {
  }

  /** The counters after the disposals of a pass, in order. */
  function TallyOf(ds: seq<Disposal>): DrainReport {
    if ds == [] then NOTHING_YET else CountDisposal(TallyOf(ds[..|ds| - 1]), ds[|ds| - 1])
  }

  lemma {:induction false} TallyNext(ds: seq<Disposal>, d: Disposal)
    ensures TallyOf([]) == NOTHING_YET
    ensures TallyOf(ds + [d]) == CountDisposal(TallyOf(ds), d)
  {
    assert (ds + [d])[..|ds|] == ds;
  }

  /** Each counter is the number of disposals of its kind. */
  lemma {:induction false} TallyCounts(ds: seq<Disposal>)
    ensures var t := TallyOf(ds);
            && t.sent == multiset(ds)[Some(Sent)] && t.dropped == multiset(ds)[None]
            && t.retainedEndpointRejected == multiset(ds)[Some(RetainedEndpointRejected)]
            && t.retainedUnreachable == multiset(ds)[Some(RetainedUnreachable)]
            && t.retained == t.retainedEndpointRejected + t.retainedUnreachable
  {
    if ds != [] {
      TallyCounts(ds[..|ds| - 1]);
      assert ds == ds[..|ds| - 1] + [ds[|ds| - 1]];
    }
  }

  // ----- the worker

  /** What the application does when it gets a turn. */
  datatype AppAction = Add | EvictOne(victim: Id)

  /** The longest one report can hold up a pass. */
  function PerReport(s: Settings): nat {
    (if s.jitter.max <= s.jitter.min then s.jitter.min else s.jitter.max + MS) + Worst(s, MaxAttempts(s.retry))
  }

  lemma {:induction false} JitterBelow(j: JitterBounds, draw: nat)
    requires draw <= Span(j)
    ensures SampleJitter(j, draw) <= if j.max <= j.min then j.min else j.max + MS
  {
    if j.max > j.min {
      assert NewJitterBounds(j.min, j.max) == j;
      JitterWithinMillisecond(j.min, j.max, draw);
    }
  }

  class Worker {
    const settings: Settings
    const passBudget: Option<nat>
    /** What the application does at its n-th turn. */
    const app: nat -> seq<AppAction>
    /** Which files parse, and which reports can be built. */
    const readable: Id -> bool
    const buildable: Id -> bool
    /** What the network does with the n-th attempt at a report, and the random draw for its jitter. */
    const net: Id -> nat -> Attempt
    const draws: Id -> nat

    var s: State
    var turn: nat
    var clock: nat
    ghost var trace: seq<Action>

    constructor (settings: Settings, passBudget: Option<nat>, app: nat -> seq<AppAction>,
                 readable: Id -> bool, buildable: Id -> bool, net: Id -> nat -> Attempt, draws: Id -> nat)
      ensures Valid() && s == START
    {
      this.settings, this.passBudget, this.app := settings, passBudget, app;
      this.readable, this.buildable, this.net, this.draws := readable, buildable, net, draws;
      s, turn, clock, trace := START, 0, 0, [];
    }

    /** The worker is in a state the machine can reach. */
    ghost predicate Valid()
      reads this
    {
      s == Replay(trace)
    }

    method Step(a: Action)
      requires Valid()
      modifies this`s, this`trace
      ensures Valid() && s == Apply(old(s), a)
    {
      s := Apply(s, a);
      ReplayNext(trace, a);
      trace := trace + [a];
    }

    /** The application's turn: it never touches the worker's position or its counters. */
    method AppTurn()
      requires Valid()
      modifies this`s, this`trace, this`turn
      ensures Valid() && s.phase == old(s.phase) && s.tally == old(s.tally) && s.snapshot == old(s.snapshot)
      ensures Kept(old(s), s, {})
    {
      var actions := app(turn);
      turn := turn + 1;
      var i := 0;
      while i < |actions|
        invariant Valid() && s.phase == old(s.phase) && s.tally == old(s.tally) && s.snapshot == old(s.snapshot)
        invariant Kept(old(s), s, {})
      {
        match actions[i] {
          case Add => Step(Enqueue);
          case EvictOne(victim) => Step(Evict(victim));
        }
        i := i + 1;
      }
    }

    /** What becomes of a report, given whether its file is there at its turn. */
    ghost function Disposed(id: Id, there: bool): Disposal {
      if there && readable(id) && buildable(id) then Some(ClassifyTransmit(FinalAnswer(settings, net(id)))) else None
    }

    function Draw(id: Id): (draw: nat)
      ensures draw <= Span(settings.jitter)
    {
      if draws(id) <= Span(settings.jitter) then draws(id) else Span(settings.jitter)
    }

    /** Transmission with its retries; the report is settled by the answer that ended them. */
    method Deliver()
      requires Valid() && s.phase.InFlight?
      modifies this`s, this`trace, this`turn, this`clock
      ensures Valid() && s.phase == Choosing(old(s.phase.rest)) && s.snapshot == old(s.snapshot)
      ensures var d := ClassifyTransmit(FinalAnswer(settings, net(old(s.phase.id))));
              s.tally == CountAnswer(old(s.tally), d) && DisposedOf(s, old(s.phase.id), Some(d))
      ensures exists k :: IsLastAttempt(settings, net(old(s.phase.id)), k)
                && s.tally == CountAnswer(old(s.tally), ClassifyTransmit(Try(settings, net(old(s.phase.id)), k).0))
      ensures Kept(old(s), s, {old(s.phase.id)})
      ensures clock == old(clock) + SampleJitter(settings.jitter, Draw(old(s.phase.id)))
                       + Spent(settings, net(old(s.phase.id)), LastAttempt(settings, net(old(s.phase.id))))
      ensures clock <= old(clock) + PerReport(settings)
    {
      hide Worst, MaxAttempts, SampleJitter, ClassifyTransmit, Try, IsLastAttempt, LastAttempt, Replay, Apply,
        DisposedOf, Kept, Spent, CountAnswer, Draw, Inv;
      ghost var s0 := s;
      AlwaysInv(trace);
      JitterBelow(settings.jitter, Draw(s.phase.id));
      var r, attempts, now := TransmitWithRetry(settings, Draw(s.phase.id), net(s.phase.id), clock);
      LastAttemptUnique(settings, net(s.phase.id), attempts);
      clock := now;
      AppTurn();
      ghost var s1 := s;
      AlwaysInv(trace);
      Step(Answer(ClassifyTransmit(r)));
      AppTurn();
      AlwaysInv(trace);
      IsAppOnly(Apply(s1, Answer(ClassifyTransmit(r))), s);
      IsAppOnly(s0, s1);
      Delivered(s0, s1, ClassifyTransmit(r), s);
      Step(Settle);
    }

    /** The report is dropped: its file goes, unless it was evicted before. */
    method GiveUp()
      requires Valid() && s.phase.Dropping?
      modifies this`s, this`trace, this`turn
      ensures Valid() && s.phase == Choosing(old(s.phase.rest)) && s.snapshot == old(s.snapshot)
      ensures s.tally == CountDisposal(old(s.tally), None) && DisposedOf(s, old(s.phase.id), None)
      ensures Kept(old(s), s, {old(s.phase.id)})
    {
      hide Replay, Apply, DisposedOf, Kept, Inv;
      ghost var s0 := s;
      AppTurn();
      AlwaysInv(trace);
      IsAppOnly(s0, s);
      GivenUp(s0, s);
      Step(Drop);
    }

    /** One snapshot entry, from reading its file to its disposal. */
    method Process() returns (ghost there: bool)
      requires Valid() && s.phase.Choosing? && s.phase.rest != []
      modifies this`s, this`trace, this`turn, this`clock
      ensures Valid() && s.phase == Choosing(old(s.phase.rest[1..])) && s.snapshot == old(s.snapshot)
      ensures there == (old(s.phase.rest[0]) in old(s.files))
      ensures !there ==> old(s.phase.rest[0]) in s.evicted
      ensures var id := old(s.phase.rest[0]);
              && s.tally == CountDisposal(old(s.tally), Disposed(id, there))
              && DisposedOf(s, id, Disposed(id, there))
              && Kept(old(s), s, {id})
      ensures old(clock) <= clock <= old(clock) + PerReport(settings)
    {
      hide PerReport, Replay, Apply, DisposedOf, Kept, Inv, FinalAnswer, CountAnswer, Spent, SampleJitter;
      ghost var s0 := s;
      var id := s.phase.rest[0];
      var loaded := id in s.files && readable(id);
      there := id in s.files;
      AlwaysInv(trace);
      LoadMoves(s, loaded);
      Step(Load(loaded));
      ghost var s1 := s;
      if !loaded {
        GiveUp();
        KeptOn(s0, s1, s, {}, {id}, {id});
        return;
      }
      AppTurn();
      ghost var s2 := s;
      KeptOn(s0, s1, s2, {}, {}, {});
      if !buildable(id) {
        BuildFailsMoves(s);
        Step(BuildFails);
        ghost var s3 := s;
        KeptOn(s0, s2, s3, {}, {}, {});
        GiveUp();
        KeptOn(s0, s3, s, {}, {id}, {id});
        return;
      }
      Deliver();
      KeptOn(s0, s2, s, {}, {id}, {id});
    }

    /** What became of the first entries of the snapshot, given whether their files were there. */
    ghost function Disposals(ids: seq<Id>, there: seq<bool>): seq<Disposal>
      requires |there| <= |ids|
    {
      seq(|there|, i requires 0 <= i < |there| => Disposed(ids[i], there[i]))
    }

    /** The entries handled so far are disposed of, and those not there were evicted. */
    ghost predicate Handled(ids: seq<Id>, there: seq<bool>)
      requires |there| <= |ids|
      reads this
    {
      forall i {:trigger ids[i]} :: 0 <= i < |there| ==>
        DisposedOf(s, ids[i], Disposed(ids[i], there[i])) && (!there[i] ==> ids[i] in s.evicted)
    }

    /** The next entry: the application's turn, then the worker's. */
    method Turn(ghost ids: seq<Id>, ghost there: seq<bool>) returns (ghost found: bool)
      requires Valid() && s.phase.Choosing? && s.phase.rest != [] && s.snapshot == ids && Increasing(ids)
      requires |there| <= |ids| && s.phase.rest == ids[|there|..]
      requires Handled(ids, there) && s.tally == TallyOf(Disposals(ids, there))
      modifies this`s, this`trace, this`turn, this`clock
      ensures Valid() && s.phase.Choosing? && s.snapshot == ids
      ensures |there| < |ids| && s.phase.rest == ids[|there| + 1..]
      ensures Handled(ids, there + [found]) && s.tally == TallyOf(Disposals(ids, there + [found]))
      ensures old(clock) <= clock <= old(clock) + PerReport(settings)
    {
      hide PerReport, Replay, Apply, Kept, DisposedOf, Disposed, Inv, TallyOf;
      ghost var s0, k := s, |there|;
      AppTurn();
      ghost var s1 := s;
      found := Process();
      forall i | 0 <= i < k
        ensures DisposedOf(s, ids[i], Disposed(ids[i], there[i])) && (!there[i] ==> ids[i] in s.evicted)
      {
        assert ids[i] < ids[k];
        DisposedOfStays(s0, s1, {}, ids[i], Disposed(ids[i], there[i]));
        DisposedOfStays(s1, s, {ids[k]}, ids[i], Disposed(ids[i], there[i]));
      }
      TallyNext(Disposals(ids, there), Disposed(ids[k], found));
      assert Disposals(ids, there + [found]) == Disposals(ids, there) + [Disposed(ids[k], found)];
    }

    /**
     One pass over the snapshot. `there` says of each entry whether its file was there at its turn.
     The counters are the numbers of entries dropped, accepted, rejected and unreachable, by the answer
     that ended each one's retries; a pass that leaves entries has used up its budget, and no pass
     outlasts its budget by more than one report.
     */
    method DrainSpool() returns (report: DrainReport, ghost there: seq<bool>)
      requires Valid() && s.phase.Idle?
      modifies this
      ensures Valid() && s.phase.Idle? && report == s.tally
      ensures s.snapshot == Listed(old(s.files), |old(s.acks)|)
      ensures |there| <= |s.snapshot| && s.phase.rest == s.snapshot[|there|..]
      ensures Handled(s.snapshot, there)
      ensures report == TallyOf(Disposals(s.snapshot, there))
      ensures report.sent == multiset(Disposals(s.snapshot, there))[Some(Sent)]
      ensures report.dropped == multiset(Disposals(s.snapshot, there))[None]
      ensures report.retained == report.retainedEndpointRejected + report.retainedUnreachable
      ensures report.sent + report.retained + report.dropped + |s.phase.rest| == |s.snapshot|
      ensures s.phase.rest != [] ==> passBudget.Some? && clock >= old(clock) + passBudget.value
      ensures passBudget.None? ==> s.phase.rest == [] && clock <= old(clock) + |s.snapshot| * PerReport(settings)
      ensures passBudget.Some? ==> clock <= old(clock) + passBudget.value + PerReport(settings)
    {
      hide PerReport, Listed, Replay, Apply, Kept, DisposedOf, Disposed, Inv, TallyOf;
      var start := clock;
      StartMoves(s);
      Step(StartPass);
      ghost var ids := s.snapshot;
      there := [];
      TallyNext([], None);
      assert Disposals(ids, []) == [];
      while s.phase.rest != []
        invariant Valid() && s.phase.Choosing? && s.snapshot == ids == Listed(old(s.files), |old(s.acks)|)
        invariant |there| <= |ids| && s.phase.rest == ids[|there|..]
        invariant Handled(ids, there) && s.tally == TallyOf(Disposals(ids, there))
        invariant start <= clock <= start + |there| * PerReport(settings)
        invariant passBudget.Some? ==> clock <= start + passBudget.value + PerReport(settings)
        decreases |s.phase.rest|
      {
        if passBudget.Some? && clock - start >= passBudget.value {
          break;
        }
        NextDone(|there|, PerReport(settings));
        ghost var found := Turn(ids, there);
        there := there + [found];
      }
      TallyCounts(Disposals(ids, there));
      TallyAddsUp(trace);
      Stop();
      report := s.tally;
    }

    method Stop()
      requires Valid() && s.phase.Choosing?
      modifies this`s, this`trace
      ensures Valid() && s == old(s).(phase := Idle(old(s.phase.rest)))
      ensures forall ids, there :: |there| <= |ids| && old(Handled(ids, there)) ==> Handled(ids, there)
    {
      hide Replay;
      Step(StopPass);
    }
  }

  lemma {:induction false} NextDone(done: nat, per: nat)
    ensures (done + 1) * per == done * per + per
  {
  }
}
