/** Who is turned away by `preHandler` of src/lib/idempotency.ts, and with what, when anything may
    come between its steps. */
module IdempotencyAnswers {
  import opened Idempotency
  import opened Wrappers

  // ---------------------------------------------------------------- one step

  /** The request is at the step that decides, with a row in hand that has not expired. */
  predicate DecidesOnLive(s: State, e: Event, pid: Pid)
    requires pid in s.procs
  {
    && e == Act(pid, Choose) && s.procs[pid].phase.Looked? && s.procs[pid].phase.found.Some?
    && s.procs[pid].phase.found.value.1.expiresAt > s.clock
  }

  /** Five answers keep a request from its handler: three are given on the row it has looked up,
      two by its insert. */
  lemma AnswersExactly(cfg: Config, s: State, e: Event, pid: Pid)
    requires pid in s.procs && !s.procs[pid].phase.Refused? && !s.procs[pid].phase.Replayed?
    ensures
      var p, phase := s.procs[pid], Apply(cfg, s, e).procs[pid].phase;
      && pid in Apply(cfg, s, e).procs
      && (phase == Refused(KeyReused) <==>
            DecidesOnLive(s, e, pid) && p.phase.found.value.1.requestHash != p.requestHash)
      && (phase == Refused(StillInProgress) <==>
            && DecidesOnLive(s, e, pid) && p.phase.found.value.1.requestHash == p.requestHash
            && p.phase.found.value.1.inProgress && p.phase.found.value.1.createdAt + cfg.stale >= s.clock)
      && (phase.Replayed? <==>
            && DecidesOnLive(s, e, pid) && p.phase.found.value.1.requestHash == p.requestHash
            && !p.phase.found.value.1.inProgress)
      && (phase == Refused(LostRace) <==>
            e == Act(pid, Insert(true)) && p.phase.Inserting? && Occupied(s.table, p.slot))
      && (phase == Refused(StoreError) <==> e == Act(pid, Insert(false)) && p.phase.Inserting?)
  {
  }

  // ---------------------------------------------------------------- the lost race

  /** The request looked its row up when `n` rows had been created. */
  ghost predicate LookedWhen(cfg: Config, events: seq<Event>, pid: Pid, n: nat) {
    exists k :: 0 <= k < |events| && LooksAt(cfg, events, pid, k, n)
  }

  ghost predicate LooksAt(cfg: Config, events: seq<Event>, pid: Pid, k: nat, n: nat)
    requires k < |events|
  {
    var s := Run(cfg, events[..k]);
    events[k] == Act(pid, Look) && pid in s.procs && s.procs[pid].phase.Arrived? && |s.created| == n
  }

  /** The delete of the row that the request was to take over failed. */
  predicate DeleteFailed(events: seq<Event>, pid: Pid) {
    exists k :: 0 <= k < |events| && events[k] == Act(pid, DeleteVictim(false))
  }

  /** What a request that has looked knows of a row of its slot that is no newer. */
  predicate KnowsOf(events: seq<Event>, pid: Pid, phase: Phase, i: RowId) {
    match phase
    case Looked(found) => found.Some? && found.value.0 == i
    case Deleting(victim) => victim == i
    case Creating => DeleteFailed(events, pid)
    case Inserting(_) => DeleteFailed(events, pid)
    case _ => true
  }

  predicate OnItsWay(phase: Phase) {
    phase.Looked? || phase.Deleting? || phase.Creating? || phase.Inserting?
  }

  ghost predicate KnowsElder(events: seq<Event>, s: State, pid: Pid, n: nat)
    requires pid in s.procs
  {
    forall i :: i in s.table && s.table[i].slot == s.procs[pid].slot && i < n ==>
      KnowsOf(events, pid, s.procs[pid].phase, i)
  }

  lemma LookedKept(cfg: Config, events: seq<Event>, e: Event, pid: Pid, n: nat)
    requires LookedWhen(cfg, events, pid, n)
    ensures LookedWhen(cfg, events + [e], pid, n)
  {
    var k :| 0 <= k < |events| && LooksAt(cfg, events, pid, k, n);
    assert (events + [e])[..k] == events[..k];
    assert LooksAt(cfg, events + [e], pid, k, n);
  }

  lemma LooksNow(cfg: Config, events: seq<Event>, pid: Pid)
    requires
      var s := Run(cfg, events);
      pid in s.procs && s.procs[pid].phase.Arrived? && UniqueSlots(s.table)
    ensures LookedWhen(cfg, events + [Act(pid, Look)], pid, |Run(cfg, events).created|)
    ensures
      var s := Apply(cfg, Run(cfg, events), Act(pid, Look));
      KnowsElder(events + [Act(pid, Look)], s, pid, |Run(cfg, events).created|)
  {
    var more := events + [Act(pid, Look)];
    assert more[..|events|] == events;
    assert LooksAt(cfg, more, pid, |events|, |Run(cfg, events).created|);
  }

  /** A row that was created before is the one it was before. */
  lemma ElderStays(cfg: Config, s: State, e: Event, i: RowId)
    requires Inv(cfg, s) && i in Apply(cfg, s, e).table && i < |s.created|
    ensures i in s.table && Apply(cfg, s, e).table[i].slot == s.table[i].slot
  {
    if i in s.table { SlotKept(cfg, s, e, i); } else { InsertedAlone(cfg, s, e, i); }
  }

  lemma FailureKept(events: seq<Event>, e: Event, pid: Pid)
    requires DeleteFailed(events, pid) || e == Act(pid, DeleteVictim(false))
    ensures DeleteFailed(events + [e], pid)
  {
    if k :| 0 <= k < |events| && events[k] == Act(pid, DeleteVictim(false)) {
      assert (events + [e])[k] == events[k];
    } else {
      assert (events + [e])[|events|] == e;
    }
  }

  lemma KnowledgeKept(events: seq<Event>, e: Event, pid: Pid, phase: Phase, i: RowId)
    requires KnowsOf(events, pid, phase, i)
    ensures KnowsOf(events + [e], pid, phase, i)
  {
    if phase.Creating? || phase.Inserting? { FailureKept(events, e, pid); }
  }

  lemma OthersStep(cfg: Config, s: State, e: Event, pid: Pid)
    requires pid in s.procs && !(e.Act? && e.pid == pid && Enabled(s.procs[pid], e.action))
    ensures pid in Apply(cfg, s, e).procs && Apply(cfg, s, e).procs[pid] == s.procs[pid]
  {
  }

  /** A step of the request itself, by what it does. */
  lemma OwnStepKnows(cfg: Config, events: seq<Event>, s: State, pid: Pid, p: Proc, a: Action, i: RowId)
    requires Enabled(p, a) && OnItsWay(p.phase) && KnowsOf(events, pid, p.phase, i)
    requires i in ActTable(s, p, a) && OnItsWay(ActProc(cfg, s, p, a).phase)
    ensures KnowsOf(events + [Act(pid, a)], pid, ActProc(cfg, s, p, a).phase, i)
  {
    match a
    case DeleteVictim(ok) => if !ok { FailureKept(events, Act(pid, a), pid); }
    case ReadClock => FailureKept(events, Act(pid, a), pid);
    case Choose =>
    case _ =>
  }

  lemma ElderKnown(cfg: Config, events: seq<Event>, s: State, e: Event, pid: Pid, i: RowId)
    requires pid in s.procs && OnItsWay(s.procs[pid].phase) && KnowsOf(events, pid, s.procs[pid].phase, i)
    requires i in Apply(cfg, s, e).table && OnItsWay(Apply(cfg, s, e).procs[pid].phase)
    ensures KnowsOf(events + [e], pid, Apply(cfg, s, e).procs[pid].phase, i)
  {
    if e.Act? && e.pid == pid && Enabled(s.procs[pid], e.action) {
      OwnStepKnows(cfg, events, s, pid, s.procs[pid], e.action, i);
    } else {
      OthersStep(cfg, s, e, pid);
      KnowledgeKept(events, e, pid, s.procs[pid].phase, i);
    }
  }

  /** The step that brought a request on its way found it there, or was its look. */
  lemma CameFrom(cfg: Config, s: State, e: Event, pid: Pid)
    requires pid in Apply(cfg, s, e).procs && OnItsWay(Apply(cfg, s, e).procs[pid].phase)
    ensures pid in s.procs && Apply(cfg, s, e).procs[pid].slot == s.procs[pid].slot
    ensures OnItsWay(s.procs[pid].phase) || (s.procs[pid].phase.Arrived? && e == Act(pid, Look))
  {
  }

  lemma StepKnows(cfg: Config, events: seq<Event>, s: State, e: Event, pid: Pid, n: nat)
    requires Inv(cfg, s) && pid in s.procs && OnItsWay(s.procs[pid].phase) && KnowsElder(events, s, pid, n)
    requires n <= |s.created| && pid in Apply(cfg, s, e).procs && OnItsWay(Apply(cfg, s, e).procs[pid].phase)
    ensures KnowsElder(events + [e], Apply(cfg, s, e), pid, n)
  {
    var s' := Apply(cfg, s, e);
    CameFrom(cfg, s, e, pid);
    forall i | i in s'.table && s'.table[i].slot == s'.procs[pid].slot && i < n
      ensures KnowsOf(events + [e], pid, s'.procs[pid].phase, i)
    {
      ElderStays(cfg, s, e, i);
      ElderKnown(cfg, events, s, e, pid, i);
    }
  }

  lemma {:induction false} SinceLook(cfg: Config, events: seq<Event>, pid: Pid) returns (n: nat)
    requires pid in Run(cfg, events).procs && OnItsWay(Run(cfg, events).procs[pid].phase)
    ensures LookedWhen(cfg, events, pid, n) && n <= |Run(cfg, events).created|
    ensures KnowsElder(events, Run(cfg, events), pid, n)
  {
    var most, e := events[..|events| - 1], events[|events| - 1];
    var s := Run(cfg, most);
    assert events == most + [e];
    RunInv(cfg, most);
    CameFrom(cfg, s, e, pid);
    if s.procs[pid].phase.Arrived? {
      n := |s.created|;
      LooksNow(cfg, most, pid);
    } else {
      n := SinceLook(cfg, most, pid);
      LookedKept(cfg, most, e, pid, n);
      StepKnows(cfg, most, s, e, pid, n);
      StepAdvances(cfg, s, e);
    }
  }

  /** Row `i` was inserted after the request had looked. */
  ghost predicate NewerThanLook(cfg: Config, events: seq<Event>, pid: Pid, i: RowId) {
    exists n: nat :: LookedWhen(cfg, events, pid, n) && i >= n
  }

  /** On every run: an insert that reaches the database is turned away as a lost race exactly
      when the slot holds a row that was inserted since the request looked, or the one the
      request was to take over and could not delete. */
  lemma LostRaceExactly(cfg: Config, events: seq<Event>, pid: Pid)
    requires pid in Run(cfg, events).procs && Run(cfg, events).procs[pid].phase.Inserting?
    ensures
      var s := Run(cfg, events);
      Apply(cfg, s, Act(pid, Insert(true))).procs[pid].phase == Refused(LostRace) <==>
        exists i :: i in s.table && s.table[i].slot == s.procs[pid].slot
          && (NewerThanLook(cfg, events, pid, i) || DeleteFailed(events, pid))
  {
    var s := Run(cfg, events);
    var n := SinceLook(cfg, events, pid);
    if i :| i in s.table && s.table[i].slot == s.procs[pid].slot {
      assert Occupied(s.table, s.procs[pid].slot);
      if i < n {
        assert KnowsOf(events, pid, s.procs[pid].phase, i);
      } else {
        assert NewerThanLook(cfg, events, pid, i);
      }
    }
  }
}
