/** What a request with an Idempotency-Key gets when nothing comes between its steps, in any
    state the protocol of src/lib/idempotency.ts can have reached. */
module IdempotencyRetry {
  import opened Idempotency
  import opened Wrappers

  /** A request arrives and takes all its steps up to its handler, or to its answer. */
  ghost function Alone(cfg: Config, s: State, pid: Pid, slot: Slot, requestHash: string): State {
    var s1 := Apply(cfg, Apply(cfg, s, Arrive(pid, slot, requestHash)), Act(pid, Look));
    var s2 := Apply(cfg, Apply(cfg, s1, Act(pid, Choose)), Act(pid, DeleteVictim(true)));
    Apply(cfg, Apply(cfg, s2, Act(pid, ReadClock)), Act(pid, Insert(true)))
  }

  /** The choice, and the delete when that is what was chosen. */
  lemma ChosenStands(cfg: Config, s: State, pid: Pid, p: Proc)
    requires pid in s.procs && s.procs[pid] == p && p.phase == Looked(RowOf(s, p.slot)) && UniqueSlots(s.table)
    ensures
      var s2 := Apply(cfg, Apply(cfg, s, Act(pid, Choose)), Act(pid, DeleteVictim(true)));
      && pid in s2.procs && s2.procs[pid].slot == p.slot && s2.clock == s.clock
      && match Decide(cfg, RowOf(s, p.slot), p.requestHash, s.clock)
         case Fresh => s2.procs[pid].phase == Creating && !Occupied(s2.table, p.slot)
         case TakeOver(_) => s2.procs[pid].phase == Creating && !Occupied(s2.table, p.slot)
         case Refuse(why) => s2.procs[pid].phase == Refused(why)
         case Replay(source, status, body) =>
           s2.procs[pid].phase == Phase.Replayed(source, status, body)
  {
    var s1 := Apply(cfg, s, Act(pid, Choose));
    assert s1.procs[pid].phase == PhaseAfter(cfg, p, s.clock) && s1.table == s.table;
  }

  lemma DecisionStands(cfg: Config, s: State, pid: Pid, slot: Slot, requestHash: string)
    requires pid !in s.procs && UniqueSlots(s.table)
    ensures
      var s1 := Apply(cfg, Apply(cfg, s, Arrive(pid, slot, requestHash)), Act(pid, Look));
      var s2 := Apply(cfg, Apply(cfg, s1, Act(pid, Choose)), Act(pid, DeleteVictim(true)));
      && pid in s2.procs && s2.procs[pid].slot == slot && s2.clock == s.clock
      && match Decide(cfg, RowOf(s, slot), requestHash, s.clock)
         case Fresh => s2.procs[pid].phase == Creating && !Occupied(s2.table, slot)
         case TakeOver(_) => s2.procs[pid].phase == Creating && !Occupied(s2.table, slot)
         case Refuse(why) => s2.procs[pid].phase == Refused(why)
         case Replay(source, status, body) =>
           s2.procs[pid].phase == Phase.Replayed(source, status, body)
  {
    var p := Proc(slot, requestHash, Looked(RowOf(s, slot)), None, None);
    LookedUp(cfg, s, pid, slot, requestHash);
    ChosenStands(cfg, s.(procs := s.procs[pid := p]), pid, p);
  }

  lemma CreatesRow(cfg: Config, s: State, pid: Pid)
    requires pid in s.procs
    requires
      || (s.procs[pid].phase.Creating? && !Occupied(s.table, s.procs[pid].slot))
      || s.procs[pid].phase.Refused?
      || s.procs[pid].phase.Replayed?
    ensures
      var s' := Apply(cfg, Apply(cfg, s, Act(pid, ReadClock)), Act(pid, Insert(true)));
      pid in s'.procs && s'.procs[pid].phase == if s.procs[pid].phase.Creating? then Running else s.procs[pid].phase
  {
    var s1 := Apply(cfg, s, Act(pid, ReadClock));
    if s.procs[pid].phase.Creating? {
      assert s1.procs[pid].phase == Inserting(s.clock + cfg.retention);
      assert s1.table == s.table;
    } else {
      assert s1 == s;
    }
  }

  lemma AloneDecides(cfg: Config, s: State, pid: Pid, slot: Slot, requestHash: string)
    requires pid !in s.procs && UniqueSlots(s.table)
    ensures
      var s' := Alone(cfg, s, pid, slot, requestHash);
      && pid in s'.procs
      && match Decide(cfg, RowOf(s, slot), requestHash, s.clock)
         case Fresh => s'.procs[pid].phase == Running
         case TakeOver(_) => s'.procs[pid].phase == Running
         case Refuse(why) => s'.procs[pid].phase == Refused(why)
         case Replay(source, status, body) =>
           s'.procs[pid].phase == Phase.Replayed(source, status, body)
  {
    DecisionStands(cfg, s, pid, slot, requestHash);
    var s1 := Apply(cfg, Apply(cfg, s, Arrive(pid, slot, requestHash)), Act(pid, Look));
    var s2 := Apply(cfg, Apply(cfg, s1, Act(pid, Choose)), Act(pid, DeleteVictim(true)));
    CreatesRow(cfg, s2, pid);
  }

  lemma OnlyRowOf(s: State, slot: Slot, id: RowId)
    requires UniqueSlots(s.table) && id in s.table && s.table[id].slot == slot
    ensures RowOf(s, slot) == Some((id, s.table[id]))
  {
    assert Occupied(s.table, slot);
  }

  /** No key stays wedged, and none is given away early: in every reachable state a new request
      gets to run its handler exactly when its slot holds no row but an expired one, or one of
      its own request hash that has been in progress for longer than the staleness limit. */
  lemma RunsAloneExactly(cfg: Config, events: seq<Event>, pid: Pid, slot: Slot, requestHash: string)
    requires pid !in Run(cfg, events).procs
    ensures
      var s := Run(cfg, events);
      var s' := Alone(cfg, s, pid, slot, requestHash);
      && pid in s'.procs
      && (s'.procs[pid].phase == Running <==>
            forall i :: i in s.table && s.table[i].slot == slot ==>
              || s.table[i].expiresAt <= s.clock
              || (s.table[i].requestHash == requestHash && s.table[i].inProgress
                  && s.table[i].createdAt + cfg.stale < s.clock))
  {
    RunInv(cfg, events);
    var s := Run(cfg, events);
    AloneDecides(cfg, s, pid, slot, requestHash);
    if i :| i in s.table && s.table[i].slot == slot {
      OnlyRowOf(s, slot, i);
    }
  }

  /** What a new request is told, in every reachable state, by the row of its slot: with another
      body that the key is reused, with the same body that the first request is in progress, or
      that request's own response. */
  lemma AnsweredAloneExactly(cfg: Config, events: seq<Event>, pid: Pid, slot: Slot, requestHash: string, i: RowId)
    requires pid !in Run(cfg, events).procs
    requires i in Run(cfg, events).table && Run(cfg, events).table[i].slot == slot
    ensures
      var s, row := Run(cfg, events), Run(cfg, events).table[i];
      var s' := Alone(cfg, s, pid, slot, requestHash);
      && pid in s'.procs
      && var phase, live, same := s'.procs[pid].phase, row.expiresAt > s.clock, row.requestHash == requestHash;
         && (phase == Refused(KeyReused) <==> live && !same)
         && (phase == Refused(StillInProgress) <==>
               live && same && row.inProgress && row.createdAt + cfg.stale >= s.clock)
         && (phase.Replayed? <==> live && same && !row.inProgress)
         && (phase.Replayed? ==>
               && phase.source == i
               && Some(phase.status) == row.responseStatus
               && phase.body == if row.responseBody.Some? then row.responseBody.value else "")
  {
    RunInv(cfg, events);
    var s := Run(cfg, events);
    AloneDecides(cfg, s, pid, slot, requestHash);
    OnlyRowOf(s, slot, i);
    assert Genuine(s, i, s.table[i]);
  }

  lemma LeftByFinalizer(cfg: Config, events: seq<Event>, pid: Pid, wait: nat)
    requires
      var s := Run(cfg, events);
      pid in s.procs && Enabled(s.procs[pid], Finalize(true)) && s.procs[pid].own.value in s.table
    ensures
      var s, p := Run(cfg, events), Run(cfg, events).procs[pid];
      var later := Apply(cfg, Apply(cfg, s, Act(pid, Finalize(true))), Tick(wait));
      var row := s.table[p.own.value];
      && row.requestHash == p.requestHash
      && RowOf(later, p.slot) ==
           if Ok2xx(p.outcome.value.status)
           then Some((p.own.value,
                      row.(inProgress := false, responseStatus := Some(p.outcome.value.status),
                           responseBody := p.outcome.value.body)))
           else None
  {
    RunInv(cfg, events);
    var s, p := Run(cfg, events), Run(cfg, events).procs[pid];
    var later := Apply(cfg, Apply(cfg, s, Act(pid, Finalize(true))), Tick(wait));
    UniquePreserved(cfg, s, Act(pid, Finalize(true)));
    assert Genuine(s, p.own.value, s.table[p.own.value]);
    if Ok2xx(p.outcome.value.status) {
      OnlyRowOf(later, p.slot, p.own.value);
    } else {
      NothingLeft(s, p.slot, p.own.value, later);
    }
  }

  lemma NothingLeft(s: State, slot: Slot, id: RowId, later: State)
    requires UniqueSlots(s.table) && id in s.table && s.table[id].slot == slot && later.table == s.table - {id}
    ensures RowOf(later, slot) == None
  {
    assert forall i :: i in later.table ==> i in s.table && s.table[i] == later.table[i];
  }

  /** What a captured 2xx response gives a repetition. */
  lemma AnsweredFrom(cfg: Config, row: Row, id: RowId, o: Outcome, now: int)
    ensures
      var kept := row.(inProgress := false, responseStatus := Some(o.status), responseBody := o.body);
      Decide(cfg, Some((id, kept)), row.requestHash, now) ==
        if row.expiresAt <= now then TakeOver(id) else Replay(id, o.status, BodyText(o))
  {
  }

  /** The promise of the protocol, end to end: a repetition of a request whose handler has ended
      and whose row was not taken over gets the captured response back while the row lives if
      that was a 2xx one, and otherwise runs the handler again. */
  lemma RepetitionAnswered(cfg: Config, events: seq<Event>, pid: Pid, wait: nat, retry: Pid)
    requires
      var s := Run(cfg, events);
      && pid in s.procs && Enabled(s.procs[pid], Finalize(true)) && s.procs[pid].own.value in s.table
      && retry !in s.procs
    ensures
      var s, p := Run(cfg, events), Run(cfg, events).procs[pid];
      var later := Apply(cfg, Apply(cfg, s, Act(pid, Finalize(true))), Tick(wait));
      var s' := Alone(cfg, later, retry, p.slot, p.requestHash);
      && retry in s'.procs
      && s'.procs[retry].phase ==
           if Ok2xx(p.outcome.value.status) && s.clock + wait < s.table[p.own.value].expiresAt
           then Phase.Replayed(p.own.value, p.outcome.value.status, BodyText(p.outcome.value))
           else Running
  {
    RunInv(cfg, events);
    var s, p := Run(cfg, events), Run(cfg, events).procs[pid];
    var s1 := Apply(cfg, s, Act(pid, Finalize(true)));
    var later := Apply(cfg, s1, Tick(wait));
    UniquePreserved(cfg, s, Act(pid, Finalize(true)));
    AloneDecides(cfg, later, retry, p.slot, p.requestHash);
    LeftByFinalizer(cfg, events, pid, wait);
    if Ok2xx(p.outcome.value.status) {
      AnsweredFrom(cfg, s.table[p.own.value], p.own.value, p.outcome.value, later.clock);
    }
  }
}
