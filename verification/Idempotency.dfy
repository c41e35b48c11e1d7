/** The Idempotency-Key protocol of src/lib/idempotency.ts.

    Every `await` of the source is a place where other requests, a cleanup sweep or a
    crash may come in between, so the protocol is a transition system: `Apply` performs
    one uninterrupted segment of one request, and a run is any list of such events. */
module Idempotency {
  import opened Wrappers

  type RowId = nat
  type Pid = nat

  /** What the unique constraint ranges over; the method is always POST. */
  datatype Slot = Slot(key: string, path: string)

  datatype Row = Row(
    slot: Slot, requestHash: string, inProgress: bool,
    responseStatus: Option<int>, responseBody: Option<string>,
    createdAt: int, expiresAt: int)

  type Table = map<RowId, Row>

  datatype Config = Config(stale: nat, retention: nat)

  // ---------------------------------------------------------------- atomic statements

  ghost predicate UniqueSlots(t: Table) {
    forall i, j :: i in t && j in t && t[i].slot == t[j].slot ==> i == j
  }

  ghost predicate Occupied(t: Table, slot: Slot) {
    exists i :: i in t && t[i].slot == slot
  }

  ghost function FindUnique(t: Table, slot: Slot): (found: Option<RowId>)
    ensures found.Some? ==> found.value in t && t[found.value].slot == slot
    ensures found.None? ==> !Occupied(t, slot)
  {
    if Occupied(t, slot) then var i :| i in t && t[i].slot == slot; Some(i) else None
  }

  function DeleteById(t: Table, id: RowId): Table { t - {id} }

  function UpdateById(t: Table, id: RowId, status: int, body: Option<string>): Table {
    if id in t
    then t[id := t[id].(inProgress := false, responseStatus := Some(status), responseBody := body)]
    else t
  }

  function DeleteExpired(t: Table, cutoff: int): Table {
    map i | i in t && t[i].expiresAt >= cutoff :: t[i]
  }

  // ---------------------------------------------------------------- the decision

  datatype Refusal = KeyReused | StillInProgress | LostRace | StoreError

  datatype Decision =
    | Fresh
    | TakeOver(victim: RowId)
    | Refuse(why: Refusal)
    | Replay(source: RowId, status: int, body: string)

  /** The branch preHandler takes on the row it looked up, at clock reading `now`. */
  function Decide(cfg: Config, found: Option<(RowId, Row)>, requestHash: string, now: int): Decision {
    match found
    case None => Fresh
    case Some((id, row)) =>
      if row.expiresAt <= now then TakeOver(id)
      else if row.requestHash != requestHash then Refuse(KeyReused)
      else if row.inProgress then
        if row.createdAt < now - cfg.stale then TakeOver(id) else Refuse(StillInProgress)
      else
        Replay(
          id,
          if row.responseStatus.Some? then row.responseStatus.value else 200,
          if row.responseBody.Some? then row.responseBody.value else "")
  }

  predicate Ok2xx(status: int) { 200 <= status < 300 }

  // ---------------------------------------------------------------- processes and runs

  /** Where a request is between two awaits. */
  datatype Phase =
    | Arrived
    | Looked(found: Option<(RowId, Row)>)
    | Deleting(victim: RowId)
    | Creating
    | Inserting(expiresAt: int)
    | Running
    | Captured
    | Finalized
    | Replayed(source: RowId, status: int, body: string)
    | Refused(why: Refusal)
    | Crashed

  datatype Outcome = Outcome(status: int, body: Option<string>)

  /** `own` is the fresh-row marker, `outcome` what onSend captured on it. */
  datatype Proc = Proc(slot: Slot, requestHash: string, phase: Phase, own: Option<RowId>, outcome: Option<Outcome>)

  /** One entry per row ever inserted; a row's id is its position. */
  datatype Creation = Creation(owner: Pid, slot: Slot, requestHash: string, at: int, expiresAt: int)

  datatype State = State(clock: int, table: Table, created: seq<Creation>, procs: map<Pid, Proc>)

  /** The segments of a request. The flag `ok` is false when the database statement fails
      for a reason of its own, which the source swallows or turns into an error response. */
  datatype Action =
    | Look
    | Choose
    | DeleteVictim(ok: bool)
    | ReadClock
    | Insert(ok: bool)
    | Respond(status: int, payload: Option<string>)
    | Finalize(ok: bool)
    | Crash

  datatype Event =
    | Tick(d: nat)
    | Sweep(cutoff: int)
    | Arrive(pid: Pid, slot: Slot, requestHash: string)
    | Act(pid: Pid, action: Action)

  function Init(): State { State(0, map[], [], map[]) }

  predicate Enabled(p: Proc, a: Action) {
    match a
    case Look => p.phase.Arrived?
    case Choose => p.phase.Looked?
    case DeleteVictim(_) => p.phase.Deleting?
    case ReadClock => p.phase.Creating?
    case Insert(_) => p.phase.Inserting?
    case Respond(_, _) => p.phase.Running?
    case Finalize(_) => p.phase.Captured? && p.own.Some? && p.outcome.Some?
    case Crash => !p.phase.Replayed? && !p.phase.Refused?
  }

  ghost predicate Inserts(t: Table, p: Proc, a: Action) {
    a.Insert? && a.ok && !Occupied(t, p.slot)
  }

  function PhaseAfter(cfg: Config, p: Proc, now: int): Phase
    requires p.phase.Looked?
  {
    match Decide(cfg, p.phase.found, p.requestHash, now)
    case Fresh => Creating
    case TakeOver(id) => Deleting(id)
    case Refuse(why) => Refused(why)
    case Replay(source, status, body) => Phase.Replayed(source, status, body)
  }

  /** The acting request after its segment. */
  ghost function ActProc(cfg: Config, s: State, p: Proc, a: Action): Proc
    requires Enabled(p, a)
  {
    match a
    case Look =>
      var found := FindUnique(s.table, p.slot);
      p.(phase := Looked(if found.Some? then Some((found.value, s.table[found.value])) else None))
    case Choose => p.(phase := PhaseAfter(cfg, p, s.clock))
    case DeleteVictim(_) => p.(phase := Creating)
    case ReadClock => p.(phase := Inserting(s.clock + cfg.retention))
    case Insert(ok) =>
      if Inserts(s.table, p, a) then p.(phase := Running, own := Some(|s.created|))
      else p.(phase := Refused(if ok then LostRace else StoreError))
    case Respond(status, payload) => p.(phase := Captured, outcome := Some(Outcome(status, payload)))
    case Finalize(_) => p.(phase := Finalized)
    case Crash => p.(phase := Crashed)
  }

  /** The table after a segment of request `p`. */
  ghost function ActTable(s: State, p: Proc, a: Action): Table
    requires Enabled(p, a)
  {
    match a
    case DeleteVictim(true) => DeleteById(s.table, p.phase.victim)
    case Insert(true) =>
      if Occupied(s.table, p.slot) then s.table
      else s.table[|s.created| := Row(p.slot, p.requestHash, true, None, None, s.clock, p.phase.expiresAt)]
    case Finalize(true) =>
      if Ok2xx(p.outcome.value.status)
      then UpdateById(s.table, p.own.value, p.outcome.value.status, p.outcome.value.body)
      else DeleteById(s.table, p.own.value)
    case _ => s.table
  }

  ghost function ActCreated(s: State, pid: Pid, p: Proc, a: Action): seq<Creation>
    requires Enabled(p, a)
  {
    if Inserts(s.table, p, a)
    then s.created + [Creation(pid, p.slot, p.requestHash, s.clock, p.phase.expiresAt)]
    else s.created
  }

  /** One step. An event that is not enabled changes nothing. */
  ghost function Apply(cfg: Config, s: State, e: Event): State {
    match e
    case Tick(d) => s.(clock := s.clock + d)
    case Sweep(cutoff) => if cutoff <= s.clock then s.(table := DeleteExpired(s.table, cutoff)) else s
    case Arrive(pid, slot, hash) =>
      if pid in s.procs then s else s.(procs := s.procs[pid := Proc(slot, hash, Arrived, None, None)])
    case Act(pid, a) =>
      if pid in s.procs && Enabled(s.procs[pid], a) then
        var p := s.procs[pid];
        State(s.clock, ActTable(s, p, a), ActCreated(s, pid, p, a), s.procs[pid := ActProc(cfg, s, p, a)])
      else s
  }

  ghost function Run(cfg: Config, events: seq<Event>): State {
    if events == [] then Init() else Apply(cfg, Run(cfg, events[..|events| - 1]), events[|events| - 1])
  }

  // ---------------------------------------------------------------- invariants

  ghost function OutcomeOf(s: State, id: RowId): Option<Outcome> {
    if id < |s.created| && s.created[id].owner in s.procs then s.procs[s.created[id].owner].outcome else None
  }

  /** The handler run that created row `id` ended with a 2xx response. */
  ghost predicate Succeeded(s: State, id: RowId) {
    OutcomeOf(s, id).Some? && Ok2xx(OutcomeOf(s, id).value.status)
  }

  ghost predicate Failed(s: State, id: RowId) {
    OutcomeOf(s, id).Some? && !Ok2xx(OutcomeOf(s, id).value.status)
  }

  /** Row `id` may be given away at time `t`. */
  ghost predicate Lapsed(cfg: Config, s: State, id: RowId, t: int) {
    id < |s.created| && (t > s.created[id].at + cfg.stale || t >= s.created[id].expiresAt)
  }

  /** A stored row, live or remembered by a reader, says what its creation and its owner say. */
  ghost predicate Genuine(s: State, id: RowId, row: Row) {
    && id < |s.created|
    && row.slot == s.created[id].slot
    && row.requestHash == s.created[id].requestHash
    && row.createdAt == s.created[id].at
    && row.expiresAt == s.created[id].expiresAt
    && (!row.inProgress ==>
          Succeeded(s, id)
          && row.responseStatus == Some(OutcomeOf(s, id).value.status)
          && row.responseBody == OutcomeOf(s, id).value.body)
  }

  function BodyText(o: Outcome): string { if o.body.Some? then o.body.value else "" }

  ghost predicate MarkerOk(s: State, pid: Pid, p: Proc) {
    && (p.own.Some? ==>
          && p.own.value < |s.created|
          && s.created[p.own.value].owner == pid
          && s.created[p.own.value].slot == p.slot
          && s.created[p.own.value].requestHash == p.requestHash)
    && (p.outcome.Some? ==> p.own.Some?)
  }

  ghost predicate PhaseOk(cfg: Config, s: State, p: Proc) {
    match p.phase
    case Looked(found) =>
      p.own.None? && (found.Some? ==> Genuine(s, found.value.0, found.value.1) && found.value.1.slot == p.slot)
    case Deleting(victim) => p.own.None? && Lapsed(cfg, s, victim, s.clock)
    case Inserting(expiresAt) => p.own.None? && expiresAt <= s.clock + cfg.retention
    case Replayed(src, status, body) =>
      && p.own.None?
      && Succeeded(s, src)
      && s.created[src].slot == p.slot && s.created[src].requestHash == p.requestHash
      && OutcomeOf(s, src).value.status == status && BodyText(OutcomeOf(s, src).value) == body
    case Running => p.own.Some? && p.outcome.None?
    case Captured => p.own.Some? && p.outcome.Some?
    case Finalized => p.own.Some? && p.outcome.Some?
    case Crashed => true
    case _ => p.own.None?
  }

  ghost predicate CreationOk(cfg: Config, s: State, i: RowId)
    requires i < |s.created|
  {
    var c := s.created[i];
    && c.at <= s.clock
    && c.expiresAt <= c.at + cfg.retention
    && c.owner in s.procs && s.procs[c.owner].own == Some(i)
  }

  /** Row `i`, overtaken at time `t`, was given up by its own failed run or had lapsed by then. */
  ghost predicate Yielded(cfg: Config, s: State, i: RowId, t: int) {
    Failed(s, i) || Lapsed(cfg, s, i, t)
  }

  ghost predicate RowsOk(s: State) {
    forall i :: i in s.table ==> Genuine(s, i, s.table[i])
  }

  ghost predicate CreationsOk(cfg: Config, s: State) {
    forall i :: 0 <= i < |s.created| ==> CreationOk(cfg, s, i)
  }

  ghost predicate ProcsOk(cfg: Config, s: State) {
    forall p :: p in s.procs ==> MarkerOk(s, p, s.procs[p]) && PhaseOk(cfg, s, s.procs[p])
  }

  /** A row that is gone has been given up. */
  ghost predicate GoneOk(cfg: Config, s: State) {
    forall i :: 0 <= i < |s.created| && i !in s.table ==> Yielded(cfg, s, i, s.clock)
  }

  /** A row had been given up when a later row for its slot was inserted. */
  ghost predicate OvertakenOk(cfg: Config, s: State) {
    forall i, j :: 0 <= i < j < |s.created| && s.created[i].slot == s.created[j].slot ==>
      Yielded(cfg, s, i, s.created[j].at)
  }

  ghost predicate Inv(cfg: Config, s: State) {
    CreationsOk(cfg, s) && UniqueSlots(s.table) && RowsOk(s) && ProcsOk(cfg, s) && GoneOk(cfg, s) && OvertakenOk(cfg, s)
  }

  /** What no step takes back. */
  ghost predicate Advances(s: State, s': State) {
    && s.clock <= s'.clock
    && s.created <= s'.created
    && (forall p :: p in s.procs ==> p in s'.procs && ProcAdvances(s.procs[p], s'.procs[p]))
  }

  ghost predicate ProcAdvances(p: Proc, p': Proc) {
    && p'.slot == p.slot && p'.requestHash == p.requestHash
    && (p.own.Some? ==> p'.own == p.own)
    && (p.outcome.Some? ==> p'.outcome == p.outcome)
  }

  lemma StepAdvances(cfg: Config, s: State, e: Event)
    requires ProcsOk(cfg, s)
    ensures Advances(s, Apply(cfg, s, e))
  {
    if e.Act? && e.pid in s.procs && Enabled(s.procs[e.pid], e.action) {
      var p := s.procs[e.pid];
      assert PhaseOk(cfg, s, p);
      assert ProcAdvances(p, ActProc(cfg, s, p, e.action));
    }
  }

  lemma GenuineKept(s: State, s': State, id: RowId, row: Row)
    requires Advances(s, s') && Genuine(s, id, row)
    ensures Genuine(s', id, row)
  {
  }

  lemma PhaseKept(cfg: Config, s: State, s': State, pid: Pid, p: Proc)
    requires Advances(s, s') && MarkerOk(s, pid, p) && PhaseOk(cfg, s, p)
    ensures MarkerOk(s', pid, p) && PhaseOk(cfg, s', p)
  {
  }

  lemma YieldedKept(cfg: Config, s: State, s': State, i: RowId, t: int, t': int)
    requires Advances(s, s') && Yielded(cfg, s, i, t) && t <= t'
    ensures Yielded(cfg, s', i, t')
  {
  }

  /** The branch taken on the row looked up. */
  lemma ChosenOk(cfg: Config, s: State, s': State, p: Proc)
    requires p.phase.Looked? && PhaseOk(cfg, s, p) && CreationsOk(cfg, s) && Advances(s, s') && s'.clock == s.clock
    ensures PhaseOk(cfg, s', p.(phase := PhaseAfter(cfg, p, s.clock)))
  {
    if p.phase.found.Some? {
      assert CreationOk(cfg, s, p.phase.found.value.0);
    }
  }

  lemma ActorOk(cfg: Config, s: State, pid: Pid, a: Action)
    requires Inv(cfg, s) && pid in s.procs && Enabled(s.procs[pid], a)
    ensures
      var s' := Apply(cfg, s, Act(pid, a));
      MarkerOk(s', pid, s'.procs[pid]) && PhaseOk(cfg, s', s'.procs[pid])
  {
    StepAdvances(cfg, s, Act(pid, a));
    if a.Choose? {
      ChosenOk(cfg, s, Apply(cfg, s, Act(pid, a)), s.procs[pid]);
    }
  }

  lemma ProcsPreserved(cfg: Config, s: State, e: Event)
    requires Inv(cfg, s)
    ensures ProcsOk(cfg, Apply(cfg, s, e))
  {
    var s' := Apply(cfg, s, e);
    StepAdvances(cfg, s, e);
    forall p | p in s'.procs ensures MarkerOk(s', p, s'.procs[p]) && PhaseOk(cfg, s', s'.procs[p]) {
      if e.Act? && p == e.pid && Enabled(s.procs[p], e.action) {
        ActorOk(cfg, s, p, e.action);
      } else if p in s.procs {
        PhaseKept(cfg, s, s', p, s.procs[p]);
      }
    }
  }

  lemma CreationsPreserved(cfg: Config, s: State, e: Event)
    requires Inv(cfg, s)
    ensures CreationsOk(cfg, Apply(cfg, s, e))
  {
    var s' := Apply(cfg, s, e);
    StepAdvances(cfg, s, e);
    forall i | 0 <= i < |s'.created| ensures CreationOk(cfg, s', i) {
      if i < |s.created| {
        assert CreationOk(cfg, s, i);
      } else {
        assert PhaseOk(cfg, s, s.procs[e.pid]);
      }
    }
  }

  /** A row that changes is its creator's, which writes what it captured. */
  lemma RowWritten(cfg: Config, s: State, e: Event, i: RowId)
    requires RowsOk(s) && ProcsOk(cfg, s) && i in s.table && i in Apply(cfg, s, e).table
    requires Apply(cfg, s, e).table[i] != s.table[i]
    ensures Genuine(Apply(cfg, s, e), i, Apply(cfg, s, e).table[i])
  {
    assert Genuine(s, i, s.table[i]);
    assert MarkerOk(s, e.pid, s.procs[e.pid]);
  }

  lemma RowInserted(cfg: Config, s: State, e: Event, i: RowId)
    requires RowsOk(s) && i !in s.table && i in Apply(cfg, s, e).table
    ensures Genuine(Apply(cfg, s, e), i, Apply(cfg, s, e).table[i])
  {
  }

  lemma RowsPreserved(cfg: Config, s: State, e: Event)
    requires Inv(cfg, s)
    ensures RowsOk(Apply(cfg, s, e))
  {
    var s' := Apply(cfg, s, e);
    StepAdvances(cfg, s, e);
    forall i | i in s'.table ensures Genuine(s', i, s'.table[i]) {
      if i !in s.table {
        RowInserted(cfg, s, e, i);
      } else if s'.table[i] != s.table[i] {
        RowWritten(cfg, s, e, i);
      } else {
        GenuineKept(s, s', i, s.table[i]);
      }
    }
  }

  /** A row new to the table has a slot that was free, and is the only new one. */
  lemma InsertedAlone(cfg: Config, s: State, e: Event, i: RowId)
    requires i in Apply(cfg, s, e).table && i !in s.table
    ensures i == |s.created| && !Occupied(s.table, Apply(cfg, s, e).table[i].slot)
  {
  }

  lemma SlotKept(cfg: Config, s: State, e: Event, i: RowId)
    requires RowsOk(s) && i in Apply(cfg, s, e).table && i in s.table
    ensures Apply(cfg, s, e).table[i].slot == s.table[i].slot
  {
    assert Genuine(s, i, s.table[i]);
  }

  lemma UniquePreserved(cfg: Config, s: State, e: Event)
    requires UniqueSlots(s.table) && RowsOk(s)
    ensures UniqueSlots(Apply(cfg, s, e).table)
  {
    var t' := Apply(cfg, s, e).table;
    forall i, j | i in t' && j in t' && t'[i].slot == t'[j].slot ensures i == j {
      if i in s.table { SlotKept(cfg, s, e, i); } else { InsertedAlone(cfg, s, e, i); }
      if j in s.table { SlotKept(cfg, s, e, j); } else { InsertedAlone(cfg, s, e, j); }
    }
  }

  /** What the sweep deletes had expired. */
  lemma SweptLapsed(cfg: Config, s: State, cutoff: int, i: RowId)
    requires RowsOk(s) && cutoff <= s.clock && i in s.table && i !in DeleteExpired(s.table, cutoff)
    ensures Yielded(cfg, s, i, s.clock)
  {
    assert Genuine(s, i, s.table[i]);
  }

  /** What a request deletes had lapsed, or is its own row after a failed run. */
  lemma DeletedYields(cfg: Config, s: State, pid: Pid, p: Proc, a: Action, i: RowId)
    requires pid in s.procs && s.procs[pid] == p && Enabled(p, a) && MarkerOk(s, pid, p) && PhaseOk(cfg, s, p)
    requires i in s.table && i !in ActTable(s, p, a)
    ensures Yielded(cfg, s, i, s.clock)
  {
    match a
    case DeleteVictim(_) =>
    case Finalize(_) =>
    case _ =>
  }

  lemma GoneYields(cfg: Config, s: State, e: Event, i: RowId)
    requires RowsOk(s) && ProcsOk(cfg, s) && i in s.table && i !in Apply(cfg, s, e).table
    ensures Yielded(cfg, s, i, s.clock)
  {
    match e
    case Sweep(cutoff) => SweptLapsed(cfg, s, cutoff, i);
    case Act(pid, a) => DeletedYields(cfg, s, pid, s.procs[pid], a, i);
    case _ =>
  }

  /** The row a step creates is in the table after it. */
  lemma CreatedStays(cfg: Config, s: State, e: Event, i: RowId)
    requires |s.created| <= i < |Apply(cfg, s, e).created|
    ensures i in Apply(cfg, s, e).table
  {
  }

  lemma GonePreserved(cfg: Config, s: State, e: Event)
    requires Inv(cfg, s)
    ensures GoneOk(cfg, Apply(cfg, s, e))
  {
    var s' := Apply(cfg, s, e);
    StepAdvances(cfg, s, e);
    forall i | 0 <= i < |s'.created| && i !in s'.table ensures Yielded(cfg, s', i, s'.clock) {
      if i < |s.created| {
        if i in s.table { GoneYields(cfg, s, e, i); }
        YieldedKept(cfg, s, s', i, s.clock, s'.clock);
      } else {
        CreatedStays(cfg, s, e, i);
      }
    }
  }

  lemma OvertakenPreserved(cfg: Config, s: State, e: Event)
    requires Inv(cfg, s)
    ensures OvertakenOk(cfg, Apply(cfg, s, e))
  {
    var s' := Apply(cfg, s, e);
    StepAdvances(cfg, s, e);
    forall i, j | 0 <= i < j < |s'.created| && s'.created[i].slot == s'.created[j].slot
      ensures Yielded(cfg, s', i, s'.created[j].at)
    {
      if j < |s.created| {
        YieldedKept(cfg, s, s', i, s.created[j].at, s'.created[j].at);
      } else {
        assert i !in s.table;
        YieldedKept(cfg, s, s', i, s.clock, s'.created[j].at);
      }
    }
  }

  lemma {:induction false} RunInv(cfg: Config, events: seq<Event>)
    ensures Inv(cfg, Run(cfg, events))
  {
    if events == [] {
    } else {
      var s := Run(cfg, events[..|events| - 1]);
      var e := events[|events| - 1];
      RunInv(cfg, events[..|events| - 1]);
      ProcsPreserved(cfg, s, e);
      CreationsPreserved(cfg, s, e);
      RowsPreserved(cfg, s, e);
      UniquePreserved(cfg, s, e);
      GonePreserved(cfg, s, e);
      OvertakenPreserved(cfg, s, e);
    }
  }

  // ---------------------------------------------------------------- main results

  /** Every row has one creator, and a request creates at most one row. */
  lemma OneCreatorPerRow(cfg: Config, events: seq<Event>, id: RowId, p: Pid)
    requires id < |Run(cfg, events).created| && p in Run(cfg, events).procs
    ensures Run(cfg, events).procs[p].own == Some(id) <==> p == Run(cfg, events).created[id].owner
  {
    RunInv(cfg, events);
    var s := Run(cfg, events);
    assert CreationOk(cfg, s, id) && MarkerOk(s, p, s.procs[p]);
  }

  /** In every reachable state a stored row changes only in the finalizer of the request that
      created it, which then ended 2xx and writes exactly what that request captured. */
  lemma OnlyOwnerWrites(cfg: Config, events: seq<Event>, e: Event, id: RowId)
    requires
      var s := Run(cfg, events);
      var s' := Apply(cfg, s, e);
      id in s.table && id in s'.table && s.table[id] != s'.table[id]
    ensures
      var s := Run(cfg, events);
      && id < |s.created| && Succeeded(s, id)
      && e == Act(s.created[id].owner, Finalize(true))
      && Apply(cfg, s, e).table[id] ==
           s.table[id].(inProgress := false, responseStatus := Some(OutcomeOf(s, id).value.status),
                        responseBody := OutcomeOf(s, id).value.body)
  {
    RunInv(cfg, events);
    var s := Run(cfg, events);
    assert MarkerOk(s, e.pid, s.procs[e.pid]);
  }

  /** A finalizer touches no row but its request's own: when that row has been taken over,
      the table, successor included, stays as it is. */
  lemma FinalizerFrame(cfg: Config, events: seq<Event>, pid: Pid, ok: bool, id: RowId)
    requires pid in Run(cfg, events).procs && Run(cfg, events).procs[pid].own != Some(id)
    ensures
      var s := Run(cfg, events);
      var s' := Apply(cfg, s, Act(pid, Finalize(ok)));
      && (id in s.table <==> id in s'.table)
      && (id in s.table ==> s'.table[id] == s.table[id])
      && (s.procs[pid].own.Some? && s.procs[pid].own.value !in s.table ==> s'.table == s.table)
  {
  }

  /** What is replayed is the response of a 2xx run of another request with the same stored
      key, route and request hash; a missing body is replayed as the empty one. */
  lemma ReplaySound(cfg: Config, events: seq<Event>, pid: Pid)
    requires pid in Run(cfg, events).procs && Run(cfg, events).procs[pid].phase.Replayed?
    ensures
      var s := Run(cfg, events);
      exists q :: q in s.procs && q != pid
        && s.procs[q].slot == s.procs[pid].slot && s.procs[q].requestHash == s.procs[pid].requestHash
        && s.procs[q].outcome.Some? && Ok2xx(s.procs[q].outcome.value.status)
        && s.procs[pid].phase.status == s.procs[q].outcome.value.status
        && s.procs[pid].phase.body == BodyText(s.procs[q].outcome.value)
  {
    RunInv(cfg, events);
    var s := Run(cfg, events);
    assert PhaseOk(cfg, s, s.procs[pid]);
    var src := s.procs[pid].phase.source;
    var q := s.created[src].owner;
    assert CreationOk(cfg, s, src) && MarkerOk(s, q, s.procs[q]);
  }

  /** Over every interleaving: while the run of row `i` has not ended with a non-2xx status
      (it ended 2xx, still runs, or crashed), no later row for its slot is created before `i`
      is older than the staleness limit or has expired. */
  lemma Separation(cfg: Config, events: seq<Event>, i: RowId, j: RowId)
    requires i < j < |Run(cfg, events).created|
    requires Run(cfg, events).created[i].slot == Run(cfg, events).created[j].slot
    requires !Failed(Run(cfg, events), i)
    ensures
      var c := Run(cfg, events).created;
      c[j].at > c[i].at + cfg.stale || c[j].at >= c[i].expiresAt
  {
    RunInv(cfg, events);
    assert Yielded(cfg, Run(cfg, events), i, Run(cfg, events).created[j].at);
  }

  function Min(a: int, b: int): int { if a <= b then a else b }

  /** In this run every insert took effect at most `lag` after its expiry was computed. */
  ghost predicate LagBounded(cfg: Config, s: State, lag: nat) {
    forall i :: 0 <= i < |s.created| ==> s.created[i].at + cfg.retention - s.created[i].expiresAt <= lag
  }

  /** Two 2xx runs for the same stored key and route are further apart than the smaller limit. */
  ghost predicate Separated(cfg: Config, s: State) {
    forall i, j | 0 <= i < j < |s.created| && s.created[i].slot == s.created[j].slot
                  && Succeeded(s, i) && Succeeded(s, j) ::
      s.created[j].at - s.created[i].at > Min(cfg.stale, cfg.retention)
  }

  ghost predicate AlwaysSeparated(cfg: Config, lag: nat) {
    forall events :: LagBounded(cfg, Run(cfg, events), lag) ==> Separated(cfg, Run(cfg, events))
  }

  lemma RunSnoc(cfg: Config, events: seq<Event>, e: Event)
    ensures Run(cfg, events + [e]) == Apply(cfg, Run(cfg, events), e)
  {
    assert (events + [e])[..|events|] == events;
  }

  /** The row of a slot with its id, if the slot has one. */
  ghost function RowOf(s: State, slot: Slot): Option<(RowId, Row)> {
    var found := FindUnique(s.table, slot);
    if found.Some? then Some((found.value, s.table[found.value])) else None
  }

  lemma LookedUp(cfg: Config, s: State, pid: Pid, slot: Slot, requestHash: string)
    requires pid !in s.procs
    ensures
      Apply(cfg, Apply(cfg, s, Arrive(pid, slot, requestHash)), Act(pid, Look)) ==
        s.(procs := s.procs[pid := Proc(slot, requestHash, Looked(RowOf(s, slot)), None, None)])
  {
    var s0 := Apply(cfg, s, Arrive(pid, slot, requestHash));
    assert s0.procs[pid] == Proc(slot, requestHash, Arrived, None, None) && s0.table == s.table;
  }

  /** With nothing but expired rows in its slot, the request chosen for goes on to create its own. */
  lemma ChosenAdmitted(cfg: Config, s: State, pid: Pid, p: Proc)
    requires pid in s.procs && s.procs[pid] == p && p.phase == Looked(RowOf(s, p.slot)) && UniqueSlots(s.table)
    requires forall i :: i in s.table && s.table[i].slot == p.slot ==> s.table[i].expiresAt <= s.clock
    ensures
      var s2 := Apply(cfg, Apply(cfg, s, Act(pid, Choose)), Act(pid, DeleteVictim(true)));
      && s2 == State(s.clock, s2.table, s.created, s.procs[pid := p.(phase := Creating)])
      && !Occupied(s2.table, p.slot)
  {
    var found := FindUnique(s.table, p.slot);
    assert Apply(cfg, s, Act(pid, Choose)).procs[pid].phase == if found.Some? then Deleting(found.value) else Creating;
  }

  /** A request for a slot that holds at most an expired row gets as far as creating its own. */
  lemma Admitted(cfg: Config, s: State, pid: Pid, slot: Slot)
    requires pid !in s.procs && UniqueSlots(s.table)
    requires forall i :: i in s.table && s.table[i].slot == slot ==> s.table[i].expiresAt <= s.clock
    ensures
      var s1 := Apply(cfg, Apply(cfg, s, Arrive(pid, slot, "h")), Act(pid, Look));
      var s2 := Apply(cfg, Apply(cfg, s1, Act(pid, Choose)), Act(pid, DeleteVictim(true)));
      && s2 == State(s.clock, s2.table, s.created, s.procs[pid := Proc(slot, "h", Creating, None, None)])
      && !Occupied(s2.table, slot)
  {
    var p := Proc(slot, "h", Looked(RowOf(s, slot)), None, None);
    LookedUp(cfg, s, pid, slot, "h");
    ChosenAdmitted(cfg, s.(procs := s.procs[pid := p]), pid, p);
  }

  /** From there it inserts `delay` after computing its expiry and answers 200. */
  lemma Answered(cfg: Config, s: State, pid: Pid, slot: Slot, delay: nat)
    requires pid in s.procs && s.procs[pid] == Proc(slot, "h", Creating, None, None) && !Occupied(s.table, slot)
    ensures
      var s1 := Apply(cfg, Apply(cfg, s, Act(pid, ReadClock)), Tick(delay));
      var s2 := Apply(cfg, Apply(cfg, s1, Act(pid, Insert(true))), Act(pid, Respond(200, None)));
      var id := |s.created|;
      && s2.clock == s.clock + delay
      && s2.created == s.created + [Creation(pid, slot, "h", s.clock + delay, s.clock + cfg.retention)]
      && s2.procs == s.procs[pid := Proc(slot, "h", Captured, Some(id), Some(Outcome(200, None)))]
      && s2.table == s.table[id := Row(slot, "h", true, None, None, s.clock + delay, s.clock + cfg.retention)]
  {
    var s1 := Apply(cfg, Apply(cfg, s, Act(pid, ReadClock)), Tick(delay));
    assert s1.procs[pid].phase == Inserting(s.clock + cfg.retention);
    var s2 := Apply(cfg, s1, Act(pid, Insert(true)));
    assert s2.procs[pid].phase == Running;
  }

  lemma RunFour(cfg: Config, before: seq<Event>, e1: Event, e2: Event, e3: Event, e4: Event)
    returns (events: seq<Event>)
    ensures Run(cfg, events) == Apply(cfg, Apply(cfg, Apply(cfg, Apply(cfg, Run(cfg, before), e1), e2), e3), e4)
  {
    RunSnoc(cfg, before, e1);
    RunSnoc(cfg, before + [e1], e2);
    RunSnoc(cfg, before + [e1] + [e2], e3);
    RunSnoc(cfg, before + [e1] + [e2] + [e3], e4);
    events := before + [e1] + [e2] + [e3] + [e4];
  }

  lemma RunAdmitted(cfg: Config, before: seq<Event>, pid: Pid, slot: Slot) returns (events: seq<Event>)
    requires pid !in Run(cfg, before).procs
    requires
      var s := Run(cfg, before);
      forall i :: i in s.table && s.table[i].slot == slot ==> s.table[i].expiresAt <= s.clock
    ensures
      var s, s' := Run(cfg, before), Run(cfg, events);
      && s'.clock == s.clock && s'.created == s.created
      && s'.procs == s.procs[pid := Proc(slot, "h", Creating, None, None)]
      && !Occupied(s'.table, slot)
  {
    RunInv(cfg, before);
    Admitted(cfg, Run(cfg, before), pid, slot);
    events := RunFour(cfg, before, Arrive(pid, slot, "h"), Act(pid, Look), Act(pid, Choose),
      Act(pid, DeleteVictim(true)));
  }

  lemma RunAnswered(cfg: Config, before: seq<Event>, pid: Pid, slot: Slot, delay: nat) returns (events: seq<Event>)
    requires
      var s := Run(cfg, before);
      pid in s.procs && s.procs[pid] == Proc(slot, "h", Creating, None, None) && !Occupied(s.table, slot)
    ensures
      var s, s' := Run(cfg, before), Run(cfg, events);
      var id := |s.created|;
      && s'.clock == s.clock + delay
      && s'.created == s.created + [Creation(pid, slot, "h", s.clock + delay, s.clock + cfg.retention)]
      && s'.procs == s.procs[pid := Proc(slot, "h", Captured, Some(id), Some(Outcome(200, None)))]
      && (forall i :: i in s'.table && s'.table[i].slot == slot ==> s'.table[i].expiresAt == s.clock + cfg.retention)
  {
    Answered(cfg, Run(cfg, before), pid, slot, delay);
    events := RunFour(cfg, before, Act(pid, ReadClock), Tick(delay), Act(pid, Insert(true)),
      Act(pid, Respond(200, None)));
  }

  lemma RunStraight(cfg: Config, before: seq<Event>, pid: Pid, slot: Slot, delay: nat) returns (events: seq<Event>)
    requires pid !in Run(cfg, before).procs
    requires
      var s := Run(cfg, before);
      forall i :: i in s.table && s.table[i].slot == slot ==> s.table[i].expiresAt <= s.clock
    ensures
      var s, s' := Run(cfg, before), Run(cfg, events);
      var id := |s.created|;
      && s'.clock == s.clock + delay
      && s'.created == s.created + [Creation(pid, slot, "h", s.clock + delay, s.clock + cfg.retention)]
      && s'.procs == s.procs[pid := Proc(slot, "h", Captured, Some(id), Some(Outcome(200, None)))]
      && (forall i :: i in s'.table && s'.table[i].slot == slot ==> s'.table[i].expiresAt == s.clock + cfg.retention)
  {
    events := RunAdmitted(cfg, before, pid, slot);
    events := RunAnswered(cfg, events, pid, slot, delay);
  }

  lemma TwoSuccesses(cfg: Config, delay: nat, wait: nat) returns (events: seq<Event>)
    requires delay + wait == cfg.retention
    ensures
      var s := Run(cfg, events);
      && |s.created| == 2 && s.created[0].slot == s.created[1].slot
      && Succeeded(s, 0) && Succeeded(s, 1)
      && s.created[0].at == delay && s.created[1].at == cfg.retention
      && s.created[0].expiresAt == cfg.retention && s.created[1].expiresAt == 2 * cfg.retention
  {
    var slot := Slot("k", "/p");
    events := RunStraight(cfg, [], 0, slot, delay);
    RunSnoc(cfg, events, Tick(wait));
    events := RunStraight(cfg, events + [Tick(wait)], 1, slot, 0);
  }

  /** The promised separation holds on all runs whose inserts lag at most `lag` if and only if
      staleness limit plus lag stay below the retention time. The expiry is computed before
      the insert and an expired row is given away at its very expiry instant, so with a
      retention time that is too short two 2xx runs can be too close. */
  lemma SeparationExactly(cfg: Config, lag: nat)
    ensures AlwaysSeparated(cfg, lag) <==> cfg.stale + lag < cfg.retention
  {
    if cfg.stale + lag < cfg.retention {
      forall events | LagBounded(cfg, Run(cfg, events), lag) ensures Separated(cfg, Run(cfg, events)) {
        var s := Run(cfg, events);
        forall i, j | 0 <= i < j < |s.created| && s.created[i].slot == s.created[j].slot && Succeeded(s, i)
          ensures s.created[j].at - s.created[i].at > Min(cfg.stale, cfg.retention)
        {
          Separation(cfg, events, i, j);
        }
      }
    } else {
      var delay := Min(lag, cfg.retention);
      var events := TwoSuccesses(cfg, delay, cfg.retention - delay);
      var s := Run(cfg, events);
      assert LagBounded(cfg, s, lag);
      assert !Separated(cfg, s) by {
        assert s.created[1].at - s.created[0].at <= Min(cfg.stale, cfg.retention);
      }
    }
  }
}
