/** The reference-counted connection pool of src/lib/ssh.ts, one step per call or event.

    A client's number stands for its SSHClient object. */
module ConnectionPool {
  import opened Wrappers

  const MAX_IDLE_MS := 300_000

  datatype Entry = Entry(client: nat, lastUsedAt: int, refCount: nat)

  /** `connected` holds the clients whose isConnected() is true. */
  datatype Pool = Pool(connections: map<string, Entry>, connected: set<nat>)

  /** What acquire hands out: one PooledClient. */
  datatype Handle = Handle(client: nat, key: string, released: bool)

  /** `clients` gives the key of every client ever made, `connecting` those whose connect() is
      pending. */
  datatype State = State(pool: Pool, handles: seq<Handle>, clients: seq<string>, connecting: set<nat>)

  datatype Event =
    | Acquire(key: string, now: int)
    | Connected(client: nat, now: int)
    | ConnectFailed(client: nat)
    | Drop(client: nat)                // the connection is lost
    | CallFailed(handle: nat)          // an exec, execStream or writeFile throws on a dead client
    | Disconnect(handle: nat, now: int)
    | Cleanup(now: int)

  predicate Healthy(p: Pool, key: string) {
    key in p.connections && p.connections[key].client in p.connected
  }

  /** acquire up to its first await, when a healthy connection is there. */
  function Reuse(p: Pool, key: string, now: int): Pool
    requires Healthy(p, key)
  {
    var e := p.connections[key];
    p.(connections := p.connections[key := Entry(e.client, now, e.refCount + 1)])
  }

  /** The rest of acquire, once connect() has resolved: whatever the key has by then is
      overwritten. */
  function Install(p: Pool, key: string, client: nat, now: int): Pool {
    Pool(p.connections[key := Entry(client, now, 1)], p.connected + {client})
  }

  /** release and evict look the entry up by key, whatever connection it now holds. */
  function Release(p: Pool, key: string, now: int): Pool {
    if key !in p.connections then p
    else
      var e := p.connections[key];
      p.(connections := p.connections[key := Entry(e.client, now, if e.refCount == 0 then 0 else e.refCount - 1)])
  }

  function EvictKey(p: Pool, key: string): Pool {
    if key !in p.connections then p
    else Pool(p.connections - {key}, p.connected - {p.connections[key].client})
  }

  predicate Expired(p: Pool, key: string, now: int)
    requires key in p.connections
  {
    p.connections[key].refCount == 0 && now - p.connections[key].lastUsedAt > MAX_IDLE_MS
  }

  /** Cleanup removes dead and expired entries and closes the expired ones. */
  predicate Removed(p: Pool, key: string, now: int)
    requires key in p.connections
  {
    !Healthy(p, key) || Expired(p, key, now)
  }

  function Clean(p: Pool, now: int): Pool {
    Pool(map key | key in p.connections && !Removed(p, key, now) :: p.connections[key],
         p.connected - (set key | key in p.connections && Removed(p, key, now) :: p.connections[key].client))
  }

  predicate Enabled(s: State, e: Event) {
    match e
    case Acquire(_, _) => true
    case Connected(c, _) => c < |s.clients| && c in s.connecting
    case ConnectFailed(c) => c in s.connecting
    case Drop(_) => true
    case CallFailed(h) => h < |s.handles| && s.handles[h].client !in s.pool.connected
    case Disconnect(h, _) => h < |s.handles|
    case Cleanup(_) => true
  }

  /** One step; an event that is not enabled changes nothing. */
  function Apply(s: State, e: Event): State {
    if !Enabled(s, e) then s
    else match e
      case Acquire(key, now) =>
        if Healthy(s.pool, key)
        then s.(pool := Reuse(s.pool, key, now),
                handles := s.handles + [Handle(s.pool.connections[key].client, key, false)])
        else State(EvictKey(s.pool, key), s.handles, s.clients + [key], s.connecting + {|s.clients|})
      case Connected(c, now) =>
        var key := s.clients[c];
        State(Install(s.pool, key, c, now), s.handles + [Handle(c, key, false)], s.clients, s.connecting - {c})
      case ConnectFailed(c) => s.(connecting := s.connecting - {c})
      case Drop(c) => s.(pool := s.pool.(connected := s.pool.connected - {c}))
      case CallFailed(h) =>
        s.(pool := EvictKey(s.pool, s.handles[h].key), handles := s.handles[h := s.handles[h].(released := true)])
      case Disconnect(h, now) =>
        if s.handles[h].released then s
        else s.(pool := Release(s.pool, s.handles[h].key, now),
                handles := s.handles[h := s.handles[h].(released := true)])
      case Cleanup(now) => s.(pool := Clean(s.pool, now))
  }

  function Run(events: seq<Event>): State {
    if events == [] then State(Pool(map[], {}), [], [], {})
    else Apply(Run(events[..|events| - 1]), events[|events| - 1])
  }

  // ---------------------------------------------------------------- the pool and its handles

  class SSHConnectionPool {
    var connections: map<string, Entry>
    var connected: set<nat>

    ghost function Abs(): Pool
      reads this
    {
      Pool(connections, connected)
    }

    constructor ()
      ensures Abs() == Run([]).pool
    {
      connections, connected := map[], {};
    }

    /** acquire up to its first await: reuse a healthy connection, or drop a dead entry and
        have the caller connect a new client. */
    method BeginAcquire(key: string, now: int) returns (reused: Option<nat>)
      modifies this
      ensures reused == if old(Healthy(Abs(), key)) then Some(old(connections)[key].client) else None
      ensures Abs() == if old(Healthy(Abs(), key)) then Reuse(old(Abs()), key, now) else EvictKey(old(Abs()), key)
    {
      if key in connections {
        var existing := connections[key];
        if existing.client in connected {
          connections := connections[key := Entry(existing.client, now, existing.refCount + 1)];
          return Some(existing.client);
        }
        connected := connected - {existing.client};
        connections := connections - {key};
      }
      return None;
    }

    method FinishAcquire(key: string, client: nat, now: int)
      modifies this
      ensures Abs() == Install(old(Abs()), key, client, now)
    {
      connected := connected + {client};
      connections := connections[key := Entry(client, now, 1)];
    }

    method ReleaseKey(key: string, now: int)
      modifies this
      ensures Abs() == Release(old(Abs()), key, now)
    {
      if key in connections {
        var entry := connections[key];
        connections := connections[key :=
          Entry(entry.client, now, if entry.refCount > 0 then entry.refCount - 1 else 0)];
      }
    }

    method Evict(key: string)
      modifies this
      ensures Abs() == EvictKey(old(Abs()), key)
    {
      if key in connections {
        connected := connected - {connections[key].client};
        connections := connections - {key};
      }
    }

    method CleanUp(now: int)
      requires forall j, k ::
        j in connections && k in connections && j != k ==> connections[j].client != connections[k].client
      modifies this
      ensures Abs() == Clean(old(Abs()), now)
    {
      var todo := connections.Keys;
      ghost var before := Abs();
      while todo != {}
        invariant todo <= before.connections.Keys
        invariant connections.Keys == set k | k in before.connections && (k in todo || !Removed(before, k, now))
        invariant forall k :: k in connections ==> connections[k] == before.connections[k]
        invariant connected == before.connected -
                               (set k | k in before.connections && k !in todo && Removed(before, k, now) ::
                                 before.connections[k].client)
        decreases todo
      {
        var key :| key in todo;
        todo := todo - {key};
        var entry := connections[key];
        if entry.client !in connected {
          connections := connections - {key};
        } else if entry.refCount == 0 && now - entry.lastUsedAt > MAX_IDLE_MS {
          connected := connected - {entry.client};
          connections := connections - {key};
        }
      }
    }
  }

  class PooledClient {
    const client: nat
    const key: string
    const pool: SSHConnectionPool
    var released: bool

    constructor (client: nat, key: string, pool: SSHConnectionPool)
      ensures this.client == client && this.key == key && this.pool == pool && !released
    {
      this.client, this.key, this.pool, released := client, key, pool, false;
    }

    /** Returns the connection once, however often it is called. */
    method Disconnect(now: int)
      modifies this, pool
      ensures released
      ensures pool.Abs() == if old(released) then old(pool.Abs()) else Release(old(pool.Abs()), key, now)
    {
      if !released {
        released := true;
        pool.ReleaseKey(key, now);
      }
    }

    /** The catch block of exec, execStream and writeFile. */
    method OnCallFailed()
      modifies this, pool
      ensures released == (old(released) || client !in old(pool.connected))
      ensures pool.Abs() == if client !in old(pool.connected) then EvictKey(old(pool.Abs()), key) else old(pool.Abs())
    {
      if client !in pool.connected {
        pool.Evict(key);
        released := true;
      }
    }
  }

  // ---------------------------------------------------------------- counting handles

  /** How many handles of a client have not been returned. */
  function Users(handles: seq<Handle>, client: nat): nat {
    if handles == [] then 0
    else
      var last := handles[|handles| - 1];
      Users(handles[..|handles| - 1], client) + if last.client == client && !last.released then 1 else 0
  }

  lemma UsersAppend(handles: seq<Handle>, h: Handle, client: nat)
    ensures Users(handles + [h], client) == Users(handles, client) + if h.client == client && !h.released then 1 else 0
  {
    assert (handles + [h])[..|handles|] == handles;
  }

  lemma {:induction false} UsersReleased(handles: seq<Handle>, i: nat, client: nat)
    requires i < |handles|
    ensures Users(handles[i := handles[i].(released := true)], client) ==
            Users(handles, client) - if handles[i].client == client && !handles[i].released then 1 else 0
  {
    var n := |handles| - 1;
    var after := handles[i := handles[i].(released := true)];
    if i == n {
      assert after[..n] == handles[..n];
    } else {
      UsersReleased(handles[..n], i, client);
      assert after[..n] == handles[..n][i := handles[i].(released := true)];
    }
  }

  lemma {:induction false} UsersExactly(handles: seq<Handle>, client: nat)
    ensures Users(handles, client) > 0 <==>
      exists h :: 0 <= h < |handles| && handles[h].client == client && !handles[h].released
  {
    if handles == [] {
    } else {
      var n := |handles| - 1;
      UsersExactly(handles[..n], client);
      if h :| 0 <= h < |handles| && handles[h].client == client && !handles[h].released {
        if h < n { assert handles[..n][h].client == client; }
      }
    }
  }

  // ---------------------------------------------------------------- invariant

  predicate ClientsOk(s: State) {
    && (forall k :: k in s.pool.connections ==>
          var c := s.pool.connections[k].client; c < |s.clients| && s.clients[c] == k && c !in s.connecting)
    && (forall h :: 0 <= h < |s.handles| ==>
          var c := s.handles[h].client; c < |s.clients| && s.clients[c] == s.handles[h].key && c !in s.connecting)
    && (forall c :: c in s.connecting ==> c < |s.clients|)
  }

  /** No entry counts more users than its connection has. */
  predicate CountsOk(s: State) {
    forall k :: k in s.pool.connections ==>
      s.pool.connections[k].refCount <= Users(s.handles, s.pool.connections[k].client)
  }

  predicate CountsExact(s: State) {
    forall k :: k in s.pool.connections ==>
      s.pool.connections[k].refCount == Users(s.handles, s.pool.connections[k].client)
  }

  /** Returning this handle would be booked on a connection it does not belong to. */
  predicate Stray(s: State, h: nat) {
    h < |s.handles| && !s.handles[h].released &&
    s.handles[h].key in s.pool.connections && s.pool.connections[s.handles[h].key].client != s.handles[h].client
  }

  predicate StrayReturn(s: State, e: Event) {
    e.Disconnect? && Stray(s, e.handle)
  }

  lemma ClientsKept(s: State, e: Event)
    requires ClientsOk(s)
    ensures ClientsOk(Apply(s, e))
  {
  }

  /** A client no handle knows yet has no users. */
  lemma {:induction false} NoUsers(handles: seq<Handle>, client: nat)
    requires forall h :: 0 <= h < |handles| ==> handles[h].client != client
    ensures Users(handles, client) == 0
  {
    UsersExactly(handles, client);
  }

  /** How one step changes the user count of a client. */
  lemma UsersStep(s: State, e: Event, client: nat)
    requires ClientsOk(s) && Enabled(s, e)
    ensures
      var before, after := Users(s.handles, client), Users(Apply(s, e).handles, client);
      match e
      case Acquire(key, _) =>
        after == before + if Healthy(s.pool, key) && s.pool.connections[key].client == client then 1 else 0
      case Connected(c, _) => after == before + (if c == client then 1 else 0) && (c == client ==> before == 0)
      case CallFailed(h) => after == before - if s.handles[h].client == client && !s.handles[h].released then 1 else 0
      case Disconnect(h, _) =>
        after == before - if s.handles[h].client == client && !s.handles[h].released then 1 else 0
      case _ => after == before
  {
    match e {
      case Acquire(key, _) =>
        if Healthy(s.pool, key) {
          UsersAppend(s.handles, Handle(s.pool.connections[key].client, key, false), client);
        }
      case Connected(c, _) =>
        UsersAppend(s.handles, Handle(c, s.clients[c], false), client);
        if c == client { NoUsers(s.handles, client); }
      case CallFailed(h) => UsersReleased(s.handles, h, client);
      case Disconnect(h, _) => UsersReleased(s.handles, h, client);
      case _ =>
    }
  }

  lemma ReturnedHadUser(s: State, h: nat)
    requires h < |s.handles| && !s.handles[h].released
    ensures Users(s.handles, s.handles[h].client) > 0
  {
    UsersExactly(s.handles, s.handles[h].client);
  }

  lemma CountsKept(s: State, e: Event)
    requires ClientsOk(s) && CountsOk(s)
    ensures CountsOk(Apply(s, e))
  {
    var s' := Apply(s, e);
    if Enabled(s, e) {
      forall k | k in s'.pool.connections
        ensures s'.pool.connections[k].refCount <= Users(s'.handles, s'.pool.connections[k].client)
      {
        UsersStep(s, e, s'.pool.connections[k].client);
        if e.Disconnect? && !s.handles[e.handle].released { ReturnedHadUser(s, e.handle); }
      }
    }
  }

  /** The counts stay exact on every step but a stray return. */
  lemma ExactKept(s: State, e: Event)
    requires ClientsOk(s) && CountsExact(s) && !StrayReturn(s, e)
    ensures CountsExact(Apply(s, e))
  {
    var s' := Apply(s, e);
    if Enabled(s, e) {
      forall k | k in s'.pool.connections
        ensures s'.pool.connections[k].refCount == Users(s'.handles, s'.pool.connections[k].client)
      {
        UsersStep(s, e, s'.pool.connections[k].client);
        if e.Disconnect? && !s.handles[e.handle].released { ReturnedHadUser(s, e.handle); }
      }
    }
  }

  lemma {:induction false} RunInv(events: seq<Event>)
    ensures ClientsOk(Run(events)) && CountsOk(Run(events))
  {
    if events == [] {
    } else {
      var most, last := events[..|events| - 1], events[|events| - 1];
      RunInv(most);
      ClientsKept(Run(most), last);
      CountsKept(Run(most), last);
    }
  }

  // ---------------------------------------------------------------- main results

  /** In every reachable state, whatever connects overlap and whatever connections are lost, an
      entry counts at most the unreturned handles of its own connection; so with all of them
      returned it is not pinned, and a cleanup after the idle time removes it. */
  lemma NeverPinned(events: seq<Event>, key: string, now: int)
    requires key in Run(events).pool.connections
    ensures
      var s := Run(events);
      var entry := s.pool.connections[key];
      && entry.refCount <= Users(s.handles, entry.client)
      && ((forall h :: 0 <= h < |s.handles| && s.handles[h].key == key ==> s.handles[h].released) ==>
        entry.refCount == 0)
      && (entry.refCount == 0 && now - entry.lastUsedAt > MAX_IDLE_MS ==>
        key !in Apply(s, Cleanup(now)).pool.connections)
  {
    RunInv(events);
    var s := Run(events);
    UsersExactly(s.handles, s.pool.connections[key].client);
  }

  /** After a cleanup exactly the live entries are left that were in use or not yet idle for too
      long, all of them still live, and no connection but those of the removed entries is closed. */
  lemma CleanupLeaves(events: seq<Event>, now: int)
    ensures
      var p, p' := Run(events).pool, Apply(Run(events), Cleanup(now)).pool;
      && (forall k :: k in p'.connections <==> Healthy(p, k) && !Expired(p, k, now))
      && (forall k :: k in p'.connections ==> p'.connections[k] == p.connections[k] && Healthy(p', k))
      && (forall c :: c in p.connected && c !in p'.connected ==>
            exists k :: k in p.connections && p.connections[k].client == c && Expired(p, k, now))
  {
    RunInv(events);
    var s := Run(events);
    var p, p' := s.pool, Apply(s, Cleanup(now)).pool;
    forall k | k in p'.connections ensures Healthy(p', k) {
      forall j | j in p.connections && Removed(p, j, now) ensures p.connections[j].client != p.connections[k].client {
        assert s.clients[p.connections[j].client] == j;
      }
    }
    forall c | c in p.connected && c !in p'.connected
      ensures exists k :: k in p.connections && p.connections[k].client == c && Expired(p, k, now)
    {
      var k :| k in p.connections && Removed(p, k, now) && p.connections[k].client == c;
    }
  }

  /** A cleanup would close the live connection of a key while somebody still holds it. */
  predicate ClosesKeyInUse(s: State, key: string, now: int) {
    Healthy(s.pool, key) && Expired(s.pool, key, now) && Users(s.handles, s.pool.connections[key].client) > 0
  }

  predicate ClosesInUse(s: State, now: int) {
    exists key :: key in s.pool.connections && ClosesKeyInUse(s, key, now)
  }

  /** A return that is booked on a connection the handle does not belong to, and lowers its
      count. Both are visible in the entry that release finds. */
  predicate HarmfulReturn(s: State, e: Event) {
    StrayReturn(s, e) && s.pool.connections[s.handles[e.handle].key].refCount > 0
  }

  /** A stray return on a count of 0 leaves the counts as they are. */
  lemma HarmlessKept(s: State, e: Event)
    requires ClientsOk(s) && CountsExact(s) && !HarmfulReturn(s, e)
    ensures CountsExact(Apply(s, e))
  {
    if !StrayReturn(s, e) {
      ExactKept(s, e);
    } else {
      var s' := Apply(s, e);
      forall k | k in s'.pool.connections
        ensures s'.pool.connections[k].refCount == Users(s'.handles, s'.pool.connections[k].client)
      {
        UsersStep(s, e, s'.pool.connections[k].client);
      }
    }
  }

  lemma HarmfulBreaks(s: State, e: Event)
    requires ClientsOk(s) && CountsExact(s) && HarmfulReturn(s, e)
    ensures
      var key := s.handles[e.handle].key;
      var s' := Apply(s, e);
      && key in s'.pool.connections && s'.pool.connections[key].client == s.pool.connections[key].client
      && s'.pool.connections[key].refCount < Users(s'.handles, s'.pool.connections[key].client)
  {
    UsersStep(s, e, s.pool.connections[s.handles[e.handle].key].client);
  }

  /** One step keeps exact counts exact if and only if it is not a return that finds another
      connection than its own with a positive count. */
  lemma StepExactly(events: seq<Event>, e: Event)
    requires CountsExact(Run(events))
    ensures CountsExact(Apply(Run(events), e)) <==> !HarmfulReturn(Run(events), e)
  {
    RunInv(events);
    if HarmfulReturn(Run(events), e) {
      HarmfulBreaks(Run(events), e);
    } else {
      HarmlessKept(Run(events), e);
    }
  }

  predicate NoHarmfulReturn(events: seq<Event>) {
    forall i :: 0 <= i < |events| ==> !HarmfulReturn(Run(events[..i]), events[i])
  }

  predicate AlwaysExact(events: seq<Event>) {
    forall i :: 0 <= i <= |events| ==> CountsExact(Run(events[..i]))
  }

  lemma RunPrefix(events: seq<Event>, i: nat)
    requires i < |events|
    ensures Run(events[..i + 1]) == Apply(Run(events[..i]), events[i])
  {
    assert events[..i + 1][..i] == events[..i];
  }

  lemma {:induction false} NoHarmfulExactAt(events: seq<Event>, i: nat)
    requires NoHarmfulReturn(events) && i <= |events|
    ensures CountsExact(Run(events[..i]))
  {
    if i == 0 {
    } else {
      NoHarmfulExactAt(events, i - 1);
      RunPrefix(events, i - 1);
      StepExactly(events[..i - 1], events[i - 1]);
    }
  }

  /** Counts are exact all along a run if and only if the run has no such return. */
  lemma AlwaysExactExactly(events: seq<Event>)
    ensures AlwaysExact(events) <==> NoHarmfulReturn(events)
  {
    if NoHarmfulReturn(events) {
      forall i | 0 <= i <= |events| ensures CountsExact(Run(events[..i])) { NoHarmfulExactAt(events, i); }
    }
    if AlwaysExact(events) {
      forall i | 0 <= i < |events| ensures !HarmfulReturn(Run(events[..i]), events[i]) {
        RunPrefix(events, i);
        assert CountsExact(Run(events[..i + 1]));
        StepExactly(events[..i], events[i]);
      }
    }
  }

  predicate NoStrayReturn(events: seq<Event>) {
    forall i :: 0 <= i < |events| ==> !StrayReturn(Run(events[..i]), events[i])
  }

  lemma {:induction false} NoStrayExact(events: seq<Event>)
    requires NoStrayReturn(events)
    ensures CountsExact(Run(events))
  {
    if events == [] {
    } else {
      var most, last := events[..|events| - 1], events[|events| - 1];
      assert NoStrayReturn(most) by {
        forall i | 0 <= i < |most| ensures !StrayReturn(Run(most[..i]), most[i]) {
          assert most[..i] == events[..i] && most[i] == events[i];
        }
      }
      NoStrayExact(most);
      RunInv(most);
      assert !StrayReturn(Run(events[..|most|]), events[|most|]);
      ExactKept(Run(most), last);
    }
  }

  /** While no handle is returned after its key has got another connection, every entry counts
      its users exactly and idle cleanup never closes a connection in use. */
  lemma ExactWithoutStrays(events: seq<Event>, now: int)
    requires NoStrayReturn(events)
    ensures CountsExact(Run(events)) && !ClosesInUse(Run(events), now)
  {
    NoStrayExact(events);
  }

  // ---------------------------------------------------------------- quiet runs

  predicate Connecting(s: State, key: string) {
    exists c :: c in s.connecting && c < |s.clients| && s.clients[c] == key
  }

  /** No connection dies, and nobody asks for a key while a connect for it is pending. */
  predicate Quiet(s: State, e: Event) {
    && !e.Drop? && !e.CallFailed?
    && (e.Acquire? ==> !Connecting(s, e.key))
  }

  predicate QuietRun(events: seq<Event>) {
    forall i :: 0 <= i < |events| ==> Quiet(Run(events[..i]), events[i])
  }

  predicate HeldIsPooled(s: State) {
    forall h :: 0 <= h < |s.handles| && !s.handles[h].released ==>
      s.handles[h].key in s.pool.connections && s.pool.connections[s.handles[h].key].client == s.handles[h].client
  }

  predicate OneConnect(s: State) {
    && (forall k :: k in s.pool.connections ==> Healthy(s.pool, k) && !Connecting(s, k))
    && (forall c, d ::
          c in s.connecting && d in s.connecting && c < |s.clients| && d < |s.clients|
          && s.clients[c] == s.clients[d] ==>
            c == d)
  }

  lemma OneConnectKept(s: State, e: Event)
    requires ClientsOk(s) && OneConnect(s) && Quiet(s, e)
    ensures OneConnect(Apply(s, e))
  {
    var s' := Apply(s, e);
    if Enabled(s, e) {
      forall k | k in s'.pool.connections ensures Healthy(s'.pool, k) && !Connecting(s', k) {
        if k in s.pool.connections { assert Healthy(s.pool, k) && !Connecting(s, k); }
      }
    }
  }

  lemma HeldIsPooledKept(s: State, e: Event)
    requires ClientsOk(s) && OneConnect(s) && CountsExact(s) && HeldIsPooled(s) && Quiet(s, e)
    ensures HeldIsPooled(Apply(s, e))
  {
    var s' := Apply(s, e);
    if Enabled(s, e) {
      forall h | 0 <= h < |s'.handles| && !s'.handles[h].released
        ensures s'.handles[h].key in s'.pool.connections
          && s'.pool.connections[s'.handles[h].key].client == s'.handles[h].client
      {
        if h < |s.handles| {
          assert s'.handles[h] == s.handles[h];
          ReturnedHadUser(s, h);
        }
      }
    }
  }

  lemma QuietPrefix(events: seq<Event>)
    requires events != [] && QuietRun(events)
    ensures QuietRun(events[..|events| - 1])
  {
    var most := events[..|events| - 1];
    forall i | 0 <= i < |most| ensures Quiet(Run(most[..i]), most[i]) {
      assert most[..i] == events[..i] && most[i] == events[i];
    }
  }

  lemma {:induction false} QuietInv(events: seq<Event>)
    requires QuietRun(events)
    ensures ClientsOk(Run(events)) && OneConnect(Run(events)) && CountsExact(Run(events)) && HeldIsPooled(Run(events))
  {
    if events == [] {
    } else {
      var most, last := events[..|events| - 1], events[|events| - 1];
      QuietPrefix(events);
      QuietInv(most);
      assert Quiet(Run(events[..|most|]), events[|most|]);
      ClientsKept(Run(most), last);
      OneConnectKept(Run(most), last);
      HeldIsPooledKept(Run(most), last);
      ExactKept(Run(most), last);
    }
  }

  /** On a quiet run the count of a key is its number of unreturned handles, every one of them
      holds the live pooled connection, and idle cleanup closes none that is in use. */
  lemma QuietRunsExact(events: seq<Event>, now: int)
    requires QuietRun(events)
    ensures CountsExact(Run(events)) && HeldIsPooled(Run(events)) && !ClosesInUse(Run(events), now)
    ensures forall k :: k in Run(events).pool.connections ==> Healthy(Run(events).pool, k)
  {
    QuietInv(events);
  }

  /** On a quiet run the live connections are the pooled ones: none is leaked. */
  lemma QuietRunsLeakNone(events: seq<Event>, c: nat)
    requires QuietRun(events)
    ensures c in Run(events).pool.connected <==> Pooled(Run(events), c)
  {
    QuietInv(events);
    if c in Run(events).pool.connected { QuietPooled(events, c); }
  }

  predicate Pooled(s: State, c: nat) {
    exists k :: k in s.pool.connections && s.pool.connections[k].client == c
  }

  lemma {:induction false} QuietPooled(events: seq<Event>, c: nat)
    requires QuietRun(events) && c in Run(events).pool.connected
    ensures Pooled(Run(events), c)
  {
    if events == [] {
    } else {
      var most, last := events[..|events| - 1], events[|events| - 1];
      QuietPrefix(events);
      QuietInv(most);
      assert Quiet(Run(events[..|most|]), events[|most|]);
      if c in Run(most).pool.connected { QuietPooled(most, c); }
      PooledKept(Run(most), last, c);
    }
  }

  lemma PooledKept(s: State, e: Event, c: nat)
    requires ClientsOk(s) && OneConnect(s) && Quiet(s, e)
    requires c in s.pool.connected ==> Pooled(s, c)
    requires c in Apply(s, e).pool.connected
    ensures Pooled(Apply(s, e), c)
  {
    var s' := Apply(s, e);
    if e.Connected? && Enabled(s, e) && c == e.client {
      assert s'.pool.connections[s.clients[c]].client == c;
    } else {
      var k :| k in s.pool.connections && s.pool.connections[k].client == c;
      assert Healthy(s.pool, k) && !Connecting(s, k);
      assert k in s'.pool.connections && s'.pool.connections[k].client == c;
    }
  }

  // ---------------------------------------------------------------- what a stray return does

  function ReturnAll(s: State, handles: seq<nat>, now: int): State
    decreases |handles|
  {
    if handles == [] then s else ReturnAll(Apply(s, Disconnect(handles[0], now)), handles[1..], now)
  }

  predicate OwnHandles(s: State, client: nat, handles: seq<nat>) {
    forall i :: 0 <= i < |handles| ==> handles[i] < |s.handles| && s.handles[handles[i]].client == client
  }

  /** Returning a handle of the pooled connection moves its count and its users together. */
  lemma OwnReturn(s: State, key: string, h: nat, now: int)
    requires ClientsOk(s) && CountsOk(s) && Healthy(s.pool, key)
    requires h < |s.handles| && s.handles[h].client == s.pool.connections[key].client
    ensures
      var s' := Apply(s, Disconnect(h, now));
      var client := s.pool.connections[key].client;
      && ClientsOk(s') && CountsOk(s') && Healthy(s'.pool, key) && s'.pool.connections[key].client == client
      && |s'.handles| == |s.handles|
      && (forall i :: 0 <= i < |s.handles| ==> s'.handles[i].client == s.handles[i].client)
      && (s.pool.connections[key].refCount == Users(s.handles, client) ==>
        s'.pool.connections[key].refCount == Users(s'.handles, client))
      && (!s.handles[h].released && s.pool.connections[key].refCount > 0 ==>
            s.pool.connections[key].refCount - s'.pool.connections[key].refCount == 1 ==
              Users(s.handles, client) - Users(s'.handles, client))
  {
    var client := s.pool.connections[key].client;
    UsersStep(s, Disconnect(h, now), client);
    ClientsKept(s, Disconnect(h, now));
    CountsKept(s, Disconnect(h, now));
    assert s.handles[h].key == key;
    if !s.handles[h].released { ReturnedHadUser(s, h); }
  }

  lemma {:induction false} ExactStaysSafe(s: State, key: string, handles: seq<nat>, now: int, later: int)
    requires ClientsOk(s) && CountsOk(s) && Healthy(s.pool, key)
    requires s.pool.connections[key].refCount == Users(s.handles, s.pool.connections[key].client)
    requires OwnHandles(s, s.pool.connections[key].client, handles)
    ensures !ClosesKeyInUse(ReturnAll(s, handles, now), key, later)
    decreases |handles|
  {
    if handles == [] {
    } else {
      OwnReturn(s, key, handles[0], now);
      ExactStaysSafe(Apply(s, Disconnect(handles[0], now)), key, handles[1..], now, later);
    }
  }

  lemma ReturnFirst(s: State, client: nat, h: nat, rest: seq<nat>, now: int)
    requires h < |s.handles| && s.handles[h].client == client
    requires OwnHandles(Apply(s, Disconnect(h, now)), client, rest)
    ensures OwnHandles(s, client, [h] + rest)
    ensures ReturnAll(s, [h] + rest, now) == ReturnAll(Apply(s, Disconnect(h, now)), rest, now)
  {
    assert ([h] + rest)[1..] == rest;
    forall i | 0 <= i < |[h] + rest|
      ensures ([h] + rest)[i] < |s.handles| && s.handles[([h] + rest)[i]].client == client
    {
      if i > 0 { assert rest[i - 1] == ([h] + rest)[i]; }
    }
  }

  /** A live entry that counts nobody is closed by the next cleanup after the idle time. */
  lemma UncountedCloses(s: State, key: string)
    requires Healthy(s.pool, key) && s.pool.connections[key].refCount == 0
    requires Users(s.handles, s.pool.connections[key].client) > 0
    ensures ClosesKeyInUse(s, key, s.pool.connections[key].lastUsedAt + MAX_IDLE_MS + 1)
  {
  }

  lemma {:induction false} DeficitCloses(s: State, key: string, now: int) returns (handles: seq<nat>, later: int)
    requires ClientsOk(s) && CountsOk(s) && Healthy(s.pool, key)
    requires s.pool.connections[key].refCount < Users(s.handles, s.pool.connections[key].client)
    ensures OwnHandles(s, s.pool.connections[key].client, handles)
    ensures ClosesKeyInUse(ReturnAll(s, handles, now), key, later)
    decreases s.pool.connections[key].refCount
  {
    var entry := s.pool.connections[key];
    if entry.refCount == 0 {
      UncountedCloses(s, key);
      handles, later := [], entry.lastUsedAt + MAX_IDLE_MS + 1;
    } else {
      UsersExactly(s.handles, entry.client);
      var h :| 0 <= h < |s.handles| && s.handles[h].client == entry.client && !s.handles[h].released;
      OwnReturn(s, key, h, now);
      var rest;
      rest, later := DeficitCloses(Apply(s, Disconnect(h, now)), key, now);
      ReturnFirst(s, entry.client, h, rest, now);
      handles := [h] + rest;
    }
  }

  /** `handles` are returned one by one, and then a cleanup closes the connection in use. */
  predicate ClosedByOwn(s: State, key: string, handles: seq<nat>, now: int, later: int)
    requires key in s.pool.connections
  {
    OwnHandles(s, s.pool.connections[key].client, handles) && ClosesKeyInUse(ReturnAll(s, handles, now), key, later)
  }

  /** A live pooled connection can be closed under the last of its own holders, as they return
      their handles one by one, exactly when it counts fewer users than it has. */
  lemma OwnReturnsCloseExactly(events: seq<Event>, key: string, now: int)
    requires Healthy(Run(events).pool, key)
    ensures
      var s := Run(events);
      (exists handles: seq<nat>, later: int :: ClosedByOwn(s, key, handles, now, later)) <==>
        s.pool.connections[key].refCount < Users(s.handles, s.pool.connections[key].client)
  {
    RunInv(events);
    var s := Run(events);
    if s.pool.connections[key].refCount == Users(s.handles, s.pool.connections[key].client) {
      forall handles: seq<nat>, later: int | OwnHandles(s, s.pool.connections[key].client, handles)
        ensures !ClosesKeyInUse(ReturnAll(s, handles, now), key, later)
      {
        ExactStaysSafe(s, key, handles, now, later);
      }
    } else {
      var handles, later := DeficitCloses(s, key, now);
      assert ClosedByOwn(s, key, handles, now, later);
    }
  }

  /** Returning a handle when the counts are exact leaves the live connection of its key open to
      being closed in use by its own holders' returns if and only if the handle belongs to
      another connection and the count it lowers is positive. */
  lemma ReturnEndangersExactly(events: seq<Event>, h: nat, at: int, now: int)
    requires CountsExact(Run(events)) && h < |Run(events).handles| && !Run(events).handles[h].released
    requires Healthy(Run(events).pool, Run(events).handles[h].key)
    ensures
      var s := Run(events);
      var s', key := Apply(s, Disconnect(h, at)), s.handles[h].key;
      && key in s'.pool.connections
      && ((exists handles: seq<nat>, later: int :: ClosedByOwn(s', key, handles, now, later)) <==>
            Stray(s, h) && s.pool.connections[key].refCount > 0)
  {
    var s := Run(events);
    var e := Disconnect(h, at);
    RunPrefix(events + [e], |events|);
    assert (events + [e])[..|events|] == events && (events + [e])[..|events| + 1] == events + [e];
    RunInv(events);
    assert Healthy(Apply(s, e).pool, s.handles[h].key);
    OwnReturnsCloseExactly(events + [e], s.handles[h].key, now);
    if HarmfulReturn(s, e) {
      HarmfulBreaks(s, e);
    } else {
      HarmlessKept(s, e);
    }
  }

  /** A failed call on a dead client costs somebody else a live connection exactly when the key
      has been given a new connection meanwhile, and then it is one the failing handle never
      used. */
  lemma FailureHitsOtherExactly(events: seq<Event>, h: nat)
    requires Enabled(Run(events), CallFailed(h))
    ensures
      var s := Run(events);
      var lost := s.pool.connected - Apply(s, CallFailed(h)).pool.connected;
      && (lost != {} <==> Healthy(s.pool, s.handles[h].key))
      && s.handles[h].client !in lost
      && (lost != {} && !s.handles[h].released ==> Stray(s, h))
  {
    var s := Run(events);
    var lost := s.pool.connected - Apply(s, CallFailed(h)).pool.connected;
    if Healthy(s.pool, s.handles[h].key) {
      assert s.pool.connections[s.handles[h].key].client in lost;
    }
  }

  // ---------------------------------------------------------------- counter-runs

  lemma Step(events: seq<Event>, e: Event, s: State, s': State)
    requires Run(events) == s && Apply(s, e) == s'
    ensures Run(events + [e]) == s'
  {
    assert (events + [e])[..|events|] == events;
  }

  /** One user left on client 1, and a count of 0. */
  lemma LastOneClosed(s: State, k: string, at: int)
    requires s.pool.connections == map[k := Entry(1, at, 0)] && 1 in s.pool.connected
    requires s.handles == [Handle(0, k, true), Handle(1, k, false)]
    ensures ClosesInUse(s, at + MAX_IDLE_MS + 1)
  {
    UsersExactly(s.handles, 1);
    assert s.handles[1].client == 1;
    assert ClosesKeyInUse(s, k, at + MAX_IDLE_MS + 1);
  }

  lemma TwoConnects(k: string) returns (events: seq<Event>)
    ensures events == [Acquire(k, 0), Acquire(k, 0)]
    ensures Run(events) == State(Pool(map[], {}), [], [k, k], {0, 1})
  {
    var s1 := State(Pool(map[], {}), [], [k], {0});
    Step([], Acquire(k, 0), State(Pool(map[], {}), [], [], {}), s1);
    events := [] + [Acquire(k, 0)];
    Step(events, Acquire(k, 0), s1, State(Pool(map[], {}), [], [k, k], {0, 1}));
    events := events + [Acquire(k, 0)];
  }

  /** Two overlapping acquires of one key: the first connection is overwritten in the map, its
      return is booked on the second one, and cleanup closes that one under its holder. */
  lemma OverlapClosesInUse(k: string) returns (events: seq<Event>)
    ensures events == [Acquire(k, 0), Acquire(k, 0)] + [Connected(0, 1)] + [Connected(1, 2)] + [Disconnect(0, 3)]
    ensures ClosesInUse(Run(events), 3 + MAX_IDLE_MS + 1)
  {
    var h0, h1 := Handle(0, k, false), Handle(1, k, false);
    var s4 := State(Pool(map[k := Entry(1, 2, 1)], {0, 1}), [h0, h1], [k, k], {});
    var s5 := State(Pool(map[k := Entry(1, 3, 0)], {0, 1}), [h0.(released := true), h1], [k, k], {});
    events := OverlapLeaks(k);
    Step(events, Disconnect(0, 3), s4, s5);
    events := events + [Disconnect(0, 3)];
    LastOneClosed(s5, k, 3);
  }

  /** A live connection that no entry holds. */
  predicate Leaked(s: State, c: nat) {
    c in s.pool.connected && c !in s.connecting && c < |s.clients| && !Pooled(s, c)
  }

  lemma LeakedStays(s: State, e: Event, c: nat)
    requires ClientsOk(s) && Leaked(s, c) && e != Drop(c)
    ensures Leaked(Apply(s, e), c)
  {
    var s' := Apply(s, e);
    forall k | k in s'.pool.connections ensures s'.pool.connections[k].client != c {
      if k in s.pool.connections { assert s.pool.connections[k].client != c; }
    }
  }

  /** The pool never closes a leaked connection: it stays open until the other side drops it. */
  lemma {:induction false} LeakedForever(events: seq<Event>, more: seq<Event>, c: nat)
    requires Leaked(Run(events), c) && Drop(c) !in more
    ensures Leaked(Run(events + more), c)
  {
    if more == [] {
      assert events + more == events;
    } else {
      var most, last := more[..|more| - 1], more[|more| - 1];
      LeakedForever(events, most, c);
      RunInv(events + most);
      LeakedStays(Run(events + most), last, c);
      assert more == most + [last];
      assert events + more == (events + most) + [last];
      Step(events + most, last, Run(events + most), Apply(Run(events + most), last));
    }
  }

  predicate ConnectedOk(s: State) {
    forall c :: c in s.pool.connected ==> c < |s.clients| && c !in s.connecting
  }

  ghost predicate LeaksNone(s: State) {
    forall c: nat :: !Leaked(s, c)
  }

  /** A connect that resolves when its key has a live entry by then. */
  predicate LeakingConnect(s: State, e: Event) {
    e.Connected? && Enabled(s, e) && Healthy(s.pool, s.clients[e.client])
  }

  lemma {:induction false} ConnectedInv(events: seq<Event>)
    ensures ConnectedOk(Run(events))
  {
    if events == [] {
    } else {
      ConnectedInv(events[..|events| - 1]);
      RunInv(events[..|events| - 1]);
    }
  }

  lemma OverwrittenLeaks(s: State, e: Event)
    requires ClientsOk(s) && ConnectedOk(s) && LeakingConnect(s, e)
    ensures Leaked(Apply(s, e), s.pool.connections[s.clients[e.client]].client)
  {
    var key := s.clients[e.client];
    var lost, s' := s.pool.connections[key].client, Apply(s, e);
    forall k | k in s'.pool.connections ensures s'.pool.connections[k].client != lost {
      if k != key { assert s.clients[s.pool.connections[k].client] == k; }
    }
  }

  lemma PooledStays(s: State, e: Event, c: nat)
    requires ClientsOk(s) && Pooled(s, c) && !LeakingConnect(s, e)
    requires c in s.pool.connected && c in Apply(s, e).pool.connected
    ensures Pooled(Apply(s, e), c)
  {
    var s' := Apply(s, e);
    var k :| k in s.pool.connections && s.pool.connections[k].client == c;
    assert k in s'.pool.connections && s'.pool.connections[k].client == c;
  }

  lemma OthersLeakNone(s: State, e: Event)
    requires ClientsOk(s) && ConnectedOk(s) && LeaksNone(s) && !LeakingConnect(s, e)
    ensures LeaksNone(Apply(s, e))
  {
    var s' := Apply(s, e);
    forall c: nat ensures !Leaked(s', c) {
      if c in s'.pool.connected {
        if c in s.pool.connected {
          assert !Leaked(s, c);
          PooledStays(s, e, c);
        } else {
          assert s'.pool.connections[s.clients[c]].client == c;
        }
      }
    }
  }

  /** A step leaks a connection if and only if it is a connect that resolves when its key has a
      live entry, which it overwrites. */
  lemma StepLeaksExactly(events: seq<Event>, e: Event)
    requires LeaksNone(Run(events))
    ensures LeaksNone(Apply(Run(events), e)) <==> !LeakingConnect(Run(events), e)
  {
    RunInv(events);
    ConnectedInv(events);
    if LeakingConnect(Run(events), e) {
      OverwrittenLeaks(Run(events), e);
    } else {
      OthersLeakNone(Run(events), e);
    }
  }

  ghost predicate NeverLeaks(events: seq<Event>) {
    forall i :: 0 <= i <= |events| ==> LeaksNone(Run(events[..i]))
  }

  predicate NoLeakingConnect(events: seq<Event>) {
    forall i :: 0 <= i < |events| ==> !LeakingConnect(Run(events[..i]), events[i])
  }

  lemma {:induction false} NoneLeakedAt(events: seq<Event>, i: nat)
    requires NoLeakingConnect(events) && i <= |events|
    ensures LeaksNone(Run(events[..i]))
  {
    if i == 0 {
      assert events[..0] == [];
    } else {
      NoneLeakedAt(events, i - 1);
      RunPrefix(events, i - 1);
      StepLeaksExactly(events[..i - 1], events[i - 1]);
    }
  }

  /** No connection is leaked all along a run if and only if the run has no such connect. */
  lemma NeverLeaksExactly(events: seq<Event>)
    ensures NeverLeaks(events) <==> NoLeakingConnect(events)
  {
    if NoLeakingConnect(events) {
      forall i | 0 <= i <= |events| ensures LeaksNone(Run(events[..i])) { NoneLeakedAt(events, i); }
    }
    if NeverLeaks(events) {
      forall i | 0 <= i < |events| ensures !LeakingConnect(Run(events[..i]), events[i]) {
        RunPrefix(events, i);
        assert LeaksNone(Run(events[..i + 1]));
        StepLeaksExactly(events[..i], events[i]);
      }
    }
  }

  /** Overlapping connects leak the connection that is overwritten in the map. */
  lemma OverlapLeaks(k: string) returns (events: seq<Event>)
    ensures events == [Acquire(k, 0), Acquire(k, 0)] + [Connected(0, 1)] + [Connected(1, 2)]
    ensures Run(events) ==
      State(Pool(map[k := Entry(1, 2, 1)], {0, 1}), [Handle(0, k, false), Handle(1, k, false)], [k, k], {})
    ensures Leaked(Run(events), 0)
  {
    var h0, h1 := Handle(0, k, false), Handle(1, k, false);
    var s2 := State(Pool(map[], {}), [], [k, k], {0, 1});
    var s3 := State(Pool(map[k := Entry(0, 1, 1)], {0}), [h0], [k, k], {1});
    var s4 := State(Pool(map[k := Entry(1, 2, 1)], {0, 1}), [h0, h1], [k, k], {});
    events := TwoConnects(k);
    Step(events, Connected(0, 1), s2, s3);
    events := events + [Connected(0, 1)];
    Step(events, Connected(1, 2), s3, s4);
    events := events + [Connected(1, 2)];
  }

  /** A connection lost while it is held, and its key connected anew. */
  lemma LostAndReplaced(k: string) returns (events: seq<Event>)
    ensures events == [Acquire(k, 0), Connected(0, 1), Drop(0)] + [Acquire(k, 2), Connected(1, 3)]
    ensures Run(events) ==
      State(Pool(map[k := Entry(1, 3, 1)], {1}), [Handle(0, k, false), Handle(1, k, false)], [k, k], {})
  {
    var h0, h1 := Handle(0, k, false), Handle(1, k, false);
    var s1 := State(Pool(map[], {}), [], [k], {0});
    var s2 := State(Pool(map[k := Entry(0, 1, 1)], {0}), [h0], [k], {});
    var s3 := State(Pool(map[k := Entry(0, 1, 1)], {}), [h0], [k], {});
    var s4 := State(Pool(map[], {}), [h0], [k, k], {1});
    Step([], Acquire(k, 0), State(Pool(map[], {}), [], [], {}), s1);
    events := [] + [Acquire(k, 0)];
    Step(events, Connected(0, 1), s1, s2);
    events := events + [Connected(0, 1)];
    Step(events, Drop(0), s2, s3);
    events := events + [Drop(0)];
    Step(events, Acquire(k, 2), s3, s4);
    events := events + [Acquire(k, 2)];
    Step(events, Connected(1, 3), s4, State(Pool(map[k := Entry(1, 3, 1)], {1}), [h0, h1], [k, k], {}));
    events := events + [Connected(1, 3)];
  }

  /** Without any overlap, a connection lost while it is held has the same effect. */
  lemma LostConnectionClosesInUse(k: string) returns (events: seq<Event>)
    ensures events == [Acquire(k, 0), Connected(0, 1), Drop(0)] + [Acquire(k, 2), Connected(1, 3)] + [Disconnect(0, 4)]
    ensures ClosesInUse(Run(events), 4 + MAX_IDLE_MS + 1)
  {
    var h0, h1 := Handle(0, k, false), Handle(1, k, false);
    var s5 := State(Pool(map[k := Entry(1, 3, 1)], {1}), [h0, h1], [k, k], {});
    var s6 := State(Pool(map[k := Entry(1, 4, 0)], {1}), [h0.(released := true), h1], [k, k], {});
    events := LostAndReplaced(k);
    Step(events, Disconnect(0, 4), s5, s6);
    events := events + [Disconnect(0, 4)];
    LastOneClosed(s6, k, 4);
  }
}
