/**
 The IPC system as the kernel runs it: tables of services and connections searched and
 overwritten in place, rings with a head and a count, a table of handles for each process.
 Every call is tied to IpcSpec.
 */
module IpcSystem {
  import opened Machine
  import opened IpcSpec
  import Rings

  datatype MessageSlot = MessageSlot(active: bool, payload: seq<byte>, attachment: Option<nat>)
  datatype Ring = Ring(slots: seq<MessageSlot>, head: nat, count: nat)
  datatype ConnectionSlot = ConnectionSlot(
    clientOwner: nat, serverOwner: nat, toClient: Ring, toServer: Ring,
    clientOpen: bool, serverOpen: bool, accepted: bool, active: bool)
  datatype ServiceSlot = ServiceSlot(active: bool, owner: nat, name: string, slots: seq<nat>, head: nat, count: nat)
  datatype Kind = NoKind | ListenerKind | EndpointKind
  datatype HandleSlot = HandleSlot(generation: nat, index: nat, kind: Kind, side: Side, active: bool)

  const CLEAR_MESSAGE: MessageSlot := MessageSlot(false, [], None)
  const INDEX_INVALID: nat := 65535
  const CLEAR_HANDLE: HandleSlot := HandleSlot(1, INDEX_INVALID, NoKind, Client, false)

  // ---------------------------------------------------------------- messages

  ghost function MessageOf(m: MessageSlot): Message {
    Message(m.payload, m.attachment)
  }

  ghost function MessagesOf(ms: seq<MessageSlot>): (q: seq<Message>)
    ensures |q| == |ms| && forall i :: 0 <= i < |ms| ==> q[i] == MessageOf(ms[i])
  {
    seq(|ms|, i requires 0 <= i < |ms| => MessageOf(ms[i]))
  }

  /** The slots in use are exactly those between the head and the tail. */
  ghost predicate RingOk(r: Ring) {
    && |r.slots| == MESSAGES && Rings.RingOk(r.slots, r.head, r.count)
    && forall k :: 0 <= k < MESSAGES ==> (r.slots[k].active <==> Rings.Offset(MESSAGES, r.head, k) < r.count)
  }

  ghost function QueueOf(r: Ring): (q: seq<Message>)
    requires RingOk(r)
    ensures |q| == r.count
  {
    MessagesOf(Rings.Contents(r.slots, r.head, r.count))
  }

  /** clear_queue. */
  function ClearRing(): (r: Ring)
    ensures RingOk(r) && QueueOf(r) == []
  {
    Ring(seq(MESSAGES, i => CLEAR_MESSAGE), 0, 0)
  }

  /** The slot a message is put in is a free one, and it becomes the last. */
  lemma PushMessage(r: Ring, m: MessageSlot)
    requires RingOk(r) && r.count < MESSAGES && m.active
    ensures !r.slots[Rings.At(MESSAGES, r.head, r.count)].active
    ensures var q := Ring(r.slots[Rings.At(MESSAGES, r.head, r.count) := m], r.head, r.count + 1);
      RingOk(q) && QueueOf(q) == QueueOf(r) + [MessageOf(m)]
  {
    Rings.OffsetAt(MESSAGES, r.head, r.count);
    Rings.Push(r.slots, r.head, r.count, m);
    var q := Ring(r.slots[Rings.At(MESSAGES, r.head, r.count) := m], r.head, r.count + 1);
    forall k | 0 <= k < MESSAGES ensures q.slots[k].active <==> Rings.Offset(MESSAGES, q.head, k) < q.count {
      Rings.PushOffset(MESSAGES, r.head, r.count, k);
    }
    hide Rings.At, Rings.Contents;
    assert QueueOf(q) == QueueOf(r) + [MessageOf(m)];
  }

  lemma PopMessage(r: Ring)
    requires RingOk(r) && 0 < r.count
    ensures r.slots[r.head].active && QueueOf(r)[0] == Message(r.slots[r.head].payload, r.slots[r.head].attachment)
    ensures var q := Ring(r.slots[r.head := CLEAR_MESSAGE], Rings.At(MESSAGES, r.head, 1), r.count - 1);
      RingOk(q) && QueueOf(q) == QueueOf(r)[1..]
  {
    Rings.Pop(r.slots, r.head, r.count, CLEAR_MESSAGE);
    var q := Ring(r.slots[r.head := CLEAR_MESSAGE], Rings.At(MESSAGES, r.head, 1), r.count - 1);
    forall k | 0 <= k < MESSAGES ensures q.slots[k].active <==> Rings.Offset(MESSAGES, q.head, k) < q.count {
      Rings.PopOffset(MESSAGES, r.head, r.count, k);
    }
    hide Rings.At, Rings.Contents;
    assert QueueOf(q) == QueueOf(r)[1..];
  }

  /** A ring that has been emptied can start again from slot 0. */
  lemma RewindRing(r: Ring)
    requires RingOk(r) && r.count == 0
    ensures RingOk(r.(head := 0)) && QueueOf(r.(head := 0)) == []
  {}

  // ------------------------------------------------------------ what slots mean

  ghost predicate ConnectionOk(c: ConnectionSlot) {
    RingOk(c.toClient) && RingOk(c.toServer)
  }

  ghost function ConnOf(c: ConnectionSlot): Conn
    requires ConnectionOk(c)
  {
    Conn(c.clientOwner, c.serverOwner, QueueOf(c.toClient), QueueOf(c.toServer),
         c.clientOpen, c.serverOpen, c.accepted, c.active)
  }

  function ClearConnection(): (c: ConnectionSlot)
    ensures ConnectionOk(c) && ConnOf(c) == NO_CONN
  {
    ConnectionSlot(0, 0, ClearRing(), ClearRing(), false, false, false, false)
  }

  ghost predicate ServiceSlotOk(v: ServiceSlot) {
    |v.slots| == PENDING && Rings.RingOk(v.slots, v.head, v.count)
  }

  ghost function ServiceOf(v: ServiceSlot): (s: Service)
    requires ServiceSlotOk(v)
    ensures |s.pending| == v.count
  {
    Service(v.active, v.owner, v.name, Rings.Contents(v.slots, v.head, v.count))
  }

  function ClearService(): (v: ServiceSlot)
    ensures ServiceSlotOk(v) && ServiceOf(v) == NO_SERVICE
  {
    ServiceSlot(false, 0, "", seq(PENDING, i => INDEX_INVALID), 0, 0)
  }

  ghost function EntryOf(e: HandleSlot): Entry {
    Entry(e.generation,
          if !e.active then NoTarget
          else match e.kind
            case NoKind => NoTarget
            case ListenerKind => Listener(e.index)
            case EndpointKind => Endpoint(e.index, e.side))
  }

  ghost function TableOf(t: seq<HandleSlot>): (u: seq<Entry>)
    ensures |u| == |t| && forall i :: 0 <= i < |t| ==> u[i] == EntryOf(t[i])
  {
    seq(|t|, i requires 0 <= i < |t| => EntryOf(t[i]))
  }

  ghost predicate TableSlotsOk(t: seq<HandleSlot>) {
    |t| == HANDLES && forall i :: 0 <= i < |t| ==> 1 <= t[i].generation && (t[i].active ==> t[i].kind != NoKind)
  }

  function ClearTable(): (t: seq<HandleSlot>)
    ensures |t| == HANDLES && forall i :: 0 <= i < |t| ==> t[i] == CLEAR_HANDLE
  {
    seq(HANDLES, i => CLEAR_HANDLE)
  }

  ghost function ServicesOf(vs: seq<ServiceSlot>): (r: seq<Service>)
    requires forall v :: 0 <= v < |vs| ==> ServiceSlotOk(vs[v])
    ensures |r| == |vs| && forall v :: 0 <= v < |vs| ==> r[v] == ServiceOf(vs[v])
  {
    seq(|vs|, v requires 0 <= v < |vs| && ServiceSlotOk(vs[v]) => ServiceOf(vs[v]))
  }

  ghost function ConnsOf(cs: seq<ConnectionSlot>): (r: seq<Conn>)
    requires forall c :: 0 <= c < |cs| ==> ConnectionOk(cs[c])
    ensures |r| == |cs| && forall c :: 0 <= c < |cs| ==> r[c] == ConnOf(cs[c])
  {
    seq(|cs|, c requires 0 <= c < |cs| && ConnectionOk(cs[c]) => ConnOf(cs[c]))
  }

  ghost function TablesOf(ts: map<nat, seq<HandleSlot>>): map<nat, seq<Entry>> {
    map p | p in ts :: TableOf(ts[p])
  }

  // -------------------------------------------------------------------- system

  class System {
    const services: array<ServiceSlot>
    const connections: array<ConnectionSlot>
    var states: map<nat, seq<HandleSlot>>
    var alive: set<nat>
    var retained: multiset<nat>

    ghost predicate Structural()
      reads this, services, connections
    {
      && services.Length == SERVICES && connections.Length == CONNECTIONS
      && (forall v :: 0 <= v < services.Length ==> ServiceSlotOk(services[v]))
      && (forall c :: 0 <= c < connections.Length ==> ConnectionOk(connections[c]))
      && forall p :: p in states ==> TableSlotsOk(states[p])
    }

    ghost function State(): Ipc
      requires Structural()
      reads this, services, connections
    {
      Ipc(ServicesOf(services[..]), ConnsOf(connections[..]), TablesOf(states), alive, retained)
    }

    ghost predicate Valid()
      reads this, services, connections
    {
      Structural() && Inv(State())
    }

    constructor ()
      ensures Valid() && State() == Initial()
      ensures fresh(services) && fresh(connections)
    {
      services := new ServiceSlot[SERVICES](i => ClearService());
      connections := new ConnectionSlot[CONNECTIONS](i => ClearConnection());
      states, alive, retained := map[], {}, multiset{};
      new;
      InitialInv();
      assert State() == Initial();
    }

    lemma ValidIs()
      ensures Valid() <==> Structural() && Inv(State())
    {
      hide Structural, Inv;
    }

    /** What the abstract state says about the tables. */
    lemma StateIs()
      requires Structural()
      ensures |State().services| == services.Length == SERVICES
      ensures |State().conns| == connections.Length == CONNECTIONS
      ensures State().alive == alive && State().refs == retained
      ensures forall p :: p in State().tables <==> p in states
    {
      hide ConnectionOk, ServiceSlotOk, TableSlotsOk;
    }

    lemma ConnectionAt(c: nat)
      requires Structural() && c < CONNECTIONS
      ensures c < connections.Length && |State().conns| == CONNECTIONS && ConnectionOk(connections[c])
      ensures RingOk(connections[c].toClient) && RingOk(connections[c].toServer)
      ensures var x := connections[c];
        State().conns[c] == Conn(x.clientOwner, x.serverOwner, QueueOf(x.toClient), QueueOf(x.toServer),
                                 x.clientOpen, x.serverOpen, x.accepted, x.active)
    {
      hide ServiceSlotOk, TableSlotsOk, RingOk;
    }

    lemma ServiceAt(v: nat)
      requires Structural() && v < SERVICES
      ensures v < services.Length && |State().services| == SERVICES && ServiceSlotOk(services[v])
      ensures |services[v].slots| == PENDING && services[v].head < PENDING && services[v].count <= PENDING
      ensures var x := services[v];
        && State().services[v] == ServiceOf(x) && |ServiceOf(x).pending| == x.count
        && ServiceOf(x).active == x.active && ServiceOf(x).owner == x.owner && ServiceOf(x).name == x.name
    {
      hide ConnectionOk, TableSlotsOk, RingOk;
    }

    lemma TableAt(p: nat)
      requires Structural() && p in states
      ensures p in State().tables && |State().tables[p]| == |states[p]| == HANDLES
      ensures State().tables[p] == TableOf(states[p]) && TableSlotsOk(states[p])
    {
      hide ConnectionOk, ServiceSlotOk;
    }

    method SetConnection(c: nat, x: ConnectionSlot)
      requires Structural() && c < CONNECTIONS && ConnectionOk(x)
      modifies connections
      ensures Structural() && |old(State()).conns| == CONNECTIONS
      ensures State() == old(State()).(conns := old(State()).conns[c := ConnOf(x)])
    {
      hide ConnectionOk, ServiceSlotOk, TableSlotsOk;
      ghost var before := ConnsOf(connections[..]);
      connections[c] := x;
      assert ConnsOf(connections[..]) == before[c := ConnOf(x)];
    }

    method SetService(v: nat, x: ServiceSlot)
      requires Structural() && v < SERVICES && ServiceSlotOk(x)
      modifies services
      ensures Structural() && |old(State()).services| == SERVICES
      ensures State() == old(State()).(services := old(State()).services[v := ServiceOf(x)])
    {
      hide ConnectionOk, ServiceSlotOk, TableSlotsOk;
      ghost var before := ServicesOf(services[..]);
      services[v] := x;
      assert ServicesOf(services[..]) == before[v := ServiceOf(x)];
    }

    method SetTable(p: nat, t: seq<HandleSlot>)
      requires Structural() && TableSlotsOk(t)
      modifies this`states
      ensures Structural() && states == old(states)[p := t]
      ensures State() == old(State()).(tables := old(State()).tables[p := TableOf(t)])
    {
      hide ConnectionOk, ServiceSlotOk, TableSlotsOk;
      ghost var before := TablesOf(states);
      states := states[p := t];
      assert TablesOf(states) == before[p := TableOf(t)];
    }

    // ------------------------------------------------------------------ lookups

    /** find_service. */
    method FindServiceNamed(name: string) returns (v: nat)
      requires Structural()
      ensures v == FindService(State().services, name, 0)
    {
      hide *;
      StateIs();
      v := 0;
      while v < services.Length
        invariant v <= services.Length
        invariant FindService(State().services, name, 0) == FindService(State().services, name, v)
      {
        ServiceAt(v);
        FindServiceStep(State().services, name, v);
        if services[v].active && services[v].name == name {
          return;
        }
        v := v + 1;
      }
      FindServiceStep(State().services, name, v);
    }

    method FindFreeService() returns (v: nat)
      requires Structural()
      ensures v == FreeService(State().services, 0)
    {
      hide *;
      StateIs();
      v := 0;
      while v < services.Length
        invariant v <= services.Length
        invariant FreeService(State().services, 0) == FreeService(State().services, v)
      {
        ServiceAt(v);
        FreeServiceStep(State().services, v);
        if !services[v].active {
          return;
        }
        v := v + 1;
      }
      FreeServiceStep(State().services, v);
    }

    method FindFreeConnection() returns (c: nat)
      requires Structural()
      ensures c == FreeConn(State().conns, 0)
    {
      hide *;
      StateIs();
      c := 0;
      while c < connections.Length
        invariant c <= connections.Length
        invariant FreeConn(State().conns, 0) == FreeConn(State().conns, c)
      {
        ConnectionAt(c);
        FreeConnStep(State().conns, c);
        if !connections[c].active {
          return;
        }
        c := c + 1;
      }
      FreeConnStep(State().conns, c);
    }

    method FindFreeHandle(p: nat) returns (i: nat)
      requires Structural() && p in states && p in State().tables
      ensures i == FreeSlot(State().tables[p], 0) && i <= |states[p]| == HANDLES == |State().tables[p]|
      ensures i < HANDLES ==> !states[p][i].active && 1 <= states[p][i].generation
    {
      hide *;
      TableAt(p);
      i := 0;
      while i < |states[p]|
        invariant i <= |states[p]|
        invariant FreeSlot(State().tables[p], 0) == FreeSlot(State().tables[p], i)
      {
        EntryAt(states[p], i);
        FreeSlotStep(State().tables[p], i);
        if !states[p][i].active {
          return;
        }
        i := i + 1;
      }
      FreeSlotStep(State().tables[p], i);
    }

    /** state_for_process of a live process; `memory` is whether a new table can be allocated. */
    method CreateState(p: nat, memory: bool) returns (found: bool)
      requires Structural()
      modifies this`states
      ensures Structural() && State() == WithTable(old(State()), p, memory)
      ensures found <==> p in State().tables && p in states
    {
      hide *;
      StateIs();
      WithTableIs(State(), p, memory);
      if p in states {
        return true;
      }
      if !memory {
        return false;
      }
      ClearTableIs();
      SetTable(p, ClearTable());
      StateIs();
      return true;
    }

    /** install_handle in a slot that was found free. */
    method InstallHandle(p: nat, i: nat, kind: Kind, index: nat, side: Side) returns (handle: nat)
      requires Structural() && p in states && p in State().tables && kind != NoKind
      requires |states[p]| == |State().tables[p]| && i < |states[p]|
      modifies this`states
      ensures Structural()
      ensures State() == Install(old(State()), p, i, if kind == ListenerKind then Listener(index) else Endpoint(index, side))
      ensures handle == Encode(i, old(State()).tables[p][i].generation)
    {
      hide *;
      TableAt(p);
      EntryAt(states[p], i);
      var e := HandleSlot(if states[p][i].generation == 0 then 1 else states[p][i].generation, index, kind, side, true);
      EntryInstalled(states[p], i, e);
      InstallIs(State(), p, i, EntryOf(e).target);
      SetTable(p, states[p][i := e]);
      return Encode(i, e.generation);
    }

    /** invalidate_handle_entry. */
    method InvalidateHandle(p: nat, i: nat)
      requires Structural() && p in states && p in State().tables
      requires |states[p]| == |State().tables[p]| && i < |states[p]|
      modifies this`states
      ensures Structural() && State() == Invalidate(old(State()), p, i) && p in states && |states[p]| == HANDLES
    {
      hide *;
      TableAt(p);
      EntryAt(states[p], i);
      var e := HandleSlot(NextGeneration(states[p][i].generation), INDEX_INVALID, NoKind, Client, false);
      EntryRetired(states[p], i, e);
      InvalidateIs(State(), p, i);
      SetTable(p, states[p][i := e]);
      TableAt(p);
    }

    /** The slot an active handle of a live process names. */
    method LookupHandle(p: nat, handle: nat) returns (slot: Option<nat>)
      requires Structural()
      ensures slot == Lookup(State(), p, handle)
      ensures slot.Some? ==>
        && p in states && |states[p]| == HANDLES && slot.value < HANDLES
        && p in State().tables && |State().tables[p]| == HANDLES && states[p][slot.value].kind != NoKind
        && State().tables[p][slot.value].target == TargetOf(states[p][slot.value])
        && Named(State(), p, handle) == TargetOf(states[p][slot.value])
      ensures slot.None? ==> Named(State(), p, handle) == NoTarget
    {
      hide *;
      StateIs();
      LookupIs(State(), p, handle);
      var decoded := Decode(handle);
      if decoded.None? || p !in states {
        return None;
      }
      var index: nat, generation: nat := decoded.value.0, decoded.value.1;
      TableAt(p);
      EntryAt(states[p], index);
      var e := states[p][index];
      if !e.active || e.generation != generation {
        return None;
      }
      return Some(index);
    }

    // ------------------------------------------------------- closing connections

    /** release_message for the oldest message of a ring that is not empty. */
    method ReleaseOldest(r: Ring) returns (q: Ring)
      requires RingOk(r) && 0 < r.count && InQueue(QueueOf(r)) <= retained
      modifies this`retained
      ensures RingOk(q) && q.count == r.count - 1 && InQueue(QueueOf(q)) <= retained
      ensures retained - InQueue(QueueOf(q)) == old(retained) - InQueue(QueueOf(r))
    {
      hide *;
      PopMessage(r);
      ReleasedIs(r, retained);
      RingIs(r);
      var m := r.slots[r.head];
      if m.active && m.attachment.Some? {
        retained := retained - multiset{m.attachment.value};
      }
      q := Ring(r.slots[r.head := CLEAR_MESSAGE], Rings.At(MESSAGES, r.head, 1), r.count - 1);
    }

    /** release_queue. */
    method ReleaseQueue(r: Ring) returns (q: Ring)
      requires RingOk(r) && InQueue(QueueOf(r)) <= retained
      modifies this`retained
      ensures RingOk(q) && QueueOf(q) == [] && retained == old(retained) - InQueue(QueueOf(r))
    {
      hide *;
      q := r;
      while q.count != 0
        invariant RingOk(q) && InQueue(QueueOf(q)) <= retained
        invariant retained - InQueue(QueueOf(q)) == old(retained) - InQueue(QueueOf(r))
        decreases q.count
      {
        q := ReleaseOldest(q);
      }
      RewindRing(q);
      EmptyReleased(q, retained);
      q := q.(head := 0);
    }

    /** close_connection_side, with connection_maybe_destroy. */
    method CloseConnectionSide(c: nat, side: Side)
      requires Structural() && c < CONNECTIONS && |State().conns| == CONNECTIONS
      requires Released(State().conns[c], side) <= retained
      modifies connections, this`retained
      ensures Structural() && State() == CloseAt(old(State()), c, side)
    {
      hide *;
      StateIs();
      ConnectionAt(c);
      var x := connections[c];
      CloseIs(State(), c, side);
      ReleasedSide(State().conns[c], side);
      if !x.active || !(if side == Client then x.clientOpen else x.serverOpen) {
        return;
      }
      var q := ReleaseQueue(if side == Client then x.toClient else x.toServer);
      RefsAre();
      RingIs(q);
      RingIs(x.toClient);
      RingIs(x.toServer);
      if side == Client {
        x := x.(toClient := q, clientOpen := false);
      } else {
        x := x.(toServer := q, serverOpen := false);
      }
      ConnectionIs(x);
      if !x.clientOpen && !x.serverOpen && x.toClient.count == 0 && x.toServer.count == 0 {
        x := ClearConnection();
        ClearConnectionIs();
      }
      SetConnection(c, x);
    }

    /** The references are not part of any other view of the state. */
    twostate lemma RefsAre()
      requires old(Structural()) && states == old(states) && alive == old(alive)
      requires unchanged(services) && unchanged(connections)
      ensures Structural() && State() == old(State()).(refs := retained)
    {}

    // ---------------------------------------------------------- pending connections

    /** pending_push on a queue that is not full. */
    method PendingPush(v: nat, c: nat)
      requires Structural() && v < SERVICES && |State().services| == SERVICES && |State().services[v].pending| < PENDING
      modifies services
      ensures Structural()
      ensures State() == old(State()).(services := old(State()).services[v :=
                           old(State()).services[v].(pending := old(State()).services[v].pending + [c])])
    {
      hide *;
      ServiceAt(v);
      PushPending(services[v], c);
      var x := services[v];
      SetService(v, x.(slots := x.slots[Rings.At(PENDING, x.head, x.count) := c], count := x.count + 1));
    }

    /** pending_pop on a queue that is not empty. */
    method PendingPop(v: nat) returns (c: nat)
      requires Structural() && v < SERVICES && |State().services| == SERVICES && State().services[v].pending != []
      modifies services
      ensures Structural() && State() == Pop(old(State()), v) && c == old(State()).services[v].pending[0]
    {
      hide *;
      ServiceAt(v);
      TakePending(services[v]);
      PopIs(State(), v);
      var x := services[v];
      c := x.slots[x.head];
      SetService(v, x.(slots := x.slots[x.head := INDEX_INVALID], head := Rings.At(PENDING, x.head, 1), count := x.count - 1));
    }

    /** One turn of the loop of unregister_service. */
    method DismissOldest(v: nat)
      requires Valid() && v < SERVICES && |State().services| == SERVICES
      requires State().services[v].active && State().services[v].pending != []
      modifies services, connections, this`retained
      ensures Valid() && State() == Dismiss(old(State()), v)
    {
      hide *;
      ValidIs();
      StateIs();
      DismissKeeps(State(), v);
      DismissAt(State(), v);
      ghost var head := State().services[v].pending[0];
      QueueRetained(State(), head, Server);
      ReleasedSide(State().conns[head], Server);
      var c := PendingPop(v);
      StateIs();
      if c < CONNECTIONS {
        ConnectionAt(c);
        if connections[c].active && !connections[c].accepted {
          CloseConnectionSide(c, Server);
        }
      }
      ValidIs();
    }

    /** unregister_service of an active service. */
    method UnregisterService(v: nat)
      requires Valid() && v < SERVICES && |State().services| == SERVICES && State().services[v].active
      modifies services, connections, this`retained
      ensures Structural() && State() == Unregister(old(State()), v)
    {
      hide *;
      ValidIs();
      ServiceAt(v);
      while services[v].count != 0
        invariant Valid() && Structural() && v < services.Length && |State().services| == SERVICES
        invariant State().services[v].active && |State().services[v].pending| == services[v].count
        invariant Unregister(State(), v) == Unregister(old(State()), v)
        decreases services[v].count
      {
        ValidIs();
        DismissKeeps(State(), v);
        UnregisterStep(State(), v);
        DismissOldest(v);
        ValidIs();
        StateIs();
        ServiceAt(v);
      }
      UnregisterStep(State(), v);
      ClearServiceIs();
      SetService(v, ClearService());
    }

    // -------------------------------------------------------------------- calls

    /** boring_ipc_service_name_valid. */
    method CheckName(name: string) returns (valid: bool)
      ensures valid <==> ValidName(name)
    {
      if |name| == 0 || NAME_MAX < |name| {
        return false;
      }
      var i := 0;
      while i < |name|
        invariant i <= |name| && forall j :: 0 <= j < i ==> NameChar(name[j])
      {
        if !NameChar(name[i]) {
          return false;
        }
        i := i + 1;
      }
      return true;
    }

    method ServiceRegister(p: nat, name: string, memory: bool) returns (result: Result)
      requires Valid()
      modifies services, this`states
      ensures Valid()
      ensures Outcome(State(), result) == Register(old(State()), p, name, memory)
    {
      hide Structural, State, Inv, FindService, FreeService, FreeSlot, WithTable, Install, ValidName, Encode, NoHandles;
      ValidIs();
      StateIs();
      RegisterKeeps(State(), p, name, memory);
      WithTableObjects(State(), p, memory);
      var valid := CheckName(name);
      if p !in alive || p == BOOTSTRAP_PID || !valid {
        return Invalid;
      }
      var existing := FindServiceNamed(name);
      if existing < SERVICES {
        return Exists;
      }
      var v := FindFreeService();
      var found := CreateState(p, memory);
      StateIs();
      var i: nat := HANDLES;
      if found {
        i := FindFreeHandle(p);
      }
      if v == SERVICES || i == HANDLES {
        return NoSpace;
      }
      ghost var t := State();
      EmptyServiceIs(p, name);
      SetService(v, ServiceSlot(true, p, name, ClearService().slots, 0, 0));
      var handle := InstallHandle(p, i, ListenerKind, v, Client);
      return Handle(handle);
    }

    method ServiceConnect(p: nat, name: string, memory: bool) returns (result: Result)
      requires Valid()
      modifies services, connections, this`states
      ensures Valid()
      ensures Outcome(State(), result) == Connect(old(State()), p, name, memory)
    {
      hide Structural, State, Inv, FindService, FreeConn, FreeSlot, WithTable, Install, ValidName, Encode, NoHandles;
      hide ServiceOf, ConnOf, QueueOf, ClearRing, ServiceSlotOk, ConnectionOk, RingOk;
      ValidIs();
      StateIs();
      ConnectKeeps(State(), p, name, memory);
      WithTableObjects(State(), p, memory);
      var valid := CheckName(name);
      if p !in alive || p == BOOTSTRAP_PID || !valid {
        return Invalid;
      }
      var v := FindServiceNamed(name);
      if v == SERVICES {
        return NotFound;
      }
      ServiceAt(v);
      if services[v].owner !in alive {
        return NotFound;
      }
      if PENDING <= services[v].count {
        return NoSpace;
      }
      var owner := services[v].owner;
      var c := FindFreeConnection();
      var found := CreateState(p, memory);
      StateIs();
      var i: nat := HANDLES;
      if found {
        i := FindFreeHandle(p);
      }
      if c == CONNECTIONS || i == HANDLES {
        return NoSpace;
      }
      OpenedIs(p, owner);
      SetConnection(c, ConnectionSlot(p, owner, ClearRing(), ClearRing(), true, true, false, true));
      PendingPush(v, c);
      var handle := InstallHandle(p, i, EndpointKind, c, Client);
      return Handle(handle);
    }

    method ServiceAccept(p: nat, listener: nat) returns (result: Result)
      requires Valid()
      modifies services, connections, this`states
      ensures Valid()
      ensures Outcome(State(), result) == Accept(old(State()), p, listener)
    {
      hide Structural, State, Inv, FreeSlot, Lookup, Named, Install, Encode, Pop;
      hide ServiceOf, ConnOf, QueueOf, ServiceSlotOk, ConnectionOk, RingOk, TableOf, TableSlotsOk;
      ValidIs();
      StateIs();
      AcceptKeeps(State(), p, listener);
      AcceptSound(State(), p, listener);
      if p !in alive || p == BOOTSTRAP_PID {
        return Invalid;
      }
      var slot := LookupHandle(p, listener);
      if slot.None? || states[p][slot.value].kind != ListenerKind || SERVICES <= states[p][slot.value].index {
        return Invalid;
      }
      var v := states[p][slot.value].index;
      ServiceAt(v);
      var service := services[v];
      if !service.active || service.owner !in alive || service.owner != p {
        return Invalid;
      }
      if service.count == 0 {
        return WouldBlock;
      }
      DismissAt(State(), v);
      TakePending(service);
      var c := service.slots[service.head];
      ConnectionAt(c);
      var x := connections[c];
      PopIs(State(), v);
      var i := FindFreeHandle(p);
      if i == HANDLES {
        return NoSpace;
      }
      var popped := PendingPop(v);
      ConnectionIs(x);
      ConnectionIs(x.(accepted := true));
      SetConnection(c, x.(accepted := true));
      StateIs();
      var handle := InstallHandle(p, i, EndpointKind, c, Server);
      return Handle(handle);
    }

    /** What send and receive ask of the endpoint handle: the connection and the side. */
    method FindEndpoint(p: nat, handle: nat) returns (end: Option<(nat, Side)>)
      requires Valid()
      ensures end.Some? <==> Usable(State(), p, handle)
      ensures end.Some? ==> end.value.0 < CONNECTIONS && Named(State(), p, handle) == Endpoint(end.value.0, end.value.1)
    {
      hide *;
      ValidIs();
      StateIs();
      UsableIs(State(), p, handle);
      if p !in alive || p == BOOTSTRAP_PID {
        return None;
      }
      var slot := LookupHandle(p, handle);
      if slot.None? {
        return None;
      }
      var e := states[p][slot.value];
      EndpointIs(e);
      if e.kind != EndpointKind || CONNECTIONS <= e.index {
        return None;
      }
      ConnectionAt(e.index);
      ReleasedSide(State().conns[e.index], e.side);
      var x := connections[e.index];
      if !x.active || !(if e.side == Client then x.clientOpen else x.serverOpen) {
        return None;
      }
      return Some((e.index, e.side));
    }

    method SendMessage(p: nat, handle: nat, payload: seq<byte>, retain: Retain) returns (result: Result)
      requires Valid()
      modifies connections, this`retained
      ensures Valid()
      ensures Outcome(State(), result) == Send(old(State()), p, handle, payload, retain)
    {
      hide *;
      ValidIs();
      StateIs();
      SendKeeps(State(), p, handle, payload, retain);
      SendIs(State(), p, handle, payload, retain);
      var end := FindEndpoint(p, handle);
      if PAYLOAD_MAX < |payload| || end.None? {
        return Invalid;
      }
      var (c, side) := end.value;
      ConnectionAt(c);
      var x := connections[c];
      ReleasedSide(State().conns[c], Peer(side));
      PeerIs(side);
      if !(if side == Client then x.serverOpen else x.clientOpen) {
        return PeerClosed;
      }
      var r := if side == Client then x.toServer else x.toClient;
      RingIs(r);
      if MESSAGES <= r.count {
        return NoSpace;
      }
      if retain == RetainFull {
        return NoSpace;
      }
      if retain == RetainBad {
        return Invalid;
      }
      var attachment := if retain.Retained? then Some(retain.buffer) else None;
      var m := MessageSlot(true, payload, attachment);
      PushMessage(r, m);
      var tail := Rings.At(MESSAGES, r.head, r.count);
      var broken := r.slots[tail].active;
      if broken {
        return Internal;
      }
      if retain.Retained? {
        retained := retained + multiset{retain.buffer};
      }
      RefsAre();
      var q := Ring(r.slots[tail := m], r.head, r.count + 1);
      MessageIs(m);
      x := if side == Client then x.(toServer := q) else x.(toClient := q);
      ConnectionIs(x);
      SetConnection(c, x);
      ValidIs();
      return Sent;
    }

    /** The payload goes to the front of the caller's buffer. */
    method Copy(payload: seq<byte>, buffer: array<byte>)
      requires |payload| <= buffer.Length
      modifies buffer
      ensures Filled(old(buffer[..]), payload, buffer[..])
    {
      for i := 0 to |payload|
        invariant forall j :: 0 <= j < i ==> buffer[j] == payload[j]
        invariant forall j :: i <= j < buffer.Length ==> buffer[j] == old(buffer[j])
      {
        buffer[i] := payload[i];
      }
    }

    method ReceiveMessage(p: nat, handle: nat, buffer: array<byte>, adoption: Adoption) returns (result: Result)
      requires Valid()
      modifies connections, this`retained, buffer
      ensures Valid()
      ensures Outcome(State(), result) == Receive(old(State()), p, handle, buffer.Length, adoption)
      ensures result.Received? ==> Filled(old(buffer[..]), result.payload, buffer[..])
      ensures result == Internal && adoption == NotCommitted ==>
        var q := WaitingFor(old(State()), p, handle); q != [] && Filled(old(buffer[..]), q[0].payload, buffer[..])
      ensures !result.Received? && !(result == Internal && adoption == NotCommitted) ==> buffer[..] == old(buffer[..])
    {
      hide *;
      ValidIs();
      StateIs();
      ReceiveKeeps(State(), p, handle, buffer.Length, adoption);
      ReceiveCases(State(), p, handle, buffer.Length, adoption);
      var end := FindEndpoint(p, handle);
      if end.None? {
        return Invalid;
      }
      result := TakeMessage(end.value.0, end.value.1, buffer, adoption);
      ValidIs();
    }

    /** The oldest message for an open side, once the side has been found. */
    method TakeMessage(c: nat, side: Side, buffer: array<byte>, adoption: Adoption) returns (result: Result)
      requires Structural() && c < CONNECTIONS && |State().conns| == CONNECTIONS
      modifies connections, this`retained, buffer
      ensures Structural()
      ensures Outcome(State(), result) == Taken(old(State()), c, side, buffer.Length, adoption)
      ensures result.Received? ==> Filled(old(buffer[..]), result.payload, buffer[..])
      ensures result == Internal && adoption == NotCommitted ==>
        var q := Queue(old(State()).conns[c], side); q != [] && Filled(old(buffer[..]), q[0].payload, buffer[..])
      ensures !result.Received? && !(result == Internal && adoption == NotCommitted) ==> buffer[..] == old(buffer[..])
    {
      hide *;
      StateIs();
      ConnectionAt(c);
      TakenIs(State(), c, side, buffer.Length, adoption);
      var x := connections[c];
      var r := if side == Client then x.toClient else x.toServer;
      RingIs(r);
      if r.count == 0 {
        return if (if side == Client then x.serverOpen else x.clientOpen) then WouldBlock else PeerClosed;
      }
      PopMessage(r);
      var m := r.slots[r.head];
      if buffer.Length < |m.payload| || (m.attachment.Some? && adoption == TableFull) {
        return NoSpace;
      }
      if m.attachment.Some? && adoption == Refused {
        return Internal;
      }
      Copy(m.payload, buffer);
      if m.attachment.Some? && adoption == NotCommitted {
        return Internal;
      }
      DropOldest(c, side, m.attachment);
      return Received(m.payload, m.attachment);
    }

    /** The oldest message leaves the queue; the buffer it carried is the receiver's now. */
    method DropOldest(c: nat, side: Side, attachment: Option<nat>)
      requires Structural() && c < CONNECTIONS && |State().conns| == CONNECTIONS && Queue(State().conns[c], side) != []
      modifies connections, this`retained
      ensures Structural()
      ensures State() == Dropped(old(State()), c, side, attachment)
    {
      hide *;
      StateIs();
      ConnectionAt(c);
      DroppedIs(State(), c, side, attachment);
      ReleasedSide(State().conns[c], side);
      var x := connections[c];
      var r := if side == Client then x.toClient else x.toServer;
      RingIs(r);
      PopMessage(r);
      if attachment.Some? {
        retained := retained - multiset{attachment.value};
      }
      RefsAre();
      var q := Ring(r.slots[r.head := CLEAR_MESSAGE], Rings.At(MESSAGES, r.head, 1), r.count - 1);
      x := if side == Client then x.(toClient := q) else x.(toServer := q);
      ConnectionIs(x);
      SetConnection(c, x);
    }

    // ------------------------------------------------------------------ closing

    /** What closing an active slot and retiring it do, for close and for cleanup. */
    method CloseEntry(p: nat, i: nat)
      requires Valid() && p in states && p in State().tables
      requires |states[p]| == HANDLES == |State().tables[p]| && i < HANDLES && states[p][i].active
      modifies services, connections, this`states, this`retained
      ensures Valid() && State() == CloseSlot(old(State()), p, i)
    {
      hide *;
      ValidIs();
      StateIs();
      TableAt(p);
      EntryAt(states[p], i);
      CloseSlotKeeps(State(), p, i);
      SlotOwned(State(), p, i);
      CloseEntryIs(State(), p, i);
      var e := states[p][i];
      EndpointIs(e);
      if e.kind == ListenerKind {
        if e.index < SERVICES {
          UnregisterService(e.index);
        }
      } else if e.kind == EndpointKind && e.index < CONNECTIONS {
        CloseConnectionSide(e.index, e.side);
      }
      StateIs();
      TableAt(p);
      InvalidateHandle(p, i);
      ValidIs();
    }

    method CloseHandle(p: nat, handle: nat) returns (result: Result)
      requires Valid()
      modifies services, connections, this`states, this`retained
      ensures Valid()
      ensures Outcome(State(), result) == Close(old(State()), p, handle)
    {
      hide *;
      ValidIs();
      StateIs();
      CloseIsSlot(State(), p, handle);
      if p !in alive || p == BOOTSTRAP_PID {
        return Invalid;
      }
      var slot := LookupHandle(p, handle);
      if slot.None? {
        return Invalid;
      }
      TableAt(p);
      EntryAt(states[p], slot.value);
      CloseEntry(p, slot.value);
      return Closed;
    }

    /** boring_ipc_process_cleanup. */
    method ProcessCleanup(p: nat)
      requires Valid()
      modifies services, connections, this`states, this`retained
      ensures Valid() && State() == Cleanup(old(State()), p)
    {
      hide *;
      ValidIs();
      StateIs();
      CleanupKeeps(State(), p);
      CleanupIs(State(), p);
      if p !in alive || p == BOOTSTRAP_PID || p !in states {
        return;
      }
      TableAt(p);
      var slot := 0;
      while slot < HANDLES
        invariant Valid() && Structural() && p in states && p in State().tables
        invariant slot <= HANDLES == |states[p]| == |State().tables[p]|
        invariant CloseFrom(State(), p, slot) == CloseFrom(old(State()), p, 0)
      {
        ValidIs();
        TableAt(p);
        EntryAt(states[p], slot);
        CloseFromStep(State(), p, slot);
        CloseSlotIs(State(), p, slot);
        if states[p][slot].active {
          CloseEntry(p, slot);
          ValidIs();
          StateIs();
          TableAt(p);
        }
        slot := slot + 1;
      }
      ValidIs();
      CloseFromStep(State(), p, slot);
      DropState(p);
      ValidIs();
    }

    /** process_state_remove. */
    method DropState(p: nat)
      requires Structural()
      modifies this`states
      ensures Structural() && State() == old(State()).(tables := old(State()).tables - {p})
    {
      hide ConnectionOk, ServiceSlotOk, TableSlotsOk;
      ghost var before := TablesOf(states);
      states := states - {p};
      assert TablesOf(states) == before - {p};
    }
  }

  ghost function TargetOf(e: HandleSlot): Target {
    match e.kind
    case NoKind => NoTarget
    case ListenerKind => Listener(e.index)
    case EndpointKind => Endpoint(e.index, e.side)
  }

  lemma EntryAt(t: seq<HandleSlot>, i: nat)
    requires TableSlotsOk(t) && i < HANDLES
    ensures i < |t| && TableOf(t)[i] == Entry(t[i].generation, if t[i].active then TargetOf(t[i]) else NoTarget)
    ensures 1 <= t[i].generation
    ensures t[i].active ==> t[i].kind != NoKind && TargetOf(t[i]) != NoTarget
  {}

  lemma EntryInstalled(t: seq<HandleSlot>, i: nat, e: HandleSlot)
    requires TableSlotsOk(t) && i < HANDLES && e.active && e.kind != NoKind && e.generation == t[i].generation
    ensures TableSlotsOk(t[i := e]) && TableOf(t[i := e]) == TableOf(t)[i := TableOf(t)[i].(target := EntryOf(e).target)]
    ensures EntryOf(e).target == if e.kind == ListenerKind then Listener(e.index) else Endpoint(e.index, e.side)
  {}

  lemma EntryRetired(t: seq<HandleSlot>, i: nat, e: HandleSlot)
    requires TableSlotsOk(t) && i < HANDLES && !e.active && e.generation == NextGeneration(t[i].generation)
    ensures TableSlotsOk(t[i := e])
    ensures TableOf(t[i := e]) == TableOf(t)[i := Entry(NextGeneration(TableOf(t)[i].generation), NoTarget)]
  {}

  lemma ClearTableIs()
    ensures TableSlotsOk(ClearTable()) && TableOf(ClearTable()) == NoHandles()
  {}

  lemma InstallIs(s: Ipc, p: nat, i: nat, x: Target)
    requires p in s.tables && i < |s.tables[p]|
    ensures Install(s, p, i, x) == s.(tables := s.tables[p := s.tables[p][i := s.tables[p][i].(target := x)]])
  {}

  lemma InvalidateIs(s: Ipc, p: nat, i: nat)
    requires p in s.tables && i < |s.tables[p]|
    ensures Invalidate(s, p, i)
         == s.(tables := s.tables[p := s.tables[p][i := Entry(NextGeneration(s.tables[p][i].generation), NoTarget)]])
  {}

  lemma WithTableIs(s: Ipc, p: nat, memory: bool)
    ensures WithTable(s, p, memory) == if p in s.tables || !memory then s else s.(tables := s.tables[p := NoHandles()])
  {}

  lemma LookupIs(s: Ipc, p: nat, handle: nat)
    ensures Decode(handle).None? || p !in s.tables ==> Lookup(s, p, handle) == None
    ensures Decode(handle).Some? ==>
      var (i, g) := Decode(handle).value;
      && i < HANDLES
      && (p in s.tables && i < |s.tables[p]| ==>
            Lookup(s, p, handle)
            == if s.tables[p][i].target != NoTarget && s.tables[p][i].generation == g then Some(i) else None)
    ensures Named(s, p, handle) == if Lookup(s, p, handle).Some? then s.tables[p][Lookup(s, p, handle).value].target else NoTarget
  {}

  lemma FindServiceStep(vs: seq<Service>, name: string, i: nat)
    requires i <= |vs|
    ensures FindService(vs, name, i)
         == if i == |vs| || (vs[i].active && vs[i].name == name) then i else FindService(vs, name, i + 1)
  {}

  lemma FreeServiceStep(vs: seq<Service>, i: nat)
    requires i <= |vs|
    ensures FreeService(vs, i) == if i == |vs| || !vs[i].active then i else FreeService(vs, i + 1)
  {}

  lemma FreeConnStep(cs: seq<Conn>, i: nat)
    requires i <= |cs|
    ensures FreeConn(cs, i) == if i == |cs| || !cs[i].active then i else FreeConn(cs, i + 1)
  {}

  lemma FreeSlotStep(t: seq<Entry>, i: nat)
    requires i <= |t|
    ensures FreeSlot(t, i) == if i == |t| || t[i].target == NoTarget then i else FreeSlot(t, i + 1)
  {}

  lemma RingIs(r: Ring)
    requires RingOk(r)
    ensures |r.slots| == MESSAGES && r.head < |r.slots| && r.count <= MESSAGES && |QueueOf(r)| == r.count
    ensures r.count == 0 <==> QueueOf(r) == []
  {}

  lemma ReleasedIs(r: Ring, refs: multiset<nat>)
    requires RingOk(r) && 0 < r.count && InQueue(QueueOf(r)) <= refs
    ensures var m := QueueOf(r)[0];
      var rest := refs - Buffers(m);
      && Buffers(m) <= refs && InQueue(QueueOf(r)[1..]) <= rest
      && rest - InQueue(QueueOf(r)[1..]) == refs - InQueue(QueueOf(r))
      && Buffers(m) == (if m.attachment.Some? then multiset{m.attachment.value} else multiset{})
      && (m.attachment.None? ==> rest == refs)
  {
    hide InQueue, QueueOf, RingOk;
    var q := QueueOf(r);
    InQueueJoin([q[0]], q[1..]);
    assert q == [q[0]] + q[1..];
    InQueueLast([q[0]]);
    assert [q[0]][..0] == [];
    InQueueLast([]);
    ReleaseStep(refs, Buffers(q[0]), InQueue(q[1..]));
  }

  lemma ReleaseStep(refs: multiset<nat>, b: multiset<nat>, t: multiset<nat>)
    requires b + t <= refs
    ensures b <= refs && t <= refs - b && (refs - b) - t == refs - (b + t)
  {
    forall n: nat ensures b[n] + t[n] <= refs[n] {
      assert (b + t)[n] <= refs[n];
    }
  }

  lemma EmptyReleased(r: Ring, refs: multiset<nat>)
    requires RingOk(r) && r.count == 0
    ensures refs - InQueue(QueueOf(r)) == refs
  {}

  lemma ReleasedSide(c: Conn, side: Side)
    ensures Released(c, side) == if c.active && IsOpen(c, side) then InQueue(Queue(c, side)) else multiset{}
    ensures IsOpen(c, side) == if side == Client then c.clientOpen else c.serverOpen
    ensures Queue(c, side) == if side == Client then c.toClient else c.toServer
  {}

  lemma CloseIs(s: Ipc, c: nat, side: Side)
    requires c < |s.conns|
    ensures var x := s.conns[c];
      CloseAt(s, c, side)
      == if !x.active || !IsOpen(x, side) then s
         else
           var d := if side == Client then x.(toClient := [], clientOpen := false) else x.(toServer := [], serverOpen := false);
           s.(conns := s.conns[c := if !d.clientOpen && !d.serverOpen && d.toClient == [] && d.toServer == [] then NO_CONN else d],
              refs := s.refs - Released(x, side))
  {}

  lemma ConnectionIs(x: ConnectionSlot)
    ensures ConnectionOk(x) <==> RingOk(x.toClient) && RingOk(x.toServer)
    ensures ConnectionOk(x) ==>
      ConnOf(x) == Conn(x.clientOwner, x.serverOwner, QueueOf(x.toClient), QueueOf(x.toServer),
                        x.clientOpen, x.serverOpen, x.accepted, x.active)
  {}

  lemma ClearConnectionIs()
    ensures ConnectionOk(ClearConnection()) && ConnOf(ClearConnection()) == NO_CONN
  {}

  lemma PushPending(x: ServiceSlot, c: nat)
    requires ServiceSlotOk(x) && x.count < PENDING
    ensures var y := x.(slots := x.slots[Rings.At(PENDING, x.head, x.count) := c], count := x.count + 1);
      && ServiceSlotOk(y) && ServiceOf(y) == ServiceOf(x).(pending := ServiceOf(x).pending + [c])
  {
    Rings.Push(x.slots, x.head, x.count, c);
  }

  lemma TakePending(x: ServiceSlot)
    requires ServiceSlotOk(x) && 0 < x.count
    ensures ServiceOf(x).pending[0] == x.slots[x.head]
    ensures var y := x.(slots := x.slots[x.head := INDEX_INVALID], head := Rings.At(PENDING, x.head, 1), count := x.count - 1);
      ServiceSlotOk(y) && ServiceOf(y) == ServiceOf(x).(pending := ServiceOf(x).pending[1..])
  {
    Rings.Pop(x.slots, x.head, x.count, INDEX_INVALID);
  }

  lemma ClearServiceIs()
    ensures ServiceSlotOk(ClearService()) && ServiceOf(ClearService()) == NO_SERVICE
  {}

  lemma EmptyServiceIs(p: nat, name: string)
    ensures var x := ServiceSlot(true, p, name, ClearService().slots, 0, 0);
      ServiceSlotOk(x) && ServiceOf(x) == Service(true, p, name, [])
  {}

  lemma DismissAt(s: Ipc, v: nat)
    requires Inv(s) && v < |s.services| && s.services[v].pending != []
    ensures var c := s.services[v].pending[0];
      && c < |s.conns| == CONNECTIONS && s.conns[c].active && !s.conns[c].accepted && IsOpen(s.conns[c], Server)
      && Pop(s, v).conns == s.conns && Pop(s, v).refs == s.refs
      && Dismiss(s, v) == CloseAt(Pop(s, v), c, Server)
  {
    PendingHead(s, v);
  }

  lemma UnregisterStep(s: Ipc, v: nat)
    requires v < |s.services| && s.services[v].active
    ensures Unregister(s, v)
         == if s.services[v].pending == [] then s.(services := s.services[v := NO_SERVICE]) else Unregister(Dismiss(s, v), v)
  {}

  lemma WithTableObjects(s: Ipc, p: nat, memory: bool)
    ensures var t := WithTable(s, p, memory);
      t.services == s.services && t.conns == s.conns && t.alive == s.alive && t.refs == s.refs
  {}

  lemma OpenedIs(p: nat, owner: nat)
    ensures var x := ConnectionSlot(p, owner, ClearRing(), ClearRing(), true, true, false, true);
      ConnectionOk(x) && ConnOf(x) == Conn(p, owner, [], [], true, true, false, true)
  {}

  lemma UsableIs(s: Ipc, p: nat, handle: nat)
    ensures var x := Named(s, p, handle);
      Usable(s, p, handle)
      <==> p in s.alive && p != BOOTSTRAP_PID && x.Endpoint? && x.conn < |s.conns| && s.conns[x.conn].active && IsOpen(s.conns[x.conn], x.side)
  {}

  lemma EndpointIs(e: HandleSlot)
    ensures TargetOf(e).Endpoint? <==> e.kind == EndpointKind
    ensures e.kind == EndpointKind ==> TargetOf(e) == Endpoint(e.index, e.side)
    ensures e.kind == ListenerKind ==> TargetOf(e) == Listener(e.index)
    ensures e.kind == NoKind ==> TargetOf(e) == NoTarget
  {}

  lemma PeerIs(side: Side)
    ensures Peer(side) == if side == Client then Server else Client
  {}

  lemma MessageIs(m: MessageSlot)
    ensures MessageOf(m) == Message(m.payload, m.attachment)
  {}

  lemma SendIs(s: Ipc, p: nat, handle: nat, payload: seq<byte>, retain: Retain)
    ensures Usable(s, p, handle) ==> Named(s, p, handle).Endpoint? && Named(s, p, handle).conn < |s.conns|
    ensures PAYLOAD_MAX < |payload| || !Usable(s, p, handle) ==> Send(s, p, handle, payload, retain) == Outcome(s, Invalid)
    ensures |payload| <= PAYLOAD_MAX && Usable(s, p, handle) ==>
      var x := Named(s, p, handle);
      var c := s.conns[x.conn];
      var q := Queue(c, Peer(x.side));
      var attachment := if retain.Retained? then Some(retain.buffer) else None;
      var sent := q + [Message(payload, attachment)];
      Send(s, p, handle, payload, retain)
      == if !IsOpen(c, Peer(x.side)) then Outcome(s, PeerClosed)
         else if MESSAGES <= |q| || retain == RetainFull then Outcome(s, NoSpace)
         else if retain == RetainBad then Outcome(s, Invalid)
         else Outcome(s.(conns := s.conns[x.conn := if x.side == Client then c.(toServer := sent) else c.(toClient := sent)],
                         refs := if retain.Retained? then s.refs + multiset{retain.buffer} else s.refs),
                      Sent)
  {
    hide Lookup;
    assert s.refs + multiset{} == s.refs;
  }

  /** The oldest message of a side, and the reference it carried, are gone. */
  ghost function Dropped(s: Ipc, c: nat, side: Side, attachment: Option<nat>): Ipc
    requires c < |s.conns| && Queue(s.conns[c], side) != []
  {
    s.(conns := s.conns[c := WithQueue(s.conns[c], side, Queue(s.conns[c], side)[1..])],
       refs := if attachment.Some? then s.refs - multiset{attachment.value} else s.refs)
  }

  lemma DroppedIs(s: Ipc, c: nat, side: Side, attachment: Option<nat>)
    requires c < |s.conns| && Queue(s.conns[c], side) != []
    ensures var x := s.conns[c];
      Dropped(s, c, side, attachment)
      == s.(conns := s.conns[c := if side == Client then x.(toClient := x.toClient[1..]) else x.(toServer := x.toServer[1..])],
            refs := if attachment.Some? then s.refs - multiset{attachment.value} else s.refs)
  {}

  ghost function Taken(s: Ipc, c: nat, side: Side, capacity: nat, adoption: Adoption): Outcome
    requires c < |s.conns|
  {
    var q := Queue(s.conns[c], side);
    if q == [] then Outcome(s, if IsOpen(s.conns[c], Peer(side)) then WouldBlock else PeerClosed)
    else if capacity < |q[0].payload| then Outcome(s, NoSpace)
    else if q[0].attachment.Some? && adoption == TableFull then Outcome(s, NoSpace)
    else if q[0].attachment.Some? && adoption != Adopted then Outcome(s, Internal)
    else Outcome(Dropped(s, c, side, q[0].attachment), Received(q[0].payload, q[0].attachment))
  }

  lemma TakenIs(s: Ipc, c: nat, side: Side, capacity: nat, adoption: Adoption)
    requires c < |s.conns|
    ensures var x := s.conns[c];
      var q := if side == Client then x.toClient else x.toServer;
      && q == Queue(x, side)
      && Taken(s, c, side, capacity, adoption)
         == if q == [] then Outcome(s, if (if side == Client then x.serverOpen else x.clientOpen) then WouldBlock else PeerClosed)
            else if capacity < |q[0].payload| || (q[0].attachment.Some? && adoption == TableFull) then Outcome(s, NoSpace)
            else if q[0].attachment.Some? && adoption != Adopted then Outcome(s, Internal)
            else Outcome(Dropped(s, c, side, q[0].attachment), Received(q[0].payload, q[0].attachment))
  {}

  /** A buffer once `payload` was copied to its front. */
  ghost predicate Filled(before: seq<byte>, payload: seq<byte>, after: seq<byte>) {
    |payload| <= |before| && after == payload + before[|payload|..]
  }

  /** The messages that wait for the side a handle names. */
  ghost function WaitingFor(s: Ipc, p: nat, handle: nat): seq<Message> {
    if Usable(s, p, handle) && Named(s, p, handle).Endpoint? && Named(s, p, handle).conn < |s.conns|
    then Queue(s.conns[Named(s, p, handle).conn], Named(s, p, handle).side) else []
  }

  lemma ReceiveCases(s: Ipc, p: nat, handle: nat, capacity: nat, adoption: Adoption)
    requires Inv(s)
    ensures Usable(s, p, handle) ==> Named(s, p, handle).Endpoint? && Named(s, p, handle).conn < |s.conns|
    ensures !Usable(s, p, handle) ==> Receive(s, p, handle, capacity, adoption) == Outcome(s, Invalid)
    ensures Usable(s, p, handle) ==>
      WaitingFor(s, p, handle) == Queue(s.conns[Named(s, p, handle).conn], Named(s, p, handle).side)
    ensures Usable(s, p, handle) ==>
      Receive(s, p, handle, capacity, adoption)
      == Taken(s, Named(s, p, handle).conn, Named(s, p, handle).side, capacity, adoption)
  {
    hide Lookup, InQueue, Inv;
    var r := Receive(s, p, handle, capacity, adoption);
    if r.result.Received? {
      ReceiveIs(s, p, handle, capacity, adoption);
      var x := Named(s, p, handle);
      var q := Queue(s.conns[x.conn], x.side);
      InQueueLast([q[0]]);
      assert [q[0]][..0] == [];
      InQueueLast([]);
      assert s.refs - multiset{} == s.refs;
    }
  }

  /** Closing an active slot closes what it names, and then retires it. */
  lemma CloseEntryIs(s: Ipc, p: nat, i: nat)
    requires Inv(s) && p in s.tables && i < |s.tables[p]| && Owns(s, p, s.tables[p][i].target)
    ensures var x := s.tables[p][i].target;
      && (x.Listener? ==>
            && x.service < |s.services| && s.services[x.service].active
            && Unregister(s, x.service).tables == s.tables
            && CloseSlot(s, p, i) == Invalidate(Unregister(s, x.service), p, i))
      && (x.Endpoint? ==>
            && x.conn < |s.conns| && Released(s.conns[x.conn], x.side) <= s.refs
            && CloseAt(s, x.conn, x.side).tables == s.tables
            && CloseSlot(s, p, i) == Invalidate(CloseAt(s, x.conn, x.side), p, i))
  {
    var x := s.tables[p][i].target;
    if x.Endpoint? {
      QueueRetained(s, x.conn, x.side);
    }
    hide Unregister, CloseSide, Invalidate, Inv;
  }

  lemma CloseIsSlot(s: Ipc, p: nat, handle: nat)
    requires Inv(s)
    ensures Close(s, p, handle)
         == if p !in s.alive || p == BOOTSTRAP_PID || Lookup(s, p, handle).None? then Outcome(s, Invalid)
            else Outcome(CloseSlot(s, p, Lookup(s, p, handle).value), Closed)
  {
    CloseKeeps(s, p, handle);
    hide Inv, CloseSlot;
  }

  lemma CloseFromStep(s: Ipc, p: nat, i: nat)
    requires p in s.tables && i <= |s.tables[p]|
    ensures CloseFrom(s, p, i) == if i == |s.tables[p]| then s else CloseFrom(CloseSlot(s, p, i), p, i + 1)
  {}

  lemma CleanupIs(s: Ipc, p: nat)
    ensures Cleanup(s, p)
         == if p !in s.alive || p == BOOTSTRAP_PID || p !in s.tables then s
            else var r := CloseFrom(s, p, 0); r.(tables := r.tables - {p})
  {}
}
