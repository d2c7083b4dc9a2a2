/**
 Inter-process communication: named services, connections with a message queue in each
 direction, and handles that name them with a slot and a generation. What every run of the
 calls keeps, and what a process can rely on. The rings and tables are in module IpcSystem.
 */
module IpcSpec {
  import opened Machine
  import opened Collections

  const SERVICES: nat := 16
  const CONNECTIONS: nat := 64
  const HANDLES: nat := 32
  const PENDING: nat := 16
  const MESSAGES: nat := 16
  const PAYLOAD_MAX: nat := 256
  const NAME_MAX: nat := 31
  const SLOT_RANGE: nat := 32
  const GENERATION_MAX: nat := 0x7FF_FFFF
  const BOOTSTRAP_PID: nat := 0

  datatype Side = Client | Server

  /** What an active handle names. */
  datatype Target = NoTarget | Listener(service: nat) | Endpoint(conn: nat, side: Side)
  datatype Entry = Entry(generation: nat, target: Target)

  /** `attachment` is the retained buffer a message carries. */
  datatype Message = Message(payload: seq<byte>, attachment: Option<nat>)
  datatype Service = Service(active: bool, owner: nat, name: string, pending: seq<nat>)
  datatype Conn = Conn(clientOwner: nat, serverOwner: nat, toClient: seq<Message>, toServer: seq<Message>,
                       clientOpen: bool, serverOpen: bool, accepted: bool, active: bool)

  /** Processes are named by their pid. `refs` are the buffer references the kernel retains. */
  datatype Ipc = Ipc(services: seq<Service>, conns: seq<Conn>, tables: map<nat, seq<Entry>>,
                     alive: set<nat>, refs: multiset<nat>)

  datatype Result =
    | Handle(handle: nat) | Sent | Received(payload: seq<byte>, buffer: Option<nat>) | Closed
    | Invalid | NotFound | Exists | NoSpace | PeerClosed | WouldBlock | Internal

  datatype Outcome = Outcome(ipc: Ipc, result: Result)

  const NO_SERVICE: Service := Service(false, 0, "", [])
  const NO_CONN: Conn := Conn(0, 0, [], [], false, false, false, false)

  /** process_state_initialize. */
  function NoHandles(): (t: seq<Entry>)
    ensures |t| == HANDLES && forall i :: 0 <= i < |t| ==> t[i] == Entry(1, NoTarget)
  {
    seq(HANDLES, i => Entry(1, NoTarget))
  }

  /** boring_ipc_system_init. */
  function Initial(): (s: Ipc)
    ensures |s.services| == SERVICES && forall v :: 0 <= v < |s.services| ==> s.services[v] == NO_SERVICE
    ensures |s.conns| == CONNECTIONS && forall c :: 0 <= c < |s.conns| ==> s.conns[c] == NO_CONN
    ensures s.tables == map[] && s.refs == multiset{}
  {
    Ipc(seq(SERVICES, i => NO_SERVICE), seq(CONNECTIONS, i => NO_CONN), map[], {}, multiset{})
  }

  // --------------------------------------------------------------- handles

  function NextGeneration(g: nat): nat {
    if g == 0 || GENERATION_MAX <= g then 1 else g + 1
  }

  function Encode(slot: nat, generation: nat): nat {
    generation * SLOT_RANGE + slot
  }

  /** decode_handle: the slot and generation of a handle, unless it is malformed. */
  function Decode(handle: nat): Option<(nat, nat)> {
    if handle / SLOT_RANGE == 0 then None else Some((handle % SLOT_RANGE, handle / SLOT_RANGE))
  }

  /** The first free slot of a table; its length when there is none. */
  function FreeSlot(t: seq<Entry>, i: nat): (k: nat)
    requires i <= |t|
    ensures i <= k <= |t| && (k < |t| ==> t[k].target == NoTarget)
    ensures forall j :: i <= j < k ==> t[j].target != NoTarget
    decreases |t| - i
  {
    if i == |t| || t[i].target == NoTarget then i else FreeSlot(t, i + 1)
  }

  function FreeService(vs: seq<Service>, i: nat): (k: nat)
    requires i <= |vs|
    ensures i <= k <= |vs| && (k < |vs| ==> !vs[k].active)
    ensures forall j :: i <= j < k ==> vs[j].active
    decreases |vs| - i
  {
    if i == |vs| || !vs[i].active then i else FreeService(vs, i + 1)
  }

  function FreeConn(cs: seq<Conn>, i: nat): (k: nat)
    requires i <= |cs|
    ensures i <= k <= |cs| && (k < |cs| ==> !cs[k].active)
    ensures forall j :: i <= j < k ==> cs[j].active
    decreases |cs| - i
  {
    if i == |cs| || !cs[i].active then i else FreeConn(cs, i + 1)
  }

  function FindService(vs: seq<Service>, name: string, i: nat): (k: nat)
    requires i <= |vs|
    ensures i <= k <= |vs| && (k < |vs| ==> vs[k].active && vs[k].name == name)
    ensures forall j :: i <= j < k ==> !(vs[j].active && vs[j].name == name)
    decreases |vs| - i
  {
    if i == |vs| || (vs[i].active && vs[i].name == name) then i else FindService(vs, name, i + 1)
  }

  /** state_for_process with `create`; `memory` is whether a new table could be allocated. */
  function WithTable(s: Ipc, p: nat, memory: bool): Ipc {
    if p in s.tables || !memory then s else s.(tables := s.tables[p := NoHandles()])
  }

  function SetEntry(s: Ipc, p: nat, i: nat, e: Entry): Ipc
    requires p in s.tables && i < |s.tables[p]|
  {
    s.(tables := s.tables[p := s.tables[p][i := e]])
  }

  function Install(s: Ipc, p: nat, i: nat, x: Target): Ipc
    requires p in s.tables && i < |s.tables[p]|
  {
    SetEntry(s, p, i, s.tables[p][i].(target := x))
  }

  function Invalidate(s: Ipc, p: nat, i: nat): Ipc
    requires p in s.tables && i < |s.tables[p]|
  {
    SetEntry(s, p, i, Entry(NextGeneration(s.tables[p][i].generation), NoTarget))
  }

  predicate Caller(s: Ipc, p: nat) {
    p in s.alive && p != BOOTSTRAP_PID
  }

  /** The slot an active handle of `p` names. */
  function Lookup(s: Ipc, p: nat, handle: nat): (r: Option<nat>)
    ensures r.Some? ==> p in s.tables && r.value < |s.tables[p]| && s.tables[p][r.value].target != NoTarget
  {
    match Decode(handle)
    case None => None
    case Some((slot, generation)) =>
      if p in s.tables && slot < |s.tables[p]| && s.tables[p][slot].target != NoTarget
         && s.tables[p][slot].generation == generation
      then Some(slot) else None
  }

  /** What a handle of `p` names, NoTarget when it does not resolve. */
  function Named(s: Ipc, p: nat, handle: nat): Target {
    match Lookup(s, p, handle)
    case None => NoTarget
    case Some(slot) => s.tables[p][slot].target
  }

  // ------------------------------------------------------------ connections

  predicate IsOpen(c: Conn, side: Side) {
    if side == Client then c.clientOpen else c.serverOpen
  }

  function Peer(side: Side): Side {
    if side == Client then Server else Client
  }

  function Owner(c: Conn, side: Side): nat {
    if side == Client then c.clientOwner else c.serverOwner
  }

  function Queue(c: Conn, side: Side): seq<Message> {
    if side == Client then c.toClient else c.toServer
  }

  function WithQueue(c: Conn, side: Side, q: seq<Message>): Conn {
    if side == Client then c.(toClient := q) else c.(toServer := q)
  }

  /** connection_maybe_destroy. */
  function MaybeDestroy(c: Conn): Conn {
    if c.active && !c.clientOpen && !c.serverOpen && c.toClient == [] && c.toServer == [] then NO_CONN else c
  }

  /** close_connection_side. */
  function CloseSide(c: Conn, side: Side): Conn {
    if !c.active || !IsOpen(c, side) then c
    else
      var d := WithQueue(c, side, []);
      MaybeDestroy(if side == Client then d.(clientOpen := false) else d.(serverOpen := false))
  }

  function InQueue(q: seq<Message>): multiset<nat> {
    if q == [] then multiset{}
    else InQueue(q[..|q| - 1]) + match q[|q| - 1].attachment { case None => multiset{} case Some(b) => multiset{b} }
  }

  /** The references released when side `side` of `c` closes. */
  function Released(c: Conn, side: Side): multiset<nat> {
    if !c.active || !IsOpen(c, side) then multiset{} else InQueue(Queue(c, side))
  }

  function CloseAt(s: Ipc, c: nat, side: Side): Ipc
    requires c < |s.conns|
  {
    s.(conns := s.conns[c := CloseSide(s.conns[c], side)], refs := s.refs - Released(s.conns[c], side))
  }

  // --------------------------------------------------------------- services

  predicate NameChar(ch: char) {
    'a' <= ch <= 'z' || '0' <= ch <= '9' || ch == '.' || ch == '_' || ch == '-'
  }

  ghost predicate ValidName(name: string) {
    0 < |name| <= NAME_MAX && forall i :: 0 <= i < |name| ==> NameChar(name[i])
  }

  ghost function Register(s: Ipc, p: nat, name: string, memory: bool): Outcome {
    if !Caller(s, p) || !ValidName(name) then Outcome(s, Invalid)
    else if FindService(s.services, name, 0) < |s.services| then Outcome(s, Exists)
    else
      var t := WithTable(s, p, memory);
      var v := FreeService(s.services, 0);
      if p !in t.tables || v == |s.services| || FreeSlot(t.tables[p], 0) == |t.tables[p]| then Outcome(t, NoSpace)
      else
        var i := FreeSlot(t.tables[p], 0);
        Outcome(Install(t.(services := t.services[v := Service(true, p, name, [])]), p, i, Listener(v)),
                Handle(Encode(i, t.tables[p][i].generation)))
  }

  ghost function Connect(s: Ipc, p: nat, name: string, memory: bool): Outcome {
    var v := FindService(s.services, name, 0);
    if !Caller(s, p) || !ValidName(name) then Outcome(s, Invalid)
    else if v == |s.services| || s.services[v].owner !in s.alive then Outcome(s, NotFound)
    else if PENDING <= |s.services[v].pending| then Outcome(s, NoSpace)
    else
      var t := WithTable(s, p, memory);
      var c := FreeConn(s.conns, 0);
      if p !in t.tables || c == |s.conns| || FreeSlot(t.tables[p], 0) == |t.tables[p]| then Outcome(t, NoSpace)
      else
        var i := FreeSlot(t.tables[p], 0);
        var linked := Conn(p, t.services[v].owner, [], [], true, true, false, true);
        var svc := t.services[v].(pending := t.services[v].pending + [c]);
        Outcome(Install(t.(conns := t.conns[c := linked], services := t.services[v := svc]), p, i, Endpoint(c, Client)),
                Handle(Encode(i, t.tables[p][i].generation)))
  }

  function Pop(s: Ipc, v: nat): Ipc
    requires v < |s.services| && s.services[v].pending != []
  {
    s.(services := s.services[v := s.services[v].(pending := s.services[v].pending[1..])])
  }

  ghost function Accept(s: Ipc, p: nat, handle: nat): Outcome {
    var x := Named(s, p, handle);
    if !Caller(s, p) || !x.Listener? || |s.services| <= x.service then Outcome(s, Invalid)
    else
      var v := x.service;
      var svc := s.services[v];
      if !svc.active || svc.owner !in s.alive || svc.owner != p then Outcome(s, Invalid)
      else if svc.pending == [] then Outcome(s, WouldBlock)
      else if |s.conns| <= svc.pending[0] then Outcome(s, Internal)
      else
        var c := svc.pending[0];
        var conn := s.conns[c];
        if !conn.active || conn.accepted || conn.serverOwner != p then Outcome(s, Internal)
        else
          var i := FreeSlot(s.tables[p], 0);
          if i == |s.tables[p]| then Outcome(s, NoSpace)
          else
            Outcome(Install(Pop(s, v).(conns := s.conns[c := conn.(accepted := true)]), p, i, Endpoint(c, Server)),
                    Handle(Encode(i, s.tables[p][i].generation)))
  }

  // --------------------------------------------------------------- messages

  /** What user_buffer_retain answers for the buffer handle of a send. */
  datatype Retain = NoBuffer | Retained(buffer: nat) | RetainFull | RetainBad

  /** An endpoint handle whose side of the connection is open. */
  predicate Usable(s: Ipc, p: nat, handle: nat) {
    var x := Named(s, p, handle);
    && Caller(s, p) && x.Endpoint? && x.conn < |s.conns|
    && s.conns[x.conn].active && IsOpen(s.conns[x.conn], x.side)
  }

  ghost function Send(s: Ipc, p: nat, handle: nat, payload: seq<byte>, retain: Retain): Outcome {
    if PAYLOAD_MAX < |payload| || !Usable(s, p, handle) then Outcome(s, Invalid)
    else
      var x := Named(s, p, handle);
      var c := s.conns[x.conn];
      var q := Queue(c, Peer(x.side));
      if !IsOpen(c, Peer(x.side)) then Outcome(s, PeerClosed)
      else if MESSAGES <= |q| || retain == RetainFull then Outcome(s, NoSpace)
      else if retain == RetainBad then Outcome(s, Invalid)
      else
        var attachment := if retain.Retained? then Some(retain.buffer) else None;
        Outcome(s.(conns := s.conns[x.conn := WithQueue(c, Peer(x.side), q + [Message(payload, attachment)])],
                   refs := s.refs + if retain.Retained? then multiset{retain.buffer} else multiset{}),
                Sent)
  }

  /** What the receiving process's buffer table answers for the attachment. */
  datatype Adoption = Adopted | TableFull | Refused | NotCommitted

  ghost function Receive(s: Ipc, p: nat, handle: nat, capacity: nat, adoption: Adoption): Outcome {
    if !Usable(s, p, handle) then Outcome(s, Invalid)
    else
      var x := Named(s, p, handle);
      var c := s.conns[x.conn];
      var q := Queue(c, x.side);
      if q == [] then Outcome(s, if IsOpen(c, Peer(x.side)) then WouldBlock else PeerClosed)
      else if capacity < |q[0].payload| then Outcome(s, NoSpace)
      else if q[0].attachment.Some? && adoption == TableFull then Outcome(s, NoSpace)
      else if q[0].attachment.Some? && adoption != Adopted then Outcome(s, Internal)
      else
        Outcome(s.(conns := s.conns[x.conn := MaybeDestroy(WithQueue(c, x.side, q[1..]))],
                   refs := s.refs - InQueue([q[0]])),
                Received(q[0].payload, q[0].attachment))
  }

  // ---------------------------------------------------------------- closing

  /** One turn of unregister_service: the oldest pending connection loses its server side. */
  function Dismiss(s: Ipc, v: nat): Ipc
    requires v < |s.services| && s.services[v].pending != []
  {
    var c := s.services[v].pending[0];
    var t := Pop(s, v);
    if c < |s.conns| && s.conns[c].active && !s.conns[c].accepted then CloseAt(t, c, Server) else t
  }

  function Unregister(s: Ipc, v: nat): (r: Ipc)
    requires v < |s.services|
    ensures r.tables == s.tables && |r.services| == |s.services| && |r.conns| == |s.conns|
    decreases |s.services[v].pending|
  {
    if !s.services[v].active then s
    else if s.services[v].pending == [] then s.(services := s.services[v := NO_SERVICE])
    else Unregister(Dismiss(s, v), v)
  }

  /** Close what slot `i` of `p` names, and retire the slot. */
  function CloseSlot(s: Ipc, p: nat, i: nat): (r: Ipc)
    requires p in s.tables && i < |s.tables[p]|
    ensures p in r.tables && r.tables == s.tables[p := r.tables[p]] && |r.tables[p]| == |s.tables[p]|
  {
    var x := s.tables[p][i].target;
    if x == NoTarget then s
    else if x.Listener? && x.service < |s.services| then Invalidate(Unregister(s, x.service), p, i)
    else if x.Endpoint? && x.conn < |s.conns| then Invalidate(CloseAt(s, x.conn, x.side), p, i)
    else Invalidate(s, p, i)
  }

  ghost function Close(s: Ipc, p: nat, handle: nat): Outcome {
    if !Caller(s, p) || Lookup(s, p, handle).None? then Outcome(s, Invalid)
    else
      var i := Lookup(s, p, handle).value;
      var x := s.tables[p][i].target;
      if (x.Listener? && |s.services| <= x.service) || (x.Endpoint? && |s.conns| <= x.conn) then Outcome(s, Internal)
      else Outcome(CloseSlot(s, p, i), Closed)
  }

  /** Close every slot of `p` from `i` on. */
  function CloseFrom(s: Ipc, p: nat, i: nat): (r: Ipc)
    requires p in s.tables && i <= |s.tables[p]|
    ensures p in r.tables && |r.tables[p]| == |s.tables[p]|
    decreases |s.tables[p]| - i
  {
    if i == |s.tables[p]| then s else CloseFrom(CloseSlot(s, p, i), p, i + 1)
  }

  /** boring_ipc_process_cleanup, before the process dies. */
  function Cleanup(s: Ipc, p: nat): Ipc {
    if !Caller(s, p) || p !in s.tables then s
    else
      var r := CloseFrom(s, p, 0);
      r.(tables := r.tables - {p})
  }

  // ------------------------------------------------------------------- runs

  datatype Call =
    | RegisterCall(pid: nat, name: string, memory: bool)
    | ConnectCall(pid: nat, name: string, memory: bool)
    | AcceptCall(pid: nat, handle: nat)
    | SendCall(pid: nat, handle: nat, payload: seq<byte>, retain: Retain)
    | ReceiveCall(pid: nat, handle: nat, capacity: nat, adoption: Adoption)
    | CloseCall(pid: nat, handle: nat)
    | CleanupCall(pid: nat)
    | SpawnCall(pid: nat)
    | DieCall(pid: nat)

  /** A process dies only once it has been cleaned up. */
  ghost function Step(s: Ipc, call: Call): Outcome {
    match call
    case RegisterCall(p, name, memory) => Register(s, p, name, memory)
    case ConnectCall(p, name, memory) => Connect(s, p, name, memory)
    case AcceptCall(p, handle) => Accept(s, p, handle)
    case SendCall(p, handle, payload, retain) => Send(s, p, handle, payload, retain)
    case ReceiveCall(p, handle, capacity, adoption) => Receive(s, p, handle, capacity, adoption)
    case CloseCall(p, handle) => Close(s, p, handle)
    case CleanupCall(p) => Outcome(Cleanup(s, p), Closed)
    case SpawnCall(p) => Outcome(s.(alive := s.alive + {p}), Closed)
    case DieCall(p) => Outcome(if p in s.tables then s else s.(alive := s.alive - {p}), Closed)
  }

  ghost function Run(s: Ipc, calls: seq<Call>): Ipc
    decreases |calls|
  {
    if calls == [] then s else Run(Step(s, calls[0]).ipc, calls[1..])
  }

  // -------------------------------------------------------------- invariant

  ghost predicate TableOk(t: seq<Entry>) {
    && |t| == HANDLES
    && (forall i :: 0 <= i < |t| ==> 1 <= t[i].generation <= GENERATION_MAX)
    && forall i, j :: 0 <= i < j < |t| ==> t[i].target == NoTarget || t[i].target != t[j].target
  }

  ghost predicate TablesOk(s: Ipc) {
    forall p :: p in s.tables ==> TableOk(s.tables[p]) && Caller(s, p)
  }

  predicate Has(t: seq<Entry>, x: Target) {
    exists i :: 0 <= i < |t| && t[i].target == x
  }

  /** Process `p` has a handle for `x`. */
  predicate Holds(s: Ipc, p: nat, x: Target) {
    p in s.tables && Has(s.tables[p], x)
  }

  /** `x` is a live service or an open connection side that `p` owns and has a handle for. */
  predicate Owns(s: Ipc, p: nat, x: Target) {
    match x
    case NoTarget => false
    case Listener(v) => v < |s.services| && s.services[v].active && s.services[v].owner == p
    case Endpoint(c, side) =>
      c < |s.conns| && IsOpen(s.conns[c], side) && Owner(s.conns[c], side) == p && (side == Server ==> s.conns[c].accepted)
  }

  ghost predicate Matched(s: Ipc) {
    forall p: nat, x: Target :: x != NoTarget ==> (Holds(s, p, x) <==> Owns(s, p, x))
  }

  /** The server side of connection `c` is open and waits to be accepted. */
  predicate Waiting(s: Ipc, c: nat) {
    c < |s.conns| && s.conns[c].serverOpen && !s.conns[c].accepted
  }

  ghost predicate PendingSound(s: Ipc) {
    forall v, k :: 0 <= v < |s.services| && 0 <= k < |s.services[v].pending| ==>
      Waiting(s, s.services[v].pending[k]) && s.conns[s.services[v].pending[k]].serverOwner == s.services[v].owner
  }

  ghost predicate PendingOnce(s: Ipc) {
    forall v, k, w, l ::
      (0 <= v < |s.services| && 0 <= k < |s.services[v].pending|
       && 0 <= w < |s.services| && 0 <= l < |s.services[w].pending|
       && s.services[v].pending[k] == s.services[w].pending[l]) ==> v == w && k == l
  }

  predicate Queued(s: Ipc, c: nat) {
    exists v :: 0 <= v < |s.services| && c in s.services[v].pending
  }

  ghost predicate PendingComplete(s: Ipc) {
    forall c: nat :: Waiting(s, c) ==> Queued(s, c)
  }

  /** A side that is not open has nothing queued; the slot is in use exactly while a side is open. */
  ghost predicate ConnOk(c: Conn) {
    && (c.active <==> c.clientOpen || c.serverOpen)
    && (!c.active ==> c == NO_CONN)
    && (!c.clientOpen ==> c.toClient == []) && (!c.serverOpen ==> c.toServer == [])
    && |c.toClient| <= MESSAGES && |c.toServer| <= MESSAGES
  }

  ghost predicate ServiceOk(v: Service) {
    && (if v.active then ValidName(v.name) else v == NO_SERVICE)
    && |v.pending| <= PENDING
  }

  ghost predicate ObjectsOk(s: Ipc) {
    && |s.services| == SERVICES && |s.conns| == CONNECTIONS
    && (forall c :: 0 <= c < |s.conns| ==> ConnOk(s.conns[c]))
    && (forall v :: 0 <= v < |s.services| ==> ServiceOk(s.services[v]))
    && forall v, w :: 0 <= v < w < |s.services| && s.services[v].active && s.services[w].active ==>
                        s.services[v].name != s.services[w].name
  }

  /** The references retained for the messages queued on the connections. */
  function Attached(cs: seq<Conn>): multiset<nat> {
    if cs == [] then multiset{} else Attached(cs[..|cs| - 1]) + AttachedTo(cs[|cs| - 1])
  }

  function AttachedTo(c: Conn): multiset<nat> {
    InQueue(c.toClient) + InQueue(c.toServer)
  }

  ghost predicate PendingOk(s: Ipc) {
    PendingSound(s) && PendingOnce(s) && PendingComplete(s)
  }

  /** Handles, services, open sides, pending entries and retained buffers correspond. */
  ghost predicate Inv(s: Ipc) {
    TablesOk(s) && Matched(s) && PendingOk(s) && ObjectsOk(s) && s.refs == Attached(s.conns)
  }

  // -------------------------------------------------- handles and their objects

  ghost predicate OwnsSame(s: Ipc, t: Ipc) {
    forall q: nat, y: Target :: Owns(t, q, y) <==> Owns(s, q, y)
  }

  /** `t` has one more owned object than `s`: `x`, owned by `p`. */
  ghost predicate OwnsMore(s: Ipc, t: Ipc, p: nat, x: Target) {
    forall q: nat, y: Target :: Owns(t, q, y) <==> Owns(s, q, y) || (q == p && y == x)
  }

  ghost predicate OwnsLess(s: Ipc, t: Ipc, p: nat, x: Target) {
    forall q: nat, y: Target :: Owns(t, q, y) <==> Owns(s, q, y) && !(q == p && y == x)
  }

  lemma HasSet(t: seq<Entry>, i: nat, e: Entry, y: Target)
    requires TableOk(t) && i < |t| && y != NoTarget
    requires e.target == NoTarget || t[i].target == NoTarget
    ensures Has(t[i := e], y) <==> y == e.target || (Has(t, y) && y != t[i].target)
  {
    var u := t[i := e];
    if Has(u, y) {
      var k :| 0 <= k < |u| && u[k].target == y;
      assert k != i ==> t[k].target == y;
    }
    if y == e.target {
      assert u[i].target == y;
    }
    if Has(t, y) && y != t[i].target {
      var k :| 0 <= k < |t| && t[k].target == y;
      assert u[k].target == y;
    }
  }

  lemma TableSet(t: seq<Entry>, i: nat, e: Entry)
    requires TableOk(t) && i < |t| && 1 <= e.generation <= GENERATION_MAX
    requires e.target == NoTarget || !Has(t, e.target)
    ensures TableOk(t[i := e])
  {
    var u := t[i := e];
    forall j, k | 0 <= j < k < |u| ensures u[j].target == NoTarget || u[j].target != u[k].target {
      assert e.target != NoTarget ==> (forall l :: 0 <= l < |t| ==> t[l].target != e.target);
    }
  }

  /** A new owned object and the handle installed for it keep the correspondence. */
  lemma InstallMatches(s: Ipc, t: Ipc, p: nat, i: nat, e: Entry)
    requires TablesOk(s) && Matched(s) && p in s.tables && i < HANDLES && t.alive == s.alive
    requires t.tables == s.tables[p := s.tables[p][i := e]] && 1 <= e.generation <= GENERATION_MAX
    requires s.tables[p][i].target == NoTarget && e.target != NoTarget
    requires !Owns(s, p, e.target) && OwnsMore(s, t, p, e.target)
    ensures TablesOk(t) && Matched(t)
  {
    assert TableOk(s.tables[p]) && !Holds(s, p, e.target);
    TableSet(s.tables[p], i, e);
    forall q: nat, y: Target | y != NoTarget ensures Holds(t, q, y) <==> Owns(t, q, y) {
      HasSet(s.tables[p], i, e, y);
      assert Holds(s, q, y) <==> Owns(s, q, y);
      assert q != p && q in s.tables ==> t.tables[q] == s.tables[q];
    }
  }

  lemma RetireMatches(s: Ipc, t: Ipc, p: nat, i: nat, e: Entry)
    requires TablesOk(s) && Matched(s) && p in s.tables && i < HANDLES && t.alive == s.alive
    requires t.tables == s.tables[p := s.tables[p][i := e]] && 1 <= e.generation <= GENERATION_MAX
    requires s.tables[p][i].target != NoTarget && e.target == NoTarget
    requires OwnsLess(s, t, p, s.tables[p][i].target)
    ensures TablesOk(t) && Matched(t)
  {
    TableSet(s.tables[p], i, e);
    forall q: nat, y: Target | y != NoTarget ensures Holds(t, q, y) <==> Owns(t, q, y) {
      HasSet(s.tables[p], i, e, y);
      assert Holds(s, q, y) <==> Owns(s, q, y);
      assert q != p && q in s.tables ==> t.tables[q] == s.tables[q];
    }
  }

  lemma SameMatches(s: Ipc, t: Ipc)
    requires TablesOk(s) && Matched(s) && t.tables == s.tables && t.alive == s.alive && OwnsSame(s, t)
    ensures TablesOk(t) && Matched(t)
  {
    forall q: nat, y: Target | y != NoTarget ensures Holds(t, q, y) <==> Owns(t, q, y) {
      assert Holds(s, q, y) <==> Owns(s, q, y);
    }
  }

  lemma WithTableKeeps(s: Ipc, p: nat, memory: bool)
    requires Inv(s) && Caller(s, p)
    ensures Inv(WithTable(s, p, memory))
  {
    hide *;
    var t := WithTable(s, p, memory);
    InvIs(s);
    InvIs(t);
    EmptyTable(s, t, p, memory);
    SamePending(s, t);
    SameObjects(s, t);
  }

  lemma EmptyTable(s: Ipc, t: Ipc, p: nat, memory: bool)
    requires TablesOk(s) && Matched(s) && Caller(s, p) && t == WithTable(s, p, memory)
    ensures TablesOk(t) && Matched(t)
    ensures t.services == s.services && t.conns == s.conns && t.refs == s.refs
    ensures forall d: nat :: Waiting(t, d) <==> Waiting(s, d)
  {
    forall q: nat, y: Target | y != NoTarget ensures Holds(t, q, y) <==> Owns(t, q, y) {
      assert Holds(s, q, y) <==> Owns(s, q, y);
      assert q != p && q in s.tables ==> t.tables[q] == s.tables[q];
    }
  }

  // ------------------------------------------------------------------ register

  lemma RegisterObjects(s: Ipc, t: Ipc, v: nat, p: nat, name: string)
    requires ObjectsOk(s) && PendingOk(s) && v < |s.services| && !s.services[v].active
    requires ValidName(name) && FindService(s.services, name, 0) == |s.services|
    requires t.services == s.services[v := Service(true, p, name, [])] && t.conns == s.conns
    ensures ObjectsOk(t) && PendingOk(t) && OwnsMore(s, t, p, Listener(v)) && !Owns(s, p, Listener(v))
  {
    assert ServiceOk(s.services[v]) && s.services[v].pending == [];
    forall c: nat | Waiting(t, c) ensures Queued(t, c) {
      assert Waiting(s, c);
      var w :| 0 <= w < |s.services| && c in s.services[w].pending;
      assert c in t.services[w].pending;
    }
    assert forall w :: 0 <= w < |t.services| ==> ServiceOk(t.services[w]);
  }

  lemma RegisterKeeps(s: Ipc, p: nat, name: string, memory: bool)
    requires Inv(s)
    ensures Inv(Register(s, p, name, memory).ipc)
  {
    var t := WithTable(s, p, memory);
    var r := Register(s, p, name, memory);
    if Caller(s, p) {
      WithTableKeeps(s, p, memory);
    }
    if r.result.Handle? {
      var v, i := FreeService(s.services, 0), FreeSlot(t.tables[p], 0);
      assert TableOk(t.tables[p]);
      RegisterObjects(t, r.ipc, v, p, name);
      hide ObjectsOk, PendingOk, Matched, Owns, OwnsMore, Attached;
      InstallMatches(t, r.ipc, p, i, t.tables[p][i].(target := Listener(v)));
    }
  }

  // --------------------------------------------------------- retained buffers

  lemma Cancel(a: multiset<nat>, b: multiset<nat>, x: multiset<nat>)
    requires a + x == b + x
    ensures a == b
  {
    forall n: nat ensures a[n] == b[n] {
      assert (a + x)[n] == (b + x)[n];
    }
  }

  /** Retained and attached references move together when one queue changes. */
  lemma Balance(refs: multiset<nat>, newRefs: multiset<nat>, newAttached: multiset<nat>,
                was: multiset<nat>, now: multiset<nat>, qOld: multiset<nat>, qNew: multiset<nat>)
    requires newAttached + was == refs + now && now + qOld == was + qNew && newRefs + qOld == refs + qNew
    ensures newRefs == newAttached
  {
    forall n: nat ensures newRefs[n] == newAttached[n] {
      assert (newAttached + was)[n] == (refs + now)[n] && (now + qOld)[n] == (was + qNew)[n];
      assert (newRefs + qOld)[n] == (refs + qNew)[n];
    }
  }

  lemma {:induction false} AttachedUpdate(cs: seq<Conn>, i: nat, c: Conn)
    requires i < |cs|
    ensures Attached(cs[i := c]) + AttachedTo(cs[i]) == Attached(cs) + AttachedTo(c)
    ensures AttachedTo(cs[i]) <= Attached(cs)
  {
    hide AttachedTo;
    var init, ds := cs[..|cs| - 1], cs[i := c];
    assert Attached(ds) == Attached(ds[..|cs| - 1]) + AttachedTo(ds[|cs| - 1]);
    if i < |init| {
      AttachedUpdate(init, i, c);
      assert ds[..|cs| - 1] == init[i := c];
      AddLast(Attached(init[i := c]), AttachedTo(cs[i]), Attached(init), AttachedTo(c), AttachedTo(cs[|cs| - 1]));
    } else {
      assert ds[..|cs| - 1] == init;
    }
  }

  lemma {:induction false} InQueueJoin(a: seq<Message>, b: seq<Message>)
    ensures InQueue(a + b) == InQueue(a) + InQueue(b)
  {
    hide InQueue;
    InQueueLast(a + b);
    InQueueLast(b);
    if b == [] {
      assert a + b == a;
    } else {
      InQueueJoin(a, b[..|b| - 1]);
      assert (a + b)[..|a + b| - 1] == a + b[..|b| - 1];
    }
  }

  function Buffers(m: Message): multiset<nat> {
    if m.attachment.Some? then multiset{m.attachment.value} else multiset{}
  }

  lemma InQueueLast(q: seq<Message>)
    ensures InQueue(q) == if q == [] then multiset{} else InQueue(q[..|q| - 1]) + Buffers(q[|q| - 1])
  {}

  // ------------------------------------------------------------------- connect

  ghost predicate NotQueued(s: Ipc, c: nat) {
    forall v, k :: 0 <= v < |s.services| && 0 <= k < |s.services[v].pending| ==> s.services[v].pending[k] != c
  }

  lemma ConnectObjects(s: Ipc, t: Ipc, v: nat, c: nat, p: nat)
    requires ObjectsOk(s) && PendingOk(s) && v < |s.services| && s.services[v].active && c < |s.conns|
    requires !s.conns[c].active && |s.services[v].pending| < PENDING
    requires t.conns == s.conns[c := Conn(p, s.services[v].owner, [], [], true, true, false, true)]
    requires t.services == s.services[v := s.services[v].(pending := s.services[v].pending + [c])]
    ensures ObjectsOk(t) && PendingOk(t) && Attached(t.conns) == Attached(s.conns)
    ensures OwnsMore(s, t, p, Endpoint(c, Client)) && !Owns(s, p, Endpoint(c, Client))
  {
    hide *;
    FreeConnIs(s, c);
    ConnectPending(s, t, v, c, p);
    AttachedUpdate(s.conns, c, t.conns[c]);
    EmptyAttached(s.services[v].owner, p);
    Cancel(Attached(t.conns), Attached(s.conns), multiset{});
    ObjectsSet(s, t, v, c);
    ConnectOwns(s, t, v, c, p);
  }

  lemma EmptyAttached(server: nat, p: nat)
    ensures AttachedTo(NO_CONN) == multiset{} == AttachedTo(Conn(p, server, [], [], true, true, false, true))
    ensures ConnOk(Conn(p, server, [], [], true, true, false, true))
  {}

  lemma FreeConnIs(s: Ipc, c: nat)
    requires ObjectsOk(s) && PendingOk(s) && c < |s.conns| && !s.conns[c].active
    ensures s.conns[c] == NO_CONN && NotQueued(s, c)
  {
    assert ConnOk(s.conns[c]) && !Waiting(s, c);
  }

  /** Replacing one connection and the queue of one service. */
  lemma ObjectsSet(s: Ipc, t: Ipc, v: nat, c: nat)
    requires ObjectsOk(s) && v < |s.services| && s.services[v].active && c < |s.conns| == |t.conns|
    requires t.conns == s.conns[c := t.conns[c]] && ConnOk(t.conns[c])
    requires |t.services| == |s.services| && |t.services[v].pending| <= PENDING
    requires t.services == s.services[v := s.services[v].(pending := t.services[v].pending)]
    ensures ObjectsOk(t)
  {
    hide ConnOk, ValidName;
    assert forall d :: 0 <= d < |t.conns| && d != c ==> t.conns[d] == s.conns[d];
    assert forall w :: 0 <= w < |t.services| ==> ServiceOk(s.services[w]) && ServiceOk(t.services[w]);
  }

  lemma ConnectOwns(s: Ipc, t: Ipc, v: nat, c: nat, p: nat)
    requires v < |s.services| && c < |s.conns| && s.conns[c] == NO_CONN
    requires t.conns == s.conns[c := Conn(p, s.services[v].owner, [], [], true, true, false, true)]
    requires |t.services| == |s.services| && t.services == s.services[v := s.services[v].(pending := t.services[v].pending)]
    ensures OwnsMore(s, t, p, Endpoint(c, Client)) && !Owns(s, p, Endpoint(c, Client))
  {}

  lemma ConnectPending(s: Ipc, t: Ipc, v: nat, c: nat, p: nat)
    requires PendingOk(s) && NotQueued(s, c) && v < |s.services| && c < |s.conns|
    requires t.conns == s.conns[c := Conn(p, s.services[v].owner, [], [], true, true, false, true)]
    requires t.services == s.services[v := s.services[v].(pending := s.services[v].pending + [c])]
    ensures PendingOk(t)
  {
    forall d: nat | Waiting(t, d) ensures Queued(t, d) {
      if d == c {
        assert t.services[v].pending[|s.services[v].pending|] == c;
      } else {
        assert Waiting(s, d);
        var w :| 0 <= w < |s.services| && d in s.services[w].pending;
        assert d in t.services[w].pending;
      }
    }
  }

  lemma ConnectKeeps(s: Ipc, p: nat, name: string, memory: bool)
    requires Inv(s)
    ensures Inv(Connect(s, p, name, memory).ipc)
  {
    var t := WithTable(s, p, memory);
    var r := Connect(s, p, name, memory);
    if Caller(s, p) {
      WithTableKeeps(s, p, memory);
    }
    if r.result.Handle? {
      var v, c, i := FindService(s.services, name, 0), FreeConn(s.conns, 0), FreeSlot(t.tables[p], 0);
      assert TableOk(t.tables[p]);
      ConnectObjects(t, r.ipc, v, c, p);
      hide ObjectsOk, PendingOk, Matched, Owns, OwnsMore, Attached;
      InstallMatches(t, r.ipc, p, i, t.tables[p][i].(target := Endpoint(c, Client)));
    }
  }

  // -------------------------------------------------------------------- accept

  /** The oldest pending connection of `v` leaves the queue and no longer waits. */
  lemma PopPending(s: Ipc, t: Ipc, v: nat)
    requires PendingOk(s) && v < |s.services| && s.services[v].pending != []
    requires t.services == Pop(s, v).services && |t.conns| == |s.conns|
    requires !Waiting(t, s.services[v].pending[0])
    requires forall c :: 0 <= c < |s.conns| && c != s.services[v].pending[0] ==> t.conns[c] == s.conns[c]
    ensures PendingOk(t)
  {
    var gone := s.services[v].pending[0];
    assert forall w, k :: 0 <= w < |t.services| && 0 <= k < |t.services[w].pending| ==>
             t.services[w].pending[k] == s.services[w].pending[if w == v then k + 1 else k];
    assert NotQueued(t, gone);
    assert PendingSound(t);
    assert PendingOnce(t);
    forall c: nat | Waiting(t, c) ensures Queued(t, c) {
      assert Waiting(s, c);
      var w :| 0 <= w < |s.services| && c in s.services[w].pending;
      var k :| 0 <= k < |s.services[w].pending| && s.services[w].pending[k] == c;
      assert t.services[w].pending[if w == v then k - 1 else k] == c;
    }
  }

  /** The head of the queue of a service of `p` is what accept expects to find there. */
  lemma PendingHead(s: Ipc, v: nat)
    requires Inv(s) && v < |s.services| && s.services[v].pending != []
    ensures Waiting(s, s.services[v].pending[0])
    ensures s.conns[s.services[v].pending[0]].active
    ensures s.conns[s.services[v].pending[0]].serverOwner == s.services[v].owner
  {
    assert ConnOk(s.conns[s.services[v].pending[0]]);
  }

  /** Accepting never finds a broken queue. */
  lemma AcceptSound(s: Ipc, p: nat, handle: nat)
    requires Inv(s)
    ensures Accept(s, p, handle).result != Internal
  {
    var x := Named(s, p, handle);
    if x.Listener? && x.service < |s.services| && s.services[x.service].pending != [] {
      PendingHead(s, x.service);
    }
  }

  lemma AcceptObjects(s: Ipc, t: Ipc, v: nat)
    requires Inv(s) && v < |s.services| && s.services[v].pending != [] && s.services[v].active
    requires t.services == Pop(s, v).services
    requires var c := s.services[v].pending[0]; c < |s.conns| && t.conns == s.conns[c := s.conns[c].(accepted := true)]
    ensures ObjectsOk(t) && PendingOk(t) && Attached(t.conns) == Attached(s.conns)
    ensures var x := Endpoint(s.services[v].pending[0], Server);
      OwnsMore(s, t, s.services[v].owner, x) && !Owns(s, s.services[v].owner, x)
  {
    hide *;
    var c := s.services[v].pending[0];
    InvIs(s);
    PendingHead(s, v);
    AcceptedConn(s, t, v, c);
    PopPending(s, t, v);
    AttachedUpdate(s.conns, c, t.conns[c]);
    Cancel(Attached(t.conns), Attached(s.conns), AttachedTo(s.conns[c]));
    ObjectsSet(s, t, v, c);
  }

  lemma InvIs(s: Ipc)
    ensures Inv(s) <==> TablesOk(s) && Matched(s) && PendingOk(s) && ObjectsOk(s) && s.refs == Attached(s.conns)
  {
    hide TablesOk, Matched, PendingOk, ObjectsOk, Attached;
  }

  lemma AcceptedConn(s: Ipc, t: Ipc, v: nat, c: nat)
    requires ObjectsOk(s) && v < |s.services| && s.services[v].pending != [] && c < |s.conns|
    requires Waiting(s, c) && s.conns[c].serverOwner == s.services[v].owner
    requires t.services == Pop(s, v).services && t.conns == s.conns[c := s.conns[c].(accepted := true)]
    ensures !Waiting(t, c) && ConnOk(t.conns[c]) && AttachedTo(t.conns[c]) == AttachedTo(s.conns[c])
    ensures t.services == s.services[v := s.services[v].(pending := t.services[v].pending)]
    ensures |t.services| == |s.services| && |t.services[v].pending| <= PENDING
    ensures OwnsMore(s, t, s.services[v].owner, Endpoint(c, Server)) && !Owns(s, s.services[v].owner, Endpoint(c, Server))
  {
    assert ServiceOk(s.services[v]) && ConnOk(s.conns[c]);
  }

  lemma AcceptKeeps(s: Ipc, p: nat, handle: nat)
    requires Inv(s)
    ensures Inv(Accept(s, p, handle).ipc)
  {
    var r := Accept(s, p, handle);
    if r.result.Handle? {
      var v, i := Named(s, p, handle).service, FreeSlot(s.tables[p], 0);
      assert TableOk(s.tables[p]);
      AcceptObjects(s, r.ipc, v);
      hide ObjectsOk, PendingOk, Matched, Owns, OwnsMore, Attached;
      InstallMatches(s, r.ipc, p, i, s.tables[p][i].(target := Endpoint(s.services[v].pending[0], Server)));
    }
  }

  // ------------------------------------------------------------------ messages

  /** A longer or shorter queue on an open side changes nothing but the queue. */
  lemma QueueKeeps(s: Ipc, t: Ipc, c: nat, side: Side, q: seq<Message>)
    requires Inv(s) && c < |s.conns| && IsOpen(s.conns[c], side) && |q| <= MESSAGES
    requires t == s.(conns := s.conns[c := WithQueue(s.conns[c], side, q)], refs := t.refs)
    requires t.refs + InQueue(Queue(s.conns[c], side)) == s.refs + InQueue(q)
    ensures Inv(t)
  {
    hide *;
    InvIs(s);
    InvIs(t);
    AttachedUpdate(s.conns, c, t.conns[c]);
    QueuedConn(s, t, c, side, q);
    Balance(s.refs, t.refs, Attached(t.conns), AttachedTo(s.conns[c]), AttachedTo(t.conns[c]),
            InQueue(Queue(s.conns[c], side)), InQueue(q));
    SameMatches(s, t);
    SamePending(s, t);
  }

  lemma QueuedConn(s: Ipc, t: Ipc, c: nat, side: Side, q: seq<Message>)
    requires ObjectsOk(s) && c < |s.conns| && IsOpen(s.conns[c], side) && |q| <= MESSAGES
    requires t.services == s.services && t.conns == s.conns[c := WithQueue(s.conns[c], side, q)]
    ensures ObjectsOk(t) && OwnsSame(s, t)
    ensures forall d: nat :: Waiting(t, d) <==> Waiting(s, d)
    ensures |t.conns| == |s.conns| && forall d :: 0 <= d < |s.conns| ==> t.conns[d].serverOwner == s.conns[d].serverOwner
    ensures AttachedTo(t.conns[c]) + InQueue(Queue(s.conns[c], side)) == AttachedTo(s.conns[c]) + InQueue(q)
  {
    hide InQueue;
    assert ConnOk(s.conns[c]);
    assert forall d :: 0 <= d < |t.conns| && d != c ==> t.conns[d] == s.conns[d];
  }

  lemma SamePending(s: Ipc, t: Ipc)
    requires PendingOk(s) && t.services == s.services && (forall d: nat :: Waiting(t, d) <==> Waiting(s, d))
    requires |t.conns| == |s.conns|
    requires forall d :: 0 <= d < |s.conns| && Waiting(s, d) ==> t.conns[d].serverOwner == s.conns[d].serverOwner
    ensures PendingOk(t)
  {
    assert PendingOnce(t);
    forall d: nat | Waiting(t, d) ensures Queued(t, d) {
      assert Waiting(s, d) && Queued(s, d);
    }
    hide PendingOnce;
  }

  lemma SendKeeps(s: Ipc, p: nat, handle: nat, payload: seq<byte>, retain: Retain)
    requires Inv(s)
    ensures Inv(Send(s, p, handle, payload, retain).ipc)
  {
    var r := Send(s, p, handle, payload, retain);
    if r.result == Sent {
      var x := Named(s, p, handle);
      var q := Queue(s.conns[x.conn], Peer(x.side));
      var m := Message(payload, if retain.Retained? then Some(retain.buffer) else None);
      InQueueJoin(q, [m]);
      assert InQueue([m]) == if retain.Retained? then multiset{retain.buffer} else multiset{};
      hide Inv;
      QueueKeeps(s, r.ipc, x.conn, Peer(x.side), q + [m]);
    }
  }

  /** A retained message's reference is among those the kernel holds. */
  lemma QueueRetained(s: Ipc, c: nat, side: Side)
    requires Inv(s) && c < |s.conns|
    ensures InQueue(Queue(s.conns[c], side)) <= s.refs
  {
    AttachedUpdate(s.conns, c, s.conns[c]);
  }

  /** A queue that is received from belongs to an open side, so nothing is destroyed. */
  lemma ReceiveIs(s: Ipc, p: nat, handle: nat, capacity: nat, adoption: Adoption)
    requires Inv(s) && Receive(s, p, handle, capacity, adoption).result.Received?
    ensures var x := Named(s, p, handle);
      && x.Endpoint? && x.conn < |s.conns| && IsOpen(s.conns[x.conn], x.side)
      && var q := Queue(s.conns[x.conn], x.side);
      && 0 < |q| <= MESSAGES
      && Receive(s, p, handle, capacity, adoption).ipc
         == s.(conns := s.conns[x.conn := WithQueue(s.conns[x.conn], x.side, q[1..])], refs := s.refs - InQueue([q[0]]))
      && Receive(s, p, handle, capacity, adoption).result == Received(q[0].payload, q[0].attachment)
  {
    hide InQueue, TablesOk, Matched, PendingOk, Attached;
    var x := Named(s, p, handle);
    assert ConnOk(s.conns[x.conn]);
  }

  lemma ReceiveKeeps(s: Ipc, p: nat, handle: nat, capacity: nat, adoption: Adoption)
    requires Inv(s)
    ensures Inv(Receive(s, p, handle, capacity, adoption).ipc)
  {
    var r := Receive(s, p, handle, capacity, adoption);
    hide Inv, InQueue, Lookup, MaybeDestroy;
    if r.result.Received? {
      ReceiveIs(s, p, handle, capacity, adoption);
      var x := Named(s, p, handle);
      var q := Queue(s.conns[x.conn], x.side);
      assert q == [q[0]] + q[1..];
      InQueueJoin([q[0]], q[1..]);
      QueueRetained(s, x.conn, x.side);
      QueueKeeps(s, r.ipc, x.conn, x.side, q[1..]);
    }
  }

  // ------------------------------------------------------------------- closing

  /** The open side `side` of `c` is the same in `d`, with the same messages waiting. */
  predicate SideKept(c: Conn, d: Conn, side: Side) {
    && IsOpen(c, side) && IsOpen(d, side) && Owner(d, side) == Owner(c, side) && Queue(d, side) == Queue(c, side)
    && d.accepted == c.accepted
  }

  /** Closing an open side empties its queue, and frees the connection if the other side is closed. */
  lemma CloseSideIs(c: Conn, side: Side)
    requires ConnOk(c) && IsOpen(c, side)
    ensures var d := CloseSide(c, side);
      && ConnOk(d) && !IsOpen(d, side)
      && (if IsOpen(c, Peer(side)) then SideKept(c, d, Peer(side)) else d == NO_CONN)
      && AttachedTo(d) + Released(c, side) == AttachedTo(c) && Released(c, side) == InQueue(Queue(c, side))
      && (IsOpen(c, Peer(side)) ==> d.serverOwner == c.serverOwner)
  {}

  lemma CloseAtKeeps(s: Ipc, c: nat, side: Side)
    requires ObjectsOk(s) && s.refs == Attached(s.conns) && c < |s.conns| && IsOpen(s.conns[c], side)
    ensures var r := CloseAt(s, c, side);
      && ObjectsOk(r) && r.refs == Attached(r.conns)
  {
    hide *;
    ObjectsHas(s, c);
    CloseSideIs(s.conns[c], side);
    CloseAtIs(s, c, side);
    var r := CloseAt(s, c, side);
    AttachedUpdate(s.conns, c, CloseSide(s.conns[c], side));
    Balance(s.refs, r.refs, Attached(r.conns), AttachedTo(s.conns[c]), AttachedTo(r.conns[c]),
            Released(s.conns[c], side), multiset{});
    ConnSet(s, r, c);
  }

  lemma ObjectsHas(s: Ipc, c: nat)
    requires ObjectsOk(s) && c < |s.conns|
    ensures ConnOk(s.conns[c])
  {}

  lemma CloseAtIs(s: Ipc, c: nat, side: Side)
    requires c < |s.conns|
    ensures var r := CloseAt(s, c, side);
      && r == s.(conns := s.conns[c := CloseSide(s.conns[c], side)], refs := s.refs - Released(s.conns[c], side))
  {}

  lemma ConnSet(s: Ipc, t: Ipc, c: nat)
    requires ObjectsOk(s) && c < |s.conns| == |t.conns| && t.services == s.services
    requires t.conns == s.conns[c := t.conns[c]] && ConnOk(t.conns[c])
    ensures ObjectsOk(t)
  {
    hide ConnOk, ServiceOk;
  }

  // ---------------------------------------------------------------- unregister

  /** Turning one pending connection away costs nobody a handle. */
  lemma DismissKeeps(s: Ipc, v: nat)
    requires Inv(s) && v < |s.services| && s.services[v].active && s.services[v].pending != []
    ensures var t := Dismiss(s, v);
      && Inv(t) && OwnsSame(s, t) && t.tables == s.tables && t.alive == s.alive && |t.services| == |s.services|
      && t.services[v] == s.services[v].(pending := s.services[v].pending[1..])
      && t.services == s.services[v := t.services[v]]
  {
    hide *;
    var c := s.services[v].pending[0];
    var t := Dismiss(s, v);
    InvIs(s);
    InvIs(t);
    PendingHead(s, v);
    DismissIs(s, v);
    PopIs(s, v);
    ObjectsHas(s, c);
    CloseSideIs(s.conns[c], Server);
    CloseAtIs(Pop(s, v), c, Server);
    PopObjects(s, v);
    CloseAtKeeps(Pop(s, v), c, Server);
    DismissOwns(s, t, v, c);
    PopPending(s, t, v);
    SameMatches(s, t);
  }

  lemma DismissIs(s: Ipc, v: nat)
    requires v < |s.services| && s.services[v].pending != [] && Waiting(s, s.services[v].pending[0])
    requires s.conns[s.services[v].pending[0]].active
    ensures var c := s.services[v].pending[0];
      c < |s.conns| && IsOpen(s.conns[c], Server) && Dismiss(s, v) == CloseAt(Pop(s, v), c, Server)
  {}

  lemma PopIs(s: Ipc, v: nat)
    requires v < |s.services| && s.services[v].pending != []
    ensures Pop(s, v) == s.(services := s.services[v := s.services[v].(pending := s.services[v].pending[1..])])
  {}

  lemma PopObjects(s: Ipc, v: nat)
    requires ObjectsOk(s) && v < |s.services| && s.services[v].active && s.services[v].pending != []
    ensures ObjectsOk(Pop(s, v))
  {
    hide ConnOk, ValidName;
    assert forall w :: 0 <= w < |s.services| ==> ServiceOk(s.services[w]) && ServiceOk(Pop(s, v).services[w]);
  }

  lemma DismissOwns(s: Ipc, t: Ipc, v: nat, c: nat)
    requires v < |s.services| && s.services[v].pending != [] && t.services == Pop(s, v).services
    requires c < |s.conns| && Waiting(s, c) && ConnOk(s.conns[c])
    requires t.conns == s.conns[c := CloseSide(s.conns[c], Server)]
    ensures OwnsSame(s, t) && !Waiting(t, c)
  {
    CloseSideIs(s.conns[c], Server);
    hide CloseSide, AttachedTo, Released, InQueue;
    assert forall d :: 0 <= d < |s.conns| && d != c ==> t.conns[d] == s.conns[d];
  }

  /** unregister_service turns the pending connections away, then frees the slot of the service. */
  lemma {:induction false} UnregisterKeeps(s: Ipc, v: nat)
    requires Inv(s) && v < |s.services| && s.services[v].active
    ensures var r := Unregister(s, v);
      && ObjectsOk(r) && PendingOk(r) && r.refs == Attached(r.conns) && r.alive == s.alive && r.tables == s.tables
      && OwnsLess(s, r, s.services[v].owner, Listener(v))
    decreases |s.services[v].pending|
  {
    hide Inv, ObjectsOk, PendingOk, Attached, OwnsSame, OwnsLess, Dismiss;
    if s.services[v].pending == [] {
      ClearedService(s, Unregister(s, v), v);
    } else {
      DismissKeeps(s, v);
      UnregisterKeeps(Dismiss(s, v), v);
      OwnsChain(s, Dismiss(s, v), Unregister(s, v), s.services[v].owner, Listener(v));
    }
  }

  lemma OwnsChain(s: Ipc, t: Ipc, r: Ipc, p: nat, x: Target)
    requires OwnsSame(s, t) && OwnsLess(t, r, p, x)
    ensures OwnsLess(s, r, p, x)
  {
    hide Owns;
  }

  lemma ClearedService(s: Ipc, r: Ipc, v: nat)
    requires Inv(s) && v < |s.services| && s.services[v].active && s.services[v].pending == []
    requires r == s.(services := s.services[v := NO_SERVICE])
    ensures ObjectsOk(r) && PendingOk(r) && r.refs == Attached(r.conns)
    ensures OwnsLess(s, r, s.services[v].owner, Listener(v))
  {
    hide Attached, Matched, TablesOk, ConnOk, ValidName;
    assert forall w :: 0 <= w < |r.services| ==> ServiceOk(s.services[w]) && ServiceOk(r.services[w]);
    assert PendingSound(r) && PendingOnce(r);
    forall c: nat | Waiting(r, c) ensures Queued(r, c) {
      assert Waiting(s, c);
      var w :| 0 <= w < |s.services| && c in s.services[w].pending;
      assert c in r.services[w].pending;
    }
  }

  // -------------------------------------------------------------------- handles

  /** What an active slot names is owned by its process. */
  lemma SlotOwned(s: Ipc, p: nat, i: nat)
    requires Inv(s) && p in s.tables && i < |s.tables[p]| && s.tables[p][i].target != NoTarget
    ensures Owns(s, p, s.tables[p][i].target) && i < HANDLES && TableOk(s.tables[p])
  {
    assert Holds(s, p, s.tables[p][i].target);
  }

  /** Closing the side an endpoint handle names leaves it owned by nobody. */
  lemma CloseOwned(s: Ipc, p: nat, c: nat, side: Side)
    requires Inv(s) && Owns(s, p, Endpoint(c, side))
    ensures c < |s.conns| && IsOpen(s.conns[c], side)
    ensures var r := CloseAt(s, c, side);
      ObjectsOk(r) && PendingOk(r) && r.refs == Attached(r.conns) && OwnsLess(s, r, p, Endpoint(c, side))
  {
    hide *;
    OwnedSide(s, p, c, side);
    var r := CloseAt(s, c, side);
    InvIs(s);
    ObjectsHas(s, c);
    CloseAtKeeps(s, c, side);
    CloseSideIs(s.conns[c], side);
    CloseAtIs(s, c, side);
    ClosedOwns(s, r, p, c, side);
    SamePending(s, r);
  }

  lemma OwnedSide(s: Ipc, p: nat, c: nat, side: Side)
    requires Owns(s, p, Endpoint(c, side))
    ensures c < |s.conns| && IsOpen(s.conns[c], side) && Owner(s.conns[c], side) == p
    ensures side == Server ==> s.conns[c].accepted
  {}

  lemma ClosedOwns(s: Ipc, t: Ipc, p: nat, c: nat, side: Side)
    requires c < |s.conns| == |t.conns| && IsOpen(s.conns[c], side) && Owner(s.conns[c], side) == p
    requires side == Server ==> s.conns[c].accepted
    requires t.services == s.services && t.conns == s.conns[c := t.conns[c]] && !IsOpen(t.conns[c], side)
    requires if IsOpen(s.conns[c], Peer(side)) then SideKept(s.conns[c], t.conns[c], Peer(side)) else t.conns[c] == NO_CONN
    requires IsOpen(s.conns[c], Peer(side)) ==> t.conns[c].serverOwner == s.conns[c].serverOwner
    ensures OwnsLess(s, t, p, Endpoint(c, side))
    ensures forall d: nat :: Waiting(t, d) <==> Waiting(s, d)
    ensures forall d :: 0 <= d < |s.conns| && Waiting(s, d) ==> t.conns[d].serverOwner == s.conns[d].serverOwner
  {
    assert forall d :: 0 <= d < |s.conns| && d != c ==> t.conns[d] == s.conns[d];
  }

  lemma CloseSlotKeeps(s: Ipc, p: nat, i: nat)
    requires Inv(s) && p in s.tables && i < |s.tables[p]|
    ensures var r := CloseSlot(s, p, i);
      && Inv(r) && r.alive == s.alive
      && r.tables[p][i].target == NoTarget && forall j :: 0 <= j < |s.tables[p]| && j != i ==> r.tables[p][j] == s.tables[p][j]
  {
    hide *;
    var x := s.tables[p][i].target;
    CloseSlotIs(s, p, i);
    if x != NoTarget {
      SlotOwned(s, p, i);
      InvIs(s);
      InvIs(CloseSlot(s, p, i));
      SlotClosed(s, p, i);
      RetireMatches(s, CloseSlot(s, p, i), p, i, CloseSlot(s, p, i).tables[p][i]);
    }
  }

  lemma CloseSlotIs(s: Ipc, p: nat, i: nat)
    requires p in s.tables && i < |s.tables[p]|
    ensures var r := CloseSlot(s, p, i);
      && (s.tables[p][i].target == NoTarget ==> r == s)
      && (s.tables[p][i].target != NoTarget ==>
            r.tables == s.tables[p := s.tables[p][i := Entry(NextGeneration(s.tables[p][i].generation), NoTarget)]])
      && 1 <= NextGeneration(s.tables[p][i].generation) <= GENERATION_MAX
  {
    hide Unregister, CloseSide, Released;
  }

  /** What closing does to the objects, before the slot is retired. */
  lemma SlotClosed(s: Ipc, p: nat, i: nat)
    requires Inv(s) && p in s.tables && i < |s.tables[p]| && s.tables[p][i].target != NoTarget
    requires Owns(s, p, s.tables[p][i].target)
    ensures var r := CloseSlot(s, p, i);
      && ObjectsOk(r) && PendingOk(r) && r.refs == Attached(r.conns) && r.alive == s.alive
      && OwnsLess(s, r, p, s.tables[p][i].target)
  {
    var x := s.tables[p][i].target;
    var u := if x.Listener? then Unregister(s, x.service) else CloseAt(s, x.conn, x.side);
    hide Attached, Matched, TablesOk, OwnsLess, PendingOk, ObjectsOk, Unregister, CloseSide, Released;
    if x.Listener? {
      UnregisterKeeps(s, x.service);
    } else {
      CloseOwned(s, p, x.conn, x.side);
    }
    RetiredObjects(s, u, CloseSlot(s, p, i), p, x);
  }

  lemma RetiredObjects(s: Ipc, t: Ipc, r: Ipc, p: nat, x: Target)
    requires ObjectsOk(t) && PendingOk(t) && OwnsLess(s, t, p, x) && r.services == t.services && r.conns == t.conns
    ensures ObjectsOk(r) && PendingOk(r) && OwnsLess(s, r, p, x)
  {
    SamePending(t, r);
    SameObjects(t, r);
    hide ObjectsOk, PendingOk;
    forall q: nat, y: Target ensures Owns(r, q, y) <==> Owns(s, q, y) && !(q == p && y == x) {
      OwnsObjects(t, r, q, y);
      assert Owns(t, q, y) <==> Owns(s, q, y) && !(q == p && y == x);
    }
  }

  lemma CloseKeeps(s: Ipc, p: nat, handle: nat)
    requires Inv(s)
    ensures Inv(Close(s, p, handle).ipc) && Close(s, p, handle).result != Internal
  {
    if Caller(s, p) && Lookup(s, p, handle).Some? {
      var i := Lookup(s, p, handle).value;
      SlotOwned(s, p, i);
      CloseSlotKeeps(s, p, i);
    }
  }

  lemma {:induction false} CloseFromKeeps(s: Ipc, p: nat, i: nat)
    requires Inv(s) && p in s.tables && i <= |s.tables[p]|
    requires forall j :: 0 <= j < i ==> s.tables[p][j].target == NoTarget
    ensures var r := CloseFrom(s, p, i);
      Inv(r) && r.alive == s.alive && forall j :: 0 <= j < |r.tables[p]| ==> r.tables[p][j].target == NoTarget
    decreases |s.tables[p]| - i
  {
    hide Inv, CloseSlot;
    if i < |s.tables[p]| {
      CloseSlotKeeps(s, p, i);
      CloseFromKeeps(CloseSlot(s, p, i), p, i + 1);
    }
  }

  lemma CleanupKeeps(s: Ipc, p: nat)
    requires Inv(s)
    ensures Inv(Cleanup(s, p)) && Cleanup(s, p).alive == s.alive
    ensures Caller(s, p) ==> p !in Cleanup(s, p).tables
  {
    if Caller(s, p) && p in s.tables {
      CloseFromKeeps(s, p, 0);
      var t := CloseFrom(s, p, 0);
      hide CloseFrom, Attached;
      DropTable(t, t.(tables := t.tables - {p}), p);
    }
  }

  /** A table without handles can be dropped. */
  lemma DropTable(s: Ipc, t: Ipc, p: nat)
    requires Inv(s) && p in s.tables && forall j :: 0 <= j < |s.tables[p]| ==> s.tables[p][j].target == NoTarget
    requires t == s.(tables := s.tables - {p})
    ensures Inv(t)
  {
    hide ObjectsOk, Attached, PendingSound, PendingOnce, Owns, TableOk;
    forall q: nat, y: Target | y != NoTarget ensures Holds(t, q, y) <==> Owns(t, q, y) {
      assert Holds(s, q, y) <==> Owns(s, q, y);
      OwnsObjects(s, t, q, y);
    }
    SamePending(s, t);
    SameObjects(s, t);
  }

  lemma OwnsObjects(s: Ipc, t: Ipc, q: nat, y: Target)
    requires t.services == s.services && t.conns == s.conns
    ensures Owns(t, q, y) <==> Owns(s, q, y)
  {}

  lemma SameObjects(s: Ipc, t: Ipc)
    requires ObjectsOk(s) && t.services == s.services && t.conns == s.conns
    ensures ObjectsOk(t)
  {}

  // ---------------------------------------------------------------------- runs

  lemma StepKeeps(s: Ipc, call: Call)
    requires Inv(s)
    ensures Inv(Step(s, call).ipc)
  {
    hide *;
    StepIs(s, call);
    CallersAlive(s);
    match call
    case RegisterCall(p, name, memory) => RegisterKeeps(s, p, name, memory);
    case ConnectCall(p, name, memory) => ConnectKeeps(s, p, name, memory);
    case AcceptCall(p, handle) => AcceptKeeps(s, p, handle);
    case SendCall(p, handle, payload, retain) => SendKeeps(s, p, handle, payload, retain);
    case ReceiveCall(p, handle, capacity, adoption) => ReceiveKeeps(s, p, handle, capacity, adoption);
    case CloseCall(p, handle) => CloseKeeps(s, p, handle);
    case CleanupCall(p) => CleanupKeeps(s, p);
    case SpawnCall(p) => AliveKeeps(s, s.alive + {p});
    case DieCall(p) =>
      if p !in s.tables {
        AliveKeeps(s, s.alive - {p});
      }
  }

  lemma StepIs(s: Ipc, call: Call)
    ensures Step(s, call) ==
      match call
      case RegisterCall(p, name, memory) => Register(s, p, name, memory)
      case ConnectCall(p, name, memory) => Connect(s, p, name, memory)
      case AcceptCall(p, handle) => Accept(s, p, handle)
      case SendCall(p, handle, payload, retain) => Send(s, p, handle, payload, retain)
      case ReceiveCall(p, handle, capacity, adoption) => Receive(s, p, handle, capacity, adoption)
      case CloseCall(p, handle) => Close(s, p, handle)
      case CleanupCall(p) => Outcome(Cleanup(s, p), Closed)
      case SpawnCall(p) => Outcome(s.(alive := s.alive + {p}), Closed)
      case DieCall(p) => Outcome(if p in s.tables then s else s.(alive := s.alive - {p}), Closed)
  {}

  lemma CallersAlive(s: Ipc)
    requires Inv(s)
    ensures forall p :: p in s.tables ==> p in s.alive && p != BOOTSTRAP_PID
  {}

  lemma AliveKeeps(s: Ipc, alive: set<nat>)
    requires Inv(s) && forall p :: p in s.tables ==> p in alive && p != BOOTSTRAP_PID
    ensures Inv(s.(alive := alive))
  {
    var t := s.(alive := alive);
    hide ObjectsOk, Attached, PendingSound, PendingOnce, TableOk, Owns, Has;
    forall q: nat, y: Target | y != NoTarget ensures Holds(t, q, y) <==> Owns(t, q, y) {
      assert Holds(s, q, y) <==> Owns(s, q, y);
      OwnsObjects(s, t, q, y);
    }
    SamePending(s, t);
    SameObjects(s, t);
  }

  /** From initialisation on, whatever is called, everything corresponds. */
  lemma {:induction false} RunKeeps(s: Ipc, calls: seq<Call>)
    requires Inv(s)
    ensures Inv(Run(s, calls))
    decreases |calls|
  {
    if calls != [] {
      StepKeeps(s, calls[0]);
      RunKeeps(Step(s, calls[0]).ipc, calls[1..]);
    }
  }

  lemma {:induction false} NothingAttached(cs: seq<Conn>)
    requires forall c :: 0 <= c < |cs| ==> cs[c] == NO_CONN
    ensures Attached(cs) == multiset{}
  {
    if cs != [] {
      NothingAttached(cs[..|cs| - 1]);
    }
  }

  lemma InitialInv()
    ensures Inv(Initial())
  {
    NothingAttached(Initial().conns);
  }

  // -------------------------------------------------------- what others rely on

  /** Every side open after is open before, with the same owner and the same messages waiting. */
  ghost predicate Shrinks(s: Ipc, r: Ipc) {
    |r.conns| == |s.conns| && forall c, side :: 0 <= c < |s.conns| && IsOpen(r.conns[c], side) ==> SideKept(s.conns[c], r.conns[c], side)
  }

  /** What belongs to processes other than `p` is untouched. */
  ghost predicate OthersKept(s: Ipc, r: Ipc, p: nat) {
    && |r.conns| == |s.conns| && |r.services| == |s.services|
    && (forall q :: q != p && q in s.tables ==> q in r.tables && r.tables[q] == s.tables[q])
    && (forall v :: 0 <= v < |s.services| && s.services[v].owner != p ==> r.services[v] == s.services[v])
    && forall c, side :: 0 <= c < |s.conns| && IsOpen(s.conns[c], side) && Owner(s.conns[c], side) != p ==>
                           SideKept(s.conns[c], r.conns[c], side)
  }

  lemma CloseAtOthers(s: Ipc, c: nat, side: Side)
    requires c < |s.conns| && ConnOk(s.conns[c]) && IsOpen(s.conns[c], side)
    ensures Shrinks(s, CloseAt(s, c, side)) && OthersKept(s, CloseAt(s, c, side), Owner(s.conns[c], side))
  {
    var r := CloseAt(s, c, side);
    hide IsOpen, CloseSide, SideKept, Released, Owner, ConnOk;
    forall d, e | 0 <= d < |s.conns| && IsOpen(r.conns[d], e) ensures SideKept(s.conns[d], r.conns[d], e) {
      ClosedSide(s.conns[c], side, e);
      KeptSelf(s.conns[d], e);
    }
    forall d, e | 0 <= d < |s.conns| && IsOpen(s.conns[d], e) && Owner(s.conns[d], e) != Owner(s.conns[c], side)
      ensures SideKept(s.conns[d], r.conns[d], e)
    {
      ClosedSide(s.conns[c], side, e);
      KeptSelf(s.conns[d], e);
    }
  }

  lemma KeptSelf(c: Conn, side: Side)
    ensures IsOpen(c, side) ==> SideKept(c, c, side)
  {}

  lemma ClosedSide(c: Conn, side: Side, e: Side)
    requires ConnOk(c) && IsOpen(c, side)
    ensures var d := CloseSide(c, side);
      && (IsOpen(d, e) ==> SideKept(c, d, e))
      && (IsOpen(c, e) && e != side ==> SideKept(c, d, e))
  {
    CloseSideIs(c, side);
  }

  lemma OthersChain(s: Ipc, t: Ipc, r: Ipc, p: nat)
    requires OthersKept(s, t, p) && OthersKept(t, r, p) && Shrinks(s, t) && Shrinks(t, r)
    ensures OthersKept(s, r, p) && Shrinks(s, r)
  {
    forall c, side | 0 <= c < |s.conns| && IsOpen(s.conns[c], side) && Owner(s.conns[c], side) != p
      ensures SideKept(s.conns[c], r.conns[c], side)
    {
      assert SideKept(s.conns[c], t.conns[c], side) && SideKept(t.conns[c], r.conns[c], side);
    }
    forall c, side | 0 <= c < |s.conns| && IsOpen(r.conns[c], side) ensures SideKept(s.conns[c], r.conns[c], side) {
      assert SideKept(t.conns[c], r.conns[c], side) && SideKept(s.conns[c], t.conns[c], side);
    }
  }

  lemma DismissOthers(s: Ipc, v: nat)
    requires Inv(s) && v < |s.services| && s.services[v].pending != []
    ensures Shrinks(s, Dismiss(s, v)) && OthersKept(s, Dismiss(s, v), s.services[v].owner)
  {
    hide *;
    PendingHead(s, v);
    DismissIs(s, v);
    InvIs(s);
    ObjectsHas(s, s.services[v].pending[0]);
    PopOthers(s, v);
    CloseAtOthers(Pop(s, v), s.services[v].pending[0], Server);
    OwnerServer(s.conns[s.services[v].pending[0]]);
    OthersChain(s, Pop(s, v), Dismiss(s, v), s.services[v].owner);
  }

  lemma OwnerServer(c: Conn)
    ensures Owner(c, Server) == c.serverOwner
  {}

  lemma PopOthers(s: Ipc, v: nat)
    requires v < |s.services| && s.services[v].pending != []
    ensures Pop(s, v).conns == s.conns
    ensures Shrinks(s, Pop(s, v)) && OthersKept(s, Pop(s, v), s.services[v].owner)
  {}

  lemma {:induction false} UnregisterOthers(s: Ipc, v: nat)
    requires Inv(s) && v < |s.services|
    ensures Shrinks(s, Unregister(s, v)) && OthersKept(s, Unregister(s, v), s.services[v].owner)
    decreases |s.services[v].pending|
  {
    if s.services[v].active && s.services[v].pending != [] {
      DismissKeeps(s, v);
      DismissOthers(s, v);
      UnregisterOthers(Dismiss(s, v), v);
      hide Inv, Shrinks, OthersKept, Dismiss;
      OthersChain(s, Dismiss(s, v), Unregister(s, v), s.services[v].owner);
    }
  }

  lemma CloseSlotOthers(s: Ipc, p: nat, i: nat)
    requires Inv(s) && p in s.tables && i < |s.tables[p]|
    ensures Shrinks(s, CloseSlot(s, p, i)) && OthersKept(s, CloseSlot(s, p, i), p)
  {
    hide *;
    var x := s.tables[p][i].target;
    CloseSlotIs(s, p, i);
    KeptAll(s, p);
    if x != NoTarget {
      SlotOwned(s, p, i);
      InvIs(s);
      match x {
        case Listener(v) =>
          ListenerIs(s, p, v);
          UnregisterOthers(s, v);
          SlotRetired(s, Unregister(s, v), p, i);
        case Endpoint(c, side) =>
          OwnedSide(s, p, c, side);
          ObjectsHas(s, c);
          CloseAtOthers(s, c, side);
          SlotRetired(s, CloseAt(s, c, side), p, i);
      }
    }
  }

  lemma ListenerIs(s: Ipc, p: nat, v: nat)
    requires Owns(s, p, Listener(v))
    ensures v < |s.services| && s.services[v].active && s.services[v].owner == p
  {}

  lemma KeptAll(s: Ipc, p: nat)
    ensures Shrinks(s, s) && OthersKept(s, s, p)
  {}

  /** Retiring the slot itself concerns only `p`. */
  lemma SlotRetired(s: Ipc, t: Ipc, p: nat, i: nat)
    requires p in s.tables && i < |s.tables[p]| && Shrinks(s, t) && OthersKept(s, t, p)
    requires var x := s.tables[p][i].target;
      || (x.Listener? && x.service < |s.services| && t == Unregister(s, x.service))
      || (x.Endpoint? && x.conn < |s.conns| && t == CloseAt(s, x.conn, x.side))
    ensures Shrinks(s, CloseSlot(s, p, i)) && OthersKept(s, CloseSlot(s, p, i), p)
  {
    hide CloseSide, Released, SideKept, Unregister;
  }

  lemma {:induction false} CloseFromOthers(s: Ipc, p: nat, i: nat)
    requires Inv(s) && p in s.tables && i <= |s.tables[p]|
    ensures Shrinks(s, CloseFrom(s, p, i)) && OthersKept(s, CloseFrom(s, p, i), p)
    decreases |s.tables[p]| - i
  {
    if i < |s.tables[p]| {
      CloseSlotKeeps(s, p, i);
      CloseSlotOthers(s, p, i);
      CloseFromOthers(CloseSlot(s, p, i), p, i + 1);
      hide Inv, Shrinks, OthersKept, CloseSlot;
      OthersChain(s, CloseSlot(s, p, i), CloseFrom(s, p, i), p);
    }
  }

  lemma CleanupOthers(s: Ipc, p: nat)
    requires Inv(s)
    ensures Shrinks(s, Cleanup(s, p)) && OthersKept(s, Cleanup(s, p), p)
  {
    if Caller(s, p) && p in s.tables {
      CloseFromOthers(s, p, 0);
      hide CloseFrom, Inv;
    }
  }

  /** Process `p` owns nothing: no handle, no service, no open side, no pending server side. */
  ghost predicate Gone(s: Ipc, p: nat) {
    && p !in s.tables
    && (forall v :: 0 <= v < |s.services| && s.services[v].active ==> s.services[v].owner != p)
    && (forall c, side :: 0 <= c < |s.conns| && IsOpen(s.conns[c], side) ==> Owner(s.conns[c], side) != p)
    && forall v, k :: 0 <= v < |s.services| && 0 <= k < |s.services[v].pending| ==>
                        s.services[v].pending[k] < |s.conns| && s.conns[s.services[v].pending[k]].serverOwner != p
  }

  lemma Tableless(s: Ipc, p: nat)
    requires Inv(s) && p !in s.tables
    ensures Gone(s, p)
  {
    assert forall x: Target :: !Holds(s, p, x);
    assert forall x: Target :: x != NoTarget ==> !Owns(s, p, x);
    forall v | 0 <= v < |s.services| && s.services[v].active ensures s.services[v].owner != p {
      assert !Owns(s, p, Listener(v));
    }
    forall v, k | 0 <= v < |s.services| && 0 <= k < |s.services[v].pending|
      ensures s.services[v].pending[k] < |s.conns| && s.conns[s.services[v].pending[k]].serverOwner != p
    {
      assert ServiceOk(s.services[v]);
    }
    forall c, side | 0 <= c < |s.conns| && IsOpen(s.conns[c], side) ensures Owner(s.conns[c], side) != p {
      assert !Owns(s, p, Endpoint(c, side));
      if side == Server && !s.conns[c].accepted {
        assert Waiting(s, c) && Queued(s, c);
        var v :| 0 <= v < |s.services| && c in s.services[v].pending;
        var k :| 0 <= k < |s.services[v].pending| && s.services[v].pending[k] == c;
      }
    }
  }

  /**
   Cleaning a process up leaves nothing of it behind, whatever the order of its handles and
   even if it is connected to itself, and takes nothing from anybody else.
   */
  lemma CleanupExact(s: Ipc, p: nat)
    requires Inv(s) && Caller(s, p)
    ensures var r := Cleanup(s, p);
      Inv(r) && Gone(r, p) && OthersKept(s, r, p) && Shrinks(s, r)
  {
    hide *;
    CleanupKeeps(s, p);
    CleanupOthers(s, p);
    Tableless(Cleanup(s, p), p);
  }

  // ------------------------------------------------------------------ delivery

  /** What `call` puts on the queue of messages to side `side` of connection `c`. */
  ghost function SentBy(s: Ipc, call: Call, c: nat, side: Side): seq<Message> {
    if call.SendCall? && Step(s, call).result == Sent && Named(s, call.pid, call.handle) == Endpoint(c, Peer(side))
    then [Message(call.payload, if call.retain.Retained? then Some(call.retain.buffer) else None)] else []
  }

  /** What `call` hands to a process reading from side `side` of connection `c`. */
  ghost function ReceivedBy(s: Ipc, call: Call, c: nat, side: Side): seq<Message> {
    if call.ReceiveCall? && Step(s, call).result.Received? && Named(s, call.pid, call.handle) == Endpoint(c, side)
    then [Message(Step(s, call).result.payload, Step(s, call).result.buffer)] else []
  }

  ghost function AllSent(s: Ipc, calls: seq<Call>, c: nat, side: Side): seq<Message>
    decreases |calls|
  {
    if calls == [] then [] else SentBy(s, calls[0], c, side) + AllSent(Step(s, calls[0]).ipc, calls[1..], c, side)
  }

  ghost function AllReceived(s: Ipc, calls: seq<Call>, c: nat, side: Side): seq<Message>
    decreases |calls|
  {
    if calls == [] then [] else ReceivedBy(s, calls[0], c, side) + AllReceived(Step(s, calls[0]).ipc, calls[1..], c, side)
  }

  ghost predicate OpenAt(s: Ipc, c: nat, side: Side) {
    c < |s.conns| && IsOpen(s.conns[c], side)
  }

  ghost predicate StaysOpen(s: Ipc, calls: seq<Call>, c: nat, side: Side)
    decreases |calls|
  {
    OpenAt(s, c, side) && (calls == [] || StaysOpen(Step(s, calls[0]).ipc, calls[1..], c, side))
  }

  /** The call leaves the messages waiting on an open side alone. */
  ghost predicate LeavesQueue(s: Ipc, r: Ipc, c: nat, side: Side) {
    OpenAt(s, c, side) && OpenAt(r, c, side) ==> Queue(r.conns[c], side) == Queue(s.conns[c], side)
  }

  lemma ShrinksLeaves(s: Ipc, r: Ipc, c: nat, side: Side)
    requires Shrinks(s, r)
    ensures LeavesQueue(s, r, c, side)
  {
    assert OpenAt(s, c, side) && OpenAt(r, c, side) ==> SideKept(s.conns[c], r.conns[c], side);
  }

  lemma RegisterLeaves(s: Ipc, p: nat, name: string, memory: bool, c: nat, side: Side)
    requires Inv(s)
    ensures LeavesQueue(s, Register(s, p, name, memory).ipc, c, side)
  {}

  lemma ConnectLeaves(s: Ipc, p: nat, name: string, memory: bool, c: nat, side: Side)
    requires Inv(s)
    ensures LeavesQueue(s, Connect(s, p, name, memory).ipc, c, side)
  {
    var d := FreeConn(s.conns, 0);
    if d < |s.conns| {
      assert ConnOk(s.conns[d]);
    }
    hide Attached, TablesOk, Matched, PendingOk;
  }

  lemma AcceptLeaves(s: Ipc, p: nat, handle: nat, c: nat, side: Side)
    ensures LeavesQueue(s, Accept(s, p, handle).ipc, c, side)
  {}

  lemma CloseLeaves(s: Ipc, p: nat, handle: nat, c: nat, side: Side)
    requires Inv(s)
    ensures LeavesQueue(s, Close(s, p, handle).ipc, c, side)
  {
    if Caller(s, p) && Lookup(s, p, handle).Some? {
      CloseSlotOthers(s, p, Lookup(s, p, handle).value);
      ShrinksLeaves(s, CloseSlot(s, p, Lookup(s, p, handle).value), c, side);
    }
    hide Inv, CloseSlot;
  }

  lemma SendDelivers(s: Ipc, p: nat, handle: nat, payload: seq<byte>, retain: Retain, c: nat, side: Side)
    requires OpenAt(s, c, side)
    ensures var call := SendCall(p, handle, payload, retain);
      var r := Send(s, p, handle, payload, retain).ipc;
      OpenAt(r, c, side) && Queue(s.conns[c], side) + SentBy(s, call, c, side) == Queue(r.conns[c], side)
  {
    hide Lookup;
  }

  lemma ReceiveDelivers(s: Ipc, p: nat, handle: nat, capacity: nat, adoption: Adoption, c: nat, side: Side)
    requires Inv(s) && OpenAt(s, c, side)
    ensures var call := ReceiveCall(p, handle, capacity, adoption);
      var r := Receive(s, p, handle, capacity, adoption).ipc;
      OpenAt(r, c, side) && Queue(s.conns[c], side) == ReceivedBy(s, call, c, side) + Queue(r.conns[c], side)
  {
    hide *;
    var r := Receive(s, p, handle, capacity, adoption);
    RefusedReceive(s, p, handle, capacity, adoption);
    OpenIs(s, c, side);
    OpenIs(r.ipc, c, side);
    if r.result.Received? {
      ReceiveIs(s, p, handle, capacity, adoption);
      var x := Named(s, p, handle);
      QueueTaken(s, r.ipc, x.conn, x.side, c, side);
    }
    ReceivedIs(s, p, handle, capacity, adoption, c, side);
  }

  lemma ReceivedIs(s: Ipc, p: nat, handle: nat, capacity: nat, adoption: Adoption, c: nat, side: Side)
    ensures var r := Receive(s, p, handle, capacity, adoption).result;
      ReceivedBy(s, ReceiveCall(p, handle, capacity, adoption), c, side)
      == if r.Received? && Named(s, p, handle) == Endpoint(c, side) then [Message(r.payload, r.buffer)] else []
  {}

  lemma QueueTaken(s: Ipc, r: Ipc, d: nat, e: Side, c: nat, side: Side)
    requires d < |s.conns| && IsOpen(s.conns[d], e) && OpenAt(s, c, side)
    requires var q := Queue(s.conns[d], e); 0 < |q| && r.conns == s.conns[d := WithQueue(s.conns[d], e, q[1..])]
    ensures OpenAt(r, c, side)
    ensures Queue(r.conns[c], side) == if d == c && e == side then Queue(s.conns[c], side)[1..] else Queue(s.conns[c], side)
  {}

  lemma StepDelivers(s: Ipc, call: Call, c: nat, side: Side)
    requires Inv(s) && OpenAt(s, c, side) && OpenAt(Step(s, call).ipc, c, side)
    ensures Queue(s.conns[c], side) + SentBy(s, call, c, side)
         == ReceivedBy(s, call, c, side) + Queue(Step(s, call).ipc.conns[c], side)
  {
    hide *;
    StepIs(s, call);
    NothingMoved(s, call, c, side);
    LeavesIs(s, Step(s, call).ipc, c, side);
    OpenIs(s, c, side);
    match call
    case RegisterCall(p, name, memory) => RegisterLeaves(s, p, name, memory, c, side);
    case ConnectCall(p, name, memory) => ConnectLeaves(s, p, name, memory, c, side);
    case AcceptCall(p, handle) => AcceptLeaves(s, p, handle, c, side);
    case SendCall(p, handle, payload, retain) => SendDelivers(s, p, handle, payload, retain, c, side);
    case ReceiveCall(p, handle, capacity, adoption) => ReceiveDelivers(s, p, handle, capacity, adoption, c, side);
    case CloseCall(p, handle) => CloseLeaves(s, p, handle, c, side);
    case CleanupCall(p) =>
      CleanupOthers(s, p);
      ShrinksLeaves(s, Cleanup(s, p), c, side);
    case _ =>
  }

  lemma OpenIs(s: Ipc, c: nat, side: Side)
    ensures OpenAt(s, c, side) ==> c < |s.conns| && IsOpen(s.conns[c], side)
  {}

  lemma LeavesIs(s: Ipc, r: Ipc, c: nat, side: Side)
    ensures LeavesQueue(s, r, c, side) && OpenAt(s, c, side) && OpenAt(r, c, side) ==>
              c < |s.conns| && c < |r.conns| && Queue(r.conns[c], side) == Queue(s.conns[c], side)
  {}

  lemma NothingMoved(s: Ipc, call: Call, c: nat, side: Side)
    ensures !call.SendCall? ==> SentBy(s, call, c, side) == []
    ensures !call.ReceiveCall? ==> ReceivedBy(s, call, c, side) == []
  {}

  /**
   First in, first out, exactly once. While a side stays open, what was waiting for it and what
   is sent to it is, in order, what is received from it and what is left waiting.
   */
  lemma {:induction false} RunDelivers(s: Ipc, calls: seq<Call>, c: nat, side: Side)
    requires Inv(s) && StaysOpen(s, calls, c, side)
    ensures OpenAt(Run(s, calls), c, side)
    ensures Queue(s.conns[c], side) + AllSent(s, calls, c, side)
         == AllReceived(s, calls, c, side) + Queue(Run(s, calls).conns[c], side)
    decreases |calls|
  {
    if calls != [] {
      var r := Step(s, calls[0]).ipc;
      hide Step, Inv, SentBy, ReceivedBy, Queue;
      StepDelivers(s, calls[0], c, side);
      StepKeeps(s, calls[0]);
      RunDelivers(r, calls[1..], c, side);
      Reassociate(Queue(s.conns[c], side), SentBy(s, calls[0], c, side), ReceivedBy(s, calls[0], c, side),
                  Queue(r.conns[c], side), AllSent(r, calls[1..], c, side), AllReceived(r, calls[1..], c, side),
                  Queue(Run(r, calls[1..]).conns[c], side));
    }
  }

  /** A receive that delivers nothing changes nothing. */
  lemma RefusedReceive(s: Ipc, p: nat, handle: nat, capacity: nat, adoption: Adoption)
    ensures var r := Receive(s, p, handle, capacity, adoption);
      !r.result.Received? ==> r.ipc == s
  {}

  /** A receiver is told that its peer is gone only once everything the peer sent was received. */
  lemma PeerClosedMeansDrained(s: Ipc, calls: seq<Call>, p: nat, handle: nat, capacity: nat, adoption: Adoption, c: nat, side: Side)
    requires Inv(s) && StaysOpen(s, calls, c, side)
    requires Named(Run(s, calls), p, handle) == Endpoint(c, side)
    requires Receive(Run(s, calls), p, handle, capacity, adoption).result == PeerClosed
    ensures Queue(s.conns[c], side) + AllSent(s, calls, c, side) == AllReceived(s, calls, c, side)
    ensures !IsOpen(Run(s, calls).conns[c], Peer(side))
  {
    RunDelivers(s, calls, c, side);
    hide Run, AllSent, AllReceived, Inv, Lookup, StaysOpen;
  }

  // ------------------------------------------------------------- stale handles

  lemma DecodeEncode(slot: nat, generation: nat)
    requires slot < HANDLES && 1 <= generation
    ensures Decode(Encode(slot, generation)) == Some((slot, generation))
  {}

  /** How many times a slot must be retired for its generation to go from `g` to `h`. */
  function Gap(g: nat, h: nat): int {
    if g <= h then h - g else h + GENERATION_MAX - g
  }

  lemma NextGap(g: nat, h: nat)
    requires 1 <= g <= GENERATION_MAX && 1 <= h <= GENERATION_MAX
    ensures Gap(g, h) + 1 < GENERATION_MAX ==> Gap(g, NextGeneration(h)) == Gap(g, h) + 1
    ensures 0 <= Gap(g, h) < GENERATION_MAX && (Gap(g, h) == 0 <==> g == h)
  {}

  /** A call retires a slot at most once, unless it cleans its process up. */
  lemma StepGeneration(s: Ipc, call: Call, p: nat, i: nat)
    requires Inv(s) && p in s.tables && i < |s.tables[p]| && call != CleanupCall(p)
    ensures var r := Step(s, call).ipc;
      && p in r.tables && |r.tables[p]| == |s.tables[p]|
      && (r.tables[p][i].generation == s.tables[p][i].generation
          || r.tables[p][i].generation == NextGeneration(s.tables[p][i].generation))
  {
    hide Lookup, Close, Cleanup, Inv;
    if call.CleanupCall? {
      CleanupGeneration(s, call.pid, p, i);
    } else if call.CloseCall? {
      CloseGeneration(s, call.pid, call.handle, p, i);
    }
  }

  lemma CleanupGeneration(s: Ipc, other: nat, p: nat, i: nat)
    requires Inv(s) && p in s.tables && i < |s.tables[p]| && other != p
    ensures var r := Cleanup(s, other); p in r.tables && r.tables[p] == s.tables[p]
  {
    CleanupOthers(s, other);
  }

  lemma CloseGeneration(s: Ipc, q: nat, handle: nat, p: nat, i: nat)
    requires p in s.tables && i < |s.tables[p]|
    ensures var r := Close(s, q, handle).ipc;
      && p in r.tables && |r.tables[p]| == |s.tables[p]|
      && (r.tables[p][i].generation == s.tables[p][i].generation
          || r.tables[p][i].generation == NextGeneration(s.tables[p][i].generation))
  {
    if Lookup(s, q, handle).Some? {
      CloseSlotIs(s, q, Lookup(s, q, handle).value);
    }
    hide CloseSlot, NextGeneration;
  }

  /**
   A handle that has been closed never resolves again for that process: a slot would first
   have to be retired as often as there are generations.
   */
  lemma {:induction false} StaleForever(s: Ipc, calls: seq<Call>, p: nat, i: nat, g: nat)
    requires Inv(s) && p in s.tables && i < HANDLES && 1 <= g <= GENERATION_MAX && CleanupCall(p) !in calls
    requires 1 <= Gap(g, s.tables[p][i].generation) && Gap(g, s.tables[p][i].generation) + |calls| < GENERATION_MAX
    ensures Lookup(Run(s, calls), p, Encode(i, g)) == None
    decreases |calls|
  {
    if calls == [] {
      DecodeEncode(i, g);
      NextGap(g, s.tables[p][i].generation);
    } else {
      StepGeneration(s, calls[0], p, i);
      NextGap(g, s.tables[p][i].generation);
      StepKeeps(s, calls[0]);
      hide Step, Inv, Gap;
      StaleForever(Step(s, calls[0]).ipc, calls[1..], p, i, g);
    }
  }

  /** Closing a handle makes it stale. */
  lemma CloseMakesStale(s: Ipc, p: nat, handle: nat)
    requires Inv(s) && Close(s, p, handle).result == Closed
    ensures Lookup(s, p, handle).Some? && var i := Lookup(s, p, handle).value;
      && i < HANDLES && handle == Encode(i, s.tables[p][i].generation)
      && var r := Close(s, p, handle).ipc;
      && p in r.tables && |r.tables[p]| == HANDLES
      && Gap(s.tables[p][i].generation, r.tables[p][i].generation) == 1
  {
    var i := Lookup(s, p, handle).value;
    CloseSlotIs(s, p, i);
    SlotOwned(s, p, i);
    NextGap(s.tables[p][i].generation, s.tables[p][i].generation);
    hide CloseSlot, Inv;
  }

  // ------------------------------------------------------------ new handles

  /** A handle that has just been installed names its object, and no other handle changes. */
  lemma InstallResolves(s: Ipc, r: Ipc, p: nat, i: nat, x: Target)
    requires p in s.tables && TableOk(s.tables[p]) && i < HANDLES && s.tables[p][i].target == NoTarget && x != NoTarget
    requires r.tables == s.tables[p := s.tables[p][i := s.tables[p][i].(target := x)]]
    ensures Named(r, p, Encode(i, s.tables[p][i].generation)) == x
    ensures forall q, h :: Named(s, q, h) != NoTarget ==> Named(r, q, h) == Named(s, q, h)
  {
    DecodeEncode(i, s.tables[p][i].generation);
    hide Decode, Encode, TableOk;
  }

  /** A new connection waits last in the queue of the service, and its handle names the client side. */
  lemma ConnectResolves(s: Ipc, p: nat, name: string, memory: bool, v: nat)
    requires Inv(s) && v == FindService(s.services, name, 0) && Connect(s, p, name, memory).result.Handle?
    ensures v < |s.services|
    ensures var r := Connect(s, p, name, memory);
      var x := Named(r.ipc, p, r.result.handle);
      && x.Endpoint? && x.side == Client && x.conn < |s.conns| && !s.conns[x.conn].active
      && r.ipc.services[v].pending == s.services[v].pending + [x.conn]
      && r.ipc.conns[x.conn] == Conn(p, s.services[v].owner, [], [], true, true, false, true)
      && forall q, h :: Named(s, q, h) != NoTarget ==> Named(r.ipc, q, h) == Named(s, q, h)
  {
    var t, r := WithTable(s, p, memory), Connect(s, p, name, memory);
    var i, c := FreeSlot(t.tables[p], 0), FreeConn(s.conns, 0);
    WithTableKeeps(s, p, memory);
    TableKnown(t, p);
    WithTableNames(s, p, memory);
    hide Inv, Named, Encode, TableOk;
    InstallResolves(t, r.ipc, p, i, Endpoint(c, Client));
  }

  lemma TableKnown(s: Ipc, p: nat)
    requires Inv(s) && p in s.tables
    ensures TableOk(s.tables[p]) && |s.tables[p]| == HANDLES
  {}

  lemma WithTableNames(s: Ipc, p: nat, memory: bool)
    ensures forall q, h :: Named(s, q, h) != NoTarget ==> Named(WithTable(s, p, memory), q, h) == Named(s, q, h)
  {}

  /** Accepting takes the connection that has waited longest, and the new handle names its server side. */
  lemma AcceptResolves(s: Ipc, p: nat, listener: nat)
    requires Inv(s) && Accept(s, p, listener).result.Handle?
    ensures Named(s, p, listener).Listener? && Named(s, p, listener).service < |s.services|
    ensures var r := Accept(s, p, listener);
      var v := Named(s, p, listener).service;
      && s.services[v].pending != [] && r.ipc.services[v].pending == s.services[v].pending[1..]
      && var c := s.services[v].pending[0];
      && c < |s.conns| && r.ipc.conns == s.conns[c := s.conns[c].(accepted := true)]
      && Named(r.ipc, p, r.result.handle) == Endpoint(c, Server)
      && forall q, h :: Named(s, q, h) != NoTarget ==> Named(r.ipc, q, h) == Named(s, q, h)
  {
    var r := Accept(s, p, listener);
    var i, v := FreeSlot(s.tables[p], 0), Named(s, p, listener).service;
    TableKnown(s, p);
    hide Inv, Named, Encode, TableOk;
    InstallResolves(s, r.ipc, p, i, Endpoint(s.services[v].pending[0], Server));
  }

  /** A registered service is found under its name, owned by its process, and its handle names it. */
  lemma RegisterResolves(s: Ipc, p: nat, name: string, memory: bool)
    requires Inv(s) && Register(s, p, name, memory).result.Handle?
    ensures var r := Register(s, p, name, memory);
      var v := FindService(r.ipc.services, name, 0);
      && v < |r.ipc.services| && r.ipc.services[v] == Service(true, p, name, [])
      && Named(r.ipc, p, r.result.handle) == Listener(v)
      && forall q, h :: Named(s, q, h) != NoTarget ==> Named(r.ipc, q, h) == Named(s, q, h)
  {
    var t, r := WithTable(s, p, memory), Register(s, p, name, memory);
    var i, v := FreeSlot(t.tables[p], 0), FreeService(s.services, 0);
    WithTableKeeps(s, p, memory);
    TableKnown(t, p);
    WithTableNames(s, p, memory);
    hide Inv, Named, Encode, TableOk;
    InstallResolves(t, r.ipc, p, i, Listener(v));
    assert r.ipc.services == s.services[v := Service(true, p, name, [])];
    OnlyThere(s.services, v, p, name);
  }

  lemma OnlyThere(vs: seq<Service>, v: nat, p: nat, name: string)
    requires v < |vs| && FindService(vs, name, 0) == |vs|
    ensures FindService(vs[v := Service(true, p, name, [])], name, 0) == v
  {
    var ws := vs[v := Service(true, p, name, [])];
    assert ws[v].active && ws[v].name == name;
    forall j | 0 <= j < |ws| && j != v ensures !(ws[j].active && ws[j].name == name) {
      assert ws[j] == vs[j];
    }
  }

  /** What a closed handle named belongs to its process no more; everything of others is as it was. */
  lemma CloseExact(s: Ipc, p: nat, handle: nat)
    requires Inv(s) && Close(s, p, handle).result == Closed
    ensures var r := Close(s, p, handle).ipc;
      !Owns(r, p, Named(s, p, handle)) && OthersKept(s, r, p) && Shrinks(s, r)
  {
    var i := Lookup(s, p, handle).value;
    SlotOwned(s, p, i);
    CloseSlotKeeps(s, p, i);
    CloseSlotOthers(s, p, i);
    NoLonger(s, CloseSlot(s, p, i), p, i);
    hide Inv, CloseSlot, Owns, OthersKept, Shrinks, TableOk;
  }

  lemma NoLonger(s: Ipc, r: Ipc, p: nat, i: nat)
    requires Inv(s) && Inv(r) && p in s.tables && p in r.tables && i < |s.tables[p]| == |r.tables[p]|
    requires s.tables[p][i].target != NoTarget && r.tables[p][i].target == NoTarget
    requires forall j :: 0 <= j < |s.tables[p]| && j != i ==> r.tables[p][j] == s.tables[p][j]
    ensures !Owns(r, p, s.tables[p][i].target)
  {
    var x := s.tables[p][i].target;
    assert TableOk(s.tables[p]);
    hide Owns, ObjectsOk, PendingOk, Attached;
    assert forall j :: 0 <= j < |s.tables[p]| && j != i ==> s.tables[p][j].target != x;
    assert !Has(r.tables[p], x);
    assert Holds(r, p, x) <==> Owns(r, p, x);
  }
}
