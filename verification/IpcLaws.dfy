/**
 When each call of inter-process communication succeeds and what it answers otherwise, said of
 names, handles, sides and queues alone, in every state that the calls can reach.
 */
module IpcLaws {
  import opened Machine
  import opened IpcSpec

  /** A service name as the interface describes it. */
  ghost predicate Legal(name: string) {
    && 1 <= |name| <= 31
    && forall ch :: ch in name ==> 'a' <= ch <= 'z' || '0' <= ch <= '9' || ch in {'.', '_', '-'}
  }

  lemma LegalIs(name: string)
    ensures ValidName(name) <==> Legal(name)
  {
    if ValidName(name) {
      forall ch | ch in name ensures NameChar(ch) {
        var i :| 0 <= i < |name| && name[i] == ch;
        assert NameChar(name[i]);
      }
    }
    if Legal(name) {
      forall i | 0 <= i < |name| ensures NameChar(name[i]) {
        assert name[i] in name;
      }
    }
  }

  /** Some active service is called `name`. */
  ghost predicate Registered(s: Ipc, name: string) {
    exists v :: 0 <= v < |s.services| && s.services[v].active && s.services[v].name == name
  }

  /** Process `p` can be given one more handle. */
  ghost predicate Room(s: Ipc, p: nat, memory: bool) {
    if p in s.tables then exists i :: 0 <= i < |s.tables[p]| && s.tables[p][i].target == NoTarget else memory
  }

  ghost predicate Asks(s: Ipc, p: nat, name: string) {
    p in s.alive && p != 0 && Legal(name)
  }

  /** A handle names what one of its process's slots holds, at that slot's present generation. */
  lemma NamedExactly(s: Ipc, p: nat, handle: nat, x: Target)
    requires Inv(s) && x != NoTarget
    ensures Named(s, p, handle) == x
       <==> && p in s.tables
            && exists i :: 0 <= i < |s.tables[p]| && s.tables[p][i].target == x && handle == s.tables[p][i].generation * 32 + i
  {
    if p in s.tables {
      assert TableOk(s.tables[p]);
      hide Inv;
      forall i | 0 <= i < |s.tables[p]| && handle == s.tables[p][i].generation * 32 + i && s.tables[p][i].target == x
        ensures Named(s, p, handle) == x
      {
        DecodeEncode(i, s.tables[p][i].generation);
      }
      if Named(s, p, handle) == x {
        var i := Lookup(s, p, handle).value;
        assert handle == s.tables[p][i].generation * 32 + i;
      }
    }
  }

  /** What a handle names is there: a live service of its process, or an open side of a connection. */
  lemma NamedOwned(s: Ipc, p: nat, handle: nat)
    requires Inv(s) && Named(s, p, handle) != NoTarget
    ensures Caller(s, p) && p in s.tables && |s.tables[p]| == HANDLES && Owns(s, p, Named(s, p, handle))
    ensures Named(s, p, handle).Endpoint? ==> s.conns[Named(s, p, handle).conn].active
  {
    var i := Lookup(s, p, handle).value;
    SlotOwned(s, p, i);
    var x := Named(s, p, handle);
    if x.Endpoint? {
      assert ConnOk(s.conns[x.conn]);
    }
  }

  lemma RoomIs(s: Ipc, p: nat, memory: bool)
    ensures var t := WithTable(s, p, memory);
      Room(s, p, memory) <==> p in t.tables && FreeSlot(t.tables[p], 0) < |t.tables[p]|
  {
    var t := WithTable(s, p, memory);
    if p in t.tables {
      var k := FreeSlot(t.tables[p], 0);
      assert k < |t.tables[p]| ==> t.tables[p][k].target == NoTarget;
    }
  }

  lemma RegisteredIs(s: Ipc, name: string)
    ensures Registered(s, name) <==> FindService(s.services, name, 0) < |s.services|
  {
    var v := FindService(s.services, name, 0);
    assert v < |s.services| ==> s.services[v].active && s.services[v].name == name;
  }

  ghost predicate ServiceFree(s: Ipc) {
    exists v :: 0 <= v < |s.services| && !s.services[v].active
  }

  ghost predicate ConnFree(s: Ipc) {
    exists c :: 0 <= c < |s.conns| && !s.conns[c].active
  }

  lemma FreeIs(s: Ipc)
    ensures ServiceFree(s) <==> FreeService(s.services, 0) < |s.services|
    ensures ConnFree(s) <==> FreeConn(s.conns, 0) < |s.conns|
  {
    var v, c := FreeService(s.services, 0), FreeConn(s.conns, 0);
    assert v < |s.services| ==> !s.services[v].active;
    assert c < |s.conns| ==> !s.conns[c].active;
  }

  /** Registering a name. A refusal leaves at most an empty handle table behind. */
  lemma RegisterAnswers(s: Ipc, p: nat, name: string, memory: bool)
    requires Inv(s)
    ensures var r := Register(s, p, name, memory);
      && (r.result == Invalid <==> !Asks(s, p, name))
      && (r.result == Exists <==> Asks(s, p, name) && Registered(s, name))
      && (r.result.Handle? <==> Asks(s, p, name) && !Registered(s, name) && ServiceFree(s) && Room(s, p, memory))
      && (r.result in {Invalid, Exists, NoSpace} || r.result.Handle?)
      && (!r.result.Handle? ==> r.ipc == s || r.ipc == s.(tables := s.tables[p := NoHandles()]))
  {
    LegalIs(name);
    RegisteredIs(s, name);
    FreeIs(s);
    RoomIs(s, p, memory);
    hide Inv, FindService, FreeService, FreeSlot, Room, Registered, ServiceFree, Legal, ValidName;
  }

  /** A pending queue is full at sixteen. */
  ghost predicate Takes(s: Ipc, name: string) {
    exists v :: 0 <= v < |s.services| && s.services[v].active && s.services[v].name == name && |s.services[v].pending| < 16
  }

  /** Connecting to a name. */
  lemma ConnectAnswers(s: Ipc, p: nat, name: string, memory: bool)
    requires Inv(s)
    ensures var r := Connect(s, p, name, memory);
      && (r.result == Invalid <==> !Asks(s, p, name))
      && (r.result == NotFound <==> Asks(s, p, name) && !Registered(s, name))
      && (r.result.Handle? <==> Asks(s, p, name) && Takes(s, name) && ConnFree(s) && Room(s, p, memory))
      && (r.result in {Invalid, NotFound, NoSpace} || r.result.Handle?)
      && (!r.result.Handle? ==> r.ipc == s || r.ipc == s.(tables := s.tables[p := NoHandles()]))
  {
    LegalIs(name);
    RegisteredIs(s, name);
    FreeIs(s);
    RoomIs(s, p, memory);
    ServiceAlive(s, name);
    hide Inv, FindService, FreeConn, FreeSlot, Room, Registered, ConnFree, Legal, ValidName, Takes;
  }

  lemma ServiceAlive(s: Ipc, name: string)
    requires Inv(s)
    ensures var v := FindService(s.services, name, 0);
      && (v < |s.services| ==> s.services[v].owner in s.alive)
      && (Takes(s, name) <==> v < |s.services| && |s.services[v].pending| < PENDING)
  {
    var v := FindService(s.services, name, 0);
    if v < |s.services| {
      var p := s.services[v].owner;
      assert Owns(s, p, Listener(v));
      assert Holds(s, p, Listener(v));
      assert Caller(s, p);
      forall w | 0 <= w < |s.services| && s.services[w].active && s.services[w].name == name ensures w == v {}
    }
  }

  /** Accepting hands the connection out whenever one waits and there is a slot for its handle. */
  lemma AcceptAnswers(s: Ipc, p: nat, handle: nat)
    requires Inv(s)
    ensures var r := Accept(s, p, handle);
      match Named(s, p, handle)
      case Listener(v) =>
        && v < |s.services| && p in s.tables
        && (r.result == WouldBlock <==> s.services[v].pending == [])
        && (r.result.Handle? <==>
              s.services[v].pending != [] && exists i :: 0 <= i < |s.tables[p]| && s.tables[p][i].target == NoTarget)
        && (r.result in {WouldBlock, NoSpace} || r.result.Handle?)
      case _ => r == Outcome(s, Invalid)
  {
    var x := Named(s, p, handle);
    if x.Listener? {
      NamedOwned(s, p, handle);
      AcceptSound(s, p, handle);
      if s.services[x.service].pending != [] {
        PendingHead(s, x.service);
      }
      var k := FreeSlot(s.tables[p], 0);
      assert k < |s.tables[p]| ==> s.tables[p][k].target == NoTarget;
      hide Inv, Named, Owns;
    }
  }

  lemma UsableIs(s: Ipc, p: nat, handle: nat)
    requires Inv(s)
    ensures Usable(s, p, handle) <==> Named(s, p, handle).Endpoint?
    ensures Usable(s, p, handle) ==> Named(s, p, handle).conn < |s.conns|
  {
    if Named(s, p, handle).Endpoint? {
      NamedOwned(s, p, handle);
    }
    hide Inv, Named;
  }

  /** Sending: what it answers, and where the message and the buffer it carries go. */
  lemma SendAnswers(s: Ipc, p: nat, handle: nat, payload: seq<byte>, retain: Retain)
    requires Inv(s)
    ensures Named(s, p, handle).Endpoint? ==> Named(s, p, handle).conn < |s.conns|
    ensures var r := Send(s, p, handle, payload, retain);
      match Named(s, p, handle)
      case Endpoint(c, side) =>
        var to := if side == Client then Server else Client;
        && (r.result == PeerClosed <==> |payload| <= 256 && !IsOpen(s.conns[c], to))
        && (r.result == Sent <==>
              |payload| <= 256 && IsOpen(s.conns[c], to) && |Queue(s.conns[c], to)| < 16 && (retain.NoBuffer? || retain.Retained?))
        && (r.result == Invalid <==>
              256 < |payload| || (IsOpen(s.conns[c], to) && |Queue(s.conns[c], to)| < 16 && retain.RetainBad?))
        && r.result in {PeerClosed, Sent, Invalid, NoSpace}
        && (r.result != Sent ==> r.ipc == s)
        && (r.result == Sent ==>
              var m := Message(payload, match retain case Retained(b) => Some(b) case _ => None);
              && Queue(r.ipc.conns[c], to) == Queue(s.conns[c], to) + [m]
              && r.ipc.conns == s.conns[c := WithQueue(s.conns[c], to, Queue(s.conns[c], to) + [m])]
              && r.ipc == s.(conns := r.ipc.conns, refs := s.refs + match m.attachment case Some(b) => multiset{b} case None => multiset{}))
      case _ => r == Outcome(s, Invalid)
  {
    UsableIs(s, p, handle);
    hide Inv, Named, Usable;
  }

  /** Receiving: what it answers, and that only the oldest message leaves, with the buffer it carried. */
  lemma ReceiveAnswers(s: Ipc, p: nat, handle: nat, capacity: nat, adoption: Adoption)
    requires Inv(s)
    ensures Named(s, p, handle).Endpoint? ==> Named(s, p, handle).conn < |s.conns|
    ensures var r := Receive(s, p, handle, capacity, adoption);
      match Named(s, p, handle)
      case Endpoint(c, side) =>
        var q := Queue(s.conns[c], side);
        && (r.result == WouldBlock <==> q == [] && (if side == Client then s.conns[c].serverOpen else s.conns[c].clientOpen))
        && (r.result == PeerClosed <==> q == [] && !(if side == Client then s.conns[c].serverOpen else s.conns[c].clientOpen))
        && (r.result.Received? <==> q != [] && |q[0].payload| <= capacity && (q[0].attachment.Some? ==> adoption == Adopted))
        && (r.result == Internal <==>
              q != [] && |q[0].payload| <= capacity && q[0].attachment.Some? && (adoption == Refused || adoption == NotCommitted))
        && (r.result in {WouldBlock, PeerClosed, Internal, NoSpace} || r.result.Received?)
        && (!r.result.Received? ==> r.ipc == s)
        && (r.result.Received? ==>
              && r.result == Received(q[0].payload, q[0].attachment)
              && r.ipc.conns == s.conns[c := WithQueue(s.conns[c], side, q[1..])]
              && r.ipc == s.(conns := r.ipc.conns,
                             refs := s.refs - match q[0].attachment case Some(b) => multiset{b} case None => multiset{}))
      case _ => r == Outcome(s, Invalid)
  {
    UsableIs(s, p, handle);
    if Receive(s, p, handle, capacity, adoption).result.Received? {
      ReceiveIs(s, p, handle, capacity, adoption);
      OneReference(Queue(s.conns[Named(s, p, handle).conn], Named(s, p, handle).side)[0]);
    }
    hide Inv, Named, Usable, InQueue;
  }

  lemma OneReference(m: Message)
    ensures InQueue([m]) == match m.attachment case Some(b) => multiset{b} case None => multiset{}
  {
    assert [m][..0] == [];
  }

  /** Closing succeeds on every handle that names something, and on nothing else. */
  lemma CloseAnswers(s: Ipc, p: nat, handle: nat)
    requires Inv(s)
    ensures Close(s, p, handle).result == if Named(s, p, handle) == NoTarget then Invalid else Closed
    ensures Named(s, p, handle) == NoTarget ==> Close(s, p, handle).ipc == s
  {
    if Named(s, p, handle) != NoTarget {
      NamedOwned(s, p, handle);
    }
    hide Inv, CloseSlot;
  }
}
