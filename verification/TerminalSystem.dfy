/**
 Terminals and descriptor tables as the kernel runs them: a static table of pairs whose rings
 are filled and drained byte by byte, and descriptor slots overwritten in place. Tied to PtySpec.
 */
module TerminalSystem {
  import opened Machine
  import opened PtySpec
  import Rings

  datatype Ring = Ring(bytes: seq<byte>, readIndex: nat, writeIndex: nat, count: nat)
  datatype PairSlot = PairSlot(toMaster: Ring, toSlave: Ring, generation: nat, masterRefs: nat, slaveRefs: nat, used: bool)

  // --------------------------------------------------------------------- rings

  ghost predicate RingOk(r: Ring) {
    && |r.bytes| == CAPACITY && Rings.RingOk(r.bytes, r.readIndex, r.count)
    && r.writeIndex == Rings.At(CAPACITY, r.readIndex, r.count)
  }

  ghost function QueueOf(r: Ring): (q: seq<byte>)
    requires RingOk(r)
    ensures |q| == r.count
  {
    Rings.Contents(r.bytes, r.readIndex, r.count)
  }

  /** ring_clear. */
  function ClearRing(): (r: Ring)
    ensures RingOk(r) && QueueOf(r) == []
  {
    Ring(seq(CAPACITY, i => 0), 0, 0, 0)
  }

  function Pushed(r: Ring, b: byte): Ring
    requires |r.bytes| == CAPACITY && r.writeIndex < CAPACITY
  {
    Ring(r.bytes[r.writeIndex := b], r.readIndex, (r.writeIndex + 1) % CAPACITY, r.count + 1)
  }

  function Popped(r: Ring): Ring
    requires 0 < r.count
  {
    Ring(r.bytes, (r.readIndex + 1) % CAPACITY, r.writeIndex, r.count - 1)
  }

  lemma PushedIs(r: Ring, b: byte)
    requires RingOk(r) && r.count < CAPACITY
    ensures r.writeIndex < |r.bytes| == CAPACITY
    ensures RingOk(Pushed(r, b)) && QueueOf(Pushed(r, b)) == QueueOf(r) + [b]
  {
    Rings.Push(r.bytes, r.readIndex, r.count, b);
    NextIndex(r.readIndex, r.count);
  }

  /** One past the slot `i` places after the head. */
  lemma NextIndex(head: nat, i: nat)
    requires head < CAPACITY && i < CAPACITY
    ensures (Rings.At(CAPACITY, head, i) + 1) % CAPACITY == Rings.At(CAPACITY, head, i + 1)
  {}

  lemma PoppedIs(r: Ring)
    requires RingOk(r) && 0 < r.count
    ensures r.readIndex < |r.bytes| && r.bytes[r.readIndex] == QueueOf(r)[0]
    ensures RingOk(Popped(r)) && QueueOf(Popped(r)) == QueueOf(r)[1..]
  {
    var b := r.bytes[r.readIndex];
    Rings.Pop(r.bytes, r.readIndex, r.count, b);
    assert r.bytes[r.readIndex := b] == r.bytes;
    SameTail(r.readIndex, r.count);
  }

  lemma SameTail(head: nat, count: nat)
    requires head < CAPACITY && 0 < count <= CAPACITY
    ensures Rings.At(CAPACITY, Rings.At(CAPACITY, head, 1), count - 1) == Rings.At(CAPACITY, head, count)
    ensures Rings.At(CAPACITY, head, 1) == (head + 1) % CAPACITY
  {}

  // --------------------------------------------------------------------- slots

  ghost predicate PairSlotOk(x: PairSlot) {
    RingOk(x.toMaster) && RingOk(x.toSlave)
  }

  ghost function PairOf(x: PairSlot): Pair
    requires PairSlotOk(x)
  {
    Pair(x.used, x.generation, x.masterRefs, x.slaveRefs, QueueOf(x.toMaster), QueueOf(x.toSlave))
  }

  lemma PairIs(x: PairSlot)
    ensures PairSlotOk(x) <==> RingOk(x.toMaster) && RingOk(x.toSlave)
    ensures PairSlotOk(x) ==>
      PairOf(x) == Pair(x.used, x.generation, x.masterRefs, x.slaveRefs, QueueOf(x.toMaster), QueueOf(x.toSlave))
  {}

  ghost function PairsOf(xs: seq<PairSlot>): (ps: seq<Pair>)
    requires forall i :: 0 <= i < |xs| ==> PairSlotOk(xs[i])
    ensures |ps| == |xs| && forall i :: 0 <= i < |xs| ==> ps[i] == PairOf(xs[i])
  {
    seq(|xs|, i requires 0 <= i < |xs| && PairSlotOk(xs[i]) => PairOf(xs[i]))
  }

  /** pair_reset. */
  function ResetPair(generation: nat): (x: PairSlot)
    ensures PairSlotOk(x) && PairOf(x) == NO_PAIR.(generation := generation)
  {
    PairSlot(ClearRing(), ClearRing(), generation, 0, 0, false)
  }

  class System {
    const pairs: array<PairSlot>
    const tables: array<Table>
    ghost var held: multiset<Handle>

    ghost predicate Structural()
      reads pairs
    {
      && pairs.Length == PAIRS && (pairs as object) != tables
      && forall i :: 0 <= i < pairs.Length ==> PairSlotOk(pairs[i])
    }

    ghost function State(): Terminals
      requires Structural()
      reads this`held, pairs, tables
    {
      Terminals(PairsOf(pairs[..]), tables[..], held)
    }

    ghost predicate Valid()
      reads this`held, pairs, tables
    {
      Structural() && Inv(State())
    }

    lemma ValidIs()
      ensures Valid() <==> Structural() && Inv(State())
    {
      hide Structural, Inv;
    }

    lemma StateIs()
      requires Structural()
      ensures |State().pairs| == pairs.Length == PAIRS && State().tables == tables[..] && (pairs as object) != tables
    {}

    lemma PairAt(i: nat)
      requires Structural() && i < PAIRS
      ensures i < pairs.Length && |State().pairs| == PAIRS && PairSlotOk(pairs[i])
      ensures RingOk(pairs[i].toMaster) && RingOk(pairs[i].toSlave)
      ensures var x := pairs[i];
        State().pairs[i] == Pair(x.used, x.generation, x.masterRefs, x.slaveRefs, QueueOf(x.toMaster), QueueOf(x.toSlave))
    {
      hide RingOk;
    }

    method SetPair(i: nat, x: PairSlot)
      requires Structural() && i < PAIRS && PairSlotOk(x)
      modifies pairs
      ensures Structural() && |old(State()).pairs| == PAIRS
      ensures State() == old(State()).(pairs := old(State()).pairs[i := PairOf(x)])
    {
      hide PairSlotOk, PairOf;
      ghost var before := PairsOf(pairs[..]);
      pairs[i] := x;
      assert PairsOf(pairs[..]) == before[i := PairOf(x)];
    }

    method SetTable(t: nat, x: Table)
      requires Structural() && t < tables.Length
      modifies tables
      ensures Structural() && |old(State()).tables| == tables.Length
      ensures State() == old(State()).(tables := old(State()).tables[t := x])
    {
      hide PairSlotOk, PairOf;
      ghost var before := tables[..];
      tables[t] := x;
      assert tables[..] == before[t := x];
      assert pairs[..] == old(pairs[..]);
    }

    constructor (processes: nat)
      ensures Valid() && State() == Initial(processes) && fresh(pairs) && fresh(tables)
    {
      pairs := new PairSlot[PAIRS](i => ResetPair(0));
      tables := new Table[processes](i => ClosedTable());
      held := multiset{};
      new;
      assert State() == Initial(processes);
      InitialInv(processes);
    }

    // ------------------------------------------------------------------- pairs

    /** pair_from_handle: whether the handle is live. */
    method PairFromHandle(h: Handle) returns (live: bool)
      requires Structural()
      ensures live <==> Live(State().pairs, h)
      ensures live ==> h.slot < PAIRS
    {
      hide *;
      StateIs();
      RefsIs(State().pairs, h);
      if PAIRS <= h.slot || h.generation == 0 {
        return false;
      }
      PairAt(h.slot);
      var x := pairs[h.slot];
      if !x.used || x.generation != h.generation {
        return false;
      }
      return (if h.end == Master then x.masterRefs else x.slaveRefs) != 0;
    }

    method FindFreePair() returns (i: nat)
      requires Structural()
      ensures i == FreePair(State().pairs, 0)
    {
      hide *;
      StateIs();
      i := 0;
      while i < pairs.Length
        invariant i <= pairs.Length && FreePair(State().pairs, 0) == FreePair(State().pairs, i)
      {
        PairAt(i);
        FreePairStep(State().pairs, i);
        if !pairs[i].used {
          return;
        }
        i := i + 1;
      }
      FreePairStep(State().pairs, i);
    }

    method CreateTerminal() returns (result: Result)
      requires Valid()
      modifies pairs, this`held
      ensures Valid() && Outcome(State(), result) == CreatePair(old(State()))
    {
      hide *;
      ValidIs();
      StateIs();
      HeldIs();
      CreateKeeps(State());
      CreateIs(State());
      var i := FindFreePair();
      if i == pairs.Length {
        return NoSpace;
      }
      PairAt(i);
      var generation := NextGeneration(pairs[i].generation);
      ResetIs(generation);
      var x := ResetPair(generation).(masterRefs := 1, slaveRefs := 1, used := true);
      PairIs(x);
      SetPair(i, x);
      Hold(held + multiset{Handle(i, Master, generation), Handle(i, Slave, generation)});
      ValidIs();
      return Created(Handle(i, Master, generation), Handle(i, Slave, generation));
    }

    /** References of creators are not stored anywhere; this only accounts for them. */
    ghost method Hold(all: multiset<Handle>)
      requires Structural()
      modifies this`held
      ensures Structural() && State() == old(State()).(held := all) && held == all
    {
      held := all;
    }

    method RetainTerminal(h: Handle) returns (ok: bool)
      requires Structural()
      modifies pairs
      ensures Structural() && (ok <==> CanRetain(old(State()).pairs, h))
      ensures State() == if ok then old(State()).(pairs := RetainPair(old(State()).pairs, h)) else old(State())
    {
      hide *;
      StateIs();
      RetainIs(State().pairs, h);
      RefsIs(State().pairs, h);
      var live := PairFromHandle(h);
      if !live {
        return false;
      }
      PairAt(h.slot);
      var x := pairs[h.slot];
      var refs := if h.end == Master then x.masterRefs else x.slaveRefs;
      if refs == REFS_MAX {
        return false;
      }
      x := if h.end == Master then x.(masterRefs := refs + 1) else x.(slaveRefs := refs + 1);
      PairIs(x);
      SetPair(h.slot, x);
      return true;
    }

    /** pty_close. */
    method CloseTerminal(h: Handle) returns (ok: bool)
      requires Structural()
      modifies pairs
      ensures Structural() && (ok <==> Live(old(State()).pairs, h))
      ensures State() == if ok then old(State()).(pairs := ClosePair(old(State()).pairs, h)) else old(State())
    {
      hide *;
      StateIs();
      RefsIs(State().pairs, h);
      CloseIs(State().pairs, h);
      var live := PairFromHandle(h);
      if !live {
        return false;
      }
      PairAt(h.slot);
      var x := pairs[h.slot];
      x := if h.end == Master then x.(masterRefs := x.masterRefs - 1) else x.(slaveRefs := x.slaveRefs - 1);
      PairIs(x);
      if x.masterRefs == 0 && x.slaveRefs == 0 {
        ResetIs(x.generation);
        x := ResetPair(x.generation);
      }
      SetPair(h.slot, x);
      return true;
    }

    /** A creator closes a reference of its own. */
    method ReleaseTerminal(h: Handle) returns (result: Result)
      requires Valid() && h in held
      modifies pairs, this`held
      ensures Valid() && Outcome(State(), result) == Release(old(State()), h)
    {
      hide *;
      ValidIs();
      HeldIs();
      ReleaseKeeps(State(), h);
      ReleaseIs(State(), h);
      var ok := CloseTerminal(h);
      if !ok {
        return Invalid;
      }
      Hold(held - multiset{h});
      ValidIs();
      return Done;
    }

    lemma HeldIs()
      requires Structural()
      ensures State().held == held
    {}

    /** Bytes move from the ring to the front of the buffer until one of them ends. */
    method Drain(r: Ring, buffer: array<byte>, length: nat) returns (q: Ring, transferred: nat)
      requires RingOk(r) && length <= buffer.Length
      modifies buffer
      ensures RingOk(q) && transferred == Min(length, |QueueOf(r)|)
      ensures QueueOf(q) == QueueOf(r)[transferred..]
      ensures buffer[..] == QueueOf(r)[..transferred] + old(buffer[transferred..])
    {
      hide RingOk, QueueOf, Popped;
      RingIs(r);
      q := r;
      transferred := 0;
      while transferred < length && q.count != 0
        invariant RingOk(q) && transferred <= length && transferred + q.count == |QueueOf(r)|
        invariant QueueOf(q) == QueueOf(r)[transferred..]
        invariant forall j :: 0 <= j < buffer.Length ==>
                    buffer[j] == if j < transferred then QueueOf(r)[j] else old(buffer[j])
        decreases length - transferred
      {
        PoppedIs(q);
        buffer[transferred] := q.bytes[q.readIndex];
        q := Popped(q);
        RingIs(q);
        transferred := transferred + 1;
      }
      RingIs(q);
    }

    method Fill(r: Ring, bytes: seq<byte>) returns (q: Ring, transferred: nat)
      requires RingOk(r)
      ensures RingOk(q) && transferred == Min(|bytes|, CAPACITY - |QueueOf(r)|)
      ensures QueueOf(q) == QueueOf(r) + bytes[..transferred]
    {
      hide RingOk, QueueOf, Pushed;
      RingIs(r);
      q := r;
      transferred := 0;
      while transferred < |bytes| && q.count < CAPACITY
        invariant RingOk(q) && q.count <= CAPACITY && transferred <= |bytes| && q.count == |QueueOf(r)| + transferred
        invariant QueueOf(q) == QueueOf(r) + bytes[..transferred]
        decreases |bytes| - transferred
      {
        PushedIs(q, bytes[transferred]);
        q := Pushed(q, bytes[transferred]);
        RingIs(q);
        assert bytes[..transferred] + [bytes[transferred]] == bytes[..transferred + 1];
        transferred := transferred + 1;
      }
    }

    method ReadTerminal(h: Handle, buffer: array<byte>, length: nat) returns (result: Result)
      requires Valid() && length <= buffer.Length
      modifies pairs, buffer
      ensures Valid() && Outcome(State(), result) == Read(old(State()), h, length)
      ensures result.Bytes? ==> |result.bytes| <= length && buffer[..] == result.bytes + old(buffer[|result.bytes|..])
      ensures !result.Bytes? ==> buffer[..] == old(buffer[..])
    {
      hide *;
      ValidIs();
      StateIs();
      ReadKeeps(State(), h, length);
      ReadIs(State(), h, length);
      RefsIs(State().pairs, h);
      var live := PairFromHandle(h);
      if !live {
        return Invalid;
      }
      if length == 0 {
        return Bytes([]);
      }
      PairAt(h.slot);
      var x := pairs[h.slot];
      var r := if h.end == Master then x.toMaster else x.toSlave;
      RingIs(r);
      var q, transferred := Drain(r, buffer, length);
      if transferred == 0 {
        return if (if h.end == Master then x.slaveRefs else x.masterRefs) == 0 then Hup else WouldBlock;
      }
      x := if h.end == Master then x.(toMaster := q) else x.(toSlave := q);
      PairIs(x);
      SetPair(h.slot, x);
      ValidIs();
      return Bytes(buffer[..transferred]);
    }

    method WriteTerminal(h: Handle, bytes: seq<byte>) returns (result: Result)
      requires Valid()
      modifies pairs
      ensures Valid() && Outcome(State(), result) == Write(old(State()), h, bytes)
    {
      hide *;
      ValidIs();
      StateIs();
      WriteKeeps(State(), h, bytes);
      WriteIs(State(), h, bytes);
      RefsIs(State().pairs, h);
      var live := PairFromHandle(h);
      if !live {
        return Invalid;
      }
      PairAt(h.slot);
      var x := pairs[h.slot];
      if (if h.end == Master then x.slaveRefs else x.masterRefs) == 0 {
        return Hup;
      }
      var r := if h.end == Master then x.toSlave else x.toMaster;
      RingIs(r);
      var q, transferred := Fill(r, bytes);
      if transferred == 0 {
        return WouldBlock;
      }
      x := if h.end == Master then x.(toSlave := q) else x.(toMaster := q);
      PairIs(x);
      SetPair(h.slot, x);
      ValidIs();
      return Wrote(transferred);
    }

    // -------------------------------------------------------------- descriptors

    /** kernel_fd_slot_clear. */
    method ClearSlot(t: nat, fd: nat)
      requires Structural() && t < tables.Length && |State().tables| == tables.Length
      requires fd < |tables[t].slots| && |State().tables[t].slots| == |tables[t].slots|
      modifies tables
      ensures Structural() && State() == SetSlot(old(State()), t, fd, Unused)
    {
      PutSlot(t, fd, Unused);
    }

    method PutSlot(t: nat, fd: nat, d: Descriptor)
      requires Structural() && t < tables.Length && |State().tables| == tables.Length
      requires fd < |tables[t].slots| && |State().tables[t].slots| == |tables[t].slots|
      modifies tables
      ensures Structural() && State() == SetSlot(old(State()), t, fd, d)
    {
      hide *;
      StateIs();
      SetSlotAt(State(), t, fd, d);
      SetTable(t, tables[t].(slots := tables[t].slots[fd := d]));
    }

    /** Close what the descriptor names; on success its slot is cleared too. */
    method CloseDescriptor(t: nat, fd: nat, closes: bool) returns (ok: bool)
      requires Valid() && t < tables.Length && |State().tables| == tables.Length
      requires fd < |tables[t].slots| && |State().tables[t].slots| == |tables[t].slots|
      modifies pairs, tables
      ensures Valid() && (ok <==> Closing(old(State()), old(State()).tables[t].slots[fd], closes).None?)
      ensures State() == if ok then Clear(old(State()), t, fd) else old(State())
    {
      hide *;
      ValidIs();
      StateIs();
      ClearKeeps(State(), t, fd);
      ClosingIs(State(), t, fd, closes);
      var d := tables[t].slots[fd];
      if d.Regular? && !closes {
        return false;
      }
      if d.Terminal? {
        var closed := CloseTerminal(d.handle);
        if !closed {
          ValidIs();
          return false;
        }
      }
      StateIs();
      ClearSlot(t, fd);
      ValidIs();
      return true;
    }

    method BindTerminal(t: nat, fd: nat, h: Handle, a: Access, closes: bool) returns (result: Result)
      requires Valid() && t < tables.Length
      modifies pairs, tables
      ensures Valid() && Outcome(State(), result) == Bind(old(State()), t, fd, h, a, closes)
    {
      hide *;
      ValidIs();
      StateIs();
      BindKeeps(State(), t, fd, h, a, closes);
      BindIs(State(), t, fd, h, a, closes);
      if !tables[t].initialized || |tables[t].slots| <= fd || !ValidAccess(a) {
        return Invalid;
      }
      ClearedIs(State(), t, fd);
      var closed := CloseDescriptor(t, fd, closes);
      if !closed {
        return Corrupt;
      }
      ValidIs();
      StateIs();
      var retained := RetainTerminal(h);
      if !retained {
        ValidIs();
        return Invalid;
      }
      StateIs();
      PutSlot(t, fd, Terminal(a, h));
      ValidIs();
      return Done;
    }

    /** kernel_fd_free_slot for a descriptor that is not a standard one. */
    method FindFreeSlot(t: nat) returns (fd: nat)
      requires Structural() && t < tables.Length && |State().tables| == tables.Length
      requires FIRST_REGULAR <= |State().tables[t].slots|
      ensures fd == FreeSlot(State().tables[t].slots, FIRST_REGULAR)
    {
      hide *;
      StateIs();
      fd := FIRST_REGULAR;
      while fd < |tables[t].slots|
        invariant FIRST_REGULAR <= fd <= |tables[t].slots|
        invariant FreeSlot(State().tables[t].slots, FIRST_REGULAR) == FreeSlot(State().tables[t].slots, fd)
      {
        FreeSlotStep(State().tables[t].slots, fd);
        if tables[t].slots[fd] == Unused {
          return;
        }
        fd := fd + 1;
      }
      FreeSlotStep(State().tables[t].slots, fd);
    }

    method InstallTerminal(t: nat, h: Handle, a: Access) returns (result: Result)
      requires Valid() && t < tables.Length
      modifies pairs, tables
      ensures Valid() && Outcome(State(), result) == Install(old(State()), t, h, a)
    {
      hide *;
      ValidIs();
      StateIs();
      InstallIs(State(), t, h, a);
      if !tables[t].initialized || |tables[t].slots| < FIRST_REGULAR {
        return Invalid;
      }
      var fd := FindFreeSlot(t);
      if fd == |tables[t].slots| {
        return NoSpace;
      }
      result := BindTerminal(t, fd, h, a, true);
      if result == Done {
        result := Installed(fd);
      }
    }

    /** kernel_fd_clone_stdio; the two tables may be the same one. */
    method CloneStandard(source: nat, sourceFd: nat, target: nat, targetFd: nat, a: Access, closes: bool) returns (result: Result)
      requires Valid() && source < tables.Length && target < tables.Length
      modifies pairs, tables
      ensures Valid() && Outcome(State(), result) == Clone(old(State()), source, sourceFd, target, targetFd, a, closes)
    {
      hide *;
      ValidIs();
      StateIs();
      CloneIs(State(), source, sourceFd, target, targetFd, a, closes);
      if !tables[source].initialized || !tables[target].initialized || |tables[source].slots| <= sourceFd
         || FIRST_REGULAR <= targetFd || |tables[target].slots| <= targetFd || !ValidAccess(a)
      {
        return Invalid;
      }
      var d := tables[source].slots[sourceFd];
      if d == Unused || !Allows(d.access, a) {
        return Denied;
      }
      if d.Terminal? {
        result := BindTerminal(target, targetFd, d.handle, a, closes);
        return;
      }
      var e := tables[target].slots[targetFd];
      if (if targetFd == 0 then d.ConsoleInput? && e.ConsoleInput? else d.ConsoleOutput? && e.ConsoleOutput?) {
        return Done;
      }
      return Denied;
    }

    /** kernel_fd_close. */
    method CloseFile(t: nat, fd: nat, closes: bool) returns (result: Result)
      requires Valid() && t < tables.Length
      modifies pairs, tables
      ensures Valid() && Outcome(State(), result) == CloseFd(old(State()), t, fd, closes)
    {
      hide *;
      ValidIs();
      StateIs();
      CloseFdIs(State(), t, fd, closes);
      if !tables[t].initialized || |tables[t].slots| <= fd {
        return Invalid;
      }
      var d := tables[t].slots[fd];
      if d == Unused || (d.Regular? && fd < FIRST_REGULAR) {
        return Invalid;
      }
      if d.ConsoleInput? || d.ConsoleOutput? {
        return Denied;
      }
      var closed := CloseDescriptor(t, fd, closes);
      if !closed {
        return if d.Terminal? then Invalid else Corrupt;
      }
      return Done;
    }

    /** kernel_fd_table_init. */
    method InitialiseTable(t: nat) returns (result: Result)
      requires Valid() && t < tables.Length
      modifies tables
      ensures Valid() && Outcome(State(), result) == InitTable(old(State()), t)
    {
      hide *;
      ValidIs();
      StateIs();
      InitKeeps(State(), t);
      InitIs(State(), t);
      if tables[t].initialized {
        return Invalid;
      }
      SetTable(t, Table(true, StandardSlots()));
      ValidIs();
      return Done;
    }

    /** kernel_fd_table_destroy. */
    method DestroyTable(t: nat, stuck: set<nat>) returns (result: Result)
      requires Valid() && t < tables.Length
      modifies pairs, tables
      ensures Valid() && Outcome(State(), result) == Destroy(old(State()), t, stuck)
    {
      hide *;
      ValidIs();
      StateIs();
      DestroyKeeps(State(), t, stuck);
      DestroyIs(State(), t, stuck);
      if !tables[t].initialized {
        return Done;
      }
      var fd := 0;
      while fd < |tables[t].slots|
        invariant Valid() && Structural() && |State().tables| == tables.Length == |old(State()).tables|
        invariant State().tables[t] == tables[t] && fd <= |tables[t].slots|
        invariant DestroyFrom(State(), t, fd, stuck) == DestroyFrom(old(State()), t, 0, stuck)
        decreases |tables[t].slots| - fd
      {
        ValidIs();
        StateIs();
        DestroyFromIs(State(), t, fd, stuck);
        ClearedIs(State(), t, fd);
        ClosingIs(State(), t, fd, fd !in stuck);
        var d := tables[t].slots[fd];
        if d != Unused {
          var placed := match d
            case Unused => true
            case ConsoleInput(_) => fd == 0
            case ConsoleOutput(_) => fd == 1 || fd == 2
            case Regular(_) => FIRST_REGULAR <= fd
            case Terminal(_, _) => true;
          if !placed {
            return Invalid;
          }
          var closed := CloseDescriptor(t, fd, fd !in stuck);
          if !closed {
            return Invalid;
          }
        }
        ValidIs();
        StateIs();
        fd := fd + 1;
      }
      ValidIs();
      StateIs();
      DestroyFromIs(State(), t, fd, stuck);
      SetTable(t, tables[t].(initialized := false));
      ValidIs();
      return Done;
    }

    /** kernel_fd_open_regular. */
    method OpenFile(t: nat, a: Access, opens: bool) returns (result: Result)
      requires Valid() && t < tables.Length
      modifies tables
      ensures Valid() && Outcome(State(), result) == OpenRegular(old(State()), t, a, opens)
    {
      hide *;
      ValidIs();
      StateIs();
      OpenKeeps(State(), t, a, opens);
      OpenIs(State(), t, a, opens);
      if !tables[t].initialized || !ValidAccess(a) || |tables[t].slots| < FIRST_REGULAR {
        return Invalid;
      }
      var fd := FindFreeSlot(t);
      if fd == |tables[t].slots| {
        return NoSpace;
      }
      if !opens {
        return Corrupt;
      }
      PutSlot(t, fd, Regular(a));
      ValidIs();
      return Installed(fd);
    }
  }

  lemma RefsIs(ps: seq<Pair>, h: Handle)
    ensures Live(ps, h) <==>
      h.slot < |ps| && h.generation != 0 && ps[h.slot].used && ps[h.slot].generation == h.generation
      && 0 < (if h.end == Master then ps[h.slot].masterRefs else ps[h.slot].slaveRefs)
    ensures Live(ps, h) ==> Refs(ps, h) == if h.end == Master then ps[h.slot].masterRefs else ps[h.slot].slaveRefs
  {}

  lemma FreePairStep(ps: seq<Pair>, i: nat)
    requires i <= |ps|
    ensures FreePair(ps, i) == if i == |ps| || !ps[i].used then i else FreePair(ps, i + 1)
  {}

  lemma CreateIs(s: Terminals)
    ensures var i := FreePair(s.pairs, 0);
      CreatePair(s)
      == if i == |s.pairs| then Outcome(s, NoSpace)
         else
           var g := NextGeneration(s.pairs[i].generation);
           Outcome(s.(pairs := s.pairs[i := Pair(true, g, 1, 1, [], [])],
                      held := s.held + multiset{Handle(i, Master, g), Handle(i, Slave, g)}),
                   Created(Handle(i, Master, g), Handle(i, Slave, g)))
  {}

  lemma ResetIs(generation: nat)
    ensures var x := ResetPair(generation);
      && RingOk(x.toMaster) && RingOk(x.toSlave) && QueueOf(x.toMaster) == [] == QueueOf(x.toSlave)
      && x.generation == generation && x.masterRefs == 0 == x.slaveRefs && !x.used
      && PairSlotOk(x) && PairOf(x) == NO_PAIR.(generation := generation)
  {}

  lemma RingIs(r: Ring)
    requires RingOk(r)
    ensures r.count == |QueueOf(r)| <= CAPACITY && (r.count == 0 <==> QueueOf(r) == [])
    ensures |r.bytes| == CAPACITY && r.readIndex < CAPACITY && r.writeIndex < CAPACITY
  {}

  lemma RetainIs(ps: seq<Pair>, h: Handle)
    ensures CanRetain(ps, h) <==> Live(ps, h) && Refs(ps, h) != REFS_MAX
    ensures Live(ps, h) ==>
      var p := ps[h.slot];
      RetainPair(ps, h)
      == ps[h.slot := if h.end == Master then p.(masterRefs := p.masterRefs + 1) else p.(slaveRefs := p.slaveRefs + 1)]
  {}

  lemma CloseIs(ps: seq<Pair>, h: Handle)
    ensures Live(ps, h) ==>
      var p := ps[h.slot];
      (if h.end == Master then 0 < p.masterRefs else 0 < p.slaveRefs)
      && var q := if h.end == Master then p.(masterRefs := p.masterRefs - 1) else p.(slaveRefs := p.slaveRefs - 1);
      ClosePair(ps, h)
      == ps[h.slot := if q.masterRefs == 0 && q.slaveRefs == 0 then NO_PAIR.(generation := q.generation) else q]
  {}

  lemma ReleaseIs(s: Terminals, h: Handle)
    ensures Release(s, h)
         == if Live(s.pairs, h) then Outcome(s.(pairs := ClosePair(s.pairs, h), held := s.held - multiset{h}), Done)
            else Outcome(s, Invalid)
  {}

  lemma ReadIs(s: Terminals, h: Handle, length: nat)
    ensures !Live(s.pairs, h) ==> Read(s, h, length) == Outcome(s, Invalid)
    ensures Live(s.pairs, h) ==>
      var p := s.pairs[h.slot];
      var q := if h.end == Master then p.toMaster else p.toSlave;
      var n := Min(length, |q|);
      n <= |q| && n <= length
      && Read(s, h, length)
         == if length == 0 then Outcome(s, Bytes([]))
            else if n == 0 then Outcome(s, if (if h.end == Master then p.slaveRefs else p.masterRefs) == 0 then Hup else WouldBlock)
            else Outcome(s.(pairs := s.pairs[h.slot := if h.end == Master then p.(toMaster := q[n..]) else p.(toSlave := q[n..])]),
                         Bytes(q[..n]))
  {}

  lemma WriteIs(s: Terminals, h: Handle, bytes: seq<byte>)
    ensures !Live(s.pairs, h) ==> Write(s, h, bytes) == Outcome(s, Invalid)
    ensures Live(s.pairs, h) ==>
      var p := s.pairs[h.slot];
      var q := if h.end == Master then p.toSlave else p.toMaster;
      var n := if CAPACITY <= |q| then 0 else Min(|bytes|, CAPACITY - |q|);
      n <= |bytes| && (|q| == CAPACITY ==> Min(|bytes|, CAPACITY - |q|) == 0)
      && Write(s, h, bytes)
         == if (if h.end == Master then p.slaveRefs else p.masterRefs) == 0 then Outcome(s, Hup)
            else if n == 0 then Outcome(s, WouldBlock)
            else Outcome(s.(pairs := s.pairs[h.slot := if h.end == Master then p.(toSlave := q + bytes[..n])
                                                       else p.(toMaster := q + bytes[..n])]),
                         Wrote(n))
  {}

  lemma SetSlotAt(s: Terminals, t: nat, fd: nat, d: Descriptor)
    requires t < |s.tables| && fd < |s.tables[t].slots|
    ensures SetSlot(s, t, fd, d) == s.(tables := s.tables[t := s.tables[t].(slots := s.tables[t].slots[fd := d])])
  {}

  lemma ClosingIs(s: Terminals, t: nat, fd: nat, closes: bool)
    requires t < |s.tables| && fd < |s.tables[t].slots|
    ensures var d := s.tables[t].slots[fd];
      && (Closing(s, d, closes).None? <==> (d.Regular? ==> closes) && (d.Terminal? ==> Live(s.pairs, d.handle)))
      && Clear(s, t, fd)
         == if d.Terminal? && Live(s.pairs, d.handle)
            then SetSlot(s.(pairs := ClosePair(s.pairs, d.handle)), t, fd, Unused) else SetSlot(s, t, fd, Unused)
  {}

  lemma ClearedIs(s: Terminals, t: nat, fd: nat)
    requires t < |s.tables| && fd < |s.tables[t].slots|
    ensures var r := Clear(s, t, fd);
      && |r.tables| == |s.tables| && r.tables[t] == s.tables[t].(slots := s.tables[t].slots[fd := Unused])
  {}

  lemma BindIs(s: Terminals, t: nat, fd: nat, h: Handle, a: Access, closes: bool)
    requires t < |s.tables|
    ensures !s.tables[t].initialized || |s.tables[t].slots| <= fd || !ValidAccess(a) ==>
      Bind(s, t, fd, h, a, closes) == Outcome(s, Invalid)
    ensures s.tables[t].initialized && fd < |s.tables[t].slots| && ValidAccess(a) ==>
      var u := Clear(s, t, fd);
      && t < |u.tables| && fd < |u.tables[t].slots| && SetSlot(u, t, fd, Terminal(a, h)).pairs == u.pairs
      && (Closing(s, s.tables[t].slots[fd], closes).Some? ==> Bind(s, t, fd, h, a, closes) == Outcome(s, Corrupt))
      && (Closing(s, s.tables[t].slots[fd], closes).None? && !CanRetain(u.pairs, h) ==>
            Bind(s, t, fd, h, a, closes) == Outcome(u, Invalid))
      && (Closing(s, s.tables[t].slots[fd], closes).None? && CanRetain(u.pairs, h) ==>
            Live(u.pairs, h)
            && Bind(s, t, fd, h, a, closes) == Outcome(SetSlot(u.(pairs := RetainPair(u.pairs, h)), t, fd, Terminal(a, h)), Done))
  {
    hide RetainPair, Closing, ClosePair;
  }

  lemma FreeSlotStep(ds: seq<Descriptor>, i: nat)
    requires i <= |ds|
    ensures FreeSlot(ds, i) == if i == |ds| || ds[i] == Unused then i else FreeSlot(ds, i + 1)
  {}

  lemma InstallIs(s: Terminals, t: nat, h: Handle, a: Access)
    requires t < |s.tables|
    ensures !s.tables[t].initialized || |s.tables[t].slots| < FIRST_REGULAR ==> Install(s, t, h, a) == Outcome(s, Invalid)
    ensures s.tables[t].initialized && FIRST_REGULAR <= |s.tables[t].slots| ==>
      var fd := FreeSlot(s.tables[t].slots, FIRST_REGULAR);
      var r := Bind(s, t, fd, h, a, true);
      Install(s, t, h, a)
      == if fd == |s.tables[t].slots| then Outcome(s, NoSpace)
         else if r.result == Done then Outcome(r.state, Installed(fd)) else r
  {}

  lemma CloneIs(s: Terminals, from: nat, sourceFd: nat, to: nat, targetFd: nat, a: Access, closes: bool)
    requires from < |s.tables| && to < |s.tables|
    ensures Clone(s, from, sourceFd, to, targetFd, a, closes)
         == if !s.tables[from].initialized || !s.tables[to].initialized || |s.tables[from].slots| <= sourceFd
               || FIRST_REGULAR <= targetFd || |s.tables[to].slots| <= targetFd || !ValidAccess(a)
            then Outcome(s, Invalid)
            else
              var d, e := s.tables[from].slots[sourceFd], s.tables[to].slots[targetFd];
              if d == Unused || !Allows(d.access, a) then Outcome(s, Denied)
              else if d.Terminal? then Bind(s, to, targetFd, d.handle, a, closes)
              else if (if targetFd == 0 then d.ConsoleInput? && e.ConsoleInput? else d.ConsoleOutput? && e.ConsoleOutput?)
              then Outcome(s, Done) else Outcome(s, Denied)
  {
    hide Bind, Allows, ValidAccess;
  }

  lemma CloseFdIs(s: Terminals, t: nat, fd: nat, closes: bool)
    requires t < |s.tables|
    ensures CloseFd(s, t, fd, closes)
         == if !s.tables[t].initialized || |s.tables[t].slots| <= fd then Outcome(s, Invalid)
            else
              var d := s.tables[t].slots[fd];
              if d == Unused || (d.Regular? && fd < FIRST_REGULAR) then Outcome(s, Invalid)
              else if d.ConsoleInput? || d.ConsoleOutput? then Outcome(s, Denied)
              else if Closing(s, d, closes).Some? then Outcome(s, if d.Terminal? then Invalid else Corrupt)
              else Outcome(Clear(s, t, fd), Done)
  {
    hide Clear, Closing;
  }

  lemma InitIs(s: Terminals, t: nat)
    requires t < |s.tables|
    ensures InitTable(s, t)
         == if s.tables[t].initialized then Outcome(s, Invalid)
            else Outcome(s.(tables := s.tables[t := Table(true, StandardSlots())]), Done)
  {
    hide StandardSlots;
  }

  lemma DestroyIs(s: Terminals, t: nat, stuck: set<nat>)
    requires t < |s.tables|
    ensures !s.tables[t].initialized ==> Destroy(s, t, stuck) == Outcome(s, Done)
    ensures s.tables[t].initialized ==>
      var (u, ok) := DestroyFrom(s, t, 0, stuck);
      && t < |u.tables|
      && Destroy(s, t, stuck)
         == if ok then Outcome(u.(tables := u.tables[t := u.tables[t].(initialized := false)]), Done) else Outcome(u, Invalid)
  {
    hide DestroyFrom;
  }

  lemma DestroyFromIs(s: Terminals, t: nat, fd: nat, stuck: set<nat>)
    requires t < |s.tables| && fd <= |s.tables[t].slots|
    ensures fd == |s.tables[t].slots| ==> DestroyFrom(s, t, fd, stuck) == (s, true)
    ensures fd < |s.tables[t].slots| ==>
      var d := s.tables[t].slots[fd];
      && (d == Unused ==> DestroyFrom(s, t, fd, stuck) == DestroyFrom(s, t, fd + 1, stuck))
      && (d != Unused && !(Placed(d, fd) && Closing(s, d, fd !in stuck).None?) ==> DestroyFrom(s, t, fd, stuck) == (s, false))
      && (d != Unused && Placed(d, fd) && Closing(s, d, fd !in stuck).None? ==>
            DestroyFrom(s, t, fd, stuck) == DestroyFrom(Clear(s, t, fd), t, fd + 1, stuck))
      && (Placed(d, fd) <==> match d
            case Unused => true
            case ConsoleInput(_) => fd == 0
            case ConsoleOutput(_) => fd == 1 || fd == 2
            case Regular(_) => FIRST_REGULAR <= fd
            case Terminal(_, _) => true)
  {
    hide Clear;
  }

  lemma OpenIs(s: Terminals, t: nat, a: Access, opens: bool)
    requires t < |s.tables|
    ensures OpenRegular(s, t, a, opens)
         == if !s.tables[t].initialized || !ValidAccess(a) || |s.tables[t].slots| < FIRST_REGULAR then Outcome(s, Invalid)
            else
              var fd := FreeSlot(s.tables[t].slots, FIRST_REGULAR);
              if fd == |s.tables[t].slots| then Outcome(s, NoSpace)
              else if !opens then Outcome(s, Corrupt)
              else Outcome(SetSlot(s, t, fd, Regular(a)), Installed(fd))
  {
    hide SetSlot, FreeSlot;
  }
}
