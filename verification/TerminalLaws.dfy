/**
 What each terminal and descriptor call answers and changes, said of descriptors, references and
 queues alone, in every state that the calls can reach.
 */
module TerminalLaws {
  import opened Machine
  import opened PtySpec

  /** Descriptor `fd` of table `t` names terminal end `h`. */
  predicate Names1(s: Terminals, t: nat, fd: nat, h: Handle) {
    t < |s.tables| && fd < |s.tables[t].slots| && s.tables[t].slots[fd].Terminal? && s.tables[t].slots[fd].handle == h
  }

  lemma {:induction false} NamesInIff(ds: seq<Descriptor>, h: Handle)
    ensures h in NamesIn(ds) <==> exists fd :: 0 <= fd < |ds| && ds[fd].Terminal? && ds[fd].handle == h
  {
    if ds != [] {
      NamesInIff(ds[..|ds| - 1], h);
      assert forall fd :: 0 <= fd < |ds| - 1 ==> ds[..|ds| - 1][fd] == ds[fd];
    }
  }

  lemma {:induction false} NamesIff(ts: seq<Table>, h: Handle)
    ensures h in Names(ts)
       <==> exists t, fd :: 0 <= t < |ts| && 0 <= fd < |ts[t].slots| && ts[t].slots[fd].Terminal? && ts[t].slots[fd].handle == h
  {
    if ts != [] {
      NamesIff(ts[..|ts| - 1], h);
      NamesInIff(ts[|ts| - 1].slots, h);
      assert forall t :: 0 <= t < |ts| - 1 ==> ts[..|ts| - 1][t] == ts[t];
      hide NamesIn;
    }
  }

  /** A terminal end is live exactly while a descriptor or a creator names it. */
  lemma LiveExactly(s: Terminals, h: Handle)
    requires Inv(s)
    ensures Live(s.pairs, h) <==> h in s.held || exists t: nat, fd: nat :: Names1(s, t, fd, h)
  {
    assert Names(s.tables)[h] + s.held[h] == Refs(s.pairs, h);
    NamesIff(s.tables, h);
    hide Names, Refs, Shaped, Counted;
    if h in Names(s.tables) {
      var t, fd :| 0 <= t < |s.tables| && 0 <= fd < |s.tables[t].slots|
                   && s.tables[t].slots[fd].Terminal? && s.tables[t].slots[fd].handle == h;
      assert Names1(s, t, fd, h);
    }
    if t: nat, fd: nat :| Names1(s, t, fd, h) {
      assert h in Names(s.tables);
    }
  }

  /** The bytes that wait for an end. */
  function Waiting(p: Pair, e: End): seq<byte> {
    match e case Master => p.toMaster case Slave => p.toSlave
  }

  /** How many references there are to the other end. */
  function OtherRefs(p: Pair, e: End): nat {
    match e case Master => p.slaveRefs case Slave => p.masterRefs
  }

  /** The same pair with `q` waiting for end `e`. */
  function Holding(p: Pair, e: End, q: seq<byte>): Pair {
    match e case Master => p.(toMaster := q) case Slave => p.(toSlave := q)
  }

  /** A read takes the oldest bytes; with none it answers HUP exactly when nobody is left to write any. */
  lemma ReadExactly(s: Terminals, h: Handle, length: nat)
    requires Live(s.pairs, h)
    ensures h.slot < |s.pairs|
    ensures var r := Read(s, h, length);
      var p := s.pairs[h.slot];
      var q := Waiting(p, h.end);
      && (r.result == Hup <==> 0 < length && q == [] && OtherRefs(p, h.end) == 0)
      && (r.result == WouldBlock <==> 0 < length && q == [] && OtherRefs(p, h.end) != 0)
      && (r.result.Bytes? <==> length == 0 || q != [])
      && (r.result.Bytes? ==>
            && r.result.bytes + Waiting(r.state.pairs[h.slot], h.end) == q
            && |r.result.bytes| == (if length < |q| then length else |q|)
            && r.state == s.(pairs := s.pairs[h.slot := Holding(p, h.end, q[|r.result.bytes|..])]))
      && (!r.result.Bytes? ==> r.state == s)
  {
    var p := s.pairs[h.slot];
    var q := Waiting(p, h.end);
    assert q[0..] == q;
    assert s.pairs[h.slot := Holding(p, h.end, q)] == s.pairs;
  }

  /** A write appends what the queue of 4096 bytes takes; it answers HUP exactly when nobody is left to read. */
  lemma WriteExactly(s: Terminals, h: Handle, bytes: seq<byte>)
    requires Live(s.pairs, h) && Inv(s)
    ensures h.slot < |s.pairs|
    ensures var r := Write(s, h, bytes);
      var p := s.pairs[h.slot];
      var other := if h.end == Master then Slave else Master;
      var q := Waiting(p, other);
      && (r.result == Hup <==> OtherRefs(p, h.end) == 0)
      && (r.result == WouldBlock <==> OtherRefs(p, h.end) != 0 && (bytes == [] || |q| == 4096))
      && (r.result.Wrote? <==> OtherRefs(p, h.end) != 0 && bytes != [] && |q| < 4096)
      && (r.result.Wrote? ==>
            && r.result.count == (if |bytes| < 4096 - |q| then |bytes| else 4096 - |q|)
            && r.state == s.(pairs := s.pairs[h.slot := Holding(p, other, q + bytes[..r.result.count])]))
      && (!r.result.Wrote? ==> r.state == s)
  {
    assert PairOk(s.pairs[h.slot]);
    hide Counted;
  }

  /** An end that is not live cannot be read or written. */
  lemma DeadEnds(s: Terminals, h: Handle, length: nat, bytes: seq<byte>)
    requires !Live(s.pairs, h)
    ensures Read(s, h, length) == Outcome(s, Invalid) == Write(s, h, bytes)
  {}

  predicate Opened(s: Terminals, t: nat, fd: nat) {
    t < |s.tables| && s.tables[t].initialized && fd < |s.tables[t].slots|
  }

  /** A descriptor is read or written only with that access. */
  lemma UseExactly(s: Terminals, t: nat, fd: nat, length: nat, bytes: seq<byte>)
    ensures Step(s, ReadCall(t, fd, length))
         == if Opened(s, t, fd) && s.tables[t].slots[fd].Terminal? && s.tables[t].slots[fd].access.read
            then Read(s, s.tables[t].slots[fd].handle, length) else Outcome(s, Invalid)
    ensures Step(s, WriteCall(t, fd, bytes))
         == if Opened(s, t, fd) && s.tables[t].slots[fd].Terminal? && s.tables[t].slots[fd].access.write
            then Write(s, s.tables[t].slots[fd].handle, bytes) else Outcome(s, Invalid)
  {
    hide Read, Write;
  }

  /** A new pair is an unused one, empty, with one reference to each end and the next generation. */
  ghost predicate Fresh(s: Terminals, r: Outcome, i: nat) {
    && i < |s.pairs| && !s.pairs[i].used
    && var g := if s.pairs[i].generation == 0xffff_ffff then 1 else s.pairs[i].generation + 1;
    && r.result == Created(Handle(i, Master, g), Handle(i, Slave, g))
    && r.state == s.(pairs := s.pairs[i := Pair(true, g, 1, 1, [], [])],
                     held := s.held + multiset{Handle(i, Master, g), Handle(i, Slave, g)})
  }

  lemma CreateExactly(s: Terminals)
    requires Inv(s)
    ensures var r := CreatePair(s);
      if exists i :: 0 <= i < |s.pairs| && !s.pairs[i].used then exists i: nat :: Fresh(s, r, i) else r == Outcome(s, NoSpace)
  {
    var i := FreePair(s.pairs, 0);
    if i < |s.pairs| {
      assert !s.pairs[i].used && PairOk(s.pairs[i]);
      assert Fresh(s, CreatePair(s), i);
    }
    hide Counted, PairOk;
  }

  /** The tables after a bind that succeeds: that descriptor names the terminal with that access. */
  lemma BindInstalls(s: Terminals, t: nat, fd: nat, h: Handle, a: Access, closes: bool)
    requires Inv(s) && Opened(s, t, fd) && Bind(s, t, fd, h, a, closes).result == Done
    ensures var r := Bind(s, t, fd, h, a, closes).state;
      && r.tables == s.tables[t := s.tables[t].(slots := s.tables[t].slots[fd := Terminal(a, h)])]
      && r.held == s.held && Inv(r) && QueuesKept(s, r)
  {
    hide Inv, QueuesKept, Closing, CanRetain, Live, Refs, Clear, RetainPair;
    ClearKeeps(s, t, fd);
    BindKeeps(s, t, fd, h, a, closes);
    BindKept(s, t, fd, h, a, closes);
    assert s.tables[t].slots[fd := Unused][fd := Terminal(a, h)] == s.tables[t].slots[fd := Terminal(a, h)];
  }

  /** A bind out of order changes nothing. */
  lemma BindRefused(s: Terminals, t: nat, fd: nat, h: Handle, a: Access, closes: bool)
    requires !Opened(s, t, fd) || (!a.read && !a.write)
    ensures Bind(s, t, fd, h, a, closes) == Outcome(s, Invalid)
  {}

  predicate SameConsole(d: Descriptor, e: Descriptor, fd: nat) {
    if fd == 0 then d.ConsoleInput? && e.ConsoleInput? else d.ConsoleOutput? && e.ConsoleOutput?
  }

  /** A clone gives a standard descriptor what another has, with that access or less. */
  lemma CloneExactly(s: Terminals, from: nat, sourceFd: nat, to: nat, fd: nat, a: Access, closes: bool)
    ensures Clone(s, from, sourceFd, to, fd, a, closes)
         == if !Opened(s, from, sourceFd) || !Opened(s, to, fd) || 3 <= fd || (!a.read && !a.write) then Outcome(s, Invalid)
            else
              var d, e := s.tables[from].slots[sourceFd], s.tables[to].slots[fd];
              if d == Unused || (a.read && !d.access.read) || (a.write && !d.access.write) then Outcome(s, Denied)
              else if d.Terminal? then Bind(s, to, fd, d.handle, a, closes)
              else Outcome(s, if SameConsole(d, e, fd) then Done else Denied)
  {
    hide Bind;
  }

  /** Closing: files as the VFS says, terminals always, the consoles never. */
  lemma CloseExactly(s: Terminals, t: nat, fd: nat, closes: bool)
    requires Inv(s) && Opened(s, t, fd)
    ensures var d, r := s.tables[t].slots[fd], CloseFd(s, t, fd, closes);
      && r.result == (match d
           case Unused => Invalid
           case ConsoleInput(_) => Denied
           case ConsoleOutput(_) => Denied
           case Regular(_) => if closes then Done else Corrupt
           case Terminal(_, _) => Done)
      && (r.result != Done ==> r.state == s)
      && (r.result == Done ==>
            && r.state.tables == s.tables[t := s.tables[t].(slots := s.tables[t].slots[fd := Unused])]
            && r.state.held == s.held && Inv(r.state))
  {
    ClearKeeps(s, t, fd);
    assert TableOk(s.tables[t]) && Placed(s.tables[t].slots[fd], fd);
    if s.tables[t].slots[fd].Terminal? {
      NamedIsLive(s, t, fd);
    }
    hide Inv, Clear, Live, Refs, TableOk;
  }

  /** The first descriptor past the standard ones that is not in use. */
  ghost predicate FirstFree(ds: seq<Descriptor>, fd: nat) {
    3 <= fd < |ds| && ds[fd] == Unused && forall k :: 3 <= k < fd ==> ds[k] != Unused
  }

  lemma FirstFreeIs(ds: seq<Descriptor>, fd: nat)
    requires 3 <= |ds|
    ensures FirstFree(ds, fd) <==> fd < |ds| && fd == FreeSlot(ds, 3)
  {
    var k := FreeSlot(ds, 3);
    assert k < |ds| ==> ds[k] == Unused;
  }

  /** A file opened by the VFS goes to the first free descriptor past the standard ones. */
  lemma OpenExactly(s: Terminals, t: nat, a: Access, opens: bool, fd: nat)
    requires Inv(s)
    ensures OpenRegular(s, t, a, opens).result == Installed(fd)
       <==> Opened(s, t, 3) && (a.read || a.write) && opens && FirstFree(s.tables[t].slots, fd)
    ensures OpenRegular(s, t, a, opens).result == Installed(fd) ==>
      OpenRegular(s, t, a, opens).state == s.(tables := s.tables[t := s.tables[t].(slots := s.tables[t].slots[fd := Regular(a)])])
    ensures !OpenRegular(s, t, a, opens).result.Installed? ==> OpenRegular(s, t, a, opens).state == s
  {
    if t < |s.tables| {
      assert TableOk(s.tables[t]);
      FirstFreeIs(s.tables[t].slots, fd);
    }
    hide Inv, FirstFree, FreeSlot;
  }

  /** So does a terminal that is live and not referenced too often. */
  lemma InstallExactly(s: Terminals, t: nat, h: Handle, a: Access, fd: nat)
    requires Inv(s)
    ensures Install(s, t, h, a).result == Installed(fd)
       <==> && Opened(s, t, 3) && (a.read || a.write) && FirstFree(s.tables[t].slots, fd)
            && Live(s.pairs, h) && Refs(s.pairs, h) != 0xffff_ffff
    ensures Install(s, t, h, a).result == Installed(fd) ==>
      Install(s, t, h, a).state.tables == s.tables[t := s.tables[t].(slots := s.tables[t].slots[fd := Terminal(a, h)])]
  {
    if t < |s.tables| {
      assert TableOk(s.tables[t]);
      FirstFreeIs(s.tables[t].slots, fd);
      var k := FreeSlot(s.tables[t].slots, 3);
      if Usable(s, t) && k < |s.tables[t].slots| {
        if ValidAccess(a) {
          BindExact(s, t, k, h, a, true);
          if Bind(s, t, k, h, a, true).result == Done {
            BindInstalls(s, t, k, h, a, true);
          }
        }
      }
    }
    hide Inv, FirstFree, FreeSlot, Bind, QueuesKept, Live, Refs;
  }

  /** A table starts with the consoles on its standard descriptors, and only once. */
  lemma InitExactly(s: Terminals, t: nat)
    ensures var r := InitTable(s, t);
      if t < |s.tables| && !s.tables[t].initialized then
        && r.result == Done && |r.state.tables| == |s.tables| && r.state == s.(tables := s.tables[t := r.state.tables[t]])
        && var u := r.state.tables[t];
           && u.initialized && |u.slots| == 16
           && u.slots[0] == ConsoleInput(Access(true, false))
           && u.slots[1] == ConsoleOutput(Access(false, true)) == u.slots[2]
           && forall fd :: 3 <= fd < 16 ==> u.slots[fd] == Unused
      else r == Outcome(s, Invalid)
  {}
}
