/**
 Pseudo-terminals and the descriptors that name them: pairs of byte queues, counted references
 to their two ends, and the tables the references come from. The rings are in module TerminalSystem.
 */
module PtySpec {
  import opened Machine
  import opened Collections

  const PAIRS: nat := 8
  const CAPACITY: nat := 4096
  const DESCRIPTORS: nat := 16
  const FIRST_REGULAR: nat := 3
  const REFS_MAX: nat := 0xffff_ffff
  const GENERATION_MAX: nat := 0xffff_ffff

  datatype End = Master | Slave
  datatype Handle = Handle(slot: nat, end: End, generation: nat)

  /** `toMaster` are the bytes the slave end wrote and the master end has not read. */
  datatype Pair = Pair(used: bool, generation: nat, masterRefs: nat, slaveRefs: nat, toMaster: seq<byte>, toSlave: seq<byte>)

  datatype Access = Access(read: bool, write: bool)

  datatype Descriptor =
    | Unused
    | ConsoleInput(access: Access)
    | ConsoleOutput(access: Access)
    | Regular(access: Access)
    | Terminal(access: Access, handle: Handle)

  datatype Table = Table(initialized: bool, slots: seq<Descriptor>)

  /** `held` are the references that belong to no descriptor: those of the creator of a pair. */
  datatype Terminals = Terminals(pairs: seq<Pair>, tables: seq<Table>, held: multiset<Handle>)

  const NO_PAIR: Pair := Pair(false, 0, 0, 0, [], [])

  // --------------------------------------------------------------------- pairs

  function PeerOf(e: End): End {
    if e == Master then Slave else Master
  }

  function RefsOf(p: Pair, e: End): nat {
    if e == Master then p.masterRefs else p.slaveRefs
  }

  function WithRefs(p: Pair, e: End, n: nat): Pair {
    if e == Master then p.(masterRefs := n) else p.(slaveRefs := n)
  }

  function Incoming(p: Pair, e: End): seq<byte> {
    if e == Master then p.toMaster else p.toSlave
  }

  function WithIncoming(p: Pair, e: End, q: seq<byte>): Pair {
    if e == Master then p.(toMaster := q) else p.(toSlave := q)
  }

  /** How many references there are to the end `h` names; none when `h` is stale. */
  function Refs(ps: seq<Pair>, h: Handle): nat {
    if h.slot < |ps| && h.generation != 0 && ps[h.slot].used && ps[h.slot].generation == h.generation
    then RefsOf(ps[h.slot], h.end) else 0
  }

  /** pair_from_handle answers a pair. */
  predicate Live(ps: seq<Pair>, h: Handle) {
    0 < Refs(ps, h)
  }

  function NextGeneration(g: nat): nat {
    if GENERATION_MAX <= g then 1 else g + 1
  }

  function FreePair(ps: seq<Pair>, i: nat): (k: nat)
    requires i <= |ps|
    ensures i <= k <= |ps| && (k < |ps| ==> !ps[k].used)
    ensures forall j :: i <= j < k ==> ps[j].used
    decreases |ps| - i
  {
    if i == |ps| || !ps[i].used then i else FreePair(ps, i + 1)
  }

  /** pty_close of a live handle; the last reference frees the pair. */
  function ClosePair(ps: seq<Pair>, h: Handle): (r: seq<Pair>)
    requires Live(ps, h)
    ensures |r| == |ps|
  {
    var p := WithRefs(ps[h.slot], h.end, RefsOf(ps[h.slot], h.end) - 1);
    ps[h.slot := if p.masterRefs == 0 && p.slaveRefs == 0 then NO_PAIR.(generation := p.generation) else p]
  }

  predicate CanRetain(ps: seq<Pair>, h: Handle) {
    Live(ps, h) && Refs(ps, h) != REFS_MAX
  }

  function RetainPair(ps: seq<Pair>, h: Handle): (r: seq<Pair>)
    requires Live(ps, h)
    ensures |r| == |ps|
  {
    ps[h.slot := WithRefs(ps[h.slot], h.end, RefsOf(ps[h.slot], h.end) + 1)]
  }

  datatype Result =
    | Created(master: Handle, slave: Handle) | Done | Installed(fd: nat) | Bytes(bytes: seq<byte>) | Wrote(count: nat)
    | Invalid | NoSpace | WouldBlock | Hup | Denied | Corrupt

  datatype Outcome = Outcome(state: Terminals, result: Result)

  function CreatePair(s: Terminals): Outcome {
    var i := FreePair(s.pairs, 0);
    if i == |s.pairs| then Outcome(s, NoSpace)
    else
      var g := NextGeneration(s.pairs[i].generation);
      Outcome(s.(pairs := s.pairs[i := Pair(true, g, 1, 1, [], [])],
                 held := s.held + multiset{Handle(i, Master, g), Handle(i, Slave, g)}),
              Created(Handle(i, Master, g), Handle(i, Slave, g)))
  }

  /** A creator gives up a reference of its own. */
  function Release(s: Terminals, h: Handle): Outcome {
    if Live(s.pairs, h) then Outcome(s.(pairs := ClosePair(s.pairs, h), held := s.held - multiset{h}), Done)
    else Outcome(s, Invalid)
  }

  function Read(s: Terminals, h: Handle, length: nat): Outcome {
    if !Live(s.pairs, h) then Outcome(s, Invalid)
    else if length == 0 then Outcome(s, Bytes([]))
    else
      var p := s.pairs[h.slot];
      var q := Incoming(p, h.end);
      var n := Min(length, |q|);
      if n == 0 then Outcome(s, if RefsOf(p, PeerOf(h.end)) == 0 then Hup else WouldBlock)
      else Outcome(s.(pairs := s.pairs[h.slot := WithIncoming(p, h.end, q[n..])]), Bytes(q[..n]))
  }

  function Write(s: Terminals, h: Handle, bytes: seq<byte>): Outcome {
    if !Live(s.pairs, h) then Outcome(s, Invalid)
    else if RefsOf(s.pairs[h.slot], PeerOf(h.end)) == 0 then Outcome(s, Hup)
    else
      var p := s.pairs[h.slot];
      var q := Incoming(p, PeerOf(h.end));
      var n := if CAPACITY <= |q| then 0 else Min(|bytes|, CAPACITY - |q|);
      if n == 0 then Outcome(s, WouldBlock)
      else Outcome(s.(pairs := s.pairs[h.slot := WithIncoming(p, PeerOf(h.end), q + bytes[..n])]), Wrote(n))
  }

  // --------------------------------------------------------------- descriptors

  predicate ValidAccess(a: Access) {
    a.read || a.write
  }

  predicate Usable(s: Terminals, t: nat) {
    t < |s.tables| && s.tables[t].initialized
  }

  function SetSlot(s: Terminals, t: nat, fd: nat, d: Descriptor): Terminals
    requires t < |s.tables| && fd < |s.tables[t].slots|
  {
    s.(tables := s.tables[t := s.tables[t].(slots := s.tables[t].slots[fd := d])])
  }

  /** The descriptor is closed and its slot cleared. */
  function Clear(s: Terminals, t: nat, fd: nat): Terminals
    requires t < |s.tables| && fd < |s.tables[t].slots|
  {
    var d := s.tables[t].slots[fd];
    var u := SetSlot(s, t, fd, Unused);
    if d.Terminal? && Live(s.pairs, d.handle) then u.(pairs := ClosePair(s.pairs, d.handle)) else u
  }

  /** What closing descriptor `d` as slot `fd` would answer; `closes` is the VFS's answer. */
  function Closing(s: Terminals, d: Descriptor, closes: bool): Option<Result> {
    if d.Regular? && !closes then Some(Corrupt)
    else if d.Terminal? && !Live(s.pairs, d.handle) then Some(Corrupt)
    else None
  }

  /** kernel_fd_bind_pty: the old descriptor goes first, even if it is the last to name the terminal. */
  function Bind(s: Terminals, t: nat, fd: nat, h: Handle, a: Access, closes: bool): Outcome {
    if !Usable(s, t) || |s.tables[t].slots| <= fd || !ValidAccess(a) then Outcome(s, Invalid)
    else if Closing(s, s.tables[t].slots[fd], closes).Some? then Outcome(s, Corrupt)
    else
      var u := Clear(s, t, fd);
      if !CanRetain(u.pairs, h) then Outcome(u, Invalid)
      else Outcome(SetSlot(u, t, fd, Terminal(a, h)).(pairs := RetainPair(u.pairs, h)), Done)
  }

  function FreeSlot(ds: seq<Descriptor>, i: nat): (k: nat)
    requires i <= |ds|
    ensures i <= k <= |ds| && (k < |ds| ==> ds[k] == Unused)
    ensures forall j :: i <= j < k ==> ds[j] != Unused
    decreases |ds| - i
  {
    if i == |ds| || ds[i] == Unused then i else FreeSlot(ds, i + 1)
  }

  function Install(s: Terminals, t: nat, h: Handle, a: Access): Outcome {
    if !Usable(s, t) || |s.tables[t].slots| < FIRST_REGULAR then Outcome(s, Invalid)
    else
      var fd := FreeSlot(s.tables[t].slots, FIRST_REGULAR);
      if fd == |s.tables[t].slots| then Outcome(s, NoSpace)
      else
        var r := Bind(s, t, fd, h, a, true);
        if r.result == Done then Outcome(r.state, Installed(fd)) else r
  }

  predicate Allows(have: Access, want: Access) {
    (want.read ==> have.read) && (want.write ==> have.write)
  }

  function Clone(s: Terminals, from: nat, sourceFd: nat, to: nat, targetFd: nat, a: Access, closes: bool): Outcome {
    if !Usable(s, from) || !Usable(s, to) || |s.tables[from].slots| <= sourceFd
       || FIRST_REGULAR <= targetFd || |s.tables[to].slots| <= targetFd || !ValidAccess(a)
    then Outcome(s, Invalid)
    else
      var d := s.tables[from].slots[sourceFd];
      if d == Unused || !Allows(d.access, a) then Outcome(s, Denied)
      else if d.Terminal? then Bind(s, to, targetFd, d.handle, a, closes)
      else
        var e := s.tables[to].slots[targetFd];
        if targetFd == 0 && d.ConsoleInput? && e.ConsoleInput? then Outcome(s, Done)
        else if targetFd != 0 && d.ConsoleOutput? && e.ConsoleOutput? then Outcome(s, Done)
        else Outcome(s, Denied)
  }

  function CloseFd(s: Terminals, t: nat, fd: nat, closes: bool): Outcome {
    if !Usable(s, t) || |s.tables[t].slots| <= fd then Outcome(s, Invalid)
    else
      var d := s.tables[t].slots[fd];
      if d == Unused || (d.Regular? && fd < FIRST_REGULAR) then Outcome(s, Invalid)
      else if d.ConsoleInput? || d.ConsoleOutput? then Outcome(s, Denied)
      else if Closing(s, d, closes).Some? then Outcome(s, if d.Terminal? then Invalid else Corrupt)
      else Outcome(Clear(s, t, fd), Done)
  }

  /** The consoles may only be closed where they belong; the VFS does not close the files of the slots in `stuck`. */
  predicate Destroyable(s: Terminals, d: Descriptor, fd: nat, stuck: set<nat>) {
    match d
    case Unused => true
    case ConsoleInput(_) => fd == 0
    case ConsoleOutput(_) => fd == 1 || fd == 2
    case Regular(_) => FIRST_REGULAR <= fd && fd !in stuck
    case Terminal(_, h) => Live(s.pairs, h)
  }

  /** The loop of kernel_fd_table_destroy; it stops at a descriptor that will not close. */
  function DestroyFrom(s: Terminals, t: nat, fd: nat, stuck: set<nat>): (r: (Terminals, bool))
    requires t < |s.tables| && fd <= |s.tables[t].slots|
    ensures |r.0.tables| == |s.tables| && |r.0.tables[t].slots| == |s.tables[t].slots|
    decreases |s.tables[t].slots| - fd
  {
    if fd == |s.tables[t].slots| then (s, true)
    else if s.tables[t].slots[fd] == Unused then DestroyFrom(s, t, fd + 1, stuck)
    else if !Destroyable(s, s.tables[t].slots[fd], fd, stuck) then (s, false)
    else DestroyFrom(Clear(s, t, fd), t, fd + 1, stuck)
  }

  function Destroy(s: Terminals, t: nat, stuck: set<nat>): Outcome {
    if |s.tables| <= t then Outcome(s, Invalid)
    else if !s.tables[t].initialized then Outcome(s, Done)
    else
      var (u, ok) := DestroyFrom(s, t, 0, stuck);
      if ok then Outcome(u.(tables := u.tables[t := u.tables[t].(initialized := false)]), Done) else Outcome(u, Invalid)
  }

  function StandardSlots(): (ds: seq<Descriptor>)
    ensures |ds| == DESCRIPTORS
    ensures ds[0] == ConsoleInput(Access(true, false)) && ds[1] == ds[2] == ConsoleOutput(Access(false, true))
    ensures forall i :: 3 <= i < |ds| ==> ds[i] == Unused
  {
    [ConsoleInput(Access(true, false)), ConsoleOutput(Access(false, true)), ConsoleOutput(Access(false, true))]
    + seq(DESCRIPTORS - 3, i => Unused)
  }

  /** kernel_fd_table_init. */
  function InitTable(s: Terminals, t: nat): Outcome {
    if |s.tables| <= t || s.tables[t].initialized then Outcome(s, Invalid)
    else Outcome(s.(tables := s.tables[t := Table(true, StandardSlots())]), Done)
  }

  /** kernel_fd_open_regular of a file the VFS opens. */
  function OpenRegular(s: Terminals, t: nat, a: Access, opens: bool): Outcome {
    if !Usable(s, t) || !ValidAccess(a) || |s.tables[t].slots| < FIRST_REGULAR then Outcome(s, Invalid)
    else
      var fd := FreeSlot(s.tables[t].slots, FIRST_REGULAR);
      if fd == |s.tables[t].slots| then Outcome(s, NoSpace)
      else if !opens then Outcome(s, Corrupt)
      else Outcome(SetSlot(s, t, fd, Regular(a)), Installed(fd))
  }

  /** The terminal a descriptor names, if it may be used that way. */
  function TerminalAt(s: Terminals, t: nat, fd: nat, reading: bool): Option<Handle> {
    if !Usable(s, t) || |s.tables[t].slots| <= fd then None
    else
      var d := s.tables[t].slots[fd];
      if d.Terminal? && (if reading then d.access.read else d.access.write) then Some(d.handle) else None
  }

  // ------------------------------------------------------------------- runs

  datatype Call =
    | CreateCall
    | ReleaseCall(handle: Handle)
    | ReadCall(table: nat, fd: nat, length: nat)
    | WriteCall(table: nat, fd: nat, bytes: seq<byte>)
    | BindCall(table: nat, fd: nat, handle: Handle, access: Access, closes: bool)
    | InstallCall(table: nat, handle: Handle, access: Access)
    | CloneCall(source: nat, sourceFd: nat, table: nat, fd: nat, access: Access, closes: bool)
    | CloseCall(table: nat, fd: nat, closes: bool)
    | DestroyCall(table: nat, stuck: set<nat>)
    | InitCall(table: nat)
    | OpenCall(table: nat, access: Access, opens: bool)

  /** A creator releases only what it holds. */
  function Step(s: Terminals, call: Call): Outcome {
    match call
    case CreateCall => CreatePair(s)
    case ReleaseCall(h) => if h in s.held then Release(s, h) else Outcome(s, Invalid)
    case ReadCall(t, fd, length) =>
      (match TerminalAt(s, t, fd, true) case None => Outcome(s, Invalid) case Some(h) => Read(s, h, length))
    case WriteCall(t, fd, bytes) =>
      (match TerminalAt(s, t, fd, false) case None => Outcome(s, Invalid) case Some(h) => Write(s, h, bytes))
    case BindCall(t, fd, h, a, closes) => Bind(s, t, fd, h, a, closes)
    case InstallCall(t, h, a) => Install(s, t, h, a)
    case CloneCall(from, sfd, t, fd, a, closes) => Clone(s, from, sfd, t, fd, a, closes)
    case CloseCall(t, fd, closes) => CloseFd(s, t, fd, closes)
    case DestroyCall(t, stuck) => Destroy(s, t, stuck)
    case InitCall(t) => InitTable(s, t)
    case OpenCall(t, a, opens) => OpenRegular(s, t, a, opens)
  }

  function Run(s: Terminals, calls: seq<Call>): Terminals
    decreases |calls|
  {
    if calls == [] then s else Run(Step(s, calls[0]).state, calls[1..])
  }

  // -------------------------------------------------------------- invariant

  function NameIn(d: Descriptor): multiset<Handle> {
    if d.Terminal? then multiset{d.handle} else multiset{}
  }

  /** The handles a table's descriptors name, each as often as it is named. */
  function NamesIn(ds: seq<Descriptor>): multiset<Handle> {
    if ds == [] then multiset{} else NamesIn(ds[..|ds| - 1]) + NameIn(ds[|ds| - 1])
  }

  function Names(ts: seq<Table>): multiset<Handle> {
    if ts == [] then multiset{} else Names(ts[..|ts| - 1]) + NamesIn(ts[|ts| - 1].slots)
  }

  /** Every end has exactly as many references as descriptors and creators name it. */
  ghost predicate Counted(s: Terminals) {
    forall h: Handle :: Names(s.tables)[h] + s.held[h] == Refs(s.pairs, h)
  }

  ghost predicate PairOk(p: Pair) {
    && (p.used <==> p.masterRefs + p.slaveRefs != 0)
    && (p.used ==> p.generation != 0) && p.generation <= GENERATION_MAX
    && p.masterRefs <= REFS_MAX && p.slaveRefs <= REFS_MAX
    && |p.toMaster| <= CAPACITY && |p.toSlave| <= CAPACITY
  }

  /** Consoles stay on the standard descriptors, and files off them. */
  predicate Placed(d: Descriptor, fd: nat) {
    && (d.ConsoleInput? ==> fd == 0)
    && (d.ConsoleOutput? ==> fd == 1 || fd == 2)
    && (d.Regular? ==> FIRST_REGULAR <= fd)
  }

  ghost predicate TableOk(t: Table) {
    && |t.slots| == DESCRIPTORS
    && (!t.initialized ==> forall fd :: 0 <= fd < |t.slots| ==> t.slots[fd] == Unused)
    && forall fd :: 0 <= fd < |t.slots| ==> Placed(t.slots[fd], fd)
  }

  ghost predicate Shaped(s: Terminals) {
    && |s.pairs| == PAIRS
    && (forall i :: 0 <= i < |s.pairs| ==> PairOk(s.pairs[i]))
    && forall t :: 0 <= t < |s.tables| ==> TableOk(s.tables[t])
  }

  ghost predicate Inv(s: Terminals) {
    Shaped(s) && Counted(s)
  }

  // --------------------------------------------------------- counting names

  lemma {:induction false} NamesInUpdate(ds: seq<Descriptor>, i: nat, d: Descriptor)
    requires i < |ds|
    ensures NamesIn(ds[i := d]) + NameIn(ds[i]) == NamesIn(ds) + NameIn(d)
  {
    hide NameIn;
    var init, es := ds[..|ds| - 1], ds[i := d];
    assert NamesIn(es) == NamesIn(es[..|ds| - 1]) + NameIn(es[|ds| - 1]);
    if i < |init| {
      NamesInUpdate(init, i, d);
      assert es[..|ds| - 1] == init[i := d];
      AddLast(NamesIn(init[i := d]), NameIn(ds[i]), NamesIn(init), NameIn(d), NameIn(ds[|ds| - 1]));
    } else {
      assert es[..|ds| - 1] == init;
    }
  }

  lemma {:induction false} NamesUpdate(ts: seq<Table>, t: nat, u: Table)
    requires t < |ts|
    ensures Names(ts[t := u]) + NamesIn(ts[t].slots) == Names(ts) + NamesIn(u.slots)
  {
    hide NamesIn;
    var init, us := ts[..|ts| - 1], ts[t := u];
    assert Names(us) == Names(us[..|ts| - 1]) + NamesIn(us[|ts| - 1].slots);
    if t < |init| {
      NamesUpdate(init, t, u);
      assert us[..|ts| - 1] == init[t := u];
      AddLast(Names(init[t := u]), NamesIn(ts[t].slots), Names(init), NamesIn(u.slots), NamesIn(ts[|ts| - 1].slots));
    } else {
      assert us[..|ts| - 1] == init;
    }
  }

  /** Overwriting one descriptor changes how often handles are named by just that descriptor. */
  lemma SlotNames(s: Terminals, t: nat, fd: nat, d: Descriptor)
    requires t < |s.tables| && fd < |s.tables[t].slots|
    ensures var was := s.tables[t].slots[fd];
      forall h: Handle :: Names(SetSlot(s, t, fd, d).tables)[h] + NameIn(was)[h] == Names(s.tables)[h] + NameIn(d)[h]
  {
    var slots := s.tables[t].slots;
    var u := s.tables[t].(slots := slots[fd := d]);
    NamesInUpdate(slots, fd, d);
    NamesUpdate(s.tables, t, u);
    hide Names, NamesIn, NameIn;
    var a, b, c, e := Names(s.tables[t := u]), NamesIn(slots), Names(s.tables), NamesIn(u.slots);
    var x, y := NameIn(slots[fd]), NameIn(d);
    forall h: Handle ensures a[h] + x[h] == c[h] + y[h] {
      assert (a + b)[h] == (c + e)[h] && (e + x)[h] == (b + y)[h];
    }
  }

  // -------------------------------------------------------- counting references

  lemma CloseRefs(ps: seq<Pair>, h: Handle)
    requires Live(ps, h) && forall i :: 0 <= i < |ps| ==> PairOk(ps[i])
    ensures forall g: Handle :: Refs(ClosePair(ps, h), g) + (if g == h then 1 else 0) == Refs(ps, g)
    ensures forall i :: 0 <= i < |ps| ==> PairOk(ClosePair(ps, h)[i])
  {
    var rs := ClosePair(ps, h);
    assert PairOk(ps[h.slot]);
    assert forall i :: 0 <= i < |ps| && i != h.slot ==> rs[i] == ps[i];
  }

  lemma RetainRefs(ps: seq<Pair>, h: Handle)
    requires CanRetain(ps, h) && forall i :: 0 <= i < |ps| ==> PairOk(ps[i])
    ensures forall g: Handle :: Refs(RetainPair(ps, h), g) == Refs(ps, g) + if g == h then 1 else 0
    ensures forall i :: 0 <= i < |ps| ==> PairOk(RetainPair(ps, h)[i])
  {
    var rs := RetainPair(ps, h);
    assert PairOk(ps[h.slot]);
    assert forall i :: 0 <= i < |ps| && i != h.slot ==> rs[i] == ps[i];
  }

  /** Every name of a terminal is live: no descriptor outlives its pair. */
  lemma NamedIsLive(s: Terminals, t: nat, fd: nat)
    requires Inv(s) && t < |s.tables| && fd < |s.tables[t].slots| && s.tables[t].slots[fd].Terminal?
    ensures Live(s.pairs, s.tables[t].slots[fd].handle)
  {
    var h := s.tables[t].slots[fd].handle;
    SlotNames(s, t, fd, Unused);
    assert NameIn(s.tables[t].slots[fd])[h] == 1;
    hide Names, Refs;
    assert Names(s.tables)[h] + s.held[h] == Refs(s.pairs, h);
  }

  lemma InvIs(s: Terminals)
    ensures Inv(s) <==> Shaped(s) && Counted(s)
  {
    hide Shaped, Counted;
  }

  /** When names and references change alike, they go on agreeing. */
  lemma CountedMoves(s: Terminals, r: Terminals, was: Descriptor, now: Descriptor)
    requires Counted(s) && r.held == s.held
    requires forall h: Handle :: Names(r.tables)[h] + NameIn(was)[h] == Names(s.tables)[h] + NameIn(now)[h]
    requires forall h: Handle :: Refs(r.pairs, h) + NameIn(was)[h] == Refs(s.pairs, h) + NameIn(now)[h]
    ensures Counted(r)
  {
    hide Names, NameIn, Refs;
    forall h: Handle ensures Names(r.tables)[h] + r.held[h] == Refs(r.pairs, h) {
      assert Names(s.tables)[h] + s.held[h] == Refs(s.pairs, h);
    }
  }

  lemma ShapedSet(s: Terminals, r: Terminals, t: nat, fd: nat, d: Descriptor)
    requires Shaped(s) && t < |s.tables| && fd < |s.tables[t].slots| && (s.tables[t].initialized || d == Unused) && Placed(d, fd)
    requires r.tables == SetSlot(s, t, fd, d).tables && |r.pairs| == |s.pairs|
    requires forall i :: 0 <= i < |r.pairs| ==> PairOk(r.pairs[i])
    ensures Shaped(r)
  {
    hide PairOk;
    assert TableOk(s.tables[t]);
    assert forall u :: 0 <= u < |s.tables| && u != t ==> r.tables[u] == s.tables[u];
  }

  /** What closing descriptor `d` does to the references. */
  lemma ClearRefs(ps: seq<Pair>, rs: seq<Pair>, d: Descriptor)
    requires forall i :: 0 <= i < |ps| ==> PairOk(ps[i])
    requires d.Terminal? ==> Live(ps, d.handle)
    requires rs == if d.Terminal? then ClosePair(ps, d.handle) else ps
    ensures |rs| == |ps| && forall i :: 0 <= i < |rs| ==> PairOk(rs[i])
    ensures forall h: Handle :: Refs(rs, h) + NameIn(d)[h] == Refs(ps, h) + NameIn(Unused)[h]
  {
    if d.Terminal? {
      CloseRefs(ps, d.handle);
    }
    hide Refs, PairOk, ClosePair;
  }

  lemma ClearIs(s: Terminals, t: nat, fd: nat)
    requires Shaped(s) && t < |s.tables| && fd < |s.tables[t].slots|
    requires s.tables[t].slots[fd].Terminal? ==> Live(s.pairs, s.tables[t].slots[fd].handle)
    ensures var r, d := Clear(s, t, fd), s.tables[t].slots[fd];
      && r.tables == SetSlot(s, t, fd, Unused).tables && r.held == s.held && |r.tables| == |s.tables|
      && r.pairs == (if d.Terminal? then ClosePair(s.pairs, d.handle) else s.pairs)
      && (forall i :: 0 <= i < |s.pairs| ==> PairOk(s.pairs[i]))
      && (forall u :: 0 <= u < |s.tables| && u != t ==> r.tables[u] == s.tables[u])
      && r.tables[t] == s.tables[t].(slots := s.tables[t].slots[fd := Unused])
  {}

  lemma UnusedPlaced(fd: nat)
    ensures Placed(Unused, fd)
  {}

  lemma ClearKeeps(s: Terminals, t: nat, fd: nat)
    requires Inv(s) && t < |s.tables| && fd < |s.tables[t].slots|
    ensures var r := Clear(s, t, fd);
      && Inv(r) && r.held == s.held && |r.tables| == |s.tables|
      && (forall u :: 0 <= u < |s.tables| && u != t ==> r.tables[u] == s.tables[u])
      && r.tables[t] == s.tables[t].(slots := s.tables[t].slots[fd := Unused])
  {
    hide *;
    UnusedPlaced(fd);
    var r, d := Clear(s, t, fd), s.tables[t].slots[fd];
    InvIs(s);
    InvIs(r);
    if d.Terminal? {
      NamedIsLive(s, t, fd);
    }
    ClearIs(s, t, fd);
    ClearRefs(s.pairs, r.pairs, d);
    SlotNames(s, t, fd, Unused);
    CountedMoves(s, r, d, Unused);
    ShapedSet(s, r, t, fd, Unused);
  }

  lemma BindKeeps(s: Terminals, t: nat, fd: nat, h: Handle, a: Access, closes: bool)
    requires Inv(s)
    ensures Inv(Bind(s, t, fd, h, a, closes).state)
  {
    if Usable(s, t) && fd < |s.tables[t].slots| {
      ClearKeeps(s, t, fd);
      var u := Clear(s, t, fd);
      if CanRetain(u.pairs, h) {
        AddKeeps(u, SetSlot(u, t, fd, Terminal(a, h)).(pairs := RetainPair(u.pairs, h)), t, fd, Terminal(a, h));
      }
    }
    hide Inv, Clear, CanRetain;
  }

  lemma SlotIs(s: Terminals, t: nat, fd: nat)
    requires Usable(s, t)
    ensures t < |s.tables| && s.tables[t].initialized
    ensures Shaped(s) ==> forall i :: 0 <= i < |s.pairs| ==> PairOk(s.pairs[i])
  {}

  lemma AddedRefs(ps: seq<Pair>, rs: seq<Pair>, d: Descriptor)
    requires (forall i :: 0 <= i < |ps| ==> PairOk(ps[i])) && (d.Terminal? ==> CanRetain(ps, d.handle))
    requires rs == if d.Terminal? then RetainPair(ps, d.handle) else ps
    ensures |rs| == |ps| && forall i :: 0 <= i < |rs| ==> PairOk(rs[i])
    ensures forall h: Handle :: Refs(rs, h) + NameIn(Unused)[h] == Refs(ps, h) + NameIn(d)[h]
  {
    if d.Terminal? {
      RetainRefs(ps, d.handle);
    }
    hide Refs, PairOk, RetainPair;
  }

  /** A new descriptor in a free slot, with the reference it needs. */
  lemma AddKeeps(s: Terminals, r: Terminals, t: nat, fd: nat, d: Descriptor)
    requires Inv(s) && Usable(s, t) && fd < |s.tables[t].slots| && s.tables[t].slots[fd] == Unused
    requires Placed(d, fd) && (d.Terminal? ==> CanRetain(s.pairs, d.handle))
    requires d.Terminal? ==> Live(s.pairs, d.handle)
    requires r == SetSlot(s, t, fd, d).(pairs := if d.Terminal? then RetainPair(s.pairs, d.handle) else s.pairs)
    ensures Inv(r)
  {
    hide *;
    InvIs(s);
    InvIs(r);
    SlotIs(s, t, fd);
    SetSlotIs(s, t, fd, d);
    AddedRefs(s.pairs, r.pairs, d);
    SlotNames(s, t, fd, d);
    CountedMoves(s, r, Unused, d);
    ShapedSet(s, r, t, fd, d);
  }

  lemma SetSlotIs(s: Terminals, t: nat, fd: nat, d: Descriptor)
    requires t < |s.tables| && fd < |s.tables[t].slots|
    ensures SetSlot(s, t, fd, d).held == s.held && SetSlot(s, t, fd, d).pairs == s.pairs
  {}

  /** The pair a creation takes is one that nothing names, whatever its generation. */
  lemma CreateFresh(s: Terminals, h: Handle)
    requires Inv(s) && CreatePair(s).result.Created? && h.slot == CreatePair(s).result.master.slot
    ensures Names(s.tables)[h] == 0 == s.held[h]
  {
    hide Names;
    assert Names(s.tables)[h] + s.held[h] == Refs(s.pairs, h);
  }

  lemma CreateRefs(ps: seq<Pair>, i: nat, g: nat)
    requires i < |ps| && !ps[i].used && g != 0 && forall j :: 0 <= j < |ps| ==> PairOk(ps[j])
    ensures forall h: Handle ::
      Refs(ps[i := Pair(true, g, 1, 1, [], [])], h)
      == Refs(ps, h) + if h == Handle(i, Master, g) || h == Handle(i, Slave, g) then 1 else 0
  {
    var rs := ps[i := Pair(true, g, 1, 1, [], [])];
    assert forall j :: 0 <= j < |ps| && j != i ==> rs[j] == ps[j];
  }

  lemma CreateCounts(s: Terminals)
    requires Inv(s) && CreatePair(s).result.Created?
    ensures Counted(CreatePair(s).state)
  {
    var r, i := CreatePair(s).state, FreePair(s.pairs, 0);
    CreateRefs(s.pairs, i, NextGeneration(s.pairs[i].generation));
    hide Names, Refs, PairOk, TableOk;
    forall h: Handle ensures Names(r.tables)[h] + r.held[h] == Refs(r.pairs, h) {
      assert Names(s.tables)[h] + s.held[h] == Refs(s.pairs, h);
    }
  }

  lemma CreateKeeps(s: Terminals)
    requires Inv(s)
    ensures Inv(CreatePair(s).state)
  {
    hide Counted, TableOk;
    var r := CreatePair(s);
    if r.result.Created? {
      CreateCounts(s);
      var i := FreePair(s.pairs, 0);
      assert forall j :: 0 <= j < |s.pairs| && j != i ==> r.state.pairs[j] == s.pairs[j];
    }
  }

  lemma ReleaseKeeps(s: Terminals, h: Handle)
    requires Inv(s) && h in s.held
    ensures Inv(Release(s, h).state) && Release(s, h).result == Done
  {
    hide *;
    InvIs(s);
    HeldIsLive(s, h);
    ReleaseCloses(s, h);
    CloseRefs(s.pairs, h);
    var r := Release(s, h).state;
    InvIs(r);
    CountedRelease(s, r, h);
    ShapedPairs(s, r);
  }

  /** A terminal whose creator holds it is live. */
  lemma HeldIsLive(s: Terminals, h: Handle)
    requires Inv(s) && h in s.held
    ensures Live(s.pairs, h) && forall i :: 0 <= i < |s.pairs| ==> PairOk(s.pairs[i])
  {
    hide Names, PairOk;
    assert Names(s.tables)[h] + s.held[h] == Refs(s.pairs, h);
  }

  lemma ReleaseCloses(s: Terminals, h: Handle)
    requires Live(s.pairs, h)
    ensures Release(s, h) == Outcome(s.(pairs := ClosePair(s.pairs, h), held := s.held - multiset{h}), Done)
  {}

  lemma CountedRelease(s: Terminals, r: Terminals, h: Handle)
    requires Counted(s) && h in s.held && r.tables == s.tables && r.held == s.held - multiset{h}
    requires forall g: Handle :: Refs(r.pairs, g) + (if g == h then 1 else 0) == Refs(s.pairs, g)
    ensures Counted(r)
  {
    hide Names, Refs;
    forall g: Handle ensures Names(r.tables)[g] + r.held[g] == Refs(r.pairs, g) {
      assert Names(s.tables)[g] + s.held[g] == Refs(s.pairs, g);
    }
  }

  lemma ShapedPairs(s: Terminals, r: Terminals)
    requires Shaped(s) && r.tables == s.tables && |r.pairs| == |s.pairs|
    requires forall i :: 0 <= i < |r.pairs| ==> PairOk(r.pairs[i])
    ensures Shaped(r)
  {
    hide PairOk, TableOk;
  }

  /** Changing only what waits in a pair changes no reference. */
  lemma QueueKeeps(s: Terminals, i: nat, p: Pair)
    requires Inv(s) && i < |s.pairs| && PairOk(p)
    requires p.(toMaster := [], toSlave := []) == s.pairs[i].(toMaster := [], toSlave := [])
    ensures Inv(s.(pairs := s.pairs[i := p]))
  {
    var r := s.(pairs := s.pairs[i := p]);
    hide Names;
    forall g: Handle ensures Refs(r.pairs, g) == Refs(s.pairs, g) {}
    hide Refs, PairOk;
    forall g: Handle ensures Names(r.tables)[g] + r.held[g] == Refs(r.pairs, g) {
      assert Names(s.tables)[g] + s.held[g] == Refs(s.pairs, g);
    }
  }

  lemma ReadKeeps(s: Terminals, h: Handle, length: nat)
    requires Inv(s)
    ensures Inv(Read(s, h, length).state)
  {
    if Live(s.pairs, h) {
      var q := Incoming(s.pairs[h.slot], h.end);
      assert PairOk(s.pairs[h.slot]);
      QueueKeeps(s, h.slot, WithIncoming(s.pairs[h.slot], h.end, q[Min(length, |q|)..]));
    }
  }

  lemma WriteKeeps(s: Terminals, h: Handle, bytes: seq<byte>)
    requires Inv(s)
    ensures Inv(Write(s, h, bytes).state)
  {
    if Write(s, h, bytes).result.Wrote? {
      var q := Incoming(s.pairs[h.slot], PeerOf(h.end));
      assert PairOk(s.pairs[h.slot]);
      QueueKeeps(s, h.slot, WithIncoming(s.pairs[h.slot], PeerOf(h.end), q + bytes[..Min(|bytes|, CAPACITY - |q|)]));
    }
  }

  lemma {:induction false} DestroyFromKeeps(s: Terminals, t: nat, fd: nat, stuck: set<nat>)
    requires Inv(s) && t < |s.tables| && s.tables[t].initialized && fd <= |s.tables[t].slots|
    requires forall k :: 0 <= k < fd ==> s.tables[t].slots[k] == Unused
    ensures var (r, ok) := DestroyFrom(s, t, fd, stuck);
      && Inv(r) && |r.tables| == |s.tables| && r.tables[t].initialized
      && (ok ==> forall k :: 0 <= k < |r.tables[t].slots| ==> r.tables[t].slots[k] == Unused)
      && forall u :: 0 <= u < |s.tables| && u != t ==> r.tables[u] == s.tables[u]
    decreases |s.tables[t].slots| - fd
  {
    hide Inv, Clear;
    if fd < |s.tables[t].slots| {
      if s.tables[t].slots[fd] == Unused {
        DestroyFromKeeps(s, t, fd + 1, stuck);
      } else if Destroyable(s, s.tables[t].slots[fd], fd, stuck) {
        ClearKeeps(s, t, fd);
        DestroyFromKeeps(Clear(s, t, fd), t, fd + 1, stuck);
      }
    }
  }

  lemma DestroyKeeps(s: Terminals, t: nat, stuck: set<nat>)
    requires Inv(s)
    ensures Inv(Destroy(s, t, stuck).state)
  {
    if t < |s.tables| && s.tables[t].initialized {
      DestroyFromKeeps(s, t, 0, stuck);
      var (u, ok) := DestroyFrom(s, t, 0, stuck);
      if ok {
        FlagKeeps(u, t, false);
      }
      hide DestroyFrom, Inv;
    }
  }

  /** A table without descriptors may be marked as initialised or not. */
  lemma FlagKeeps(s: Terminals, t: nat, b: bool)
    requires Inv(s) && t < |s.tables| && forall fd :: 0 <= fd < |s.tables[t].slots| ==> s.tables[t].slots[fd] == Unused
    ensures Inv(s.(tables := s.tables[t := s.tables[t].(initialized := b)]))
  {
    var r := s.(tables := s.tables[t := s.tables[t].(initialized := b)]);
    hide Names, NamesIn, Refs, PairOk;
    FlagCounts(s, r, t);
    assert TableOk(s.tables[t]);
    hide Counted;
  }

  lemma FlagCounts(s: Terminals, r: Terminals, t: nat)
    requires Counted(s) && t < |s.tables| == |r.tables| && r == s.(tables := s.tables[t := r.tables[t]])
    requires r.tables[t].slots == s.tables[t].slots
    ensures Counted(r)
  {
    hide Names, NamesIn, Refs;
    NamesUpdate(s.tables, t, r.tables[t]);
    forall g: Handle ensures Names(r.tables)[g] + r.held[g] == Refs(r.pairs, g) {
      assert (Names(r.tables) + NamesIn(s.tables[t].slots))[g] == (Names(s.tables) + NamesIn(s.tables[t].slots))[g];
      assert Names(s.tables)[g] + s.held[g] == Refs(s.pairs, g);
    }
  }

  lemma {:induction false} NothingNamed(ds: seq<Descriptor>)
    requires forall fd :: 0 <= fd < |ds| ==> !ds[fd].Terminal?
    ensures NamesIn(ds) == multiset{}
  {
    if ds != [] {
      NothingNamed(ds[..|ds| - 1]);
    }
  }

  lemma InitKeeps(s: Terminals, t: nat)
    requires Inv(s)
    ensures Inv(InitTable(s, t).state)
  {
    var r := InitTable(s, t).state;
    if t < |s.tables| && !s.tables[t].initialized {
      InitCounts(s, r, t);
      StandardPlaced();
      hide Counted, StandardSlots, TableOk, PairOk;
      assert forall u :: 0 <= u < |s.tables| && u != t ==> r.tables[u] == s.tables[u];
    }
  }

  lemma InitCounts(s: Terminals, r: Terminals, t: nat)
    requires Inv(s) && t < |s.tables| && !s.tables[t].initialized && r == InitTable(s, t).state
    ensures Counted(r)
  {
    assert TableOk(s.tables[t]);
    NothingNamed(s.tables[t].slots);
    NothingNamed(StandardSlots());
    hide Names, NamesIn, Refs, PairOk, StandardSlots;
    NamesUpdate(s.tables, t, r.tables[t]);
    forall g: Handle ensures Names(r.tables)[g] + r.held[g] == Refs(r.pairs, g) {
      assert (Names(r.tables) + multiset{})[g] == (Names(s.tables) + multiset{})[g];
      assert Names(s.tables)[g] + s.held[g] == Refs(s.pairs, g);
    }
  }

  lemma StandardPlaced()
    ensures TableOk(Table(true, StandardSlots()))
  {
    assert forall fd :: 0 <= fd < DESCRIPTORS ==> fd == 0 || fd == 1 || fd == 2 || StandardSlots()[fd] == Unused;
  }

  lemma OpenKeeps(s: Terminals, t: nat, a: Access, opens: bool)
    requires Inv(s)
    ensures Inv(OpenRegular(s, t, a, opens).state)
  {
    var r := OpenRegular(s, t, a, opens);
    if r.result.Installed? {
      var fd := FreeSlot(s.tables[t].slots, FIRST_REGULAR);
      AddKeeps(s, r.state, t, fd, Regular(a));
    }
    hide Inv;
  }

  /** Whatever is called, references go on equalling names. */
  lemma StepKeeps(s: Terminals, call: Call)
    requires Inv(s)
    ensures Inv(Step(s, call).state)
  {
    hide Inv, CreatePair, Release, Read, Write, Bind, Clear, Destroy, InitTable, OpenRegular, TerminalAt;
    match call
    case CreateCall => CreateKeeps(s);
    case ReleaseCall(h) =>
      if h in s.held {
        ReleaseKeeps(s, h);
      }
    case ReadCall(t, fd, length) =>
      if TerminalAt(s, t, fd, true).Some? {
        ReadKeeps(s, TerminalAt(s, t, fd, true).value, length);
      }
    case WriteCall(t, fd, bytes) =>
      if TerminalAt(s, t, fd, false).Some? {
        WriteKeeps(s, TerminalAt(s, t, fd, false).value, bytes);
      }
    case BindCall(t, fd, h, a, closes) => BindKeeps(s, t, fd, h, a, closes);
    case InstallCall(t, h, a) =>
      if Usable(s, t) && FIRST_REGULAR <= |s.tables[t].slots| {
        BindKeeps(s, t, FreeSlot(s.tables[t].slots, FIRST_REGULAR), h, a, true);
      }
    case CloneCall(from, sfd, t, fd, a, closes) =>
      if Usable(s, from) && sfd < |s.tables[from].slots| && s.tables[from].slots[sfd].Terminal? {
        BindKeeps(s, t, fd, s.tables[from].slots[sfd].handle, a, closes);
      }
    case CloseCall(t, fd, closes) =>
      if Usable(s, t) && fd < |s.tables[t].slots| {
        ClearKeeps(s, t, fd);
      }
    case DestroyCall(t, stuck) => DestroyKeeps(s, t, stuck);
    case InitCall(t) => InitKeeps(s, t);
    case OpenCall(t, a, opens) => OpenKeeps(s, t, a, opens);
  }

  lemma {:induction false} RunKeeps(s: Terminals, calls: seq<Call>)
    requires Inv(s)
    ensures Inv(Run(s, calls))
    decreases |calls|
  {
    if calls != [] {
      StepKeeps(s, calls[0]);
      RunKeeps(Step(s, calls[0]).state, calls[1..]);
    }
  }

  // ------------------------------------------------------------- exact answers

  lemma RefsBound(s: Terminals, h: Handle)
    requires Inv(s)
    ensures Refs(s.pairs, h) <= REFS_MAX
  {}

  /** The old descriptor can go: a file closes, and a terminal always does. */
  predicate Yields(d: Descriptor, closes: bool) {
    d.Regular? ==> closes
  }

  /**
   The new reference can be had. A descriptor that names the very end being bound gives its own
   up first, so it must not hold the last one.
   */
  predicate Bindable(s: Terminals, d: Descriptor, h: Handle) {
    && Live(s.pairs, h)
    && if d.Terminal? && d.handle == h then 1 < Refs(s.pairs, h) else Refs(s.pairs, h) != REFS_MAX
  }

  /** What bind answers, by what can be seen before the call. */
  lemma BindExact(s: Terminals, t: nat, fd: nat, h: Handle, a: Access, closes: bool)
    requires Inv(s) && Usable(s, t) && fd < DESCRIPTORS && ValidAccess(a)
    ensures fd < |s.tables[t].slots|
    ensures var d := s.tables[t].slots[fd];
      Bind(s, t, fd, h, a, closes).result == if !Yields(d, closes) then Corrupt else if Bindable(s, d, h) then Done else Invalid
  {
    RefsBound(s, h);
    assert TableOk(s.tables[t]);
    var d := s.tables[t].slots[fd];
    if d.Terminal? {
      NamedIsLive(s, t, fd);
      CloseRefs(s.pairs, d.handle);
    }
    hide Refs, ClosePair, Names, RetainPair, PairOk;
  }

  /** What closing descriptor `d` leaves of the pairs. */
  ghost predicate Dropped(ps: seq<Pair>, rs: seq<Pair>, d: Descriptor) {
    && |rs| == |ps|
    && (forall g: Handle :: Refs(rs, g) + NameIn(d)[g] == Refs(ps, g))
    && forall i :: 0 <= i < |ps| ==>
         if !d.Terminal? || i != d.handle.slot then rs[i] == ps[i]
         else if ps[i].masterRefs + ps[i].slaveRefs == 1 then rs[i] == NO_PAIR.(generation := ps[i].generation)
         else rs[i].used && rs[i].toMaster == ps[i].toMaster && rs[i].toSlave == ps[i].toSlave
  }

  lemma CloseDrops(ps: seq<Pair>, d: Descriptor)
    requires (forall i :: 0 <= i < |ps| ==> PairOk(ps[i])) && (d.Terminal? ==> Live(ps, d.handle))
    ensures Dropped(ps, if d.Terminal? then ClosePair(ps, d.handle) else ps, d)
  {
    if d.Terminal? {
      CloseRefs(ps, d.handle);
      assert PairOk(ps[d.handle.slot]);
    }
    hide PairOk;
  }

  /**
   A bind that fails for want of a reference has cleared the descriptor all the same. What the
   descriptor named has lost that reference; if it was the last to either end, the pair is free
   and the bytes that waited in it are gone.
   */
  lemma BindFailure(s: Terminals, t: nat, fd: nat, h: Handle, a: Access, closes: bool)
    requires Inv(s) && Usable(s, t) && fd < DESCRIPTORS && fd < |s.tables[t].slots| && ValidAccess(a)
    requires Yields(s.tables[t].slots[fd], closes) && !Bindable(s, s.tables[t].slots[fd], h)
    ensures var r := Bind(s, t, fd, h, a, closes);
      && r.result == Invalid && r.state.held == s.held
      && r.state.tables == s.tables[t := s.tables[t].(slots := s.tables[t].slots[fd := Unused])]
      && Dropped(s.pairs, r.state.pairs, s.tables[t].slots[fd])
  {
    BindExact(s, t, fd, h, a, closes);
    var d := s.tables[t].slots[fd];
    if d.Terminal? {
      NamedIsLive(s, t, fd);
    }
    CloseDrops(s.pairs, d);
    hide Names, RetainPair, PairOk, ClosePair, Refs, Dropped, Counted;
  }

  /** A table before kernel_fd_table_init. */
  function ClosedTable(): (t: Table)
    ensures |t.slots| == DESCRIPTORS && !t.initialized && forall fd :: 0 <= fd < DESCRIPTORS ==> t.slots[fd] == Unused
  {
    Table(false, seq(DESCRIPTORS, fd => Unused))
  }

  /** pty_init, with the tables of `processes` processes. */
  function Initial(processes: nat): (s: Terminals)
    ensures |s.pairs| == PAIRS && forall i :: 0 <= i < PAIRS ==> s.pairs[i] == NO_PAIR
    ensures |s.tables| == processes && forall t :: 0 <= t < processes ==> s.tables[t] == ClosedTable()
    ensures s.held == multiset{}
  {
    Terminals(seq(PAIRS, i => NO_PAIR), seq(processes, t => ClosedTable()), multiset{})
  }

  lemma InitialInv(processes: nat)
    ensures Inv(Initial(processes))
  {
    NothingNamedAt(Initial(processes).tables);
  }

  lemma {:induction false} NothingNamedAt(ts: seq<Table>)
    requires forall t :: 0 <= t < |ts| ==> ts[t] == ClosedTable()
    ensures Names(ts) == multiset{}
  {
    if ts != [] {
      NothingNamedAt(ts[..|ts| - 1]);
      NothingNamed(ts[|ts| - 1].slots);
    }
  }

  const MASTER: Handle := Handle(0, Master, 1)
  const SLAVE: Handle := Handle(0, Slave, 1)
  const BOTH: Access := Access(true, true)

  /** A terminal whose slave end wrote a byte and closed, and whose master end only descriptor 3 names. */
  const LAST_NAME: seq<Call> := [
    InitCall(0), CreateCall, InstallCall(0, MASTER, BOTH), ReleaseCall(MASTER),
    InstallCall(0, SLAVE, BOTH), WriteCall(0, 4, [7]), CloseCall(0, 4, true), ReleaseCall(SLAVE)]

  function OnePair(p: Pair, slots: seq<Descriptor>, held: multiset<Handle>): Terminals {
    Terminals(seq(PAIRS, i => NO_PAIR)[0 := p], [Table(true, slots)], held)
  }

  predicate Names0(p: Pair, h: Handle) {
    h.slot == 0 && p.used && h.generation == p.generation != 0 && 0 < RefsOf(p, h.end) < REFS_MAX
  }

  lemma OnePairIs(p: Pair, q: Pair, slots: seq<Descriptor>, held: multiset<Handle>)
    ensures var s := OnePair(p, slots, held);
      && |s.pairs| == PAIRS && s.pairs[0] == p && s.pairs[0 := q] == OnePair(q, slots, held).pairs
      && s.tables[0] == Table(true, slots)
  {}

  lemma InstallOne(p: Pair, slots: seq<Descriptor>, held: multiset<Handle>, h: Handle, fd: nat)
    requires Names0(p, h) && FIRST_REGULAR <= fd < |slots| && fd == FreeSlot(slots, FIRST_REGULAR)
    ensures Step(OnePair(p, slots, held), InstallCall(0, h, BOTH)).state
         == OnePair(WithRefs(p, h.end, RefsOf(p, h.end) + 1), slots[fd := Terminal(BOTH, h)], held)
  {
    var s := OnePair(p, slots, held);
    OnePairIs(p, WithRefs(p, h.end, RefsOf(p, h.end) + 1), slots, held);
    assert slots[fd := Unused] == slots && [Table(true, slots)][0 := Table(true, slots)] == [Table(true, slots)];
    hide OnePair, FreeSlot;
    assert Clear(s, 0, fd) == s;
  }

  lemma ReleaseOne(p: Pair, slots: seq<Descriptor>, held: multiset<Handle>, h: Handle)
    requires Names0(p, h) && h in held && 1 < p.masterRefs + p.slaveRefs
    ensures Step(OnePair(p, slots, held), ReleaseCall(h)).state
         == OnePair(WithRefs(p, h.end, RefsOf(p, h.end) - 1), slots, held - multiset{h})
  {
    OnePairIs(p, WithRefs(p, h.end, RefsOf(p, h.end) - 1), slots, held);
  }

  lemma CloseOne(p: Pair, slots: seq<Descriptor>, held: multiset<Handle>, h: Handle, fd: nat)
    requires Names0(p, h) && fd < |slots| && slots[fd] == Terminal(BOTH, h) && 1 < p.masterRefs + p.slaveRefs
    ensures Step(OnePair(p, slots, held), CloseCall(0, fd, true)).state
         == OnePair(WithRefs(p, h.end, RefsOf(p, h.end) - 1), slots[fd := Unused], held)
  {
    OnePairIs(p, WithRefs(p, h.end, RefsOf(p, h.end) - 1), slots, held);
  }

  lemma WriteOne(p: Pair, slots: seq<Descriptor>, held: multiset<Handle>, h: Handle, fd: nat, b: byte)
    requires Names0(p, h) && fd < |slots| && slots[fd] == Terminal(BOTH, h)
    requires RefsOf(p, PeerOf(h.end)) != 0 && Incoming(p, PeerOf(h.end)) == []
    ensures Step(OnePair(p, slots, held), WriteCall(0, fd, [b])).state
         == OnePair(WithIncoming(p, PeerOf(h.end), [b]), slots, held)
  {
    OnePairIs(p, WithIncoming(p, PeerOf(h.end), [b]), slots, held);
    assert [] + [b][..1] == [b];
  }

  lemma StartOne()
    ensures var s1 := OnePair(NO_PAIR, StandardSlots(), multiset{});
      && Step(Initial(1), InitCall(0)).state == s1
      && Step(s1, CreateCall).state == OnePair(Pair(true, 1, 1, 1, [], []), StandardSlots(), multiset{MASTER, SLAVE})
  {
    var s1 := OnePair(NO_PAIR, StandardSlots(), multiset{});
    OnePairIs(NO_PAIR, Pair(true, 1, 1, 1, [], []), StandardSlots(), multiset{});
    assert Initial(1).pairs == s1.pairs;
    assert Initial(1).tables[0 := Table(true, StandardSlots())] == s1.tables;
    assert FreePair(s1.pairs, 0) == 0;
    assert multiset{} + multiset{MASTER, SLAVE} == multiset{MASTER, SLAVE};
  }

  lemma RunFrom(s: Terminals, call: Call, u: Terminals, calls: seq<Call>, k: nat)
    requires k < |calls| && calls[k] == call && Step(s, call).state == u
    ensures Run(s, calls[k..]) == Run(u, calls[k + 1..])
  {
    hide Step;
    assert calls[k..][1..] == calls[k + 1..];
  }

  lemma BothInstalled()
    ensures Run(Initial(1), LAST_NAME)
         == Run(OnePair(Pair(true, 1, 1, 2, [], []),
                        StandardSlots()[3 := Terminal(BOTH, MASTER)][4 := Terminal(BOTH, SLAVE)], multiset{SLAVE}),
                LAST_NAME[5..])
  {
    var none, one := StandardSlots(), StandardSlots()[3 := Terminal(BOTH, MASTER)];
    assert FreeSlot(none, 3) == 3 && FreeSlot(one, 3) == 4;
    assert multiset{MASTER, SLAVE} - multiset{MASTER} == multiset{SLAVE};
    StartOne();
    var s2 := OnePair(Pair(true, 1, 1, 1, [], []), none, multiset{MASTER, SLAVE});
    var s3 := OnePair(Pair(true, 1, 2, 1, [], []), one, multiset{MASTER, SLAVE});
    var s4 := OnePair(Pair(true, 1, 1, 1, [], []), one, multiset{SLAVE});
    InstallOne(Pair(true, 1, 1, 1, [], []), none, multiset{MASTER, SLAVE}, MASTER, 3);
    ReleaseOne(Pair(true, 1, 2, 1, [], []), one, multiset{MASTER, SLAVE}, MASTER);
    InstallOne(Pair(true, 1, 1, 1, [], []), one, multiset{SLAVE}, SLAVE, 4);
    hide Step, OnePair, StandardSlots, FreeSlot, Initial, Run;
    assert LAST_NAME[0..] == LAST_NAME;
    RunFrom(Initial(1), InitCall(0), OnePair(NO_PAIR, none, multiset{}), LAST_NAME, 0);
    RunFrom(OnePair(NO_PAIR, none, multiset{}), CreateCall, s2, LAST_NAME, 1);
    RunFrom(s2, InstallCall(0, MASTER, BOTH), s3, LAST_NAME, 2);
    RunFrom(s3, ReleaseCall(MASTER), s4, LAST_NAME, 3);
    RunFrom(s4, InstallCall(0, SLAVE, BOTH), OnePair(Pair(true, 1, 1, 2, [], []), one[4 := Terminal(BOTH, SLAVE)], multiset{SLAVE}), LAST_NAME, 4);
  }

  lemma RunLastName()
    ensures Run(Initial(1), LAST_NAME)
         == OnePair(Pair(true, 1, 1, 0, [7], []), StandardSlots()[3 := Terminal(BOTH, MASTER)], multiset{})
  {
    var one := StandardSlots()[3 := Terminal(BOTH, MASTER)];
    var two := one[4 := Terminal(BOTH, SLAVE)];
    assert two[4 := Unused] == one;
    assert multiset{SLAVE} - multiset{SLAVE} == multiset{};
    var s5 := OnePair(Pair(true, 1, 1, 2, [], []), two, multiset{SLAVE});
    var s6 := OnePair(Pair(true, 1, 1, 2, [7], []), two, multiset{SLAVE});
    var s7 := OnePair(Pair(true, 1, 1, 1, [7], []), one, multiset{SLAVE});
    var s8 := OnePair(Pair(true, 1, 1, 0, [7], []), one, multiset{});
    WriteOne(Pair(true, 1, 1, 2, [], []), two, multiset{SLAVE}, SLAVE, 4, 7);
    CloseOne(Pair(true, 1, 1, 2, [7], []), two, multiset{SLAVE}, SLAVE, 4);
    ReleaseOne(Pair(true, 1, 1, 1, [7], []), one, multiset{SLAVE}, SLAVE);
    BothInstalled();
    assert Run(s8, []) == s8;
    hide Step, OnePair, StandardSlots, FreeSlot, Initial, Run;
    RunFrom(s5, WriteCall(0, 4, [7]), s6, LAST_NAME, 5);
    RunFrom(s6, CloseCall(0, 4, true), s7, LAST_NAME, 6);
    RunFrom(s7, ReleaseCall(SLAVE), s8, LAST_NAME, 7);
    assert LAST_NAME[8..] == [];
  }

  /**
   Binding descriptor 3 to the master end it already names fails after that run, although the
   terminal is live; the terminal is gone afterwards, with the byte that waited in it.
   */
  lemma RebindCanFail()
    ensures var s := Run(Initial(1), LAST_NAME);
      && Inv(s) && Usable(s, 0) && |s.tables[0].slots| == DESCRIPTORS
      && s.tables[0].slots[3] == Terminal(BOTH, MASTER) && Live(s.pairs, MASTER) && s.pairs[0].toMaster == [7]
      && var r := Bind(s, 0, 3, MASTER, BOTH, true);
      && r.result == Invalid && r.state.tables[0].slots[3] == Unused && r.state.pairs[0] == NO_PAIR.(generation := 1)
  {
    InitialInv(1);
    RunKeeps(Initial(1), LAST_NAME);
    RunLastName();
    var s := Run(Initial(1), LAST_NAME);
    var p, one := Pair(true, 1, 1, 0, [7], []), StandardSlots()[3 := Terminal(BOTH, MASTER)];
    OnePairIs(p, p, one, multiset{});
    assert s.pairs[0] == p && s.tables == [Table(true, one)];
    assert Refs(s.pairs, MASTER) == 1;
    hide Run, OnePair, StandardSlots, Inv, Bind;
    BindFailure(s, 0, 3, MASTER, BOTH, true);
  }

  /** No slot from `fd` on holds a file that the VFS will not close. */
  ghost predicate AllClose(ds: seq<Descriptor>, fd: nat, stuck: set<nat>) {
    forall k :: fd <= k < |ds| && ds[k].Regular? ==> k !in stuck
  }

  /** The slots from `fd` on are gone up to the first file that will not close, and the rest is as it was. */
  ghost predicate GoneUpTo(before: seq<Descriptor>, after: seq<Descriptor>, fd: nat, stuck: set<nat>) {
    && |after| == |before|
    && exists k :: fd <= k < |before| && before[k].Regular? && k in stuck && StopsAt(before, after, fd, k, stuck)
  }

  ghost predicate StopsAt(before: seq<Descriptor>, after: seq<Descriptor>, fd: nat, k: nat, stuck: set<nat>)
    requires |after| == |before| && fd <= k <= |before|
  {
    && (forall j :: fd <= j < k ==> after[j] == Unused && (before[j].Regular? ==> j !in stuck))
    && forall j :: (0 <= j < fd || k <= j < |before|) ==> after[j] == before[j]
  }

  /**
   A process's table goes exactly when the VFS closes every file in it, and all its references go
   with it; otherwise the slots before the first file that will not close are gone.
   */
  lemma DestroyExact(s: Terminals, t: nat, stuck: set<nat>)
    requires Inv(s) && Usable(s, t)
    ensures var r := Destroy(s, t, stuck);
      && |r.state.tables| == |s.tables|
      && (r.result == Done <==> AllClose(s.tables[t].slots, 0, stuck))
      && (r.result == Done ==> NamesIn(r.state.tables[t].slots) == multiset{} && !r.state.tables[t].initialized)
      && (r.result != Done ==> r.result == Invalid && GoneUpTo(s.tables[t].slots, r.state.tables[t].slots, 0, stuck))
  {
    DestroyGoes(s, t, 0, stuck);
    DestroyFromKeeps(s, t, 0, stuck);
    var (u, ok) := DestroyFrom(s, t, 0, stuck);
    if ok {
      NothingNamed(u.tables[t].slots);
    }
    hide DestroyFrom, NamesIn, Inv, AllClose, GoneUpTo;
  }

  lemma AllCloseStep(ds: seq<Descriptor>, fd: nat, stuck: set<nat>)
    requires fd < |ds|
    ensures AllClose(ds, fd, stuck) <==> (ds[fd].Regular? ==> fd !in stuck) && AllClose(ds, fd + 1, stuck)
    ensures AllClose(ds[fd := Unused], fd + 1, stuck) <==> AllClose(ds, fd + 1, stuck)
  {
    var now := ds[fd := Unused];
    if AllClose(now, fd + 1, stuck) {
      forall k | fd + 1 <= k < |ds| && ds[k].Regular? ensures k !in stuck {
        assert now[k] == ds[k];
      }
    }
  }

  lemma AllCloseEnd(ds: seq<Descriptor>, stuck: set<nat>)
    ensures AllClose(ds, |ds|, stuck)
  {}

  /** One slot more is gone. */
  lemma GoneStep(ds: seq<Descriptor>, after: seq<Descriptor>, fd: nat, stuck: set<nat>)
    requires fd < |ds| && (ds[fd].Regular? ==> fd !in stuck) && GoneUpTo(ds[fd := Unused], after, fd + 1, stuck)
    ensures GoneUpTo(ds, after, fd, stuck)
  {
    var now := ds[fd := Unused];
    var k :| fd + 1 <= k < |now| && now[k].Regular? && k in stuck && StopsAt(now, after, fd + 1, k, stuck);
    assert after[fd] == now[fd];
    forall j | (0 <= j < fd || k <= j < |ds|) ensures after[j] == ds[j] {
      assert after[j] == now[j];
    }
    forall j | fd <= j < k ensures after[j] == Unused && (ds[j].Regular? ==> j !in stuck) {
      assert j != fd ==> now[j] == ds[j];
    }
    assert StopsAt(ds, after, fd, k, stuck);
  }

  lemma StopsHere(ds: seq<Descriptor>, fd: nat, stuck: set<nat>)
    requires fd < |ds| && ds[fd].Regular? && fd in stuck
    ensures GoneUpTo(ds, ds, fd, stuck)
  {
    assert StopsAt(ds, ds, fd, fd, stuck);
  }

  lemma {:induction false} DestroyGoes(s: Terminals, t: nat, fd: nat, stuck: set<nat>)
    requires Inv(s) && Usable(s, t) && fd <= |s.tables[t].slots|
    ensures DestroyFrom(s, t, fd, stuck).1 <==> AllClose(s.tables[t].slots, fd, stuck)
    ensures !DestroyFrom(s, t, fd, stuck).1 ==>
      GoneUpTo(s.tables[t].slots, DestroyFrom(s, t, fd, stuck).0.tables[t].slots, fd, stuck)
    decreases |s.tables[t].slots| - fd
  {
    hide Inv, Clear, Destroyable, AllClose, GoneUpTo;
    var ds := s.tables[t].slots;
    AllCloseEnd(ds, stuck);
    if fd < |ds| {
      DestroyStep(s, t, fd, stuck);
      ClearKeeps(s, t, fd);
      AllCloseStep(ds, fd, stuck);
      if ds[fd] == Unused {
        DestroyGoes(s, t, fd + 1, stuck);
        assert ds[fd := Unused] == ds;
        if !DestroyFrom(s, t, fd, stuck).1 {
          GoneStep(ds, DestroyFrom(s, t, fd, stuck).0.tables[t].slots, fd, stuck);
        }
      } else if ds[fd].Regular? && fd in stuck {
        StopsHere(ds, fd, stuck);
      } else {
        DestroyGoes(Clear(s, t, fd), t, fd + 1, stuck);
        assert Clear(s, t, fd).tables[t].slots == ds[fd := Unused];
        if !DestroyFrom(s, t, fd, stuck).1 {
          GoneStep(ds, DestroyFrom(s, t, fd, stuck).0.tables[t].slots, fd, stuck);
        }
      }
    }
  }

  lemma DestroyStep(s: Terminals, t: nat, fd: nat, stuck: set<nat>)
    requires Inv(s) && Usable(s, t) && fd < |s.tables[t].slots|
    ensures Destroyable(s, s.tables[t].slots[fd], fd, stuck) <==> (s.tables[t].slots[fd].Regular? ==> fd !in stuck)
  {
    if s.tables[t].slots[fd].Terminal? {
      NamedIsLive(s, t, fd);
    }
    assert TableOk(s.tables[t]) && Placed(s.tables[t].slots[fd], fd);
  }

  // ------------------------------------------------------------------ delivery

  /** Pairs in use after are in use before, in the same life and with the same bytes waiting. */
  ghost predicate QueuesKept(s: Terminals, r: Terminals) {
    && |r.pairs| == |s.pairs|
    && forall i :: 0 <= i < |s.pairs| && r.pairs[i].used ==>
                     && s.pairs[i].used && r.pairs[i].generation == s.pairs[i].generation
                     && r.pairs[i].toMaster == s.pairs[i].toMaster && r.pairs[i].toSlave == s.pairs[i].toSlave
  }

  lemma KeptChain(s: Terminals, m: Terminals, r: Terminals)
    requires QueuesKept(s, m) && QueuesKept(m, r)
    ensures QueuesKept(s, r)
  {}

  lemma ClearKept(s: Terminals, t: nat, fd: nat)
    requires t < |s.tables| && fd < |s.tables[t].slots|
    ensures QueuesKept(s, Clear(s, t, fd))
  {}

  lemma BindKept(s: Terminals, t: nat, fd: nat, h: Handle, a: Access, closes: bool)
    ensures QueuesKept(s, Bind(s, t, fd, h, a, closes).state)
  {
    if Usable(s, t) && fd < |s.tables[t].slots| {
      ClearKept(s, t, fd);
    }
    hide Clear, Closing;
  }

  lemma {:induction false} DestroyFromKept(s: Terminals, t: nat, fd: nat, stuck: set<nat>)
    requires t < |s.tables| && fd <= |s.tables[t].slots|
    ensures QueuesKept(s, DestroyFrom(s, t, fd, stuck).0)
    decreases |s.tables[t].slots| - fd
  {
    if fd < |s.tables[t].slots| {
      if s.tables[t].slots[fd] == Unused {
        DestroyFromKept(s, t, fd + 1, stuck);
      } else if Destroyable(s, s.tables[t].slots[fd], fd, stuck) {
        ClearKept(s, t, fd);
        DestroyFromKept(Clear(s, t, fd), t, fd + 1, stuck);
        hide QueuesKept, Clear;
        KeptChain(s, Clear(s, t, fd), DestroyFrom(s, t, fd, stuck).0);
      }
    }
  }

  /** What `call` makes wait for end `e` of pair `i`. */
  function WrittenTo(s: Terminals, call: Call, i: nat, e: End): seq<byte> {
    if call.WriteCall? then
      var h := TerminalAt(s, call.table, call.fd, false);
      var r := Step(s, call).result;
      if h.Some? && r.Wrote? && h.value.slot == i && PeerOf(h.value.end) == e && r.count <= |call.bytes|
      then call.bytes[..r.count] else []
    else []
  }

  /** What `call` reads at end `e` of pair `i`. */
  function ReadFrom(s: Terminals, call: Call, i: nat, e: End): seq<byte> {
    if call.ReadCall? then
      var h := TerminalAt(s, call.table, call.fd, true);
      var r := Step(s, call).result;
      if h.Some? && r.Bytes? && h.value.slot == i && h.value.end == e then r.bytes else []
    else []
  }

  lemma WriteDelivers(s: Terminals, h: Handle, bytes: seq<byte>, i: nat, e: End)
    requires i < |s.pairs| && s.pairs[i].used
    ensures var r := Write(s, h, bytes);
      && |r.state.pairs| == |s.pairs| && (r.result.Wrote? ==> r.result.count <= |bytes|)
      && Incoming(r.state.pairs[i], e)
         == Incoming(s.pairs[i], e) + if r.result.Wrote? && h.slot == i && PeerOf(h.end) == e then bytes[..r.result.count] else []
  {}

  lemma ReadDelivers(s: Terminals, h: Handle, length: nat, i: nat, e: End)
    requires i < |s.pairs| && s.pairs[i].used
    ensures var r := Read(s, h, length);
      && |r.state.pairs| == |s.pairs|
      && Incoming(s.pairs[i], e)
         == (if r.result.Bytes? && h.slot == i && h.end == e then r.result.bytes else []) + Incoming(r.state.pairs[i], e)
  {}

  ghost predicate InUse(s: Terminals, i: nat) {
    i < |s.pairs| && s.pairs[i].used
  }

  /** Other calls leave the bytes of a pair alone as long as the pair stays in use. */
  lemma OtherKept(s: Terminals, call: Call)
    requires !call.ReadCall? && !call.WriteCall? && !call.CreateCall?
    ensures QueuesKept(s, Step(s, call).state)
  {
    hide Bind, Clear, DestroyFrom, QueuesKept, FreeSlot, StandardSlots, Closing, Release;
    KeptSame(s);
    match call
    case ReleaseCall(h) => ReleaseKept(s, h);
    case BindCall(t, fd, h, a, closes) => BindKept(s, t, fd, h, a, closes);
    case InstallCall(t, h, a) =>
      if Usable(s, t) && FIRST_REGULAR <= |s.tables[t].slots| {
        BindKept(s, t, FreeSlot(s.tables[t].slots, FIRST_REGULAR), h, a, true);
      }
    case CloneCall(from, sfd, t, fd, a, closes) =>
      if Usable(s, from) && sfd < |s.tables[from].slots| && s.tables[from].slots[sfd].Terminal? {
        BindKept(s, t, fd, s.tables[from].slots[sfd].handle, a, closes);
      }
    case CloseCall(t, fd, closes) =>
      if Usable(s, t) && fd < |s.tables[t].slots| {
        ClearKept(s, t, fd);
      }
    case DestroyCall(t, stuck) => DestroyKept(s, t, stuck);
    case InitCall(t) => SamePairsKept(s, InitTable(s, t).state);
    case OpenCall(t, a, opens) => SamePairsKept(s, OpenRegular(s, t, a, opens).state);
    case _ =>
  }

  lemma KeptSame(s: Terminals)
    ensures QueuesKept(s, s)
  {}

  lemma SamePairsKept(s: Terminals, r: Terminals)
    requires r.pairs == s.pairs
    ensures QueuesKept(s, r)
  {}

  lemma ReleaseKept(s: Terminals, h: Handle)
    ensures QueuesKept(s, Release(s, h).state)
  {}

  lemma DestroyKept(s: Terminals, t: nat, stuck: set<nat>)
    ensures QueuesKept(s, Destroy(s, t, stuck).state)
  {
    if t < |s.tables| {
      DestroyFromKept(s, t, 0, stuck);
    }
    hide DestroyFrom;
  }

  lemma StepDelivers(s: Terminals, call: Call, i: nat, e: End)
    requires InUse(s, i) && InUse(Step(s, call).state, i)
    ensures Incoming(s.pairs[i], e) + WrittenTo(s, call, i, e)
         == ReadFrom(s, call, i, e) + Incoming(Step(s, call).state.pairs[i], e)
  {
    hide Read, Write, TerminalAt, Release, Bind, Install, Clone, CloseFd, Destroy, InitTable, OpenRegular;
    if call.ReadCall? {
      var h := TerminalAt(s, call.table, call.fd, true);
      if h.Some? {
        ReadDelivers(s, h.value, call.length, i, e);
      }
    } else if call.WriteCall? {
      var h := TerminalAt(s, call.table, call.fd, false);
      if h.Some? {
        WriteDelivers(s, h.value, call.bytes, i, e);
      }
    } else if !call.CreateCall? {
      OtherKept(s, call);
    }
  }

  function AllWritten(s: Terminals, calls: seq<Call>, i: nat, e: End): seq<byte>
    decreases |calls|
  {
    if calls == [] then [] else WrittenTo(s, calls[0], i, e) + AllWritten(Step(s, calls[0]).state, calls[1..], i, e)
  }

  function AllRead(s: Terminals, calls: seq<Call>, i: nat, e: End): seq<byte>
    decreases |calls|
  {
    if calls == [] then [] else ReadFrom(s, calls[0], i, e) + AllRead(Step(s, calls[0]).state, calls[1..], i, e)
  }

  ghost predicate StaysInUse(s: Terminals, calls: seq<Call>, i: nat)
    decreases |calls|
  {
    InUse(s, i) && (calls == [] || StaysInUse(Step(s, calls[0]).state, calls[1..], i))
  }

  /** While a pair is in use, each end reads exactly the bytes the other wrote, in order. */
  lemma {:induction false} RunDelivers(s: Terminals, calls: seq<Call>, i: nat, e: End)
    requires StaysInUse(s, calls, i)
    ensures InUse(Run(s, calls), i)
    ensures Incoming(s.pairs[i], e) + AllWritten(s, calls, i, e) == AllRead(s, calls, i, e) + Incoming(Run(s, calls).pairs[i], e)
    decreases |calls|
  {
    if calls != [] {
      var r := Step(s, calls[0]).state;
      hide Step, WrittenTo, ReadFrom, Incoming;
      StepDelivers(s, calls[0], i, e);
      RunDelivers(r, calls[1..], i, e);
      Reassociate(Incoming(s.pairs[i], e), WrittenTo(s, calls[0], i, e), ReadFrom(s, calls[0], i, e), Incoming(r.pairs[i], e),
                  AllWritten(r, calls[1..], i, e), AllRead(r, calls[1..], i, e), Incoming(Run(r, calls[1..]).pairs[i], e));
    }
  }

  /** A reader is told the terminal hung up only when it has read everything that was written to it. */
  lemma HupMeansDrained(s: Terminals, calls: seq<Call>, t: nat, fd: nat, length: nat, i: nat, e: End)
    requires Inv(s) && StaysInUse(s, calls, i)
    requires TerminalAt(Run(s, calls), t, fd, true).Some?
    requires var h := TerminalAt(Run(s, calls), t, fd, true).value; h.slot == i && h.end == e
    requires Step(Run(s, calls), ReadCall(t, fd, length)).result == Hup
    ensures Incoming(s.pairs[i], e) + AllWritten(s, calls, i, e) == AllRead(s, calls, i, e)
    ensures i < |Run(s, calls).pairs| && RefsOf(Run(s, calls).pairs[i], PeerOf(e)) == 0
  {
    RunDelivers(s, calls, i, e);
    RunKeeps(s, calls);
    hide Run, AllWritten, AllRead, StaysInUse, Inv, TerminalAt;
  }
}
