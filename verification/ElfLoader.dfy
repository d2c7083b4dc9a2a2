/**
 The ELF loader as the kernel runs it: it scans the program headers, then takes frames and maps
 them one page at a time, and gives everything back when anything is refused. Tied to ElfSpec.
 */
module ElfLoader {
  import opened Machine
  import opened ElfSpec

  const MAX_PAGES: nat := 18

  datatype Validation = Validation(entry: nat, headerCount: nat, segments: seq<Segment>)

  /** segment_page_end of every accepted segment against a new one. */
  method CheckClear(g: Segment, gs: seq<Segment>) returns (clear: bool)
    ensures clear <==> ClearOf(g, gs, |gs|)
  {
    hide Overlaps, PageEnd;
    var j := 0;
    while j < |gs|
      invariant j <= |gs| && ClearOf(g, gs, j)
    {
      if Overlaps(g.address, PageEnd(g), gs[j].address, PageEnd(gs[j])) {
        return false;
      }
      j := j + 1;
    }
    return true;
  }

  /** One turn of the loop over the program headers. */
  method CheckHeader(file: seq<byte>, n: nat, stackBase: nat, stackSize: nat, gs: seq<Segment>, total: nat)
    returns (ok: bool, segment: Option<Segment>)
    requires HeaderOk(file) && n < HeaderCount(file) && PAGE <= stackBase
    requires gs == Loads(file, n) && total == TotalPages(gs)
    ensures ok <==> StepOk(file, n, stackBase, stackSize)
    ensures ok ==> segment == if TypeAt(file, n) == PT_LOAD then Some(SegmentAt(file, n)) else None
  {
    hide SegmentOk, TypeAt, SegmentAt, AlignAt, ClearOf;
    var kind := TypeAt(file, n);
    if kind == PT_INTERP || kind == PT_DYNAMIC {
      return false, None;
    }
    if kind != PT_LOAD {
      return true, None;
    }
    if MAX_SEGMENTS <= |gs| {
      return false, None;
    }
    var g := SegmentAt(file, n);
    if !SegmentOk(g, AlignAt(file, n), |file|, stackBase, stackSize) || MAX_IMAGE_PAGES < total + PageCount(g.memorySize) {
      return false, None;
    }
    var clear := CheckClear(g, gs);
    return clear, Some(g);
  }

  /**
   boring_elf_validate_source; `grants` is how many reads of the source will be answered, and
   `left` how many are left. One read is for the file header and one for each program header.
   */
  method ValidateSource(file: seq<byte>, stackBase: nat, stackSize: nat, grants: nat)
    returns (v: Option<Validation>, left: nat)
    ensures v.Some? <==> Acceptable(file, stackBase, stackSize) && 1 + HeaderCount(file) <= grants
    ensures v.Some? ==>
      && v == Some(Validation(EntryPoint(file), HeaderCount(file), Loads(file, HeaderCount(file))))
      && left == grants - (1 + HeaderCount(file))
  {
    hide *;
    HeaderIs(file, stackBase, stackSize);
    left := grants;
    if |file| < EHDR_SIZE || MODULE_MAX < |file| || !StackOk(stackBase, stackSize) || left == 0 {
      return None, left;
    }
    left := left - 1;
    if !HeaderOk(file) {
      return None, left;
    }
    var segments: Option<seq<Segment>>;
    segments, left := CheckHeaders(file, stackBase, stackSize, left);
    if segments.None? {
      return None, left;
    }
    v := Some(Validation(EntryPoint(file), HeaderCount(file), segments.value));
  }

  /** The loop over the program headers, and the check of the entry point after it. */
  method CheckHeaders(file: seq<byte>, stackBase: nat, stackSize: nat, grants: nat)
    returns (segments: Option<seq<Segment>>, left: nat)
    requires HeaderOk(file) && StackOk(stackBase, stackSize) && EHDR_SIZE <= |file|
    ensures segments == if Acceptable(file, stackBase, stackSize) && HeaderCount(file) <= grants
                        then Some(Loads(file, HeaderCount(file))) else None
    ensures segments.Some? ==> left == grants - HeaderCount(file)
  {
    hide *;
    NoHeaders(file, stackBase, stackSize);
    AcceptableIs(file, stackBase, stackSize);
    NothingEntered(EntryPoint(file));
    left := grants;
    var n, gs, total, entered := 0, [], 0, false;
    while n < HeaderCount(file)
      invariant n <= HeaderCount(file) && left + n == grants && HeadersOk(file, n, stackBase, stackSize)
      invariant gs == Loads(file, n) && total == TotalPages(gs) && (entered <==> Enters(gs, EntryPoint(file)))
    {
      if left == 0 {
        return None, left;
      }
      left := left - 1;
      HeadersStep(file, n, stackBase, stackSize);
      LoadsStep(file, n);
      var ok: bool, segment: Option<Segment>;
      ok, segment := CheckHeader(file, n, stackBase, stackSize, gs, total);
      if !ok {
        Refused(file, n + 1, stackBase, stackSize);
        return None, left;
      }
      if segment.Some? {
        EntersStep(gs, segment.value, EntryPoint(file));
        gs := gs + [segment.value];
        total := total + PageCount(segment.value.memorySize);
        if EntersAt(segment.value, EntryPoint(file)) {
          entered := true;
        }
      }
      n := n + 1;
    }
    if |gs| == 0 || !entered {
      return None, left;
    }
    return Some(gs), left;
  }

  lemma HeaderIs(file: seq<byte>, stackBase: nat, stackSize: nat)
    ensures HeaderOk(file) ==> EHDR_SIZE <= |file| <= MODULE_MAX
    ensures Acceptable(file, stackBase, stackSize) ==> HeaderOk(file) && StackOk(stackBase, stackSize)
  {}

  lemma NoHeaders(file: seq<byte>, stackBase: nat, stackSize: nat)
    requires HeaderOk(file) && StackOk(stackBase, stackSize)
    ensures EHDR_SIZE <= |file| && PAGE <= stackBase
    ensures HeadersOk(file, 0, stackBase, stackSize) && Loads(file, 0) == [] && TotalPages([]) == 0 && !Enters([], EntryPoint(file))
  {}

  lemma AcceptableIs(file: seq<byte>, stackBase: nat, stackSize: nat)
    requires HeaderOk(file) && StackOk(stackBase, stackSize) && PAGE <= stackBase && EHDR_SIZE <= |file|
    ensures Acceptable(file, stackBase, stackSize)
       <==> HeadersOk(file, HeaderCount(file), stackBase, stackSize) && Enters(Loads(file, HeaderCount(file)), EntryPoint(file))
  {
    hide HeadersOk, Enters, Loads;
  }

  lemma Refused(file: seq<byte>, n: nat, stackBase: nat, stackSize: nat)
    requires HeaderOk(file) && n <= HeaderCount(file) && PAGE <= stackBase && !HeadersOk(file, n, stackBase, stackSize)
    ensures !HeadersOk(file, HeaderCount(file), stackBase, stackSize)
  {
    hide HeadersOk;
    if HeadersOk(file, HeaderCount(file), stackBase, stackSize) {
      HeadersPrefix(file, n, HeaderCount(file), stackBase, stackSize);
    }
  }

  lemma EntersStep(gs: seq<Segment>, g: Segment, entry: nat)
    ensures Enters(gs + [g], entry) <==> Enters(gs, entry) || EntersAt(g, entry)
  {
    var hs := gs + [g];
    assert EntersAt(g, entry) ==> EntersAt(hs[|gs|], entry);
    assert forall k :: 0 <= k < |gs| ==> hs[k] == gs[k];
    hide EntersAt;
  }

  lemma NothingEntered(entry: nat)
    ensures !Enters([], entry)
  {}

  // ------------------------------------------------------------------- loading

  class Loader {
    const pages: array<OwnedPage>
    var count: nat
    var entry: nat
    var stackBase: nat
    var stackTop: nat
    var segments: seq<Segment>
    /** The machine: free frames, the process's page map, the contents of frames. */
    var pool: set<nat>
    var table: map<nat, Mapping>
    var memory: map<nat, seq<byte>>
    /** How many more mappings and reads will be answered. */
    var mapGrants: nat
    var readGrants: nat

    ghost predicate Valid()
      reads this`count
    {
      pages.Length == MAX_PAGES && count <= MAX_PAGES
    }

    /** The owned pages account for every frame and mapping taken since `pool0` and `table0`. */
    ghost predicate Accounts(pool0: set<nat>, table0: map<nat, Mapping>)
      reads this`count, this`pool, this`table, pages
    {
      && Valid() && Owned(pool0, table0, pages[..count])
      && pool == PoolAfter(pool0, pages[..count]) && table == TableAfter(table0, pages[..count])
    }

    /** The owned pages are mapped and hold what `plan` says. */
    ghost predicate Shows(plan: seq<Page>)
      reads this`count, this`memory, pages
    {
      && Valid() && count == |plan|
      && forall i :: 0 <= i < count ==>
           && pages[i].mapped && pages[i].address == plan[i].address
           && pages[i].writable == plan[i].writable && pages[i].executable == plan[i].executable
           && pages[i].frame in memory && memory[pages[i].frame] == plan[i].bytes
    }

    constructor (pool: set<nat>, table: map<nat, Mapping>, mapGrants: nat, readGrants: nat)
      requires 0 !in pool
      ensures Valid() && count == 0 && this.pool == pool && this.table == table && 0 !in this.pool
      ensures this.mapGrants == mapGrants && this.readGrants == readGrants && fresh(pages)
    {
      pages := new OwnedPage[MAX_PAGES](i => OwnedPage(0, 0, false, false, false));
      count, entry, stackBase, stackTop, segments := 0, 0, 0, 0, [];
      this.pool, this.table, memory := pool, table, map[];
      this.mapGrants, this.readGrants := mapGrants, readGrants;
    }

    /** boring_elf_unload: pages go back in the reverse order. */
    method Unload(ghost pool0: set<nat>, ghost table0: map<nat, Mapping>) returns (ok: bool)
      requires Accounts(pool0, table0)
      modifies this`count, this`pool, this`table, pages
      ensures ok && Valid() && count == 0 && pool == pool0 && table == table0
    {
      hide PoolAfter, TableAfter, Owned;
      while count != 0
        invariant Accounts(pool0, table0)
        decreases count
      {
        var p := pages[count - 1];
        ghost var ps := pages[..count];
        assert ps[..|ps| - 1] == pages[..count - 1] && ps[|ps| - 1] == p;
        OwnedPop(pool0, table0, ps);
        if p.mapped {
          var present := p.address in table;
          if !present {
            return false;
          }
          table := table - {p.address};
        }
        if p.frame != 0 {
          var taken := p.frame !in pool;
          if !taken {
            return false;
          }
          pool := pool + {p.frame};
        }
        pages[count - 1] := OwnedPage(0, 0, false, false, false);
        count := count - 1;
      }
      NothingOwned(pool0, table0);
      assert pages[..count] == [];
      return true;
    }

    /** map_owned_page: a zeroed frame at `address`; on refusal the page may be owned but not mapped. */
    method MapOwnedPage(address: nat, writable: bool, executable: bool, ghost pool0: set<nat>, ghost table0: map<nat, Mapping>)
      returns (frame: Option<nat>)
      requires Accounts(pool0, table0) && 0 !in pool
      modifies this`count, this`pool, this`table, this`memory, this`mapGrants, pages
      ensures Accounts(pool0, table0) && 0 !in pool
      ensures frame.Some? ==>
        && count == old(count) + 1 && pages[..old(count)] == old(pages[..count])
        && pages[count - 1] == OwnedPage(address, frame.value, writable, executable, true)
        && frame.value in old(pool) && pool == old(pool) - {frame.value} && mapGrants == old(mapGrants) - 1
        && memory == old(memory)[frame.value := ZeroPage()]
        && table == old(table)[address := Mapping(frame.value, writable, executable)]
      ensures frame.None? ==> old(pool) == {} || old(count) == MAX_PAGES || old(mapGrants) == 0 || address in old(table)
    {
      hide PoolAfter, TableAfter, Owned;
      if pool == {} {
        return None;
      }
      var f :| f in pool;
      if MAX_PAGES <= count {
        return None;
      }
      pool := pool - {f};
      memory := memory[f := ZeroPage()];
      var mapped := mapGrants != 0 && address !in table;
      ghost var ps := pages[..count];
      var p := OwnedPage(address, f, writable, executable, mapped);
      OwnedPush(pool0, table0, ps, p);
      pages[count] := p;
      count := count + 1;
      assert pages[..count] == ps + [p];
      if !mapped {
        return None;
      }
      mapGrants := mapGrants - 1;
      table := table[address := Mapping(f, writable, executable)];
      return Some(f);
    }

    /** One page of a segment, with its part of the file. */
    method LoadSegmentPage(file: seq<byte>, g: Segment, k: nat, ghost plan: seq<Page>,
                           ghost pool0: set<nat>, ghost table0: map<nat, Mapping>) returns (ok: bool)
      requires Accounts(pool0, table0) && 0 !in pool && Shows(plan) && g.fileOffset + g.fileSize <= |file|
      modifies this`count, this`pool, this`table, this`memory, this`mapGrants, this`readGrants, pages
      ensures Accounts(pool0, table0) && 0 !in pool
      ensures ok ==>
        && Shows(plan + [SegmentPage(file, g, k)]) && |pool| == |old(pool)| - 1
        && mapGrants == old(mapGrants) - 1
        && old(readGrants) == readGrants + ReadsOf(SegmentPage(file, g, k))
        && forall a :: a in table <==> a in old(table) || a == g.address + k * PAGE
      ensures !ok ==>
        || old(pool) == {} || old(count) == MAX_PAGES || old(mapGrants) == 0 || g.address + k * PAGE in old(table)
        || old(readGrants) < ReadsOf(SegmentPage(file, g, k))
    {
      hide PoolAfter, TableAfter, Owned;
      OwnedOutside(pool0, table0);
      var frame := MapOwnedPage(g.address + k * PAGE, Writable(g), Executable(g), pool0, table0);
      if frame.None? {
        return false;
      }
      var page := ZeroPage();
      if k * PAGE < g.fileSize {
        var remaining := g.fileSize - k * PAGE;
        var length := if remaining > PAGE then PAGE else remaining;
        if readGrants == 0 {
          return false;
        }
        readGrants := readGrants - 1;
        page := file[g.fileOffset + k * PAGE..g.fileOffset + k * PAGE + length] + ZeroPage()[length..];
        memory := memory[frame.value := page];
      }
      assert page == SegmentBytes(file, g, k);
      assert forall i :: 0 <= i < old(count) ==> pages[i] == pages[..old(count)][i];
      return true;
    }

    /** The frames of owned pages are not in the pool. */
    lemma OwnedOutside(pool0: set<nat>, table0: map<nat, Mapping>)
      requires Accounts(pool0, table0)
      ensures forall i :: 0 <= i < count ==> pages[i].frame !in pool
    {
      forall i | 0 <= i < count ensures pages[i].frame !in pool {
        OwnedFacts(pool0, table0, pages[..count], i);
      }
    }

    /** One page of the stack. */
    method LoadStackPage(base: nat, k: nat, ghost plan: seq<Page>, ghost pool0: set<nat>, ghost table0: map<nat, Mapping>)
      returns (ok: bool)
      requires Accounts(pool0, table0) && 0 !in pool && Shows(plan)
      modifies this`count, this`pool, this`table, this`memory, this`mapGrants, pages
      ensures Accounts(pool0, table0) && 0 !in pool
      ensures ok ==>
        && Shows(plan + [Page(base + k * PAGE, true, false, false, ZeroPage())]) && |pool| == |old(pool)| - 1
        && mapGrants == old(mapGrants) - 1
        && forall a :: a in table <==> a in old(table) || a == base + k * PAGE
      ensures !ok ==>
        old(pool) == {} || old(count) == MAX_PAGES || old(mapGrants) == 0 || base + k * PAGE in old(table)
    {
      hide PoolAfter, TableAfter, Owned;
      OwnedOutside(pool0, table0);
      var frame := MapOwnedPage(base + k * PAGE, true, false, pool0, table0);
      if frame.None? {
        return false;
      }
      assert forall i :: 0 <= i < old(count) ==> pages[i] == pages[..old(count)][i];
      return true;
    }

    /** What the first `count` pages of `plan` have used up. */
    ghost predicate Spent(budget: Budget, plan: seq<Page>)
      reads this`pool, this`table, this`mapGrants, this`readGrants
    {
      SpentBy(budget, plan, |pool|, table, mapGrants, readGrants)
    }

    /** The pages of one segment. */
    method LoadSegment(file: seq<byte>, g: Segment, ghost before: seq<Page>, ghost budget: Budget, ghost full: seq<Page>)
      returns (ok: bool)
      requires Accounts(budget.pool, budget.table) && 0 !in pool && Shows(before) && Spent(budget, before)
      requires g.fileOffset + g.fileSize <= |file| && Distinct(full)
      requires before + SegmentPages(file, g, PageCount(g.memorySize)) <= full
      modifies this`count, this`pool, this`table, this`memory, this`mapGrants, this`readGrants, pages
      ensures Accounts(budget.pool, budget.table) && 0 !in pool
      ensures ok ==> var done := before + SegmentPages(file, g, PageCount(g.memorySize)); Shows(done) && Spent(budget, done)
      ensures !ok ==> !Enough(budget, full)
    {
      hide *;
      var k, n := 0, PageCount(g.memorySize);
      SegmentStart(file, g, before);
      while k < n
        invariant Accounts(budget.pool, budget.table) && 0 !in pool && k <= n
        invariant Shows(before + SegmentPages(file, g, k)) && Spent(budget, before + SegmentPages(file, g, k))
      {
        ghost var done := before + SegmentPages(file, g, k);
        SegmentNext(file, g, before, k, n, full);
        CountIs(done);
        ghost var p, t, m, r := |pool|, table, mapGrants, readGrants;
        SpentIs(budget, done);
        Stuck(budget, done, full, p, t, m, r);
        ok := LoadSegmentPage(file, g, k, done, budget.pool, budget.table);
        if !ok {
          return;
        }
        SpentNext(budget, done, SegmentPage(file, g, k), p, t, m, r, |pool|, table, mapGrants, readGrants);
        SpentIs(budget, done + [SegmentPage(file, g, k)]);
        k := k + 1;
      }
      return true;
    }

    lemma SpentIs(budget: Budget, plan: seq<Page>)
      ensures Spent(budget, plan) <==> SpentBy(budget, plan, |pool|, table, mapGrants, readGrants)
    {
      hide SpentBy;
    }

    lemma CountIs(plan: seq<Page>)
      requires Shows(plan)
      ensures count == |plan|
      ensures |pool| == 0 <==> pool == {}
    {}

    /** All the segments. */
    method LoadSegments(file: seq<byte>, gs: seq<Segment>, ghost budget: Budget, ghost full: seq<Page>) returns (ok: bool)
      requires Accounts(budget.pool, budget.table) && 0 !in pool && Shows([]) && Spent(budget, [])
      requires InFile(file, gs) && Distinct(full) && ImagePages(file, gs) <= full
      modifies this`count, this`pool, this`table, this`memory, this`mapGrants, this`readGrants, pages
      ensures Accounts(budget.pool, budget.table) && 0 !in pool
      ensures ok ==> Shows(ImagePages(file, gs)) && Spent(budget, ImagePages(file, gs))
      ensures !ok ==> !Enough(budget, full)
    {
      hide *;
      var s := 0;
      SegmentsStart(file, gs);
      while s < |gs|
        invariant Accounts(budget.pool, budget.table) && 0 !in pool && s <= |gs| && InFile(file, gs[..s])
        invariant Shows(ImagePages(file, gs[..s])) && Spent(budget, ImagePages(file, gs[..s]))
      {
        SegmentsNext(file, gs, s);
        ok := LoadSegment(file, gs[s], ImagePages(file, gs[..s]), budget, full);
        if !ok {
          return;
        }
        s := s + 1;
      }
      assert gs[..s] == gs;
      return true;
    }

    /** The stack, after the image. */
    method LoadStack(base: nat, n: nat, ghost before: seq<Page>, ghost budget: Budget, ghost full: seq<Page>) returns (ok: bool)
      requires Accounts(budget.pool, budget.table) && 0 !in pool && Shows(before) && Spent(budget, before)
      requires Distinct(full) && full == before + StackPages(base, n)
      modifies this`count, this`pool, this`table, this`memory, this`mapGrants, pages
      ensures Accounts(budget.pool, budget.table) && 0 !in pool
      ensures ok ==> Shows(full) && Spent(budget, full)
      ensures !ok ==> !Enough(budget, full)
    {
      hide *;
      var k := 0;
      StackStart(base, before);
      while k < n
        invariant Accounts(budget.pool, budget.table) && 0 !in pool && k <= n
        invariant Shows(before + StackPages(base, k)) && Spent(budget, before + StackPages(base, k))
      {
        ghost var done := before + StackPages(base, k);
        StackNext(base, before, k, n, full);
        CountIs(done);
        ghost var p, t, m, r := |pool|, table, mapGrants, readGrants;
        SpentIs(budget, done);
        Stuck(budget, done, full, p, t, m, r);
        ok := LoadStackPage(base, k, done, budget.pool, budget.table);
        if !ok {
          return;
        }
        SpentNext(budget, done, Page(base + k * PAGE, true, false, false, ZeroPage()), p, t, m, r, |pool|, table, mapGrants, readGrants);
        SpentIs(budget, done + [Page(base + k * PAGE, true, false, false, ZeroPage())]);
        k := k + 1;
      }
      return true;
    }

    /**
     boring_elf_load_source into a process that may be loaded; `supervisor` is whether the shared
     half of its address space is supervisor-only. A failed load gives everything back.
     */
    method LoadSource(file: seq<byte>, stackBase: nat, stackSize: nat, supervisor: bool) returns (ok: bool)
      requires Valid() && count == 0 && 0 !in pool
      modifies this, pages
      ensures ok <==> supervisor && Loadable(old(Means()), file, stackBase, stackSize)
      ensures ok ==> Accounts(old(pool), old(table)) && Shows(ProgramPlan(file, stackBase, stackSize))
      ensures ok ==> entry == EntryPoint(file) && this.stackBase == stackBase && stackTop == stackBase + stackSize
      ensures !ok ==> Valid() && count == 0 && pool == old(pool) && table == old(table)
    {
      hide *;
      MeansIs();
      LoadableIs(Means(), file, stackBase, stackSize);
      var v: Option<Validation>;
      v, readGrants := ValidateSource(file, stackBase, stackSize, readGrants);
      if v.None? {
        return false;
      }
      ghost var budget := Budget(pool, table, mapGrants, readGrants);
      ghost var full := ProgramPlan(file, stackBase, stackSize);
      PlanIs(file, stackBase, stackSize);
      entry, this.stackBase, stackTop, segments := v.value.entry, stackBase, stackBase + stackSize, v.value.segments;
      NothingLoaded(budget);
      ok := LoadSegments(file, v.value.segments, budget, full);
      if ok {
        ok := LoadStack(stackBase, stackSize / PAGE, ImagePages(file, v.value.segments), budget, full);
      }
      if ok {
        LoadedIs(file, stackBase, stackSize, budget, full);
      }
      var start := entry / PAGE * PAGE;
      if !ok || start !in table || !table[start].executable || table[start].writable || !supervisor {
        var unloaded := Unload(budget.pool, budget.table);
        return false;
      }
      return true;
    }

    ghost function Means(): Budget
      reads this`pool, this`table, this`mapGrants, this`readGrants
    {
      Budget(pool, table, mapGrants, readGrants)
    }

    lemma MeansIs()
      ensures Means() == Budget(pool, table, mapGrants, readGrants)
    {}

    lemma NothingLoaded(budget: Budget)
      requires Valid() && count == 0 && budget == Budget(pool, table, mapGrants, readGrants)
      ensures Accounts(budget.pool, budget.table) && Shows([]) && Spent(budget, [])
    {
      NothingOwned(pool, table);
      assert pages[..count] == [];
    }

    /** A loaded program has used what it needed, and its entry page is where it should be. */
    lemma LoadedIs(file: seq<byte>, stackBase: nat, stackSize: nat, budget: Budget, full: seq<Page>)
      requires Acceptable(file, stackBase, stackSize) && full == ProgramPlan(file, stackBase, stackSize)
      requires Accounts(budget.pool, budget.table) && Shows(full) && Spent(budget, full)
      ensures Enough(budget, full)
      ensures var start := EntryPoint(file) / PAGE * PAGE;
        start in table && table[start].executable && !table[start].writable
    {
      assert EHDR_SIZE <= |file|;
      hide Acceptable, ProgramPlan, Owned, PoolAfter, TableAfter;
      forall i | 0 <= i < |full| ensures full[i].address !in budget.table {
        OwnedFacts(budget.pool, budget.table, pages[..count], i);
      }
      EntryInPlan(file, stackBase, stackSize);
      var i :| 0 <= i < |full| && full[i].address == EntryPoint(file) / PAGE * PAGE && full[i].executable && !full[i].writable;
      OwnedFacts(budget.pool, budget.table, pages[..count], i);
    }
  }

  /** What there is to take from: free frames, the page map, and the answers to mappings and reads. */
  datatype Budget = Budget(pool: set<nat>, table: map<nat, Mapping>, maps: nat, answers: nat)

  ghost predicate Uses(plan: seq<Page>, a: nat) {
    exists i :: 0 <= i < |plan| && plan[i].address == a
  }

  /** The reads of the source that loading a page takes. */
  function ReadsOf(p: Page): nat {
    if p.fromFile then 1 else 0
  }

  function ReadsIn(ps: seq<Page>): nat {
    if ps == [] then 0 else ReadsIn(ps[..|ps| - 1]) + ReadsOf(ps[|ps| - 1])
  }

  /** There are frames, mappings, free addresses and reads for all of `plan`. */
  ghost predicate Enough(budget: Budget, plan: seq<Page>) {
    && |plan| <= |budget.pool| && |plan| <= budget.maps && |plan| <= MAX_PAGES
    && (forall i :: 0 <= i < |plan| ==> plan[i].address !in budget.table)
    && ReadsIn(plan) <= budget.answers
  }

  /** The file may be loaded, and there is what it takes to read its headers and then to load it. */
  ghost predicate Loadable(budget: Budget, file: seq<byte>, stackBase: nat, stackSize: nat) {
    && Acceptable(file, stackBase, stackSize) && 1 + HeaderCount(file) <= budget.answers
    && Enough(budget.(answers := budget.answers - (1 + HeaderCount(file))), ProgramPlan(file, stackBase, stackSize))
  }

  lemma LoadableIs(budget: Budget, file: seq<byte>, stackBase: nat, stackSize: nat)
    ensures Acceptable(file, stackBase, stackSize) ==> EHDR_SIZE <= |file|
    ensures Loadable(budget, file, stackBase, stackSize)
       <==> && Acceptable(file, stackBase, stackSize) && 1 + HeaderCount(file) <= budget.answers
            && Enough(Budget(budget.pool, budget.table, budget.maps, budget.answers - (1 + HeaderCount(file))),
                      ProgramPlan(file, stackBase, stackSize))
  {
    HeaderIs(file, stackBase, stackSize);
    hide Acceptable, HeaderCount, ProgramPlan, Enough, HeaderOk;
  }

  /** What loading `plan` has used up, given what is left. */
  ghost predicate SpentBy(budget: Budget, plan: seq<Page>, pool: nat, table: map<nat, Mapping>, maps: nat, answers: nat) {
    && pool + |plan| == |budget.pool| && maps + |plan| == budget.maps && answers + ReadsIn(plan) == budget.answers
    && forall a :: a in table <==> a in budget.table || Uses(plan, a)
  }

  lemma SpentNext(budget: Budget, plan: seq<Page>, p: Page, pool: nat, table: map<nat, Mapping>, maps: nat, answers: nat,
                  pool1: nat, table1: map<nat, Mapping>, maps1: nat, answers1: nat)
    requires SpentBy(budget, plan, pool, table, maps, answers)
    requires pool1 == pool - 1 && maps1 == maps - 1 && answers == answers1 + ReadsOf(p)
    requires forall a :: a in table1 <==> a in table || a == p.address
    ensures SpentBy(budget, plan + [p], pool1, table1, maps1, answers1)
  {
    var next := plan + [p];
    assert next[..|plan|] == plan;
    forall a ensures Uses(next, a) <==> Uses(plan, a) || a == p.address {
      assert next[|plan|].address == p.address;
      assert forall i :: 0 <= i < |plan| ==> next[i] == plan[i];
    }
  }

  lemma {:induction false} ReadsGrow(ps: seq<Page>, k: nat)
    requires k <= |ps|
    ensures ReadsIn(ps[..k]) <= ReadsIn(ps)
  {
    if k < |ps| {
      ReadsGrow(ps[..|ps| - 1], k);
      assert ps[..|ps| - 1][..k] == ps[..k];
    } else {
      assert ps[..k] == ps;
    }
  }

  /** When the next page is refused, the plan was too much. */
  lemma Stuck(budget: Budget, done: seq<Page>, full: seq<Page>, pool: nat, table: map<nat, Mapping>, maps: nat, answers: nat)
    requires SpentBy(budget, done, pool, table, maps, answers) && |done| < |full| && done <= full && Distinct(full)
    ensures pool == 0 || |done| == MAX_PAGES || maps == 0 || answers < ReadsOf(full[|done|]) || full[|done|].address in table ==>
              !Enough(budget, full)
  {
    var next := full[..|done| + 1];
    assert next[..|done|] == done;
    ReadsGrow(full, |done| + 1);
    forall i | 0 <= i < |done| ensures done[i].address != full[|done|].address {
      assert full[i] == done[i];
    }
  }

  ghost predicate Distinct(plan: seq<Page>) {
    forall i, j :: 0 <= i < j < |plan| ==> plan[i].address != plan[j].address
  }

  lemma SegmentStart(file: seq<byte>, g: Segment, before: seq<Page>)
    requires g.fileOffset + g.fileSize <= |file|
    ensures before + SegmentPages(file, g, 0) == before
  {}

  lemma SegmentNext(file: seq<byte>, g: Segment, before: seq<Page>, k: nat, n: nat, full: seq<Page>)
    requires g.fileOffset + g.fileSize <= |file| && k < n && before + SegmentPages(file, g, n) <= full
    ensures var done := before + SegmentPages(file, g, k);
      && before + SegmentPages(file, g, k + 1) == done + [SegmentPage(file, g, k)]
      && |done| < |full| && done <= full && full[|done|] == SegmentPage(file, g, k)
      && SegmentPage(file, g, k).address == g.address + k * PAGE
  {
    var all := before + SegmentPages(file, g, n);
    assert all[|before| + k] == SegmentPage(file, g, k);
    assert forall i :: 0 <= i < k ==> all[|before| + i] == SegmentPage(file, g, i);
    hide SegmentPage;
  }

  lemma SegmentsStart(file: seq<byte>, gs: seq<Segment>)
    requires InFile(file, gs)
    ensures gs[..0] == [] && InFile(file, []) && ImagePages(file, []) == []
  {}

  lemma SegmentsNext(file: seq<byte>, gs: seq<Segment>, s: nat)
    requires InFile(file, gs) && s < |gs|
    ensures InFile(file, gs[..s]) && InFile(file, gs[..s + 1]) && gs[s].fileOffset + gs[s].fileSize <= |file|
    ensures ImagePages(file, gs[..s + 1]) == ImagePages(file, gs[..s]) + SegmentPages(file, gs[s], PageCount(gs[s].memorySize))
    ensures ImagePages(file, gs[..s + 1]) <= ImagePages(file, gs)
  {
    hide SegmentPages, PageCount;
    ImagePrefix(file, gs, s);
    ImagePrefix(file, gs, s + 1);
    LastSegment(file, gs[..s + 1]);
    assert gs[..s + 1][..s] == gs[..s];
    hide ImagePages;
  }

  lemma LastSegment(file: seq<byte>, gs: seq<Segment>)
    requires InFile(file, gs) && gs != []
    ensures InFile(file, gs[..|gs| - 1])
    ensures ImagePages(file, gs)
         == ImagePages(file, gs[..|gs| - 1]) + SegmentPages(file, gs[|gs| - 1], PageCount(gs[|gs| - 1].memorySize))
  {}

  lemma {:induction false} ImagePrefix(file: seq<byte>, gs: seq<Segment>, s: nat)
    requires InFile(file, gs) && s <= |gs|
    ensures InFile(file, gs[..s]) && ImagePages(file, gs[..s]) <= ImagePages(file, gs)
    decreases |gs|
  {
    if s == |gs| {
      assert gs[..s] == gs;
    } else {
      var init := gs[..|gs| - 1];
      ImagePrefix(file, init, s);
      assert init[..s] == gs[..s];
    }
  }

  lemma StackStart(base: nat, before: seq<Page>)
    ensures before + StackPages(base, 0) == before
  {}

  lemma StackNext(base: nat, before: seq<Page>, k: nat, n: nat, full: seq<Page>)
    requires k < n && full == before + StackPages(base, n)
    ensures var done := before + StackPages(base, k);
      && before + StackPages(base, k + 1) == done + [Page(base + k * PAGE, true, false, false, ZeroPage())]
      && |done| < |full| && done <= full && full[|done|] == Page(base + k * PAGE, true, false, false, ZeroPage())
      && ReadsOf(full[|done|]) == 0
  {
    assert full[|before| + k] == Page(base + k * PAGE, true, false, false, ZeroPage());
    assert forall i :: 0 <= i < k ==> full[|before| + i] == StackPages(base, n)[i] == StackPages(base, k)[i];
  }

  lemma PlanIs(file: seq<byte>, stackBase: nat, stackSize: nat)
    requires Acceptable(file, stackBase, stackSize)
    ensures PAGE != 0 && InFile(file, Loads(file, HeaderCount(file)))
    ensures var full, image := ProgramPlan(file, stackBase, stackSize), ImagePages(file, Loads(file, HeaderCount(file)));
      Distinct(full) && image <= full && full == image + StackPages(stackBase, stackSize / PAGE)
  {
    AcceptedImage(file, stackBase, stackSize, 0);
    var full := ProgramPlan(file, stackBase, stackSize);
    hide Acceptable, HeaderCount, Loads;
    forall i, j | 0 <= i < j < |full| ensures full[i].address != full[j].address {
      AcceptedApart(file, stackBase, stackSize, i, j);
    }
  }

  lemma NothingOwned(pool: set<nat>, table: map<nat, Mapping>)
    ensures PoolAfter(pool, []) == pool && TableAfter(table, []) == table && Owned(pool, table, [])
  {}
}
