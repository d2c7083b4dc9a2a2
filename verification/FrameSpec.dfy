/**
 Physical memory: the firmware's memory map, the regions of whole frames found in it, and one
 taken-or-free mark for each frame. The bitmap and its search loops are in module FrameAllocator.
 */
module FrameSpec {
  import opened Machine

  const PAGE: nat := 4096
  const MAX_ENTRIES: nat := 4096
  const MAX_REGIONS: nat := 64
  const MAX_FRAMES: nat := 8388608
  const USABLE: nat := 0
  const BOOTLOADER_RECLAIMABLE: nat := 5

  datatype MapEntry = MapEntry(base: u64, length: u64, kind: nat)
  datatype Region = Region(base: nat, frames: nat, first: nat)

  /** `sources[k]` is the map entry region `k` was cut from. */
  datatype Frames = Frames(regions: seq<Region>, sources: seq<nat>, total: nat, capped: bool)

  const NO_FRAMES: Frames := Frames([], [], 0, false)

  // -------------------------------------------------------------- memory map

  function End(e: MapEntry): nat {
    e.base + e.length
  }

  predicate EntryOk(e: MapEntry) {
    e.length != 0 && End(e) < U64_LIMIT
  }

  predicate Overlap(a: MapEntry, b: MapEntry) {
    a.base < End(b) && b.base < End(a)
  }

  /** Overlaps matter only where usable or bootloader memory is involved. */
  predicate Clash(a: MapEntry, b: MapEntry) {
    && Overlap(a, b)
    && (a.kind == USABLE || b.kind == USABLE || a.kind == BOOTLOADER_RECLAIMABLE || b.kind == BOOTLOADER_RECLAIMABLE)
  }

  ghost predicate MapOk(memory: seq<MapEntry>) {
    && 0 < |memory| <= MAX_ENTRIES
    && (forall i :: 0 <= i < |memory| ==> EntryOk(memory[i]))
    && forall i, j :: 0 <= i < j < |memory| ==> !Clash(memory[i], memory[j])
  }

  function AlignDown(v: nat): (a: nat)
    ensures a <= v < a + PAGE && a % PAGE == 0
  {
    v / PAGE * PAGE
  }

  function AlignUp(v: nat): (a: nat)
    ensures v <= a < v + PAGE && a % PAGE == 0
  {
    (v + (PAGE - 1)) / PAGE * PAGE
  }

  /** pmm_align_up fails where rounding up would wrap. */
  predicate CanAlignUp(v: nat) {
    v <= U64_LIMIT - 1 - (PAGE - 1)
  }

  /** How many whole frames entry `e` holds. */
  function WholeFrames(e: MapEntry): nat {
    if AlignDown(End(e)) <= AlignUp(e.base) then 0 else (AlignDown(End(e)) - AlignUp(e.base)) / PAGE
  }

  /** Add the frames of usable entry `e`, as far as the tables have room. */
  function AddEntry(f: Frames, e: MapEntry, source: nat): Frames
    requires f.total <= MAX_FRAMES
  {
    var n := WholeFrames(e);
    var left := MAX_FRAMES - f.total;
    if n == 0 then f
    else if left == 0 || MAX_REGIONS <= |f.regions| then f.(capped := true)
    else
      Frames(f.regions + [Region(AlignUp(e.base), Min(n, left), f.total)], f.sources + [source],
             f.total + Min(n, left), f.capped || left < n)
  }

  /** The frames of the first `n` entries; None when rounding a base up would wrap. */
  function Build(memory: seq<MapEntry>, n: nat): (r: Option<Frames>)
    requires n <= |memory|
    ensures r.Some? ==> r.value.total <= MAX_FRAMES
  {
    if n == 0 then Some(NO_FRAMES)
    else
      match Build(memory, n - 1)
      case None => None
      case Some(f) =>
        if memory[n - 1].kind != USABLE then Some(f)
        else if !CanAlignUp(memory[n - 1].base) then None
        else Some(AddEntry(f, memory[n - 1], n - 1))
  }

  /** pmm_init succeeds, with these frames. */
  ghost function Init(memory: seq<MapEntry>): Option<Frames> {
    if MapOk(memory) && Build(memory, |memory|).Some? && Build(memory, |memory|).value.total != 0
    then Build(memory, |memory|) else None
  }

  // ----------------------------------------------------------------- regions

  function RegionEnd(r: Region): nat {
    r.base + r.frames * PAGE
  }

  predicate RegionOk(r: Region) {
    r.base % PAGE == 0 && 0 < r.frames && RegionEnd(r) < U64_LIMIT
  }

  /** The regions are numbered without gaps and no two share an address. */
  ghost predicate RegionsOk(f: Frames) {
    && |f.regions| <= MAX_REGIONS && f.total <= MAX_FRAMES
    && (forall k :: 0 <= k < |f.regions| ==> RegionOk(f.regions[k]))
    && (forall j, k :: 0 <= j < k < |f.regions| && j + 1 == k ==>
          f.regions[k].first == f.regions[j].first + f.regions[j].frames)
    && (f.regions != [] ==> f.regions[0].first == 0)
    && f.total == (if f.regions == [] then 0 else f.regions[|f.regions| - 1].first + f.regions[|f.regions| - 1].frames)
    && forall j, k :: 0 <= j < k < |f.regions| ==> Apart(f.regions[j], f.regions[k])
  }

  predicate Apart(a: Region, b: Region) {
    RegionEnd(a) <= b.base || RegionEnd(b) <= a.base
  }

  /** The region of frame `i`. */
  predicate Holds(r: Region, i: nat) {
    r.first <= i < r.first + r.frames
  }

  function RegionOf(f: Frames, i: nat, k: nat): (r: nat)
    requires k <= |f.regions|
    ensures k <= r <= |f.regions| && (r < |f.regions| ==> Holds(f.regions[r], i))
    ensures r == |f.regions| ==> forall j :: k <= j < |f.regions| ==> !Holds(f.regions[j], i)
    decreases |f.regions| - k
  {
    if k == |f.regions| || Holds(f.regions[k], i) then k else RegionOf(f, i, k + 1)
  }

  /** The numbers of earlier regions come before those of later ones. */
  lemma {:induction false} FirstsGrow(f: Frames, j: nat, k: nat)
    requires RegionsOk(f) && j < k < |f.regions|
    ensures f.regions[j].first + f.regions[j].frames <= f.regions[k].first
    decreases k - j
  {
    if j + 1 < k {
      FirstsGrow(f, j, k - 1);
      assert f.regions[k].first == f.regions[k - 1].first + f.regions[k - 1].frames;
    }
  }

  lemma {:induction false} FirstsBound(f: Frames, k: nat)
    requires RegionsOk(f) && k < |f.regions|
    ensures f.regions[k].first + f.regions[k].frames <= f.total
  {
    if k < |f.regions| - 1 {
      FirstsGrow(f, k, |f.regions| - 1);
    }
  }

  lemma {:induction false} EveryFrameHeld(f: Frames, i: nat, k: nat)
    requires RegionsOk(f) && k < |f.regions| && i < f.regions[k].first + f.regions[k].frames
    ensures exists j :: 0 <= j <= k && Holds(f.regions[j], i)
    decreases k
  {
    if f.regions[k].first <= i {
      assert Holds(f.regions[k], i);
    } else {
      assert f.regions[k - 1].first + f.regions[k - 1].frames == f.regions[k].first;
      EveryFrameHeld(f, i, k - 1);
    }
  }

  lemma RegionKnown(f: Frames, i: nat)
    requires RegionsOk(f) && i < f.total
    ensures RegionOf(f, i, 0) < |f.regions|
  {
    assert f.regions != [];
    EveryFrameHeld(f, i, |f.regions| - 1);
  }

  lemma RegionUnique(f: Frames, i: nat, j: nat, k: nat)
    requires RegionsOk(f) && j < |f.regions| && k < |f.regions| && Holds(f.regions[j], i) && Holds(f.regions[k], i)
    ensures j == k
  {
    if j < k {
      FirstsGrow(f, j, k);
    } else if k < j {
      FirstsGrow(f, k, j);
    }
  }

  function AddressIn(r: Region, i: nat): nat
    requires Holds(r, i)
  {
    r.base + (i - r.first) * PAGE
  }

  /** The physical address of frame `i`. */
  ghost function Address(f: Frames, i: nat): nat {
    var k := RegionOf(f, i, 0);
    if k < |f.regions| then AddressIn(f.regions[k], i) else 0
  }

  lemma AddressIs(f: Frames, i: nat, k: nat)
    requires RegionsOk(f) && k < |f.regions| && Holds(f.regions[k], i)
    ensures Address(f, i) == AddressIn(f.regions[k], i) && i < f.total
  {
    RegionUnique(f, i, RegionOf(f, i, 0), k);
    FirstsBound(f, k);
  }

  lemma AddressBounds(r: Region, i: nat)
    requires RegionOk(r) && Holds(r, i)
    ensures r.base <= AddressIn(r, i) && AddressIn(r, i) + PAGE <= RegionEnd(r)
    ensures AddressIn(r, i) % PAGE == 0
  {
    assert (i - r.first + 1) * PAGE <= r.frames * PAGE;
  }

  /** Frames lie apart, so no two frames have the same address. */
  lemma FramesApart(f: Frames, i: nat, j: nat)
    requires RegionsOk(f) && i < j < f.total
    ensures Address(f, i) + PAGE <= Address(f, j) || Address(f, j) + PAGE <= Address(f, i)
    ensures Address(f, i) % PAGE == 0 == Address(f, j) % PAGE
  {
    RegionKnown(f, i);
    RegionKnown(f, j);
    var k, l := RegionOf(f, i, 0), RegionOf(f, j, 0);
    AddressBounds(f.regions[k], i);
    AddressBounds(f.regions[l], j);
    if k == l {
      assert (j - f.regions[k].first) - (i - f.regions[k].first) >= 1;
    } else if k < l {
      assert Apart(f.regions[k], f.regions[l]);
    } else {
      assert Apart(f.regions[l], f.regions[k]);
    }
  }

  /** pmm_find_frame, from region `k` on. */
  function Find(f: Frames, a: nat, k: nat): Option<nat>
    requires k <= |f.regions|
    decreases |f.regions| - k
  {
    if k == |f.regions| then None
    else if f.regions[k].base <= a < RegionEnd(f.regions[k]) then
      Some(f.regions[k].first + (a - f.regions[k].base) / PAGE)
    else Find(f, a, k + 1)
  }

  /** The region and the frame number of a page-aligned address in a region. */
  lemma AlignedFrame(r: Region, a: nat)
    requires RegionOk(r) && a % PAGE == 0 && r.base <= a < RegionEnd(r)
    ensures var i := r.first + (a - r.base) / PAGE; Holds(r, i) && AddressIn(r, i) == a
  {
    assert (a - r.base) % PAGE == 0;
    assert (a - r.base) / PAGE < r.frames;
  }

  lemma {:induction false} FindFrom(f: Frames, a: nat, k: nat)
    requires RegionsOk(f) && k <= |f.regions| && a % PAGE == 0
    ensures match Find(f, a, k)
      case Some(i) => i < f.total && Address(f, i) == a
      case None => forall j :: k <= j < |f.regions| ==> !(f.regions[j].base <= a < RegionEnd(f.regions[j]))
    decreases |f.regions| - k
  {
    hide Address, RegionOf, AddressIn;
    if k < |f.regions| {
      var r := f.regions[k];
      if r.base <= a < RegionEnd(r) {
        AlignedFrame(r, a);
        AddressIs(f, r.first + (a - r.base) / PAGE, k);
      } else {
        FindFrom(f, a, k + 1);
      }
    }
  }

  /** Frame numbers and frame addresses name each other. */
  lemma FindExact(f: Frames, a: nat, i: nat)
    requires RegionsOk(f) && a % PAGE == 0
    ensures Find(f, a, 0) == Some(i) <==> i < f.total && Address(f, i) == a
  {
    FindFrom(f, a, 0);
    if i < f.total && Address(f, i) == a {
      RegionKnown(f, i);
      AddressBounds(f.regions[RegionOf(f, i, 0)], i);
      var j := Find(f, a, 0).value;
      if j < i {
        FramesApart(f, j, i);
      } else if i < j {
        FramesApart(f, i, j);
      }
    }
  }

  // ------------------------------------------------- the map and its frames

  predicate Covers(e: MapEntry, r: Region) {
    e.base <= r.base && RegionEnd(r) <= End(e)
  }

  /** Every region was cut from a usable entry of its own among the first `n`. */
  ghost predicate SourcesOk(memory: seq<MapEntry>, n: nat, f: Frames)
    requires n <= |memory|
  {
    && |f.sources| == |f.regions|
    && (forall k :: 0 <= k < |f.sources| ==>
          f.sources[k] < n && memory[f.sources[k]].kind == USABLE && Covers(memory[f.sources[k]], f.regions[k]))
    && forall j, k :: 0 <= j < k < |f.sources| ==> f.sources[j] < f.sources[k]
  }

  lemma WholeFramesFit(e: MapEntry)
    requires EntryOk(e) && 0 < WholeFrames(e)
    ensures AlignUp(e.base) + WholeFrames(e) * PAGE == AlignDown(End(e)) <= End(e) < U64_LIMIT
    ensures e.base <= AlignUp(e.base)
  {}

  lemma AddKeeps(memory: seq<MapEntry>, n: nat, f: Frames)
    requires MapOk(memory) && n < |memory| && memory[n].kind == USABLE
    requires RegionsOk(f) && SourcesOk(memory, n, f)
    ensures var g := AddEntry(f, memory[n], n); RegionsOk(g) && SourcesOk(memory, n + 1, g)
  {
    hide Clash, WholeFrames, Apart, Covers, RegionOk, EntryOk, AlignUp;
    var e := memory[n];
    var g := AddEntry(f, e, n);
    if g.regions != f.regions {
      var r := g.regions[|f.regions|];
      CutRegion(e, r, WholeFrames(e));
      forall k | 0 <= k < |f.regions| ensures Apart(f.regions[k], r) {
        SourceApart(memory, n, f, k, r);
      }
    }
  }

  lemma CutRegion(e: MapEntry, r: Region, n: nat)
    requires EntryOk(e) && n == WholeFrames(e) && 0 < r.frames <= n && r.base == AlignUp(e.base)
    ensures RegionOk(r) && Covers(e, r)
  {
    WholeFramesFit(e);
    assert r.frames * PAGE <= n * PAGE;
  }

  lemma SourceApart(memory: seq<MapEntry>, n: nat, f: Frames, k: nat, r: Region)
    requires MapOk(memory) && n < |memory| && memory[n].kind == USABLE && SourcesOk(memory, n, f)
    requires k < |f.regions| && RegionOk(f.regions[k]) && RegionOk(r) && Covers(memory[n], r)
    ensures Apart(f.regions[k], r)
  {
    assert !Clash(memory[f.sources[k]], memory[n]);
    assert Covers(memory[f.sources[k]], f.regions[k]);
  }

  lemma NothingBuilt(memory: seq<MapEntry>)
    ensures Build(memory, 0) == Some(NO_FRAMES) && RegionsOk(NO_FRAMES) && SourcesOk(memory, 0, NO_FRAMES)
  {}

  lemma SourcesLater(memory: seq<MapEntry>, n: nat, f: Frames)
    requires n < |memory| && SourcesOk(memory, n, f)
    ensures SourcesOk(memory, n + 1, f)
  {
    hide Covers;
  }

  lemma {:induction false} BuildKeeps(memory: seq<MapEntry>, n: nat)
    requires MapOk(memory) && n <= |memory| && Build(memory, n).Some?
    ensures RegionsOk(Build(memory, n).value) && SourcesOk(memory, n, Build(memory, n).value)
  {
    hide AddEntry, RegionsOk, MapOk, CanAlignUp;
    if n == 0 {
      NothingBuilt(memory);
    } else {
      BuildKeeps(memory, n - 1);
      var f := Build(memory, n - 1).value;
      SourcesLater(memory, n - 1, f);
      if memory[n - 1].kind == USABLE {
        AddKeeps(memory, n - 1, f);
      }
    }
  }

  /** Frame `a` lies wholly in usable entry `i` and touches no other entry. */
  ghost predicate OnlyIn(memory: seq<MapEntry>, a: nat, i: nat) {
    && i < |memory| && memory[i].kind == USABLE && memory[i].base <= a && a + PAGE <= End(memory[i])
    && forall j :: 0 <= j < |memory| && j != i ==> a + PAGE <= memory[j].base || End(memory[j]) <= a
  }

  /** Every managed frame is usable memory that belongs to nothing else. */
  lemma FrameInOneEntry(memory: seq<MapEntry>, i: nat)
    requires Init(memory).Some? && i < Init(memory).value.total
    ensures exists e :: OnlyIn(memory, Address(Init(memory).value, i), e)
  {
    var f := Init(memory).value;
    BuildKeeps(memory, |memory|);
    RegionKnown(f, i);
    var k := RegionOf(f, i, 0);
    AddressBounds(f.regions[k], i);
    var e, a := f.sources[k], Address(f, i);
    assert Covers(memory[e], f.regions[k]);
    forall j | 0 <= j < |memory| && j != e ensures a + PAGE <= memory[j].base || End(memory[j]) <= a {
      assert EntryOk(memory[j]);
      assert if j < e then !Clash(memory[j], memory[e]) else !Clash(memory[e], memory[j]);
    }
    assert OnlyIn(memory, a, e);
  }

  /** Unless the tables were too small, each of the first `n` usable entries gave all its whole frames. */
  ghost predicate Complete(memory: seq<MapEntry>, n: nat, f: Frames)
    requires n <= |memory|
  {
    forall i :: 0 <= i < n && memory[i].kind == USABLE && 0 < WholeFrames(memory[i]) ==>
      exists k :: 0 <= k < |f.regions| && f.regions[k].base == AlignUp(memory[i].base) && f.regions[k].frames == WholeFrames(memory[i])
  }

  lemma {:induction false} BuildComplete(memory: seq<MapEntry>, n: nat)
    requires n <= |memory| && Build(memory, n).Some? && !Build(memory, n).value.capped
    ensures Complete(memory, n, Build(memory, n).value)
  {
    if 0 < n {
      var f, g := Build(memory, n - 1).value, Build(memory, n).value;
      BuildComplete(memory, n - 1);
      hide WholeFrames, AlignUp;
      forall i | 0 <= i < n && memory[i].kind == USABLE && 0 < WholeFrames(memory[i])
        ensures exists k :: 0 <= k < |g.regions| && g.regions[k].base == AlignUp(memory[i].base)
                            && g.regions[k].frames == WholeFrames(memory[i])
      {
        if i < n - 1 {
          var k :| 0 <= k < |f.regions| && f.regions[k].base == AlignUp(memory[i].base)
                   && f.regions[k].frames == WholeFrames(memory[i]);
          assert g.regions[k] == f.regions[k];
        } else {
          assert g.regions[|f.regions|].base == AlignUp(memory[i].base);
        }
      }
    }
  }

  lemma AlignedInside(e: MapEntry, a: nat)
    requires EntryOk(e) && a % PAGE == 0 && e.base <= a && a + PAGE <= End(e)
    ensures 0 < WholeFrames(e) && AlignUp(e.base) <= a && a + PAGE <= AlignUp(e.base) + WholeFrames(e) * PAGE
  {
    assert AlignUp(e.base) <= a;
    assert a + PAGE <= AlignDown(End(e));
  }

  /** When nothing was capped, every whole frame of usable memory is managed. */
  lemma NoFrameLost(memory: seq<MapEntry>, a: nat, i: nat)
    requires Init(memory).Some? && !Init(memory).value.capped && a % PAGE == 0
    requires i < |memory| && memory[i].kind == USABLE && memory[i].base <= a && a + PAGE <= End(memory[i])
    ensures Find(Init(memory).value, a, 0).Some?
  {
    var f := Init(memory).value;
    BuildKeeps(memory, |memory|);
    BuildComplete(memory, |memory|);
    AlignedInside(memory[i], a);
    hide AlignUp, AlignDown, WholeFrames, Build, RegionsOk, MapOk;
    var k :| 0 <= k < |f.regions| && f.regions[k].base == AlignUp(memory[i].base)
             && f.regions[k].frames == WholeFrames(memory[i]);
    FindFrom(f, a, 0);
  }

  // ------------------------------------------------------- taking and freeing

  /** Frame `i` is free and starts in [lo, hi). */
  ghost predicate Takeable(f: Frames, taken: seq<bool>, i: nat, lo: nat, hi: nat) {
    i < |taken| && !taken[i] && lo <= Address(f, i) < hi
  }

  /** The first frame from `i` on that can be taken; |taken| when there is none. */
  ghost function FirstFree(f: Frames, taken: seq<bool>, lo: nat, hi: nat, i: nat): (k: nat)
    requires i <= |taken|
    ensures i <= k <= |taken| && (k < |taken| ==> Takeable(f, taken, k, lo, hi))
    ensures forall j :: i <= j < k ==> !Takeable(f, taken, j, lo, hi)
    decreases |taken| - i
  {
    if i == |taken| || Takeable(f, taken, i, lo, hi) then i else FirstFree(f, taken, lo, hi, i + 1)
  }

  /** pmm_alloc_frame_in_range: the frame taken. */
  ghost function Alloc(f: Frames, taken: seq<bool>, lo: nat, hi: nat): Option<nat> {
    var k := FirstFree(f, taken, lo, hi, 0);
    if k < |taken| then Some(k) else None
  }

  /** The taken frame pmm_free_frame would free for address `a`. */
  ghost function Freeable(f: Frames, taken: seq<bool>, a: nat): Option<nat> {
    if a % PAGE != 0 then None
    else
      match Find(f, a, 0)
      case None => None
      case Some(i) => if i < |taken| && taken[i] then Some(i) else None
  }

  datatype Call = AllocCall(lo: nat, hi: nat) | FreeCall(address: nat)

  ghost function Step(f: Frames, taken: seq<bool>, call: Call): (r: seq<bool>)
    ensures |r| == |taken|
  {
    match call
    case AllocCall(lo, hi) =>
      (match Alloc(f, taken, lo, hi) case None => taken case Some(k) => taken[k := true])
    case FreeCall(a) =>
      (match Freeable(f, taken, a) case None => taken case Some(k) => taken[k := false])
  }

  ghost function Run(f: Frames, taken: seq<bool>, calls: seq<Call>): (r: seq<bool>)
    ensures |r| == |taken|
    decreases |calls|
  {
    if calls == [] then taken else Run(f, Step(f, taken, calls[0]), calls[1..])
  }

  /** Some allocation of the run answers address `a`. */
  ghost predicate HandsOut(f: Frames, taken: seq<bool>, calls: seq<Call>, a: nat)
    decreases |calls|
  {
    calls != [] && (Gives(f, taken, calls[0], a) || HandsOut(f, Step(f, taken, calls[0]), calls[1..], a))
  }

  ghost predicate Gives(f: Frames, taken: seq<bool>, call: Call, a: nat) {
    && call.AllocCall? && Alloc(f, taken, call.lo, call.hi).Some?
    && Address(f, Alloc(f, taken, call.lo, call.hi).value) == a
  }

  function CountFree(taken: seq<bool>): (n: nat)
    ensures n <= |taken|
  {
    if taken == [] then 0 else CountFree(taken[..|taken| - 1]) + if taken[|taken| - 1] then 0 else 1
  }

  lemma {:induction false} CountUpdate(taken: seq<bool>, i: nat, b: bool)
    requires i < |taken| && taken[i] != b
    ensures CountFree(taken[i := b]) == if b then CountFree(taken) - 1 else CountFree(taken) + 1
  {
    var init, now := taken[..|taken| - 1], taken[i := b];
    if i < |init| {
      CountUpdate(init, i, b);
      assert now[..|taken| - 1] == init[i := b];
    } else {
      assert now[..|taken| - 1] == init;
    }
  }

  lemma {:induction false} CountPositive(taken: seq<bool>)
    ensures CountFree(taken) == 0 <==> forall i :: 0 <= i < |taken| ==> taken[i]
    ensures CountFree(taken) == |taken| <==> forall i :: 0 <= i < |taken| ==> !taken[i]
  {
    if taken != [] {
      CountPositive(taken[..|taken| - 1]);
    }
  }

  /** An allocation fails exactly when no free frame starts in the range. */
  lemma AllocExact(f: Frames, taken: seq<bool>, lo: nat, hi: nat)
    ensures Alloc(f, taken, lo, hi).None? <==> forall i :: 0 <= i < |taken| ==> !Takeable(f, taken, i, lo, hi)
  {
    var k := FirstFree(f, taken, lo, hi, 0);
    assert k < |taken| ==> Takeable(f, taken, k, lo, hi);
  }

  /** Freeing what was just allocated restores every mark. */
  lemma FreeUndoesAlloc(f: Frames, taken: seq<bool>, lo: nat, hi: nat)
    requires RegionsOk(f) && |taken| == f.total && Alloc(f, taken, lo, hi).Some?
    ensures var k := Alloc(f, taken, lo, hi).value;
      && Freeable(f, Step(f, taken, AllocCall(lo, hi)), Address(f, k)) == Some(k)
      && Step(f, Step(f, taken, AllocCall(lo, hi)), FreeCall(Address(f, k))) == taken
  {
    var k := Alloc(f, taken, lo, hi).value;
    RegionKnown(f, k);
    AddressBounds(f.regions[RegionOf(f, k, 0)], k);
    FindExact(f, Address(f, k), k);
    assert taken[k := true][k := false] == taken;
  }

  /** A frame that is taken is handed out to nobody until it is freed. */
  lemma {:induction false} NotHandedOutTwice(f: Frames, taken: seq<bool>, calls: seq<Call>, i: nat)
    requires RegionsOk(f) && |taken| == f.total && i < f.total && taken[i] && FreeCall(Address(f, i)) !in calls
    ensures !HandsOut(f, taken, calls, Address(f, i)) && Run(f, taken, calls)[i]
    decreases |calls|
  {
    if calls != [] {
      StepKeepsTaken(f, taken, calls[0], i);
      NotHandedOutTwice(f, Step(f, taken, calls[0]), calls[1..], i);
    }
  }

  lemma StepKeepsTaken(f: Frames, taken: seq<bool>, call: Call, i: nat)
    requires RegionsOk(f) && |taken| == f.total && i < f.total && taken[i] && call != FreeCall(Address(f, i))
    ensures Step(f, taken, call)[i] && !Gives(f, taken, call, Address(f, i))
  {
    if call.FreeCall? && call.address % PAGE == 0 {
      FindExact(f, call.address, i);
    } else if call.AllocCall? && Alloc(f, taken, call.lo, call.hi).Some? {
      var k := Alloc(f, taken, call.lo, call.hi).value;
      if k < i {
        FramesApart(f, k, i);
      } else if i < k {
        FramesApart(f, i, k);
      }
    }
  }

  /** The cached count stays the number of free frames. */
  lemma StepCounts(f: Frames, taken: seq<bool>, call: Call)
    ensures call.AllocCall? ==>
      CountFree(Step(f, taken, call)) == CountFree(taken) - if Alloc(f, taken, call.lo, call.hi).Some? then 1 else 0
    ensures call.FreeCall? ==>
      CountFree(Step(f, taken, call)) == CountFree(taken) + if Freeable(f, taken, call.address).Some? then 1 else 0
  {
    match call
    case AllocCall(lo, hi) =>
      if Alloc(f, taken, lo, hi).Some? {
        CountUpdate(taken, Alloc(f, taken, lo, hi).value, true);
      }
    case FreeCall(a) =>
      if Freeable(f, taken, a).Some? {
        CountUpdate(taken, Freeable(f, taken, a).value, false);
      }
  }
}
