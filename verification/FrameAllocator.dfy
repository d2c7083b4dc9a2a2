/**
 The physical frame allocator as the kernel runs it: a table of regions and one bitmap,
 scanned region by region and bit by bit. Every call is tied to FrameSpec.
 */
module FrameAllocator {
  import opened Machine
  import opened FrameSpec
  import opened Bits

  const BITMAP_WORDS: nat := 131072

  function BitsOf(words: seq<bv64>, n: nat): (bits: seq<bool>)
    requires n <= |words| * WORD
    ensures |bits| == n && forall i :: 0 <= i < n ==> bits[i] == BitSet(words[i / WORD], i % WORD)
  {
    seq(n, i requires 0 <= i < n => BitSet(words[i / WORD], i % WORD))
  }

  class Allocator {
    const regions: array<Region>
    const bitmap: array<bv64>
    var regionCount: nat
    var total: nat
    var free: nat
    var initialized: bool
    var capped: bool
    ghost var frames: Frames

    ghost predicate Structural()
      reads this`initialized, this`regionCount, this`total, this`capped, this`frames, regions
    {
      && regions.Length == MAX_REGIONS && bitmap.Length == BITMAP_WORDS && (regions as object) != bitmap
      && (initialized ==>
            && RegionsOk(frames) && 0 < frames.total
            && regionCount == |frames.regions| && regions[..regionCount] == frames.regions
            && total == frames.total && capped == frames.capped)
    }

    /** Which frames are taken, as the bitmap says. */
    ghost function Taken(): (taken: seq<bool>)
      requires bitmap.Length == BITMAP_WORDS && total <= MAX_FRAMES
      reads this`total, bitmap
      ensures |taken| == total
      ensures forall i :: 0 <= i < total ==> taken[i] == BitSet(bitmap[i / WORD], i % WORD)
    {
      BitsOf(bitmap[..], total)
    }

    ghost predicate Valid()
      reads this, regions, bitmap
    {
      Structural() && (initialized ==> free == CountFree(Taken()))
    }

    constructor ()
      ensures Valid() && !initialized && fresh(regions) && fresh(bitmap)
    {
      regions := new Region[MAX_REGIONS](i => Region(0, 0, 0));
      bitmap := new bv64[BITMAP_WORDS](i => 0);
      regionCount, total, free, initialized, capped := 0, 0, 0, false, false;
      frames := NO_FRAMES;
    }

    // ----------------------------------------------------------- initialisation

    /** The state before pmm_init: no region, no frame, an empty bitmap. */
    ghost predicate Cleared()
      reads this, regions, bitmap
    {
      && Structural() && !initialized && total == 0 && regionCount == 0 && free == 0 && !capped
      && (forall k :: 0 <= k < MAX_REGIONS ==> regions[k] == Region(0, 0, 0))
      && forall w :: 0 <= w < BITMAP_WORDS ==> bitmap[w] == 0
    }

    /** pmm_reset_state. */
    method Reset()
      requires Structural()
      modifies this, regions, bitmap
      ensures Cleared()
    {
      regionCount, total, free, initialized, capped := 0, 0, 0, false, false;
      for k := 0 to MAX_REGIONS
        modifies regions
        invariant forall j :: 0 <= j < k ==> regions[j] == Region(0, 0, 0)
      {
        regions[k] := Region(0, 0, 0);
      }
      for w := 0 to BITMAP_WORDS
        modifies bitmap
        invariant forall v :: 0 <= v < w ==> bitmap[v] == 0
      {
        bitmap[w] := 0;
      }
    }

    /** The first pass of pmm_init: no entry is malformed and no two clash. */
    method CheckMap(memory: seq<MapEntry>) returns (ok: bool)
      ensures ok <==> MapOk(memory)
    {
      if |memory| == 0 || MAX_ENTRIES < |memory| {
        return false;
      }
      var i := 0;
      while i < |memory|
        invariant i <= |memory|
        invariant forall j :: 0 <= j < i ==> EntryOk(memory[j])
        invariant forall j, k :: 0 <= j < i && j < k < |memory| ==> !Clash(memory[j], memory[k])
      {
        if !EntryOk(memory[i]) {
          return false;
        }
        var j := i + 1;
        while j < |memory|
          invariant i < j <= |memory|
          invariant forall k :: i < k < j ==> !Clash(memory[i], memory[k])
        {
          if !EntryOk(memory[j]) || Clash(memory[i], memory[j]) {
            return false;
          }
          j := j + 1;
        }
        i := i + 1;
      }
      return true;
    }

    /** The region table spells out the regions of `f`. */
    ghost predicate Tables(f: Frames)
      reads this`regionCount, this`total, this`capped, regions
    {
      && regions.Length == MAX_REGIONS && regionCount == |f.regions| <= MAX_REGIONS
      && regions[..regionCount] == f.regions && total == f.total <= MAX_FRAMES && capped == f.capped
    }

    /** One usable entry of the second pass. */
    method AddRegion(e: MapEntry, ghost f: Frames, ghost source: nat)
      requires Tables(f) && EntryOk(e)
      modifies this`regionCount, this`total, this`capped, regions
      ensures Tables(AddEntry(f, e, source))
    {
      var base, end := AlignUp(e.base), AlignDown(End(e));
      if end <= base {
        return;
      }
      var n := (end - base) / PAGE;
      if n == 0 {
        return;
      }
      var left := MAX_FRAMES - total;
      if left == 0 || MAX_REGIONS <= regionCount {
        capped := true;
        return;
      }
      if left < n {
        n := left;
        capped := true;
      }
      regions[regionCount] := Region(base, n, total);
      regionCount := regionCount + 1;
      total := total + n;
    }

    /** The second pass of pmm_init. */
    method BuildRegions(memory: seq<MapEntry>) returns (ok: bool)
      requires Tables(NO_FRAMES) && forall i :: 0 <= i < |memory| ==> EntryOk(memory[i])
      modifies this`regionCount, this`total, this`capped, regions
      ensures ok <==> Build(memory, |memory|).Some?
      ensures ok ==> Tables(Build(memory, |memory|).value)
    {
      hide *;
      var n := 0;
      BuildStep(memory, 0);
      while n < |memory|
        invariant n <= |memory| && Build(memory, n).Some? && Tables(Build(memory, n).value)
      {
        BuildStep(memory, n + 1);
        var e := memory[n];
        if e.kind == USABLE {
          if !CanAlignUp(e.base) {
            BuildStops(memory, n + 1, |memory|);
            return false;
          }
          AddRegion(e, Build(memory, n).value, n);
        }
        n := n + 1;
      }
      return true;
    }

    method Initialise(memory: seq<MapEntry>) returns (ok: bool)
      requires Structural()
      modifies this, regions, bitmap
      ensures Valid() && initialized == ok
      ensures ok <==> Init(memory).Some?
      ensures ok ==> frames == Init(memory).value && forall i :: 0 <= i < total ==> !Taken()[i]
      ensures !ok ==> Cleared()
    {
      Reset();
      var sound := CheckMap(memory);
      if !sound {
        return false;
      }
      var built := BuildRegions(memory);
      if !built {
        Reset();
        return false;
      }
      if total == 0 {
        Reset();
        return false;
      }
      BuildKeeps(memory, |memory|);
      Open(Build(memory, |memory|).value);
      return true;
    }

    /** The last lines of pmm_init: every frame of the regions is free. */
    method Open(ghost f: Frames)
      requires Structural() && Tables(f) && RegionsOk(f) && 0 < f.total
      requires forall w :: 0 <= w < BITMAP_WORDS ==> bitmap[w] == 0
      modifies this`frames, this`free, this`initialized
      ensures Valid() && initialized && frames == f && forall i :: 0 <= i < total ==> !Taken()[i]
    {
      hide RegionsOk;
      frames, free, initialized := f, total, true;
      forall i | 0 <= i < total ensures !Taken()[i] {
        NothingMeets(Mask(i % WORD));
      }
      CountPositive(Taken());
    }

    // ------------------------------------------------------------------- bitmap

    method BitIsSet(i: nat) returns (b: bool)
      requires bitmap.Length == BITMAP_WORDS && total <= MAX_FRAMES
      ensures b <==> i < total && Taken()[i]
    {
      if total <= i {
        return false;
      }
      return BitSet(bitmap[i / WORD], i % WORD);
    }

    method SetBit(i: nat) returns (ok: bool)
      requires bitmap.Length == BITMAP_WORDS && total <= MAX_FRAMES
      modifies bitmap
      ensures ok <==> i < total
      ensures Taken() == if i < total then old(Taken())[i := true] else old(Taken())
    {
      hide BitSet, Mask, With;
      if total <= i {
        return false;
      }
      bitmap[i / WORD] := With(bitmap[i / WORD], Mask(i % WORD));
      forall j | 0 <= j < total ensures Taken()[j] == (old(Taken())[j] || j == i) {
        SamePlace(i, j);
        BitChanged(old(bitmap[i / WORD]), i % WORD, j % WORD);
      }
      assert Taken() == old(Taken())[i := true];
      return true;
    }

    method ClearBit(i: nat) returns (ok: bool)
      requires bitmap.Length == BITMAP_WORDS && total <= MAX_FRAMES
      modifies bitmap
      ensures ok <==> i < total
      ensures Taken() == if i < total then old(Taken())[i := false] else old(Taken())
    {
      hide BitSet, Mask, Without;
      if total <= i {
        return false;
      }
      bitmap[i / WORD] := Without(bitmap[i / WORD], Mask(i % WORD));
      forall j | 0 <= j < total ensures Taken()[j] == (old(Taken())[j] && j != i) {
        SamePlace(i, j);
        BitChanged(old(bitmap[i / WORD]), i % WORD, j % WORD);
      }
      assert Taken() == old(Taken())[i := false];
      return true;
    }

    // ------------------------------------------------------------------- search

    /** The first free frame of region `k` that starts in [lo, hi), where `lo` is page-aligned. */
    method SearchRegion(k: nat, lo: nat, hi: nat) returns (found: Option<nat>)
      requires Structural() && initialized && k < regionCount && lo % PAGE == 0
      ensures found.Some? ==>
        && Holds(frames.regions[k], found.value) && Takeable(frames, Taken(), found.value, lo, hi)
        && forall i :: frames.regions[k].first <= i < found.value ==> !Takeable(frames, Taken(), i, lo, hi)
      ensures found.None? ==>
        forall i: nat :: Holds(frames.regions[k], i) ==> !Takeable(frames, Taken(), i, lo, hi)
    {
      hide *;
      RegionAt(k);
      var r := regions[k];
      var base := if r.base < lo then lo else r.base;
      SearchStarts(frames, k, Taken(), lo, hi, base);
      if RegionEnd(r) <= base || hi <= base {
        return None;
      }
      HoldsIs(r);
      var local := (base - r.base) / PAGE;
      while local < r.frames
        invariant (base - r.base) / PAGE <= local <= r.frames
        invariant forall i :: r.first <= i < r.first + local ==> !Takeable(frames, Taken(), i, lo, hi)
      {
        var address := r.base + local * PAGE;
        SearchStep(frames, k, Taken(), lo, hi, base, local);
        if hi <= address {
          return None;
        }
        var taken := BitIsSet(r.first + local);
        if !taken {
          return Some(r.first + local);
        }
        local := local + 1;
      }
      return None;
    }

    lemma RegionAt(k: nat)
      requires Structural() && initialized && k < regionCount
      ensures k < regions.Length && k < |frames.regions| && regions[k] == frames.regions[k] && RegionsOk(frames)
      ensures bitmap.Length == BITMAP_WORDS && total <= MAX_FRAMES && |Taken()| == total == frames.total
      ensures RegionEnd(regions[k]) == regions[k].base + regions[k].frames * PAGE
    {}

    /** pmm_alloc_frame_in_range. */
    method AllocInRange(lo: u64, hi: u64) returns (address: Option<nat>)
      requires Valid()
      modifies this`free, bitmap
      ensures Valid()
      ensures !initialized ==> address == None
      ensures initialized ==>
        && Taken() == Step(frames, old(Taken()), AllocCall(lo, hi))
        && address == match Alloc(frames, old(Taken()), lo, hi)
             case None => None
             case Some(i) => Some(Address(frames, i))
    {
      hide *;
      if !initialized {
        return None;
      }
      ValidIs();
      CountPositive(Taken());
      TooHigh(frames, Taken(), lo, hi);
      if free == 0 || hi <= lo || !CanAlignUp(lo) || hi <= AlignUp(lo) {
        return None;
      }
      SameFromAligned(frames, Taken(), lo, hi);
      var found := FindFree(AlignUp(lo), hi);
      AllocIs(frames, Taken(), lo, hi, AlignUp(lo), found);
      if found.None? {
        return None;
      }
      var ok := SetBit(found.value.0);
      CountUpdate(old(Taken()), found.value.0, true);
      free := free - 1;
      ValidIs();
      return Some(found.value.1);
    }

    lemma ValidIs()
      requires initialized
      ensures Structural() ==> RegionsOk(frames) && bitmap.Length == BITMAP_WORDS && total == frames.total <= MAX_FRAMES
      ensures Structural() ==> |Taken()| == total
      ensures Structural() ==> (regions as object) != bitmap
      ensures Valid() <==> Structural() && free == CountFree(Taken())
    {}

    /** The search loops over the regions: the first free frame in [lo, hi), and its address. */
    method FindFree(lo: nat, hi: nat) returns (found: Option<(nat, nat)>)
      requires Structural() && initialized && lo % PAGE == 0
      ensures found.Some? ==> found.value.0 < |Taken()| && Takeable(frames, Taken(), found.value.0, lo, hi)
      ensures found.Some? ==> found.value.1 == Address(frames, found.value.0)
      ensures forall i :: 0 <= i < (if found.Some? then found.value.0 else |Taken()|) ==> !Takeable(frames, Taken(), i, lo, hi)
    {
      assert regionCount == |frames.regions| <= MAX_REGIONS == regions.Length;
      hide Takeable, Taken, Address, RegionsOk;
      var k := 0;
      FirstAtIs(frames);
      while k < regionCount
        invariant k <= regionCount
        invariant forall i :: 0 <= i < FirstAt(frames, k) ==> !Takeable(frames, Taken(), i, lo, hi)
      {
        var i := SearchRegion(k, lo, hi);
        NextRegion(frames, k);
        if i.Some? {
          AddressIs(frames, i.value, k);
          return Some((i.value, regions[k].base + (i.value - regions[k].first) * PAGE));
        }
        k := k + 1;
      }
      return None;
    }

    /** pmm_find_frame. */
    method FindFrame(a: nat) returns (i: Option<nat>)
      requires Structural() && initialized
      ensures i == if a % PAGE != 0 then None else Find(frames, a, 0)
    {
      if a % PAGE != 0 {
        return None;
      }
      var k := 0;
      while k < regionCount
        invariant k <= regionCount && Find(frames, a, 0) == Find(frames, a, k)
      {
        var r := regions[k];
        assert r == frames.regions[k];
        if r.base <= a < RegionEnd(r) {
          return Some(r.first + (a - r.base) / PAGE);
        }
        k := k + 1;
      }
      return None;
    }

    method FreeFrame(a: u64) returns (ok: bool)
      requires Valid()
      modifies this`free, bitmap
      ensures Valid()
      ensures !initialized ==> !ok
      ensures initialized ==>
        Taken() == Step(frames, old(Taken()), FreeCall(a)) && (ok <==> Freeable(frames, old(Taken()), a).Some?)
    {
      hide *;
      if !initialized {
        return false;
      }
      ValidIs();
      var i := FindFrame(a);
      FreeIs(frames, Taken(), a, i);
      if i.None? {
        return false;
      }
      var taken := BitIsSet(i.value);
      if !taken {
        return false;
      }
      ok := ClearBit(i.value);
      CountUpdate(old(Taken()), i.value, false);
      free := free + 1;
      ValidIs();
    }
  }

  lemma BuildStep(memory: seq<MapEntry>, n: nat)
    requires n <= |memory|
    ensures n == 0 ==> Build(memory, n) == Some(NO_FRAMES)
    ensures 0 < n && Build(memory, n - 1).Some? ==>
      var f, e := Build(memory, n - 1).value, memory[n - 1];
      f.total <= MAX_FRAMES
      && Build(memory, n)
         == if e.kind != USABLE then Some(f) else if !CanAlignUp(e.base) then None else Some(AddEntry(f, e, n - 1))
  {}

  lemma {:induction false} BuildStops(memory: seq<MapEntry>, n: nat, m: nat)
    requires n <= m <= |memory| && Build(memory, n).None?
    ensures Build(memory, m).None?
    decreases m
  {
    if n < m {
      BuildStops(memory, n, m - 1);
    }
  }

  /** Two frames share a word and a bit only when they are the same. */
  lemma SamePlace(i: nat, j: nat)
    ensures i / WORD == j / WORD && i % WORD == j % WORD <==> i == j
  {}

  /** The addresses of the frames of region `k`. */
  lemma InRegion(f: Frames, k: nat)
    requires RegionsOk(f) && k < |f.regions|
    ensures forall i: nat :: Holds(f.regions[k], i) ==> i < f.total && Address(f, i) == f.regions[k].base + (i - f.regions[k].first) * PAGE
  {
    forall i: nat | Holds(f.regions[k], i)
      ensures i < f.total && Address(f, i) == f.regions[k].base + (i - f.regions[k].first) * PAGE
    {
      AddressIs(f, i, k);
    }
  }

  lemma HoldsIs(r: Region)
    ensures forall i: nat :: Holds(r, i) <==> r.first <= i < r.first + r.frames
  {}

  /** Where the search of region `k` starts, and what lies before. */
  lemma SearchStarts(f: Frames, k: nat, taken: seq<bool>, lo: nat, hi: nat, base: nat)
    requires RegionsOk(f) && k < |f.regions| && |taken| == f.total && lo % PAGE == 0
    requires base == if f.regions[k].base < lo then lo else f.regions[k].base
    ensures var r := f.regions[k];
      if RegionEnd(r) <= base || hi <= base then forall i: nat :: Holds(r, i) ==> !Takeable(f, taken, i, lo, hi)
      else
        && 0 <= (base - r.base) / PAGE < r.frames
        && forall i :: r.first <= i < r.first + (base - r.base) / PAGE ==> !Takeable(f, taken, i, lo, hi)
  {
    var r := f.regions[k];
    InRegion(f, k);
    assert RegionOk(r);
    hide RegionsOk, Address;
    forall i: nat | Holds(r, i) ensures RegionEnd(r) <= base || hi <= base ==> !Takeable(f, taken, i, lo, hi) {
      AddressBounds(r, i);
    }
    if base < RegionEnd(r) {
      StartAt(r, base);
      forall i | r.first <= i < r.first + (base - r.base) / PAGE ensures !Takeable(f, taken, i, lo, hi) {
        assert Holds(r, i) && r.base + (i - r.first) * PAGE < base;
      }
    }
  }

  /** One frame of the search. */
  lemma SearchStep(f: Frames, k: nat, taken: seq<bool>, lo: nat, hi: nat, base: nat, local: nat)
    requires RegionsOk(f) && k < |f.regions| && |taken| == f.total && lo % PAGE == 0
    requires base == if f.regions[k].base < lo then lo else f.regions[k].base
    requires base < RegionEnd(f.regions[k]) && (base - f.regions[k].base) / PAGE <= local < f.regions[k].frames
    ensures var r := f.regions[k];
      && r.first + local < f.total && Holds(r, r.first + local)
      && (Takeable(f, taken, r.first + local, lo, hi) <==> !taken[r.first + local] && r.base + local * PAGE < hi)
      && (hi <= r.base + local * PAGE ==>
            forall i: nat :: Holds(r, i) && r.first + local <= i ==> !Takeable(f, taken, i, lo, hi))
  {
    var r := f.regions[k];
    InRegion(f, k);
    assert RegionOk(r);
    hide RegionsOk, Address;
    StartAt(r, base);
    assert Holds(r, r.first + local);
    assert lo <= base <= r.base + local * PAGE;
    forall i: nat | Holds(r, i) && r.first + local <= i ensures r.base + local * PAGE <= Address(f, i) {
      assert local * PAGE <= (i - r.first) * PAGE;
    }
  }

  /** Frames before the one at `base` start before `base`. */
  lemma StartAt(r: Region, base: nat)
    requires RegionOk(r) && r.base <= base < RegionEnd(r) && base % PAGE == 0
    ensures var n := (base - r.base) / PAGE;
      && n < r.frames && r.base + n * PAGE == base
      && forall i :: 0 <= i < n ==> r.base + i * PAGE < base
  {
    assert (base - r.base) % PAGE == 0;
  }

  /** The number of the first frame of region `k`. */
  ghost function FirstAt(f: Frames, k: nat): nat
    requires k <= |f.regions|
  {
    if k < |f.regions| then f.regions[k].first else f.total
  }

  lemma NextRegion(f: Frames, k: nat)
    requires RegionsOk(f) && k < |f.regions|
    ensures FirstAt(f, k + 1) == f.regions[k].first + f.regions[k].frames
  {}

  /** No frame starts in the last page of the address space, or in an empty range. */
  lemma TooHigh(f: Frames, taken: seq<bool>, lo: nat, hi: nat)
    requires RegionsOk(f) && |taken| == f.total
    ensures (forall i :: 0 <= i < |taken| ==> taken[i]) ==> Alloc(f, taken, lo, hi).None?
    ensures hi <= lo || !CanAlignUp(lo) || hi <= AlignUp(lo) ==> Alloc(f, taken, lo, hi).None?
    ensures Alloc(f, taken, lo, hi).None? ==> Step(f, taken, AllocCall(lo, hi)) == taken
  {
    forall i | 0 <= i < |taken| && Takeable(f, taken, i, lo, hi)
      ensures lo < hi && CanAlignUp(lo) && AlignUp(lo) < hi
    {
      RegionKnown(f, i);
      AddressBounds(f.regions[RegionOf(f, i, 0)], i);
    }
  }

  /** Frames start on page boundaries, so rounding the bottom of the range up loses none. */
  lemma SameFromAligned(f: Frames, taken: seq<bool>, lo: nat, hi: nat)
    requires RegionsOk(f) && |taken| == f.total
    ensures forall i :: 0 <= i < |taken| ==> (Takeable(f, taken, i, AlignUp(lo), hi) <==> Takeable(f, taken, i, lo, hi))
  {
    forall i | 0 <= i < |taken| ensures Address(f, i) % PAGE == 0 {
      RegionKnown(f, i);
      AddressBounds(f.regions[RegionOf(f, i, 0)], i);
    }
  }

  lemma FirstAtIs(f: Frames)
    requires RegionsOk(f)
    ensures FirstAt(f, 0) == 0 && FirstAt(f, |f.regions|) == f.total
  {}

  lemma AllocIs(f: Frames, taken: seq<bool>, lo: nat, hi: nat, start: nat, found: Option<(nat, nat)>)
    requires forall j :: 0 <= j < |taken| ==> (Takeable(f, taken, j, start, hi) <==> Takeable(f, taken, j, lo, hi))
    requires forall j :: 0 <= j < (if found.Some? then found.value.0 else |taken|) ==> !Takeable(f, taken, j, start, hi)
    requires found.Some? ==> found.value.0 < |taken| && Takeable(f, taken, found.value.0, start, hi)
    ensures Alloc(f, taken, lo, hi) == if found.Some? then Some(found.value.0) else None
    ensures Step(f, taken, AllocCall(lo, hi)) == if found.Some? then taken[found.value.0 := true] else taken
    ensures found.Some? ==> !taken[found.value.0] && 0 < CountFree(taken)
  {
    if found.Some? {
      assert !taken[found.value.0] by {
        assert Takeable(f, taken, found.value.0, start, hi);
      }
    }
    CountPositive(taken);
    hide Takeable;
    var first := FirstFree(f, taken, lo, hi, 0);
    assert first < |taken| ==> Takeable(f, taken, first, lo, hi);
    assert found.Some? ==> first == found.value.0;
  }

  lemma FreeIs(f: Frames, taken: seq<bool>, a: nat, i: Option<nat>)
    requires RegionsOk(f) && |taken| == f.total
    requires i == if a % PAGE != 0 then None else Find(f, a, 0)
    ensures i.Some? ==> i.value < |taken|
    ensures Freeable(f, taken, a) == if i.Some? && taken[i.value] then i else None
    ensures Step(f, taken, FreeCall(a)) == if i.Some? && taken[i.value] then taken[i.value := false] else taken
  {
    if a % PAGE == 0 {
      FindFrom(f, a, 0);
    }
  }
}
