/**
 Which memory maps are accepted, when frames are left out, and which frame an allocation or a
 release is about, said of the entries of the map and the addresses of frames alone.
 */
module FrameLaws {
  import opened Machine
  import opened FrameSpec

  /** An entry of nonzero length below 2^64. */
  predicate Proper(e: MapEntry) {
    0 < e.length && e.base + e.length < 0x1_0000_0000_0000_0000
  }

  /** Entries that share a byte, one of them usable (0) or the bootloader's (5). */
  ghost predicate Conflict(a: MapEntry, b: MapEntry) {
    (exists x: nat :: InEntry(a, x) && InEntry(b, x)) && (a.kind == 0 || b.kind == 0 || a.kind == 5 || b.kind == 5)
  }

  predicate InEntry(e: MapEntry, x: nat) {
    e.base <= x < e.base + e.length
  }

  lemma ConflictIs(a: MapEntry, b: MapEntry)
    requires Proper(a) && Proper(b)
    ensures Conflict(a, b) <==> Clash(a, b)
  {
    if Clash(a, b) {
      var x := if a.base < b.base then b.base else a.base;
      assert InEntry(a, x) && InEntry(b, x);
    }
  }

  /** A page-aligned frame that lies wholly in usable entry `e`. */
  predicate FrameIn(e: MapEntry, a: nat) {
    e.kind == 0 && a % 4096 == 0 && e.base <= a && a + 4096 <= e.base + e.length
  }

  ghost predicate Plausible(memory: seq<MapEntry>) {
    && 1 <= |memory| <= 4096
    && (forall i :: 0 <= i < |memory| ==> Proper(memory[i]))
    && forall i, j :: 0 <= i < j < |memory| ==> !Conflict(memory[i], memory[j])
  }

  lemma PlausibleIs(memory: seq<MapEntry>)
    ensures Plausible(memory) <==> MapOk(memory)
  {
    if forall i :: 0 <= i < |memory| ==> Proper(memory[i]) {
      forall i, j | 0 <= i < j < |memory| ensures Conflict(memory[i], memory[j]) <==> Clash(memory[i], memory[j]) {
        ConflictIs(memory[i], memory[j]);
      }
    }
    hide Conflict, Clash;
    assert forall e: MapEntry :: Proper(e) <==> EntryOk(e);
  }

  /** Some usable entry begins in the last, incomplete page of the address space. */
  ghost predicate TooHigh(memory: seq<MapEntry>, n: nat)
    requires n <= |memory|
  {
    exists i :: 0 <= i < n && memory[i].kind == 0 && 0xffff_ffff_ffff_f000 < memory[i].base
  }

  ghost predicate SomeFrame(memory: seq<MapEntry>, n: nat)
    requires n <= |memory|
  {
    exists i, a: nat :: 0 <= i < n && FrameIn(memory[i], a)
  }

  lemma WholeIs(e: MapEntry)
    requires Proper(e) && e.kind == USABLE
    ensures 0 < WholeFrames(e) <==> exists a: nat :: FrameIn(e, a)
  {
    if 0 < WholeFrames(e) {
      WholeFramesFit(e);
      assert FrameIn(e, AlignUp(e.base));
    }
    if a: nat :| FrameIn(e, a) {
      AlignedInside(e, a);
    }
  }

  lemma {:induction false} BuildCounts(memory: seq<MapEntry>, n: nat)
    requires MapOk(memory) && n <= |memory|
    ensures Build(memory, n).None? <==> TooHigh(memory, n)
    ensures Build(memory, n).Some? ==> (0 < Build(memory, n).value.total <==> SomeFrame(memory, n))
    decreases n
  {
    if 0 < n {
      BuildCounts(memory, n - 1);
      var e := memory[n - 1];
      assert EntryOk(e);
      TooHighStep(memory, n - 1);
      SomeFrameStep(memory, n - 1);
      if e.kind == USABLE {
        WholeIs(e);
      }
      if Build(memory, n - 1).Some? {
        BuildRoom(memory, n - 1);
      }
      hide WholeFrames, FrameIn, SomeFrame, TooHigh;
    }
  }

  /** Only a table that holds frames can be full. */
  lemma BuildRoom(memory: seq<MapEntry>, n: nat)
    requires MapOk(memory) && n <= |memory| && Build(memory, n).Some?
    ensures Build(memory, n).value.total == 0 ==> |Build(memory, n).value.regions| == 0
  {
    BuildKeeps(memory, n);
    var f := Build(memory, n).value;
    if f.regions != [] {
      assert RegionOk(f.regions[|f.regions| - 1]);
    }
  }

  lemma TooHighStep(memory: seq<MapEntry>, n: nat)
    requires n < |memory|
    ensures TooHigh(memory, n + 1) <==> TooHigh(memory, n) || (memory[n].kind == 0 && 0xffff_ffff_ffff_f000 < memory[n].base)
  {}

  lemma SomeFrameStep(memory: seq<MapEntry>, n: nat)
    requires n < |memory|
    ensures SomeFrame(memory, n + 1) <==> SomeFrame(memory, n) || exists a: nat :: FrameIn(memory[n], a)
  {
    if SomeFrame(memory, n + 1) {
      var i, a: nat :| 0 <= i < n + 1 && FrameIn(memory[i], a);
      if i < n {
        assert FrameIn(memory[i], a);
      }
    }
  }

  /** pmm_init accepts exactly the plausible maps with some whole usable frame, none of it beginning too high. */
  lemma InitExactly(memory: seq<MapEntry>)
    ensures Init(memory).Some? <==> Plausible(memory) && !TooHigh(memory, |memory|) && SomeFrame(memory, |memory|)
  {
    PlausibleIs(memory);
    if MapOk(memory) {
      BuildCounts(memory, |memory|);
    }
    hide Build, MapOk, Plausible;
  }

  /** How many usable entries among the first `n` hold frames, and how many frames they hold. */
  function Wanted(memory: seq<MapEntry>, n: nat): (r: (nat, nat))
    requires n <= |memory|
  {
    if n == 0 then (0, 0)
    else
      var (entries, frames) := Wanted(memory, n - 1);
      if memory[n - 1].kind == 0 && 0 < WholeFrames(memory[n - 1])
      then (entries + 1, frames + WholeFrames(memory[n - 1])) else (entries, frames)
  }

  /** Frames are left out exactly when there are more than 64 such entries or 8388608 frames; then the map says so. */
  lemma {:induction false} CappedExactly(memory: seq<MapEntry>, n: nat)
    requires n <= |memory| && Build(memory, n).Some?
    ensures var f := Build(memory, n).value;
      && (f.capped <==> 64 < Wanted(memory, n).0 || 8388608 < Wanted(memory, n).1)
      && (!f.capped ==> |f.regions| == Wanted(memory, n).0 && f.total == Wanted(memory, n).1)
      && |f.regions| <= Wanted(memory, n).0 && f.total <= Wanted(memory, n).1
    decreases n
  {
    if 0 < n {
      CappedExactly(memory, n - 1);
      hide WholeFrames;
    }
  }

  /** An allocation takes the first free frame that starts in the range, and fails exactly without one. */
  lemma AllocExactly(f: Frames, taken: seq<bool>, lo: nat, hi: nat)
    ensures match Alloc(f, taken, lo, hi)
      case Some(k) =>
        && k < |taken| && !taken[k] && lo <= Address(f, k) < hi
        && forall i :: 0 <= i < k ==> taken[i] || Address(f, i) < lo || hi <= Address(f, i)
      case None => forall i :: 0 <= i < |taken| ==> taken[i] || Address(f, i) < lo || hi <= Address(f, i)
  {
    var k := FirstFree(f, taken, lo, hi, 0);
    forall i | 0 <= i < k ensures taken[i] || Address(f, i) < lo || hi <= Address(f, i) {
      assert !Takeable(f, taken, i, lo, hi);
    }
    assert k < |taken| ==> Takeable(f, taken, k, lo, hi);
    hide Address;
  }

  /** A release frees exactly the taken frame at that address; any other address is refused. */
  lemma FreeExactly(f: Frames, taken: seq<bool>, a: nat, i: nat)
    requires RegionsOk(f) && |taken| == f.total
    ensures Freeable(f, taken, a) == Some(i) <==> i < |taken| && taken[i] && Address(f, i) == a
  {
    hide RegionsOk, Find, Address;
    AddressAligned(f, i);
    if a % PAGE == 0 {
      FindExact(f, a, i);
    }
  }

  lemma AddressAligned(f: Frames, i: nat)
    requires RegionsOk(f)
    ensures i < f.total ==> Address(f, i) % PAGE == 0
  {
    if i < f.total {
      RegionKnown(f, i);
      AddressBounds(f.regions[RegionOf(f, i, 0)], i);
    }
  }

  /** The marks of all other frames stay through both. */
  lemma StepOthers(f: Frames, taken: seq<bool>, call: Call, i: nat)
    requires i < |taken|
    ensures Step(f, taken, call)[i] == match call
      case AllocCall(lo, hi) => taken[i] || Alloc(f, taken, lo, hi) == Some(i)
      case FreeCall(a) => taken[i] && Freeable(f, taken, a) != Some(i)
  {
  }
}
