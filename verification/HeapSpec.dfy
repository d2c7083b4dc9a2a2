/**
 The kernel heap seen as a sequence of blocks: what kmalloc and kfree do to that
 sequence, and what every run of them keeps. The linked headers that implement
 the sequence are in module KernelHeap.
 */
module HeapSpec {
  import opened Machine

  const HEADER: nat := 48
  const ALIGNMENT: nat := 16
  const PAGE: nat := 4096
  const REGION: nat := 0x0100_0000
  const MAX_PAGES: nat := REGION / PAGE
  const BASE: nat := 0xffff_ff00_0020_0000
  const NULL: nat := 0

  datatype Block = Block(size: nat, used: bool)

  /** `blocks` in address order, over `pages` mapped pages starting at BASE. */
  datatype Heap = Heap(blocks: seq<Block>, pages: nat)

  /** What a call returned (an address or NULL) and the heap it left. */
  datatype Allocation = Allocation(pointer: nat, after: Heap)
  datatype Release = Release(ok: bool, after: Heap)

  // ---------------------------------------------------------------- layout

  /** Bytes between BASE and the header of block `i` (or the end, for i == |bs|). */
  function Offset(bs: seq<Block>, i: nat): nat
    requires i <= |bs|
  {
    if i == 0 then 0 else Offset(bs, i - 1) + HEADER + bs[i - 1].size
  }

  function HeaderAddress(bs: seq<Block>, i: nat): nat
    requires i <= |bs|
  {
    BASE + Offset(bs, i)
  }

  function PayloadAddress(bs: seq<Block>, i: nat): nat
    requires i <= |bs|
  {
    BASE + Offset(bs, i) + HEADER
  }

  ghost predicate WellFormed(h: Heap) {
    Tiles(h) && Coalesced(h.blocks)
  }

  /** The blocks cover the mapped pages exactly, each payload being a legal size. */
  ghost predicate Tiles(h: Heap) {
    && h.blocks != []
    && h.pages <= MAX_PAGES
    && Offset(h.blocks, |h.blocks|) == h.pages * PAGE
    && Sized(h.blocks)
  }

  /** Every payload is a positive multiple of 16 bytes. */
  ghost predicate Sized(bs: seq<Block>) {
    forall i :: 0 <= i < |bs| ==> ALIGNMENT <= bs[i].size && bs[i].size % ALIGNMENT == 0
  }

  /** No two neighbouring blocks are both free. */
  ghost predicate Coalesced(bs: seq<Block>) {
    forall i :: 0 <= i < |bs| - 1 ==> bs[i].used || bs[i + 1].used
  }

  /** The payload of block `i` as {(address, size)} when it is used, {} when it is free. */
  ghost function Extent(bs: seq<Block>, i: nat): set<(nat, nat)>
    requires i < |bs|
  {
    if bs[i].used then {(PayloadAddress(bs, i), bs[i].size)} else {}
  }

  /** The used payloads among blocks lo..hi. */
  ghost function LiveIn(bs: seq<Block>, lo: nat, hi: nat): set<(nat, nat)>
    requires lo <= hi <= |bs|
    decreases hi
  {
    if lo == hi then {} else LiveIn(bs, lo, hi - 1) + Extent(bs, hi - 1)
  }

  ghost function Live(bs: seq<Block>): set<(nat, nat)> {
    LiveIn(bs, 0, |bs|)
  }

  // ------------------------------------------------------------ operations

  /** heap_init: two mapped pages and one free block covering them. */
  const INITIAL: Heap := Heap([Block(2 * PAGE - HEADER, false)], 2)

  predicate RequestOk(size: u64) {
    0 < size <= U64_LIMIT - 1 - (ALIGNMENT - 1) && AlignUp(size) <= REGION - HEADER
  }

  function AlignUp(size: nat): (aligned: nat)
    ensures aligned % ALIGNMENT == 0 && size <= aligned < size + ALIGNMENT
  {
    (size + (ALIGNMENT - 1)) / ALIGNMENT * ALIGNMENT
  }

  /** The first free block at or after `i` that holds `n` bytes; |bs| when there is none. */
  function FirstFit(bs: seq<Block>, n: nat, i: nat): (k: nat)
    requires i <= |bs|
    ensures i <= k <= |bs|
    ensures k < |bs| ==> !bs[k].used && n <= bs[k].size
    ensures forall j :: i <= j < k ==> bs[j].used || bs[j].size < n
    decreases |bs| - i
  {
    if i == |bs| || (!bs[i].used && n <= bs[i].size) then i else FirstFit(bs, n, i + 1)
  }

  /** Mark block `i` used, splitting off the rest when it can hold a header and 16 bytes. */
  function Take(bs: seq<Block>, i: nat, n: nat): seq<Block>
    requires i < |bs| && n <= bs[i].size
  {
    if n + HEADER + ALIGNMENT <= bs[i].size then
      bs[..i] + [Block(n, true), Block(bs[i].size - n - HEADER, false)] + bs[i + 1..]
    else
      bs[i := bs[i].(used := true)]
  }

  /** Map one more page: a free tail grows, a used one is followed by a new free block. */
  function Grow(h: Heap): (r: Heap)
    requires h.blocks != []
    ensures r.blocks != []
  {
    var last := |h.blocks| - 1;
    Heap(if h.blocks[last].used
         then h.blocks + [Block(PAGE - HEADER, false)]
         else h.blocks[last := Block(h.blocks[last].size + PAGE, false)],
         h.pages + 1)
  }

  /** `grants` is how many more pages the frame allocator and page tables will supply. */
  function Allocate(h: Heap, n: nat, grants: nat): (r: Allocation)
    requires h.blocks != []
    ensures r.after.blocks != []
    decreases grants
  {
    var i := FirstFit(h.blocks, n, 0);
    if i < |h.blocks| then
      Allocation(PayloadAddress(h.blocks, i), h.(blocks := Take(h.blocks, i, n)))
    else if h.pages < MAX_PAGES && 0 < grants then
      Allocate(Grow(h), n, grants - 1)
    else
      Allocation(NULL, h)
  }

  function Malloc(h: Heap, size: u64, grants: nat): (r: Allocation)
    requires h.blocks != []
    ensures r.after.blocks != []
  {
    if RequestOk(size) then Allocate(h, AlignUp(size), grants) else Allocation(NULL, h)
  }

  /** The block whose payload starts at `p`, searching from `i`; |bs| when there is none. */
  function FindPayload(bs: seq<Block>, p: nat, i: nat): (k: nat)
    requires i <= |bs|
    ensures i <= k <= |bs|
    ensures k < |bs| ==> PayloadAddress(bs, k) == p
    ensures forall j :: i <= j < k ==> PayloadAddress(bs, j) != p
    decreases |bs| - i
  {
    if i == |bs| || PayloadAddress(bs, i) == p then i else FindPayload(bs, p, i + 1)
  }

  /** Join block `i` and its right neighbour into one free block. */
  function MergeAt(bs: seq<Block>, i: nat): seq<Block>
    requires i + 1 < |bs|
  {
    bs[..i] + [Block(bs[i].size + HEADER + bs[i + 1].size, false)] + bs[i + 2..]
  }

  function MergeRight(bs: seq<Block>, i: nat): (r: seq<Block>)
    requires i < |bs|
    ensures i < |r|
  {
    if i + 1 < |bs| && !bs[i + 1].used then MergeAt(bs, i) else bs
  }

  function MergeLeft(bs: seq<Block>, i: nat): (r: seq<Block>)
    requires i < |bs|
    ensures r != []
  {
    if 0 < i && !bs[i - 1].used then MergeAt(bs, i - 1) else bs
  }

  /** Free block `i`, then coalesce with the right and the left neighbour. */
  function FreeAt(bs: seq<Block>, i: nat): (r: seq<Block>)
    requires i < |bs|
    ensures r != []
  {
    MergeLeft(MergeRight(bs[i := bs[i].(used := false)], i), i)
  }

  function Free(h: Heap, p: nat): (r: Release)
    requires h.blocks != []
    ensures r.after.blocks != []
  {
    var i := FindPayload(h.blocks, p, 0);
    if i < |h.blocks| && h.blocks[i].used then
      Release(true, h.(blocks := FreeAt(h.blocks, i)))
    else
      Release(false, h)
  }

  // -------------------------------------------------------- layout lemmas

  lemma {:induction false} OffsetSame(bs: seq<Block>, cs: seq<Block>, i: nat)
    requires i <= |bs| && i <= |cs| && forall j :: 0 <= j < i ==> bs[j].size == cs[j].size
    ensures Offset(bs, i) == Offset(cs, i)
  {
    if 0 < i {
      OffsetSame(bs, cs, i - 1);
    }
  }

  /** Blocks that sit after a local change keep the address they had. */
  lemma {:induction false} OffsetShift(bs: seq<Block>, k: nat, cs: seq<Block>, m: nat, d: nat)
    requires k + d <= |bs| && m + d <= |cs| && bs[k..k + d] == cs[m..m + d]
    requires Offset(bs, k) == Offset(cs, m)
    ensures Offset(bs, k + d) == Offset(cs, m + d)
  {
    if 0 < d {
      assert bs[k..k + d - 1] == bs[k..k + d][..d - 1] == cs[m..m + d][..d - 1] == cs[m..m + d - 1];
      OffsetShift(bs, k, cs, m, d - 1);
      assert bs[k + d - 1] == bs[k..k + d][d - 1] == cs[m..m + d][d - 1] == cs[m + d - 1];
    }
  }

  /** Different blocks have disjoint extents, in index order. */
  lemma {:induction false} OffsetOrder(bs: seq<Block>, i: nat, j: nat)
    requires i < j <= |bs|
    ensures Offset(bs, i) + HEADER + bs[i].size <= Offset(bs, j)
    decreases j
  {
    if i < j - 1 {
      OffsetOrder(bs, i, j - 1);
    }
  }

  lemma {:induction false} OffsetAligned(bs: seq<Block>, i: nat)
    requires i <= |bs| && Sized(bs)
    ensures Offset(bs, i) % ALIGNMENT == 0
  {
    if 0 < i {
      OffsetAligned(bs, i - 1);
    }
  }

  lemma {:induction false} LiveShift(bs: seq<Block>, k: nat, cs: seq<Block>, m: nat, d: nat)
    requires k + d <= |bs| && m + d <= |cs| && bs[k..k + d] == cs[m..m + d]
    requires Offset(bs, k) == Offset(cs, m)
    ensures LiveIn(bs, k, k + d) == LiveIn(cs, m, m + d)
  {
    if 0 < d {
      assert bs[k..k + d - 1] == bs[k..k + d][..d - 1] == cs[m..m + d][..d - 1] == cs[m..m + d - 1];
      OffsetShift(bs, k, cs, m, d - 1);
      LiveShift(bs, k, cs, m, d - 1);
      assert bs[k + d - 1] == bs[k..k + d][d - 1] == cs[m..m + d][d - 1] == cs[m + d - 1];
    }
  }

  lemma {:induction false} LiveJoin(bs: seq<Block>, lo: nat, mid: nat, hi: nat)
    requires lo <= mid <= hi <= |bs|
    ensures LiveIn(bs, lo, hi) == LiveIn(bs, lo, mid) + LiveIn(bs, mid, hi)
    decreases hi
  {
    if mid < hi {
      LiveJoin(bs, lo, mid, hi - 1);
    }
  }

  lemma {:induction false} LiveIndex(bs: seq<Block>, lo: nat, hi: nat, e: (nat, nat)) returns (i: nat)
    requires lo <= hi <= |bs| && e in LiveIn(bs, lo, hi)
    ensures lo <= i < hi && bs[i].used && e == (PayloadAddress(bs, i), bs[i].size)
    decreases hi
  {
    if e in Extent(bs, hi - 1) {
      i := hi - 1;
    } else {
      i := LiveIndex(bs, lo, hi - 1, e);
    }
  }

  /** Two lists that agree before lo and from hi (resp. hi') on, with no net change of width. */
  ghost predicate Spliced(bs: seq<Block>, lo: nat, hi: nat, cs: seq<Block>, hi': nat) {
    && lo <= hi <= |bs| && lo <= hi' <= |cs|
    && bs[..lo] == cs[..lo] && bs[hi..] == cs[hi'..]
    && Offset(bs, hi) == Offset(cs, hi')
  }

  /** Replacing the blocks in the middle by others of the same total width moves nothing else. */
  lemma Splice(bs: seq<Block>, lo: nat, hi: nat, cs: seq<Block>, hi': nat)
    requires Spliced(bs, lo, hi, cs, hi')
    ensures Offset(bs, lo) == Offset(cs, lo)
    ensures Offset(bs, |bs|) == Offset(cs, |cs|)
    ensures LiveIn(bs, 0, lo) == LiveIn(cs, 0, lo)
    ensures LiveIn(bs, hi, |bs|) == LiveIn(cs, hi', |cs|)
  {
    hide LiveIn;
    PrefixSame(bs, cs, lo);
    assert bs[0..lo] == cs[0..lo];
    LiveShift(bs, 0, cs, 0, lo);
    var d := |bs| - hi;
    assert |bs[hi..]| == |cs[hi'..]|;
    OffsetShift(bs, hi, cs, hi', d);
    LiveShift(bs, hi, cs, hi', d);
  }

  lemma PrefixSame(bs: seq<Block>, cs: seq<Block>, lo: nat)
    requires lo <= |bs| && lo <= |cs| && bs[..lo] == cs[..lo]
    ensures Offset(bs, lo) == Offset(cs, lo)
  {
    forall j | 0 <= j < lo ensures bs[j] == cs[j] {
      assert bs[j] == bs[..lo][j] == cs[..lo][j];
    }
    OffsetSame(bs, cs, lo);
  }

  lemma Next(bs: seq<Block>, i: nat)
    requires i < |bs|
    ensures Offset(bs, i + 1) == Offset(bs, i) + HEADER + bs[i].size
    ensures LiveIn(bs, i, i + 1) == Extent(bs, i)
    ensures i + 1 < |bs| && !bs[i + 1].used ==> LiveIn(bs, i, i + 2) == Extent(bs, i)
  {
    assert i + 1 < |bs| ==> LiveIn(bs, i, i + 2) == LiveIn(bs, i, i + 1) + Extent(bs, i + 1);
  }

  lemma LiveSplit(bs: seq<Block>, lo: nat, hi: nat)
    requires lo <= hi <= |bs|
    ensures Live(bs) == LiveIn(bs, 0, lo) + LiveIn(bs, lo, hi) + LiveIn(bs, hi, |bs|)
  {
    LiveJoin(bs, 0, hi, |bs|);
    LiveJoin(bs, 0, lo, hi);
  }

  /** Two payloads (address, size) that share no byte, with room for a header between them. */
  predicate Apart(p: (nat, nat), q: (nat, nat)) {
    p.0 + p.1 + HEADER <= q.0 || q.0 + q.1 + HEADER <= p.0
  }

  /** Used blocks have different payloads, so counting the ones is counting the others. */
  lemma LiveCount(bs: seq<Block>, k: nat)
    requires k < |bs|
    ensures |LiveIn(bs, 0, k + 1)| == |LiveIn(bs, 0, k)| + if bs[k].used then 1 else 0
  {
    var e := (PayloadAddress(bs, k), bs[k].size);
    if e in LiveIn(bs, 0, k) {
      var j := LiveIndex(bs, 0, k, e);
      PayloadInjective(bs, j, k);
    }
  }

  /** The payload extents of two used blocks never overlap. */
  lemma LiveDisjoint(bs: seq<Block>, p: (nat, nat), q: (nat, nat))
    requires p in Live(bs) && q in Live(bs) && p != q
    ensures Apart(p, q)
  {
    var i := LiveIndex(bs, 0, |bs|, p);
    var j := LiveIndex(bs, 0, |bs|, q);
    if i < j {
      OffsetOrder(bs, i, j);
    } else {
      assert j < i;
      OffsetOrder(bs, j, i);
    }
  }

  /** An address is the payload start of at most one block. */
  lemma PayloadInjective(bs: seq<Block>, i: nat, j: nat)
    requires i <= |bs| && j <= |bs| && PayloadAddress(bs, i) == PayloadAddress(bs, j)
    ensures i == j
  {
    if i < j {
      OffsetOrder(bs, i, j);
    } else if j < i {
      OffsetOrder(bs, j, i);
    }
  }

  // ------------------------------------------------------------ taking

  lemma TakeSplits(bs: seq<Block>, i: nat, n: nat, cs: seq<Block>)
    requires i < |bs| && n + HEADER + ALIGNMENT <= bs[i].size && cs == Take(bs, i, n)
    ensures Spliced(bs, i, i + 1, cs, i + 2)
    ensures Offset(cs, |cs|) == Offset(bs, |bs|)
    ensures Live(cs) == LiveIn(bs, 0, i) + {(PayloadAddress(bs, i), n)} + LiveIn(bs, i + 1, |bs|)
  {
    hide Offset, LiveIn;
    assert cs[i] == Block(n, true) && cs[i + 1] == Block(bs[i].size - n - HEADER, false);
    assert bs[..i] == cs[..i] && bs[i + 1..] == cs[i + 2..];
    hide Take;
    PrefixSame(bs, cs, i);
    Next(bs, i);
    Next(cs, i);
    Next(cs, i + 1);
    Splice(bs, i, i + 1, cs, i + 2);
    LiveSplit(cs, i, i + 2);
  }

  lemma TakeWhole(bs: seq<Block>, i: nat, cs: seq<Block>)
    requires i < |bs| && cs == bs[i := bs[i].(used := true)]
    ensures Spliced(bs, i, i + 1, cs, i + 1)
    ensures Offset(cs, |cs|) == Offset(bs, |bs|)
    ensures Live(cs) == LiveIn(bs, 0, i) + {(PayloadAddress(bs, i), bs[i].size)} + LiveIn(bs, i + 1, |bs|)
  {
    hide Offset, LiveIn;
    assert bs[..i] == cs[..i] && bs[i + 1..] == cs[i + 1..];
    PrefixSame(bs, cs, i);
    Next(bs, i);
    Next(cs, i);
    Splice(bs, i, i + 1, cs, i + 1);
    LiveSplit(cs, i, i + 1);
  }

  lemma TakeShape(bs: seq<Block>, i: nat, n: nat)
    requires Sized(bs) && Coalesced(bs) && i < |bs| && !bs[i].used
    requires ALIGNMENT <= n <= bs[i].size && n % ALIGNMENT == 0
    ensures Sized(Take(bs, i, n)) && Coalesced(Take(bs, i, n))
  {
    var cs := Take(bs, i, n);
    assert (bs[i].size - n - HEADER) % ALIGNMENT == 0;
    assert forall j :: 0 <= j < i ==> cs[j] == bs[j];
    if n + HEADER + ALIGNMENT <= bs[i].size {
      assert forall j :: i + 2 <= j < |cs| ==> cs[j] == bs[j - 1];
    }
  }

  lemma TakeKeeps(h: Heap, i: nat, n: nat)
    requires WellFormed(h) && i < |h.blocks| && !h.blocks[i].used
    requires ALIGNMENT <= n <= h.blocks[i].size && n % ALIGNMENT == 0
    ensures WellFormed(h.(blocks := Take(h.blocks, i, n)))
    ensures Live(Take(h.blocks, i, n))
         == Live(h.blocks) + {(PayloadAddress(h.blocks, i), Take(h.blocks, i, n)[i].size)}
  {
    hide Offset, LiveIn;
    if n + HEADER + ALIGNMENT <= h.blocks[i].size {
      TakeSplits(h.blocks, i, n, Take(h.blocks, i, n));
    } else {
      TakeWhole(h.blocks, i, Take(h.blocks, i, n));
    }
    LiveSplit(h.blocks, i, i + 1);
    Next(h.blocks, i);
    TakeShape(h.blocks, i, n);
  }

  // ------------------------------------------------------------ growing

  /** Grow, `g` times over. */
  function GrowBy(h: Heap, g: nat): (r: Heap)
    requires h.blocks != []
    ensures r.blocks != [] && r.pages == h.pages + g
    decreases g
  {
    if g == 0 then h else GrowBy(Grow(h), g - 1)
  }

  /** Usable bytes at the end of the heap; a used tail costs the next block its header. */
  function TailRoom(bs: seq<Block>): int
    requires bs != []
  {
    if bs[|bs| - 1].used then 0 - HEADER else bs[|bs| - 1].size
  }

  lemma GrowShape(h: Heap)
    requires h.blocks != [] && Sized(h.blocks) && Coalesced(h.blocks)
    ensures Sized(Grow(h).blocks) && Coalesced(Grow(h).blocks)
  {
    var last := |h.blocks| - 1;
    assert (h.blocks[last].size + PAGE) % ALIGNMENT == 0;
    assert forall i :: 0 <= i < last ==> Grow(h).blocks[i] == h.blocks[i];
  }

  lemma GrowTile(bs: seq<Block>, cs: seq<Block>, last: nat)
    requires |bs| == last + 1 && (bs[last].used ==> cs == bs + [Block(PAGE - HEADER, false)])
    requires !bs[last].used ==> cs == bs[last := Block(bs[last].size + PAGE, false)]
    ensures Offset(cs, |cs|) == Offset(bs, |bs|) + PAGE && Live(cs) == Live(bs)
  {
    PrefixSame(bs, cs, last);
    assert bs[0..last] == cs[0..last];
    LiveShift(bs, 0, cs, 0, last);
    hide Offset, LiveIn;
    LiveJoin(bs, 0, last, |bs|);
    LiveJoin(cs, 0, last, |cs|);
    Next(bs, last);
    Next(cs, last);
    if bs[last].used {
      Next(cs, last + 1);
    }
  }

  lemma GrowKeeps(h: Heap)
    requires WellFormed(h) && h.pages < MAX_PAGES
    ensures WellFormed(Grow(h))
    ensures Live(Grow(h).blocks) == Live(h.blocks)
    ensures TailRoom(Grow(h).blocks) == TailRoom(h.blocks) + PAGE
  {
    hide Offset, LiveIn, Sized, Coalesced;
    GrowTile(h.blocks, Grow(h).blocks, |h.blocks| - 1);
    GrowShape(h);
  }

  lemma {:induction false} GrowByKeeps(h: Heap, g: nat)
    requires WellFormed(h) && h.pages + g <= MAX_PAGES
    ensures WellFormed(GrowBy(h, g))
    ensures Live(GrowBy(h, g).blocks) == Live(h.blocks)
    ensures TailRoom(GrowBy(h, g).blocks) == TailRoom(h.blocks) + g * PAGE
    decreases g
  {
    if 0 < g {
      GrowKeeps(h);
      GrowByKeeps(Grow(h), g - 1);
    }
  }

  /** Growing changes nothing before the last block, and at most appends one. */
  lemma {:induction false} GrowByTail(h: Heap, g: nat)
    requires h.blocks != []
    ensures var r := GrowBy(h, g).blocks;
      && |h.blocks| <= |r| <= |h.blocks| + 1
      && r[..|h.blocks| - 1] == h.blocks[..|h.blocks| - 1]
      && (h.blocks[|h.blocks| - 1].used ==> r[|h.blocks| - 1] == h.blocks[|h.blocks| - 1])
      && (!h.blocks[|h.blocks| - 1].used ==> |r| == |h.blocks|)
    decreases g
  {
    if 0 < g {
      GrowByTail(Grow(h), g - 1);
      var bs, cs, r := h.blocks, Grow(h).blocks, GrowBy(h, g).blocks;
      assert cs[..|bs| - 1] == bs[..|bs| - 1];
      assert r[..|bs| - 1] == r[..|cs| - 1][..|bs| - 1];
    }
  }

  // ---------------------------------------------------------- allocating

  predicate Fits(bs: seq<Block>, n: nat) {
    FirstFit(bs, n, 0) < |bs|
  }

  /** How many pages must be added before `n` bytes fit. */
  function PagesNeeded(bs: seq<Block>, n: nat): nat
    requires bs != []
  {
    if Fits(bs, n) || n <= TailRoom(bs) then 0 else (n - TailRoom(bs) + PAGE - 1) / PAGE
  }

  lemma FitsIff(bs: seq<Block>, n: nat)
    ensures Fits(bs, n) <==> exists k :: 0 <= k < |bs| && !bs[k].used && n <= bs[k].size
    ensures bs != [] && 0 < n <= TailRoom(bs) ==> Fits(bs, n)
  {
    if bs != [] {
      assert FirstFit(bs, n, 0) == |bs| ==> bs[|bs| - 1].used || bs[|bs| - 1].size < n;
    }
  }

  lemma GrowFit(h: Heap, n: nat)
    requires WellFormed(h) && h.pages < MAX_PAGES && 0 < n && !Fits(h.blocks, n)
    ensures 0 < PagesNeeded(h.blocks, n) == PagesNeeded(Grow(h).blocks, n) + 1
  {
    GrowKeeps(h);
    FitsIff(h.blocks, n);
    FitsIff(Grow(h).blocks, n);
  }

  /**
   Allocation in closed form: exactly PagesNeeded pages are added and the first fit is
   taken, unless the allocator or the region runs out first, when every page obtained
   stays mapped and NULL is returned.
   */
  lemma {:induction false} AllocateExactly(h: Heap, n: nat, grants: nat)
    requires WellFormed(h) && 0 < n
    ensures var need, available := PagesNeeded(h.blocks, n), Min(grants, MAX_PAGES - h.pages);
      if need <= available then
        var g := GrowBy(h, need);
        && Fits(g.blocks, n)
        && Allocate(h, n, grants)
        == Allocation(PayloadAddress(g.blocks, FirstFit(g.blocks, n, 0)),
                      g.(blocks := Take(g.blocks, FirstFit(g.blocks, n, 0), n)))
      else
        Allocate(h, n, grants) == Allocation(NULL, GrowBy(h, available))
    decreases grants
  {
    hide Offset, LiveIn;
    if !Fits(h.blocks, n) {
      FitsIff(h.blocks, n);
      if h.pages < MAX_PAGES && 0 < grants {
        GrowKeeps(h);
        GrowFit(h, n);
        AllocateExactly(Grow(h), n, grants - 1);
      }
    }
  }

  /** The payload handed out is aligned and was nobody's. */
  lemma TakeFresh(h: Heap, i: nat)
    requires WellFormed(h) && i < |h.blocks| && !h.blocks[i].used
    ensures PayloadAddress(h.blocks, i) % ALIGNMENT == 0
    ensures forall e :: e in Live(h.blocks) ==> e.0 != PayloadAddress(h.blocks, i)
  {
    OffsetAligned(h.blocks, i);
    forall e | e in Live(h.blocks) ensures e.0 != PayloadAddress(h.blocks, i) {
      var j := LiveIndex(h.blocks, 0, |h.blocks|, e);
      if e.0 == PayloadAddress(h.blocks, i) {
        PayloadInjective(h.blocks, i, j);
      }
    }
  }

  /** What is left over is split off as soon as it can hold a header and 16 bytes. */
  lemma TakenSize(bs: seq<Block>, i: nat, n: nat)
    requires i < |bs| && n <= bs[i].size
    ensures i < |Take(bs, i, n)| && n <= Take(bs, i, n)[i].size < n + 64
  {}

  /**
   kmalloc. It returns NULL exactly for a bad request or when the missing pages are not
   to be had; otherwise the result is an aligned payload of `granted` >= `size` bytes, fewer than
   80 more, that shares none of them with a payload in use, and every such payload stays where it is.
   */
  lemma MallocMeaning(h: Heap, size: u64, grants: nat) returns (granted: nat)
    requires WellFormed(h)
    ensures WellFormed(Malloc(h, size, grants).after)
    ensures Malloc(h, size, grants).pointer != NULL <==>
            && RequestOk(size)
            && PagesNeeded(h.blocks, AlignUp(size)) <= Min(grants, MAX_PAGES - h.pages)
    ensures var r := Malloc(h, size, grants);
      if r.pointer == NULL then
        Live(r.after.blocks) == Live(h.blocks)
      else
        && r.pointer % ALIGNMENT == 0
        && (forall e :: e in Live(h.blocks) ==> Apart(e, (r.pointer, granted)))
        && size <= granted < size + 80
        && Live(r.after.blocks) == Live(h.blocks) + {(r.pointer, granted)}
  {
    hide Offset, LiveIn;
    granted := 0;
    if RequestOk(size) {
      var n := AlignUp(size);
      var need, available := PagesNeeded(h.blocks, n), Min(grants, MAX_PAGES - h.pages);
      AllocateExactly(h, n, grants);
      if need <= available {
        var g := GrowBy(h, need);
        var i := FirstFit(g.blocks, n, 0);
        GrowByKeeps(h, need);
        TakeKeeps(g, i, n);
        TakeFresh(g, i);
        TakenSize(g.blocks, i, n);
        granted := Take(g.blocks, i, n)[i].size;
        var own := (PayloadAddress(g.blocks, i), granted);
        forall e | e in Live(h.blocks) ensures Apart(e, own) {
          LiveDisjoint(Take(g.blocks, i, n), e, own);
        }
      } else {
        GrowByKeeps(h, available);
      }
    }
  }

  /** A free block of at least `n` bytes. */
  ghost predicate HasFree(bs: seq<Block>, n: nat) {
    exists k :: 0 <= k < |bs| && !bs[k].used && n <= bs[k].size
  }

  /** The size asked for is one the region could ever hold. */
  predicate Servable(size: nat) {
    0 < size <= 16 * 1024 * 1024 - 48
  }

  lemma RequestIs(size: u64)
    ensures RequestOk(size) <==> Servable(size)
    ensures RequestOk(size) ==> ALIGNMENT <= AlignUp(size) && AlignUp(size) % ALIGNMENT == 0
  {}

  /**
   Which requests are served: those of a possible size for which, after adding pages that can be
   had, there is a free block of the size rounded up to 16 bytes.
   */
  lemma MallocServes(h: Heap, size: u64, grants: nat)
    requires WellFormed(h)
    ensures Malloc(h, size, grants).pointer != NULL
       <==> && Servable(size)
            && exists g: nat :: g <= grants && h.pages + g <= 4096 && HasFree(GrowBy(h, g).blocks, (size + 15) / 16 * 16)
  {
    RequestIs(size);
    var n := AlignUp(size);
    assert n == (size + 15) / 16 * 16;
    var most := Min(grants, MAX_PAGES - h.pages);
    if Servable(size) {
      AllocateExactly(h, n, grants);
      var need := PagesNeeded(h.blocks, n);
      FitsIff(GrowBy(h, need).blocks, n);
      forall g: nat | g <= grants && h.pages + g <= 4096 && HasFree(GrowBy(h, g).blocks, n) ensures need <= most {
        FitsIff(GrowBy(h, g).blocks, n);
        NeedLeast(h, n, g);
      }
    }
    hide Allocate, GrowBy, PagesNeeded, FirstFit, WellFormed, Take;
  }

  /** Fewer pages than needed do not do. */
  lemma {:induction false} NeedLeast(h: Heap, n: nat, g: nat)
    requires WellFormed(h) && 0 < n && h.pages + g <= MAX_PAGES && Fits(GrowBy(h, g).blocks, n)
    ensures PagesNeeded(h.blocks, n) <= g
    decreases g
  {
    if 0 < g && !Fits(h.blocks, n) {
      GrowKeeps(h);
      GrowFit(h, n);
      NeedLeast(Grow(h), n, g - 1);
    }
  }

  /** A fresh heap serves every possible size when the pages are to be had. */
  lemma FreshHeapServes(size: u64, grants: nat)
    requires MAX_PAGES <= grants
    ensures Malloc(INITIAL, size, grants).pointer != NULL <==> Servable(size)
  {
    InitialWellFormed();
    RequestIs(size);
    var granted := MallocMeaning(INITIAL, size, grants);
    hide Malloc, WellFormed, RequestOk, AlignUp;
  }

  // -------------------------------------------------------------- freeing

  lemma MergeAtKeeps(bs: seq<Block>, i: nat, cs: seq<Block>)
    requires i + 1 < |bs| && !bs[i].used && !bs[i + 1].used && cs == MergeAt(bs, i)
    ensures Spliced(bs, i, i + 2, cs, i + 1)
    ensures Offset(cs, |cs|) == Offset(bs, |bs|) && Live(cs) == Live(bs)
  {
    hide Offset, LiveIn;
    assert bs[..i] == cs[..i] && bs[i + 2..] == cs[i + 1..];
    PrefixSame(bs, cs, i);
    Next(bs, i);
    Next(bs, i + 1);
    Next(cs, i);
    Splice(bs, i, i + 2, cs, i + 1);
    LiveSplit(bs, i, i + 2);
    LiveSplit(cs, i, i + 1);
  }

  lemma UnmarkKeeps(bs: seq<Block>, i: nat, cs: seq<Block>)
    requires i < |bs| && bs[i].used && cs == bs[i := bs[i].(used := false)]
    ensures Offset(cs, |cs|) == Offset(bs, |bs|)
    ensures Live(cs) == Live(bs) - {(PayloadAddress(bs, i), bs[i].size)}
  {
    assert bs == cs[i := cs[i].(used := true)];
    TakeWhole(cs, i, bs);
    PrefixSame(bs, cs, i);
    hide Offset, LiveIn;
    LiveSplit(cs, i, i + 1);
    Next(cs, i);
    var gone := (PayloadAddress(bs, i), bs[i].size);
    if gone in Live(cs) {
      var j := LiveIndex(cs, 0, |cs|, gone);
      PayloadInjective(cs, i, j);
    }
  }

  lemma MergeAtSized(bs: seq<Block>, i: nat)
    requires Sized(bs) && i + 1 < |bs|
    ensures Sized(MergeAt(bs, i)) && MergeAt(bs, i) != []
  {
    assert (bs[i].size + HEADER + bs[i + 1].size) % ALIGNMENT == 0;
  }

  /** Coalescing both ways leaves no two free neighbours around the freed block. */
  lemma FreeAtCoalesced(bs: seq<Block>, i: nat)
    requires Coalesced(bs) && i < |bs| && bs[i].used
    ensures Coalesced(FreeAt(bs, i))
  {
    var unmarked := bs[i := bs[i].(used := false)];
    var right := MergeRight(unmarked, i);
    assert i + 1 < |right| ==> right[i + 1].used;
    assert forall j :: 0 <= j < |right| - 1 && j != i - 1 ==> right[j].used || right[j + 1].used;
  }

  lemma FreeAtKeeps(h: Heap, i: nat)
    requires WellFormed(h) && i < |h.blocks| && h.blocks[i].used
    ensures WellFormed(h.(blocks := FreeAt(h.blocks, i)))
    ensures Live(FreeAt(h.blocks, i)) == Live(h.blocks) - {(PayloadAddress(h.blocks, i), h.blocks[i].size)}
  {
    hide Offset, LiveIn;
    var unmarked := h.blocks[i := h.blocks[i].(used := false)];
    UnmarkKeeps(h.blocks, i, unmarked);
    if i + 1 < |unmarked| && !unmarked[i + 1].used {
      MergeAtKeeps(unmarked, i, MergeAt(unmarked, i));
      MergeAtSized(unmarked, i);
    }
    var right := MergeRight(unmarked, i);
    if 0 < i && !right[i - 1].used {
      MergeAtKeeps(right, i - 1, MergeAt(right, i - 1));
      MergeAtSized(right, i - 1);
    }
    FreeAtCoalesced(h.blocks, i);
  }

  /** kfree succeeds exactly on the payload of a used block, and otherwise changes nothing. */
  lemma FreeMeaning(h: Heap, p: nat)
    requires WellFormed(h)
    ensures var r := Free(h, p);
      && WellFormed(r.after)
      && (r.ok <==> exists s :: (p, s) in Live(h.blocks))
      && (!r.ok ==> r.after == h)
      && (forall e :: e in Live(r.after.blocks) <==> e in Live(h.blocks) && (r.ok ==> e.0 != p))
  {
    var bs := h.blocks;
    var i := FindPayload(bs, p, 0);
    forall e | e in Live(bs) && e.0 == p ensures i < |bs| && bs[i].used && e == (p, bs[i].size) {
      var j := LiveIndex(bs, 0, |bs|, e);
      PayloadInjective(bs, i, j);
    }
    if i < |bs| && bs[i].used {
      LiveSplit(bs, i, i + 1);
      assert (p, bs[i].size) in LiveIn(bs, i, i + 1);
      FreeAtKeeps(h, i);
    }
  }

  /** A second kfree of the same pointer is refused, even after its block was merged away. */
  lemma DoubleFree(h: Heap, p: nat)
    requires WellFormed(h) && Free(h, p).ok
    ensures Free(Free(h, p).after, p) == Release(false, Free(h, p).after)
  {
    FreeMeaning(h, p);
    FreeMeaning(Free(h, p).after, p);
  }

  /** Freeing what was just taken gives back the block list as it was. */
  lemma FreeUndoesTake(bs: seq<Block>, i: nat, n: nat)
    requires i < |bs| && Coalesced(bs) && !bs[i].used && n <= bs[i].size
    ensures FreeAt(Take(bs, i, n), i) == bs
  {
    var cs := Take(bs, i, n);
    var unmarked := cs[i := cs[i].(used := false)];
    if n + HEADER + ALIGNMENT <= bs[i].size {
      assert bs == bs[..i] + [bs[i]] + bs[i + 1..];
      assert MergeAt(unmarked, i) == bs;
    } else {
      assert unmarked == bs;
    }
    assert MergeRight(unmarked, i) == bs;
  }

  lemma FreeAfterTake(h: Heap, i: nat, n: nat)
    requires WellFormed(h) && i < |h.blocks| && !h.blocks[i].used && n <= h.blocks[i].size
    ensures Free(h.(blocks := Take(h.blocks, i, n)), PayloadAddress(h.blocks, i)) == Release(true, h)
  {
    var cs := Take(h.blocks, i, n);
    OffsetSame(h.blocks, cs, i);
    var k := FindPayload(cs, PayloadAddress(cs, i), 0);
    assert k <= i;
    PayloadInjective(cs, k, i);
    FreeUndoesTake(h.blocks, i, n);
  }

  /**
   kfree after kmalloc restores the heap; the only trace left is the pages that had to be
   added, all of them free bytes at the end of the heap.
   */
  lemma MallocFreeRoundTrip(h: Heap, size: u64, grants: nat)
    requires WellFormed(h) && Malloc(h, size, grants).pointer != NULL
    ensures h.pages <= Malloc(h, size, grants).after.pages
    ensures Malloc(h, size, grants).after.pages == h.pages <==> Fits(h.blocks, AlignUp(size))
    ensures var r := Malloc(h, size, grants);
      Free(r.after, r.pointer) == Release(true, GrowBy(h, r.after.pages - h.pages))
  {
    hide Offset, LiveIn;
    var n := AlignUp(size);
    AllocateExactly(h, n, grants);
    FitsIff(h.blocks, n);
    var need := PagesNeeded(h.blocks, n);
    GrowByKeeps(h, need);
    var g := GrowBy(h, need);
    FreeAfterTake(g, FirstFit(g.blocks, n, 0), n);
  }

  // ----------------------------------------------------------------- runs

  datatype Call = MallocCall(size: u64, grants: nat) | FreeCall(pointer: nat)

  function Step(h: Heap, call: Call): (r: Heap)
    requires h.blocks != []
    ensures r.blocks != []
  {
    match call
    case MallocCall(size, grants) => Malloc(h, size, grants).after
    case FreeCall(p) => Free(h, p).after
  }

  function Run(h: Heap, calls: seq<Call>): (r: Heap)
    requires h.blocks != []
    ensures r.blocks != []
    decreases |calls|
  {
    if calls == [] then h else Run(Step(h, calls[0]), calls[1..])
  }

  /** The payload bytes of the used (or free) blocks among the first `i`. */
  function BytesIn(bs: seq<Block>, i: nat, used: bool): nat
    requires i <= |bs|
  {
    if i == 0 then 0
    else BytesIn(bs, i - 1, used) + if bs[i - 1].used == used then bs[i - 1].size else 0
  }

  function Bytes(bs: seq<Block>, used: bool): nat {
    BytesIn(bs, |bs|, used)
  }

  lemma {:induction false} BytesTile(bs: seq<Block>, i: nat)
    requires i <= |bs|
    ensures BytesIn(bs, i, true) + BytesIn(bs, i, false) + HEADER * i == Offset(bs, i)
  {
    if 0 < i {
      BytesTile(bs, i - 1);
    }
  }

  /**
   After heap_init and any sequence of kmalloc and kfree calls, whatever their arguments and
   however the frame allocator answers, the blocks tile the mapped pages, no two free blocks
   touch, and every mapped byte is used, free or in a header.
   */
  lemma {:induction false} RunKeeps(h: Heap, calls: seq<Call>)
    requires WellFormed(h)
    ensures WellFormed(Run(h, calls))
    ensures var bs := Run(h, calls).blocks;
      Bytes(bs, true) + Bytes(bs, false) + HEADER * |bs| == Run(h, calls).pages * PAGE
    decreases |calls|
  {
    if calls == [] {
      BytesTile(h.blocks, |h.blocks|);
    } else {
      match calls[0] {
        case MallocCall(size, grants) => var _ := MallocMeaning(h, size, grants);
        case FreeCall(p) => FreeMeaning(h, p);
      }
      RunKeeps(Step(h, calls[0]), calls[1..]);
    }
  }

  /** A payload in use stays in use, and its own size, over every run that does not free it. */
  lemma {:induction false} LiveUntilFreed(h: Heap, calls: seq<Call>, p: (nat, nat))
    requires WellFormed(h) && p in Live(h.blocks) && FreeCall(p.0) !in calls
    ensures p in Live(Run(h, calls).blocks)
    decreases |calls|
  {
    if calls != [] {
      assert calls[0] in calls;
      match calls[0] {
        case MallocCall(size, grants) => var _ := MallocMeaning(h, size, grants);
        case FreeCall(q) => FreeMeaning(h, q);
      }
      LiveUntilFreed(Step(h, calls[0]), calls[1..], p);
    }
  }

  /** Nothing handed out during such a run, however late, shares a byte with that payload. */
  lemma HandedOutApart(h: Heap, calls: seq<Call>, p: (nat, nat), i: nat)
    requires WellFormed(h) && p in Live(h.blocks) && FreeCall(p.0) !in calls
    requires i < |calls| && calls[i].MallocCall?
    ensures var r := Malloc(Run(h, calls[..i]), calls[i].size, calls[i].grants);
      r.pointer != NULL ==>
        exists granted: nat :: calls[i].size <= granted && (r.pointer, granted) in Live(r.after.blocks)
                               && Apart(p, (r.pointer, granted))
  {
    LiveUntilFreed(h, calls[..i], p);
    RunKeeps(h, calls[..i]);
    var granted := MallocMeaning(Run(h, calls[..i]), calls[i].size, calls[i].grants);
    var r := Malloc(Run(h, calls[..i]), calls[i].size, calls[i].grants);
    assert r.pointer != NULL ==> (r.pointer, granted) in Live(r.after.blocks);
  }

  lemma InitialWellFormed()
    ensures WellFormed(INITIAL) && Live(INITIAL.blocks) == {}
  {
    assert Offset(INITIAL.blocks, 1) == HEADER + INITIAL.blocks[0].size;
    assert LiveIn(INITIAL.blocks, 0, 1) == LiveIn(INITIAL.blocks, 0, 0) + Extent(INITIAL.blocks, 0);
  }
}
