/**
 The kernel heap as the kernel runs it: block headers at addresses, linked both ways and
 guarded, with the self-checks in every path. Every method is tied to HeapSpec.
 */
module KernelHeap {
  import opened Machine
  import opened HeapSpec

  const MAGIC: nat := 0x424f_5249_4e47_4850
  const STATE_FREE: nat := 0x4652_4545_424c_4f43
  const STATE_USED: nat := 0x5553_4544_424c_4f43
  const GUARD_SEED: bv64 := 0x9e37_79b9_7f4a_7c15

  datatype Header = Header(magic: nat, size: nat, prev: nat, next: nat, state: nat, guard: bv64)

  /** What a mapped but never written header reads as. */
  const ZERO_HEADER: Header := Header(0, 0, 0, 0, 0, 0)

  /** The conversion to uint64_t. */
  function Word(x: nat): bv64 {
    (x % U64_LIMIT) as bv64
  }

  function GuardFor(address: nat, size: nat, prev: nat, next: nat, state: nat): bv64 {
    GUARD_SEED ^ Word(address) ^ Word(size) ^ Word(prev) ^ Word(next) ^ Word(state)
  }

  /** A header after heap_refresh_block. */
  function Refreshed(address: nat, h: Header): Header {
    h.(magic := MAGIC, guard := GuardFor(address, h.size, h.prev, h.next, h.state))
  }

  // ------------------------------------------------ headers of a block list

  function StateWord(b: Block): nat {
    if b.used then STATE_USED else STATE_FREE
  }

  /** The header block `i` must have when the link after the last block is `end`. */
  function HeaderOf(bs: seq<Block>, i: nat, end: nat): Header
    requires i < |bs|
  {
    Refreshed(HeaderAddress(bs, i),
              Header(MAGIC, bs[i].size,
                     if i == 0 then NULL else HeaderAddress(bs, i - 1),
                     if i + 1 < |bs| then HeaderAddress(bs, i + 1) else end,
                     StateWord(bs[i]), 0))
  }

  type Memory = map<nat, Header>

  ghost predicate HeaderAt(mem: Memory, bs: seq<Block>, i: nat, end: nat)
    requires i < |bs|
  {
    HeaderAddress(bs, i) in mem && mem[HeaderAddress(bs, i)] == HeaderOf(bs, i, end)
  }

  ghost predicate Represents(mem: Memory, bs: seq<Block>, end: nat) {
    forall i :: 0 <= i < |bs| ==> HeaderAt(mem, bs, i, end)
  }

  lemma HeaderInjective(bs: seq<Block>, i: nat, j: nat)
    requires i < j <= |bs|
    ensures HeaderAddress(bs, i) + HEADER + bs[i].size <= HeaderAddress(bs, j)
  {
    OffsetOrder(bs, i, j);
  }

  /** The header of a block depends only on the block and the three addresses around it. */
  lemma HeaderSame(bs: seq<Block>, i: nat, cs: seq<Block>, j: nat)
    requires i < |bs| && j < |cs| && bs[i] == cs[j] && (i == 0 <==> j == 0) && (i + 1 == |bs| <==> j + 1 == |cs|)
    requires Offset(bs, i) == Offset(cs, j)
    requires 0 < i ==> Offset(bs, i - 1) == Offset(cs, j - 1)
    ensures HeaderOf(bs, i, NULL) == HeaderOf(cs, j, NULL)
  {
    hide GuardFor;
    assert Offset(bs, i + 1) == Offset(cs, j + 1);
  }

  lemma SuffixSame(bs: seq<Block>, hi: nat, cs: seq<Block>, hi': nat, d: nat)
    requires hi + d < |bs| && hi' <= |cs| && bs[hi..] == cs[hi'..] && Offset(bs, hi) == Offset(cs, hi')
    ensures hi' + d < |cs| && bs[hi + d] == cs[hi' + d] && Offset(bs, hi + d) == Offset(cs, hi' + d)
    ensures hi + d + 1 == |bs| <==> hi' + d + 1 == |cs|
  {
    assert |bs[hi..]| == |cs[hi'..]|;
    assert bs[hi..hi + d] == bs[hi..][..d] == cs[hi'..][..d] == cs[hi'..hi' + d];
    OffsetShift(bs, hi, cs, hi', d);
    assert bs[hi + d] == bs[hi..][d] == cs[hi'..][d] == cs[hi' + d];
  }

  /** The header of block `j` was not written between `mem` and `after`. */
  ghost predicate Untouched(mem: Memory, after: Memory, bs: seq<Block>, j: nat)
    requires j < |bs|
  {
    var a := HeaderAddress(bs, j);
    a in mem && a in after && after[a] == mem[a]
  }

  lemma {:induction false} PrefixHeader(bs: seq<Block>, cs: seq<Block>, lo: nat, j: nat)
    requires j < lo < |bs| && lo < |cs| && bs[..lo] == cs[..lo]
    ensures HeaderAddress(bs, j) == HeaderAddress(cs, j) && HeaderOf(bs, j, NULL) == HeaderOf(cs, j, NULL)
  {
    hide GuardFor, HeaderOf;
    assert bs[j] == bs[..lo][j] == cs[..lo][j];
    assert bs[..j] == bs[..lo][..j] == cs[..lo][..j] == cs[..j];
    PrefixSame(bs, cs, j);
    if 0 < j {
      assert bs[..j - 1] == bs[..lo][..j - 1] == cs[..lo][..j - 1] == cs[..j - 1];
      PrefixSame(bs, cs, j - 1);
    }
    HeaderSame(bs, j, cs, j);
  }

  lemma RepresentsPrefix(mem: Memory, bs: seq<Block>, lo: nat, after: Memory, cs: seq<Block>)
    requires Represents(mem, bs, NULL) && lo < |bs| && lo < |cs| && bs[..lo] == cs[..lo]
    requires forall j :: 0 <= j < lo ==> Untouched(mem, after, bs, j)
    ensures forall j :: 0 <= j < lo ==> HeaderAt(after, cs, j, NULL)
  {
    hide GuardFor, HeaderOf, Offset;
    forall j | 0 <= j < lo ensures HeaderAt(after, cs, j, NULL) {
      PrefixHeader(bs, cs, lo, j);
      assert HeaderAt(mem, bs, j, NULL);
      assert Untouched(mem, after, bs, j);
    }
  }

  /**
   After replacing the blocks lo..hi, the new list is represented as soon as its changed
   headers and the one right after them are, provided no other header was written.
   */
  lemma RepresentsSplice(mem: Memory, bs: seq<Block>, lo: nat, hi: nat, after: Memory, cs: seq<Block>, hi': nat)
    requires Represents(mem, bs, NULL) && Spliced(bs, lo, hi, cs, hi') && lo < hi && lo < hi'
    requires forall j :: lo <= j < |cs| && j <= hi' ==> HeaderAt(after, cs, j, NULL)
    requires forall j :: 0 <= j < |bs| && (j < lo || hi < j) ==> Untouched(mem, after, bs, j)
    ensures Represents(after, cs, NULL)
  {
    hide GuardFor, HeaderOf, Offset;
    RepresentsPrefix(mem, bs, lo, after, cs);
    forall j | hi' < j < |cs| ensures HeaderAt(after, cs, j, NULL) {
      assert |bs[hi..]| == |cs[hi'..]|;
      var i := hi + (j - hi');
      SuffixSame(bs, hi, cs, hi', j - hi');
      SuffixSame(bs, hi, cs, hi', j - 1 - hi');
      HeaderSame(bs, i, cs, j);
      assert HeaderAt(mem, bs, i, NULL);
      assert Untouched(mem, after, bs, i);
    }
  }

  /** Headers lie in index order, each past the whole block before it. */
  lemma HeadersOrdered(bs: seq<Block>, i: nat)
    requires i < |bs|
    ensures forall j :: 0 <= j < i ==> HeaderAddress(bs, j) + HEADER + bs[j].size <= HeaderAddress(bs, i)
    ensures forall j :: i < j <= |bs| ==> HeaderAddress(bs, i) + HEADER + bs[i].size <= HeaderAddress(bs, j)
  {
    forall j | 0 <= j < i ensures HeaderAddress(bs, j) + HEADER + bs[j].size <= HeaderAddress(bs, i) {
      OffsetOrder(bs, j, i);
    }
    forall j | i < j <= |bs| ensures HeaderAddress(bs, i) + HEADER + bs[i].size <= HeaderAddress(bs, j) {
      OffsetOrder(bs, i, j);
    }
  }

  /** Walking one block further: its header joins the represented prefix. */
  lemma RepresentsExtend(mem: Memory, bs: seq<Block>, cs: seq<Block>, next: nat)
    requires Represents(mem, bs, HeaderAddress(bs, |bs|))
    requires |cs| == |bs| + 1 && cs[..|bs|] == bs && HeaderAt(mem, cs, |bs|, next)
    ensures Represents(mem, cs, next)
  {
    hide GuardFor;
    forall j | 0 <= j < |bs| ensures HeaderAt(mem, cs, j, next) {
      assert HeaderAt(mem, bs, j, HeaderAddress(bs, |bs|));
      assert cs[j] == cs[..|bs|][j];
      OffsetSame(bs, cs, j + 1);
      OffsetSame(bs, cs, j);
      if 0 < j {
        OffsetSame(bs, cs, j - 1);
      }
    }
  }

  lemma InitialRepresented(mem: Memory)
    requires BASE in mem
    requires mem[BASE] == Refreshed(BASE, Header(MAGIC, 2 * PAGE - HEADER, NULL, NULL, STATE_FREE, 0))
    ensures Represents(mem, INITIAL.blocks, NULL)
  {
    hide GuardFor;
    assert HeaderAt(mem, INITIAL.blocks, 0, NULL);
  }

  lemma CountEnds(bs: seq<Block>)
    ensures BytesIn(bs, 0, true) == 0 == BytesIn(bs, 0, false) && LiveIn(bs, 0, 0) == {}
    ensures Bytes(bs, true) == BytesIn(bs, |bs|, true) && Bytes(bs, false) == BytesIn(bs, |bs|, false)
    ensures Live(bs) == LiveIn(bs, 0, |bs|)
  {}

  lemma NextAddress(bs: seq<Block>, k: nat)
    requires k < |bs|
    ensures NULL < HeaderAddress(bs, k + 1)
  {}

  /** One block more, used or free. */
  lemma CountStep(bs: seq<Block>, k: nat)
    requires k < |bs|
    ensures BytesIn(bs, k + 1, true) == BytesIn(bs, k, true) + if bs[k].used then bs[k].size else 0
    ensures BytesIn(bs, k + 1, false) == BytesIn(bs, k, false) + if bs[k].used then 0 else bs[k].size
    ensures |LiveIn(bs, 0, k + 1)| == |LiveIn(bs, 0, k)| + if bs[k].used then 1 else 0
    ensures StateWord(bs[k]) == STATE_USED <==> bs[k].used
  {
    LiveCount(bs, k);
    hide LiveIn;
  }

  // ------------------------------------------------------------ the first pages

  /** `frames`, at most two, were taken from `pool` and mapped in order at the first pages of the heap. */
  ghost predicate Mapped(frames: seq<nat>, pool: set<nat>, table: map<nat, nat>, left: set<nat>, mapped: map<nat, nat>) {
    && |frames| <= 2
    && (frames == [] ==> left == pool && mapped == table)
    && (0 < |frames| ==> frames[0] in pool && BASE !in table)
    && (|frames| == 1 ==> left == pool - {frames[0]} && mapped == table[BASE := frames[0]])
    && (|frames| == 2 ==>
          && frames[1] in pool && BASE + PAGE !in table && frames[0] != frames[1]
          && left == pool - {frames[0], frames[1]}
          && mapped == table[BASE := frames[0]][BASE + PAGE := frames[1]])
  }

  lemma MapNext(frames: seq<nat>, pool: set<nat>, table: map<nat, nat>, left: set<nat>, mapped: map<nat, nat>, frame: nat)
    requires Mapped(frames, pool, table, left, mapped) && |frames| < 2
    requires frame in left && BASE + |frames| * PAGE !in mapped
    ensures Mapped(frames + [frame], pool, table, left - {frame}, mapped[BASE + |frames| * PAGE := frame])
  {
    assert |frames| == 1 ==> left - {frame} == pool - {frames[0], frame};
  }

  lemma UnmapLast(frames: seq<nat>, pool: set<nat>, table: map<nat, nat>, left: set<nat>, mapped: map<nat, nat>)
    requires Mapped(frames, pool, table, left, mapped) && frames != []
    ensures var n := |frames| - 1;
      Mapped(frames[..n], pool, table, left + {frames[n]}, mapped - {BASE + n * PAGE})
  {
    if |frames| == 1 {
      assert left + {frames[0]} == pool && mapped - {BASE} == table;
    } else {
      assert left + {frames[1]} == pool - {frames[0]};
      assert mapped - {BASE + PAGE} == table[BASE := frames[0]];
    }
  }

  /** heap_rollback_initial_pages. */
  method Rollback(frames: seq<nat>, ghost pool: set<nat>, ghost table: map<nat, nat>, left: set<nat>, mapped: map<nat, nat>)
    returns (free: set<nat>, entries: map<nat, nat>)
    requires Mapped(frames, pool, table, left, mapped)
    ensures free == pool && entries == table
  {
    free, entries := left, mapped;
    var count := |frames|;
    assert frames[..count] == frames;
    while count != 0
      invariant count <= |frames| && Mapped(frames[..count], pool, table, free, entries)
    {
      UnmapLast(frames[..count], pool, table, free, entries);
      count := count - 1;
      assert frames[..count + 1][..count] == frames[..count];
      entries := entries - {BASE + count * PAGE};
      free := free + {frames[count]};
    }
  }

  /** Where the next page cannot be taken, some cause of failure holds. */
  lemma NoNext(frames: seq<nat>, pool: set<nat>, table: map<nat, nat>, left: set<nat>, mapped: map<nat, nat>)
    requires Mapped(frames, pool, table, left, mapped) && |frames| < 2
    requires BASE + |frames| * PAGE in mapped || left == {}
    ensures BASE in table || BASE + PAGE in table || |pool| < 2
  {
    if left == {} && frames != [] {
      assert pool <= {frames[0]};
      Smaller(pool, {frames[0]});
    }
  }

  lemma {:induction false} Smaller(a: set<nat>, b: set<nat>)
    requires a <= b
    ensures |a| <= |b|
  {
    if a != {} {
      var x :| x in a;
      Smaller(a - {x}, b - {x});
    }
  }

  lemma BothMapped(frames: seq<nat>, pool: set<nat>, table: map<nat, nat>, left: set<nat>, mapped: map<nat, nat>)
    requires Mapped(frames, pool, table, left, mapped) && |frames| == 2
    ensures BASE !in table && BASE + PAGE !in table && 2 <= |pool|
    ensures exists f, g ::
      f in pool && g in pool && f != g && left == pool - {f, g} && mapped == table[BASE := f][BASE + PAGE := g]
  {
    Smaller({frames[0], frames[1]}, pool);
  }

  // ---------------------------------------------------------------- the heap

  class KernelHeap {
    var mem: Memory
    var first: nat
    var mappedPages: nat
    var initialized: bool
    var corrupted: bool
    ghost var blocks: seq<Block>

    /** The headers in memory are those of `bs`, which covers the mapped pages. */
    ghost predicate IsTiling(bs: seq<Block>)
      reads this
    {
      first == BASE && Tiles(Heap(bs, mappedPages)) && Represents(mem, bs, NULL)
    }

    ghost predicate IsList(bs: seq<Block>)
      reads this
    {
      IsTiling(bs) && Coalesced(bs)
    }

    ghost predicate Valid()
      reads this
    {
      !corrupted && (initialized ==> IsList(blocks))
    }

    ghost function State(): Heap
      reads this
    {
      Heap(blocks, mappedPages)
    }

    function MappedEnd(): nat
      reads this
    {
      BASE + mappedPages * PAGE
    }

    function Read(a: nat): Header
      reads this
    {
      if a in mem then mem[a] else ZERO_HEADER
    }

    predicate BlockValid(a: nat)
      reads this
    {
      var h := Read(a);
      && a != NULL && mappedPages <= MAX_PAGES
      && BASE <= a <= MappedEnd() - HEADER && a % ALIGNMENT == 0
      && h.magic == MAGIC && (h.state == STATE_FREE || h.state == STATE_USED)
      && ALIGNMENT <= h.size && h.size % ALIGNMENT == 0
      && h.guard == GuardFor(a, h.size, h.prev, h.next, h.state)
      && h.size <= MappedEnd() - (a + HEADER)
    }

    lemma ReadExpected(w: seq<Block>, k: nat)
      requires IsTiling(w) && k < |w|
      ensures var a := HeaderAddress(w, k);
        && Read(a) == HeaderOf(w, k, NULL)
        && Block(Read(a).size, Read(a).state == STATE_USED) == w[k]
        && Read(a).next == (if k + 1 < |w| then HeaderAddress(w, k + 1) else NULL)
        && Read(a).prev == (if k == 0 then NULL else HeaderAddress(w, k - 1))
        && BlockValid(a)
        && a + HEADER + w[k].size == HeaderAddress(w, k + 1) <= MappedEnd()
        && (k + 1 == |w| <==> HeaderAddress(w, k + 1) == MappedEnd())
    {
      hide GuardFor;
      assert HeaderAt(mem, w, k, NULL);
      OffsetAligned(w, k);
      if k + 1 < |w| {
        HeaderInjective(w, k + 1, |w|);
      }
    }

    /** What the list says about the header of block `k`. */
    lemma Visit(w: seq<Block>, k: nat)
      requires IsTiling(w) && k < |w|
      ensures var h := Read(HeaderAddress(w, k));
        && h.size == w[k].size && h.state == StateWord(w[k])
        && h.next == (if k + 1 < |w| then HeaderAddress(w, k + 1) else NULL)
        && h.prev == (if k == 0 then NULL else HeaderAddress(w, k - 1))
    {
      hide GuardFor, Offset;
      assert HeaderAt(mem, w, k, NULL);
    }

    /** The checks heap_validate makes at one block. */
    predicate Accepts(current: nat, previous: nat)
      reads this
    {
      var h := Read(current);
      && BlockValid(current) && h.prev == previous
      && (previous != NULL ==>
            && Read(previous).next == current
            && !(Read(previous).state == STATE_FREE && h.state == STATE_FREE))
      && (if h.next != NULL then h.next == current + HEADER + h.size
          else current + HEADER + h.size == MappedEnd())
    }

    lemma AcceptsList(w: seq<Block>, k: nat)
      requires IsList(w) && k < |w|
      ensures Accepts(HeaderAddress(w, k), if k == 0 then NULL else HeaderAddress(w, k - 1))
    {
      hide GuardFor, Offset;
      ReadExpected(w, k);
      if 0 < k {
        ReadExpected(w, k - 1);
        assert w[k - 1].used || w[k].used;
      }
    }

    /** The part of the list walked so far, with `current` the block to look at next. */
    ghost predicate Walked(bs: seq<Block>, current: nat, previous: nat)
      reads this
    {
      && (if current != NULL then current == HeaderAddress(bs, |bs|) <= MappedEnd()
          else bs != [] && Offset(bs, |bs|) == mappedPages * PAGE)
      && previous == (if bs == [] then NULL else HeaderAddress(bs, |bs| - 1))
      && Sized(bs) && Coalesced(bs) && Represents(mem, bs, current)
    }

    lemma WalkOn(bs: seq<Block>, current: nat, previous: nat) returns (cs: seq<Block>)
      requires first == BASE && mappedPages <= MAX_PAGES && current != NULL
      requires Walked(bs, current, previous) && Accepts(current, previous)
      ensures |cs| == |bs| + 1 && cs[..|bs|] == bs
      ensures cs[|bs|] == Block(Read(current).size, Read(current).state == STATE_USED)
      ensures Walked(cs, Read(current).next, current)
    {
      hide GuardFor;
      var h := Read(current);
      cs := bs + [Block(h.size, h.state == STATE_USED)];
      OffsetSame(bs, cs, |bs|);
      if bs != [] {
        OffsetSame(bs, cs, |bs| - 1);
        assert HeaderAt(mem, bs, |bs| - 1, current);
      }
      assert HeaderAt(mem, cs, |bs|, h.next);
      RepresentsExtend(mem, bs, cs, h.next);
    }

    /** On a well-formed list every check of the walk passes. */
    lemma FollowList(w: seq<Block>, bs: seq<Block>, current: nat, previous: nat)
      requires IsList(w) && |bs| < |w| && bs == w[..|bs|] && Walked(bs, current, previous) && current != NULL
      ensures Accepts(current, previous)
      ensures w[..|bs| + 1] == bs + [Block(Read(current).size, Read(current).state == STATE_USED)]
      ensures Read(current).next == NULL <==> |bs| + 1 == |w|
    {
      hide GuardFor, HeaderOf, Offset;
      PrefixSame(w, bs, |bs|);
      if bs != [] {
        assert bs[..|bs| - 1] == w[..|bs| - 1];
        PrefixSame(w, bs, |bs| - 1);
      }
      AcceptsList(w, |bs|);
      ReadExpected(w, |bs|);
    }

    /** The static state before heap_init. */
    constructor ()
      ensures Valid() && !initialized
    {
      mem, first, mappedPages := map[], NULL, 0;
      initialized, corrupted, blocks := false, false, [];
    }

    /**
     heap_init. `pool` holds the free frames and `table` the kernel's page table; the page table
     refuses the mapping number `refused`. Two frames are taken and mapped at the heap's first two
     pages, or both are as they were.
     */
    method Init(pool: set<nat>, table: map<nat, nat>, refused: nat)
      returns (ok: bool, left: set<nat>, mapped: map<nat, nat>)
      modifies this
      ensures Valid() && ok == initialized
      ensures ok <==> BASE !in table && BASE + PAGE !in table && 2 <= |pool| && 2 <= refused
      ensures ok ==> State() == INITIAL && exists f, g ::
        f in pool && g in pool && f != g && left == pool - {f, g} && mapped == table[BASE := f][BASE + PAGE := g]
      ensures !ok ==> left == pool && mapped == table && first == NULL && mappedPages == 0 && !corrupted
    {
      first, mappedPages, initialized, corrupted := NULL, 0, false, false;
      left, mapped := pool, table;
      var frames: seq<nat> := [];
      assert Mapped(frames, pool, table, left, mapped);
      hide Mapped;
      while |frames| < 2
        invariant |frames| <= 2 && |frames| <= refused
        invariant Mapped(frames, pool, table, left, mapped)
        invariant first == NULL && mappedPages == 0 && !initialized && !corrupted
      {
        var page := BASE + |frames| * PAGE;
        if page in mapped || left == {} {
          NoNext(frames, pool, table, left, mapped);
          left, mapped := Rollback(frames, pool, table, left, mapped);
          return false, left, mapped;
        }
        var frame :| frame in left;
        if |frames| == refused {
          left, mapped := Rollback(frames, pool, table, left, mapped);
          return false, left, mapped;
        }
        MapNext(frames, pool, table, left, mapped, frame);
        left, mapped, frames := left - {frame}, mapped[page := frame], frames + [frame];
      }
      BothMapped(frames, pool, table, left, mapped);
      mappedPages, first := |frames|, BASE;
      mem := mem[BASE := Refreshed(BASE, Header(MAGIC, mappedPages * PAGE - HEADER, NULL, NULL, STATE_FREE, 0))];
      blocks := INITIAL.blocks;
      initialized := true;
      InitialWellFormed();
      InitialRepresented(mem);
      hide *;
      ok := Validate();
      corrupted := !ok;
    }

    /** heap_validate accepts exactly the memories that hold a well-formed block list. */
    method Validate() returns (ok: bool)
      ensures ok <==> initialized && !corrupted && exists bs :: IsList(bs)
      ensures Valid() && initialized ==> ok
    {
      hide GuardFor, HeaderOf, HeaderAt;
      ghost var good := exists bs :: IsList(bs);
      ghost var w: seq<Block> := [];
      if good {
        w :| IsList(w);
      }
      if !initialized || corrupted || first == NULL || first != BASE || MAX_PAGES < mappedPages {
        return false;
      }
      var current: nat, previous: nat := first, NULL;
      ghost var bs: seq<Block> := [];
      assert Walked(bs, current, previous);
      hide Offset;
      while current != NULL
        invariant Walked(bs, current, previous)
        invariant good ==> |bs| <= |w| && bs == w[..|bs|] && (current == NULL <==> |bs| == |w|)
        decreases if current == NULL then 0 else 1 + (MappedEnd() as int) - current
      {
        if good {
          FollowList(w, bs, current, previous);
        }
        if !BlockValid(current) || Read(current).prev != previous {
          return false;
        }
        if previous != NULL
           && (Read(previous).next != current
               || (Read(previous).state == STATE_FREE && Read(current).state == STATE_FREE)) {
          return false;
        }
        var blockEnd := current + HEADER + Read(current).size;
        if Read(current).next != NULL {
          if Read(current).next != blockEnd {
            return false;
          }
        } else if blockEnd != MappedEnd() {
          return false;
        }
        ghost var longer := WalkOn(bs, current, previous);
        assert longer == bs + [longer[|bs|]];
        bs := longer;
        previous := current;
        current := Read(current).next;
      }
      assert IsList(bs);
      return true;
    }

    /** The last block of the list. */
    method LastBlock() returns (last: nat)
      requires IsList(blocks)
      ensures last == HeaderAddress(blocks, |blocks| - 1)
    {
      assert HeaderAddress(blocks, 0) == BASE;
      hide GuardFor, Offset, HeaderOf;
      last := first;
      ghost var k := 0;
      Visit(blocks, 0);
      while Read(last).next != NULL
        invariant k < |blocks| && last == HeaderAddress(blocks, k)
        invariant Read(last).next == NULL <==> k + 1 == |blocks|
        decreases |blocks| - k
      {
        Visit(blocks, k);
        Visit(blocks, k + 1);
        last := Read(last).next;
        k := k + 1;
      }
    }

    /** heap_grow_one_page; `granted` is whether a frame could be allocated and mapped. */
    method GrowOnePage(granted: bool) returns (ok: bool)
      requires Valid() && initialized
      modifies this
      ensures Valid() && initialized
      ensures ok <==> granted && old(mappedPages) < MAX_PAGES
      ensures State() == if ok then Grow(old(State())) else old(State())
    {
      hide GuardFor, Offset, HeaderOf;
      assert IsList(blocks);
      var sound := Validate();
      if !sound || MAX_PAGES <= mappedPages {
        return false;
      }
      var oldEnd := MappedEnd();
      var tail := LastBlock();
      if !granted {
        return false;
      }
      ghost var bs, before := blocks, mem;
      ghost var h := State();
      ReadExpected(bs, |bs| - 1);
      mappedPages := mappedPages + 1;
      if Read(tail).state == STATE_FREE {
        mem := mem[tail := Refreshed(tail, Read(tail).(size := Read(tail).size + PAGE))];
        GrownTail(before, h, mem);
      } else {
        mem := mem[oldEnd := Refreshed(oldEnd, Header(MAGIC, PAGE - HEADER, tail, NULL, STATE_FREE, 0))];
        mem := mem[tail := Refreshed(tail, Read(tail).(next := oldEnd))];
        GrownBlock(before, h, mem, tail, oldEnd);
      }
      GrowKeeps(h);
      blocks := Grow(h).blocks;
      assert Valid();
      sound := Validate();
      corrupted := !sound;
      return sound;
    }

    /** heap_find_fit: first fit over the linked list. */
    method FindFit(n: nat) returns (found: nat)
      requires IsList(blocks)
      ensures Fits(blocks, n) ==> found == HeaderAddress(blocks, FirstFit(blocks, n, 0))
      ensures !Fits(blocks, n) ==> found == NULL
    {
      assert HeaderAddress(blocks, 0) == BASE;
      hide GuardFor, Offset, HeaderOf;
      var current := first;
      ghost var k := 0;
      while current != NULL
        invariant k <= |blocks| && current == if k < |blocks| then HeaderAddress(blocks, k) else NULL
        invariant FirstFit(blocks, n, 0) == FirstFit(blocks, n, k)
        decreases |blocks| - k
      {
        Visit(blocks, k);
        if Read(current).state == STATE_FREE && n <= Read(current).size {
          return current;
        }
        current := Read(current).next;
        k := k + 1;
      }
      return NULL;
    }

    /** The header writes of heap_allocate_from_block. */
    method WriteTaken(block: nat, n: nat, ghost i: nat)
      requires IsTiling(blocks) && i < |blocks| && block == HeaderAddress(blocks, i)
      requires !blocks[i].used && n <= blocks[i].size
      modifies this`mem
      ensures Represents(mem, Take(blocks, i, n), NULL)
    {
      hide GuardFor, Offset, HeaderOf, Refreshed, Represents, Sized;
      ghost var before := mem;
      ReadExpected(blocks, i);
      if i + 1 < |blocks| {
        ReadExpected(blocks, i + 1);
      }
      if n + HEADER + ALIGNMENT <= Read(block).size {
        var oldNext := Read(block).next;
        var newBlock := block + HEADER + n;
        var newSize := Read(block).size - n - HEADER;
        mem := mem[newBlock := Refreshed(newBlock, Header(MAGIC, newSize, block, oldNext, STATE_FREE, 0))];
        if oldNext != NULL {
          mem := mem[oldNext := Refreshed(oldNext, Read(oldNext).(prev := newBlock))];
        }
        mem := mem[block := Refreshed(block, Read(block).(size := n, next := newBlock, state := STATE_USED))];
        SplitRepresented(before, blocks, i, n, mem, Take(blocks, i, n), block, newBlock);
      } else {
        mem := mem[block := Refreshed(block, Read(block).(state := STATE_USED))];
        MarkRepresented(before, blocks, i, true, mem, Take(blocks, i, n));
      }
    }

    /** heap_allocate_from_block on the fitting block. */
    method AllocateFromBlock(block: nat, n: nat, ghost i: nat) returns (p: nat)
      requires Valid() && initialized && i < |blocks| && block == HeaderAddress(blocks, i)
      requires !blocks[i].used && ALIGNMENT <= n <= blocks[i].size && n % ALIGNMENT == 0
      modifies this
      ensures Valid() && initialized
      ensures p == old(PayloadAddress(blocks, i))
      ensures State() == old(State().(blocks := Take(blocks, i, n)))
    {
      hide GuardFor, Offset, HeaderOf, Represents, Sized, Coalesced, Take;
      ReadExpected(blocks, i);
      if !BlockValid(block) || Read(block).state != STATE_FREE || Read(block).size < n {
        return NULL;
      }
      p := block + HEADER;
      TakeKeeps(State(), i, n);
      WriteTaken(block, n, i);
      blocks := Take(blocks, i, n);
      assert Valid();
      var sound := Validate();
      corrupted := !sound;
      if !sound {
        return NULL;
      }
    }

    /** The header writes of heap_merge_with_next. */
    method WriteMerged(left: nat, right: nat, ghost i: nat)
      requires IsTiling(blocks) && i + 1 < |blocks| && !blocks[i].used && !blocks[i + 1].used
      requires left == HeaderAddress(blocks, i) && right == HeaderAddress(blocks, i + 1)
      modifies this`mem
      ensures Represents(mem, MergeAt(blocks, i), NULL)
    {
      hide GuardFor, Offset, HeaderOf, Refreshed, Represents, Sized, BlockValid, MergeAt;
      ghost var before := mem;
      ReadExpected(blocks, i);
      ReadExpected(blocks, i + 1);
      if i + 2 < |blocks| {
        ReadExpected(blocks, i + 2);
      }
      var combined := Read(left).size + HEADER + Read(right).size;
      var successor := Read(right).next;
      mem := mem[left := Read(left).(size := combined, next := successor)];
      if successor != NULL {
        mem := mem[successor := Refreshed(successor, Read(successor).(prev := left))];
      }
      mem := mem[left := Refreshed(left, Read(left))];
      mem := mem[right := ZERO_HEADER];
      MergeRepresented(before, blocks, i, mem, MergeAt(blocks, i), left, combined);
    }

    /** heap_merge_with_next; `left` is block `i` of a list that need not be coalesced. */
    method MergeWithNext(left: nat, ghost i: nat) returns (ok: bool)
      requires IsTiling(blocks) && i + 1 < |blocks| && left == HeaderAddress(blocks, i)
      requires !blocks[i].used && !blocks[i + 1].used
      modifies this`mem, this`blocks
      ensures ok && blocks == MergeAt(old(blocks), i) && IsTiling(blocks)
    {
      hide GuardFor, Offset, HeaderOf, Refreshed, Represents, Sized, BlockValid, MergeAt;
      ReadExpected(blocks, i);
      ReadExpected(blocks, i + 1);
      Visit(blocks, i);
      Visit(blocks, i + 1);
      if !BlockValid(left) || Read(left).state != STATE_FREE || Read(left).next == NULL {
        return false;
      }
      var right := Read(left).next;
      if !BlockValid(right) || Read(right).state != STATE_FREE || Read(right).prev != left {
        return false;
      }
      MergeAtKeeps(blocks, i, MergeAt(blocks, i));
      MergeAtSized(blocks, i);
      WriteMerged(left, right, i);
      blocks := MergeAt(blocks, i);
      return true;
    }

    method KMalloc(size: u64, grants: nat) returns (p: nat)
      requires Valid()
      modifies this
      ensures Valid() && initialized == old(initialized)
      ensures !initialized ==> p == NULL && State() == old(State())
      ensures initialized ==> Allocation(p, State()) == Malloc(old(State()), size, grants)
    {
      if !initialized || corrupted || !RequestOk(size) {
        return NULL;
      }
      hide GuardFor, Offset, HeaderOf, Represents, Sized, Coalesced, Take, Grow;
      var n := AlignUp(size);
      var sound := Validate();
      corrupted := !sound;
      if !sound {
        return NULL;
      }
      var left := grants;
      var block := FindFit(n);
      while block == NULL
        invariant Valid() && initialized
        invariant if Fits(blocks, n) then block == HeaderAddress(blocks, FirstFit(blocks, n, 0)) else block == NULL
        invariant Allocate(State(), n, left) == old(Allocate(State(), n, grants))
        decreases left
      {
        var grown := GrowOnePage(left > 0);
        if !grown {
          return NULL;
        }
        left := left - 1;
        block := FindFit(n);
      }
      p := AllocateFromBlock(block, n, FirstFit(blocks, n, 0));
    }

    lemma ListIs()
      requires Valid()
      ensures !corrupted
      ensures initialized ==>
        && IsTiling(blocks) && blocks != [] && first == HeaderAddress(blocks, 0)
        && Offset(blocks, |blocks|) == mappedPages * PAGE && NULL < HeaderAddress(blocks, 0)
    {
      hide GuardFor, HeaderOf, Represents;
    }

    /** heap_get_stats, which only reads: the bytes and the payloads in use of the list. */
    method GetStats() returns (ok: bool, used: nat, free: nat, allocations: nat)
      requires Valid()
      ensures ok == initialized
      ensures ok ==> used == Bytes(blocks, true) && free == Bytes(blocks, false)
      ensures ok ==> used + free + HEADER * |blocks| == mappedPages * PAGE
      ensures ok ==> allocations == |Live(blocks)|
    {
      hide *;
      ListIs();
      ok, used, free, allocations := initialized && !corrupted, 0, 0, 0;
      if !ok {
        return;
      }
      ok := Validate();
      if !ok {
        return;
      }
      CountEnds(blocks);
      var current := first;
      ghost var k := 0;
      while current != NULL
        invariant k <= |blocks| && current == if k < |blocks| then HeaderAddress(blocks, k) else NULL
        invariant used == BytesIn(blocks, k, true) && free == BytesIn(blocks, k, false)
        invariant allocations == |LiveIn(blocks, 0, k)| && NULL < HeaderAddress(blocks, k)
        decreases |blocks| - k
      {
        Visit(blocks, k);
        CountStep(blocks, k);
        NextAddress(blocks, k);
        if Read(current).state == STATE_USED {
          used := used + Read(current).size;
          allocations := allocations + 1;
        } else {
          free := free + Read(current).size;
        }
        current := Read(current).next;
        k := k + 1;
      }
      BytesTile(blocks, |blocks|);
    }

    lemma PayloadInRange(k: nat)
      requires IsList(blocks) && k <= |blocks|
      ensures k < |blocks| ==>
                && BASE + HEADER <= PayloadAddress(blocks, k) < MappedEnd()
                && PayloadAddress(blocks, k) % ALIGNMENT == 0
    {
      hide GuardFor, Offset, HeaderOf, Represents, Sized, Coalesced;
      if k < |blocks| {
        ReadExpected(blocks, k);
      }
    }

    method KFree(p: nat) returns (ok: bool)
      requires Valid()
      modifies this
      ensures Valid() && initialized == old(initialized)
      ensures !initialized ==> !ok && State() == old(State())
      ensures initialized ==> Release(ok, State()) == Free(old(State()), p)
    {
      if !initialized || corrupted || p == NULL {
        return false;
      }
      hide GuardFor, Offset, HeaderOf, Represents, Sized, Coalesced, FreeAt;
      if p < BASE + HEADER || MappedEnd() <= p || p % ALIGNMENT != 0 {
        PayloadInRange(FindPayload(blocks, p, 0));
        return false;
      }
      var sound := Validate();
      corrupted := !sound;
      if !sound {
        return false;
      }
      ghost var bs := blocks;
      var current := first;
      ghost var k := 0;
      while current != NULL
        invariant State() == old(State()) && Valid() && initialized
        invariant k <= |bs| && current == if k < |bs| then HeaderAddress(bs, k) else NULL
        invariant FindPayload(bs, p, 0) == FindPayload(bs, p, k)
        decreases |bs| - k
      {
        Visit(bs, k);
        if current + HEADER == p {
          if Read(current).state != STATE_USED {
            return false;
          }
          ok := ReleaseBlock(current, k);
          return;
        }
        current := Read(current).next;
        k := k + 1;
      }
      return false;
    }

    /** kfree's merge with the right neighbour. */
    method CoalesceRight(block: nat, ghost i: nat) returns (ok: bool)
      requires IsTiling(blocks) && i < |blocks| && block == HeaderAddress(blocks, i) && !blocks[i].used
      modifies this`mem, this`blocks
      ensures ok && blocks == MergeRight(old(blocks), i) && IsTiling(blocks)
      ensures block == HeaderAddress(blocks, i) && !blocks[i].used
    {
      hide GuardFor, Offset, HeaderOf, Represents, Sized;
      ghost var bs := blocks;
      ok := true;
      Visit(blocks, i);
      if i + 1 < |blocks| {
        Visit(blocks, i + 1);
      }
      if Read(block).next != NULL && Read(Read(block).next).state == STATE_FREE {
        ok := MergeWithNext(block, i);
      }
      HeaderKept(bs, i, blocks);
    }

    /** kfree's merge with the left neighbour. */
    method CoalesceLeft(block: nat, ghost i: nat) returns (ok: bool)
      requires IsTiling(blocks) && i < |blocks| && block == HeaderAddress(blocks, i) && !blocks[i].used
      modifies this`mem, this`blocks
      ensures ok && blocks == MergeLeft(old(blocks), i) && IsTiling(blocks)
    {
      hide GuardFor, Offset, HeaderOf, Represents, Sized;
      ok := true;
      Visit(blocks, i);
      if 0 < i {
        Visit(blocks, i - 1);
      }
      if Read(block).prev != NULL && Read(Read(block).prev).state == STATE_FREE {
        ok := MergeWithNext(Read(block).prev, i - 1);
      }
    }

    /** The successful branch of kfree, on the block it found. */
    method ReleaseBlock(block: nat, ghost i: nat) returns (ok: bool)
      requires Valid() && initialized && i < |blocks| && block == HeaderAddress(blocks, i) && blocks[i].used
      modifies this
      ensures ok && Valid() && initialized
      ensures State() == old(State().(blocks := FreeAt(blocks, i)))
    {
      hide GuardFor, Offset, HeaderOf, Refreshed, Represents, Sized, Coalesced, MergeLeft, MergeRight;
      ghost var bs, before := blocks, mem;
      ReadExpected(bs, i);
      FreeAtKeeps(State(), i);
      mem := mem[block := Refreshed(block, Read(block).(state := STATE_FREE))];
      blocks := bs[i := bs[i].(used := false)];
      MarkHeaders(bs, blocks, i, false);
      MarkRepresented(before, bs, i, false, mem, blocks);
      UnmarkKeeps(bs, i, blocks);
      UnmarkSized(bs, i);
      ok := CoalesceRight(block, i);
      corrupted := !ok;
      if !ok {
        return false;
      }
      ok := CoalesceLeft(block, i);
      corrupted := !ok;
      if !ok {
        return false;
      }
      var sound := Validate();
      corrupted := !sound;
      return sound;
    }
  }

  /** Writes at or above block `lo` leave the headers before it alone. */
  lemma UntouchedBefore(mem: Memory, bs: seq<Block>, lo: nat, after: Memory)
    requires Represents(mem, bs, NULL) && lo < |bs|
    requires forall a :: a in mem && a < HeaderAddress(bs, lo) ==> a in after && after[a] == mem[a]
    ensures forall j :: 0 <= j < lo ==> Untouched(mem, after, bs, j)
  {
    hide GuardFor, HeaderOf, Offset;
    HeadersOrdered(bs, lo);
    forall j | 0 <= j < lo ensures Untouched(mem, after, bs, j) {
      assert HeaderAt(mem, bs, j, NULL);
    }
  }

  /** Writes up to block `hi` leave the headers after it alone. */
  lemma UntouchedAfter(mem: Memory, bs: seq<Block>, hi: nat, after: Memory)
    requires Represents(mem, bs, NULL) && hi < |bs|
    requires forall a :: a in mem && HeaderAddress(bs, hi) < a ==> a in after && after[a] == mem[a]
    ensures forall j :: hi < j < |bs| ==> Untouched(mem, after, bs, j)
  {
    hide GuardFor, HeaderOf, Offset;
    HeadersOrdered(bs, hi);
    forall j | hi < j < |bs| ensures Untouched(mem, after, bs, j) {
      assert HeaderAt(mem, bs, j, NULL);
    }
  }

  lemma GrownTail(mem: Memory, h: Heap, after: Memory)
    requires WellFormed(h) && Represents(mem, h.blocks, NULL) && !h.blocks[|h.blocks| - 1].used
    requires var tail := HeaderAddress(h.blocks, |h.blocks| - 1);
      && tail in mem
      && after == mem[tail := Refreshed(tail, mem[tail].(size := mem[tail].size + PAGE))]
    ensures Represents(after, Grow(h).blocks, NULL)
  {
    hide GuardFor;
    var bs, cs, last := h.blocks, Grow(h).blocks, |h.blocks| - 1;
    assert bs[..last] == cs[..last];
    UntouchedBefore(mem, bs, last, after);
    RepresentsPrefix(mem, bs, last, after, cs);
    assert HeaderAt(mem, bs, last, NULL);
    OffsetSame(bs, cs, last);
    if 0 < last {
      OffsetSame(bs, cs, last - 1);
    }
    assert HeaderAt(after, cs, last, NULL);
  }

  lemma GrownHeaders(bs: seq<Block>, cs: seq<Block>, last: nat, tail: nat, end: nat)
    requires |bs| == last + 1 && bs[last].used && cs == bs + [Block(PAGE - HEADER, false)]
    requires tail == HeaderAddress(bs, last) && end == HeaderAddress(bs, last + 1)
    ensures tail < end && HeaderAddress(cs, last) == tail && HeaderAddress(cs, last + 1) == end
    ensures HeaderOf(cs, last, NULL) == Refreshed(tail, HeaderOf(bs, last, NULL).(next := end))
    ensures HeaderOf(cs, last + 1, NULL) == Refreshed(end, Header(MAGIC, PAGE - HEADER, tail, NULL, STATE_FREE, 0))
  {
    hide GuardFor;
    OffsetSame(bs, cs, last + 1);
    OffsetSame(bs, cs, last);
    if 0 < last {
      OffsetSame(bs, cs, last - 1);
    }
  }

  lemma GrownBlock(mem: Memory, h: Heap, after: Memory, tail: nat, end: nat)
    requires WellFormed(h) && Represents(mem, h.blocks, NULL) && h.blocks[|h.blocks| - 1].used
    requires tail == HeaderAddress(h.blocks, |h.blocks| - 1) && end == BASE + h.pages * PAGE && tail in mem
    requires after == mem[end := Refreshed(end, Header(MAGIC, PAGE - HEADER, tail, NULL, STATE_FREE, 0))]
                         [tail := Refreshed(tail, mem[tail].(next := end))]
    ensures Represents(after, Grow(h).blocks, NULL)
  {
    hide GuardFor, HeaderOf, Offset;
    var bs, cs, last := h.blocks, Grow(h).blocks, |h.blocks| - 1;
    assert bs[..last] == cs[..last];
    GrownHeaders(bs, cs, last, tail, end);
    UntouchedBefore(mem, bs, last, after);
    RepresentsPrefix(mem, bs, last, after, cs);
    assert HeaderAt(mem, bs, last, NULL);
    assert HeaderAt(after, cs, last, NULL) && HeaderAt(after, cs, last + 1, NULL);
  }

  /** The headers a split writes: the taken block, the remainder, and the back link after it. */
  lemma SplitHeaders(bs: seq<Block>, cs: seq<Block>, i: nat, n: nat, a: nat, b: nat)
    requires i < |bs| && !bs[i].used && n + HEADER + ALIGNMENT <= bs[i].size && cs == Take(bs, i, n)
    requires a == HeaderAddress(bs, i) && b == a + HEADER + n
    ensures HeaderAddress(cs, i) == a && HeaderAddress(cs, i + 1) == b < HeaderAddress(bs, i + 1)
    ensures HeaderOf(cs, i, NULL)
         == Refreshed(a, HeaderOf(bs, i, NULL).(size := n, next := b, state := STATE_USED))
    ensures HeaderOf(cs, i + 1, NULL)
         == Refreshed(b, Header(MAGIC, bs[i].size - n - HEADER, a, HeaderOf(bs, i, NULL).next, STATE_FREE, 0))
    ensures i + 1 < |bs| ==> HeaderOf(bs, i, NULL).next == HeaderAddress(bs, i + 1) == HeaderAddress(cs, i + 2)
    ensures i + 1 < |bs| ==> HeaderOf(cs, i + 2, NULL) == Refreshed(HeaderAddress(bs, i + 1), HeaderOf(bs, i + 1, NULL).(prev := b))
  {
    hide GuardFor;
    assert cs[i] == Block(n, true) && cs[i + 1] == Block(bs[i].size - n - HEADER, false);
    assert forall j :: i + 2 <= j < |cs| ==> cs[j] == bs[j - 1];
    OffsetSame(bs, cs, i);
    if 0 < i {
      OffsetSame(bs, cs, i - 1);
    }
    Next(bs, i);
    Next(cs, i);
    Next(cs, i + 1);
    if i + 1 < |bs| {
      Next(bs, i + 1);
      Next(cs, i + 2);
    }
    hide Offset, Take;
  }

  lemma SplitRepresented(mem: Memory, bs: seq<Block>, i: nat, n: nat, after: Memory, cs: seq<Block>, a: nat, b: nat)
    requires Represents(mem, bs, NULL)
    requires i < |bs| && !bs[i].used && n + HEADER + ALIGNMENT <= bs[i].size && cs == Take(bs, i, n)
    requires a == HeaderAddress(bs, i) && b == a + HEADER + n
    requires a in mem && a in after && b in after
    requires after[a] == Refreshed(a, mem[a].(size := n, next := b, state := STATE_USED))
    requires after[b] == Refreshed(b, Header(MAGIC, bs[i].size - n - HEADER, a, mem[a].next, STATE_FREE, 0))
    requires var c := HeaderAddress(bs, i + 1);
      && (i + 1 < |bs| ==> c in mem && c in after && after[c] == Refreshed(c, mem[c].(prev := b)))
      && (forall x :: x in mem && (x < a || c < x) ==> x in after && after[x] == mem[x])
    ensures Represents(after, cs, NULL)
  {
    hide GuardFor, Offset, HeaderOf;
    SplitHeaders(bs, cs, i, n, a, b);
    TakeSplits(bs, i, n, cs);
    assert HeaderAt(mem, bs, i, NULL);
    assert HeaderAt(after, cs, i, NULL) && HeaderAt(after, cs, i + 1, NULL);
    if i + 1 < |bs| {
      assert HeaderAt(mem, bs, i + 1, NULL);
      assert HeaderAt(after, cs, i + 2, NULL);
      UntouchedAfter(mem, bs, i + 1, after);
    }
    UntouchedBefore(mem, bs, i, after);
    RepresentsSplice(mem, bs, i, i + 1, after, cs, i + 2);
  }

  lemma MarkHeaders(bs: seq<Block>, cs: seq<Block>, i: nat, used: bool)
    requires i < |bs| && cs == bs[i := bs[i].(used := used)]
    ensures HeaderAddress(cs, i) == HeaderAddress(bs, i) && Spliced(bs, i, i + 1, cs, i + 1)
    ensures HeaderOf(cs, i, NULL) == Refreshed(HeaderAddress(bs, i), HeaderOf(bs, i, NULL).(state := StateWord(cs[i])))
    ensures i + 1 < |bs| ==> HeaderAddress(cs, i + 1) == HeaderAddress(bs, i + 1)
    ensures i + 1 < |bs| ==> HeaderOf(cs, i + 1, NULL) == HeaderOf(bs, i + 1, NULL)
  {
    hide GuardFor;
    OffsetSame(bs, cs, i);
    OffsetSame(bs, cs, i + 1);
    if 0 < i {
      OffsetSame(bs, cs, i - 1);
    }
    if i + 1 < |bs| {
      Next(bs, i + 1);
      Next(cs, i + 1);
    }
    hide Offset;
    assert bs[..i] == cs[..i] && bs[i + 1..] == cs[i + 1..];
  }

  /** Rewriting only the state word of one block. */
  lemma MarkRepresented(mem: Memory, bs: seq<Block>, i: nat, used: bool, after: Memory, cs: seq<Block>)
    requires Represents(mem, bs, NULL) && i < |bs| && cs == bs[i := bs[i].(used := used)]
    requires var a := HeaderAddress(bs, i);
      a in mem && after == mem[a := Refreshed(a, mem[a].(state := StateWord(cs[i])))]
    ensures Represents(after, cs, NULL)
  {
    hide GuardFor, Offset, HeaderOf;
    MarkHeaders(bs, cs, i, used);
    HeadersOrdered(bs, i);
    assert HeaderAt(mem, bs, i, NULL);
    assert HeaderAt(after, cs, i, NULL);
    if i + 1 < |bs| {
      assert HeaderAt(mem, bs, i + 1, NULL);
      assert HeaderAt(after, cs, i + 1, NULL);
    }
    UntouchedAfter(mem, bs, i, after);
    UntouchedBefore(mem, bs, i, after);
    RepresentsSplice(mem, bs, i, i + 1, after, cs, i + 1);
  }

  lemma MergeHeaders(bs: seq<Block>, cs: seq<Block>, i: nat, a: nat, size: nat)
    requires i + 1 < |bs| && !bs[i].used && !bs[i + 1].used && cs == MergeAt(bs, i)
    requires a == HeaderAddress(bs, i) && size == bs[i].size + HEADER + bs[i + 1].size
    ensures HeaderAddress(cs, i) == a < HeaderAddress(bs, i + 1) < HeaderAddress(bs, i + 2)
    ensures HeaderOf(cs, i, NULL)
         == Refreshed(a, HeaderOf(bs, i, NULL).(size := size, next := HeaderOf(bs, i + 1, NULL).next))
    ensures i + 2 < |bs| ==> HeaderOf(bs, i + 1, NULL).next == HeaderAddress(bs, i + 2) == HeaderAddress(cs, i + 1)
    ensures i + 2 < |bs| ==> HeaderOf(cs, i + 1, NULL) == Refreshed(HeaderAddress(bs, i + 2), HeaderOf(bs, i + 2, NULL).(prev := a))
  {
    hide GuardFor;
    assert cs[i] == Block(size, false);
    assert forall j :: i + 1 <= j < |cs| ==> cs[j] == bs[j + 1];
    OffsetSame(bs, cs, i);
    if 0 < i {
      OffsetSame(bs, cs, i - 1);
    }
    Next(bs, i);
    Next(bs, i + 1);
    Next(cs, i);
    if i + 2 < |bs| {
      Next(bs, i + 2);
      Next(cs, i + 1);
    }
    hide Offset, MergeAt;
  }

  lemma MergeRepresented(mem: Memory, bs: seq<Block>, i: nat, after: Memory, cs: seq<Block>, a: nat, size: nat)
    requires Represents(mem, bs, NULL)
    requires i + 1 < |bs| && !bs[i].used && !bs[i + 1].used && cs == MergeAt(bs, i)
    requires a == HeaderAddress(bs, i) && size == bs[i].size + HEADER + bs[i + 1].size
    requires var b, c := HeaderAddress(bs, i + 1), HeaderAddress(bs, i + 2);
      && a in mem && b in mem && a in after
      && after[a] == Refreshed(a, mem[a].(size := size, next := mem[b].next))
      && (i + 2 < |bs| ==> c in mem && c in after && after[c] == Refreshed(c, mem[c].(prev := a)))
      && (forall x :: x in mem && (x < a || c < x) ==> x in after && after[x] == mem[x])
    ensures Represents(after, cs, NULL)
  {
    hide GuardFor, Offset, HeaderOf;
    MergeHeaders(bs, cs, i, a, size);
    MergeAtKeeps(bs, i, cs);
    assert HeaderAt(mem, bs, i, NULL) && HeaderAt(mem, bs, i + 1, NULL);
    assert HeaderAt(after, cs, i, NULL);
    if i + 2 < |bs| {
      assert HeaderAt(mem, bs, i + 2, NULL);
      assert HeaderAt(after, cs, i + 1, NULL);
      UntouchedAfter(mem, bs, i + 2, after);
    }
    UntouchedBefore(mem, bs, i, after);
    RepresentsSplice(mem, bs, i, i + 2, after, cs, i + 1);
  }

  lemma UnmarkSized(bs: seq<Block>, i: nat)
    requires Sized(bs) && i < |bs|
    ensures Sized(bs[i := bs[i].(used := false)])
  {}

  lemma HeaderKept(bs: seq<Block>, i: nat, cs: seq<Block>)
    requires i < |bs| && cs == MergeRight(bs, i)
    ensures HeaderAddress(cs, i) == HeaderAddress(bs, i)
  {
    assert bs[..i] == cs[..i];
    PrefixSame(bs, cs, i);
  }
}
