/**
 What an ELF executable must look like to be loaded, and what memory it stands for: pages of
 file bytes and zeros, and a stack. The scanning and mapping loops are in module ElfLoader.
 */
module ElfSpec {
  import opened Machine

  const PAGE: nat := 4096
  const EHDR_SIZE: nat := 64
  const PHDR_SIZE: nat := 56
  const MODULE_MAX: nat := 65536
  const MAX_HEADERS: nat := 8
  const MAX_SEGMENTS: nat := 4
  const MAX_IMAGE_PAGES: nat := 16
  const MAX_STACK_PAGES: nat := 2
  const USER_LIMIT: nat := 0x8000_0000_0000
  const PT_LOAD: nat := 1
  const PT_DYNAMIC: nat := 2
  const PT_INTERP: nat := 3
  const SUPPORTED_FLAGS: nat := 7

  datatype Segment = Segment(fileOffset: nat, address: nat, fileSize: nat, memorySize: nat, flags: nat)

  // --------------------------------------------------------------- file format

  /** The little-endian number of `n` bytes at `at`. */
  function Little(file: seq<byte>, at: nat, n: nat): nat
    requires at + n <= |file|
    decreases n
  {
    if n == 0 then 0 else (file[at] as nat) + 256 * Little(file, at + 1, n - 1)
  }

  /** The fixed fields of the file header, apart from the segments. */
  predicate HeaderOk(file: seq<byte>) {
    && EHDR_SIZE <= |file| <= MODULE_MAX
    && file[0] == 0x7f && file[1] == 69 && file[2] == 76 && file[3] == 70
    && file[4] == 2 && file[5] == 1 && file[6] == 1
    && Little(file, 16, 2) == 2 && Little(file, 18, 2) == 62 && Little(file, 20, 4) == 1
    && Little(file, 52, 2) == EHDR_SIZE && Little(file, 54, 2) == PHDR_SIZE
    && 0 < HeaderCount(file) <= MAX_HEADERS
    && TableOffset(file) + HeaderCount(file) * PHDR_SIZE <= |file|
  }

  function EntryPoint(file: seq<byte>): nat
    requires EHDR_SIZE <= |file|
  {
    Little(file, 24, 8)
  }

  function TableOffset(file: seq<byte>): nat
    requires EHDR_SIZE <= |file|
  {
    Little(file, 32, 8)
  }

  function HeaderCount(file: seq<byte>): nat
    requires EHDR_SIZE <= |file|
  {
    Little(file, 56, 2)
  }

  function HeaderAt(file: seq<byte>, i: nat): (at: nat)
    requires HeaderOk(file) && i < HeaderCount(file)
    ensures at + PHDR_SIZE <= |file|
  {
    TableOffset(file) + i * PHDR_SIZE
  }

  function TypeAt(file: seq<byte>, i: nat): nat
    requires HeaderOk(file) && i < HeaderCount(file)
  {
    Little(file, HeaderAt(file, i), 4)
  }

  function AlignAt(file: seq<byte>, i: nat): nat
    requires HeaderOk(file) && i < HeaderCount(file)
  {
    Little(file, HeaderAt(file, i) + 48, 8)
  }

  function SegmentAt(file: seq<byte>, i: nat): Segment
    requires HeaderOk(file) && i < HeaderCount(file)
  {
    var at := HeaderAt(file, i);
    Segment(Little(file, at + 8, 8), Little(file, at + 16, 8), Little(file, at + 32, 8), Little(file, at + 40, 8),
            Little(file, at + 4, 4))
  }

  // ------------------------------------------------------------------ segments

  function PageCount(size: nat): nat {
    (size + (PAGE - 1)) / PAGE
  }

  function PageEnd(g: Segment): nat {
    g.address + PageCount(g.memorySize) * PAGE
  }

  predicate Readable(g: Segment) {
    g.flags / 4 % 2 == 1
  }

  predicate Writable(g: Segment) {
    g.flags / 2 % 2 == 1
  }

  predicate Executable(g: Segment) {
    g.flags % 2 == 1
  }

  /** ring3_user_range_valid: a range in the lower, canonical half of the address space. */
  predicate UserRange(start: nat, length: nat) {
    length != 0 && start + length <= USER_LIMIT
  }

  predicate Overlaps(a: nat, aEnd: nat, b: nat, bEnd: nat) {
    a < bEnd && b < aEnd
  }

  /** What the validator asks of one loadable segment, the stack and its guard page included. */
  predicate SegmentOk(g: Segment, align: nat, size: nat, stackBase: nat, stackSize: nat)
    requires PAGE <= stackBase
  {
    && g.memorySize != 0 && g.fileSize <= g.memorySize
    && g.flags <= SUPPORTED_FLAGS && Readable(g) && !(Writable(g) && Executable(g))
    && align == PAGE && g.address % PAGE == 0 && g.fileOffset % PAGE == 0
    && g.fileOffset + g.fileSize <= size
    && UserRange(g.address, g.memorySize)
    && PageCount(g.memorySize) <= MAX_IMAGE_PAGES
    && !Overlaps(g.address, PageEnd(g), stackBase - PAGE, stackBase + stackSize)
  }

  predicate EntersAt(g: Segment, entry: nat) {
    g.address <= entry < g.address + g.memorySize && Executable(g) && !Writable(g)
  }

  /** The loadable segments of the first `n` headers. */
  function Loads(file: seq<byte>, n: nat): (gs: seq<Segment>)
    requires HeaderOk(file) && n <= HeaderCount(file)
    ensures |gs| <= n
  {
    if n == 0 then []
    else Loads(file, n - 1) + if TypeAt(file, n - 1) == PT_LOAD then [SegmentAt(file, n - 1)] else []
  }

  function TotalPages(gs: seq<Segment>): nat {
    if gs == [] then 0 else TotalPages(gs[..|gs| - 1]) + PageCount(gs[|gs| - 1].memorySize)
  }

  predicate StackOk(stackBase: nat, stackSize: nat) {
    && stackBase % PAGE == 0 && PAGE <= stackBase && 0 < stackSize <= MAX_STACK_PAGES * PAGE && stackSize % PAGE == 0
    && UserRange(stackBase, stackSize)
  }

  /** The first `n` headers hold nothing the validator refuses. */
  ghost predicate HeadersOk(file: seq<byte>, n: nat, stackBase: nat, stackSize: nat)
    requires HeaderOk(file) && n <= HeaderCount(file) && PAGE <= stackBase
  {
    && (forall i :: 0 <= i < n ==> TypeAt(file, i) != PT_INTERP && TypeAt(file, i) != PT_DYNAMIC)
    && (forall i :: 0 <= i < n && TypeAt(file, i) == PT_LOAD ==>
          SegmentOk(SegmentAt(file, i), AlignAt(file, i), |file|, stackBase, stackSize))
    && |Loads(file, n)| <= MAX_SEGMENTS && TotalPages(Loads(file, n)) <= MAX_IMAGE_PAGES
    && PagesApart(Loads(file, n))
  }

  ghost predicate PagesApart(gs: seq<Segment>) {
    forall j, k :: 0 <= j < k < |gs| ==> !Overlaps(gs[k].address, PageEnd(gs[k]), gs[j].address, PageEnd(gs[j]))
  }

  ghost predicate Enters(gs: seq<Segment>, entry: nat) {
    exists k :: 0 <= k < |gs| && EntersAt(gs[k], entry)
  }

  /** The executables the validator accepts. */
  ghost predicate Acceptable(file: seq<byte>, stackBase: nat, stackSize: nat) {
    && HeaderOk(file) && StackOk(stackBase, stackSize)
    && HeadersOk(file, HeaderCount(file), stackBase, stackSize)
    && Enters(Loads(file, HeaderCount(file)), EntryPoint(file))
  }

  lemma {:induction false} LoadsPrefix(file: seq<byte>, m: nat, n: nat)
    requires HeaderOk(file) && m <= n <= HeaderCount(file)
    ensures |Loads(file, m)| <= |Loads(file, n)| && Loads(file, n)[..|Loads(file, m)|] == Loads(file, m)
    decreases n - m
  {
    if m < n {
      LoadsPrefix(file, m, n - 1);
      assert Loads(file, n)[..|Loads(file, n - 1)|] == Loads(file, n - 1);
      hide Loads;
    }
  }

  lemma {:induction false} PagesGrow(gs: seq<Segment>, k: nat)
    requires k <= |gs|
    ensures TotalPages(gs[..k]) <= TotalPages(gs)
  {
    if k < |gs| {
      PagesGrow(gs[..|gs| - 1], k);
      assert gs[..|gs| - 1][..k] == gs[..k];
    } else {
      assert gs[..k] == gs;
    }
  }

  /** What was refused stays refused. */
  lemma HeadersPrefix(file: seq<byte>, m: nat, n: nat, stackBase: nat, stackSize: nat)
    requires HeaderOk(file) && m <= n <= HeaderCount(file) && PAGE <= stackBase && HeadersOk(file, n, stackBase, stackSize)
    ensures HeadersOk(file, m, stackBase, stackSize)
  {
    hide Loads, SegmentOk, TotalPages, Overlaps;
    LoadsPrefix(file, m, n);
    var gs, hs := Loads(file, n), Loads(file, m);
    PagesGrow(gs, |hs|);
    assert forall k :: 0 <= k < |hs| ==> hs[k] == gs[k];
  }

  /** One more header, in the validator's own order of questions. */
  ghost predicate StepOk(file: seq<byte>, n: nat, stackBase: nat, stackSize: nat)
    requires HeaderOk(file) && n < HeaderCount(file) && PAGE <= stackBase
  {
    && TypeAt(file, n) != PT_INTERP && TypeAt(file, n) != PT_DYNAMIC
    && (TypeAt(file, n) == PT_LOAD ==>
          var g, gs := SegmentAt(file, n), Loads(file, n);
          && |gs| < MAX_SEGMENTS
          && SegmentOk(g, AlignAt(file, n), |file|, stackBase, stackSize)
          && TotalPages(gs) + PageCount(g.memorySize) <= MAX_IMAGE_PAGES
          && ClearOf(g, gs, |gs|))
  }

  ghost predicate ClearOf(g: Segment, gs: seq<Segment>, n: nat)
    requires n <= |gs|
  {
    forall j :: 0 <= j < n ==> !Overlaps(g.address, PageEnd(g), gs[j].address, PageEnd(gs[j]))
  }

  lemma HeadersStep(file: seq<byte>, n: nat, stackBase: nat, stackSize: nat)
    requires HeaderOk(file) && n < HeaderCount(file) && PAGE <= stackBase && HeadersOk(file, n, stackBase, stackSize)
    ensures HeadersOk(file, n + 1, stackBase, stackSize) <==> StepOk(file, n, stackBase, stackSize)
    ensures Loads(file, n + 1) == if TypeAt(file, n) == PT_LOAD then Loads(file, n) + [SegmentAt(file, n)] else Loads(file, n)
  {
    hide Loads, SegmentOk, TotalPages, Overlaps, PagesApart, ClearOf, PageCount, TypeAt, SegmentAt, AlignAt;
    LoadsStep(file, n);
    if TypeAt(file, n) == PT_LOAD {
      ApartStep(Loads(file, n), SegmentAt(file, n));
    }
  }

  lemma LoadsStep(file: seq<byte>, n: nat)
    requires HeaderOk(file) && n < HeaderCount(file)
    ensures Loads(file, n + 1) == if TypeAt(file, n) == PT_LOAD then Loads(file, n) + [SegmentAt(file, n)] else Loads(file, n)
    ensures TotalPages(Loads(file, n + 1))
         == TotalPages(Loads(file, n)) + if TypeAt(file, n) == PT_LOAD then PageCount(SegmentAt(file, n).memorySize) else 0
  {
    hide TypeAt, SegmentAt;
    var gs, hs := Loads(file, n), Loads(file, n + 1);
    if TypeAt(file, n) == PT_LOAD {
      assert hs[..|hs| - 1] == gs;
    } else {
      assert hs == gs;
    }
  }

  lemma ApartStep(gs: seq<Segment>, g: Segment)
    requires PagesApart(gs)
    ensures PagesApart(gs + [g]) <==> ClearOf(g, gs, |gs|)
  {
    var hs := gs + [g];
    hide Overlaps, PageEnd;
    if PagesApart(hs) {
      forall j | 0 <= j < |gs| ensures !Overlaps(g.address, PageEnd(g), gs[j].address, PageEnd(gs[j])) {
        assert hs[j] == gs[j] && hs[|gs|] == g;
      }
    }
  }

  // --------------------------------------------------------------------- image

  /** `fromFile` is whether the page takes bytes from the file. */
  datatype Page = Page(address: nat, writable: bool, executable: bool, fromFile: bool, bytes: seq<byte>)

  /** Page `k` of segment `g`: file bytes as far as they go, then zeros. */
  function SegmentBytes(file: seq<byte>, g: Segment, k: nat): (b: seq<byte>)
    requires g.fileOffset + g.fileSize <= |file|
    ensures |b| == PAGE
    ensures forall j :: 0 <= j < PAGE ==> b[j] == if k * PAGE + j < g.fileSize then file[g.fileOffset + k * PAGE + j] else 0
  {
    seq(PAGE, j requires 0 <= j < PAGE => if k * PAGE + j < g.fileSize then file[g.fileOffset + k * PAGE + j] else 0)
  }

  function SegmentPage(file: seq<byte>, g: Segment, k: nat): Page
    requires g.fileOffset + g.fileSize <= |file|
  {
    Page(g.address + k * PAGE, Writable(g), Executable(g), k * PAGE < g.fileSize, SegmentBytes(file, g, k))
  }

  /** The first `n` pages of segment `g`. */
  function SegmentPages(file: seq<byte>, g: Segment, n: nat): (ps: seq<Page>)
    requires g.fileOffset + g.fileSize <= |file|
    ensures |ps| == n && forall k :: 0 <= k < n ==> ps[k] == SegmentPage(file, g, k)
  {
    if n == 0 then [] else SegmentPages(file, g, n - 1) + [SegmentPage(file, g, n - 1)]
  }

  ghost predicate InFile(file: seq<byte>, gs: seq<Segment>) {
    forall k :: 0 <= k < |gs| ==> gs[k].fileOffset + gs[k].fileSize <= |file|
  }

  ghost function ImagePages(file: seq<byte>, gs: seq<Segment>): (ps: seq<Page>)
    requires InFile(file, gs)
    ensures |ps| == TotalPages(gs)
  {
    if gs == [] then []
    else
      ImagePages(file, gs[..|gs| - 1]) + SegmentPages(file, gs[|gs| - 1], PageCount(gs[|gs| - 1].memorySize))
  }

  function ZeroPage(): (b: seq<byte>)
    ensures |b| == PAGE && forall j :: 0 <= j < PAGE ==> b[j] == 0
  {
    seq(PAGE, j => 0)
  }

  function StackPages(stackBase: nat, n: nat): (ps: seq<Page>)
    ensures |ps| == n && forall k :: 0 <= k < n ==> ps[k] == Page(stackBase + k * PAGE, true, false, false, ZeroPage())
  {
    if n == 0 then [] else StackPages(stackBase, n - 1) + [Page(stackBase + (n - 1) * PAGE, true, false, false, ZeroPage())]
  }

  /** All the pages of a loaded program, in the order they are mapped. */
  ghost function Plan(file: seq<byte>, gs: seq<Segment>, stackBase: nat, stackSize: nat): seq<Page>
    requires InFile(file, gs)
  {
    ImagePages(file, gs) + StackPages(stackBase, stackSize / PAGE)
  }

  lemma {:induction false} PageOfImage(file: seq<byte>, gs: seq<Segment>, i: nat)
    requires InFile(file, gs) && i < |ImagePages(file, gs)|
    ensures exists s, k :: 0 <= s < |gs| && 0 <= k < PageCount(gs[s].memorySize) && ImagePages(file, gs)[i] == SegmentPage(file, gs[s], k)
  {
    var init := gs[..|gs| - 1];
    if i < |ImagePages(file, init)| {
      PageOfImage(file, init, i);
      var s, k :| 0 <= s < |init| && 0 <= k < PageCount(init[s].memorySize)
                  && ImagePages(file, init)[i] == SegmentPage(file, init[s], k);
      assert gs[s] == init[s];
    } else {
      var k := i - |ImagePages(file, init)|;
      assert ImagePages(file, gs)[i] == SegmentPage(file, gs[|gs| - 1], k);
    }
  }

  /** No page of an accepted program is both writable and executable, or the guard page of the stack. */
  lemma AcceptedImage(file: seq<byte>, stackBase: nat, stackSize: nat, i: nat)
    requires Acceptable(file, stackBase, stackSize)
    ensures InFile(file, Loads(file, HeaderCount(file)))
    ensures var ps := Plan(file, Loads(file, HeaderCount(file)), stackBase, stackSize);
      i < |ps| ==> PageOk(ps[i], stackBase)
  {
    hide SegmentOk, HeadersOk, SegmentBytes, PageOk, Loads;
    var gs := Loads(file, HeaderCount(file));
    forall s | 0 <= s < |gs| ensures GoodSegment(gs[s], |file|, stackBase, stackSize) {
      LoadsOk(file, HeaderCount(file), s, stackBase, stackSize);
    }
    GoodPlan(file, gs, stackBase, stackSize, i);
  }

  predicate PageOk(p: Page, stackBase: nat) {
    && !(p.writable && p.executable) && p.address % PAGE == 0 && p.address + PAGE <= USER_LIMIT
    && (p.address + PAGE <= stackBase - PAGE || stackBase <= p.address)
  }

  lemma GoodPlan(file: seq<byte>, gs: seq<Segment>, stackBase: nat, stackSize: nat, i: nat)
    requires StackOk(stackBase, stackSize)
    requires forall s :: 0 <= s < |gs| ==> GoodSegment(gs[s], |file|, stackBase, stackSize)
    ensures InFile(file, gs)
    ensures var ps := Plan(file, gs, stackBase, stackSize); i < |ps| ==> PageOk(ps[i], stackBase)
  {
    hide SegmentBytes, Overlaps, UserRange;
    var ps := Plan(file, gs, stackBase, stackSize);
    if i < |ImagePages(file, gs)| {
      PageOfImage(file, gs, i);
      var s, k :| 0 <= s < |gs| && 0 <= k < PageCount(gs[s].memorySize) && ImagePages(file, gs)[i] == SegmentPage(file, gs[s], k);
      GoodPage(file, gs[s], k, stackBase, stackSize);
    } else if i < |ps| {
      var k := i - |ImagePages(file, gs)|;
      assert ps[i] == Page(stackBase + k * PAGE, true, false, false, ZeroPage());
      StackInside(stackBase, stackSize, k);
    }
  }

  lemma GoodPage(file: seq<byte>, g: Segment, k: nat, stackBase: nat, stackSize: nat)
    requires GoodSegment(g, |file|, stackBase, stackSize) && StackOk(stackBase, stackSize) && k < PageCount(g.memorySize)
    ensures PageOk(SegmentPage(file, g, k), stackBase)
  {
    PageInside(g, k, stackBase, stackSize);
  }

  ghost predicate GoodSegment(g: Segment, size: nat, stackBase: nat, stackSize: nat)
  {
    PAGE <= stackBase && SegmentOk(g, PAGE, size, stackBase, stackSize)
  }

  lemma {:induction false} LoadsOk(file: seq<byte>, n: nat, s: nat, stackBase: nat, stackSize: nat)
    requires HeaderOk(file) && n <= HeaderCount(file) && PAGE <= stackBase && HeadersOk(file, n, stackBase, stackSize)
    requires s < |Loads(file, n)|
    ensures GoodSegment(Loads(file, n)[s], |file|, stackBase, stackSize)
  {
    if s < |Loads(file, n - 1)| {
      HeadersPrefix(file, n - 1, n, stackBase, stackSize);
      LoadsOk(file, n - 1, s, stackBase, stackSize);
    } else {
      assert Loads(file, n)[s] == SegmentAt(file, n - 1);
    }
  }

  lemma PageInside(g: Segment, k: nat, stackBase: nat, stackSize: nat)
    requires PAGE <= stackBase && SegmentOk(g, PAGE, g.fileOffset + g.fileSize, stackBase, stackSize) && k < PageCount(g.memorySize)
    requires stackBase % PAGE == 0 && 0 < stackSize
    ensures var a := g.address + k * PAGE;
      && a % PAGE == 0 && (a + PAGE <= stackBase - PAGE || stackBase <= a) && a + PAGE <= PageEnd(g) <= USER_LIMIT
  {
    assert (k + 1) * PAGE <= PageCount(g.memorySize) * PAGE;
    assert PageCount(g.memorySize) * PAGE <= g.memorySize + PAGE - 1;
    assert PageEnd(g) % PAGE == 0 && USER_LIMIT % PAGE == 0;
  }

  lemma StackInside(stackBase: nat, stackSize: nat, k: nat)
    requires StackOk(stackBase, stackSize) && k < stackSize / PAGE
    ensures (stackBase + k * PAGE) % PAGE == 0 && stackBase + k * PAGE + PAGE <= USER_LIMIT
  {}

  predicate DisjointPages(a: Page, b: Page) {
    a.address + PAGE <= b.address || b.address + PAGE <= a.address
  }

  lemma {:induction false} ImageApart(file: seq<byte>, gs: seq<Segment>, i: nat, j: nat)
    requires InFile(file, gs) && PagesApart(gs) && i < j < |ImagePages(file, gs)|
    ensures DisjointPages(ImagePages(file, gs)[i], ImagePages(file, gs)[j])
  {
    var init, g := gs[..|gs| - 1], gs[|gs| - 1];
    var n := |ImagePages(file, init)|;
    if j < n {
      ImageApart(file, init, i, j);
    } else {
      var l := j - n;
      assert ImagePages(file, gs)[j] == SegmentPage(file, g, l);
      if i < n {
        PageOfImage(file, init, i);
        var s, k :| 0 <= s < |init| && 0 <= k < PageCount(init[s].memorySize)
                    && ImagePages(file, init)[i] == SegmentPage(file, init[s], k);
        assert gs[s] == init[s] && !Overlaps(g.address, PageEnd(g), gs[s].address, PageEnd(gs[s]));
        SegmentsApart(gs[s], g, k, l);
      } else {
        assert ImagePages(file, gs)[i] == SegmentPage(file, g, i - n);
        assert (i - n + 1) * PAGE <= l * PAGE;
      }
    }
  }

  lemma SegmentsApart(a: Segment, b: Segment, k: nat, l: nat)
    requires k < PageCount(a.memorySize) && l < PageCount(b.memorySize) && !Overlaps(b.address, PageEnd(b), a.address, PageEnd(a))
    ensures var p, q := a.address + k * PAGE, b.address + l * PAGE; p + PAGE <= q || q + PAGE <= p
  {
    assert (k + 1) * PAGE <= PageCount(a.memorySize) * PAGE && (l + 1) * PAGE <= PageCount(b.memorySize) * PAGE;
  }

  /** No two pages of an accepted program share an address. */
  lemma AcceptedApart(file: seq<byte>, stackBase: nat, stackSize: nat, i: nat, j: nat)
    requires Acceptable(file, stackBase, stackSize)
    ensures InFile(file, Loads(file, HeaderCount(file)))
    ensures var ps := Plan(file, Loads(file, HeaderCount(file)), stackBase, stackSize);
      i < j < |ps| ==> DisjointPages(ps[i], ps[j])
  {
    var gs := Loads(file, HeaderCount(file));
    AcceptedImage(file, stackBase, stackSize, i);
    var n, ps := |ImagePages(file, gs)|, Plan(file, gs, stackBase, stackSize);
    if i < j < n {
      ImageApart(file, gs, i, j);
    } else if i < n <= j < |ps| {
      StackAbove(file, gs, stackBase, stackSize, i);
      assert ps[j].address == stackBase + (j - n) * PAGE;
      StackInside(stackBase, stackSize, j - n);
    } else if n <= i < j < |ps| {
      assert ps[i].address == stackBase + (i - n) * PAGE && ps[j].address == stackBase + (j - n) * PAGE;
      assert (i - n + 1) * PAGE <= (j - n) * PAGE;
    }
  }

  /** Image pages lie below the guard page or above the whole stack. */
  lemma StackAbove(file: seq<byte>, gs: seq<Segment>, stackBase: nat, stackSize: nat, i: nat)
    requires HeaderOk(file) && StackOk(stackBase, stackSize) && gs == Loads(file, HeaderCount(file))
    requires HeadersOk(file, HeaderCount(file), stackBase, stackSize) && InFile(file, gs) && i < |ImagePages(file, gs)|
    ensures var a := ImagePages(file, gs)[i].address; a + PAGE <= stackBase - PAGE || stackBase + stackSize <= a
  {
    PageOfImage(file, gs, i);
    var s, k :| 0 <= s < |gs| && 0 <= k < PageCount(gs[s].memorySize) && ImagePages(file, gs)[i] == SegmentPage(file, gs[s], k);
    LoadsOk(file, HeaderCount(file), s, stackBase, stackSize);
    assert (k + 1) * PAGE <= PageCount(gs[s].memorySize) * PAGE;
  }

  // ------------------------------------------------------------- owned pages

  datatype Mapping = Mapping(frame: nat, writable: bool, executable: bool)
  datatype OwnedPage = OwnedPage(address: nat, frame: nat, writable: bool, executable: bool, mapped: bool)

  /** The free frames once `ps` have taken theirs. */
  ghost function PoolAfter(pool: set<nat>, ps: seq<OwnedPage>): set<nat> {
    if ps == [] then pool else PoolAfter(pool, ps[..|ps| - 1]) - {ps[|ps| - 1].frame}
  }

  function MappingOf(p: OwnedPage): Mapping {
    Mapping(p.frame, p.writable, p.executable)
  }

  /** The page map once those of `ps` that are mapped have been. */
  ghost function TableAfter(table: map<nat, Mapping>, ps: seq<OwnedPage>): map<nat, Mapping> {
    if ps == [] then table
    else
      var t := TableAfter(table, ps[..|ps| - 1]);
      var p := ps[|ps| - 1];
      if p.mapped then t[p.address := MappingOf(p)] else t
  }

  /** Each page took a frame that was free, and an address that was not mapped. */
  ghost predicate Owned(pool: set<nat>, table: map<nat, Mapping>, ps: seq<OwnedPage>) {
    ps == [] ||
    (var init, p := ps[..|ps| - 1], ps[|ps| - 1];
     && Owned(pool, table, init) && p.frame in PoolAfter(pool, init) && p.frame != 0
     && (p.mapped ==> p.address !in TableAfter(table, init)))
  }

  lemma OwnedPush(pool: set<nat>, table: map<nat, Mapping>, ps: seq<OwnedPage>, p: OwnedPage)
    requires Owned(pool, table, ps) && p.frame in PoolAfter(pool, ps) && p.frame != 0
    requires p.mapped ==> p.address !in TableAfter(table, ps)
    ensures Owned(pool, table, ps + [p]) && PoolAfter(pool, ps + [p]) == PoolAfter(pool, ps) - {p.frame}
    ensures TableAfter(table, ps + [p])
         == if p.mapped then TableAfter(table, ps)[p.address := MappingOf(p)] else TableAfter(table, ps)
  {
    assert (ps + [p])[..|ps|] == ps;
  }

  /** Giving the last page back restores what there was before it. */
  lemma OwnedPop(pool: set<nat>, table: map<nat, Mapping>, ps: seq<OwnedPage>)
    requires ps != [] && Owned(pool, table, ps)
    ensures var init, p := ps[..|ps| - 1], ps[|ps| - 1];
      && Owned(pool, table, init) && p.frame != 0 && p.frame !in PoolAfter(pool, ps)
      && PoolAfter(pool, ps) + {p.frame} == PoolAfter(pool, init)
      && (p.mapped ==> p.address in TableAfter(table, ps) && TableAfter(table, ps) - {p.address} == TableAfter(table, init))
      && (!p.mapped ==> TableAfter(table, ps) == TableAfter(table, init))
  {}

  /** Owned frames are out of the pool, all different, and mapped addresses lead to their own frames. */
  lemma {:induction false} OwnedFacts(pool: set<nat>, table: map<nat, Mapping>, ps: seq<OwnedPage>, i: nat)
    requires Owned(pool, table, ps) && i < |ps|
    ensures ps[i].frame in pool && ps[i].frame !in PoolAfter(pool, ps)
    ensures forall j :: 0 <= j < |ps| && j != i ==> ps[j].frame != ps[i].frame
    ensures ps[i].mapped ==> ps[i].address !in table
    ensures ps[i].mapped ==> ps[i].address in TableAfter(table, ps) && TableAfter(table, ps)[ps[i].address] == MappingOf(ps[i])
  {
    var init := ps[..|ps| - 1];
    if i < |init| {
      OwnedFacts(pool, table, init, i);
      assert forall j :: 0 <= j < |init| ==> init[j] == ps[j];
    } else {
      forall j | 0 <= j < |ps| && j != i ensures ps[j].frame != ps[i].frame {
        OwnedFacts(pool, table, init, j);
      }
      PoolShrinks(pool, init);
      TableGrows(table, init);
    }
  }

  lemma {:induction false} PoolShrinks(pool: set<nat>, ps: seq<OwnedPage>)
    ensures PoolAfter(pool, ps) <= pool
  {
    if ps != [] {
      PoolShrinks(pool, ps[..|ps| - 1]);
    }
  }

  lemma {:induction false} TableGrows(table: map<nat, Mapping>, ps: seq<OwnedPage>)
    ensures forall a :: a in table ==> a in TableAfter(table, ps)
  {
    if ps != [] {
      TableGrows(table, ps[..|ps| - 1]);
    }
  }

  /** All the pages of an accepted program. */
  ghost function ProgramPlan(file: seq<byte>, stackBase: nat, stackSize: nat): seq<Page>
    requires Acceptable(file, stackBase, stackSize)
  {
    AcceptedImage(file, stackBase, stackSize, 0);
    Plan(file, Loads(file, HeaderCount(file)), stackBase, stackSize)
  }

  lemma {:induction false} ImageHas(file: seq<byte>, gs: seq<Segment>, s: nat, k: nat)
    requires InFile(file, gs) && s < |gs| && k < PageCount(gs[s].memorySize)
    ensures exists i :: 0 <= i < |ImagePages(file, gs)| && ImagePages(file, gs)[i] == SegmentPage(file, gs[s], k)
  {
    var init := gs[..|gs| - 1];
    if s < |init| {
      ImageHas(file, init, s, k);
      var i :| 0 <= i < |ImagePages(file, init)| && ImagePages(file, init)[i] == SegmentPage(file, init[s], k);
      assert ImagePages(file, gs)[i] == SegmentPage(file, gs[s], k);
    } else {
      assert ImagePages(file, gs)[|ImagePages(file, init)| + k] == SegmentPage(file, gs[s], k);
    }
  }

  /** The page the program starts in is one of its executable pages. */
  lemma EntryInPlan(file: seq<byte>, stackBase: nat, stackSize: nat)
    requires Acceptable(file, stackBase, stackSize)
    ensures var ps := ProgramPlan(file, stackBase, stackSize);
      exists i :: 0 <= i < |ps| && ps[i].address == EntryPoint(file) / PAGE * PAGE && ps[i].executable && !ps[i].writable
  {
    var gs, entry := Loads(file, HeaderCount(file)), EntryPoint(file);
    AcceptedImage(file, stackBase, stackSize, 0);
    var s :| 0 <= s < |gs| && EntersAt(gs[s], entry);
    LoadsOk(file, HeaderCount(file), s, stackBase, stackSize);
    var k := (entry - gs[s].address) / PAGE;
    EntryPage(gs[s], entry);
    ImageHas(file, gs, s, k);
    var i :| 0 <= i < |ImagePages(file, gs)| && ImagePages(file, gs)[i] == SegmentPage(file, gs[s], k);
    assert ProgramPlan(file, stackBase, stackSize)[i] == SegmentPage(file, gs[s], k);
  }

  lemma EntryPage(g: Segment, entry: nat)
    requires g.address % PAGE == 0 && g.address <= entry < g.address + g.memorySize
    ensures var k := (entry - g.address) / PAGE;
      k < PageCount(g.memorySize) && g.address + k * PAGE == entry / PAGE * PAGE
  {}
}
