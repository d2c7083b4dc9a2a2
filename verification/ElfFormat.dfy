/**
 The executable format byte by byte, and which files the validator accepts: those that carry the
 fields of a header and of program headers that make a program, wherever the table lies.
 */
module ElfFormat {
  import opened Machine
  import opened ElfSpec

  /** A program header: its type, its alignment and the segment it describes. */
  datatype Header = Header(kind: nat, align: nat, segment: Segment)

  function Power(n: nat): (p: nat)
    ensures 0 < p
  {
    if n == 0 then 1 else 256 * Power(n - 1)
  }

  /** A number as `n` bytes, least significant first. */
  function Number(v: nat, n: nat): (b: seq<byte>)
    ensures |b| == n
  {
    if n == 0 then [] else [v % 256] + Number(v / 256, n - 1)
  }

  /** The `n` bytes of the file at `at` are those of `v`. */
  predicate Field(file: seq<byte>, at: nat, n: nat, v: nat) {
    at + n <= |file| && v < Power(n) && file[at..at + n] == Number(v, n)
  }

  lemma {:induction false} FieldIff(file: seq<byte>, at: nat, n: nat, v: nat)
    requires at + n <= |file|
    ensures Field(file, at, n, v) <==> Little(file, at, n) == v
    decreases n
  {
    if 0 < n {
      FieldIff(file, at + 1, n - 1, v / 256);
      FieldStep(file, at, n, v);
      hide Field;
    }
  }

  lemma FieldStep(file: seq<byte>, at: nat, n: nat, v: nat)
    requires 0 < n && at + n <= |file|
    ensures Field(file, at, n, v) <==> file[at] as nat == v % 256 && Field(file, at + 1, n - 1, v / 256)
  {
    var part, b := file[at..at + n], Number(v, n);
    assert part == [file[at]] + file[at + 1..at + n];
    assert file[at + 1..at + n] == file[at + 1..at + 1 + (n - 1)];
    assert b == [v % 256] + Number(v / 256, n - 1);
    assert part == b <==> part[0] == b[0] && part[1..] == b[1..] by {
      assert part == [part[0]] + part[1..] && b == [b[0]] + b[1..];
    }
    assert v < Power(n) <==> v / 256 < Power(n - 1);
  }

  /** The program header at `at`; the physical address in it does not matter. */
  ghost predicate Describes(file: seq<byte>, at: nat, h: Header) {
    && Field(file, at, 4, h.kind) && Field(file, at + 4, 4, h.segment.flags)
    && Field(file, at + 8, 8, h.segment.fileOffset) && Field(file, at + 16, 8, h.segment.address)
    && Field(file, at + 32, 8, h.segment.fileSize) && Field(file, at + 40, 8, h.segment.memorySize)
    && Field(file, at + 48, 8, h.align)
  }

  /** A 64-bit little-endian executable (2) for x86-64 (62) with entry point `entry` and program headers `hs` at `at`. */
  ghost predicate Carries(file: seq<byte>, entry: nat, at: nat, hs: seq<Header>) {
    && 64 <= |file| && file[..7] == [0x7f, 0x45, 0x4c, 0x46, 2, 1, 1]
    && Field(file, 16, 2, 2) && Field(file, 18, 2, 62) && Field(file, 20, 4, 1)
    && Field(file, 24, 8, entry) && Field(file, 32, 8, at)
    && Field(file, 52, 2, 64) && Field(file, 54, 2, 56) && Field(file, 56, 2, |hs|)
    && at + 56 * |hs| <= |file|
    && forall i :: 0 <= i < |hs| ==> Describes(file, at + 56 * i, hs[i])
  }

  lemma Magic(file: seq<byte>)
    requires 7 <= |file|
    ensures file[..7] == [0x7f, 0x45, 0x4c, 0x46, 2, 1, 1]
       <==> && file[0] == 0x7f && file[1] == 69 && file[2] == 76 && file[3] == 70
            && file[4] == 2 && file[5] == 1 && file[6] == 1
  {
    var b := file[..7];
    assert forall k :: 0 <= k < 7 ==> b[k] == file[k];
    if file[0] == 0x7f && file[1] == 69 && file[2] == 76 && file[3] == 70 && file[4] == 2 && file[5] == 1 && file[6] == 1 {
      assert b == [0x7f, 0x45, 0x4c, 0x46, 2, 1, 1];
    }
  }

  lemma FileFields(file: seq<byte>)
    requires 64 <= |file|
    ensures forall v :: Field(file, 24, 8, v) <==> EntryPoint(file) == v
    ensures forall v :: Field(file, 32, 8, v) <==> TableOffset(file) == v
    ensures forall v :: Field(file, 56, 2, v) <==> HeaderCount(file) == v
    ensures HeaderOk(file)
       <==> && |file| <= 65536 && file[..7] == [0x7f, 0x45, 0x4c, 0x46, 2, 1, 1]
            && Field(file, 16, 2, 2) && Field(file, 18, 2, 62) && Field(file, 20, 4, 1)
            && Field(file, 52, 2, 64) && Field(file, 54, 2, 56)
            && 1 <= HeaderCount(file) <= 8 && TableOffset(file) + 56 * HeaderCount(file) <= |file|
  {
    hide Field, Little;
    Magic(file);
    FieldIff(file, 16, 2, 2);
    FieldIff(file, 18, 2, 62);
    FieldIff(file, 20, 4, 1);
    FieldIff(file, 52, 2, 64);
    FieldIff(file, 54, 2, 56);
    forall v ensures Field(file, 24, 8, v) <==> EntryPoint(file) == v {
      FieldIff(file, 24, 8, v);
    }
    forall v ensures Field(file, 32, 8, v) <==> TableOffset(file) == v {
      FieldIff(file, 32, 8, v);
    }
    forall v ensures Field(file, 56, 2, v) <==> HeaderCount(file) == v {
      FieldIff(file, 56, 2, v);
    }
  }

  /** The header the validator reads as number `i`. */
  function HeaderRead(file: seq<byte>, i: nat): Header
    requires HeaderOk(file) && i < HeaderCount(file)
  {
    Header(TypeAt(file, i), AlignAt(file, i), SegmentAt(file, i))
  }

  /** Where the validator reads the fields of header `i`. */
  lemma HeaderFieldsAt(file: seq<byte>, i: nat)
    requires HeaderOk(file) && i < HeaderCount(file)
    ensures 64 <= |file| && HeaderAt(file, i) == TableOffset(file) + 56 * i && HeaderAt(file, i) + 56 <= |file|
    ensures var at := HeaderAt(file, i);
      && TypeAt(file, i) == Little(file, at, 4) && AlignAt(file, i) == Little(file, at + 48, 8)
      && SegmentAt(file, i)
         == Segment(Little(file, at + 8, 8), Little(file, at + 16, 8), Little(file, at + 32, 8), Little(file, at + 40, 8),
                    Little(file, at + 4, 4))
  {
    hide Little, TableOffset, HeaderCount;
  }

  lemma DescribesIff(file: seq<byte>, i: nat, h: Header)
    requires HeaderOk(file) && i < HeaderCount(file)
    ensures Describes(file, TableOffset(file) + 56 * i, h) <==> HeaderRead(file, i) == h
  {
    hide Field, Little, HeaderOk, TableOffset, HeaderCount, HeaderAt, TypeAt, AlignAt, SegmentAt;
    HeaderFieldsAt(file, i);
    var at := HeaderAt(file, i);
    FieldIff(file, at, 4, h.kind);
    FieldIff(file, at + 4, 4, h.segment.flags);
    FieldIff(file, at + 8, 8, h.segment.fileOffset);
    FieldIff(file, at + 16, 8, h.segment.address);
    FieldIff(file, at + 32, 8, h.segment.fileSize);
    FieldIff(file, at + 40, 8, h.segment.memorySize);
    FieldIff(file, at + 48, 8, h.align);
  }

  /** What the validator reads is what the file carries, and nothing else. */
  lemma CarriesIff(file: seq<byte>, entry: nat, at: nat, hs: seq<Header>)
    ensures Carries(file, entry, at, hs) && 1 <= |hs| <= 8 && |file| <= 65536
       <==> && HeaderOk(file) && EntryPoint(file) == entry && TableOffset(file) == at && HeaderCount(file) == |hs|
            && forall i :: 0 <= i < |hs| ==> HeaderRead(file, i) == hs[i]
  {
    hide Field, HeaderOk, Describes, EntryPoint, TableOffset, HeaderCount, HeaderRead;
    if 64 <= |file| {
      FieldsIff(file, entry, at, |hs|);
      if HeaderOk(file) && HeaderCount(file) == |hs| && TableOffset(file) == at {
        forall i | 0 <= i < |hs| ensures Describes(file, at + 56 * i, hs[i]) <==> HeaderRead(file, i) == hs[i] {
          DescribesIff(file, i, hs[i]);
        }
      }
    } else {
      TooShort(file);
    }
  }

  lemma TooShort(file: seq<byte>)
    ensures HeaderOk(file) ==> 64 <= |file|
  {}

  /** The header of the file, apart from the program headers. */
  lemma FieldsIff(file: seq<byte>, entry: nat, at: nat, count: nat)
    requires 64 <= |file|
    ensures HeaderOk(file) && EntryPoint(file) == entry && TableOffset(file) == at && HeaderCount(file) == count
       <==> && 1 <= count <= 8 && |file| <= 65536 && file[..7] == [0x7f, 0x45, 0x4c, 0x46, 2, 1, 1]
            && Field(file, 16, 2, 2) && Field(file, 18, 2, 62) && Field(file, 20, 4, 1)
            && Field(file, 24, 8, entry) && Field(file, 32, 8, at)
            && Field(file, 52, 2, 64) && Field(file, 54, 2, 56) && Field(file, 56, 2, count)
            && at + 56 * count <= |file|
  {
    hide Field, HeaderOk, EntryPoint, TableOffset, HeaderCount;
    FileFields(file);
  }

  // --------------------------------------------------------------- acceptance

  /** The segments to load: those of the headers of type 1. */
  function Loaded(hs: seq<Header>): seq<Segment> {
    if hs == [] then []
    else Loaded(hs[..|hs| - 1]) + if hs[|hs| - 1].kind == 1 then [hs[|hs| - 1].segment] else []
  }

  /** The 4096-byte pages of a segment. */
  function PagesOf(g: Segment): nat {
    (g.memorySize + 4095) / 4096
  }

  function AllPages(gs: seq<Segment>): nat {
    if gs == [] then 0 else AllPages(gs[..|gs| - 1]) + PagesOf(gs[|gs| - 1])
  }

  /** The pages of two segments do not meet. */
  predicate Clear(a: Segment, b: Segment) {
    a.address + PagesOf(a) * 4096 <= b.address || b.address + PagesOf(b) * 4096 <= a.address
  }

  /**
   A segment to load: page-aligned, in the file, in the lower half of the address space, clear of
   the stack and its guard page, and readable (4), executable (5) or writable (6), not both.
   */
  predicate LoadOk(h: Header, size: nat, stack: nat, stackSize: nat) {
    var g := h.segment;
    && h.align == 4096 && g.address % 4096 == 0 && g.fileOffset % 4096 == 0
    && 0 < g.memorySize && g.fileSize <= g.memorySize && g.fileOffset + g.fileSize <= size
    && g.flags in {4, 5, 6} && g.address + g.memorySize <= 0x8000_0000_0000 && PagesOf(g) <= 16
    && (g.address + PagesOf(g) * 4096 <= stack - 4096 || stack + stackSize <= g.address)
  }

  ghost predicate Program(hs: seq<Header>, entry: nat, size: nat, stack: nat, stackSize: nat) {
    && 1 <= |hs| <= 8 && size <= 65536
    && 4096 <= stack && stack % 4096 == 0 && (stackSize == 4096 || stackSize == 8192) && stack + stackSize <= 0x8000_0000_0000
    && HeadersGood(hs, size, stack, stackSize)
    && |Loaded(hs)| <= 4 && AllPages(Loaded(hs)) <= 16 && AllClear(Loaded(hs)) && EntersAny(Loaded(hs), entry)
  }

  lemma {:induction false} LoadsAreLoaded(file: seq<byte>, hs: seq<Header>, n: nat)
    requires HeaderOk(file) && HeaderCount(file) == |hs| && n <= |hs|
    requires forall i :: 0 <= i < |hs| ==> HeaderRead(file, i) == hs[i]
    ensures Loads(file, n) == Loaded(hs[..n])
    decreases n
  {
    hide HeaderOk, TypeAt, SegmentAt, AlignAt, TableOffset, HeaderCount;
    if 0 < n {
      LoadsAreLoaded(file, hs, n - 1);
      assert hs[..n][..n - 1] == hs[..n - 1];
      assert HeaderRead(file, n - 1) == hs[n - 1];
    }
  }

  lemma {:induction false} PagesAgree(gs: seq<Segment>)
    ensures TotalPages(gs) == AllPages(gs)
  {
    if gs != [] {
      PagesAgree(gs[..|gs| - 1]);
    }
  }

  lemma FlagsAre(g: Segment)
    requires g.flags <= 7
    ensures Readable(g) && !(Writable(g) && Executable(g)) <==> g.flags in {4, 5, 6}
    ensures Readable(g) && Executable(g) && !Writable(g) <==> g.flags == 5
  {}

  lemma LoadOkIs(h: Header, size: nat, stack: nat, stackSize: nat)
    requires 4096 <= stack && 0 < stackSize
    ensures SegmentOk(h.segment, h.align, size, stack, stackSize) <==> LoadOk(h, size, stack, stackSize)
  {
    var g := h.segment;
    if g.flags <= 7 {
      FlagsAre(g);
    }
    assert PageCount(g.memorySize) == PagesOf(g);
    assert 0 < g.memorySize ==> 0 < PagesOf(g);
    hide Readable, Writable, Executable;
  }

  lemma StackIs(stack: nat, stackSize: nat)
    ensures StackOk(stack, stackSize)
       <==> 4096 <= stack && stack % 4096 == 0 && (stackSize == 4096 || stackSize == 8192) && stack + stackSize <= 0x8000_0000_0000
  {}

  ghost predicate AllClear(gs: seq<Segment>) {
    forall j, k :: 0 <= j < k < |gs| ==> Clear(gs[j], gs[k])
  }

  lemma ApartIs(gs: seq<Segment>)
    requires forall k :: 0 <= k < |gs| ==> 0 < gs[k].memorySize
    ensures PagesApart(gs) <==> AllClear(gs)
  {
    forall j, k | 0 <= j < k < |gs|
      ensures !Overlaps(gs[k].address, PageEnd(gs[k]), gs[j].address, PageEnd(gs[j])) <==> Clear(gs[j], gs[k])
    {
      assert 0 < PagesOf(gs[j]) && 0 < PagesOf(gs[k]);
    }
    hide Overlaps, Clear, PageEnd;
  }

  lemma {:induction false} LoadedFrom(hs: seq<Header>, k: nat)
    requires k < |Loaded(hs)|
    ensures exists i :: 0 <= i < |hs| && hs[i].kind == 1 && hs[i].segment == Loaded(hs)[k]
  {
    var init := hs[..|hs| - 1];
    if k < |Loaded(init)| {
      LoadedFrom(init, k);
      var i :| 0 <= i < |init| && init[i].kind == 1 && init[i].segment == Loaded(init)[k];
      assert hs[i] == init[i];
    }
  }

  ghost predicate EntersAny(gs: seq<Segment>, entry: nat) {
    exists k :: 0 <= k < |gs| && gs[k].flags == 5 && gs[k].address <= entry < gs[k].address + gs[k].memorySize
  }

  lemma EntersIs(gs: seq<Segment>, entry: nat)
    requires forall k :: 0 <= k < |gs| ==> gs[k].flags in {4, 5, 6}
    ensures Enters(gs, entry) <==> EntersAny(gs, entry)
  {
    forall k | 0 <= k < |gs|
      ensures EntersAt(gs[k], entry) <==> gs[k].flags == 5 && gs[k].address <= entry < gs[k].address + gs[k].memorySize
    {
      FlagsAre(gs[k]);
    }
    hide EntersAt;
  }

  /** The headers are in order. */
  ghost predicate HeadersGood(hs: seq<Header>, size: nat, stack: nat, stackSize: nat) {
    && (forall i :: 0 <= i < |hs| ==> hs[i].kind != 2 && hs[i].kind != 3)
    && forall i :: 0 <= i < |hs| && hs[i].kind == 1 ==> LoadOk(hs[i], size, stack, stackSize)
  }

  lemma GoodLoaded(hs: seq<Header>, size: nat, stack: nat, stackSize: nat)
    requires HeadersGood(hs, size, stack, stackSize)
    ensures forall k :: 0 <= k < |Loaded(hs)| ==> 0 < Loaded(hs)[k].memorySize && Loaded(hs)[k].flags in {4, 5, 6}
  {
    forall k | 0 <= k < |Loaded(hs)| ensures 0 < Loaded(hs)[k].memorySize && Loaded(hs)[k].flags in {4, 5, 6} {
      LoadedFrom(hs, k);
      var i :| 0 <= i < |hs| && hs[i].kind == 1 && hs[i].segment == Loaded(hs)[k];
      assert LoadOk(hs[i], size, stack, stackSize);
    }
    hide Loaded;
  }

  lemma HeadersOkIs(file: seq<byte>, hs: seq<Header>, stack: nat, stackSize: nat)
    requires HeaderOk(file) && HeaderCount(file) == |hs| && 4096 <= stack && 0 < stackSize
    requires forall i :: 0 <= i < |hs| ==> HeaderRead(file, i) == hs[i]
    ensures Loads(file, |hs|) == Loaded(hs)
    ensures HeadersOk(file, |hs|, stack, stackSize)
       <==> && HeadersGood(hs, |file|, stack, stackSize) && |Loaded(hs)| <= 4 && AllPages(Loaded(hs)) <= 16
            && PagesApart(Loaded(hs))
  {
    hide HeaderOk, TypeAt, SegmentAt, AlignAt, SegmentOk, LoadOk, PagesApart, Loaded, Loads, TotalPages, AllPages;
    hide TableOffset, HeaderCount;
    LoadsAreLoaded(file, hs, |hs|);
    assert hs[..|hs|] == hs;
    PagesAgree(Loaded(hs));
    forall i | 0 <= i < |hs|
      ensures TypeAt(file, i) == hs[i].kind
      ensures SegmentOk(SegmentAt(file, i), AlignAt(file, i), |file|, stack, stackSize) <==> LoadOk(hs[i], |file|, stack, stackSize)
    {
      assert HeaderRead(file, i) == hs[i];
      LoadOkIs(hs[i], |file|, stack, stackSize);
    }
  }

  /** A file whose headers can be read is accepted exactly when they make a program. */
  lemma ReadIsAccepted(file: seq<byte>, hs: seq<Header>, stack: nat, stackSize: nat)
    requires HeaderOk(file) && HeaderCount(file) == |hs| && EHDR_SIZE <= |file| <= 65536 && 1 <= |hs| <= 8
    requires forall i :: 0 <= i < |hs| ==> HeaderRead(file, i) == hs[i]
    ensures Acceptable(file, stack, stackSize) <==> Program(hs, EntryPoint(file), |file|, stack, stackSize)
    ensures Acceptable(file, stack, stackSize) ==> Loads(file, |hs|) == Loaded(hs)
  {
    hide HeaderOk, HeadersOk, StackOk, PagesApart, Enters, Loaded, Loads, LoadOk, AllPages, Clear, HeaderRead, HeadersGood;
    hide EntryPoint, HeaderCount, TableOffset, AllClear, EntersAny;
    StackIs(stack, stackSize);
    if StackOk(stack, stackSize) {
      HeadersOkIs(file, hs, stack, stackSize);
      if HeadersGood(hs, |file|, stack, stackSize) {
        GoodLoaded(hs, |file|, stack, stackSize);
        ApartIs(Loaded(hs));
        EntersIs(Loaded(hs), EntryPoint(file));
      }
    }
  }

  ghost predicate IsProgram(file: seq<byte>, entry: nat, at: nat, hs: seq<Header>, stack: nat, stackSize: nat) {
    Carries(file, entry, at, hs) && Program(hs, entry, |file|, stack, stackSize)
  }

  /**
   The validator accepts a file exactly when it carries a program, and then the entry point and the
   segments to load are the program's.
   */
  lemma AcceptedExactly(file: seq<byte>, stack: nat, stackSize: nat)
    ensures Acceptable(file, stack, stackSize) <==> exists entry, at, hs :: IsProgram(file, entry, at, hs, stack, stackSize)
    ensures forall entry, at, hs :: IsProgram(file, entry, at, hs, stack, stackSize) ==>
      64 <= |file| && EntryPoint(file) == entry && HeaderOk(file) && HeaderCount(file) == |hs| && Loads(file, |hs|) == Loaded(hs)
  {
    HeaderNeeded(file, stack, stackSize);
    hide Acceptable, Carries, Program, HeaderOk, EntryPoint, TableOffset, HeaderCount, HeaderRead, Loads, Loaded;
    forall entry, at, hs | IsProgram(file, entry, at, hs, stack, stackSize)
      ensures Acceptable(file, stack, stackSize) && 64 <= |file| && EntryPoint(file) == entry
      ensures HeaderOk(file) && HeaderCount(file) == |hs| && Loads(file, |hs|) == Loaded(hs)
    {
      ProgramSize(hs, entry, |file|, stack, stackSize);
      CarriesIff(file, entry, at, hs);
      HeaderSize(file);
      ReadIsAccepted(file, hs, stack, stackSize);
    }
    if Acceptable(file, stack, stackSize) {
      HeaderSize(file);
      var hs := seq(HeaderCount(file), i requires 0 <= i < HeaderCount(file) => HeaderRead(file, i));
      CarriesIff(file, EntryPoint(file), TableOffset(file), hs);
      ReadIsAccepted(file, hs, stack, stackSize);
      assert IsProgram(file, EntryPoint(file), TableOffset(file), hs, stack, stackSize);
    }
  }

  lemma HeaderNeeded(file: seq<byte>, stack: nat, stackSize: nat)
    ensures Acceptable(file, stack, stackSize) ==> HeaderOk(file)
  {}

  lemma HeaderSize(file: seq<byte>)
    requires HeaderOk(file)
    ensures 64 <= |file| <= 65536 && EHDR_SIZE == 64 && 1 <= HeaderCount(file) <= 8
  {}

  lemma ProgramSize(hs: seq<Header>, entry: nat, size: nat, stack: nat, stackSize: nat)
    requires Program(hs, entry, size, stack, stackSize)
    ensures 1 <= |hs| <= 8 && size <= 65536
  {}
}
