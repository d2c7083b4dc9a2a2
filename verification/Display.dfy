/**
 The user's framebuffer as the kernel drives it: one owner, pixels copied through a scratch
 page and stored byte by byte. Tied to DisplaySpec.
 */
module Display {
  import opened Machine
  import opened DisplaySpec

  const CHUNK_BYTES: nat := 4096
  const CHUNK_PIXELS: nat := 1024

  datatype Result = Ok | Invalid | Unavailable | Busy | AccessDenied | Internal

  datatype Counts = Counts(presents: nat, fullPresents: nat, regionPresents: nat, pixels: nat)

  function Saturated(n: nat, more: nat): nat {
    if n + more < U64_LIMIT then n + more else U64_LIMIT - 1
  }

  /** The counters after one more present of `count` pixels. */
  function Counted(c: Counts, count: nat, region: bool): Counts {
    Counts(Saturated(c.presents, 1),
           Saturated(c.fullPresents, if region then 0 else 1),
           Saturated(c.regionPresents, if region then 1 else 0),
           Saturated(c.pixels, count))
  }

  /** How many pieces of at most `part` make up `whole`. */
  function Parts(whole: nat, part: nat): nat
    requires 0 < part
  {
    (whole + part - 1) / part
  }

  /** `done` pieces reach up to `at`. */
  predicate Within(whole: nat, part: nat, done: nat, at: nat) {
    at <= whole && done * part < whole + part && at == if done * part < whole then done * part else whole
  }

  lemma PartsBegin(whole: nat, part: nat)
    requires 0 < part
    ensures Within(whole, part, 0, 0)
  {}

  lemma DoneBelow(whole: nat, part: nat, done: nat)
    requires 0 < part && done * part < whole
    ensures done < Parts(whole, part)
  {
    var a := whole + part - 1;
    var n := a / part;
    assert a == part * n + a % part;
    if n <= done {
      Ordered(n, done, part);
    }
  }

  lemma PartsNext(whole: nat, part: nat, done: nat, at: nat, next: nat)
    requires 0 < part && Within(whole, part, done, at) && at < whole
    requires next == if whole - at > part then part else whole - at
    ensures at == done * part && done < Parts(whole, part) && Within(whole, part, done + 1, at + next)
  {
    assert (done + 1) * part == done * part + part;
    DoneBelow(whole, part, done);
  }

  lemma PartsEnd(whole: nat, part: nat, done: nat, at: nat)
    requires 0 < part && Within(whole, part, done, at) && at == whole
    ensures done == Parts(whole, part)
  {
    DivModUnique(whole + part - 1, part, done, whole + part - 1 - done * part);
  }

  /** How many scratch pages a rectangle takes, row by row. */
  function Copies(r: Rect): nat {
    r.height * Parts(r.width, CHUNK_PIXELS)
  }

  /** `g` is `f` with the pixels of `area` showing `buffer`. */
  ghost predicate Shows(s: Surface, f: seq<byte>, g: seq<byte>, buffer: seq<byte>, area: Area) {
    SurfaceOk(s) && |f| == s.byteSize && |buffer| == BufferSize(s) && g == Painted(s, f, buffer, area)
  }

  /** What a rectangle's present has shown once `copies` scratch pages were copied. */
  function ShownOf(r: Rect, copies: nat): Area
    requires r.width != 0
  {
    var each := Parts(r.width, CHUNK_PIXELS);
    assert 0 < each;
    Rows(r.x, r.y, r.width, copies / each, copies % each * CHUNK_PIXELS)
  }

  lemma CopiesIs(r: Rect)
    ensures Copies(r) == r.height * Parts(r.width, CHUNK_PIXELS)
  {}

  /** The row at which the copies run out. */
  lemma RowsLeft(r: Rect, copies: nat, row: nat, left: nat)
    requires 0 < r.width && row < r.height && left + row * Parts(r.width, CHUNK_PIXELS) == copies
    ensures (row + 1) * Parts(r.width, CHUNK_PIXELS) == row * Parts(r.width, CHUNK_PIXELS) + Parts(r.width, CHUNK_PIXELS)
    ensures left < Parts(r.width, CHUNK_PIXELS) ==>
              && copies < Copies(r)
              && ShownOf(r, copies) == Rows(r.x, r.y, r.width, row, left * CHUNK_PIXELS)
  {
    var each := Parts(r.width, CHUNK_PIXELS);
    Ordered(row + 1, r.height, each);
    if left < each {
      DivMod(row, each, left);
    }
  }

  class Screen {
    const surface: Surface
    const memory: array<byte>
    const scratch: array<byte>
    var claimed: bool
    var owner: nat
    var presents: nat
    var fullPresents: nat
    var regionPresents: nat
    var pixels: nat

    ghost predicate Valid()
      reads this
    {
      && memory.Length == surface.byteSize && scratch.Length == CHUNK_BYTES && memory != scratch
      && (claimed ==> owner != 0 && ScanoutOk(surface))
      && presents < U64_LIMIT && fullPresents < U64_LIMIT && regionPresents < U64_LIMIT && pixels < U64_LIMIT
    }

    lemma ValidIs()
      requires Valid()
      ensures memory.Length == surface.byteSize && scratch.Length == CHUNK_BYTES && memory != scratch
    {}

    constructor (surface: Surface)
      ensures Valid() && !claimed && this.surface == surface && fresh(memory) && fresh(scratch)
    {
      this.surface := surface;
      memory := new byte[surface.byteSize](i => 0);
      scratch := new byte[CHUNK_BYTES](i => 0);
      claimed, owner, presents, fullPresents, regionPresents, pixels := false, 0, 0, 0, 0, 0;
    }

    // ------------------------------------------------------------------- pixels

    /** boring_graphics_store_pixel. */
    method StorePixel(x: nat, y: nat, color: nat)
      requires Valid() && SurfaceOk(surface) && x < surface.width && y < surface.height
      modifies memory
      ensures StoredPixel(surface, old(memory[..]), memory[..], x, y, color)
    {
      hide PixelX, PixelY, PixelPart, PixelByte, Pow2;
      var offset := y * surface.pitch + x * surface.bytesPerPixel;
      OwnRange(surface, x, y);
      var k := 0;
      while k < surface.bytesPerPixel
        invariant k <= surface.bytesPerPixel
        invariant forall i :: 0 <= i < memory.Length ==>
                    memory[i] == if offset <= i < offset + k then ColorByte(color, i - offset) else old(memory[i])
      {
        memory[offset + k] := ColorByte(color, k);
        k := k + 1;
      }
    }

    /** boring_graphics_put_pixel. */
    method PutPixel(x: nat, y: nat, color: nat) returns (ok: bool)
      requires Valid()
      modifies memory
      ensures ok <==> SurfaceOk(surface) && x < surface.width && y < surface.height
      ensures ok ==> StoredPixel(surface, old(memory[..]), memory[..], x, y, color)
      ensures !ok ==> memory[..] == old(memory[..])
    {
      if !SurfaceOk(surface) || surface.width <= x || surface.height <= y {
        return false;
      }
      StorePixel(x, y, color);
      return true;
    }

    /** user_buffer_copy_out into the scratch page; `grants` is how many more copies will succeed. */
    method CopyOut(buffer: seq<byte>, from: nat, length: nat, grants: nat) returns (ok: bool, left: nat)
      requires Valid() && from + length <= |buffer| && length <= CHUNK_BYTES
      modifies scratch
      ensures ok == (0 < grants) && (ok ==> left == grants - 1 && scratch[..length] == buffer[from..from + length])
    {
      if grants == 0 {
        return false, 0;
      }
      for i := 0 to length
        invariant forall j :: 0 <= j < i ==> scratch[j] == buffer[from + j]
      {
        scratch[i] := buffer[from + i];
      }
      return true, grants - 1;
    }

    // ------------------------------------------------------------- full present

    /** present_chunk: the pixels in the scratch page go to their places on the screen. */
    method PresentChunk(from: nat, length: nat, ghost f: seq<byte>, ghost buffer: seq<byte>) returns (ok: bool)
      requires Valid() && SurfaceOk(surface) && |f| == surface.byteSize && |buffer| == BufferSize(surface)
      requires from % 4 == 0 == length % 4 && from + length <= |buffer| && length <= CHUNK_BYTES
      requires scratch[..length] == buffer[from..from + length]
      requires memory[..] == Painted(surface, f, buffer, First(from / 4))
      modifies memory
      ensures ok && memory[..] == Painted(surface, f, buffer, First((from + length) / 4))
    {
      hide *;
      ValidIs();
      SurfaceIs(surface);
      ok := true;
      var index := 0;
      ghost var first: nat, count: nat, k: nat := from / 4, length / 4, 0;
      Quarters(from, length);
      while index < length
        invariant ok && index == 4 * k && k <= count && length == 4 * count && from == 4 * first
        invariant memory[..] == Painted(surface, f, buffer, First(first + k))
        invariant scratch[..length] == buffer[from..from + length]
      {
        var pixel := (from + index) / 4;
        QuarterOf(from, index, first, k);
        PixelAt(surface, buffer, pixel);
        var x, y := pixel % surface.width, pixel / surface.width;
        ScratchPixel(scratch[..], buffer, from, length, index);
        var color := Pack(surface, scratch[index + 2], scratch[index + 1], scratch[index]);
        ok := PutPixel(x, y, color);
        if !ok {
          return;
        }
        NextPixel(surface, f, buffer, pixel, x, y, memory[..]);
        index := index + 4;
        k := k + 1;
      }
    }

    /** boring_framebuffer_user_present; `grants` is how many copies out of the user's buffer succeed. */
    method Present(pid: nat, alive: bool, buffer: Option<seq<byte>>, grants: nat) returns (result: Result)
      requires Valid()
      modifies memory, scratch, this`presents, this`fullPresents, this`regionPresents, this`pixels
      ensures Valid()
      ensures result == if !alive || !claimed || owner != pid then AccessDenied
                        else if buffer.None? || |buffer.value| != BufferSize(surface) then Invalid
                        else if grants < Parts(|buffer.value|, CHUNK_BYTES) then Internal else Ok
      ensures result == Ok ==> SurfaceOk(surface) && memory[..] == Full(surface, old(memory[..]), buffer.value)
      ensures result == Internal ==>
        Shows(surface, old(memory[..]), memory[..], buffer.value, First(grants * CHUNK_PIXELS))
      ensures result != Ok && result != Internal ==> memory[..] == old(memory[..])
      ensures Counters() == if result == Ok then Counted(old(Counters()), surface.width * surface.height, false)
                            else old(Counters())
    {
      if !alive || !claimed || owner != pid {
        return AccessDenied;
      }
      var available := ScanoutOk(surface);
      if !available {
        return Unavailable;
      }
      if buffer.None? || |buffer.value| != BufferSize(surface) {
        return Invalid;
      }
      var shown := PresentAll(buffer.value, grants);
      if !shown {
        return Internal;
      }
      Account(surface.width * surface.height, false);
      return Ok;
    }

    method PresentAll(buffer: seq<byte>, grants: nat) returns (ok: bool)
      requires Valid() && SurfaceOk(surface) && |buffer| == BufferSize(surface)
      modifies memory, scratch
      ensures ok <==> Parts(|buffer|, CHUNK_BYTES) <= grants
      ensures ok ==> memory[..] == Full(surface, old(memory[..]), buffer)
      ensures !ok ==> memory[..] == Painted(surface, old(memory[..]), buffer, First(grants * CHUNK_PIXELS))
    {
      hide *;
      ValidIs();
      ghost var f := memory[..];
      NothingPainted(surface, f, buffer);
      FullIs(surface, f, buffer);
      SurfaceIs(surface);
      Sizes();
      var offset: nat, left: nat := 0, grants;
      ghost var done: nat := 0;
      PartsBegin(|buffer|, CHUNK_BYTES);
      while offset < |buffer|
        invariant offset <= |buffer| && offset % 4 == 0 && left + done == grants
        invariant Within(|buffer|, CHUNK_BYTES, done, offset)
        invariant memory[..] == Painted(surface, f, buffer, First(offset / 4))
      {
        var remaining := |buffer| - offset;
        var chunk := if remaining > CHUNK_BYTES then CHUNK_BYTES else remaining;
        ChunkFits(|buffer|, offset, chunk);
        PartsNext(|buffer|, CHUNK_BYTES, done, offset, chunk);
        ChunkPixels(done);
        ok, left := CopyOut(buffer, offset, chunk, left);
        if !ok {
          return;
        }
        ok := PresentChunk(offset, chunk, f, buffer);
        if !ok {
          return;
        }
        offset, done := offset + chunk, done + 1;
      }
      PartsEnd(|buffer|, CHUNK_BYTES, done, offset);
      return true;
    }

    // ----------------------------------------------------------- region present

    /** present_region_row: row `y` of a rectangle, a scratch page at a time. */
    method PresentRegionRow(r: Rect, y: nat, ghost f: seq<byte>, buffer: seq<byte>, grants: nat) returns (ok: bool, left: nat)
      requires Valid() && SurfaceOk(surface) && RectOk(surface, r) && r.y <= y < r.y + r.height
      requires |f| == surface.byteSize && |buffer| == BufferSize(surface)
      requires memory[..] == Painted(surface, f, buffer, Rows(r.x, r.y, r.width, y - r.y, 0))
      modifies memory, scratch
      ensures ok <==> Parts(r.width, CHUNK_PIXELS) <= grants
      ensures ok ==> left == grants - Parts(r.width, CHUNK_PIXELS)
      ensures memory[..]
           == Painted(surface, f, buffer, Rows(r.x, r.y, r.width, y - r.y, if ok then r.width else grants * CHUNK_PIXELS))
    {
      hide *;
      Sizes();
      ValidIs();
      RectIs(surface, r);
      var completed := 0;
      left := grants;
      ghost var done: nat := 0;
      PartsBegin(r.width, CHUNK_PIXELS);
      while completed < r.width
        invariant completed <= r.width && left + done == grants && Within(r.width, CHUNK_PIXELS, done, completed)
        invariant memory[..] == Painted(surface, f, buffer, Rows(r.x, r.y, r.width, y - r.y, completed))
      {
        var remaining := r.width - completed;
        var chunk := if remaining > CHUNK_PIXELS then CHUNK_PIXELS else remaining;
        RowInBuffer(surface, r.x + completed, y, chunk);
        PartsNext(r.width, CHUNK_PIXELS, done, completed, chunk);
        var offset := BufferOffset(surface, r.x + completed, y);
        ok, left := CopyOut(buffer, offset, chunk * BYTES_PER_PIXEL, left);
        if !ok {
          return;
        }
        ok := PresentPixels(r, y, completed, chunk, offset, f, buffer);
        if !ok {
          return;
        }
        completed, done := completed + chunk, done + 1;
      }
      PartsEnd(r.width, CHUNK_PIXELS, done, completed);
      ok := true;
    }

    method PresentPixels(r: Rect, y: nat, completed: nat, chunk: nat, offset: nat, ghost f: seq<byte>, ghost buffer: seq<byte>)
      returns (ok: bool)
      requires Valid() && SurfaceOk(surface) && RectOk(surface, r) && r.y <= y < r.y + r.height
      requires completed + chunk <= r.width && chunk <= CHUNK_PIXELS
      requires |f| == surface.byteSize && |buffer| == BufferSize(surface)
      requires offset == BufferOffset(surface, r.x + completed, y)
      requires offset + chunk * BYTES_PER_PIXEL <= |buffer|
      requires scratch[..chunk * BYTES_PER_PIXEL] == buffer[offset..offset + chunk * BYTES_PER_PIXEL]
      requires memory[..] == Painted(surface, f, buffer, Rows(r.x, r.y, r.width, y - r.y, completed))
      modifies memory
      ensures ok && memory[..] == Painted(surface, f, buffer, Rows(r.x, r.y, r.width, y - r.y, completed + chunk))
    {
      hide *;
      Sizes();
      ValidIs();
      RectIs(surface, r);
      RowInBuffer(surface, r.x + completed, y, chunk);
      ok := true;
      var pixel := 0;
      while pixel < chunk
        invariant ok && pixel <= chunk
        invariant memory[..] == Painted(surface, f, buffer, Rows(r.x, r.y, r.width, y - r.y, completed + pixel))
        invariant scratch[..chunk * BYTES_PER_PIXEL] == buffer[offset..offset + chunk * BYTES_PER_PIXEL]
      {
        var source := pixel * BYTES_PER_PIXEL;
        var x := r.x + completed + pixel;
        ScratchPixel(scratch[..], buffer, offset, chunk * BYTES_PER_PIXEL, source);
        ColorIs(surface, buffer, x, y);
        var color := Pack(surface, scratch[source + 2], scratch[source + 1], scratch[source]);
        ok := PutPixel(x, y, color);
        if !ok {
          return;
        }
        NextColumn(surface, f, buffer, r, y, completed + pixel, memory[..]);
        pixel := pixel + 1;
      }
    }

    /** boring_framebuffer_user_present_region. */
    method PresentRegion(pid: nat, alive: bool, buffer: Option<seq<byte>>, r: Rect, grants: nat) returns (result: Result)
      requires Valid()
      modifies memory, scratch, this`presents, this`fullPresents, this`regionPresents, this`pixels
      ensures Valid()
      ensures result == if !alive || !claimed || owner != pid then AccessDenied
                        else if !RectOk(surface, r) || buffer.None? || |buffer.value| != BufferSize(surface) then Invalid
                        else if grants < Copies(r) then Internal else Ok
      ensures result == Ok ==> SurfaceOk(surface) && memory[..] == Region(surface, old(memory[..]), buffer.value, r)
      ensures result == Internal ==>
        r.width != 0 && Shows(surface, old(memory[..]), memory[..], buffer.value, ShownOf(r, grants))
      ensures result != Ok && result != Internal ==> memory[..] == old(memory[..])
      ensures Counters() == if result == Ok then Counted(old(Counters()), r.width * r.height, true) else old(Counters())
    {
      if !alive || !claimed || owner != pid {
        return AccessDenied;
      }
      var available := ScanoutOk(surface);
      if !available {
        return Unavailable;
      }
      if !RectOk(surface, r) || buffer.None? || |buffer.value| != BufferSize(surface) {
        return Invalid;
      }
      var shown := PresentRect(buffer.value, r, grants);
      if !shown {
        return Internal;
      }
      Account(r.width * r.height, true);
      return Ok;
    }

    method PresentRect(buffer: seq<byte>, r: Rect, grants: nat) returns (ok: bool)
      requires Valid() && SurfaceOk(surface) && |buffer| == BufferSize(surface) && RectOk(surface, r)
      modifies memory, scratch
      ensures ok <==> Copies(r) <= grants
      ensures ok ==> memory[..] == Region(surface, old(memory[..]), buffer, r)
      ensures !ok ==> memory[..] == Painted(surface, old(memory[..]), buffer, ShownOf(r, grants))
    {
      hide *;
      Sizes();
      ValidIs();
      RectIs(surface, r);
      ghost var f := memory[..];
      NoRows(surface, f, buffer, r);
      var left := grants;
      ok := true;
      ghost var each := Parts(r.width, CHUNK_PIXELS);
      for row := 0 to r.height
        invariant ok && left + row * each == grants
        invariant memory[..] == Painted(surface, f, buffer, Rows(r.x, r.y, r.width, row, 0))
      {
        ghost var before := left;
        ok, left := PresentRegionRow(r, r.y + row, f, buffer, left);
        RowsLeft(r, grants, row, before);
        if !ok {
          return;
        }
        RowDone(surface, f, buffer, r, row);
      }
      RegionIs(surface, f, buffer, r);
      CopiesIs(r);
    }

    // ---------------------------------------------------------------- ownership

    method Claim(pid: nat) returns (result: Result)
      requires Valid()
      modifies this`claimed, this`owner
      ensures Valid()
      ensures result == if pid == 0 then Invalid else if !ScanoutOk(surface) then Unavailable
                        else if !old(claimed) then Ok else if old(owner) == pid then Invalid else Busy
      ensures if result == Ok then claimed && owner == pid else claimed == old(claimed) && owner == old(owner)
    {
      if pid == 0 {
        return Invalid;
      }
      if !ScanoutOk(surface) {
        return Unavailable;
      }
      if claimed {
        return if owner == pid then Invalid else Busy;
      }
      claimed, owner := true, pid;
      return Ok;
    }

    method Release(pid: nat) returns (result: Result)
      requires Valid()
      modifies this`claimed, this`owner
      ensures Valid()
      ensures result == if pid != 0 && old(claimed) && old(owner) == pid then Ok else AccessDenied
      ensures if result == Ok then !claimed && owner == 0 else claimed == old(claimed) && owner == old(owner)
    {
      if pid == 0 || !claimed || owner != pid {
        return AccessDenied;
      }
      claimed, owner := false, 0;
      return Ok;
    }

    function Counters(): Counts
      reads this`presents, this`fullPresents, this`regionPresents, this`pixels
    {
      Counts(presents, fullPresents, regionPresents, pixels)
    }

    /** present_account: the counters stop at the top instead of wrapping. */
    method Account(count: nat, region: bool)
      requires Valid()
      modifies this`presents, this`fullPresents, this`regionPresents, this`pixels
      ensures Valid() && Counters() == Counted(old(Counters()), count, region)
    {
      if presents != U64_LIMIT - 1 {
        presents := presents + 1;
      }
      if region {
        if regionPresents != U64_LIMIT - 1 {
          regionPresents := regionPresents + 1;
        }
      } else if fullPresents != U64_LIMIT - 1 {
        fullPresents := fullPresents + 1;
      }
      if count > U64_LIMIT - 1 - pixels {
        pixels := U64_LIMIT - 1;
      } else {
        pixels := pixels + count;
      }
    }
  }

  /** The bytes of a pixel are the ones from its offset on. */
  lemma OwnRange(s: Surface, x: nat, y: nat)
    requires SurfaceOk(s) && x < s.width && y < s.height
    ensures Offset(s, x, y) + s.bytesPerPixel <= s.byteSize
    ensures forall i {:trigger PixelByte(s, i)} :: 0 <= i < s.byteSize ==>
              (Offset(s, x, y) <= i < Offset(s, x, y) + s.bytesPerPixel
               <==> PixelByte(s, i) && PixelX(s, i) == x && PixelY(s, i) == y)
    ensures forall i {:trigger PixelPart(s, i)} :: Offset(s, x, y) <= i < Offset(s, x, y) + s.bytesPerPixel ==>
              PixelPart(s, i) == i - Offset(s, x, y)
  {
    OwnBytes(s, x, y, s.bytesPerPixel - 1);
    forall i | Offset(s, x, y) <= i < Offset(s, x, y) + s.bytesPerPixel
      ensures PixelByte(s, i) && PixelX(s, i) == x && PixelY(s, i) == y && PixelPart(s, i) == i - Offset(s, x, y)
    {
      OwnBytes(s, x, y, i - Offset(s, x, y));
    }
    forall i | 0 <= i < s.byteSize && PixelByte(s, i) && PixelX(s, i) == x && PixelY(s, i) == y
      ensures Offset(s, x, y) <= i < Offset(s, x, y) + s.bytesPerPixel
    {
      PixelOf(s, i);
    }
  }

  /** Pixel number `n` of a buffer. */
  lemma PixelAt(s: Surface, buffer: seq<byte>, n: nat)
    requires SurfaceOk(s) && |buffer| == BufferSize(s) && 4 * n + 3 < |buffer|
    ensures s.width != 0
    ensures var x, y := n % s.width, n / s.width;
      && x < s.width && y < s.height && y * s.width + x == n
      && PixelColor(s, buffer, x, y) == Pack(s, buffer[4 * n + 2], buffer[4 * n + 1], buffer[4 * n])
  {
    hide Pack;
    BufferPixels(s);
    DivBound(n, s.height, s.width);
    ColorIs(s, buffer, n % s.width, n / s.width);
  }

  lemma BufferPixels(s: Surface)
    ensures BufferSize(s) == 4 * (s.height * s.width) && s.height * s.width == s.width * s.height
  {}

  lemma Sizes()
    ensures BYTES_PER_PIXEL == 4 && CHUNK_BYTES == 4096 && CHUNK_PIXELS == 1024
  {}

  lemma RectIs(s: Surface, r: Rect)
    requires RectOk(s, r)
    ensures 0 < r.width && r.x + r.width <= s.width && r.y + r.height <= s.height
  {}

  lemma SurfaceIs(s: Surface)
    requires SurfaceOk(s)
    ensures 0 < s.width && BYTES_PER_PIXEL == 4
  {}

  lemma Quarters(a: nat, b: nat)
    requires a % 4 == 0 == b % 4
    ensures a == 4 * (a / 4) && b == 4 * (b / 4) && (a + b) % 4 == 0 && (a + b) / 4 == a / 4 + b / 4
  {}

  lemma QuarterOf(a: nat, b: nat, m: nat, n: nat)
    requires a == 4 * m && b == 4 * n
    ensures (a + b) / 4 == m + n
  {}

  /** Chunks are whole pixels and never more than a scratch page. */
  lemma ChunkFits(size: nat, offset: nat, chunk: nat)
    requires size % 4 == 0 == offset % 4 && offset < size
    requires chunk == if size - offset > CHUNK_BYTES then CHUNK_BYTES else size - offset
    ensures chunk % 4 == 0 && 0 < chunk <= CHUNK_BYTES && offset + chunk <= size && (offset + chunk) % 4 == 0
  {}

  lemma ChunkPixels(n: nat)
    ensures n * CHUNK_BYTES / 4 == n * CHUNK_PIXELS
  {}

  lemma FullIs(s: Surface, f: seq<byte>, buffer: seq<byte>)
    requires SurfaceOk(s) && |f| == s.byteSize && |buffer| == BufferSize(s)
    ensures |buffer| % 4 == 0 && Full(s, f, buffer) == Painted(s, f, buffer, First(|buffer| / 4))
  {
    BufferPixels(s);
    hide Painted, BufferSize;
  }

  lemma RegionIs(s: Surface, f: seq<byte>, buffer: seq<byte>, r: Rect)
    requires SurfaceOk(s) && |f| == s.byteSize && |buffer| == BufferSize(s)
    ensures Region(s, f, buffer, r) == Painted(s, f, buffer, Rows(r.x, r.y, r.width, r.height, 0))
  {}

  lemma ScratchPixel(scratch: seq<byte>, buffer: seq<byte>, from: nat, length: nat, index: nat)
    requires from + length <= |buffer| && length <= |scratch| && scratch[..length] == buffer[from..from + length]
    requires index + 3 < length
    ensures scratch[index] == buffer[from + index] && scratch[index + 1] == buffer[from + index + 1]
    ensures scratch[index + 2] == buffer[from + index + 2]
  {
    assert scratch[index] == scratch[..length][index] && scratch[index + 1] == scratch[..length][index + 1];
    assert scratch[index + 2] == scratch[..length][index + 2];
  }

  lemma NothingPainted(s: Surface, f: seq<byte>, buffer: seq<byte>)
    requires SurfaceOk(s) && |f| == s.byteSize && |buffer| == BufferSize(s)
    ensures f == Painted(s, f, buffer, First(0))
  {
    hide PixelX, PixelY, PixelByte, Shown, SurfaceOk, BufferSize;
    forall i | 0 <= i < |f| ensures !Paints(s, First(0), i) {
      if PixelByte(s, i) {
        NothingIn(s, PixelX(s, i), PixelY(s, i));
      }
    }
  }

  lemma NothingIn(s: Surface, x: nat, y: nat)
    ensures !In(First(0), s, x, y)
  {}

  /** Pixel `n` follows the first `n`. */
  lemma NextPixel(s: Surface, f: seq<byte>, buffer: seq<byte>, n: nat, x: nat, y: nat, g: seq<byte>)
    requires SurfaceOk(s) && |f| == s.byteSize && |buffer| == BufferSize(s) && x < s.width && y < s.height && n == y * s.width + x
    requires StoredPixel(s, Painted(s, f, buffer, First(n)), g, x, y, PixelColor(s, buffer, x, y))
    ensures g == Painted(s, f, buffer, First(n + 1))
  {
    hide PixelColor, StoredPixel, Painted;
    forall a: nat, b: nat | a < s.width && b < s.height
      ensures In(First(n + 1), s, a, b) <==> In(First(n), s, a, b) || (a == x && b == y)
    {
      if b * s.width + a == n {
        DivMod(b, s.width, a);
        DivMod(y, s.width, x);
      }
    }
    PaintNext(s, f, buffer, First(n), First(n + 1), x, y, g);
  }

  lemma NoRows(s: Surface, f: seq<byte>, buffer: seq<byte>, r: Rect)
    requires SurfaceOk(s) && |f| == s.byteSize && |buffer| == BufferSize(s)
    ensures f == Painted(s, f, buffer, Rows(r.x, r.y, r.width, 0, 0))
  {}

  lemma RowDone(s: Surface, f: seq<byte>, buffer: seq<byte>, r: Rect, row: nat)
    requires SurfaceOk(s) && |f| == s.byteSize && |buffer| == BufferSize(s)
    ensures Painted(s, f, buffer, Rows(r.x, r.y, r.width, row, r.width)) == Painted(s, f, buffer, Rows(r.x, r.y, r.width, row + 1, 0))
  {
    forall i | 0 <= i < |f| && PixelByte(s, i)
      ensures Paints(s, Rows(r.x, r.y, r.width, row, r.width), i) <==> Paints(s, Rows(r.x, r.y, r.width, row + 1, 0), i)
    {}
  }

  lemma NextColumn(s: Surface, f: seq<byte>, buffer: seq<byte>, r: Rect, y: nat, column: nat, g: seq<byte>)
    requires SurfaceOk(s) && |f| == s.byteSize && |buffer| == BufferSize(s) && RectOk(s, r)
    requires r.y <= y < r.y + r.height && column < r.width
    requires StoredPixel(s, Painted(s, f, buffer, Rows(r.x, r.y, r.width, y - r.y, column)), g, r.x + column, y,
                         PixelColor(s, buffer, r.x + column, y))
    ensures g == Painted(s, f, buffer, Rows(r.x, r.y, r.width, y - r.y, column + 1))
  {
    hide PixelColor, StoredPixel, Painted;
    PaintNext(s, f, buffer, Rows(r.x, r.y, r.width, y - r.y, column), Rows(r.x, r.y, r.width, y - r.y, column + 1),
              r.x + column, y, g);
  }

  function BufferOffset(s: Surface, x: nat, y: nat): nat {
    y * (s.width * BYTES_PER_PIXEL) + x * BYTES_PER_PIXEL
  }

  /** Where part of a row lies in the buffer. */
  lemma RowInBuffer(s: Surface, x: nat, y: nat, count: nat)
    requires y < s.height && x + count <= s.width
    ensures BufferOffset(s, x, y) == (y * s.width + x) * BYTES_PER_PIXEL
    ensures BufferOffset(s, x, y) + count * BYTES_PER_PIXEL <= BufferSize(s)
  {
    Product(y, s.height, s.width);
    assert BufferSize(s) == s.height * s.width * BYTES_PER_PIXEL;
    assert y * (s.width * BYTES_PER_PIXEL) == y * s.width * BYTES_PER_PIXEL;
  }

  lemma ColorIs(s: Surface, buffer: seq<byte>, x: nat, y: nat)
    requires |buffer| == BufferSize(s) && x < s.width && y < s.height
    ensures var at := (y * s.width + x) * BYTES_PER_PIXEL;
      at + 3 < |buffer| && PixelColor(s, buffer, x, y) == Pack(s, buffer[at + 2], buffer[at + 1], buffer[at])
  {
    PixelInBuffer(s, x, y);
    hide Pack;
  }
}
