/**
 What presenting a pixel buffer does to the bytes of the framebuffer, for the whole buffer and
 for a rectangle of it. The loops are in module Display.
 */
module DisplaySpec {
  import opened Machine

  const BYTES_PER_PIXEL: nat := 4
  const MAX_WIDTH: nat := 1920
  const MAX_HEIGHT: nat := 1080
  const MAX_SCANOUT_BYTES: nat := 16777216

  /** A colour channel: `size` bits from bit `shift` on. */
  datatype Channel = Channel(size: nat, shift: nat)

  datatype Surface = Surface(
    width: nat, height: nat, pitch: nat, byteSize: nat, bpp: nat, bytesPerPixel: nat,
    red: Channel, green: Channel, blue: Channel)

  // ------------------------------------------------------------------ geometry

  /** The bit ranges of two channels do not meet. */
  predicate Apart(a: Channel, b: Channel) {
    a.shift + a.size <= b.shift || b.shift + b.size <= a.shift
  }

  /** boring_framebuffer_masks_valid; the masks share no bit exactly when the ranges lie apart. */
  predicate MasksOk(s: Surface) {
    && 0 < s.red.size <= 8 && 0 < s.green.size <= 8 && 0 < s.blue.size <= 8
    && s.red.shift + s.red.size <= s.bpp && s.green.shift + s.green.size <= s.bpp && s.blue.shift + s.blue.size <= s.bpp
    && Apart(s.red, s.green) && Apart(s.red, s.blue) && Apart(s.green, s.blue)
  }

  /** boring_framebuffer_surface_valid. */
  predicate SurfaceOk(s: Surface) {
    && s.width != 0 && s.height != 0 && (s.bpp == 24 || s.bpp == 32) && s.bytesPerPixel == s.bpp / 8
    && s.width * s.bytesPerPixel < U64_LIMIT && s.width * s.bytesPerPixel <= s.pitch
    && s.height * s.pitch < U64_LIMIT && s.byteSize == s.height * s.pitch
    && MasksOk(s)
  }

  /** scanout_info: the display is one a user buffer can cover. */
  predicate ScanoutOk(s: Surface) {
    && SurfaceOk(s) && s.width <= MAX_WIDTH && s.height <= MAX_HEIGHT
    && s.width * BYTES_PER_PIXEL * s.height <= MAX_SCANOUT_BYTES
  }

  function BufferSize(s: Surface): nat {
    s.width * BYTES_PER_PIXEL * s.height
  }

  /** Byte `i` of the framebuffer belongs to a pixel, not to the padding of a row. */
  predicate PixelByte(s: Surface, i: nat)
    requires SurfaceOk(s)
  {
    i < s.byteSize && i % s.pitch < s.width * s.bytesPerPixel
  }

  function PixelX(s: Surface, i: nat): nat
    requires SurfaceOk(s)
  {
    i % s.pitch / s.bytesPerPixel
  }

  function PixelY(s: Surface, i: nat): nat
    requires SurfaceOk(s)
  {
    RowOf(i, s.pitch)
  }

  function RowOf(i: nat, pitch: nat): nat
    requires 0 < pitch
  {
    i / pitch
  }

  function PixelPart(s: Surface, i: nat): nat
    requires SurfaceOk(s)
  {
    i % s.pitch % s.bytesPerPixel
  }

  function Offset(s: Surface, x: nat, y: nat): nat {
    y * s.pitch + x * s.bytesPerPixel
  }

  lemma DivMod(q: nat, d: nat, r: nat)
    requires r < d
    ensures (q * d + r) / d == q && (q * d + r) % d == r
  {
    assert q * d + r == d * q + r;
    DivModUnique(q * d + r, d, q, r);
  }

  lemma Ordered(a: nat, b: nat, d: nat)
    ensures a < b ==> d * (a + 1) <= d * b
    ensures a <= b ==> d * a <= d * b
  {}

  lemma DivModUnique(a: nat, d: nat, q: nat, r: nat)
    requires 0 < d && r < d && a == d * q + r
    ensures a / d == q && a % d == r
  {
    var p := a / d;
    assert a == d * p + a % d && d * (p + 1) == d * p + d && d * (q + 1) == d * q + d;
    Ordered(p, q, d);
    Ordered(q, p, d);
  }

  lemma DivBound(a: nat, n: nat, d: nat)
    requires 0 < d && a < n * d
    ensures a / d < n && a == a / d * d + a % d && a % d < d
  {
    var p := a / d;
    assert a == d * p + a % d && n * d == d * n;
    Ordered(n, p, d);
  }

  lemma Product(a: nat, b: nat, c: nat)
    requires a < b
    ensures a * c + c <= b * c
  {
    assert (a + 1) * c <= b * c;
  }

  /** The bytes of pixel (x, y) are its own: pixels do not overlap under a valid pitch. */
  lemma OwnBytes(s: Surface, x: nat, y: nat, k: nat)
    requires SurfaceOk(s) && x < s.width && y < s.height && k < s.bytesPerPixel
    ensures var i := Offset(s, x, y) + k;
      PixelByte(s, i) && PixelX(s, i) == x && PixelY(s, i) == y && PixelPart(s, i) == k
  {
    Bounds(s);
    hide SurfaceOk;
    InRow(s.width, s.bytesPerPixel, s.pitch, x, k);
    Product(y, s.height, s.pitch);
    DivMod(y, s.pitch, x * s.bytesPerPixel + k);
    DivMod(x, s.bytesPerPixel, k);
  }

  lemma Bounds(s: Surface)
    requires SurfaceOk(s)
    ensures s.width * s.bytesPerPixel <= s.pitch && s.byteSize == s.height * s.pitch
  {}

  lemma InRow(width: nat, pixel: nat, pitch: nat, x: nat, k: nat)
    requires width * pixel <= pitch && x < width && k < pixel
    ensures x * pixel + k < width * pixel <= pitch
  {
    Product(x, width, pixel);
  }

  lemma PixelOf(s: Surface, i: nat)
    requires SurfaceOk(s) && PixelByte(s, i)
    ensures PixelX(s, i) < s.width && PixelY(s, i) < s.height && PixelPart(s, i) < s.bytesPerPixel
    ensures i == Offset(s, PixelX(s, i), PixelY(s, i)) + PixelPart(s, i)
  {
    DivBound(i, s.height, s.pitch);
    DivBound(i % s.pitch, s.width, s.bytesPerPixel);
  }

  // -------------------------------------------------------------------- colour

  function Pow2(n: nat): (p: nat)
    ensures 0 < p
  {
    if n == 0 then 1 else 2 * Pow2(n - 1)
  }

  /** boring_color_scale. */
  function Scale(value: byte, bits: nat): nat {
    if bits == 0 || 8 < bits then 0 else (value * (Pow2(bits) - 1) + 127) / 255
  }

  function Channelled(value: byte, c: Channel): nat {
    Scale(value, c.size) * Pow2(c.shift)
  }

  /** boring_color_pack; the masks lie apart, so or-ing the channels is adding them. */
  function Pack(s: Surface, red: byte, green: byte, blue: byte): nat {
    Channelled(red, s.red) + Channelled(green, s.green) + Channelled(blue, s.blue)
  }

  function ColorByte(color: nat, k: nat): byte {
    color / Pow2(8 * k) % 256
  }

  /** The colour of pixel (x, y) of a user buffer, stored blue, green, red. */
  function PixelColor(s: Surface, buffer: seq<byte>, x: nat, y: nat): nat
    requires |buffer| == BufferSize(s) && x < s.width && y < s.height
  {
    PixelInBuffer(s, x, y);
    var at := (y * s.width + x) * BYTES_PER_PIXEL;
    Pack(s, buffer[at + 2], buffer[at + 1], buffer[at])
  }

  lemma PixelInBuffer(s: Surface, x: nat, y: nat)
    requires x < s.width && y < s.height
    ensures (y * s.width + x) * BYTES_PER_PIXEL + 3 < BufferSize(s)
    ensures y * s.width + x < s.width * s.height
  {
    Product(y, s.height, s.width);
    assert BufferSize(s) == s.width * s.height * BYTES_PER_PIXEL;
  }

  // ------------------------------------------------------------------ painting

  /** The pixels a loop has dealt with: the first so many, or so many rows and columns of a rectangle. */
  datatype Area = First(count: nat) | Rows(x: nat, y: nat, width: nat, rows: nat, columns: nat)

  predicate In(area: Area, s: Surface, x: nat, y: nat) {
    match area
    case First(count) => y * s.width + x < count
    case Rows(left, top, width, rows, columns) =>
      left <= x < left + width && (top <= y < top + rows || (y == top + rows && x < left + columns))
  }

  predicate Paints(s: Surface, area: Area, i: nat)
    requires SurfaceOk(s)
  {
    PixelByte(s, i) && In(area, s, PixelX(s, i), PixelY(s, i))
  }

  /** The byte of the framebuffer that shows part of a buffer. */
  function Shown(s: Surface, buffer: seq<byte>, i: nat): byte
    requires SurfaceOk(s) && |buffer| == BufferSize(s) && PixelByte(s, i)
  {
    PixelOf(s, i);
    ColorByte(PixelColor(s, buffer, PixelX(s, i), PixelY(s, i)), PixelPart(s, i))
  }

  /** Framebuffer `f` with the pixels of `area` showing `buffer`, and every other byte as it was. */
  ghost function Painted(s: Surface, f: seq<byte>, buffer: seq<byte>, area: Area): (g: seq<byte>)
    requires SurfaceOk(s) && |f| == s.byteSize && |buffer| == BufferSize(s)
    ensures |g| == |f|
    ensures forall i :: 0 <= i < |f| ==> g[i] == if Paints(s, area, i) then Shown(s, buffer, i) else f[i]
  {
    seq(|f|, i requires 0 <= i < |f| => if Paints(s, area, i) then Shown(s, buffer, i) else f[i])
  }

  /** boring_framebuffer_user_present. */
  ghost function Full(s: Surface, f: seq<byte>, buffer: seq<byte>): seq<byte>
    requires SurfaceOk(s) && |f| == s.byteSize && |buffer| == BufferSize(s)
  {
    Painted(s, f, buffer, First(s.width * s.height))
  }

  datatype Rect = Rect(x: nat, y: nat, width: nat, height: nat)

  /** region_valid. */
  predicate RectOk(s: Surface, r: Rect) {
    r.width != 0 && r.height != 0 && r.x < s.width && r.y < s.height && r.width <= s.width - r.x && r.height <= s.height - r.y
  }

  predicate Inside(r: Rect, x: nat, y: nat) {
    r.x <= x < r.x + r.width && r.y <= y < r.y + r.height
  }

  /** boring_framebuffer_user_present_region. */
  ghost function Region(s: Surface, f: seq<byte>, buffer: seq<byte>, r: Rect): (g: seq<byte>)
    requires SurfaceOk(s) && |f| == s.byteSize && |buffer| == BufferSize(s)
    ensures |g| == |f|
  {
    Painted(s, f, buffer, Rows(r.x, r.y, r.width, r.height, 0))
  }

  ghost function Regions(s: Surface, f: seq<byte>, buffer: seq<byte>, rs: seq<Rect>): (g: seq<byte>)
    requires SurfaceOk(s) && |f| == s.byteSize && |buffer| == BufferSize(s)
    ensures |g| == |f|
    decreases |rs|
  {
    if rs == [] then f else Regions(s, Region(s, f, buffer, rs[0]), buffer, rs[1..])
  }

  predicate Covered(rs: seq<Rect>, x: nat, y: nat) {
    exists k :: 0 <= k < |rs| && Inside(rs[k], x, y)
  }

  lemma {:induction false} RegionsBytes(s: Surface, f: seq<byte>, buffer: seq<byte>, rs: seq<Rect>, i: nat)
    requires SurfaceOk(s) && |f| == s.byteSize && |buffer| == BufferSize(s) && i < |f|
    ensures Regions(s, f, buffer, rs)[i]
         == if PixelByte(s, i) && Covered(rs, PixelX(s, i), PixelY(s, i)) then Shown(s, buffer, i) else f[i]
    decreases |rs|
  {
    if rs != [] {
      var g := Region(s, f, buffer, rs[0]);
      RegionsBytes(s, g, buffer, rs[1..], i);
      CoveredStep(rs, PixelX(s, i), PixelY(s, i));
      hide Shown, Covered, PixelX, PixelY;
      assert In(Rows(rs[0].x, rs[0].y, rs[0].width, rs[0].height, 0), s, PixelX(s, i), PixelY(s, i))
          <==> Inside(rs[0], PixelX(s, i), PixelY(s, i));
    } else {
      assert !Covered(rs, PixelX(s, i), PixelY(s, i));
    }
  }

  lemma CoveredStep(rs: seq<Rect>, x: nat, y: nat)
    requires rs != []
    ensures Covered(rs, x, y) <==> Inside(rs[0], x, y) || Covered(rs[1..], x, y)
  {
    if Covered(rs[1..], x, y) {
      var k :| 0 <= k < |rs[1..]| && Inside(rs[1..][k], x, y);
      assert Inside(rs[k + 1], x, y);
    }
    if Covered(rs, x, y) {
      var k :| 0 <= k < |rs| && Inside(rs[k], x, y);
      assert 0 < k ==> Inside(rs[1..][k - 1], x, y);
    }
  }

  lemma FullBytes(s: Surface, f: seq<byte>, buffer: seq<byte>, i: nat)
    requires SurfaceOk(s) && |f| == s.byteSize && |buffer| == BufferSize(s) && i < |f|
    ensures Full(s, f, buffer)[i] == if PixelByte(s, i) then Shown(s, buffer, i) else f[i]
  {
    if PixelByte(s, i) {
      PixelOf(s, i);
      PixelInBuffer(s, PixelX(s, i), PixelY(s, i));
    }
  }

  /** Two buffers look the same at byte `i` of the screen. */
  ghost predicate LooksAlike(s: Surface, a: seq<byte>, b: seq<byte>, i: nat)
    requires SurfaceOk(s) && |a| == BufferSize(s) == |b| && PixelByte(s, i)
  {
    Shown(s, a, i) == Shown(s, b, i)
  }

  /**
   The partial update agrees with the full one: after a full present of `before`, presenting a list
   of regions of `after` shows `after` in full exactly when the two look alike outside the regions.
   */
  lemma RegionsAgree(s: Surface, f: seq<byte>, before: seq<byte>, after: seq<byte>, rs: seq<Rect>)
    requires SurfaceOk(s) && |f| == s.byteSize && |before| == BufferSize(s) == |after|
    ensures Regions(s, Full(s, f, before), after, rs) == Full(s, f, after)
       <==> forall i :: 0 <= i < |f| && PixelByte(s, i) && !Covered(rs, PixelX(s, i), PixelY(s, i)) ==>
              LooksAlike(s, before, after, i)
  {
    var g, full := Regions(s, Full(s, f, before), after, rs), Full(s, f, after);
    forall i | 0 <= i < |f|
      ensures g[i] == full[i]
         <==> (PixelByte(s, i) && !Covered(rs, PixelX(s, i), PixelY(s, i)) ==> LooksAlike(s, before, after, i))
    {
      RegionsBytes(s, Full(s, f, before), after, rs, i);
      FullBytes(s, f, before, i);
      FullBytes(s, f, after, i);
    }
    hide Regions, Full, Covered, LooksAlike, PixelX, PixelY, PixelByte, Shown;
    if g == full {
      assert forall i :: 0 <= i < |f| ==> g[i] == full[i];
    }
  }

  /** In particular, a buffer changed only inside the regions is shown in full by them. */
  lemma ChangedInside(s: Surface, f: seq<byte>, before: seq<byte>, after: seq<byte>, rs: seq<Rect>)
    requires SurfaceOk(s) && |f| == s.byteSize && |before| == BufferSize(s) == |after|
    requires forall x, y {:trigger Covered(rs, x, y)} :: 0 <= x < s.width && 0 <= y < s.height && !Covered(rs, x, y) ==>
               PixelColor(s, before, x, y) == PixelColor(s, after, x, y)
    ensures Regions(s, Full(s, f, before), after, rs) == Full(s, f, after)
  {
    forall i | 0 <= i < |f| && PixelByte(s, i) && !Covered(rs, PixelX(s, i), PixelY(s, i))
      ensures LooksAlike(s, before, after, i)
    {
      PixelOf(s, i);
      hide PixelColor, Pow2;
      assert PixelColor(s, before, PixelX(s, i), PixelY(s, i)) == PixelColor(s, after, PixelX(s, i), PixelY(s, i));
    }
    hide *;
    RegionsAgree(s, f, before, after, rs);
  }

  // ------------------------------------------------------------ one more pixel

  /** Framebuffer `f` after one pixel was stored. */
  ghost predicate StoredPixel(s: Surface, f: seq<byte>, g: seq<byte>, x: nat, y: nat, color: nat)
    requires SurfaceOk(s) && |f| == s.byteSize
  {
    && |g| == |f|
    && forall i :: 0 <= i < |f| ==>
         g[i] == if PixelByte(s, i) && PixelX(s, i) == x && PixelY(s, i) == y then ColorByte(color, PixelPart(s, i)) else f[i]
  }

  /** Storing the next pixel of a loop extends the painted area by that pixel. */
  lemma PaintNext(s: Surface, f: seq<byte>, buffer: seq<byte>, area: Area, wider: Area, x: nat, y: nat, g: seq<byte>)
    requires SurfaceOk(s) && |f| == s.byteSize && |buffer| == BufferSize(s) && x < s.width && y < s.height
    requires forall a: nat, b: nat :: a < s.width && b < s.height ==> (In(wider, s, a, b) <==> In(area, s, a, b) || (a == x && b == y))
    requires StoredPixel(s, Painted(s, f, buffer, area), g, x, y, PixelColor(s, buffer, x, y))
    ensures g == Painted(s, f, buffer, wider)
  {
    hide In, PixelColor, Pow2;
    forall i | 0 <= i < |f| ensures g[i] == Painted(s, f, buffer, wider)[i] {
      if PixelByte(s, i) {
        PixelOf(s, i);
      }
    }
  }
}
