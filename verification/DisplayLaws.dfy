/**
 What a user sees: how colours are scaled and stored, which displays and rectangles are accepted,
 and that a display of eight bits a channel shows the bytes of the buffer themselves.
 */
module DisplayLaws {
  import opened Machine
  import opened DisplaySpec
  import opened Display

  lemma {:induction false} PowersAre(n: nat)
    requires n <= 8
    ensures Pow2(n) == [1, 2, 4, 8, 16, 32, 64, 128, 256][n]
  {
    if 0 < n {
      PowersAre(n - 1);
    }
  }

  lemma {:induction false} PowersAdd(m: nat, n: nat)
    ensures Pow2(m + n) == Pow2(m) * Pow2(n)
  {
    if 0 < m {
      PowersAdd(m - 1, n);
    }
  }

  lemma BytePowers()
    ensures Pow2(0) == 1 && Pow2(8) == 0x100 && Pow2(16) == 0x1_0000 && Pow2(24) == 0x100_0000 && Pow2(32) == 0x1_0000_0000
  {
    PowersAre(8);
    PowersAdd(8, 8);
    PowersAdd(8, 16);
    PowersAdd(16, 16);
    hide Pow2;
    assert Pow2(0) == 1 by {
      PowersAre(0);
    }
  }

  /** A channel value becomes the nearest one of as many bits: black and full stay so, and eight bits are kept. */
  lemma ScaleNearest(value: byte, bits: nat)
    requires 1 <= bits <= 8
    ensures var most: nat := Pow2(bits) - 1;
      && Scale(value, bits) <= most
      && 2 * value as nat * most - 255 <= 2 * 255 * Scale(value, bits) <= 2 * value as nat * most + 255
      && (value == 0 ==> Scale(value, bits) == 0) && (value == 255 ==> Scale(value, bits) == most)
      && (bits == 8 ==> Scale(value, bits) == value as nat)
  {
    hide Pow2;
    PowersAre(8);
    var most: nat := Pow2(bits) - 1;
    Rounded(value as nat, most, value as nat * most);
  }

  lemma Rounded(value: nat, most: nat, product: nat)
    requires value <= 255 && product == value * most
    ensures var n := (product + 127) / 255;
      && n <= most && 2 * product - 255 <= 510 * n <= 2 * product + 255
      && (value == 0 ==> n == 0) && (value == 255 ==> n == most) && (most == 255 ==> n == value)
  {
    Ordered(value, 255, most);
    assert product <= 255 * most;
  }

  /** The bytes of a pixel are its colour, least significant first. */
  lemma PixelBytes(color: nat)
    requires color < 0x1_0000_0000
    ensures (ColorByte(color, 0) as nat) + 0x100 * (ColorByte(color, 1) as nat) + 0x1_0000 * (ColorByte(color, 2) as nat)
            + 0x100_0000 * (ColorByte(color, 3) as nat) == color
  {
    BytePowers();
    hide Pow2;
    var b := color / 0x100;
    var c := b / 0x100;
    var d := c / 0x100;
    assert color == b * 0x100 + color % 0x100 && b == c * 0x100 + b % 0x100 && c == d * 0x100 + c % 0x100;
    assert color / 0x1_0000 == c && color / 0x100_0000 == d && d < 0x100;
  }

  /** Red, green and blue in the three low bytes, eight bits each. */
  predicate TrueColor(s: Surface) {
    s.red == Channel(8, 16) && s.green == Channel(8, 8) && s.blue == Channel(8, 0)
  }

  /** On such a display a pixel's bytes are those of the buffer: blue, green, red, and a zero. */
  lemma TrueColorShown(s: Surface, buffer: seq<byte>, x: nat, y: nat)
    requires TrueColor(s) && |buffer| == BufferSize(s) && x < s.width && y < s.height
    ensures var at := 4 * (y * s.width + x);
      && at + 3 < |buffer|
      && var color := PixelColor(s, buffer, x, y);
         && ColorByte(color, 0) == buffer[at] && ColorByte(color, 1) == buffer[at + 1]
         && ColorByte(color, 2) == buffer[at + 2] && ColorByte(color, 3) == 0
  {
    PixelInBuffer(s, x, y);
    var at := 4 * (y * s.width + x);
    assert at == (y * s.width + x) * BYTES_PER_PIXEL;
    PackedTrue(s, buffer[at + 2], buffer[at + 1], buffer[at]);
    hide Pack, ColorByte;
  }

  lemma PackedTrue(s: Surface, red: byte, green: byte, blue: byte)
    requires TrueColor(s)
    ensures var color := Pack(s, red, green, blue);
      ColorByte(color, 0) == blue && ColorByte(color, 1) == green && ColorByte(color, 2) == red && ColorByte(color, 3) == 0
  {
    hide Pow2, Scale;
    ScaleNearest(red, 8);
    ScaleNearest(green, 8);
    ScaleNearest(blue, 8);
    BytePowers();
    ThreeBytes(red as nat, green as nat, blue as nat, Pack(s, red, green, blue));
  }

  lemma ThreeBytes(r: nat, g: nat, b: nat, color: nat)
    requires r < 256 && g < 256 && b < 256 && color == r * 0x1_0000 + g * 0x100 + b
    ensures color / 1 % 256 == b && color / 0x100 % 256 == g && color / 0x1_0000 % 256 == r && color / 0x100_0000 % 256 == 0
  {
    DivMod(r * 0x100 + g, 0x100, b);
    DivMod(r, 0x1_0000, g * 0x100 + b);
    DivMod(0, 0x100_0000, color);
    DivMod(r, 0x100, g);
    DivMod(0, 0x100, r);
  }

  /** A rectangle is accepted exactly when it has pixels and all of them are on the screen. */
  lemma RectExactly(s: Surface, r: Rect)
    ensures RectOk(s, r)
       <==> && (exists x: nat, y: nat :: Inside(r, x, y))
            && forall x: nat, y: nat :: Inside(r, x, y) ==> x < s.width && y < s.height
  {
    if r.width != 0 && r.height != 0 {
      assert Inside(r, r.x, r.y) && Inside(r, r.x + r.width - 1, r.y + r.height - 1);
    }
  }

  /** Displays of up to 1920 by 1080 pixels in true colour, of three or four bytes each, are accepted. */
  lemma UsualDisplays(s: Surface)
    requires TrueColor(s) && 1 <= s.width <= 1920 && 1 <= s.height <= 1080
    requires (s.bpp == 24 && s.bytesPerPixel == 3) || (s.bpp == 32 && s.bytesPerPixel == 4)
    requires s.width * s.bytesPerPixel <= s.pitch <= 0x1_0000_0000 && s.byteSize == s.height * s.pitch
    ensures ScanoutOk(s)
  {
    assert s.height * s.pitch <= 1080 * 0x1_0000_0000 by {
      Ordered(s.height, 1080, s.pitch);
    }
    assert s.width * BYTES_PER_PIXEL * s.height <= 1920 * 4 * 1080 by {
      Ordered(s.height, 1080, s.width * BYTES_PER_PIXEL);
    }
  }

  function Capped(n: nat): nat {
    if n <= 0xffff_ffff_ffff_ffff then n else 0xffff_ffff_ffff_ffff
  }

  /** A present counts as one, as a full or a region present, and for its pixels, up to 2^64 - 1. */
  lemma CountsExactly(c: Counts, count: nat, region: bool)
    requires c.presents <= 0xffff_ffff_ffff_ffff && c.fullPresents <= 0xffff_ffff_ffff_ffff
    requires c.regionPresents <= 0xffff_ffff_ffff_ffff && c.pixels <= 0xffff_ffff_ffff_ffff
    ensures var d := Counted(c, count, region);
      && d.presents == Capped(c.presents + 1) && d.pixels == Capped(c.pixels + count)
      && d.regionPresents == (if region then Capped(c.regionPresents + 1) else c.regionPresents)
      && d.fullPresents == (if region then c.fullPresents else Capped(c.fullPresents + 1))
  {}

  /** A buffer takes as many copies as it takes pieces to cover it, and no fewer. */
  lemma PartsLeast(whole: nat, part: nat)
    requires 0 < part
    ensures whole <= Parts(whole, part) * part
    ensures forall n: nat :: whole <= n * part ==> Parts(whole, part) <= n
  {
    var q := Parts(whole, part);
    assert whole + part - 1 == part * q + (whole + part - 1) % part;
    forall n: nat | whole <= n * part ensures q <= n {
      if n < q {
        Ordered(n, q, part);
      }
    }
  }

  /** Larger ones are not, nor those whose rows overlap. */
  lemma OtherDisplays(s: Surface)
    ensures 1920 < s.width || 1080 < s.height || s.width == 0 || s.height == 0 ==> !ScanoutOk(s)
    ensures s.pitch < s.width * s.bytesPerPixel || s.byteSize != s.height * s.pitch ==> !ScanoutOk(s)
    ensures (s.bpp != 24 && s.bpp != 32) || s.bytesPerPixel * 8 != s.bpp ==> !ScanoutOk(s)
  {}
}
