/**
 The masks and colours of the framebuffer bit by bit: what the mask test of a surface accepts, and
 what packing a colour with bitwise or keeps of its channels.
 */
module ColorMasks {
  import opened Machine
  import opened DisplaySpec

  /** Bitwise and. */
  function And(a: nat, b: nat): nat {
    if a == 0 || b == 0 then 0 else 2 * And(a / 2, b / 2) + a % 2 * (b % 2)
  }

  /** Bitwise or. */
  function Or(a: nat, b: nat): nat {
    if a == 0 then b else if b == 0 then a else 2 * Or(a / 2, b / 2) + Either(a % 2, b % 2)
  }

  function Either(i: nat, j: nat): nat {
    if i + j == 0 then 0 else 1
  }

  /** Shift left. */
  function Shl(x: nat, n: nat): nat {
    if n == 0 then x else 2 * Shl(x, n - 1)
  }

  /** The value of `n` ones. */
  function Ones(n: nat): (x: nat)
    ensures x + 1 == Pow2(n)
  {
    if n == 0 then 0 else 2 * Ones(n - 1) + 1
  }

  /** The bits of a channel. */
  function Mask(c: Channel): nat {
    Shl(Ones(c.size), c.shift)
  }

  lemma AndDigits(a: nat, b: nat, i: nat, j: nat)
    requires i < 2 && j < 2
    ensures And(2 * a + i, 2 * b + j) == 2 * And(a, b) + i * j
  {}

  lemma OrDigits(a: nat, b: nat, i: nat, j: nat)
    requires i < 2 && j < 2
    ensures Or(2 * a + i, 2 * b + j) == 2 * Or(a, b) + Either(i, j)
  {}

  lemma OrNothing(a: nat)
    ensures Or(a, 0) == a == Or(0, a)
  {}

  lemma {:induction false} AndNothing(a: nat)
    ensures And(0, a) == 0 == And(a, 0)
  {}

  lemma {:induction false} AndOther(a: nat, b: nat)
    ensures And(a, b) == And(b, a)
  {
    if a != 0 && b != 0 {
      AndOther(a / 2, b / 2);
    }
  }

  /** Values with no common bit: or-ing them is adding them. */
  lemma {:induction false} OrAdds(a: nat, b: nat)
    requires And(a, b) == 0
    ensures Or(a, b) == a + b
  {
    if a != 0 && b != 0 {
      OrAdds(a / 2, b / 2);
    }
  }

  lemma {:induction false} AndOverOr(a: nat, b: nat, c: nat)
    ensures And(Or(a, b), c) == Or(And(a, c), And(b, c))
    decreases a + b + c
  {
    if a == 0 || b == 0 || c == 0 {
      OrNothing(And(a, c));
      OrNothing(And(b, c));
      AndNothing(Or(a, b));
    } else {
      AndOverOr(a / 2, b / 2, c / 2);
      OneDigit(a / 2, b / 2, c / 2, a % 2, b % 2, c % 2);
    }
  }

  lemma OneDigit(a: nat, b: nat, c: nat, i: nat, j: nat, k: nat)
    requires i < 2 && j < 2 && k < 2 && And(Or(a, b), c) == Or(And(a, c), And(b, c))
    ensures And(Or(2 * a + i, 2 * b + j), 2 * c + k) == Or(And(2 * a + i, 2 * c + k), And(2 * b + j, 2 * c + k))
  {
    hide And, Or;
    AndDigits(a, c, i, k);
    AndDigits(b, c, j, k);
    OrDigits(a, b, i, j);
    AndDigits(Or(a, b), c, Either(i, j), k);
    OrDigits(And(a, c), And(b, c), i * k, j * k);
    assert Either(i, j) * k == Either(i * k, j * k);
  }

  lemma {:induction false} ShlIs(x: nat, n: nat)
    ensures Shl(x, n) == x * Pow2(n)
  {
    if 0 < n {
      ShlIs(x, n - 1);
    }
  }

  lemma {:induction false} ShlTwice(x: nat, m: nat, n: nat)
    ensures Shl(Shl(x, m), n) == Shl(x, m + n)
  {
    if 0 < n {
      ShlTwice(x, m, n - 1);
    }
  }

  /** Bits below place `n` and bits from place `n` on. */
  lemma {:induction false} LowHigh(x: nat, y: nat, n: nat)
    requires x < Pow2(n)
    ensures And(x, Shl(y, n)) == 0
  {
    if 0 < n {
      LowHigh(x / 2, y, n - 1);
      AndDigits(x / 2, Shl(y, n - 1), x % 2, 0);
    }
  }

  /** Fields of `n` bits from place `s` on, and of any width from place `t` on. */
  lemma {:induction false} FieldsApart(x: nat, n: nat, s: nat, y: nat, t: nat)
    requires x < Pow2(n) && s + n <= t
    ensures And(Shl(x, s), Shl(y, t)) == 0
  {
    hide And;
    if s == 0 {
      ShlTwice(y, t - n, n);
      LowHigh(x, Shl(y, t - n), n);
    } else {
      FieldsApart(x, n, s - 1, y, t - 1);
      AndDigits(Shl(x, s - 1), Shl(y, t - 1), 0, 0);
    }
  }

  lemma ChannelsApart(x: nat, a: Channel, y: nat, b: Channel)
    requires x < Pow2(a.size) && y < Pow2(b.size) && Apart(a, b)
    ensures And(Shl(x, a.shift), Shl(y, b.shift)) == 0
  {
    if a.shift + a.size <= b.shift {
      FieldsApart(x, a.size, a.shift, y, b.shift);
    } else {
      FieldsApart(y, b.size, b.shift, x, a.shift);
      AndOther(Shl(x, a.shift), Shl(y, b.shift));
    }
  }

  /** Channels whose ranges meet have a bit in common. */
  lemma {:induction false} MasksMeet(a: Channel, b: Channel)
    requires 0 < a.size && 0 < b.size && !Apart(a, b)
    ensures And(Mask(a), Mask(b)) != 0
    decreases a.shift + b.shift
  {
    hide And, Pow2;
    if 0 < a.shift && 0 < b.shift {
      MasksMeet(a.(shift := a.shift - 1), b.(shift := b.shift - 1));
      AndDigits(Shl(Ones(a.size), a.shift - 1), Shl(Ones(b.size), b.shift - 1), 0, 0);
    } else if a.shift == 0 < b.shift {
      MasksMeet(a.(size := a.size - 1), b.(shift := b.shift - 1));
      AndDigits(Ones(a.size - 1), Shl(Ones(b.size), b.shift - 1), 1, 0);
    } else if b.shift == 0 < a.shift {
      MasksMeet(a.(shift := a.shift - 1), b.(size := b.size - 1));
      AndDigits(Shl(Ones(a.size), a.shift - 1), Ones(b.size - 1), 0, 1);
    } else {
      AndDigits(Ones(a.size - 1), Ones(b.size - 1), 1, 1);
    }
  }

  /** The masks share no bit exactly when the ranges of the channels do not meet. */
  lemma MasksApart(a: Channel, b: Channel)
    requires 0 < a.size && 0 < b.size
    ensures And(Mask(a), Mask(b)) == 0 <==> Apart(a, b)
  {
    if Apart(a, b) {
      ChannelsApart(Ones(a.size), a, Ones(b.size), b);
    } else {
      MasksMeet(a, b);
    }
  }

  /** A mask keeps all the bits of its own field. */
  lemma {:induction false} MaskKeeps(x: nat, c: Channel)
    requires x < Pow2(c.size)
    ensures And(Shl(x, c.shift), Mask(c)) == Shl(x, c.shift)
    decreases c.shift + c.size
  {
    AndNothing(0);
    hide And;
    if 0 < c.shift {
      MaskKeeps(x, c.(shift := c.shift - 1));
      AndDigits(Shl(x, c.shift - 1), Shl(Ones(c.size), c.shift - 1), 0, 0);
    } else if 0 < c.size {
      MaskKeeps(x / 2, c.(size := c.size - 1));
      AndDigits(x / 2, Ones(c.size - 1), x % 2, 1);
    }
  }

  lemma ScaleFits(value: byte, bits: nat)
    ensures Scale(value, bits) < Pow2(bits)
  {
    var m: nat := Pow2(bits) - 1;
    assert value * m <= 255 * m by {
      Ordered(value, 255, m);
    }
  }

  lemma ChannelFits(value: byte, c: Channel, other: byte, d: Channel)
    requires Apart(c, d)
    ensures And(Channelled(value, c), Channelled(other, d)) == 0 == And(Channelled(value, c), Mask(d))
    ensures And(Channelled(value, c), Mask(c)) == Channelled(value, c)
    ensures And(Channelled(other, d), Mask(c)) == 0
    ensures And(Channelled(other, d), Mask(d)) == Channelled(other, d)
  {
    ScaleFits(value, c.size);
    ScaleFits(other, d.size);
    var x, y := Scale(value, c.size), Scale(other, d.size);
    ChannelsApart(x, c, y, d);
    ChannelsApart(x, c, Ones(d.size), d);
    ChannelsApart(y, d, Ones(c.size), c);
    ShlIs(x, c.shift);
    ShlIs(y, d.shift);
    MaskKeeps(x, c);
    MaskKeeps(y, d);
  }

  /** boring_framebuffer_masks_valid as it is written: no two masks have a bit in common. */
  lemma MasksShareNothing(s: Surface)
    requires 0 < s.red.size && 0 < s.green.size && 0 < s.blue.size
    ensures And(Mask(s.red), Mask(s.green)) == 0 && And(Mask(s.red), Mask(s.blue)) == 0 && And(Mask(s.green), Mask(s.blue)) == 0
       <==> Apart(s.red, s.green) && Apart(s.red, s.blue) && Apart(s.green, s.blue)
  {
    MasksApart(s.red, s.green);
    MasksApart(s.red, s.blue);
    MasksApart(s.green, s.blue);
  }

  /**
   A packed colour is the bitwise or of its three channels, and the mask of a channel gives that
   channel back.
   */
  lemma PackKeeps(s: Surface, red: byte, green: byte, blue: byte)
    requires MasksOk(s)
    ensures Pack(s, red, green, blue)
         == Or(Or(Channelled(red, s.red), Channelled(green, s.green)), Channelled(blue, s.blue))
    ensures And(Pack(s, red, green, blue), Mask(s.red)) == Channelled(red, s.red)
    ensures And(Pack(s, red, green, blue), Mask(s.green)) == Channelled(green, s.green)
    ensures And(Pack(s, red, green, blue), Mask(s.blue)) == Channelled(blue, s.blue)
  {
    ChannelFits(red, s.red, green, s.green);
    ChannelFits(red, s.red, blue, s.blue);
    ChannelFits(green, s.green, blue, s.blue);
    OrNothing(0);
    hide And, Channelled, Mask, Or;
    var r, g, b := Channelled(red, s.red), Channelled(green, s.green), Channelled(blue, s.blue);
    AndOverOr(r, g, b);
    OrAdds(r, g);
    OrAdds(Or(r, g), b);
    MaskOfPack(r, g, b, Mask(s.red));
    MaskOfPack(r, g, b, Mask(s.green));
    MaskOfPack(r, g, b, Mask(s.blue));
    OrNothing(r);
    OrNothing(g);
    OrNothing(b);
  }

  lemma MaskOfPack(r: nat, g: nat, b: nat, mask: nat)
    ensures And(Or(Or(r, g), b), mask) == Or(Or(And(r, mask), And(g, mask)), And(b, mask))
  {
    AndOverOr(Or(r, g), b, mask);
    AndOverOr(r, g, mask);
  }
}
