/** Single bits of a 64-bit word, set and cleared with a mask. */
module Bits {
  const WORD: nat := 64

  function Shifted(b: bv7): bv64
    requires b < 64
  {
    1 << b
  }

  function Mask(b: nat): bv64
    requires b < WORD
  {
    Shifted(b as bv7)
  }

  function Common(w: bv64, m: bv64): bv64 {
    w & m
  }

  function With(w: bv64, m: bv64): bv64 {
    w | m
  }

  function Without(w: bv64, m: bv64): bv64 {
    w & !m
  }

  predicate Meets(w: bv64, m: bv64) {
    Common(w, m) != 0
  }

  predicate BitSet(w: bv64, b: nat)
    requires b < WORD
  {
    Meets(w, Mask(b))
  }

  lemma ShiftedMeets(a: bv7, b: bv7)
    requires a < 64 && b < 64
    ensures Meets(Shifted(a), Shifted(b)) <==> a == b
    ensures Meets(Shifted(a), Shifted(a))
  {}

  lemma CastInjective(a: nat, b: nat)
    requires a < WORD && b < WORD
    ensures a as bv7 == b as bv7 <==> a == b
    ensures (a as bv7) < 64
  {
    assert (a as bv7) as nat == a;
    assert (b as bv7) as nat == b;
  }

  lemma MasksMeet(a: nat, b: nat)
    requires a < WORD && b < WORD
    ensures Meets(Mask(a), Mask(b)) <==> a == b
  {
    hide Shifted, Meets, Common;
    CastInjective(a, b);
    ShiftedMeets(a as bv7, b as bv7);
  }

  lemma WithMeets(w: bv64, x: bv64, y: bv64)
    ensures !Meets(x, y) ==> (Meets(With(w, x), y) <==> Meets(w, y))
  {
    hide With, Common;
    WithCommon(w, x, y);
  }

  lemma WithCommon(w: bv64, x: bv64, y: bv64)
    ensures Common(x, y) == 0 ==> Common(With(w, x), y) == Common(w, y)
  {}

  lemma WithoutCommon(w: bv64, x: bv64, y: bv64)
    ensures Common(x, y) == 0 ==> Common(Without(w, x), y) == Common(w, y)
  {}

  lemma WithItself(w: bv64, x: bv64)
    ensures Meets(x, x) ==> Meets(With(w, x), x)
  {}

  lemma WithoutMeets(w: bv64, x: bv64, y: bv64)
    ensures !Meets(x, y) ==> (Meets(Without(w, x), y) <==> Meets(w, y))
  {
    hide Without, Common;
    WithoutCommon(w, x, y);
  }

  lemma WithoutItself(w: bv64, x: bv64)
    ensures !Meets(Without(w, x), x)
  {
    assert (w & !x) & x == 0;
  }

  lemma NothingMeets(m: bv64)
    ensures !Meets(0, m)
  {}

  /** Setting or clearing bit `a` changes bit `a` and no other. */
  lemma BitChanged(w: bv64, a: nat, b: nat)
    requires a < WORD && b < WORD
    ensures BitSet(With(w, Mask(a)), b) <==> BitSet(w, b) || a == b
    ensures BitSet(Without(w, Mask(a)), b) <==> BitSet(w, b) && a != b
  {
    hide With, Without, Meets, Mask, Common;
    MasksMeet(a, b);
    MasksMeet(a, a);
    WithMeets(w, Mask(a), Mask(b));
    WithItself(w, Mask(a));
    WithoutMeets(w, Mask(a), Mask(b));
    WithoutItself(w, Mask(a));
  }
}
