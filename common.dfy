// The xorshift32 generator of src/common.rs.
module Common {

  /** The value the generator state holds before the first call. */
  const Seed: bv32 := 314159265

  /** The three in-place updates of one xorshift32 call. A shift on bv32
      drops the bits pushed out of the word, as a u32 shift does. */
  function XorShl13(x: bv32): bv32 { x ^ (x << 13) }
  function XorShr17(x: bv32): bv32 { x ^ (x >> 17) }
  function XorShl5(x: bv32): bv32 { x ^ (x << 5) }

  /** One xorshift32 step: the three updates in source order. */
  function Step(x: bv32): bv32
  {
    XorShl5(XorShr17(XorShl13(x)))
  }

  /** A nonzero state never steps to zero: each of the three updates
      keeps a nonzero word nonzero. */
  lemma StepPreservesNonzero(x: bv32)
    requires x != 0
    ensures Step(x) != 0
  {
  }

  /** The state after `n` calls of the generator, starting from Seed. */
  function StateAfter(n: nat): bv32
  {
    if n == 0 then Seed else Step(StateAfter(n - 1))
  }

  /** From the given seed the generator never holds, nor returns, zero. */
  lemma {:induction false} StateAfterNonzero(n: nat)
    ensures StateAfter(n) != 0
  {
    if n > 0 {
      StateAfterNonzero(n - 1);
      StepPreservesNonzero(StateAfter(n - 1));
    }
  }

  /** The output sequence is fixed from the first call on. */
  lemma FirstOutputs()
    ensures StateAfter(1) == 0xb11d_dc17
    ensures StateAfter(2) == 0x5978_1258
    ensures StateAfter(3) == 0x3d54_c7e1
  {
  }

  /** The process-wide generator state of `xorshift32`, as an object. */
  class Xorshift32 {
    var state: bv32
    /** How many values have been drawn so far. */
    ghost var calls: nat

    ghost predicate Valid()
      reads this
    {
      state == StateAfter(calls)
    }

    constructor ()
      ensures Valid() && calls == 0 && state == Seed
    {
      state := Seed;
      calls := 0;
    }

    /** `xorshift32`: update the stored state in place, return it. */
    method Next() returns (r: bv32)
      requires Valid()
      modifies this
      ensures Valid() && calls == old(calls) + 1
      ensures state == Step(old(state))
      ensures r == state && r != 0
    {
      StateAfterNonzero(calls + 1);
      state := XorShl13(state);
      state := XorShr17(state);
      state := XorShl5(state);
      calls := calls + 1;
      r := state;
    }
  }
}

// clampf32 and saturatef32 of src/common.rs, over `real`.
module Clamping {

  /** `clampf32(min, max, x)`: `max` is tested first, so when the bounds
      are inverted, an `x` above `max` gives `max` and any other gives `min`. */
  function Clamp(min: real, max: real, x: real): (r: real)
    ensures r == x || r == min || r == max
    ensures x > max ==> r == max
    ensures min <= max ==> min <= r <= max
    ensures min <= x <= max ==> r == x
    ensures x <= max && x < min ==> r == min
    ensures max < min ==> (r == max <==> x > max)
  {
    if x > max then max
    else if x < min then min
    else x
  }

  /** `saturatef32(x)`: clamp to the unit interval. */
  function Saturate(x: real): (r: real)
    ensures 0.0 <= r <= 1.0
    ensures 0.0 <= x <= 1.0 ==> r == x
    ensures x < 0.0 ==> r == 0.0
    ensures x > 1.0 ==> r == 1.0
  {
    Clamp(0.0, 1.0, x)
  }

  function Min(a: real, b: real): real { if a <= b then a else b }
  function Max(a: real, b: real): real { if a <= b then b else a }

  /** With ordered bounds, Clamp agrees with the usual min/max formulation. */
  lemma ClampIsMinMax(min: real, max: real, x: real)
    requires min <= max
    ensures Clamp(min, max, x) == Max(min, Min(max, x))
  {
  }

  /** With ordered bounds, clamping twice is clamping once. */
  lemma ClampIdempotent(min: real, max: real, x: real)
    requires min <= max
    ensures Clamp(min, max, Clamp(min, max, x)) == Clamp(min, max, x)
  {
  }

  /** With inverted bounds, clamping is not idempotent: the result swaps
      between `max` and `min` on every application. */
  lemma ClampInvertedOscillates(min: real, max: real, x: real)
    requires max < min
    ensures Clamp(min, max, x) != Clamp(min, max, Clamp(min, max, x))
    ensures {Clamp(min, max, x), Clamp(min, max, Clamp(min, max, x))} == {min, max}
  {
  }

  /** With ordered bounds, Clamp is monotone in `x`. */
  lemma ClampMonotone(min: real, max: real, x: real, y: real)
    requires min <= max && x <= y
    ensures Clamp(min, max, x) <= Clamp(min, max, y)
  {
  }
}
