/**
 * The two multiplicative pseudo-random generators: `urand` in the user
 * library and `rand` in the kernel.  Both compute `16807 * state` in 32-bit
 * unsigned arithmetic (so the product wraps modulo 2^32) and then reduce it
 * modulo `(unsigned)-1 >> 1`, that is 2^31 - 1.  The state lives in a
 * function-local static variable, modelled as a field of a class.
 */
module Random {

  /** Number of values of a 32-bit `unsigned`. */
  const Word: nat := 0x1_0000_0000

  /** An `unsigned` value. */
  type U32 = x: int | 0 <= x < Word

  /** The Park-Miller multiplier. */
  const Multiplier: nat := 16807

  /** `(unsigned)-1 >> 1`, the Park-Miller modulus 2^31 - 1. */
  const Modulus: nat := 0x7FFF_FFFF

  /** Initial value of `rnd` in `urand`. */
  const UserSeed: U32 := 12

  /**
   * One step of both generators: the product is truncated to 32 bits
   * before the reduction.  The new state is always below the modulus.
   */
  function Step(s: U32): (r: U32)
    ensures r < Modulus
  {
    (Multiplier * s) % Word % Modulus
  }

  /** The exact Park-Miller step, without the 32-bit truncation. */
  function ExactStep(s: U32): (r: nat)
    ensures r < Modulus
  {
    (Multiplier * s) % Modulus
  }

  /** `Step` applied `k` times to `s`. */
  function Iterate(k: nat, s: U32): (r: U32)
    ensures k > 0 ==> r < Modulus
  {
    if k == 0 then s else Step(Iterate(k - 1, s))
  }

  /** While the product fits in 32 bits the step is exact Park-Miller. */
  lemma StepExactWhenNoWrap(s: U32)
    requires Multiplier * s < Word
    ensures Step(s) == ExactStep(s)
  {
  }

  /**
   * The truncation matters: the largest state below the modulus steps to a
   * different value than exact Park-Miller would give.
   */
  lemma StepDiffersFromParkMiller()
    ensures Step(Modulus - 1) == 2147450034
    ensures ExactStep(Modulus - 1) == 2147466840
    ensures Step(Modulus - 1) != ExactStep(Modulus - 1)
  {
  }

  /**
   * Zero is a fixed point of the step, and, because of the truncation, a
   * nonzero state below the modulus reaches it: from there `urand` returns
   * 0 forever (exact Park-Miller never reaches 0 from a state in
   * [1, 2^31 - 2]).
   */
  lemma StepReachesZero()
    ensures Step(0) == 0
    ensures 0 < 868985321 < Modulus && Step(868985321) == 0
    ensures ExactStep(868985321) != 0
  {
  }

  /** Running `a` steps after `b` steps is running `a + b` steps. */
  lemma {:induction false} IterateAdd(a: nat, b: nat, s: U32)
    ensures Iterate(a, Iterate(b, s)) == Iterate(a + b, s)
  {
    if a > 0 {
      IterateAdd(a - 1, b, s);
    }
  }

  /** The first values `urand` returns. */
  lemma UserSequenceStart()
    ensures Iterate(1, UserSeed) == 201684
    ensures Iterate(2, UserSeed) == 1242219341
    ensures Iterate(3, UserSeed) == 144438331
  {
  }

  /** `urand` and its static state `rnd`. */
  class UserRand {
    var rnd: U32
    /** Number of calls made so far. */
    ghost var calls: nat

    ghost predicate Valid()
      reads this
    {
      rnd == Iterate(calls, UserSeed)
    }

    constructor ()
      ensures Valid() && calls == 0 && rnd == 12
    {
      rnd := UserSeed;
      calls := 0;
    }

    /** The n-th call returns the step applied n times to 12. */
    method URand() returns (v: U32)
      requires Valid()
      modifies this
      ensures Valid() && calls == old(calls) + 1
      ensures rnd == Step(old(rnd)) && v == rnd
      ensures v == Iterate(calls, UserSeed) && v < Modulus
    {
      rnd := Step(rnd);
      calls := calls + 1;
      v := rnd;
    }
  }

  /**
   * The kernel's `rand` and its static state `r`.  While `r` is 0 the next
   * call stores the external `random` value unchanged; `random` is a
   * parameter of each call.
   */
  class KernelRand {
    var r: U32

    constructor ()
      ensures r == 0
    {
      r := 0;
    }

    method Rand(random: U32) returns (v: U32)
      modifies this
      ensures old(r) == 0 ==> r == random
      ensures old(r) != 0 ==> r == Step(old(r)) && r < Modulus
      ensures v == r
    {
      r := if r != 0 then Step(r) else random;
      v := r;
    }
  }

  /**
   * Two kernel calls from a zero state: the first returns the seed, the
   * second its step (or the seed again, when the seed is 0).
   */
  method KernelTwoCalls(random1: U32, random2: U32) returns (v1: U32, v2: U32)
    ensures v1 == random1
    ensures v2 == if random1 == 0 then random2 else Step(random1)
  {
    var g := new KernelRand();
    v1 := g.Rand(random1);
    v2 := g.Rand(random2);
  }
}
