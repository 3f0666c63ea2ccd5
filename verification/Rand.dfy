/** The 48-bit linear congruential generator of rand.c, computed on three 16-bit limbs. */
module Rand {

  const LIMB: int := 0x1_0000
  const MODULUS: int := 0x1_0000_0000_0000
  const A0: int := 0xE66D
  const A1: int := 0xDEEC
  const A2: int := 0x5
  const C: int := 0xB

  /** The generator of POSIX drand48(): X' = (0x5DEECE66D X + 0xB) mod 2^48. */
  function Step(x: nat): (r: nat)
    ensures r < MODULUS
  {
    (0x5DEECE66D * x + 0xB) % 0x1_0000_0000_0000
  }

  /** The step undone: 0xDFE05BCB1365 is the inverse of the multiplier. */
  function Undo(y: nat): (r: nat)
    ensures r < MODULUS
  {
    (0xDFE05BCB1365 * (y - C)) % MODULUS
  }

  lemma ModUnique(a: int, q: int, r: int)
    requires a == MODULUS * q + r && 0 <= r < MODULUS
    ensures a % MODULUS == r
  {}

  /** No two states have the same successor. */
  lemma StepIsInjective(x: nat)
    requires x < MODULUS
    ensures Undo(Step(x)) == x
  {
    var q := (0x5DEECE66D * x + C) / MODULUS;
    assert Step(x) == 0x5DEECE66D * x + C - MODULUS * q;
    ModUnique(0xDFE05BCB1365 * (Step(x) - C), 0x5225586E9 * x - 0xDFE05BCB1365 * q, x);
  }

  /** LOW of a non-negative number. */
  function Low(v: int): (l: int)
    requires v >= 0
    ensures 0 <= l < LIMB
  {
    v % LIMB
  }

  function Carry(x: int, y: int): (k: int)
    ensures k == 0 || k == 1
  {
    if x + y >= LIMB then 1 else 0
  }

  lemma LowCarry(x: int, y: int)
    requires 0 <= x < LIMB && 0 <= y <= LIMB
    ensures x + y == Low(x + y) + LIMB * Carry(x, y)
  {}

  /** The limbs of a state, least significant first. */
  predicate IsLimb(v: int) {
    0 <= v < LIMB
  }

  function State(x0: int, x1: int, x2: int): (x: nat)
    requires IsLimb(x0) && IsLimb(x1) && IsLimb(x2)
    ensures x < MODULUS
  {
    x0 + LIMB * x1 + LIMB * LIMB * x2
  }

  /** MUL: the two halves of a 32-bit product. */
  method Mul(x: int, y: int) returns (z0: int, z1: int)
    requires IsLimb(x) && IsLimb(y) && x * y < LIMB * LIMB && 0 <= x * y
    ensures IsLimb(z0) && IsLimb(z1) && z0 + LIMB * z1 == x * y
  {
    var l := x * y;
    z0, z1 := Low(l), Low(l / LIMB);
  }

  /** ADDEQU: the sum and its carry. */
  method AddEqu(x: int, y: int) returns (z: int, carry: int)
    requires IsLimb(x) && IsLimb(y)
    ensures IsLimb(z) && (carry == 0 || carry == 1) && x + y == z + LIMB * carry
  {
    carry := Carry(x, y);
    z := Low(x + y);
    LowCarry(x, y);
  }

  /** The carries and the wrapped top limb add up to the product of the whole numbers. */
  lemma LimbsMultiply(x0: int, x1: int, x2: int, p0: int, p1: int, q0: int, q1: int, r0: int, r1: int,
                      y0: int, s1: int, t1: int, y1: int, y2: int, c0: int, c1: int, d0: int, e0: int, m: int)
    requires IsLimb(x0) && IsLimb(x1) && IsLimb(x2) && IsLimb(y0) && IsLimb(y1) && IsLimb(y2)
    requires p0 + LIMB * p1 == A0 * x0 && q0 + LIMB * q1 == A0 * x1 && r0 + LIMB * r1 == A1 * x0
    requires p0 + C == y0 + LIMB * c0 && p1 + c0 == s1 + LIMB * c1 && s1 + q0 == t1 + LIMB * d0
      && t1 + r0 == y1 + LIMB * e0
    requires d0 + c1 + e0 + q1 + r1 + A0 * x2 + A1 * x1 + A2 * x0 == y2 + LIMB * m
    ensures State(y0, y1, y2) == Step(State(x0, x1, x2))
  {
    var k := m + A1 * x2 + A2 * x1 + LIMB * (A2 * x2);
    assert 0x5DEECE66D * State(x0, x1, x2) + C == MODULUS * k + State(y0, y1, y2);
    ModUnique(0x5DEECE66D * State(x0, x1, x2) + C, k, State(y0, y1, y2));
  }

  lemma LowWraps(v: int)
    requires v >= 0
    ensures v == Low(v % (LIMB * LIMB)) + LIMB * (v / LIMB)
  {}

  class Generator {
    var x0: int
    var x1: int
    var x2: int

    ghost predicate Valid()
      reads this
    {
      IsLimb(x0) && IsLimb(x1) && IsLimb(x2)
    }

    /** The static initialiser. */
    constructor ()
      ensures Valid() && State(x0, x1, x2) == 0x1234ABCD330E
    {
      x0, x1, x2 := 0x330E, 0xABCD, 0x1234;
    }

    /** next */
    method Next()
      requires Valid()
      modifies this
      ensures Valid() && State(x0, x1, x2) == Step(old(State(x0, x1, x2)))
    {
      hide State, Step;
      var p0, p1 := Mul(A0, x0);
      var y0, carry0 := AddEqu(p0, C);
      ghost var c0 := carry0;
      var s1, carry1 := AddEqu(p1, carry0);
      var q0, q1 := Mul(A0, x1);
      var t1;
      t1, carry0 := AddEqu(s1, q0);
      var r0, r1 := Mul(A1, x0);
      ghost var was0, was1, was2 := x0, x1, x2;
      var sum := carry0 + carry1 + Carry(t1, r0) + q1 + r1 + A0 * x2 + A1 * x1 + A2 * x0;
      LowWraps(sum);
      x2 := Low(sum % (LIMB * LIMB));
      LowCarry(t1, r0);
      x1 := Low(t1 + r0);
      x0 := y0;
      LimbsMultiply(was0, was1, was2, p0, p1, q0, q1, r0, r1, y0, s1, t1, x1, x2, c0, carry1, carry0, Carry(t1, r0),
        sum / LIMB);
    }

    /** redisLrand48: the top 31 bits of the new state. */
    method Lrand48() returns (r: int)
      requires Valid()
      modifies this
      ensures Valid() && State(x0, x1, x2) == Step(old(State(x0, x1, x2)))
      ensures r == State(x0, x1, x2) / 0x2_0000 && 0 <= r < 0x8000_0000
    {
      Next();
      r := x2 * 0x8000 + x1 / 2;
    }

    /** redisSrand48: the seed's 32 bits above the fixed low limb. */
    method Srand48(seedval: int)
      requires -0x8000_0000 <= seedval < 0x8000_0000
      modifies this
      ensures Valid() && State(x0, x1, x2) == seedval % 0x1_0000_0000 * LIMB + 0x330E
    {
      var bits := seedval % 0x1_0000_0000;
      x0, x1, x2 := 0x330E, Low(bits), Low(bits / LIMB);
    }
  }
}
