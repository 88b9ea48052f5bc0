/** The CRC register: one single-bit step. */
module Crc32Bits {

  function Xor(a: bv32, b: bv32): (r: bv32) {
    a ^ b
  }

  /** One byte place up. */
  function Up(z: bv32): (r: bv32) {
    z << 8
  }

  /**
    Shift one bit out of the register, subtracting the reflected polynomial when it was set.
  */
  function BitStep(c: bv32): (r: bv32) {
    if c & 1 == 1 then (c >> 1) ^ 0xEDB88320 else c >> 1
  }

  lemma LowBit(a: bv32, b: bv32)
    ensures ((a ^ b) & 1 == 1) <==> ((a & 1 == 1) != (b & 1 == 1))
  {}

  lemma NoneSet(a: bv32, b: bv32, x: bv32, y: bv32)
    requires x == a >> 1 && y == b >> 1
    ensures x ^ y == (a ^ b) >> 1
  {}

  lemma FirstSet(a: bv32, b: bv32, x: bv32, y: bv32)
    requires x == (a >> 1) ^ 0xEDB88320 && y == b >> 1
    ensures x ^ y == ((a ^ b) >> 1) ^ 0xEDB88320
  {}

  lemma SecondSet(a: bv32, b: bv32, x: bv32, y: bv32)
    requires x == a >> 1 && y == (b >> 1) ^ 0xEDB88320
    ensures x ^ y == ((a ^ b) >> 1) ^ 0xEDB88320
  {}

  lemma BothSet(a: bv32, b: bv32, x: bv32, y: bv32)
    requires x == (a >> 1) ^ 0xEDB88320 && y == (b >> 1) ^ 0xEDB88320
    ensures x ^ y == (a ^ b) >> 1
  {}

  predicate StepsApart(a: bv32, b: bv32) {
    BitStep(a ^ b) == BitStep(a) ^ BitStep(b)
  }

  lemma StepNoneSet(a: bv32, b: bv32)
    requires a & 1 != 1 && b & 1 != 1
    ensures StepsApart(a, b)
  {
    LowBit(a, b);
    NoneSet(a, b, BitStep(a), BitStep(b));
  }

  lemma StepFirstSet(a: bv32, b: bv32)
    requires a & 1 == 1 && b & 1 != 1
    ensures StepsApart(a, b)
  {
    LowBit(a, b);
    FirstSet(a, b, BitStep(a), BitStep(b));
  }

  lemma StepSecondSet(a: bv32, b: bv32)
    requires a & 1 != 1 && b & 1 == 1
    ensures StepsApart(a, b)
  {
    LowBit(a, b);
    SecondSet(a, b, BitStep(a), BitStep(b));
  }

  lemma StepBothSet(a: bv32, b: bv32)
    requires a & 1 == 1 && b & 1 == 1
    ensures StepsApart(a, b)
  {
    LowBit(a, b);
    BothSet(a, b, BitStep(a), BitStep(b));
  }

  /** Subtraction of polynomials is bitwise, so a step distributes over XOR. */
  lemma BitStepXor(a: bv32, b: bv32)
    ensures StepsApart(a, b)
  {
    if a & 1 == 1 {
      if b & 1 == 1 { StepBothSet(a, b); } else { StepFirstSet(a, b); }
    } else {
      if b & 1 == 1 { StepSecondSet(a, b); } else { StepNoneSet(a, b); }
    }
  }

  lemma BitStepLinear(a: bv32, b: bv32)
    ensures BitStep(Xor(a, b)) == Xor(BitStep(a), BitStep(b))
  {
    BitStepXor(a, b);
  }

  /** The polynomial has its top bit set, so a step loses nothing. */
  lemma BitStepInjective(a: bv32, b: bv32)
    requires BitStep(a) == BitStep(b)
    ensures a == b
  {}
}

/** The CRC register: eight single-bit steps for a byte. */
module Crc32Steps {
  import opened Crc32Bits
  import opened Folds

  /** Eight single-bit steps. */
  function ByteStep(c: bv32): (r: bv32) {
    Iterate(BitStep, 8, c)
  }

  /** ByteStep written out. */
  function EightSteps(c: bv32): (r: bv32) {
    BitStep(BitStep(BitStep(BitStep(BitStep(BitStep(BitStep(BitStep(c))))))))
  }

  lemma ByteStepIsEightSteps(c: bv32)
    ensures ByteStep(c) == EightSteps(c)
  {
    IterateEight(BitStep, c);
  }

  lemma ByteStepDistributes()
    ensures Distributes(ByteStep, Xor)
  {
    forall a: bv32, b: bv32
      ensures ByteStep(Xor(a, b)) == Xor(ByteStep(a), ByteStep(b))
    {
      ByteStepLinear(a, b);
    }
  }

  lemma ByteStepLinear(a: bv32, b: bv32)
    ensures ByteStep(Xor(a, b)) == Xor(ByteStep(a), ByteStep(b))
  {
    forall a: bv32, b: bv32
      ensures BitStep(Xor(a, b)) == Xor(BitStep(a), BitStep(b))
    {
      BitStepLinear(a, b);
    }
    IterateDistributes(BitStep, Xor, 8, a, b);
  }

  lemma ByteStepInjective(a: bv32, b: bv32)
    requires ByteStep(a) == ByteStep(b)
    ensures a == b
  {
    forall a: bv32, b: bv32 | BitStep(a) == BitStep(b)
      ensures a == b
    {
      BitStepInjective(a, b);
    }
    IterateInjective(BitStep, 8, a, b);
  }

  lemma EvenStep(c: bv32)
    requires c & 1 == 0
    ensures BitStep(c) == c >> 1
  {}

  lemma ClearBits(c: bv32)
    requires c & 0xFF == 0
    ensures c & 1 == 0 && (c >> 1) & 1 == 0 && (c >> 2) & 1 == 0 && (c >> 3) & 1 == 0
    ensures (c >> 4) & 1 == 0 && (c >> 5) & 1 == 0 && (c >> 6) & 1 == 0 && (c >> 7) & 1 == 0
  {}

  lemma ShiftChain(c: bv32)
    ensures (c >> 1) >> 1 == c >> 2 && (c >> 2) >> 1 == c >> 3 && (c >> 3) >> 1 == c >> 4
    ensures (c >> 4) >> 1 == c >> 5 && (c >> 5) >> 1 == c >> 6 && (c >> 6) >> 1 == c >> 7
    ensures (c >> 7) >> 1 == c >> 8
  {}

  /** With the low byte clear nothing is subtracted: eight steps are a shift. */
  lemma ByteStepShifts(c: bv32, t: bv32)
    requires c & 0xFF == 0 && c >> 8 == t
    ensures ByteStep(c) == t
  {
    ClearBits(c);
    ShiftChain(c);
    EvenStep(c);
    EvenStep(c >> 1);
    EvenStep(c >> 2);
    EvenStep(c >> 3);
    EvenStep(c >> 4);
    EvenStep(c >> 5);
    EvenStep(c >> 6);
    EvenStep(c >> 7);
    ByteStepIsEightSteps(c);
  }

  lemma UpBits(z: bv32)
    requires z & 0xFF00_0000 == 0
    ensures Up(z) & 0xFF == 0 && Up(z) >> 8 == z
  {}

  /** A value one place up is stepped down to itself. */
  lemma StepUp(u: bv32, z: bv32)
    requires z & 0xFF00_0000 == 0
    ensures ByteStep(Xor(u, Up(z))) == Xor(ByteStep(u), z)
  {
    UpBits(z);
    ByteStepLinear(u, Up(z));
    ByteStepShifts(Up(z), z);
  }

  lemma XorAssociative(a: bv32, b: bv32, d: bv32)
    ensures Xor(a, Xor(b, d)) == Xor(Xor(a, b), d)
  {
    XorRegroup(a, b, d, Xor(b, d), Xor(a, b));
  }

  lemma XorRegroup(a: bv32, b: bv32, d: bv32, p: bv32, q: bv32)
    requires p == b ^ d && q == a ^ b
    ensures a ^ p == q ^ d
  {}

  lemma XorAssociates()
    ensures forall a, b, d :: Xor(a, Xor(b, d)) == Xor(Xor(a, b), d)
  {
    forall a, b, d
      ensures Xor(a, Xor(b, d)) == Xor(Xor(a, b), d)
    {
      XorAssociative(a, b, d);
    }
  }

  lemma XorCancel(a: bv32, b: bv32, x: bv32)
    requires Xor(a, x) == Xor(b, x)
    ensures a == b
  {
    assert (a ^ x) ^ x == a && (b ^ x) ^ x == b;
  }

  lemma XorCancelLeft(x: bv32, a: bv32, b: bv32)
    requires Xor(x, a) == Xor(x, b)
    ensures a == b
  {
    assert x ^ (x ^ a) == a && x ^ (x ^ b) == b;
  }

  lemma Complement(c: bv32)
    ensures !c == c ^ 0xFFFF_FFFF
  {}
}
