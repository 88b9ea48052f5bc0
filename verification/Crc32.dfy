/**
  CRC-32 as PartitionTableParser::crc32 computes it, against the bit-at-a-time definition with
  the reflected polynomial 0xEDB88320 (section 8 of RFC 1952), and what the checksum detects.
*/
module Crc32 {
  import opened Crc32Bits
  import opened Crc32Steps
  import Crc32Table
  import opened Folds

  /** XOR a byte into the register and take eight single-bit steps. */
  function Absorb(c: bv32, x: bv8): (r: bv32) {
    ByteStep(Xor(c, x as bv32))
  }

  /** The register after feeding data to a fresh register. */
  function Register(data: seq<bv8>): (r: bv32) {
    Fold(Absorb, 0xFFFF_FFFF, data)
  }

  /** The reference checksum: the register with every bit flipped. */
  function Checksum(data: seq<bv8>): (r: bv32) {
    Xor(Register(data), 0xFFFF_FFFF)
  }

  // ---------------------------------------------------------------------------------
  // The table loop computes the reference
  // ---------------------------------------------------------------------------------

  /** crc32_table[(crc ^ byte) & 0xFF] ^ (crc >> 8), for any table of 256 entries. */
  function AbsorbByTable(table: bv8 -> bv32, c: bv32, x: bv8): (r: bv32) {
    Xor(table((Xor(c, x as bv32) & 0xFF) as bv8), c >> 8)
  }

  /** table holds what step makes of each index. */
  ghost predicate StepTable(step: bv32 -> bv32, table: bv8 -> bv32) {
    forall i: bv8 :: table(i) == step(i as bv32)
  }

  lemma Halves(c: bv32)
    ensures Xor(((c & 0xFF) as bv8) as bv32, c & 0xFFFF_FF00) == c
    ensures (c & 0xFFFF_FF00) & 0xFF == 0 && (c & 0xFFFF_FF00) >> 8 == c >> 8
  {}

  lemma ShiftPastByte(c: bv32, x: bv8)
    ensures Xor(c, x as bv32) >> 8 == c >> 8
  {}

  /** One look-up and a shift are one step, for any linear step that shifts a clear low byte out. */
  lemma TableStep(step: bv32 -> bv32, table: bv8 -> bv32, c: bv32, x: bv8)
    requires StepTable(step, table)
    requires Distributes(step, Xor)
    requires forall z: bv32 :: z & 0xFF == 0 ==> step(z) == z >> 8
    ensures AbsorbByTable(table, c, x) == step(Xor(c, x as bv32))
  {
    var y := Xor(c, x as bv32);
    var low, high := ((y & 0xFF) as bv8) as bv32, y & 0xFFFF_FF00;
    Halves(y);
    ShiftPastByte(c, x);
    assert step(Xor(low, high)) == Xor(step(low), step(high));
  }

  lemma TableAbsorbs(table: bv8 -> bv32, c: bv32, x: bv8)
    requires StepTable(ByteStep, table)
    ensures AbsorbByTable(table, c, x) == Absorb(c, x)
  {
    ByteStepDistributes();
    forall z: bv32 | z & 0xFF == 0
      ensures ByteStep(z) == z >> 8
    {
      ByteStepShifts(z, z >> 8);
    }
    TableStep(ByteStep, table, c, x);
  }

  /** The table-driven loop, for any table that holds eight single-bit steps of each index. */
  method ComputeByTable(table: bv8 -> bv32, data: seq<bv8>) returns (r: bv32)
    requires StepTable(ByteStep, table)
    ensures r == Checksum(data)
  {
    var crc: bv32 := 0xFFFF_FFFF;
    for i := 0 to |data|
      invariant crc == Register(data[..i])
    {
      assert data[..i + 1] == data[..i] + [data[i]];
      FoldLast(Absorb, 0xFFFF_FFFF, data[..i], data[i]);
      TableAbsorbs(table, crc, data[i]);
      crc := AbsorbByTable(table, crc, data[i]);
    }
    assert data[..|data|] == data;
    r := !crc;
    Complement(crc);
  }

  /** PartitionTableParser::crc32, with its literal table. */
  method ComputeCrc32(data: seq<bv8>) returns (r: bv32)
    ensures r == Checksum(data)
  {
    forall i: bv8
      ensures Crc32Table.Table(i) == ByteStep(i as bv32)
    {
      Crc32Table.TableMatches(i);
    }
    r := ComputeByTable(Crc32Table.Table, data);
  }

  // ---------------------------------------------------------------------------------
  // What the checksum detects
  // ---------------------------------------------------------------------------------

  lemma AbsorbReversible()
    ensures Reversible(Absorb)
  {
    forall a: bv32, b: bv32, x: bv8 | Absorb(a, x) == Absorb(b, x)
      ensures a == b
    {
      ByteStepInjective(Xor(a, x as bv32), Xor(b, x as bv32));
      XorCancel(a, b, x as bv32);
    }
  }

  /** Four bytes as one register value, first byte lowest. */
  function Word(x0: bv8, x1: bv8, x2: bv8, x3: bv8): (r: bv32) {
    Xor(x0 as bv32, Up(Xor(x1 as bv32, Up(Xor(x2 as bv32, Up(x3 as bv32))))))
  }

  lemma WordInjective(x0: bv8, x1: bv8, x2: bv8, x3: bv8, y0: bv8, y1: bv8, y2: bv8, y3: bv8)
    requires Word(x0, x1, x2, x3) == Word(y0, y1, y2, y3)
    ensures x0 == y0 && x1 == y1 && x2 == y2 && x3 == y3
  {}

  /** The algebra of the next lemma, free of bits: step moves a shifted value one place down. */
  lemma StepFour<T(!new)>(step: T -> T, xor: (T, T) -> T, up: T -> T,
                          c: T, x0: T, x1: T, x2: T, x3: T, z1: T, z2: T, c1: T, c2: T)
    requires forall a, b, d :: xor(a, xor(b, d)) == xor(xor(a, b), d)
    requires z2 == xor(x2, up(x3)) && z1 == xor(x1, up(z2))
    requires c1 == step(xor(c, x0)) && c2 == step(xor(c1, x1))
    requires step(xor(xor(c, x0), up(z1))) == xor(c1, z1)
    requires step(xor(xor(c1, x1), up(z2))) == xor(c2, z2)
    requires step(xor(xor(c2, x2), up(x3))) == xor(step(xor(c2, x2)), x3)
    ensures step(step(step(step(xor(c, xor(x0, up(z1))))))) == step(xor(step(xor(c2, x2)), x3))
  {
    assert xor(c, xor(x0, up(z1))) == xor(xor(c, x0), up(z1));
    assert xor(c1, z1) == xor(xor(c1, x1), up(z2));
    assert xor(c2, z2) == xor(xor(c2, x2), up(x3));
  }

  /** Absorbing four bytes is XORing them into the register at once and taking 32 steps. */
  lemma AbsorbFour(c: bv32, x0: bv8, x1: bv8, x2: bv8, x3: bv8)
    ensures Absorb(Absorb(Absorb(Absorb(c, x0), x1), x2), x3)
            == ByteStep(ByteStep(ByteStep(ByteStep(Xor(c, Word(x0, x1, x2, x3))))))
  {
    var z2 := Xor(x2 as bv32, Up(x3 as bv32));
    var z1 := Xor(x1 as bv32, Up(z2));
    var c1 := Absorb(c, x0);
    var c2 := Absorb(c1, x1);
    ClearTop(x1, x2, x3);
    StepUp(Xor(c, x0 as bv32), z1);
    StepUp(Xor(c1, x1 as bv32), z2);
    StepUp(Xor(c2, x2 as bv32), x3 as bv32);
    XorAssociates();
    StepFour(ByteStep, Xor, Up, c, x0 as bv32, x1 as bv32, x2 as bv32, x3 as bv32, z1, z2, c1, c2);
  }

  lemma ClearTop(x1: bv8, x2: bv8, x3: bv8)
    ensures (x3 as bv32) & 0xFF00_0000 == 0
    ensures Xor(x2 as bv32, Up(x3 as bv32)) & 0xFF00_0000 == 0
    ensures Xor(x1 as bv32, Up(Xor(x2 as bv32, Up(x3 as bv32)))) & 0xFF00_0000 == 0
  {}

  // ---------------------------------------------------------------------------------
  // Where the register starts and how it is read
  // ---------------------------------------------------------------------------------

  /** The four bytes of a checksum, lowest first. */
  function Bytes(w: bv32): (bytes: seq<bv8>)
    ensures |bytes| == 4
  {
    [(w & 0xFF) as bv8, ((w >> 8) & 0xFF) as bv8, ((w >> 16) & 0xFF) as bv8, ((w >> 24) & 0xFF) as bv8]
  }

  lemma WordOfBytes(w: bv32)
    ensures Word(Bytes(w)[0], Bytes(w)[1], Bytes(w)[2], Bytes(w)[3]) == w
  {}

  lemma StepFrom(c: bv32, c': bv32)
    requires EightSteps(c) == c'
    ensures ByteStep(c) == c'
  {
    ByteStepIsEightSteps(c);
  }

  /** What four bytes make of a register whose bits are all set. */
  lemma FourStepsOfOnes()
    ensures ByteStep(ByteStep(ByteStep(ByteStep(0xFFFF_FFFF)))) == 0xDEBB_20E3
  {
    StepFrom(0xFFFF_FFFF, 0x2DFD_1072);
    StepFrom(0x2DFD_1072, 0xBE26_ED00);
    StepFrom(0xBE26_ED00, 0x00BE_26ED);
    StepFrom(0x00BE_26ED, 0xDEBB_20E3);
  }

  lemma FlippedBits(c: bv32, w: bv32)
    requires w == Xor(c, 0xFFFF_FFFF)
    ensures Xor(c, w) == 0xFFFF_FFFF
  {}

  /** Nothing has the checksum 0. */
  lemma ChecksumOfNothing()
    ensures Checksum([]) == 0
  {
    assert Fold(Absorb, 0xFFFF_FFFF, []) == 0xFFFF_FFFF;
  }

  /** Data followed by its own checksum, lowest byte first, always has the same checksum. */
  lemma ChecksumOfItsOwn(data: seq<bv8>)
    ensures Checksum(data + Bytes(Checksum(data))) == 0x2144_DF1C
  {
    var c, w := Register(data), Checksum(data);
    var x := Bytes(w);
    FoldAppend(Absorb, 0xFFFF_FFFF, data, x);
    FoldFour(Absorb, c, x);
    AbsorbFour(c, x[0], x[1], x[2], x[3]);
    WordOfBytes(w);
    FlippedBits(c, w);
    FourStepsOfOnes();
    assert Register(data + x) == 0xDEBB_20E3;
    assert Xor(0xDEBB_20E3, 0xFFFF_FFFF) == 0x2144_DF1C;
  }

  /** A zero byte in front changes every checksum: the register does not start out empty. */
  lemma LeadingZeroShows(data: seq<bv8>)
    ensures Checksum([0] + data) != Checksum(data)
  {
    var ones: bv32 := 0xFFFF_FFFF;
    var c := Absorb(ones, 0);
    assert Xor(ones, 0) == ones;
    StepFrom(ones, 0x2DFD_1072);
    AbsorbReversible();
    assert ([0] + data)[1..] == data;
    assert Register([0] + data) == Fold(Absorb, c, data);
    if Fold(Absorb, c, data) == Fold(Absorb, ones, data) {
      FoldInjective(Absorb, c, ones, data);
    }
    ChecksumIsRegister([0] + data, data);
  }

  /** Four bytes can be told apart by the register they leave behind. */
  lemma FourBytesInjective(c: bv32, x: seq<bv8>, y: seq<bv8>)
    requires |x| == |y| == 4
    requires Fold(Absorb, c, x) == Fold(Absorb, c, y)
    ensures x == y
  {
    FoldFour(Absorb, c, x);
    FoldFour(Absorb, c, y);
    AbsorbFour(c, x[0], x[1], x[2], x[3]);
    AbsorbFour(c, y[0], y[1], y[2], y[3]);
    FourSteps(Xor(c, Word(x[0], x[1], x[2], x[3])), Xor(c, Word(y[0], y[1], y[2], y[3])));
    XorCancelLeft(c, Word(x[0], x[1], x[2], x[3]), Word(y[0], y[1], y[2], y[3]));
    WordInjective(x[0], x[1], x[2], x[3], y[0], y[1], y[2], y[3]);
  }

  lemma FoldFour<S, X>(absorb: (S, X) -> S, s: S, x: seq<X>)
    requires |x| == 4
    ensures Fold(absorb, s, x) == absorb(absorb(absorb(absorb(s, x[0]), x[1]), x[2]), x[3])
  {
    assert x == [x[0]] + [x[1]] + [x[2]] + [x[3]];
    FoldLast(absorb, s, [x[0]] + [x[1]] + [x[2]], x[3]);
    FoldLast(absorb, s, [x[0]] + [x[1]], x[2]);
    FoldLast(absorb, s, [x[0]], x[1]);
  }

  lemma FourSteps(a: bv32, b: bv32)
    requires ByteStep(ByteStep(ByteStep(ByteStep(a)))) == ByteStep(ByteStep(ByteStep(ByteStep(b))))
    ensures a == b
  {
    ByteStepInjective(ByteStep(ByteStep(ByteStep(a))), ByteStep(ByteStep(ByteStep(b))));
    ByteStepInjective(ByteStep(ByteStep(a)), ByteStep(ByteStep(b)));
    ByteStepInjective(ByteStep(a), ByteStep(b));
    ByteStepInjective(a, b);
  }

  /** So can fewer bytes: feed zeros until there are four. */
  lemma {:induction false} FewBytesInjective(c: bv32, x: seq<bv8>, y: seq<bv8>)
    requires |x| == |y| <= 4
    requires Fold(Absorb, c, x) == Fold(Absorb, c, y)
    ensures x == y
    decreases 4 - |x|
  {
    if |x| == 4 {
      FourBytesInjective(c, x, y);
    } else {
      FoldLast(Absorb, c, x, 0);
      FoldLast(Absorb, c, y, 0);
      FewBytesInjective(c, x + [0], y + [0]);
      assert x == (x + [0])[..|x|] && y == (y + [0])[..|y|];
    }
  }

  /**
    Two inputs that differ only inside four consecutive bytes, wherever those are, have
    equal checksums only when they are equal.
  */
  lemma DetectsBursts(prefix: seq<bv8>, x: seq<bv8>, y: seq<bv8>, suffix: seq<bv8>)
    requires |x| == |y| <= 4
    ensures Checksum(prefix + x + suffix) == Checksum(prefix + y + suffix) <==> x == y
  {
    AbsorbReversible();
    forall c: bv32, u: seq<bv8>, v: seq<bv8> | |u| == |v| <= 4 && Fold(Absorb, c, u) == Fold(Absorb, c, v)
      ensures u == v
    {
      FewBytesInjective(c, u, v);
    }
    ChecksumIsRegister(prefix + x + suffix, prefix + y + suffix);
    if Register(prefix + x + suffix) == Register(prefix + y + suffix) {
      BurstsBy(Absorb, 0xFFFF_FFFF, prefix, x, y, suffix);
    }
  }

  lemma ChecksumIsRegister(a: seq<bv8>, b: seq<bv8>)
    ensures Checksum(a) == Checksum(b) <==> Register(a) == Register(b)
  {
    if Checksum(a) == Checksum(b) { XorCancel(Register(a), Register(b), 0xFFFF_FFFF); }
  }

  lemma BurstsBy(absorb: (bv32, bv8) -> bv32, start: bv32,
                 prefix: seq<bv8>, x: seq<bv8>, y: seq<bv8>, suffix: seq<bv8>)
    requires Reversible(absorb)
    requires forall c, u, v :: |u| == |v| <= 4 && Fold(absorb, c, u) == Fold(absorb, c, v) ==> u == v
    requires |x| == |y| <= 4
    requires Fold(absorb, start, prefix + x + suffix) == Fold(absorb, start, prefix + y + suffix)
    ensures x == y
  {
    FoldMiddle(absorb, start, prefix, x, y, suffix);
  }
}
