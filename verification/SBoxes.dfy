/** The ICE S-boxes: their moduli and masks, and why each of them permutes the bytes. */
module SBoxes {
  import opened Gf2Polynomials
  import opened Words
  import opened GaloisField

  /** The modulus of S-box k in the given row. */
  function SMod(k: nat, row: nat): (m: bv32)
    requires k < 4 && row < 4
    ensures 256 <= m < 512
  {
    match (k, row)
    case (0, 0) => 333 case (0, 1) => 313 case (0, 2) => 505 case (0, 3) => 369
    case (1, 0) => 379 case (1, 1) => 375 case (1, 2) => 319 case (1, 3) => 391
    case (2, 0) => 361 case (2, 1) => 445 case (2, 2) => 451 case (2, 3) => 397
    case (3, 0) => 397 case (3, 1) => 425 case (3, 2) => 395 case (3, 3) => 505
  }

  /** The mask xored into the column of S-box k in the given row. */
  function SXor(k: nat, row: nat): (x: bv32)
    requires k < 4 && row < 4
    ensures x < 256
  {
    match (k, row)
    case (0, 0) => 0x83 case (0, 1) => 0x85 case (0, 2) => 0x9b case (0, 3) => 0xcd
    case (1, 0) => 0xcc case (1, 1) => 0xa7 case (1, 2) => 0xad case (1, 3) => 0x41
    case (2, 0) => 0x4b case (2, 1) => 0x2e case (2, 2) => 0xd4 case (2, 3) => 0x33
    case (3, 0) => 0xea case (3, 1) => 0xcb case (3, 2) => 0x2e case (3, 3) => 0x04
  }

  /** The rows of the two tables, S-box by S-box. */
  const MODULI: seq<seq<nat>> := [[333, 313, 505, 369], [379, 375, 319, 391], [361, 445, 451, 397],
                                  [397, 425, 395, 505]]

  const MASKS: seq<seq<nat>> := [[0x83, 0x85, 0x9b, 0xcd], [0xcc, 0xa7, 0xad, 0x41], [0x4b, 0x2e, 0xd4, 0x33],
                                 [0xea, 0xcb, 0x2e, 0x04]]

  lemma Constants(k: nat, row: nat)
    requires k < 4 && row < 4
    ensures SMod(k, row) as nat == MODULI[k][row] && SXor(k, row) as nat == MASKS[k][row]
  {
  }

  /** The 8-bit output of S-box k for a row and a column. */
  function SBoxByte(k: nat, row: nat, col: bv32): bv32
    requires k < 4 && row < 4
  {
    Power7(col ^ SXor(k, row), SMod(k, row))
  }

  // ----- each modulus divides x^256 - x -----

  /** x^256 and x agree modulo m. */
  ghost predicate Splits(m: bv32) {
    Congruent({256}, {1}, Bits(m))
  }

  // The product of two bytes with the loop written out, two passes at a time.

  function Reduce2(a: bv32, m: bv32): bv32 {
    Reduce(Reduce(a << 1, m) << 1, m)
  }

  function Accumulate2(res: bv32, a: bv32, b: bv32, m: bv32): bv32 {
    Accumulate(Accumulate(res, a, b), Reduce(a << 1, m), b >> 1)
  }

  function Product8(a: bv32, b: bv32, m: bv32): bv32 {
    var r2, a2 := Accumulate2(0, a, b, m), Reduce2(a, m);
    var r4, a4 := Accumulate2(r2, a2, b >> 2, m), Reduce2(a2, m);
    var r6, a6 := Accumulate2(r4, a4, b >> 4, m), Reduce2(a4, m);
    Accumulate2(r6, a6, b >> 6, m)
  }

  lemma Unroll(res: bv32, a: bv32, b: bv32, m: bv32, res': bv32, a': bv32, b': bv32)
    requires res' == Accumulate(res, a, b) && a' == Reduce(a << 1, m) && b' == b >> 1
    ensures GfMulAcc(res, a, b, m) == GfMulAcc(res', a', b', m)
  {
  }

  lemma Shifts(b: bv32)
    ensures (b >> 1) >> 1 == b >> 2 && (b >> 2) >> 2 == b >> 4 && (b >> 4) >> 2 == b >> 6
    ensures b < 256 ==> (b >> 6) >> 2 == 0
  {
  }

  lemma Unroll2(res: bv32, a: bv32, b: bv32, m: bv32, res': bv32, a': bv32, b': bv32)
    requires res' == Accumulate2(res, a, b, m) && a' == Reduce2(a, m) && b' == b >> 2
    ensures GfMulAcc(res, a, b, m) == GfMulAcc(res', a', b', m)
  {
    Shifts(b);
    var r1, a1 := Accumulate(res, a, b), Reduce(a << 1, m);
    Unroll(res, a, b, m, r1, a1, b >> 1);
    Unroll(r1, a1, b >> 1, m, res', a', b');
  }

  lemma UnrollAll(a: bv32, b: bv32, m: bv32, r2: bv32, a2: bv32, r4: bv32, a4: bv32, r6: bv32, a6: bv32, z: bv32)
    requires b < 256
    requires r2 == Accumulate2(0, a, b, m) && a2 == Reduce2(a, m)
    requires r4 == Accumulate2(r2, a2, b >> 2, m) && a4 == Reduce2(a2, m)
    requires r6 == Accumulate2(r4, a4, b >> 4, m) && a6 == Reduce2(a4, m)
    requires z == Accumulate2(r6, a6, b >> 6, m)
    ensures GfMul(a, b, m) == z
  {
    Shifts(b);
    Unroll2(0, a, b, m, r2, a2, b >> 2);
    Unroll2(r2, a2, b >> 2, m, r4, a4, b >> 4);
    Unroll2(r4, a4, b >> 4, m, r6, a6, b >> 6);
    Unroll2(r6, a6, b >> 6, m, z, Reduce2(a6, m), 0);
  }

  lemma Product8IsProduct(a: bv32, b: bv32, m: bv32, z: bv32)
    requires b < 256 && Product8(a, b, m) == z
    ensures GfMul(a, b, m) == z
  {
    var r2, a2 := Accumulate2(0, a, b, m), Reduce2(a, m);
    var r4, a4 := Accumulate2(r2, a2, b >> 2, m), Reduce2(a2, m);
    var r6, a6 := Accumulate2(r4, a4, b >> 4, m), Reduce2(a4, m);
    UnrollAll(a, b, m, r2, a2, r4, a4, r6, a6, z);
  }

  lemma EightSquarings(g: bv32, s1: bv32, s2: bv32, s3: bv32, s4: bv32, s5: bv32, s6: bv32, s7: bv32, s8: bv32,
                       m: bv32, n0: nat, n1: nat, n2: nat, n3: nat, n4: nat, n5: nat, n6: nat, n7: nat, n8: nat)
    requires 256 <= m < 512 && IsPower(g, g, n0, m)
    requires GfMul(g, g, m) == s1 && GfMul(s1, s1, m) == s2 && GfMul(s2, s2, m) == s3 && GfMul(s3, s3, m) == s4
    requires GfMul(s4, s4, m) == s5 && GfMul(s5, s5, m) == s6 && GfMul(s6, s6, m) == s7 && GfMul(s7, s7, m) == s8
    requires n1 == n0 + n0 && n2 == n1 + n1 && n3 == n2 + n2 && n4 == n3 + n3
    requires n5 == n4 + n4 && n6 == n5 + n5 && n7 == n6 + n6 && n8 == n7 + n7
    ensures IsPower(s8, g, n8, m)
  {
    PowersMultiply(g, n0, g, n0, s1, n1, g, m);
    PowersMultiply(s1, n1, s1, n1, s2, n2, g, m);
    PowersMultiply(s2, n2, s2, n2, s3, n3, g, m);
    PowersMultiply(s3, n3, s3, n3, s4, n4, g, m);
    PowersMultiply(s4, n4, s4, n4, s5, n5, g, m);
    PowersMultiply(s5, n5, s5, n5, s6, n6, g, m);
    PowersMultiply(s6, n6, s6, n6, s7, n7, g, m);
    PowersMultiply(s7, n7, s7, n7, s8, n8, g, m);
  }

  lemma BitsTwo()
    ensures Bits(2) == {1}
  {
    assert IsBit(1, 0);
    BitsOfBit(2, 1);
  }

  /** Eight squarings of x that end where they began prove that m splits. */
  lemma SplitsBy(m: bv32, s3: bv32, s4: bv32, s5: bv32, s6: bv32, s7: bv32)
    requires 256 <= m < 512 && s3 < 256 && s4 < 256 && s5 < 256 && s6 < 256 && s7 < 256
    requires Product8(2, 2, m) == 4 && Product8(4, 4, m) == 0x10
    requires Product8(0x10, 0x10, m) == s3 && Product8(s3, s3, m) == s4 && Product8(s4, s4, m) == s5
    requires Product8(s5, s5, m) == s6 && Product8(s6, s6, m) == s7 && Product8(s7, s7, m) == 2
    ensures Splits(m)
  {
    Product8IsProduct(2, 2, m, 4); Product8IsProduct(4, 4, m, 0x10); Product8IsProduct(0x10, 0x10, m, s3);
    Product8IsProduct(s3, s3, m, s4); Product8IsProduct(s4, s4, m, s5); Product8IsProduct(s5, s5, m, s6);
    Product8IsProduct(s6, s6, m, s7); Product8IsProduct(s7, s7, m, 2);
    FirstPower(2, 1, m);
    EightSquarings(2, 4, 0x10, s3, s4, s5, s6, s7, 2, m, 1, 2, 4, 8, 16, 32, 64, 128, 256);
    BitsTwo();
    PowMonomial(1, 256);
  }

  lemma SplitsRow0(row: nat)
    requires row < 4
    ensures Splits(SMod(0, row))
  {
    match row {
      case 0 => SplitsBy(333, 0x4d, 0xf8, 0xe3, 0xeb, 0xab);
      case 1 => SplitsBy(313, 0x39, 0x9c, 0x4e, 0x8f, 0x72);
      case 2 => SplitsBy(505, 0xf9, 0x6f, 0x1b, 0xbc, 0x26);
      case 3 => SplitsBy(369, 0x71, 0xf3, 0x2f, 0xe0, 0x5b);
    }
  }

  lemma SplitsRow1(row: nat)
    requires row < 4
    ensures Splits(SMod(1, row))
  {
    match row {
      case 0 => SplitsBy(379, 0x7b, 0x03, 0x05, 0x11, 0x7a);
      case 1 => SplitsBy(375, 0x77, 0x8b, 0x3a, 0x98, 0x48);
      case 2 => SplitsBy(319, 0x3f, 0x96, 0x91, 0x84, 0xaa);
      case 3 => SplitsBy(391, 0x87, 0x6f, 0x1d, 0xd6, 0x34);
    }
  }

  lemma SplitsRow2(row: nat)
    requires row < 4
    ensures Splits(SMod(2, row))
  {
    match row {
      case 0 => SplitsBy(361, 0x69, 0x03, 0x05, 0x11, 0x68);
      case 1 => SplitsBy(445, 0xbd, 0x95, 0xe6, 0xa1, 0x78);
      case 2 => SplitsBy(451, 0xc3, 0x1f, 0x96, 0xa0, 0xfd);
      case 3 => SplitsBy(397, 0x8d, 0x3d, 0x7f, 0x60, 0xb8);
    }
  }

  lemma SplitsRow3(row: nat)
    requires row < 4
    ensures Splits(SMod(3, row))
  {
    match row {
      case 0 => SplitsBy(397, 0x8d, 0x3d, 0x7f, 0x60, 0xb8);
      case 1 => SplitsBy(425, 0xa9, 0x18, 0xe9, 0xcd, 0x82);
      case 2 => SplitsBy(395, 0x8b, 0xaa, 0x1a, 0xcf, 0xe3);
      case 3 => SplitsBy(505, 0xf9, 0x6f, 0x1b, 0xbc, 0x26);
    }
  }

  lemma EveryModulusSplits(k: nat, row: nat)
    requires k < 4 && row < 4
    ensures Splits(SMod(k, row))
  {
    match k {
      case 0 => SplitsRow0(row);
      case 1 => SplitsRow1(row);
      case 2 => SplitsRow2(row);
      case 3 => SplitsRow3(row);
    }
  }

  // ----- raising to the seventh power loses nothing -----

  /** Modulo a modulus that splits, the 511th power of a polynomial is the polynomial. */
  lemma Power511(p: Poly, m: bv32)
    requires Splits(m)
    ensures Congruent(Pow(p, 511), p, Bits(m))
  {
    var M := Bits(m);
    PowTwoToSpreads(p, 8);
    assert TwoTo(8) == 256;
    SpreadIsIdentity(p, 256, M);
    Power511By(p, M, 256, 255, 511);
  }

  lemma Power511By(p: Poly, M: Poly, n256: nat, n255: nat, n511: nat)
    requires n511 == n256 + n255 && n256 == 1 + n255
    requires Congruent(Pow(p, n256), p, M)
    ensures Congruent(Pow(p, n511), p, M)
  {
    PowSum(p, n256, n255, n511);
    CongruentReflexive(Pow(p, n255), M);
    CongruentMul(Pow(p, n256), p, Pow(p, n255), Pow(p, n255), M);
    CongruentTransitive(Pow(p, n511), Pow(p, n256), p, M);
  }

  function PowerByte(y: bv32, n: nat, m: bv32): bv32 {
    if n == 0 then 1 else GfMul(y, PowerByte(y, n - 1, m), m)
  }

  lemma ZerothPower(y: bv32, m: bv32)
    ensures IsPower(1, y, 0, m)
  {
    BitsOfBit(1, 0);
    CongruentReflexive(ONE, Bits(m));
  }

  lemma NextPower(y: bv32, x: bv32, z: bv32, n: nat, n': nat, m: bv32)
    requires y < 256 && 256 <= m < 512
    requires IsPower(x, y, n, m) && z == GfMul(y, x, m) && n' == 1 + n
    ensures IsPower(z, y, n', m)
  {
    // A variable for the exponent: with the number itself the verifier unrolls the recursive power.
    var one: nat :| one == 1;
    FirstPower(y, one, m);
    PowersMultiply(y, one, x, n, z, n', y, m);
  }

  lemma {:induction false} PowerByteIsPower(y: bv32, n: nat, m: bv32)
    requires y < 256 && 256 <= m < 512
    ensures IsPower(PowerByte(y, n, m), y, n, m)
  {
    if n == 0 {
      ZerothPower(y, m);
    } else {
      PowerByteIsPower(y, n - 1, m);
      NextPower(y, PowerByte(y, n - 1, m), PowerByte(y, n, m), n - 1, n, m);
    }
  }

  lemma SameRemainder(x: bv32, y: bv32, m: bv32)
    requires x < 256 && y < 256 && 256 <= m < 512
    requires Congruent(Bits(x), Bits(y), Bits(m))
    ensures x == y
  {
    ByteBits(x); ByteBits(y); ModulusBits(m);
    RemainderUnique(Bits(x), Bits(y), Bits(m), 8);
    BitsInjective(x, y);
  }

  /** Raising to a and then to b, where a * b is 511, comes back to the start. */
  lemma TwoPowersReturn(x: bv32, y: bv32, z: bv32, a: nat, b: nat, n: nat, m: bv32)
    requires x < 256 && 256 <= m < 512 && Splits(m)
    requires n == 511 && a * b == n && IsPower(y, x, a, m) && IsPower(z, y, b, m)
    ensures z == x
  {
    var X, M := Bits(x), Bits(m);
    Power511(X, m);
    PowMul(X, a, b);
    CongruentPow(Pow(X, a), Bits(y), b, M);
    CongruentTransitive(Pow(X, n), Pow(Bits(y), b), Bits(z), M);
    CongruentSymmetric(Pow(X, n), X, M);
    CongruentTransitive(X, Pow(X, n), Bits(z), M);
    SameRemainder(x, z, m);
  }

  /** 7 * 73 is 511, so the 73rd power undoes the seventh. */
  const ROOT_EXPONENT: nat := 73

  /** The byte whose seventh power is y. */
  function Root7(y: bv32, m: bv32): bv32 {
    PowerByte(y, ROOT_EXPONENT, m)
  }

  lemma Power7AndRoot7AreInverse(x: bv32, m: bv32)
    requires x < 256 && 256 <= m < 512 && Splits(m)
    ensures Root7(Power7(x, m), m) == x
    ensures Root7(x, m) < 256 && Power7(Root7(x, m), m) == x
  {
    // Variables for the exponents: with the numbers themselves the verifier unrolls the recursive power.
    var n, n7: nat :| n7 == 7 && n == 511;
    var y, r := Power7(x, m), Root7(x, m);
    Power7IsSeventhPower(x, m);
    PowerByteIsPower(y, ROOT_EXPONENT, m);
    TwoPowersReturn(x, y, Root7(y, m), n7, ROOT_EXPONENT, n, m);
    PowerByteIsPower(x, ROOT_EXPONENT, m);
    Power7IsSeventhPower(r, m);
    TwoPowersReturn(x, r, Power7(r, m), ROOT_EXPONENT, n7, n, m);
  }

  function SBoxInverse(k: nat, row: nat, y: bv32): bv32
    requires k < 4 && row < 4
  {
    Root7(y, SMod(k, row)) ^ SXor(k, row)
  }

  lemma XorIsByte(x: bv32, y: bv32)
    requires x < 256 && y < 256
    ensures x ^ y < 256
  {
  }

  lemma MaskedPower7Inverts(x: bv32, m: bv32, mask: bv32)
    requires x < 256 && mask < 256 && 256 <= m < 512 && Splits(m)
    ensures Power7(x ^ mask, m) < 256 && Root7(Power7(x ^ mask, m), m) ^ mask == x
  {
    XorTwice(x, mask);
    XorIsByte(x, mask);
    Power7IsSeventhPower(x ^ mask, m);
    Power7AndRoot7AreInverse(x ^ mask, m);
  }

  lemma MaskedRoot7Inverts(y: bv32, m: bv32, mask: bv32)
    requires y < 256 && mask < 256 && 256 <= m < 512 && Splits(m)
    ensures Root7(y, m) ^ mask < 256 && Power7((Root7(y, m) ^ mask) ^ mask, m) == y
  {
    Power7AndRoot7AreInverse(y, m);
    XorTwice(Root7(y, m), mask);
    XorIsByte(Root7(y, m), mask);
  }

  lemma SBoxPermutesBy(k: nat, row: nat, x: bv32, m: bv32, mask: bv32)
    requires k < 4 && row < 4 && x < 256 && m == SMod(k, row) && mask == SXor(k, row)
    ensures Power7(x ^ mask, m) < 256 && Root7(Power7(x ^ mask, m), m) ^ mask == x
    ensures Root7(x, m) ^ mask < 256 && Power7((Root7(x, m) ^ mask) ^ mask, m) == x
  {
    EveryModulusSplits(k, row);
    MaskedPower7Inverts(x, m, mask);
    MaskedRoot7Inverts(x, m, mask);
  }

  lemma SBoxInverseBy(k: nat, row: nat, x: bv32, m: bv32, mask: bv32, y: bv32)
    requires k < 4 && row < 4 && x < 256 && m == SMod(k, row) && mask == SXor(k, row)
    requires y == Power7(x ^ mask, m)
    ensures y < 256 && SBoxInverse(k, row, y) == x
  {
    SBoxPermutesBy(k, row, x, m, mask);
  }

  /** Every row of every S-box is a permutation of the 256 bytes: SBoxInverse undoes it ... */
  lemma SBoxPermutes(k: nat, row: nat, x: bv32)
    requires k < 4 && row < 4 && x < 256
    ensures SBoxByte(k, row, x) < 256 && SBoxInverse(k, row, SBoxByte(k, row, x)) == x
  {
    SBoxInverseBy(k, row, x, SMod(k, row), SXor(k, row), SBoxByte(k, row, x));
  }

  /** ... and is undone by it. */
  lemma SBoxReachesEveryByte(k: nat, row: nat, y: bv32)
    requires k < 4 && row < 4 && y < 256
    ensures SBoxInverse(k, row, y) < 256 && SBoxByte(k, row, SBoxInverse(k, row, y)) == y
  {
    SBoxPermutesBy(k, row, y, SMod(k, row), SXor(k, row));
  }
}
