/** The 8-bit Galois field arithmetic behind the ICE S-boxes, and what it computes. */
module GaloisField {
  import opened Gf2Polynomials
  import opened Words

  // ----- multiplication -----

  lemma ModulusBits(m: bv32)
    requires 256 <= m < 512
    ensures HasDegree(Bits(m), 8)
  {
    var low := m & 0xff;
    assert m == 0x100 ^ low;
    BitsXor(0x100, low);
    ByteBits(low);
    SingleBits();
    BitsOfBit(0x100, 8);
  }

  function Reduce(d: bv32, m: bv32): bv32 {
    if d >= 256 then d ^ m else d
  }

  /** What is left of a product: res so far, plus a times b, modulo m. */
  function GfMulAcc(res: bv32, a: bv32, b: bv32, m: bv32): bv32
    decreases b
  {
    if b == 0 then res
    else GfMulAcc(Accumulate(res, a, b), Reduce(a << 1, m), b >> 1, m)
  }

  function Accumulate(res: bv32, a: bv32, b: bv32): bv32 {
    if b & 1 == 1 then res ^ a else res
  }

  function GfMul(a: bv32, b: bv32, m: bv32): bv32 {
    GfMulAcc(0, a, b, m)
  }

  /** res is the remainder of the product of a and b on division by m. */
  ghost predicate IsProduct(res: bv32, a: bv32, b: bv32, m: bv32) {
    res < 256 && Congruent(Mul(Bits(a), Bits(b)), Bits(res), Bits(m))
  }

  lemma ReduceIsByte(a: bv32, m: bv32)
    requires a < 256 && 256 <= m < 512
    ensures Reduce(a << 1, m) < 256
  {
  }

  lemma ShiftReduces(a: bv32, d: bv32, a': bv32, m: bv32)
    requires Bits(d) == Shift(Bits(a), 1) && a' == d ^ m
    ensures Congruent(Shift(Bits(a), 1), Bits(a'), Bits(m))
  {
    BitsXor(d, m);
    CongruentPlusModulus(Bits(d), Bits(m));
  }

  lemma ReduceShifts(a: bv32, m: bv32)
    requires a < 0x8000_0000
    ensures Congruent(Shift(Bits(a), 1), Bits(Reduce(a << 1, m)), Bits(m))
  {
    BitsDoubled(a);
    if a << 1 >= 256 {
      ShiftReduces(a, a << 1, Reduce(a << 1, m), m);
    } else {
      CongruentReflexive(Shift(Bits(a), 1), Bits(m));
    }
  }

  lemma MulByHalves(p: Poly, b: bv32)
    ensures Mul(p, Bits(b)) == Add(if b & 1 == 1 then p else {}, Mul(Shift(p, 1), Bits(b >> 1)))
  {
    var h := Bits(b >> 1);
    if b == 0 {
      assert b >> 1 == 0;
      MulZero(p); MulZero(Shift(p, 1));
    } else {
      MulAddRight(p, if b & 1 == 1 then ONE else {}, Shift(h, 1));
      MulOne(p); MulZero(p);
      MulShift(p, h, 1); MulShift(h, p, 1);
      MulCommutes(p, h); MulCommutes(h, Shift(p, 1));
    }
  }

  lemma AddAssociates(p: Poly, q: Poly, r: Poly)
    ensures Add(Add(p, q), r) == Add(p, Add(q, r))
  {
    assert forall i :: i in Add(Add(p, q), r) <==> i in Add(p, Add(q, r));
  }

  lemma AccumulateAdds(res: bv32, a: bv32, b: bv32)
    ensures Bits(Accumulate(res, a, b)) == Add(Bits(res), if b & 1 == 1 then Bits(a) else {})
  {
    if b & 1 == 1 {
      BitsXor(res, a);
    }
  }

  /** One pass of the loop keeps the sum of what is accumulated and the product still to come. */
  lemma PassKeepsSum(res: bv32, res': bv32, a: bv32, a': bv32, b: bv32, m: bv32)
    requires res' == Accumulate(res, a, b)
    requires Congruent(Shift(Bits(a), 1), Bits(a'), Bits(m))
    ensures Congruent(Add(Bits(res), Mul(Bits(a), Bits(b))),
                      Add(Bits(res'), Mul(Bits(a'), Bits(b >> 1))), Bits(m))
  {
    AccumulateAdds(res, a, b);
    MulByHalves(Bits(a), b);
    SumStep(Bits(res), if b & 1 == 1 then Bits(a) else {}, Shift(Bits(a), 1), Bits(a'), Bits(b >> 1),
            Bits(m));
  }

  lemma SumStep(p: Poly, here: Poly, s: Poly, a': Poly, h: Poly, m: Poly)
    requires Congruent(s, a', m)
    ensures Congruent(Add(p, Add(here, Mul(s, h))), Add(Add(p, here), Mul(a', h)), m)
  {
    AddAssociates(p, here, Mul(s, h));
    CongruentReflexive(h, m);
    CongruentMul(s, a', h, h, m);
    CongruentReflexive(Add(p, here), m);
    CongruentAdd(Add(p, here), Add(p, here), Mul(s, h), Mul(a', h), m);
  }

  lemma AccumulateBy(res: bv32, a: bv32, b: bv32, res': bv32)
    requires b & 1 == 1 ==> res' == res ^ a
    requires b & 1 != 1 ==> res' == res
    ensures res' == Accumulate(res, a, b)
  {
  }

  lemma ReduceBy(d: bv32, m: bv32, a: bv32)
    requires d >= 256 ==> a == d ^ m
    requires d < 256 ==> a == d
    ensures a == Reduce(d, m)
  {
  }

  lemma GfMulAccUnfolds(res: bv32, a: bv32, b: bv32, m: bv32, d: bv32)
    requires b != 0 && d == a << 1
    ensures GfMulAcc(res, a, b, m) == GfMulAcc(Accumulate(res, a, b), Reduce(d, m), b >> 1, m)
  {
  }

  /** The statements of one pass of the loop leave the result to come as it was. */
  lemma GfMultPass(res: bv32, a: bv32, b: bv32, m: bv32, res': bv32, d: bv32, a': bv32, b': bv32)
    requires b != 0
    requires b & 1 == 1 ==> res' == res ^ a
    requires b & 1 != 1 ==> res' == res
    requires d == a << 1 && b' == b >> 1
    requires d >= 256 ==> a' == d ^ m
    requires d < 256 ==> a' == d
    ensures GfMulAcc(res', a', b', m) == GfMulAcc(res, a, b, m)
  {
    AccumulateBy(res, a, b, res');
    ReduceBy(d, m, a');
    GfMulAccUnfolds(res, a, b, m, d);
  }

  lemma AccumulateIsByte(res: bv32, a: bv32, b: bv32)
    requires res < 256 && a < 256
    ensures Accumulate(res, a, b) < 256
  {
  }

  lemma {:induction false} GfMulAccSums(res: bv32, a: bv32, b: bv32, m: bv32)
    requires res < 256 && a < 256 && 256 <= m < 512
    ensures GfMulAcc(res, a, b, m) < 256
    ensures Congruent(Add(Bits(res), Mul(Bits(a), Bits(b))), Bits(GfMulAcc(res, a, b, m)), Bits(m))
    decreases b
  {
    if b == 0 {
      MulZero(Bits(a));
      assert Add(Bits(res), {}) == Bits(res);
      CongruentReflexive(Bits(res), Bits(m));
    } else {
      var res', a' := Accumulate(res, a, b), Reduce(a << 1, m);
      AccumulateIsByte(res, a, b);
      ReduceIsByte(a, m);
      ReduceShifts(a, m);
      GfMulAccSums(res', a', b >> 1, m);
      PassKeepsSum(res, res', a, a', b, m);
      CongruentTransitive(Add(Bits(res), Mul(Bits(a), Bits(b))),
                          Add(Bits(res'), Mul(Bits(a'), Bits(b >> 1))),
                          Bits(GfMulAcc(res', a', b >> 1, m)), Bits(m));
    }
  }

  lemma GfMulIsProduct(a: bv32, b: bv32, m: bv32)
    requires a < 256 && 256 <= m < 512
    ensures IsProduct(GfMul(a, b, m), a, b, m)
  {
    GfMulAccSums(0, a, b, m);
    assert Add({}, Mul(Bits(a), Bits(b))) == Mul(Bits(a), Bits(b));
  }

  /** The product is the only byte with that remainder, so the specification pins the code down. */
  lemma ProductUnique(r: bv32, a: bv32, b: bv32, m: bv32)
    requires a < 256 && 256 <= m < 512
    ensures IsProduct(r, a, b, m) <==> r == GfMul(a, b, m)
  {
    GfMulIsProduct(a, b, m);
    if IsProduct(r, a, b, m) {
      var s := GfMul(a, b, m);
      var product := Mul(Bits(a), Bits(b));
      CongruentSymmetric(product, Bits(r), Bits(m));
      CongruentTransitive(Bits(r), product, Bits(s), Bits(m));
      ByteBits(r); ByteBits(s); ModulusBits(m);
      RemainderUnique(Bits(r), Bits(s), Bits(m), 8);
      BitsInjective(r, s);
    }
  }

  /** The shift-and-add loop, on machine words of any value. */
  method GfMult(a0: bv32, b0: bv32, m: bv32) returns (res: bv32)
    ensures res == GfMul(a0, b0, m)
    ensures a0 < 256 && 256 <= m < 512 ==> IsProduct(res, a0, b0, m)
  {
    var a, b := a0, b0;
    res := 0;
    while b != 0
      invariant GfMulAcc(res, a, b, m) == GfMul(a0, b0, m)
      decreases b
    {
      ghost var res1, a1, b1 := res, a, b;
      if b & 1 == 1 {
        res := res ^ a;
      }
      a := a << 1;
      b := b >> 1;
      ghost var doubled := a;
      if a >= 256 {
        a := a ^ m;
      }
      GfMultPass(res1, a1, b1, m, res, doubled, a, b);
    }
    if a0 < 256 && 256 <= m < 512 {
      GfMulIsProduct(a0, b0, m);
    }
  }

  // ----- the seventh power -----

  function Power7(b: bv32, m: bv32): bv32 {
    if b == 0 then 0
    else
      var x2 := GfMul(b, b, m);
      var x3 := GfMul(b, x2, m);
      var x6 := GfMul(x3, x3, m);
      GfMul(b, x6, m)
  }

  /** res is a byte congruent to the n-th power of b. */
  ghost predicate IsPower(res: bv32, b: bv32, n: nat, m: bv32) {
    res < 256 && Congruent(Pow(Bits(b), n), Bits(res), Bits(m))
  }

  lemma PowersMultiply(x: bv32, i: nat, y: bv32, j: nat, z: bv32, k: nat, b: bv32, m: bv32)
    requires 256 <= m < 512 && k == i + j
    requires IsPower(x, b, i, m) && IsPower(y, b, j, m) && z == GfMul(x, y, m)
    ensures IsPower(z, b, k, m)
  {
    var B, M := Bits(b), Bits(m);
    GfMulIsProduct(x, y, m);
    PowSum(B, i, j, k);
    CongruentMul(Pow(B, i), Bits(x), Pow(B, j), Bits(y), M);
    CongruentTransitive(Pow(B, k), Mul(Bits(x), Bits(y)), Bits(z), M);
  }

  lemma FirstPower(b: bv32, one: nat, m: bv32)
    requires b < 256 && one == 1
    ensures IsPower(b, b, one, m)
  {
    MulOne(Bits(b));
    assert Pow(Bits(b), one) == Mul(Bits(b), Pow(Bits(b), one - 1));
    CongruentReflexive(Bits(b), Bits(m));
  }

  lemma ZeroPower(m: bv32)
    ensures IsPower(0, 0, 7, m)
  {
    MulZero(Pow({}, 6));
    assert Pow({}, 7) == Mul({}, Pow({}, 6));
    CongruentReflexive({}, Bits(m));
  }

  lemma SeventhPowerBy(b: bv32, x2: bv32, x3: bv32, x6: bv32, x7: bv32, m: bv32, n1: nat, n2: nat, n3: nat,
                       n6: nat, n7: nat)
    requires b < 256 && 256 <= m < 512
    requires n1 == 1 && n2 == n1 + n1 && n3 == n1 + n2 && n6 == n3 + n3 && n7 == n1 + n6
    requires x2 == GfMul(b, b, m) && x3 == GfMul(b, x2, m) && x6 == GfMul(x3, x3, m) && x7 == GfMul(b, x6, m)
    ensures IsPower(x7, b, n7, m)
  {
    FirstPower(b, n1, m);
    PowersMultiply(b, n1, b, n1, x2, n2, b, m);
    PowersMultiply(b, n1, x2, n2, x3, n3, b, m);
    PowersMultiply(x3, n3, x3, n3, x6, n6, b, m);
    PowersMultiply(b, n1, x6, n6, x7, n7, b, m);
  }

  lemma Power7IsSeventhPower(b: bv32, m: bv32)
    requires b < 256 && 256 <= m < 512
    ensures IsPower(Power7(b, m), b, 7, m)
  {
    if b == 0 {
      ZeroPower(m);
    } else {
      var x2 := GfMul(b, b, m);
      var x3 := GfMul(b, x2, m);
      var x6 := GfMul(x3, x3, m);
      SeventhPowerBy(b, x2, x3, x6, GfMul(b, x6, m), m, 1, 2, 3, 6, 7);
    }
  }

  method GfExp7(b: bv32, m: bv32) returns (res: bv32)
    ensures res == Power7(b, m)
    ensures b < 256 && 256 <= m < 512 ==> IsPower(res, b, 7, m)
  {
    if b == 0 {
      res := 0;
    } else {
      var x := GfMult(b, b, m);
      x := GfMult(b, x, m);
      x := GfMult(x, x, m);
      res := GfMult(b, x, m);
    }
    if b < 256 && 256 <= m < 512 {
      Power7IsSeventhPower(b, m);
    }
  }
}
