/** Machine words, and the sets of bit positions their bitwise operations act on. */
module Words {
  import opened Gf2Polynomials

  /** The polynomial whose coefficients are the bits of x. */
  function Bits(x: bv32): Poly {
    if x == 0 then {} else Add(if x & 1 == 1 then ONE else {}, Shift(Bits(x >> 1), 1))
  }

  lemma BitsZeroth(x: bv32)
    ensures 0 in Bits(x) <==> x & 1 == 1
  {
  }

  lemma BitsNext(x: bv32, i: nat)
    ensures i + 1 in Bits(x) <==> i in Bits(x >> 1)
  {
    assert i + 1 in Shift(Bits(x >> 1), 1) <==> i in Bits(x >> 1);
  }

  lemma XorHalves(x: bv32, y: bv32, z: bv32)
    requires z == x ^ y
    ensures z >> 1 == (x >> 1) ^ (y >> 1)
    ensures z & 1 == 1 <==> (x & 1 == 1) != (y & 1 == 1)
  {
  }

  lemma {:induction false} BitsXorAt(x: bv32, y: bv32, z: bv32, i: nat)
    requires z == x ^ y
    ensures i in Bits(z) <==> (i in Bits(x)) != (i in Bits(y))
    decreases i
  {
    hide Bits;
    if i == 0 {
      XorHalves(x, y, z);
      BitsZeroth(x); BitsZeroth(y); BitsZeroth(z);
    } else {
      XorHalves(x, y, z);
      BitsXorAt(x >> 1, y >> 1, z >> 1, i - 1);
      BitsNext(x, i - 1); BitsNext(y, i - 1); BitsNext(z, i - 1);
    }
  }

  lemma BitsXor(x: bv32, y: bv32)
    ensures Bits(x ^ y) == Add(Bits(x), Bits(y))
  {
    forall i: nat
      ensures i in Bits(x ^ y) <==> i in Add(Bits(x), Bits(y))
    {
      BitsXorAt(x, y, x ^ y, i);
    }
  }

  lemma BitsDoubled(x: bv32)
    requires x < 0x8000_0000
    ensures Bits(x << 1) == Shift(Bits(x), 1)
  {
    assert (x << 1) >> 1 == x && (x << 1) & 1 == 0;
  }

  /** lim is the word with only bit n set. */
  predicate IsBit(lim: bv32, n: nat) {
    if n == 0 then lim == 1 else lim != 0 && lim & 1 == 0 && IsBit(lim >> 1, n - 1)
  }

  lemma {:induction false} BitsBelow(x: bv32, lim: bv32, n: nat)
    requires IsBit(lim, n) && x < lim
    ensures Below(Bits(x), n)
    decreases n
  {
    if x != 0 {
      BitsBelow(x >> 1, lim >> 1, n - 1);
      forall i <- Bits(x)
        ensures i < n
      {
        if i > 0 {
          BitsNext(x, i - 1);
        }
      }
    }
  }

  lemma ByteBits(x: bv32)
    requires x < 256
    ensures Below(Bits(x), 8)
  {
    SingleBits();
    BitsBelow(x, 0x100, 8);
  }

  lemma {:induction false} BitsNonzero(x: bv32)
    requires x != 0
    ensures Bits(x) != {}
    decreases x
  {
    if x & 1 == 1 {
      BitsZeroth(x);
    } else {
      BitsNonzero(x >> 1);
      var i :| i in Bits(x >> 1);
      BitsNext(x, i);
    }
  }

  lemma BitsInjective(x: bv32, y: bv32)
    requires Bits(x) == Bits(y)
    ensures x == y
  {
    BitsXor(x, y);
    if x ^ y != 0 {
      BitsNonzero(x ^ y);
    }
  }

  lemma {:induction false} BitsOfBit(lim: bv32, n: nat)
    requires IsBit(lim, n)
    ensures Bits(lim) == {n}
    decreases n
  {
    if n == 0 {
      assert lim >> 1 == 0;
    } else {
      BitsOfBit(lim >> 1, n - 1);
    }
  }

  lemma OrHalves(x: bv32, y: bv32, z: bv32)
    requires z == x | y
    ensures z >> 1 == (x >> 1) | (y >> 1)
    ensures z & 1 == 1 <==> x & 1 == 1 || y & 1 == 1
  {
  }

  lemma {:induction false} BitsOrAt(x: bv32, y: bv32, z: bv32, i: nat)
    requires z == x | y
    ensures i in Bits(z) <==> i in Bits(x) || i in Bits(y)
    decreases i
  {
    hide Bits;
    if i == 0 {
      OrHalves(x, y, z);
      BitsZeroth(x); BitsZeroth(y); BitsZeroth(z);
    } else {
      OrHalves(x, y, z);
      BitsOrAt(x >> 1, y >> 1, z >> 1, i - 1);
      BitsNext(x, i - 1); BitsNext(y, i - 1); BitsNext(z, i - 1);
    }
  }

  lemma BitsOr(x: bv32, y: bv32)
    ensures Bits(x | y) == Bits(x) + Bits(y)
  {
    forall i: nat
      ensures i in Bits(x | y) <==> i in Bits(x) + Bits(y)
    {
      BitsOrAt(x, y, x | y, i);
    }
  }

  lemma AndHalves(x: bv32, y: bv32, z: bv32)
    requires z == x & y
    ensures z >> 1 == (x >> 1) & (y >> 1)
    ensures z & 1 == 1 <==> x & 1 == 1 && y & 1 == 1
  {
  }

  lemma {:induction false} BitsAndAt(x: bv32, y: bv32, z: bv32, i: nat)
    requires z == x & y
    ensures i in Bits(z) <==> i in Bits(x) && i in Bits(y)
    decreases i
  {
    hide Bits;
    if i == 0 {
      AndHalves(x, y, z);
      BitsZeroth(x); BitsZeroth(y); BitsZeroth(z);
    } else {
      AndHalves(x, y, z);
      BitsAndAt(x >> 1, y >> 1, z >> 1, i - 1);
      BitsNext(x, i - 1); BitsNext(y, i - 1); BitsNext(z, i - 1);
    }
  }

  lemma BitsAnd(x: bv32, y: bv32)
    ensures Bits(x & y) == Bits(x) * Bits(y)
  {
    forall i: nat
      ensures i in Bits(x & y) <==> i in Bits(x) * Bits(y)
    {
      BitsAndAt(x, y, x & y, i);
    }
  }

  predicate LowBitsSet(x: bv32, n: nat) {
    n == 0 || (x & 1 == 1 && LowBitsSet(x >> 1, n - 1))
  }

  lemma {:induction false} LowBitSet(x: bv32, n: nat, j: nat)
    requires LowBitsSet(x, n) && j < n
    ensures j in Bits(x)
  {
    if j == 0 {
      BitsZeroth(x);
    } else {
      LowBitSet(x >> 1, n - 1, j - 1);
      BitsNext(x, j - 1);
    }
  }

  // Named forms of the two operators the cipher is built from.

  function Or(x: bv32, y: bv32): bv32 {
    x | y
  }

  function Xor(x: bv32, y: bv32): bv32 {
    x ^ y
  }

  lemma XorTwice(x: bv32, y: bv32)
    ensures (x ^ y) ^ y == x
    ensures Xor(Xor(x, y), y) == x
  {
  }

  lemma OrBits(x: bv32, y: bv32, i: nat)
    ensures i in Bits(Or(x, y)) <==> i in Bits(x) || i in Bits(y)
  {
    BitsOrAt(x, y, x | y, i);
  }

  // ----- every set of positions below 32 is a word -----

  lemma SingleBits()
    ensures IsBit(0x00000001, 0) && IsBit(0x00000002, 1) && IsBit(0x00000004, 2) && IsBit(0x00000008, 3)
    ensures IsBit(0x00000010, 4) && IsBit(0x00000020, 5) && IsBit(0x00000040, 6) && IsBit(0x00000080, 7)
    ensures IsBit(0x00000100, 8) && IsBit(0x00000200, 9) && IsBit(0x00000400, 10) && IsBit(0x00000800, 11)
    ensures IsBit(0x00001000, 12) && IsBit(0x00002000, 13) && IsBit(0x00004000, 14) && IsBit(0x00008000, 15)
    ensures IsBit(0x00010000, 16) && IsBit(0x00020000, 17) && IsBit(0x00040000, 18) && IsBit(0x00080000, 19)
    ensures IsBit(0x00100000, 20) && IsBit(0x00200000, 21) && IsBit(0x00400000, 22) && IsBit(0x00800000, 23)
    ensures IsBit(0x01000000, 24) && IsBit(0x02000000, 25) && IsBit(0x04000000, 26) && IsBit(0x08000000, 27)
    ensures IsBit(0x10000000, 28) && IsBit(0x20000000, 29) && IsBit(0x40000000, 30) && IsBit(0x80000000, 31)
  {
    assert IsBit(0x00000001, 0); assert IsBit(0x00000002, 1);
    assert IsBit(0x00000004, 2); assert IsBit(0x00000008, 3);
    assert IsBit(0x00000010, 4); assert IsBit(0x00000020, 5);
    assert IsBit(0x00000040, 6); assert IsBit(0x00000080, 7);
    assert IsBit(0x00000100, 8); assert IsBit(0x00000200, 9);
    assert IsBit(0x00000400, 10); assert IsBit(0x00000800, 11);
    assert IsBit(0x00001000, 12); assert IsBit(0x00002000, 13);
    assert IsBit(0x00004000, 14); assert IsBit(0x00008000, 15);
    assert IsBit(0x00010000, 16); assert IsBit(0x00020000, 17);
    assert IsBit(0x00040000, 18); assert IsBit(0x00080000, 19);
    assert IsBit(0x00100000, 20); assert IsBit(0x00200000, 21);
    assert IsBit(0x00400000, 22); assert IsBit(0x00800000, 23);
    assert IsBit(0x01000000, 24); assert IsBit(0x02000000, 25);
    assert IsBit(0x04000000, 26); assert IsBit(0x08000000, 27);
    assert IsBit(0x10000000, 28); assert IsBit(0x20000000, 29);
    assert IsBit(0x40000000, 30); assert IsBit(0x80000000, 31);
  }

  lemma EveryWordBelow32(x: bv32)
    ensures Below(Bits(x), 32)
  {
    SingleBits();
    BitsBelow(x >> 1, 0x8000_0000, 31);
    forall i <- Bits(x)
      ensures i < 32
    {
      if i > 0 {
        BitsNext(x, i - 1);
      }
    }
  }

  lemma SplitTop(x: bv32)
    requires x >= 0x8000_0000
    ensures x == 0x8000_0000 | x
  {
  }

  lemma TopBitSet(x: bv32)
    requires x >= 0x8000_0000
    ensures 31 in Bits(x)
  {
    SplitTop(x);
    BitsOr(0x8000_0000, x);
    SingleBits();
    BitsOfBit(0x8000_0000, 31);
  }

  function Bit(n: nat): bv32 {
    if n == 0 then 1 else Bit(n - 1) << 1
  }

  lemma {:induction false} BitsOfPower(n: nat)
    requires n < 32
    ensures Bits(Bit(n)) == {n}
  {
    if n == 0 {
      BitsOfBit(1, 0);
    } else {
      BitsOfPower(n - 1);
      NextPower(Bit(n - 1), n - 1);
    }
  }

  lemma NextPower(b: bv32, n: nat)
    requires n < 31 && Bits(b) == {n}
    ensures Bits(b << 1) == {n + 1}
  {
    if b >= 0x8000_0000 {
      TopBitSet(b);
    }
    BitsDoubled(b);
  }

  function Include(w: bv32, bit: bv32, yes: bool): bv32 {
    if yes then w | bit else w
  }

  /** The word whose bits are the elements of s below n. */
  ghost function WordOf(s: Poly, n: nat): bv32 {
    if n == 0 then 0 else Include(WordOf(s, n - 1), Bit(n - 1), n - 1 in s)
  }

  lemma IncludeAt(w: bv32, n: nat, yes: bool, v: bv32, i: nat)
    requires n < 32 && v == Include(w, Bit(n), yes)
    ensures i in Bits(v) <==> i in Bits(w) || (yes && i == n)
  {
    BitsOfPower(n);
    if yes {
      BitsOr(w, Bit(n));
    }
  }

  lemma {:induction false} BitsOfWordOf(s: Poly, n: nat, i: nat)
    requires n <= 32
    ensures i in Bits(WordOf(s, n)) <==> i in s && i < n
    decreases n
  {
    if n > 0 {
      var w, v := WordOf(s, n - 1), WordOf(s, n);
      BitsOfWordOf(s, n - 1, i);
      IncludeAt(w, n - 1, n - 1 in s, v, i);
    }
  }

  /** Every set of positions below 32 is the set of bits of exactly one word. */
  lemma WordOfBits(s: Poly, x: bv32)
    requires Below(s, 32)
    ensures Bits(WordOf(s, 32)) == s
    ensures Bits(x) == s ==> x == WordOf(s, 32)
  {
    forall i: nat
      ensures i in Bits(WordOf(s, 32)) <==> i in s
    {
      BitsOfWordOf(s, 32, i);
    }
    if Bits(x) == s {
      BitsInjective(x, WordOf(s, 32));
    }
  }
}
