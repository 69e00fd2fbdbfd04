/** Bytes of a word: where their bits lie, and what the word is as a number. */
module BytesInWords {
  import opened Words

  function Half(x: bv32): bv32 {
    x >> 1
  }

  function Halved8(x: bv32): bv32 {
    Half(Half(Half(Half(Half(Half(Half(Half(x))))))))
  }

  lemma Halved8IsShift(x: bv32)
    ensures Halved8(x) == x >> 8
  {
  }

  lemma HalfBits(x: bv32, h: bv32, i: nat, j: nat)
    requires h == Half(x) && j == i + 1
    ensures j in Bits(x) <==> i in Bits(h)
  {
    BitsNext(x, i);
  }

  lemma Halved8Bits(x: bv32, i: nat)
    ensures i + 8 in Bits(x) <==> i in Bits(Halved8(x))
  {
    hide Half;
    var h1 := Half(x);
    var h2 := Half(h1);
    var h3 := Half(h2);
    var h4 := Half(h3);
    var h5 := Half(h4);
    var h6 := Half(h5);
    var h7 := Half(h6);
    var h8 := Half(h7);
    HalfBits(x, h1, i + 7, i + 8); HalfBits(h1, h2, i + 6, i + 7);
    HalfBits(h2, h3, i + 5, i + 6); HalfBits(h3, h4, i + 4, i + 5);
    HalfBits(h4, h5, i + 3, i + 4); HalfBits(h5, h6, i + 2, i + 3);
    HalfBits(h6, h7, i + 1, i + 2); HalfBits(h7, h8, i, i + 1);
  }

  /** Eight bits further down. */
  lemma DownBits(x: bv32, y: bv32, i: nat)
    requires y == x >> 8
    ensures i in Bits(y) <==> i + 8 in Bits(x)
  {
    Halved8IsShift(x);
    Halved8Bits(x, i);
  }

  lemma LowByteFull(j: nat)
    requires j < 8
    ensures j in Bits(0xff)
  {
    assert LowBitsSet(0x3, 2); assert LowBitsSet(0xf, 4); assert LowBitsSet(0x3f, 6);
    LowBitSet(0xff, 8, j);
  }

  /** The lowest eight bits. */
  lemma LowBits(x: bv32, y: bv32, i: nat)
    requires y == x & 0xff
    ensures i in Bits(y) <==> i < 8 && i in Bits(x)
  {
    BitsAnd(x, 0xff);
    ByteBits(0xff);
    if i < 8 {
      LowByteFull(i);
    }
  }

  lemma UpIdentity(x: bv32)
    requires x < 0x100_0000
    ensures (x << 8) >> 8 == x && (x << 8) & 0xff == 0
  {
  }

  lemma UpBack(x: bv32, y: bv32)
    requires x < 0x100_0000 && y == x << 8
    ensures y >> 8 == x && y & 0xff == 0
  {
    UpIdentity(x);
  }

  /** Eight bits further up. */
  lemma UpBits(x: bv32, y: bv32, i: nat)
    requires x < 0x100_0000 && y == x << 8
    ensures i in Bits(y) <==> i >= 8 && i - 8 in Bits(x)
  {
    UpBack(x, y);
    if i >= 8 {
      DownBits(y, x, i - 8);
    } else {
      LowBits(y, 0, i);
    }
  }
}
