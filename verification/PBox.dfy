/** The ICE P-box: a loop over a table of single bits that permutes the 32 bits of a word. */
module PBox {
  import opened Gf2Polynomials
  import opened Words

  /** Where each bit of a word goes. */
  const PBOX: seq<bv32> := [
    0x00000001, 0x00000080, 0x00000400, 0x00002000,
    0x00080000, 0x00200000, 0x01000000, 0x40000000] + [
    0x00000008, 0x00000020, 0x00000100, 0x00004000,
    0x00010000, 0x00800000, 0x04000000, 0x20000000] + [
    0x00000004, 0x00000010, 0x00000200, 0x00008000,
    0x00020000, 0x00400000, 0x08000000, 0x10000000] + [
    0x00000002, 0x00000040, 0x00000800, 0x00001000,
    0x00040000, 0x00100000, 0x02000000, 0x80000000]

  /** The same table as bit positions. */
  const POSITION: seq<nat> := [
    0, 7, 10, 13, 19, 21, 24, 30] + [
    3, 5, 8, 14, 16, 23, 26, 29] + [
    2, 4, 9, 15, 17, 22, 27, 28] + [
    1, 6, 11, 12, 18, 20, 25, 31]

  /** Where each bit of a permuted word comes from. */
  function Origin(k: nat): nat
    requires k < 32
  {
    match k
    case 0 => 0 case 1 => 24 case 2 => 16 case 3 => 8 case 4 => 17 case 5 => 9 case 6 => 25 case 7 => 1
    case 8 => 10 case 9 => 18 case 10 => 2 case 11 => 26 case 12 => 27 case 13 => 3 case 14 => 11 case 15 => 19
    case 16 => 12 case 17 => 20 case 18 => 28 case 19 => 4 case 20 => 29 case 21 => 5 case 22 => 21 case 23 => 13
    case 24 => 6 case 25 => 30 case 26 => 14 case 27 => 22 case 28 => 23 case 29 => 15 case 30 => 7 case 31 => 31
  }

  /** res, and the bits of x sent to the places the table lists from index i on. */
  function Scatter(table: seq<bv32>, res: bv32, x: bv32, i: nat): bv32
    requires i <= |table|
    decreases |table| - i
  {
    if i == |table| then res else Scatter(table, Place(res, x, table[i]), x >> 1, i + 1)
  }

  function Place(res: bv32, x: bv32, bit: bv32): bv32 {
    if x & 1 == 1 then res | bit else res
  }

  function Perm32(x: bv32): bv32 {
    Scatter(PBOX, 0, x, 0)
  }

  /** Where the positions in b go, when the table is read from index i on. */
  function Image(ps: seq<nat>, i: nat, b: Poly): Poly {
    set j | j in b && i + j < |ps| :: ps[i + j]
  }

  // ----- the loop -----

  lemma {:induction false} ScatterZero(table: seq<bv32>, res: bv32, i: nat)
    requires i <= |table|
    ensures Scatter(table, res, 0, i) == res
    decreases |table| - i
  {
    if i < |table| {
      assert 0 as bv32 >> 1 == 0;
      ScatterZero(table, res, i + 1);
    }
  }

  lemma BelowHalf(x: bv32, n: nat)
    requires x != 0 && Below(Bits(x), n)
    ensures n > 0 && Below(Bits(x >> 1), n - 1)
  {
    BitsNonzero(x);
    var k :| k in Bits(x);
    assert k < n;
    var h := Bits(x >> 1);
    forall i <- h
      ensures i < n - 1
    {
      BitsNext(x, i);
    }
  }

  /** The loop reads the table only inside its 32 entries and stops when no bit is left. */
  method IcePerm32(x0: bv32) returns (res: bv32)
    ensures res == Perm32(x0) && Rearranged(res, x0)
  {
    var x, pbox := x0, 0;
    res := 0;
    EveryWordBelow32(x0);
    while x != 0
      invariant pbox <= 32 && Below(Bits(x), 32 - pbox)
      invariant Scatter(PBOX, res, x, pbox) == Perm32(x0)
      decreases x
    {
      BelowHalf(x, 32 - pbox);
      if x & 1 == 1 {
        res := res | PBOX[pbox];
      }
      pbox := pbox + 1;
      x := x >> 1;
    }
    ScatterZero(PBOX, res, pbox);
    Rearranges(x0);
  }

  /** Bit k of y is bit Origin(k) of x. */
  ghost predicate Rearranged(y: bv32, x: bv32) {
    forall k: nat :: k in Bits(y) <==> k < 32 && Origin(k) in Bits(x)
  }

  lemma Rearranges(x: bv32)
    ensures Rearranged(Perm32(x), x)
  {
    forall k: nat
      ensures k in Bits(Perm32(x)) <==> k < 32 && Origin(k) in Bits(x)
    {
      Perm32At(x, k);
    }
  }

  // ----- what the loop does to bit positions -----

  ghost predicate Matches(t: seq<bv32>, ps: seq<nat>) {
    |t| == |ps| && forall i | 0 <= i < |t| :: Bits(t[i]) == {ps[i]}
  }

  lemma ImageFirst(ps: seq<nat>, i: nat, x: bv32, k: nat)
    requires i < |ps| && k in Image(ps, i, Bits(x))
    ensures (x & 1 == 1 && k == ps[i]) || k in Image(ps, i + 1, Bits(x >> 1))
  {
    var b := Bits(x);
    var j :| j in b && i + j < |ps| && ps[i + j] == k;
    if j == 0 {
      BitsZeroth(x);
    } else {
      BitsNext(x, j - 1);
      assert ps[i + 1 + (j - 1)] == k;
    }
  }

  lemma ImageLater(ps: seq<nat>, i: nat, x: bv32, k: nat)
    requires i < |ps| && k in Image(ps, i + 1, Bits(x >> 1))
    ensures k in Image(ps, i, Bits(x))
  {
    var h := Bits(x >> 1);
    var j :| j in h && i + 1 + j < |ps| && ps[i + 1 + j] == k;
    BitsNext(x, j);
    assert ps[i + (j + 1)] == k;
  }

  lemma ImageHalves(ps: seq<nat>, i: nat, x: bv32)
    requires i < |ps|
    ensures Image(ps, i, Bits(x)) == (if x & 1 == 1 then {ps[i]} else {}) + Image(ps, i + 1, Bits(x >> 1))
  {
    if x & 1 == 1 {
      BitsZeroth(x);
      assert ps[i + 0] in Image(ps, i, Bits(x));
    }
    forall k | k in Image(ps, i, Bits(x))
      ensures (x & 1 == 1 && k == ps[i]) || k in Image(ps, i + 1, Bits(x >> 1))
    {
      ImageFirst(ps, i, x, k);
    }
    forall k | k in Image(ps, i + 1, Bits(x >> 1))
      ensures k in Image(ps, i, Bits(x))
    {
      ImageLater(ps, i, x, k);
    }
  }

  lemma PlaceBits(res: bv32, x: bv32, bit: bv32)
    ensures Bits(Place(res, x, bit)) == Bits(res) + if x & 1 == 1 then Bits(bit) else {}
  {
    if x & 1 == 1 {
      BitsOr(res, bit);
    }
  }

  lemma {:induction false} ScatterBits(t: seq<bv32>, ps: seq<nat>, res: bv32, x: bv32, i: nat)
    requires Matches(t, ps) && i <= |t|
    ensures Bits(Scatter(t, res, x, i)) == Bits(res) + Image(ps, i, Bits(x))
    decreases |t| - i
  {
    if i == |t| {
      assert Image(ps, i, Bits(x)) == {};
    } else {
      PlaceBits(res, x, t[i]);
      ScatterBits(t, ps, Place(res, x, t[i]), x >> 1, i + 1);
      ImageHalves(ps, i, x);
    }
  }

  // ----- the table is a permutation -----

  lemma FirstRow(t: seq<bv32>, ps: seq<nat>)
    requires t == PBOX && ps == POSITION
    ensures t[0] == 0x00000001 && t[1] == 0x00000080 && t[2] == 0x00000400 && t[3] == 0x00002000
    ensures ps[0] == 0 && ps[1] == 7 && ps[2] == 10 && ps[3] == 13
    ensures t[4] == 0x00080000 && t[5] == 0x00200000 && t[6] == 0x01000000 && t[7] == 0x40000000
    ensures ps[4] == 19 && ps[5] == 21 && ps[6] == 24 && ps[7] == 30
  {
  }

  lemma SecondRow(t: seq<bv32>, ps: seq<nat>)
    requires t == PBOX && ps == POSITION
    ensures t[8] == 0x00000008 && t[9] == 0x00000020 && t[10] == 0x00000100 && t[11] == 0x00004000
    ensures ps[8] == 3 && ps[9] == 5 && ps[10] == 8 && ps[11] == 14
    ensures t[12] == 0x00010000 && t[13] == 0x00800000 && t[14] == 0x04000000 && t[15] == 0x20000000
    ensures ps[12] == 16 && ps[13] == 23 && ps[14] == 26 && ps[15] == 29
  {
  }

  lemma ThirdRow(t: seq<bv32>, ps: seq<nat>)
    requires t == PBOX && ps == POSITION
    ensures t[16] == 0x00000004 && t[17] == 0x00000010 && t[18] == 0x00000200 && t[19] == 0x00008000
    ensures ps[16] == 2 && ps[17] == 4 && ps[18] == 9 && ps[19] == 15
    ensures t[20] == 0x00020000 && t[21] == 0x00400000 && t[22] == 0x08000000 && t[23] == 0x10000000
    ensures ps[20] == 17 && ps[21] == 22 && ps[22] == 27 && ps[23] == 28
  {
  }

  lemma FourthRow(t: seq<bv32>, ps: seq<nat>)
    requires t == PBOX && ps == POSITION
    ensures t[24] == 0x00000002 && t[25] == 0x00000040 && t[26] == 0x00000800 && t[27] == 0x00001000
    ensures ps[24] == 1 && ps[25] == 6 && ps[26] == 11 && ps[27] == 12
    ensures t[28] == 0x00040000 && t[29] == 0x00100000 && t[30] == 0x02000000 && t[31] == 0x80000000
    ensures ps[28] == 18 && ps[29] == 20 && ps[30] == 25 && ps[31] == 31
  {
  }

  lemma PBoxMatches(i: nat)
    requires i < 32
    ensures IsBit(PBOX[i], POSITION[i])
  {
    SingleBits();
    if i < 8 {
      FirstRow(PBOX, POSITION);
    } else if i < 16 {
      SecondRow(PBOX, POSITION);
    } else if i < 24 {
      ThirdRow(PBOX, POSITION);
    } else {
      FourthRow(PBOX, POSITION);
    }
  }

  lemma PositionsArePermuted(i: nat)
    requires i < 32
    ensures POSITION[i] < 32 && Origin(POSITION[i]) == i
  {
    if i < 8 {
      FirstRow(PBOX, POSITION);
    } else if i < 16 {
      SecondRow(PBOX, POSITION);
    } else if i < 24 {
      ThirdRow(PBOX, POSITION);
    } else {
      FourthRow(PBOX, POSITION);
    }
  }

  lemma OriginsArePermuted(k: nat)
    requires k < 32
    ensures Origin(k) < 32 && POSITION[Origin(k)] == k
  {
    if Origin(k) < 8 {
      FirstRow(PBOX, POSITION);
    } else if Origin(k) < 16 {
      SecondRow(PBOX, POSITION);
    } else if Origin(k) < 24 {
      ThirdRow(PBOX, POSITION);
    } else {
      FourthRow(PBOX, POSITION);
    }
  }

  lemma Perm32Image(x: bv32)
    ensures Bits(Perm32(x)) == Image(POSITION, 0, Bits(x))
  {
    forall i | 0 <= i < 32
      ensures Bits(PBOX[i]) == {POSITION[i]}
    {
      PBoxMatches(i);
      BitsOfBit(PBOX[i], POSITION[i]);
    }
    ScatterBits(PBOX, POSITION, 0, x, 0);
  }

  /** Bit j of x is bit POSITION[j] of the result, and nothing else is set. */
  lemma Perm32At(x: bv32, k: nat)
    ensures k in Bits(Perm32(x)) <==> k < 32 && Origin(k) in Bits(x)
  {
    Perm32Image(x);
    EveryWordBelow32(x);
    var b := Bits(x);
    if k in Bits(Perm32(x)) {
      var j :| j in b && 0 + j < 32 && POSITION[0 + j] == k;
      PositionsArePermuted(j);
    }
    if k < 32 && Origin(k) in b {
      OriginsArePermuted(k);
      assert POSITION[0 + Origin(k)] in Image(POSITION, 0, b);
    }
  }

  // ----- what the permutation keeps -----

  lemma Perm32Or(x: bv32, y: bv32)
    ensures Perm32(x | y) == Perm32(x) | Perm32(y)
  {
    var z, l, r := x | y, Perm32(x | y), Perm32(x) | Perm32(y);
    BitsOr(x, y);
    BitsOr(Perm32(x), Perm32(y));
    forall k: nat
      ensures k in Bits(l) <==> k in Bits(r)
    {
      Perm32At(x, k); Perm32At(y, k); Perm32At(z, k);
    }
    BitsInjective(l, r);
  }

  lemma Perm32Xor(x: bv32, y: bv32)
    ensures Perm32(x ^ y) == Perm32(x) ^ Perm32(y)
  {
    var z, l, r := x ^ y, Perm32(x ^ y), Perm32(x) ^ Perm32(y);
    BitsXor(x, y);
    BitsXor(Perm32(x), Perm32(y));
    forall k: nat
      ensures k in Bits(l) <==> k in Bits(r)
    {
      Perm32At(x, k); Perm32At(y, k); Perm32At(z, k);
    }
    BitsInjective(l, r);
  }

  lemma Perm32And(x: bv32, y: bv32)
    ensures Perm32(x & y) == Perm32(x) & Perm32(y)
  {
    var z, l, r := x & y, Perm32(x & y), Perm32(x) & Perm32(y);
    BitsAnd(x, y);
    BitsAnd(Perm32(x), Perm32(y));
    forall k: nat
      ensures k in Bits(l) <==> k in Bits(r)
    {
      Perm32At(x, k); Perm32At(y, k); Perm32At(z, k);
    }
    BitsInjective(l, r);
  }

  lemma Perm32Injective(x: bv32, y: bv32)
    requires Perm32(x) == Perm32(y)
    ensures x == y
  {
    EveryWordBelow32(x); EveryWordBelow32(y);
    forall j: nat
      ensures j in Bits(x) <==> j in Bits(y)
    {
      if j < 32 {
        PositionsArePermuted(j);
        Perm32At(x, POSITION[j]); Perm32At(y, POSITION[j]);
      }
    }
    BitsInjective(x, y);
  }

  /** Every word is the permutation of some word, so with Perm32Injective it is a bijection. */
  lemma Perm32Surjective(y: bv32) returns (x: bv32)
    ensures Perm32(x) == y
  {
    var source := set j: nat | j < 32 && POSITION[j] in Bits(y);
    x := WordOf(source, 32);
    WordOfBits(source, x);
    EveryWordBelow32(y);
    forall k: nat
      ensures k in Bits(Perm32(x)) <==> k in Bits(y)
    {
      Perm32At(x, k);
      if k < 32 {
        OriginsArePermuted(k);
        assert Origin(k) in source <==> POSITION[Origin(k)] in Bits(y);
      }
    }
    BitsInjective(Perm32(x), y);
  }

  lemma PermOr(x: bv32, y: bv32)
    ensures Perm32(Or(x, y)) == Or(Perm32(x), Perm32(y))
  {
    Perm32Or(x, y);
  }

  lemma PermOfFour(a: bv32, b: bv32, c: bv32, d: bv32)
    ensures Or(Or(Or(Perm32(a), Perm32(b)), Perm32(c)), Perm32(d)) == Perm32(Or(Or(Or(a, b), c), d))
  {
    PermOr(a, b);
    PermOr(Or(a, b), c);
    PermOr(Or(Or(a, b), c), d);
  }
}
