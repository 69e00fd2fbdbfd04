/** The round function and its tables bit by bit: which S-box, row and column every input bit reaches, and where every
    output bit comes from. */
module RoundBits {
  import opened Words
  import opened BytesInWords
  import opened SBoxes
  import opened PBox
  import opened RoundFunction

  // ----- rows and columns -----

  lemma GroupParts(g: bv10)
    ensures g as nat == 512 * ((g >> 9) as nat) + 2 * (((g >> 1) & 0xff) as nat) + (g & 1) as nat
  {
  }

  lemma RowParts(g: bv10)
    ensures Row(g) == 2 * ((g >> 9) as nat) + (g & 1) as nat
    ensures (g >> 9) as nat < 2 && (g & 1) as nat < 2 && ((g >> 1) & 0xff) as nat < 256
  {
  }

  lemma ColumnPart(g: bv10)
    ensures Column(g) as nat == ((g >> 1) & 0xff) as nat
  {
  }

  lemma HalfOf(i: nat, high: nat, b: nat)
    requires i == 2 * high + b && b < 2
    ensures i / 2 == high && i % 2 == b
  {
  }

  lemma LowOf(i: nat, a: nat, c: nat)
    requires i == 256 * a + c && c < 256
    ensures i % 256 == c && i / 256 == a
  {
  }

  lemma QuotientOf512(i: nat, a: nat, low: nat)
    requires i == 512 * a + low && low < 512
    ensures i / 512 == a
  {
  }

  lemma Numbers(i: nat, a: nat, c: nat, b: nat)
    requires i == 512 * a + 2 * c + b && b < 2 && c < 256
    ensures i / 512 == a && i % 2 == b && i / 2 % 256 == c
  {
    HalfOf(i, 256 * a + c, b);
    LowOf(256 * a + c, a, c);
    QuotientOf512(i, a, 2 * c + b);
  }

  /** The outer two bits of an index are the row, the high one worth two, and the inner eight the column. */
  lemma RowAndColumn(g: bv10)
    ensures Row(g) == 2 * (g as nat / 512) + g as nat % 2
    ensures Column(g) as nat == g as nat / 2 % 256
  {
    hide Row, Column;
    GroupParts(g);
    RowParts(g);
    ColumnPart(g);
    Numbers(g as nat, (g >> 9) as nat, ((g >> 1) & 0xff) as nat, (g & 1) as nat);
  }

  /** The index with outer bits a and b and column c. */
  function Index(a: bool, c: bv8, b: bool): bv10 {
    (if a then 0x200 else 0) | (c as bv10 << 1) | (if b then 1 else 0)
  }

  lemma IndexIs(a: bool, c: bv8, b: bool)
    ensures Index(a, c, b) as nat == (if a then 512 else 0) + 2 * (c as nat) + (if b then 1 else 0)
    ensures Row(Index(a, c, b)) == (if a then 2 else 0) + (if b then 1 else 0)
    ensures Column(Index(a, c, b)) == c as bv32
  {
  }

  lemma EveryIndex(g: bv10)
    ensures g == Index(g & 0x200 != 0, ((g >> 1) & 0xff) as bv8, g & 1 != 0)
  {
  }

  /** In filled tables the entry of table k at 512 a + 2 c + b is the S-box byte of row 2 a + b and column c, in lane k
      and permuted, and these are all the entries. */
  lemma FilledAt(tables: SharedTables, k: nat, a: bool, c: bv8, b: bool, i: nat)
    requires tables.Filled() && k < 4 && i == (if a then 512 else 0) + 2 * (c as nat) + (if b then 1 else 0)
    ensures i < 1024
    ensures tables.sbox[k, i] == Perm32(Lane(k, SBoxByte(k, (if a then 2 else 0) + (if b then 1 else 0), c as bv32)))
  {
    var g := Index(a, c, b);
    IndexIs(a, c, b);
    tables.LookupFinds(k, g);
  }

  // ----- expansion, salt swap and key addition -----

  /** The four groups of the expansion are the lowest ten bits of the half rotated right by 24, 16, 8 and 0. */
  lemma ExpandGroups(p: bv32)
    ensures High(Expand(p).0) == (p.RotateRight(24) & 0x3ff) as bv10
    ensures Low(Expand(p).0) == (p.RotateRight(16) & 0x3ff) as bv10
    ensures High(Expand(p).1) == (p.RotateRight(8) & 0x3ff) as bv10
    ensures Low(Expand(p).1) == (p & 0x3ff) as bv10
  {
  }

  lemma SwapHalves(own: bv32, other: bv32, salt: bv32, z: bv32)
    requires z == Swap(own, other, salt)
    ensures z >> 1 == Swap(own >> 1, other >> 1, salt >> 1)
    ensures z & 1 == 1 <==> if salt & 1 == 1 then other & 1 == 1 else own & 1 == 1
  {
  }

  lemma {:induction false} SwapAt(own: bv32, other: bv32, salt: bv32, z: bv32, i: nat)
    requires z == Swap(own, other, salt)
    ensures i in Bits(z) <==> if i in Bits(salt) then i in Bits(other) else i in Bits(own)
    decreases i
  {
    hide Bits, Swap;
    SwapHalves(own, other, salt, z);
    if i == 0 {
      BitsZeroth(own); BitsZeroth(other); BitsZeroth(salt); BitsZeroth(z);
    } else {
      SwapAt(own >> 1, other >> 1, salt >> 1, z >> 1, i - 1);
      BitsNext(own, i - 1); BitsNext(other, i - 1); BitsNext(salt, i - 1); BitsNext(z, i - 1);
    }
  }

  lemma XorBits(x: bv32, y: bv32, z: bv32, i: nat)
    requires z == Xor(x, y)
    ensures i in Bits(z) <==> (i in Bits(x)) != (i in Bits(y))
  {
    BitsXorAt(x, y, z, i);
  }

  /** Bit i of a keyed half is that bit of its own half of the expansion, or of the other where the salt has a 1,
      changed where its own word of the subkey has a 1. */
  lemma KeyedAt(p: bv32, sk: SubkeyWords, i: nat)
    ensures i in Bits(Keyed(p, sk).0)
       <==> (i in Bits(if i in Bits(sk.salt) then Expand(p).1 else Expand(p).0)) != (i in Bits(sk.left))
    ensures i in Bits(Keyed(p, sk).1)
       <==> (i in Bits(if i in Bits(sk.salt) then Expand(p).0 else Expand(p).1)) != (i in Bits(sk.right))
  {
    hide Bits, Swap, Expand, Xor;
    var (tl, tr) := Expand(p);
    SwapAt(tl, tr, sk.salt, Swap(tl, tr, sk.salt), i);
    SwapAt(tr, tl, sk.salt, Swap(tr, tl, sk.salt), i);
    XorBits(Swap(tl, tr, sk.salt), sk.left, Keyed(p, sk).0, i);
    XorBits(Swap(tr, tl, sk.salt), sk.right, Keyed(p, sk).1, i);
  }

  // ----- output bits -----

  lemma UpChain(x: bv32, x8: bv32, x16: bv32, x24: bv32)
    requires x < 256 && x8 == Lane(2, x) && x16 == Lane(1, x) && x24 == Lane(0, x)
    ensures x8 == x << 8 && x16 == x8 << 8 && x24 == x16 << 8 && x8 < 0x100_0000 && x16 < 0x100_0000
  {
  }

  lemma LanesUp(x: bv32, x8: bv32, x16: bv32, x24: bv32, o: nat)
    requires x < 256 && x8 == x << 8 && x16 == x8 << 8 && x24 == x16 << 8 && x8 < 0x100_0000 && x16 < 0x100_0000
    ensures o in Bits(x8) <==> o >= 8 && o - 8 in Bits(x)
    ensures o in Bits(x16) <==> o >= 16 && o - 16 in Bits(x)
    ensures o in Bits(x24) <==> o >= 24 && o - 24 in Bits(x)
  {
    UpBits(x, x8, o); UpBits(x8, x16, o); UpBits(x16, x24, o);
    if o >= 8 {
      UpBits(x, x8, o - 8); UpBits(x8, x16, o - 8);
    }
    if o >= 16 {
      UpBits(x, x8, o - 16);
    }
  }

  /** Lane k of a byte is its eight bits from bit 24 - 8 * k on. */
  lemma LaneBits(k: nat, x: bv32, o: nat)
    requires k < 4 && x < 256
    ensures o in Bits(Lane(k, x)) <==> o / 8 == 3 - k && o % 8 in Bits(x)
  {
    hide Bits;
    ByteBits(x);
    UpChain(x, Lane(2, x), Lane(1, x), Lane(0, x));
    LanesUp(x, Lane(2, x), Lane(1, x), Lane(0, x), o);
    LanePlace(o, 8 * (3 - k), 3 - k);
  }

  lemma LanePlace(o: nat, low: nat, q: nat)
    requires low == 8 * q
    ensures o / 8 == q <==> low <= o < low + 8
    ensures low <= o < low + 8 ==> o % 8 == o - low
  {
  }

  /** The S-box input of box q. */
  function Group(keyed: (bv32, bv32), q: nat): bv10
    requires q < 4
  {
    match q
    case 0 => High(keyed.0) case 1 => Low(keyed.0) case 2 => High(keyed.1) case _ => Low(keyed.1)
  }

  lemma ConcatBits(s0: bv32, s1: bv32, s2: bv32, s3: bv32, o: nat)
    ensures o in Bits(Concat(s0, s1, s2, s3))
       <==> o in Bits(Lane(0, s0)) || o in Bits(Lane(1, s1)) || o in Bits(Lane(2, s2)) || o in Bits(Lane(3, s3))
  {
    var a, b, c := s0 << 24, s1 << 16, s2 << 8;
    OrBits(a, b, o);
    OrBits(Or(a, b), c, o);
    OrBits(Or(Or(a, b), c), s3, o);
  }

  lemma SBoxIsByte(k: nat, g: bv10)
    requires k < 4
    ensures SBox(k, g) < 256
  {
    SBoxPermutes(k, Row(g), Column(g));
  }

  /** Bit k of the round function is one named bit of one S-box: bit Origin(k) % 8 of box 3 - Origin(k) / 8 on its ten
      bits of the keyed halves. */
  lemma OutputBit(p: bv32, sk: SubkeyWords, k: nat, o: nat, q: nat)
    requires k < 32 && o == Origin(k) && o < 32 && q == 3 - o / 8
    ensures k in Bits(F(p, sk)) <==> o % 8 in Bits(SBox(q, Group(Keyed(p, sk), q)))
  {
    hide Bits, Keyed, SBox, High, Low, Lane, Perm32;
    var a := Keyed(p, sk);
    var s0, s1, s2, s3 := SBox(0, High(a.0)), SBox(1, Low(a.0)), SBox(2, High(a.1)), SBox(3, Low(a.1));
    Perm32At(Concat(s0, s1, s2, s3), k);
    ConcatBits(s0, s1, s2, s3, o);
    SBoxIsByte(0, High(a.0)); SBoxIsByte(1, Low(a.0)); SBoxIsByte(2, High(a.1)); SBoxIsByte(3, Low(a.1));
    LaneBits(0, s0, o); LaneBits(1, s1, o); LaneBits(2, s2, o); LaneBits(3, s3, o);
  }
}
