/** The ICE round function, and the shared tables that make it four look-ups. */
module RoundFunction {
  import opened Words
  import opened GaloisField
  import opened SBoxes
  import opened PBox

  /** The three words of one round's subkey. */
  datatype SubkeyWords = SubkeyWords(left: bv32, right: bv32, salt: bv32) {
    predicate Fits() {
      left < 0x10_0000 && right < 0x10_0000 && salt < 0x10_0000
    }
  }

  /** A subkey as the key schedule builds it: three 20-bit words. */
  type Subkey = s: SubkeyWords | s.Fits() witness SubkeyWords(0, 0, 0)

  // ----- the definition -----

  /** The outer two bits of a 10-bit group choose the row, the inner eight the column. */
  function Row(g: bv10): nat {
    ((g & 1) | ((g & 0x200) >> 8)) as bv2 as nat
  }

  function Column(g: bv10): bv32 {
    ((g >> 1) & 0xff) as bv32
  }

  function SBox(k: nat, g: bv10): bv32
    requires k < 4
  {
    SBoxByte(k, Row(g), Column(g))
  }

  /** Ten consecutive bits of p, wrapping round, as the expansion copies them: from 24, 16, 8 and 0. */
  function Expand(p: bv32): (bv32, bv32) {
    var g0 := ((p >> 24) | (p << 8)) & 0x3ff;
    var g1 := (p >> 16) & 0x3ff;
    var g2 := (p >> 8) & 0x3ff;
    var g3 := p & 0x3ff;
    ((g0 << 10) | g1, (g2 << 10) | g3)
  }

  /** Where the salt has a 1, a half takes the bit of the other half. */
  function Swap(own: bv32, other: bv32, salt: bv32): bv32 {
    (other & salt) | (own & !salt)
  }

  function High(a: bv32): bv10 {
    ((a >> 10) & 0x3ff) as bv10
  }

  function Low(a: bv32): bv10 {
    (a & 0x3ff) as bv10
  }

  function Concat(a: bv32, b: bv32, c: bv32, d: bv32): bv32 {
    Or(Or(Or(a << 24, b << 16), c << 8), d)
  }

  /** Expanded, swapped by the salt, and added to the subkey. */
  function Keyed(p: bv32, sk: SubkeyWords): (bv32, bv32) {
    var (tl, tr) := Expand(p);
    (Xor(Swap(tl, tr, sk.salt), sk.left), Xor(Swap(tr, tl, sk.salt), sk.right))
  }

  /** Each half gives two groups of ten bits, each group a byte, and the four bytes are permuted. */
  function Substitute(a: (bv32, bv32)): bv32 {
    Perm32(Concat(SBox(0, High(a.0)), SBox(1, Low(a.0)), SBox(2, High(a.1)), SBox(3, Low(a.1))))
  }

  function F(p: bv32, sk: SubkeyWords): bv32 {
    Substitute(Keyed(p, sk))
  }

  // ----- the tables -----

  /** Entry g of table k: the S-box byte, moved to its lane and already permuted. */
  function TableEntry(k: nat, g: bv10): bv32
    requires k < 4
  {
    Perm32(Lane(k, SBox(k, g)))
  }

  function Lane(k: nat, x: bv32): bv32 {
    match k
    case 0 => x << 24
    case 1 => x << 16
    case 2 => x << 8
    case _ => x
  }

  /** One entry of one table; the initialisation computes the four of an index in turn. */
  method MakeEntry(k: nat, i: nat, ghost g: bv10) returns (e: bv32)
    requires k < 4 && i < 1024 && g == i as bv10
    ensures e == TableEntry(k, g)
  {
    var w := i as bv10;
    var col := ((w >> 1) & 0xff) as bv32;
    var row := ((w & 1) | ((w & 0x200) >> 8)) as bv2 as nat;
    var x := GfExp7(col ^ SXor(k, row), SMod(k, row));
    e := IcePerm32(Lane(k, x));
  }

  /** The static S-box tables and the flag that says they have been filled in. */
  class SharedTables {
    const sbox: array2<bv32>
    var initialised: bool

    ghost predicate Shaped()
      reads this
    {
      sbox.Length0 == 4 && sbox.Length1 == 1024
    }

    ghost predicate RowFilled(k: nat, n: nat)
      requires Shaped() && k < 4 && n <= 1024
      reads this, sbox
    {
      forall g: bv10 | g as nat < n :: sbox[k, g as nat] == TableEntry(k, g)
    }

    ghost predicate Filled()
      reads this, sbox
    {
      Shaped() && RowFilled(0, 1024) && RowFilled(1, 1024) && RowFilled(2, 1024) && RowFilled(3, 1024)
    }

    /** Once the flag is up the tables hold their definition. */
    ghost predicate Valid()
      reads this, sbox
    {
      Shaped() && (initialised ==> Filled())
    }

    constructor ()
      ensures Valid() && !initialised && fresh(sbox)
    {
      sbox := new bv32[4, 1024];
      initialised := false;
    }

    /** Stores one entry and leaves every other one as it was. */
    method Store(k: nat, i: nat)
      requires Shaped() && k < 4 && i < 1024 && RowFilled(k, i)
      modifies sbox
      ensures RowFilled(k, i + 1)
      ensures forall k', i' | 0 <= k' < 4 && 0 <= i' < 1024 && k' != k :: sbox[k', i'] == old(sbox[k', i'])
    {
      var e := MakeEntry(k, i, i as bv10);
      sbox[k, i] := e;
    }

    /** Fills every entry of the four tables. */
    method IceSBoxesInit()
      requires Shaped()
      modifies sbox
      ensures Filled()
    {
      for i := 0 to 1024
        invariant RowFilled(0, i) && RowFilled(1, i) && RowFilled(2, i) && RowFilled(3, i)
      {
        Store(0, i); Store(1, i); Store(2, i); Store(3, i);
      }
    }

    function Lookup(k: nat, g: bv10): bv32
      requires Shaped() && k < 4
      reads this, sbox
    {
      sbox[k, g as nat]
    }

    lemma LookupFinds(k: nat, g: bv10)
      requires Filled() && k < 4
      ensures Lookup(k, g) == TableEntry(k, g)
    {
    }
  }

  // ----- the code's shortcuts -----

  function CodeLeft(p: bv32): bv32 {
    ((p >> 16) & 0x3ff) | (((p >> 14) | (p << 18)) & 0xf_fc00)
  }

  function CodeRight(p: bv32): bv32 {
    (p & 0x3ff) | ((p << 2) & 0xf_fc00)
  }

  lemma ExpandIsCode(p: bv32)
    ensures Expand(p) == (CodeLeft(p), CodeRight(p))
  {
    ExpandLeft(p); ExpandRight(p);
  }

  lemma ExpandLeft(p: bv32)
    ensures CodeLeft(p) == Expand(p).0
  {
  }

  lemma ExpandRight(p: bv32)
    ensures CodeRight(p) == Expand(p).1
  {
  }

  /** The three-xor swap of the code. */
  function CodeSwap(own: bv32, tl: bv32, tr: bv32, salt: bv32): bv32 {
    (salt & (tl ^ tr)) ^ own
  }

  lemma SwapIdentityLeft(tl: bv32, tr: bv32, salt: bv32)
    ensures (salt & (tl ^ tr)) ^ tl == (tr & salt) | (tl & !salt)
  {
  }

  lemma SwapIdentityRight(tl: bv32, tr: bv32, salt: bv32)
    ensures (salt & (tl ^ tr)) ^ tr == (tl & salt) | (tr & !salt)
  {
  }

  /** It is the and/or form the code comments out. */
  lemma SwapLeft(tl: bv32, tr: bv32, salt: bv32)
    ensures CodeSwap(tl, tl, tr, salt) == Swap(tl, tr, salt)
  {
    SwapIdentityLeft(tl, tr, salt);
  }

  lemma SwapRight(tl: bv32, tr: bv32, salt: bv32)
    ensures CodeSwap(tr, tl, tr, salt) == Swap(tr, tl, salt)
  {
    SwapIdentityRight(tl, tr, salt);
  }

  lemma ExpandFits(p: bv32)
    ensures Expand(p).0 < 0x10_0000 && Expand(p).1 < 0x10_0000
  {
  }

  lemma SwapFits(own: bv32, other: bv32, salt: bv32)
    requires own < 0x10_0000 && other < 0x10_0000
    ensures Swap(own, other, salt) < 0x10_0000
  {
  }

  lemma XorFits(x: bv32, y: bv32)
    requires x < 0x10_0000 && y < 0x10_0000
    ensures Xor(x, y) < 0x10_0000
  {
  }

  lemma IndexFits(a: bv32)
    requires a < 0x10_0000
    ensures a >> 10 < 1024 && (a >> 10) as bv10 == High(a)
  {
  }

  /** The four look-ups, or-ed together, permute the four S-box bytes at once. */
  lemma LookupsCombine(s0: bv32, s1: bv32, s2: bv32, s3: bv32)
    ensures Or(Or(Or(Perm32(s0 << 24), Perm32(s1 << 16)), Perm32(s2 << 8)), Perm32(s3))
         == Perm32(Concat(s0, s1, s2, s3))
  {
    PermOfFour(s0 << 24, s1 << 16, s2 << 8, s3);
  }

  lemma LanesDisjoint(x: bv32, y: bv32, j: nat, k: nat)
    requires j < k < 4 && x < 256 && y < 256
    ensures Lane(j, x) & Lane(k, y) == 0
  {
  }

  /** No two look-ups share a bit: each S-box owns eight of the 32 output bits. */
  lemma LookupsNeverCollide(g: bv10, h: bv10, j: nat, k: nat)
    requires j < k < 4
    ensures TableEntry(j, g) & TableEntry(k, h) == 0
  {
    var x, y := SBox(j, g), SBox(k, h);
    SBoxPermutes(j, Row(g), Column(g));
    SBoxPermutes(k, Row(h), Column(h));
    LanesDisjoint(x, y, j, k);
    Perm32And(Lane(j, x), Lane(k, y));
    PermOfZero();
  }

  lemma PermOfZero()
    ensures Perm32(0) == 0
  {
    ScatterZero(PBOX, 0, 0);
  }

  /** With 20-bit subkeys every S-box index stays below 1024. */
  lemma KeyedFits(p: bv32, sk: Subkey)
    ensures Keyed(p, sk).0 < 0x10_0000 && Keyed(p, sk).1 < 0x10_0000
  {
    var (tl, tr) := Expand(p);
    ExpandFits(p);
    SwapFits(tl, tr, sk.salt); SwapFits(tr, tl, sk.salt);
    XorFits(Swap(tl, tr, sk.salt), sk.left); XorFits(Swap(tr, tl, sk.salt), sk.right);
  }

  lemma CombineBy(s0: bv32, s1: bv32, s2: bv32, s3: bv32, x0: bv32, x1: bv32, x2: bv32, x3: bv32)
    requires x0 == Perm32(Lane(0, s0)) && x1 == Perm32(Lane(1, s1))
    requires x2 == Perm32(Lane(2, s2)) && x3 == Perm32(Lane(3, s3))
    ensures Or(Or(Or(x0, x1), x2), x3) == Perm32(Concat(s0, s1, s2, s3))
  {
    LookupsCombine(s0, s1, s2, s3);
  }

  /** The first statements of the round function: expansion, salt swap and key addition. */
  function KeyHalves(p: bv32, sk: SubkeyWords): (bv32, bv32) {
    var tl, tr := CodeLeft(p), CodeRight(p);
    (Xor(CodeSwap(tl, tl, tr, sk.salt), sk.left), Xor(CodeSwap(tr, tl, tr, sk.salt), sk.right))
  }

  lemma HalvesAreKeyed(p: bv32, sk: SubkeyWords)
    ensures KeyHalves(p, sk) == Keyed(p, sk)
  {
    ExpandIsCode(p);
    SwapLeft(CodeLeft(p), CodeRight(p), sk.salt); SwapRight(CodeLeft(p), CodeRight(p), sk.salt);
  }

  /** The single round function of the code: four table look-ups. */
  function IceF(tables: SharedTables, p: bv32, sk: Subkey): bv32
    requires tables.Shaped()
    reads tables, tables.sbox
  {
    var (al, ar) := KeyHalves(p, sk);
    HalvesAreKeyed(p, sk); KeyedFits(p, sk); IndexFits(al); IndexFits(ar);
    Or(Or(Or(tables.Lookup(0, (al >> 10) as bv10), tables.Lookup(1, (al & 0x3ff) as bv10)),
          tables.Lookup(2, (ar >> 10) as bv10)), tables.Lookup(3, (ar & 0x3ff) as bv10))
  }

  lemma FourLookups(tables: SharedTables, al: bv32, ar: bv32)
    requires tables.Filled()
    ensures Or(Or(Or(tables.Lookup(0, High(al)), tables.Lookup(1, Low(al))), tables.Lookup(2, High(ar))),
               tables.Lookup(3, Low(ar))) == Substitute((al, ar))
  {
    var g0, g1, g2, g3 := High(al), Low(al), High(ar), Low(ar);
    tables.LookupFinds(0, g0); tables.LookupFinds(1, g1); tables.LookupFinds(2, g2); tables.LookupFinds(3, g3);
    CombineBy(SBox(0, g0), SBox(1, g1), SBox(2, g2), SBox(3, g3),
              tables.Lookup(0, g0), tables.Lookup(1, g1), tables.Lookup(2, g2), tables.Lookup(3, g3));
  }

  /** The look-ups compute the round function as it is defined, for every half and every 20-bit subkey. */
  lemma IceFIsF(tables: SharedTables, p: bv32, sk: Subkey)
    requires tables.Filled()
    ensures IceF(tables, p, sk) == F(p, sk)
  {
    var (al, ar) := KeyHalves(p, sk);
    HalvesAreKeyed(p, sk); KeyedFits(p, sk); IndexFits(al); IndexFits(ar);
    FourLookups(tables, al, ar);
  }
}
