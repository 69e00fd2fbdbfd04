/** The whole cipher on 64-bit words: tables, round function, subkey words, rounds and bytes, as with 32-bit ones. */
module WideCipher {
  import opened Gf2Polynomials
  import opened Words
  import opened PBox
  import SBoxes
  import opened RoundFunction
  import opened Feistel
  import opened KeySchedule
  import opened IceKeys
  import opened WideWords

  function WideOr(x: bv64, y: bv64): bv64 {
    x | y
  }

  lemma WidenOr(x: bv32, y: bv32)
    ensures WideOr(Widen(x), Widen(y)) == Widen(Or(x, y))
  {
  }

  /** A widened word is below 2^32. */
  lemma WidenFits(x: bv32)
    ensures Widen(x) <= 0xffff_ffff
  {
  }

  // ----- the tables -----

  function WideHalf(x: bv64): bv64 {
    x >> 1
  }

  function WidePlace(res: bv64, x: bv64, bit: bv64): bv64 {
    if x & 1 == 1 then WideOr(res, bit) else res
  }

  /** The loop of the bit permutation on wide words. */
  function WideScatter(table: seq<bv32>, res: bv64, x: bv64, i: nat): bv64
    requires i <= |table|
    decreases |table| - i
  {
    if i == |table| then res
    else WideScatter(table, WidePlace(res, x, Widen(table[i])), WideHalf(x), i + 1)
  }

  function WidePerm32(x: bv64): bv64 {
    WideScatter(PBOX, 0, x, 0)
  }

  lemma HalfIdentity(x: bv32)
    ensures WideHalf(x as bv64) == (x >> 1) as bv64
  {
  }

  lemma OddIdentity(x: bv32)
    ensures x as bv64 & 1 == 1 <==> x & 1 == 1
  {
  }

  lemma WidenHalf(x: bv32, h: bv32)
    requires h == x >> 1
    ensures WideHalf(Widen(x)) == Widen(h)
  {
    HalfIdentity(x);
  }

  lemma WidenOdd(x: bv32)
    ensures Widen(x) & 1 == 1 <==> x & 1 == 1
  {
    OddIdentity(x);
  }

  lemma PlaceIsOr(res: bv32, x: bv32, bit: bv32)
    ensures Place(res, x, bit) == if x & 1 == 1 then Or(res, bit) else res
  {
  }

  lemma WidenPlace(res: bv32, x: bv32, bit: bv32)
    ensures WidePlace(Widen(res), Widen(x), Widen(bit)) == Widen(Place(res, x, bit))
  {
    PlaceIsOr(res, x, bit);
    WidenOdd(x);
    WidenOr(res, bit);
  }

  lemma {:induction false} WidenScatter(table: seq<bv32>, res: bv32, x: bv32, i: nat)
    requires i <= |table|
    ensures WideScatter(table, Widen(res), Widen(x), i) == Widen(Scatter(table, res, x, i))
    decreases |table| - i
  {
    if i < |table| {
      WidenPlace(res, x, table[i]);
      WidenHalf(x, x >> 1);
      WidenScatter(table, Place(res, x, table[i]), x >> 1, i + 1);
    }
  }

  lemma WidenZero()
    ensures Widen(0) == 0
  {
  }

  lemma WidenPerm32(x: bv32)
    ensures WidePerm32(Widen(x)) == Widen(Perm32(x))
  {
    WidenZero();
    WidenScatter(PBOX, 0, x, 0);
  }

  function WideLane(k: nat, x: bv64): bv64 {
    match k
    case 0 => x << 24
    case 1 => x << 16
    case 2 => x << 8
    case _ => x
  }

  lemma LaneIdentity(x: bv32, k: nat)
    requires x < 256
    ensures WideLane(k, x as bv64) == Lane(k, x) as bv64
  {
  }

  lemma WidenLane(k: nat, x: bv32)
    requires x < 256
    ensures WideLane(k, Widen(x)) == Widen(Lane(k, x))
  {
    LaneIdentity(x, k);
  }

  /** Entry g of table k, computed with wide words from the S-box byte. */
  function WideEntry(k: nat, g: bv10): bv64
    requires k < 4
  {
    WidePerm32(WideLane(k, Widen(SBox(k, g))))
  }

  /** The wide tables hold the entries of the narrow ones. */
  lemma WidenEntry(k: nat, g: bv10)
    requires k < 4
    ensures WideEntry(k, g) == Widen(TableEntry(k, g))
  {
    SBoxes.SBoxPermutes(k, Row(g), Column(g));
    WidenLane(k, SBox(k, g));
    WidenPerm32(Lane(k, SBox(k, g)));
  }

  // ----- the round function -----

  lemma WideExpandFits(p: bv64)
    ensures WideLeft(p) < 0x10_0000 && WideRight(p) < 0x10_0000
  {
  }

  lemma WideSwapFits(own: bv64, tl: bv64, tr: bv64, salt: bv64)
    requires own < 0x10_0000 && tl < 0x10_0000 && tr < 0x10_0000
    ensures WideSwap(own, tl, tr, salt) < 0x10_0000
  {
  }

  lemma WideXorFits(x: bv64, y: bv64)
    requires x < 0x10_0000 && y < 0x10_0000
    ensures WideXor(x, y) < 0x10_0000
  {
  }

  lemma WidenSmall(x: bv32)
    requires x < 0x10_0000
    ensures Widen(x) < 0x10_0000
  {
  }

  /** Whatever 64-bit word comes in, the table indices are below 1024. */
  lemma WideHalvesFit(p: bv64, sk: Subkey)
    ensures WideHalves(p, sk).0 < 0x10_0000 && WideHalves(p, sk).1 < 0x10_0000
  {
    var tl, tr, salt := WideLeft(p), WideRight(p), Widen(sk.salt);
    WideExpandFits(p);
    WideSwapFits(tl, tl, tr, salt); WideSwapFits(tr, tl, tr, salt);
    WidenSmall(sk.left); WidenSmall(sk.right);
    WideXorFits(WideSwap(tl, tl, tr, salt), Widen(sk.left));
    WideXorFits(WideSwap(tr, tl, tr, salt), Widen(sk.right));
  }

  lemma WideIndexFits(a: bv64)
    requires a < 0x10_0000
    ensures a >> 10 < 1024
  {
  }

  function WideHigh(a: bv64): bv10
    requires a < 0x10_0000
  {
    WideIndexFits(a);
    (a >> 10) as bv10
  }

  function WideLow(a: bv64): bv10 {
    (a & 0x3ff) as bv10
  }

  lemma HighIdentity(a: bv32)
    requires a < 0x10_0000
    ensures ((a as bv64 >> 10) & 0x3ff) as bv10 == ((a >> 10) & 0x3ff) as bv10 && a as bv64 < 0x10_0000
    ensures a as bv64 >> 10 == (a as bv64 >> 10) & 0x3ff
  {
  }

  lemma LowIdentity(a: bv32)
    ensures (a as bv64 & 0x3ff) as bv10 == (a & 0x3ff) as bv10
  {
  }

  lemma WidenHigh(a: bv32)
    requires a < 0x10_0000
    ensures Widen(a) < 0x10_0000 && WideHigh(Widen(a)) == High(a)
  {
    HighIdentity(a);
  }

  lemma WidenLow(a: bv32)
    ensures WideLow(Widen(a)) == Low(a)
  {
    LowIdentity(a);
  }

  function WideLookups(g0: bv10, g1: bv10, g2: bv10, g3: bv10): bv64 {
    WideOr(WideOr(WideOr(WideEntry(0, g0), WideEntry(1, g1)), WideEntry(2, g2)), WideEntry(3, g3))
  }

  /** The round function on wide words: expansion, salt swap, key addition and four table look-ups. */
  function WideF(p: bv64, sk: Subkey): bv64 {
    var (al, ar) := WideHalves(p, sk);
    WideHalvesFit(p, sk);
    WideLookups(WideHigh(al), WideLow(al), WideHigh(ar), WideLow(ar))
  }

  lemma WidenOrs(x0: bv32, x1: bv32, x2: bv32, x3: bv32)
    ensures WideOr(WideOr(WideOr(Widen(x0), Widen(x1)), Widen(x2)), Widen(x3)) == Widen(Or(Or(Or(x0, x1), x2), x3))
  {
    WidenOr(x0, x1);
    WidenOr(Or(x0, x1), x2);
    WidenOr(Or(Or(x0, x1), x2), x3);
  }

  lemma WidenLookups(al: bv32, ar: bv32)
    ensures WideLookups(High(al), Low(al), High(ar), Low(ar)) == Widen(Substitute((al, ar)))
  {
    hide WideEntry, TableEntry, SBox, High, Low, Perm32;
    var g0, g1, g2, g3 := High(al), Low(al), High(ar), Low(ar);
    WidenEntry(0, g0); WidenEntry(1, g1); WidenEntry(2, g2); WidenEntry(3, g3);
    WidenOrs(TableEntry(0, g0), TableEntry(1, g1), TableEntry(2, g2), TableEntry(3, g3));
    EntriesSubstitute(al, ar);
  }

  lemma EntriesSubstitute(al: bv32, ar: bv32)
    ensures Or(Or(Or(TableEntry(0, High(al)), TableEntry(1, Low(al))), TableEntry(2, High(ar))), TableEntry(3, Low(ar)))
         == Substitute((al, ar))
  {
    var g0, g1, g2, g3 := High(al), Low(al), High(ar), Low(ar);
    CombineBy(SBox(0, g0), SBox(1, g1), SBox(2, g2), SBox(3, g3),
              TableEntry(0, g0), TableEntry(1, g1), TableEntry(2, g2), TableEntry(3, g3));
  }

  lemma WidenIndices(al: bv32, ar: bv32, wl: bv64, wr: bv64)
    requires al < 0x10_0000 && ar < 0x10_0000 && wl == Widen(al) && wr == Widen(ar)
    ensures wl < 0x10_0000 && wr < 0x10_0000
    ensures WideLookups(WideHigh(wl), WideLow(wl), WideHigh(wr), WideLow(wr)) == Widen(Substitute((al, ar)))
  {
    WidenHigh(al); WidenLow(al); WidenHigh(ar); WidenLow(ar);
    WidenLookups(al, ar);
  }

  /** The round function of the cipher is the same on wide words. */
  lemma WidenF(p: bv32, sk: Subkey)
    ensures WideF(Widen(p), sk) == Widen(F(p, sk))
  {
    hide WideLookups, Substitute, KeyHalves, Keyed, WideHalves;
    HalvesAreKeyed(p, sk);
    KeyedFits(p, sk);
    WidenHalves(p, sk);
    WidenIndices(Keyed(p, sk).0, Keyed(p, sk).1, WideHalves(Widen(p), sk).0, WideHalves(Widen(p), sk).1);
  }

  // ----- the key schedule -----

  function WidePush(x: bv64, bit: bv64): bv64 {
    WideOr(x << 1, bit)
  }

  lemma DoubleIdentity(x: bv32)
    requires x < 0x10_0000
    ensures x as bv64 << 1 == (x << 1) as bv64
  {
  }

  lemma WidenDouble(x: bv32, d: bv32)
    requires x < 0x10_0000 && d == x << 1
    ensures Widen(x) << 1 == Widen(d)
  {
    DoubleIdentity(x);
  }

  lemma WidenPush(x: bv32, bit: bv32)
    requires x < 0x10_0000
    ensures WidePush(Widen(x), Widen(bit)) == Widen(Push(x, bit))
  {
    WidenDouble(x, x << 1);
    WidenOr(x << 1, bit);
  }

  /** One pass over the registers on a wide subkey word. */
  function WidePushTurns(c: Chunk, kr: nat, t: nat, x: bv64, k: nat): bv64 {
    if k == 0 then x else WidePush(WidePushTurns(c, kr, t, x, k - 1), Widen(Given(c[Source(kr, k - 1)], t)))
  }

  function WideCollected(c: Chunk, kr: nat, t: nat, v: nat, u: nat): bv64 {
    if u == 0 then 0 else WidePushTurns(c, kr, t + 3 * (u - 1) + v, WideCollected(c, kr, t, v, u - 1), |c|)
  }

  lemma ReceivedFits(c: Chunk, kr: nat, t: nat, v: nat, n: nat, x: bv32)
    requires n <= 20 && Bits(x) == Received(c, kr, t, v, n)
    ensures x < 0x10_0000
  {
    BelowTwenty(x);
  }

  lemma {:induction false} WidenPushTurns(c: Chunk, kr: nat, t: nat, v: nat, u: nat, now: nat, x: bv32, k: nat, n: nat)
    requires k <= 4 && u < 5 && now == t + 3 * u + v && n == 4 * u + k && Bits(x) == Received(c, kr, t, v, 4 * u)
    ensures WidePushTurns(c, kr, now, Widen(x), k) == Widen(PushTurns(c, kr, now, x, k))
    decreases k
  {
    if k > 0 {
      var y := PushTurns(c, kr, now, x, k - 1);
      WidenPushTurns(c, kr, t, v, u, now, x, k - 1, n - 1);
      PassIsReceived(c, kr, t, v, u, now, x, k - 1, n - 1);
      ReceivedFits(c, kr, t, v, n - 1, y);
      WidenPush(y, Given(c[Source(kr, k - 1)], now));
    }
  }

  lemma {:induction false} WidenCollected(c: Chunk, kr: nat, t: nat, v: nat, u: nat)
    requires u <= 5
    ensures WideCollected(c, kr, t, v, u) == Widen(Collected(c, kr, t, v, u))
  {
    if u == 0 {
      WidenZero();
    } else {
      var w, now := u - 1, t + 3 * (u - 1) + v;
      WidenCollected(c, kr, t, v, w);
      CollectedIsReceived(c, kr, t, v, w, 4 * w);
      WidenPushTurns(c, kr, t, v, w, now, Collected(c, kr, t, v, w), |c|, 4 * w + 4);
    }
  }

  /** The subkey words shifted together in wide words are the narrow ones: nothing is shifted past bit 19. */
  lemma WidenWord(c: Chunk, kr: nat, t: nat, v: nat)
    ensures WideCollected(c, kr, t, v, WORD_PASSES) == Widen(Word(c, kr, t, v))
  {
    WidenCollected(c, kr, t, v, WORD_PASSES);
  }

  // ----- the bytes -----

  function WideJoin(b0: bv8, b1: bv8, b2: bv8, b3: bv8): bv64 {
    (b0 as bv64 << 24) | (b1 as bv64 << 16) | (b2 as bv64 << 8) | b3 as bv64
  }

  lemma WidenJoin(b0: bv8, b1: bv8, b2: bv8, b3: bv8)
    ensures WideJoin(b0, b1, b2, b3) == Widen(Join(b0, b1, b2, b3))
  {
  }

  function WideLowByte(w: bv64): bv8 {
    (w & 0xff) as bv8
  }

  function WideNextByte(w: bv64): bv64 {
    w >> 8
  }

  function WideShifted(w: bv64, i: nat): bv64 {
    if i == 0 then w else WideNextByte(WideShifted(w, i - 1))
  }

  lemma LowByteIdentity(w: bv32)
    ensures WideLowByte(w as bv64) == LowByte(w)
  {
  }

  lemma NextByteIdentity(w: bv32)
    ensures WideNextByte(w as bv64) == NextByte(w) as bv64
  {
  }

  lemma WidenLowByte(w: bv32)
    ensures WideLowByte(Widen(w)) == LowByte(w)
  {
    LowByteIdentity(w);
  }

  lemma WidenNextByte(w: bv32)
    ensures WideNextByte(Widen(w)) == Widen(NextByte(w))
  {
    NextByteIdentity(w);
  }

  lemma {:induction false} WidenShifted(w: bv32, i: nat)
    ensures WideShifted(Widen(w), i) == Widen(Shifted(w, i))
  {
    if i > 0 {
      WidenShifted(w, i - 1);
      WidenNextByte(Shifted(w, i - 1));
    }
  }

  /** The four bytes shifted out of a wide word, last first. */
  function WideBytes(w: bv64): (b: seq<bv8>)
    ensures |b| == 4
  {
    seq(4, i requires 0 <= i < 4 => WideLowByte(WideShifted(w, 3 - i)))
  }

  lemma WidenBytes(w: bv32)
    ensures WideBytes(Widen(w)) == Bytes(w)
  {
    BytesShiftOut(w);
    forall i | 0 <= i < 4
      ensures WideBytes(Widen(w))[i] == Bytes(w)[i]
    {
      WidenShifted(w, 3 - i);
      WidenLowByte(Shifted(w, 3 - i));
      assert Bytes(w)[3 - (3 - i)] == LowByte(Shifted(w, 3 - i));
    }
  }

  // ----- blocks -----

  function WideWordAt(b: seq<bv8>, i: nat): bv64
    requires i + 4 <= |b|
  {
    WideJoin(b[i], b[i + 1], b[i + 2], b[i + 3])
  }

  /** A block encrypted on wide words with the schedule ks, or decrypted with it reversed. */
  function WideCryptBlock(b: seq<bv8>, ks: seq<Subkey>): (c: seq<bv8>)
    requires |b| == 8
    ensures |c| == 8
  {
    var (l, r) := WideRounds(WideF, WideWordAt(b, 0), WideWordAt(b, 4), ks);
    WideBytes(r) + WideBytes(l)
  }

  lemma WidenWordAt(b: seq<bv8>, i: nat)
    requires i + 4 <= |b|
    ensures WideWordAt(b, i) == Widen(WordAt(b, i))
  {
    WidenJoin(b[i], b[i + 1], b[i + 2], b[i + 3]);
  }

  /** With 64-bit words the rounds of the cipher, as many as there are, keep both halves below 2^32 and equal to the
      32-bit halves. */
  lemma WidenRounds(l: bv32, r: bv32, ks: seq<Subkey>)
    requires |ks| % 2 == 0
    ensures WideRounds(WideF, Widen(l), Widen(r), ks)
         == (Widen(Rounds(IceRound, l, r, ks).0), Widen(Rounds(IceRound, l, r, ks).1))
    ensures WideRounds(WideF, Widen(l), Widen(r), ks).0 <= 0xffff_ffff
    ensures WideRounds(WideF, Widen(l), Widen(r), ks).1 <= 0xffff_ffff
  {
    forall p: bv32, sk: Subkey
      ensures WideF(Widen(p), sk) == Widen(IceRound(p, sk))
    {
      WidenF(p, sk);
    }
    WidthDoesNotMatter(IceRound, WideF, l, r, ks);
    WidenFits(Rounds(IceRound, l, r, ks).0); WidenFits(Rounds(IceRound, l, r, ks).1);
  }

  /** With 64-bit words every block and every schedule of even length give the same bytes. */
  lemma WideBlocksAreTheSame(b: seq<bv8>, ks: seq<Subkey>)
    requires |b| == 8 && |ks| % 2 == 0
    ensures WideCryptBlock(b, ks) == CryptBlock(IceRound, b, ks)
  {
    var l, r := WordAt(b, 0), WordAt(b, 4);
    WidenWordAt(b, 0); WidenWordAt(b, 4);
    WidenRounds(l, r, ks);
    WidenBytes(Rounds(IceRound, l, r, ks).0); WidenBytes(Rounds(IceRound, l, r, ks).1);
  }
}
