/** From key bytes to subkeys: which chunk and which rotation each round uses, and what a schedule reveals. */
module KeyMaterial {
  import opened Words
  import opened BytesInWords
  import opened Gf2Polynomials
  import opened KeySchedule
  import opened RoundFunction

  /** The key rotation schedule. */
  const KEYROT: seq<nat> := [0, 1, 2, 3, 2, 1, 3, 0] + [1, 3, 2, 0, 3, 1, 0, 2]

  /** Subkey i of the sixteen that one chunk of the key makes. */
  function RoundKey(c: Chunk, i: nat): Subkey
    requires i < 16
  {
    WordFits(c, KEYROT[i], 15 * i, 0); WordFits(c, KEYROT[i], 15 * i, 1); WordFits(c, KEYROT[i], 15 * i, 2);
    SubkeyWords(Word(c, KEYROT[i], 15 * i, 0), Word(c, KEYROT[i], 15 * i, 1), Word(c, KEYROT[i], 15 * i, 2))
  }

  function KeyWord(sk: SubkeyWords, v: nat): bv32
    requires v < 3
  {
    if v == 0 then sk.left else if v == 1 then sk.right else sk.salt
  }

  lemma RoundKeyWord(c: Chunk, i: nat, v: nat)
    requires i < 16 && v < 3
    ensures KeyWord(RoundKey(c, i), v) == Word(c, KEYROT[i], 15 * i, v)
  {
  }

  // ----- what one key bit does -----

  /** Two chunks that differ in bit b of register m and nowhere else. */
  ghost predicate DifferAt(c: Chunk, d: Chunk, m: nat, b: nat) {
    && m < 4 && b < 16
    && (forall m' | 0 <= m' < 4 && m' != m :: c[m'] == d[m'])
    && (forall j | 0 <= j < 16 :: (j in Reg(c[m])) != (j in Reg(d[m])) <==> j == b)
  }

  /** Which bit of the three words of round i a key bit of register m reaches, if j is the pass that reads it. */
  predicate Reaches(i: nat, m: nat, j: nat, v: nat, q: nat)
    requires i < 16
  {
    j < 15 && v == j % 3 && q == 19 - (4 * (j / 3) + Turn(KEYROT[i], m))
  }

  lemma StreamDiffers(c: Chunk, d: Chunk, m: nat, b: nat, m': nat, t: nat)
    requires DifferAt(c, d, m, b) && m' < 4
    ensures Stream(Reg(c[m']), t) != Stream(Reg(d[m']), t) <==> m' == m && t % 16 == b
  {
    assert t % 16 in Reg(c[m']) <==> t % 16 in Reg(c[m']);
  }

  lemma SourceTurn(kr: nat, k: nat, m: nat)
    requires k < 4 && m < 4
    ensures Source(kr, k) == m <==> k == Turn(kr, m)
  {
  }

  lemma SubkeyBitDiffers(c: Chunk, d: Chunk, m: nat, b: nat, kr: nat, t: nat, v: nat, p: nat)
    requires DifferAt(c, d, m, b)
    ensures SubkeyBit(c, kr, t, v, p) != SubkeyBit(d, kr, t, v, p)
       <==> p % 4 == Turn(kr, m) && (t + 3 * (p / 4) + v) % 16 == b
  {
    StreamDiffers(c, d, m, b, Source(kr, p % 4), t + 3 * (p / 4) + v);
    SourceTurn(kr, p % 4, m);
  }

  lemma WordDiffers(c: Chunk, d: Chunk, m: nat, b: nat, kr: nat, t: nat, v: nat, q: nat)
    requires DifferAt(c, d, m, b)
    ensures (q in Bits(Word(c, kr, t, v))) != (q in Bits(Word(d, kr, t, v)))
       <==> q < 20 && (19 - q) % 4 == Turn(kr, m) && (t + 3 * ((19 - q) / 4) + v) % 16 == b
  {
    WordReceived(c, kr, t, v, q); WordReceived(d, kr, t, v, q);
    if q < 20 {
      SubkeyBitDiffers(c, d, m, b, kr, t, v, 19 - q);
    }
  }

  /** The pass of round i that reads bit b. */
  lemma PassOfBit(b: nat, i: nat, j: nat)
    requires b < 16 && i < 16 && j < 15
    ensures (15 * i + j) % 16 == b <==> j == (b + i) % 16
  {
  }

  lemma PassReaches(i: nat, m: nat, b: nat, v: nat, q: nat)
    requires i < 16 && m < 4 && b < 16 && v < 3
    ensures q < 20 && (19 - q) % 4 == Turn(KEYROT[i], m) && (15 * i + 3 * ((19 - q) / 4) + v) % 16 == b
       <==> Reaches(i, m, (b + i) % 16, v, q)
  {
    if q < 20 {
      var u, k := (19 - q) / 4, (19 - q) % 4;
      PassOfBit(b, i, 3 * u + v);
      Places(u, v, k, (b + i) % 16, Turn(KEYROT[i], m));
    }
  }

  lemma Places(u: nat, v: nat, k: nat, j: nat, turn: nat)
    requires u < 5 && v < 3 && k < 4 && turn < 4
    ensures k == turn && 3 * u + v == j <==> j < 15 && v == j % 3 && 4 * u + k == 4 * (j / 3) + turn
  {
  }

  /** Flipping bit b of register m flips exactly one bit of subkey i, at a place that depends only on i, m and b,
      except in round 15 - b, where it flips none: every key bit feeds exactly fifteen of the sixteen subkeys. */
  lemma OneKeyBit(c: Chunk, d: Chunk, m: nat, b: nat, i: nat, v: nat, q: nat)
    requires DifferAt(c, d, m, b) && i < 16 && v < 3
    ensures (q in Bits(KeyWord(RoundKey(c, i), v))) != (q in Bits(KeyWord(RoundKey(d, i), v)))
       <==> Reaches(i, m, (b + i) % 16, v, q)
    ensures (b + i) % 16 < 15 <==> i != 15 - b
  {
    RoundKeyWord(c, i, v); RoundKeyWord(d, i, v);
    WordDiffers(c, d, m, b, KEYROT[i], 15 * i, v, q);
    PassReaches(i, m, b, v, q);
  }

  // ----- a schedule determines its key -----

  lemma TurnSource(kr: nat, m: nat)
    requires m < 4
    ensures (kr + Turn(kr, m)) % 4 == m && Turn(kr, m) < 4
  {
  }

  lemma SameWordReveals(c: Chunk, d: Chunk, kr: nat, t: nat, j: nat, m: nat, b: nat)
    requires j < 15 && m < 4 && b == (t + j) % 16 && Word(c, kr, t, j % 3) == Word(d, kr, t, j % 3)
    ensures b in Reg(c[m]) <==> b in Reg(d[m])
  {
    TurnSource(kr, m);
    ClosedForm(c, kr, t, j, Turn(kr, m)); ClosedForm(d, kr, t, j, Turn(kr, m));
  }

  /** Every round but 15 - b shows bit b of each register, up to an inversion that depends on the round alone. */
  lemma SubkeyReveals(c: Chunk, d: Chunk, i: nat, m: nat, b: nat)
    requires i < 16 && m < 4 && b < 16 && i != 15 - b && RoundKey(c, i) == RoundKey(d, i)
    ensures b in Reg(c[m]) <==> b in Reg(d[m])
  {
    var j := (b + i) % 16;
    PassOfBit(b, i, j);
    RoundKeyWord(c, i, j % 3); RoundKeyWord(d, i, j % 3);
    SameWordReveals(c, d, KEYROT[i], 15 * i, j, m, b);
  }

  /** Any two of the sixteen subkeys of a chunk determine the chunk. */
  lemma TwoSubkeysDetermineChunk(c: Chunk, d: Chunk, i: nat, i': nat)
    requires i < 16 && i' < 16 && i != i'
    requires RoundKey(c, i) == RoundKey(d, i) && RoundKey(c, i') == RoundKey(d, i')
    ensures c == d
  {
    forall m | 0 <= m < 4
      ensures c[m] == d[m]
    {
      forall b | 0 <= b < 16
        ensures b in Reg(c[m]) <==> b in Reg(d[m])
      {
        SubkeyReveals(c, d, if i != 15 - b then i else i', m, b);
      }
      SameReg(c[m], d[m]);
    }
  }

  // ----- key bytes -----

  function Pair(hi: bv8, lo: bv8): bv16 {
    (hi as bv16 << 8) | lo as bv16
  }

  lemma PairInjective(a: bv8, b: bv8, c: bv8, d: bv8)
    requires Pair(a, b) == Pair(c, d)
    ensures a == c && b == d
  {
  }

  /** The registers chunk i of a key starts with: its four big-endian pairs, last first. */
  function ChunkOf(key: seq<bv8>, i: nat): Chunk
    requires 8 * i + 8 <= |key|
  {
    [Pair(key[8 * i + 6], key[8 * i + 7]), Pair(key[8 * i + 4], key[8 * i + 5]),
     Pair(key[8 * i + 2], key[8 * i + 3]), Pair(key[8 * i], key[8 * i + 1])]
  }

  function Widened(x: bv8): bv32 {
    x as bv32
  }

  /** The positions of the set bits of a byte. */
  function OfByte(x: bv8): Poly {
    Bits(Widened(x))
  }

  lemma PairIdentity(hi: bv8, lo: bv8)
    ensures Widened(hi) == (Pair(hi, lo) as bv32) >> 8 && Widened(lo) == (Pair(hi, lo) as bv32) & 0xff
  {
  }

  lemma PartBits(w: bv32, h: bv32, l: bv32, b: nat)
    requires h == w >> 8 && l == w & 0xff
    ensures b in Bits(w) <==> if b < 8 then b in Bits(l) else b - 8 in Bits(h)
  {
    if b < 8 {
      LowBits(w, l, b);
    } else {
      DownBits(w, h, b - 8);
    }
  }

  /** A pair of bytes is big-endian: its low eight bits are the second byte, its high eight the first. */
  lemma PairBits(hi: bv8, lo: bv8, b: nat)
    ensures b in Reg(Pair(hi, lo)) <==> if b < 8 then b in OfByte(lo) else b - 8 in OfByte(hi)
  {
    hide Bits, Pair, Widened;
    PairIdentity(hi, lo);
    PartBits(Pair(hi, lo) as bv32, Widened(hi), Widened(lo), b);
  }

  /** The byte of the key that bit b of register m of chunk n comes from: register 3 takes the first two bytes of the
      chunk, register 0 the last two. */
  function ByteAt(n: nat, m: nat, b: nat): nat
    requires m < 4 && b < 16
  {
    8 * n + 7 - 2 * m - b / 8
  }

  lemma ChunkPair(key: seq<bv8>, n: nat, m: nat)
    requires 8 * n + 8 <= |key| && m < 4
    ensures ChunkOf(key, n)[m] == Pair(key[8 * n + 6 - 2 * m], key[8 * n + 7 - 2 * m])
  {
    hide Pair;
  }

  lemma ByteOfBit(b: nat)
    requires b < 16
    ensures b < 8 ==> b / 8 == 0 && b % 8 == b
    ensures b >= 8 ==> b / 8 == 1 && b % 8 == b - 8
  {
  }

  lemma ChunkBits(key: seq<bv8>, n: nat, m: nat, b: nat)
    requires 8 * n + 8 <= |key| && m < 4 && b < 16
    ensures ByteAt(n, m, b) < |key|
    ensures b in Reg(ChunkOf(key, n)[m]) <==> b % 8 in OfByte(key[ByteAt(n, m, b)])
  {
    hide Bits, Pair, ChunkOf, Reg, OfByte;
    ChunkPair(key, n, m);
    PairBits(key[8 * n + 6 - 2 * m], key[8 * n + 7 - 2 * m], b);
    ByteOfBit(b);
  }

  lemma RoundKeyBit(c: Chunk, i: nat, j: nat, k: nat, kr: nat, t: nat)
    requires i < 16 && j < 15 && k < 4 && kr == KEYROT[i] && t == 15 * i
    ensures 19 - (4 * (j / 3) + k) in Bits(KeyWord(RoundKey(c, i), j % 3))
       <==> ((t + j) % 16 in Reg(c[(kr + k) % 4])) != ((t + j) / 16 % 2 == 1)
  {
    RoundKeyWord(c, i, j % 3);
    ClosedForm(c, kr, t, j, k);
  }

  /** The whole way from key bytes to subkeys: bit 19 - (4 * (j / 3) + k) of word j % 3 of round r is one named bit of
      one named byte of the key, inverted exactly when (15 * i + j) / 16 is odd, i being which of its chunk's subkeys
      the round is. */
  lemma ScheduleBit(ks: seq<Subkey>, level: int, key: seq<bv8>, r: nat, n: nat, i: nat, j: nat, k: nat, m: nat, b: nat)
    requires |key| == 8 * SizeOf(level) && IsSchedule(ks, level, key)
    requires r < |ks| && (n, i) == Owner(level, r) && j < 15 && k < 4 && i < 16
    requires m == (KEYROT[i] + k) % 4 && b == (15 * i + j) % 16
    ensures ByteAt(n, m, b) < |key|
    ensures 19 - (4 * (j / 3) + k) in Bits(KeyWord(ks[r], j % 3))
       <==> (b % 8 in OfByte(key[ByteAt(n, m, b)])) != ((15 * i + j) / 16 % 2 == 1)
  {
    hide Bits, Reg, OfByte, ByteAt, ChunkOf, Owner, KeyWord;
    OwnerInRange(level, r);
    assert IsRow(ks[r], level, key, r);
    RoundKeyBit(ChunkOf(key, n), i, j, k, KEYROT[i], 15 * i);
    ChunkBits(key, n, m, b);
  }

  /** The rotations, by round. */
  lemma Rotations()
    ensures KEYROT[0] == 0 && KEYROT[1] == 1 && KEYROT[2] == 2 && KEYROT[3] == 3
    ensures KEYROT[4] == 2 && KEYROT[5] == 1 && KEYROT[6] == 3 && KEYROT[7] == 0
    ensures KEYROT[8] == 1 && KEYROT[9] == 3 && KEYROT[10] == 2 && KEYROT[11] == 0
    ensures KEYROT[12] == 3 && KEYROT[13] == 1 && KEYROT[14] == 0 && KEYROT[15] == 2
  {
  }

  lemma ChunkDeterminesBytes(key: seq<bv8>, key': seq<bv8>, i: nat)
    requires 8 * i + 8 <= |key| && 8 * i + 8 <= |key'| && ChunkOf(key, i) == ChunkOf(key', i)
    ensures key[8 * i..8 * i + 8] == key'[8 * i..8 * i + 8]
  {
    var c, d := ChunkOf(key, i), ChunkOf(key', i);
    assert c[0] == d[0] && c[1] == d[1] && c[2] == d[2] && c[3] == d[3];
    PairInjective(key[8 * i], key[8 * i + 1], key'[8 * i], key'[8 * i + 1]);
    PairInjective(key[8 * i + 2], key[8 * i + 3], key'[8 * i + 2], key'[8 * i + 3]);
    PairInjective(key[8 * i + 4], key[8 * i + 5], key'[8 * i + 4], key'[8 * i + 5]);
    PairInjective(key[8 * i + 6], key[8 * i + 7], key'[8 * i + 6], key'[8 * i + 7]);
  }

  // ----- levels -----

  /** Key size, in chunks of eight bytes, and rounds, for each level. */
  function SizeOf(level: int): nat {
    if level < 1 then 1 else level
  }

  function RoundsOf(level: int): nat {
    if level < 1 then 8 else 16 * level
  }

  /** The chunk that round r is built from, and which of its sixteen subkeys it is: the first half of the rounds
      take the chunks in order, eight rounds each; the second half takes them backwards. */
  function Owner(level: int, r: nat): (nat, nat)
    requires r < RoundsOf(level)
  {
    var mirror := RoundsOf(level) - 1 - r;
    if level < 1 || r < 8 * level then (r / 8, r % 8) else (mirror / 8, 15 - mirror % 8)
  }

  lemma OwnerInRange(level: int, r: nat)
    requires r < RoundsOf(level)
    ensures Owner(level, r).0 < SizeOf(level) && Owner(level, r).1 < 16
  {
  }

  /** The ranges set writes cover every round exactly once: round r is subkey i of chunk n in one way only. */
  lemma EveryRoundOnce(level: int, r: nat, n: nat, i: nat)
    requires r < RoundsOf(level) && n < SizeOf(level) && i < 8
    ensures r == 8 * n + i <==> Owner(level, r) == (n, i)
    ensures level >= 1 ==> (r == RoundsOf(level) - 8 - 8 * n + i <==> Owner(level, r) == (n, 8 + i))
  {
  }

  /** ks is the schedule that set builds from a key. */
  ghost predicate IsSchedule(ks: seq<Subkey>, level: int, key: seq<bv8>)
    requires |key| == 8 * SizeOf(level)
  {
    && |ks| == RoundsOf(level)
    && forall r | 0 <= r < |ks| :: IsRow(ks[r], level, key, r)
  }

  ghost predicate IsRow(sk: SubkeyWords, level: int, key: seq<bv8>, r: nat)
    requires |key| == 8 * SizeOf(level) && r < RoundsOf(level)
  {
    var (n, i) := Owner(level, r);
    n < SizeOf(level) && i < 16 && sk == RoundKey(ChunkOf(key, n), i)
  }

  /** No key material is lost: at every level, keys with the same schedule are equal. */
  lemma ScheduleDeterminesKey(ks: seq<Subkey>, level: int, key: seq<bv8>, key': seq<bv8>)
    requires |key| == |key'| == 8 * SizeOf(level)
    requires IsSchedule(ks, level, key) && IsSchedule(ks, level, key')
    ensures key == key'
  {
    forall x | 0 <= x < |key|
      ensures key[x] == key'[x]
    {
      ScheduleDeterminesChunk(ks, level, key, key', x / 8);
      SameByte(key, key', x, x / 8);
    }
  }

  lemma SameByte(key: seq<bv8>, key': seq<bv8>, x: nat, n: nat)
    requires n == x / 8 && 8 * n + 8 <= |key| && 8 * n + 8 <= |key'|
    requires key[8 * n..8 * n + 8] == key'[8 * n..8 * n + 8]
    ensures key[x] == key'[x]
  {
    assert key[x] == key[8 * n..8 * n + 8][x - 8 * n];
    assert key'[x] == key'[8 * n..8 * n + 8][x - 8 * n];
  }

  lemma ScheduleDeterminesChunk(ks: seq<Subkey>, level: int, key: seq<bv8>, key': seq<bv8>, n: nat)
    requires |key| == |key'| == 8 * SizeOf(level) && n < SizeOf(level)
    requires IsSchedule(ks, level, key) && IsSchedule(ks, level, key')
    ensures key[8 * n..8 * n + 8] == key'[8 * n..8 * n + 8]
  {
    // Any two of the first eight subkeys do.
    var i: nat, i': nat :| i < i' < 8;
    SubkeysOfChunk(ks, level, key, n, i); SubkeysOfChunk(ks, level, key', n, i);
    SubkeysOfChunk(ks, level, key, n, i'); SubkeysOfChunk(ks, level, key', n, i');
    TwoSubkeysDetermineChunk(ChunkOf(key, n), ChunkOf(key', n), i, i');
    ChunkDeterminesBytes(key, key', n);
  }

  lemma SubkeysOfChunk(ks: seq<Subkey>, level: int, key: seq<bv8>, n: nat, i: nat)
    requires |key| == 8 * SizeOf(level) && n < SizeOf(level) && i < 8 && IsSchedule(ks, level, key)
    ensures 8 * n + i < |ks| && ks[8 * n + i] == RoundKey(ChunkOf(key, n), i)
  {
    EveryRoundOnce(level, 8 * n + i, n, i);
    assert IsRow(ks[8 * n + i], level, key, 8 * n + i);
  }

  /** A row built in round i of chunk c, given the rotation and the steps that belong to that round. */
  lemma RowIsRoundKey(c: Chunk, i: nat, kr: nat, t: nat, row: (bv32, bv32, bv32), sk: SubkeyWords)
    requires i < 16 && kr == KEYROT[i] && t == 15 * i
    requires row == WordsOf(c, kr, t) && sk == SubkeyWords(row.0, row.1, row.2)
    ensures sk == RoundKey(c, i)
  {
  }

  lemma RowIsFirstHalf(level: int, key: seq<bv8>, n: nat, i: nat, r: nat, sk: SubkeyWords)
    requires |key| == 8 * SizeOf(level) && n < SizeOf(level) && i < 8 && r == 8 * n + i
    requires sk == RoundKey(ChunkOf(key, n), i)
    ensures r < RoundsOf(level) && IsRow(sk, level, key, r)
  {
    EveryRoundOnce(level, r, n, i);
  }

  lemma RowIsSecondHalf(level: int, key: seq<bv8>, n: nat, i: nat, r: nat, sk: SubkeyWords)
    requires |key| == 8 * SizeOf(level) && n < SizeOf(level) && i < 8 && level >= 1
    requires r == RoundsOf(level) - 8 - 8 * n + i && sk == RoundKey(ChunkOf(key, n), 8 + i)
    ensures r < RoundsOf(level) && IsRow(sk, level, key, r)
  {
    EveryRoundOnce(level, r, n, i);
  }

  /** The rounds of one call of the schedule builder on chunk n, and the subkeys of the chunk they are. */
  lemma BuiltRow(level: int, key: seq<bv8>, n: nat, i: nat, second: bool, kr: nat, t: nat, r: nat,
                 row: (bv32, bv32, bv32))
    requires |key| == 8 * SizeOf(level) && n < SizeOf(level) && i < 8 && (second ==> level >= 1)
    requires r == (if second then RoundsOf(level) - 8 - 8 * n else 8 * n) + i
    requires kr == KEYROT[if second then 8 + i else i] && t == (if second then 120 else 0) + 15 * i
    requires row == WordsOf(ChunkOf(key, n), kr, t)
    ensures r < RoundsOf(level) && IsRow(SubkeyWords(row.0, row.1, row.2), level, key, r)
  {
    var c, sk := ChunkOf(key, n), SubkeyWords(row.0, row.1, row.2);
    if second {
      RowIsRoundKey(c, 8 + i, kr, t, row, sk);
      RowIsSecondHalf(level, key, n, i, r, sk);
    } else {
      RowIsRoundKey(c, i, kr, t, row, sk);
      RowIsFirstHalf(level, key, n, i, r, sk);
    }
  }
}
