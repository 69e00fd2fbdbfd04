/** The ICE key schedule: four registers that rotate and invert, and the subkey words they feed. */
module KeySchedule {
  import opened Gf2Polynomials
  import opened Words

  // ----- the registers -----

  /** The positions of the set bits of a 16-bit register. */
  function Reg(w: bv16): Poly {
    Bits(w as bv32)
  }

  /** One step of a register: the low bit leaves and comes back inverted at the top. */
  function Step(w: bv16): bv16 {
    (w >> 1) | (((w & 1) ^ 1) << 15)
  }

  /** The t-th bit a register started at b gives out: its bits over and over, inverted every other time round. */
  predicate Stream(b: Poly, t: nat) {
    (t % 16 in b) != (t / 16 % 2 == 1)
  }

  predicate Gives(b: Poly, t: nat, j: nat) {
    Stream(b, t + j)
  }

  /** What a register started at b holds after t steps. */
  function Later(b: Poly, t: nat): Poly {
    set j | 0 <= j < 16 && Gives(b, t, j)
  }

  lemma RegBelow(w: bv16)
    ensures Below(Reg(w), 16)
  {
    SingleBits();
    BitsBelow(w as bv32, 0x1_0000, 16);
  }

  lemma StepIdentity(w: bv16)
    ensures Step(w) as bv32 == Or((w as bv32) >> 1, if w & 1 == 1 then 0 else 0x8000)
  {
  }

  lemma StepAsWord(w: bv16, h: bv32, top: bv32)
    requires h == (w as bv32) >> 1 && top == if w & 1 == 1 then 0 else 0x8000
    ensures Step(w) as bv32 == Or(h, top)
  {
    StepIdentity(w);
  }

  lemma LowBit(w: bv16)
    ensures w & 1 == 1 <==> 0 in Reg(w)
  {
    BitsZeroth(w as bv32);
  }

  lemma BitsOfTop(top: bv32, inverted: bool)
    requires top == if inverted then 0x8000 else 0
    ensures Bits(top) == if inverted then {15} else {}
  {
    SingleBits();
    if inverted {
      BitsOfBit(top, 15);
    }
  }

  lemma ShiftedBits(x: bv32, h: bv32, top: bv32, j: nat)
    requires h == x >> 1
    ensures j in Bits(Or(h, top)) <==> j + 1 in Bits(x) || j in Bits(top)
  {
    BitsOr(h, top);
    BitsNext(x, j);
  }

  lemma StepMovesBitsBy(w: bv16, x: bv32, h: bv32, top: bv32, s: bv32, j: nat)
    requires x == w as bv32 && h == x >> 1 && top == (if w & 1 == 1 then 0 else 0x8000) && s == Or(h, top)
    requires j < 16
    ensures j in Bits(s) <==> if j < 15 then j + 1 in Reg(w) else 0 !in Reg(w)
  {
    ShiftedBits(x, h, top, j);
    BitsOfTop(top, w & 1 != 1);
    RegBelow(w);
    LowBit(w);
  }

  lemma StepMovesBits(w: bv16, j: nat)
    requires j < 16
    ensures j in Reg(Step(w)) <==> if j < 15 then j + 1 in Reg(w) else 0 !in Reg(w)
  {
    var x := w as bv32;
    var h, top := x >> 1, if w & 1 == 1 then 0 else 0x8000;
    StepAsWord(w, h, top);
    StepMovesBitsBy(w, x, h, top, Or(h, top), j);
  }

  lemma LaterMoves(b: Poly, t: nat, j: nat)
    requires j < 16
    ensures j in Later(b, t + 1) <==> if j < 15 then j + 1 in Later(b, t) else 0 !in Later(b, t)
  {
    assert j in Later(b, t + 1) <==> Stream(b, t + 1 + j);
    if j < 15 {
      assert j + 1 in Later(b, t) <==> Gives(b, t, j + 1);
    } else {
      assert 0 in Later(b, t) <==> Gives(b, t, 0);
      StreamInverts(b, t);
    }
  }

  lemma StreamInverts(b: Poly, t: nat)
    ensures Stream(b, t + 16) == !Stream(b, t)
  {
  }

  lemma StepIsLater(b: Poly, t: nat, w: bv16, v: bv16)
    requires Reg(w) == Later(b, t) && v == Step(w)
    ensures Reg(v) == Later(b, t + 1)
  {
    RegBelow(v);
    forall j: nat
      ensures j in Reg(v) <==> j in Later(b, t + 1)
    {
      if j < 16 {
        StepMovesBits(w, j);
        LaterMoves(b, t, j);
      }
    }
  }

  lemma LaterStarts(w: bv16)
    ensures Reg(w) == Later(Reg(w), 0)
  {
    RegBelow(w);
    forall j: nat
      ensures j in Reg(w) <==> j in Later(Reg(w), 0)
    {
      assert j < 16 ==> (Gives(Reg(w), 0, j) <==> j in Reg(w));
    }
  }

  lemma SameReg(v: bv16, w: bv16)
    requires forall j | 0 <= j < 16 :: j in Reg(v) <==> j in Reg(w)
    ensures v == w
  {
    RegBelow(v); RegBelow(w);
    assert Reg(v) == Reg(w);
    BitsInjective(v as bv32, w as bv32);
  }

  lemma TurnGives(b: Poly, t: nat, turns: nat, j: nat)
    requires t == 16 * turns && j < 16
    ensures j in Later(b, t) <==> (j in b) != (turns % 2 == 1)
  {
    assert (t + j) % 16 == j && (t + j) / 16 == turns;
    assert j in Later(b, t) <==> Gives(b, t, j);
  }

  /** A register comes back complemented after an odd number of turns, and unchanged after an even one. */
  lemma WholeTurns(w0: bv16, w: bv16, v: bv16, t: nat, turns: nat)
    requires t == 16 * turns && Reg(w) == Later(Reg(w0), t)
    requires v == if turns % 2 == 1 then !w0 else w0
    ensures w == v
  {
    forall j | 0 <= j < 16
      ensures j in Reg(v) <==> j in Reg(w)
    {
      TurnGives(Reg(w0), t, turns, j);
      ComplementAt(w0, j);
    }
    SameReg(v, w);
  }

  lemma ComplementAsWord(w: bv16)
    ensures (!w) as bv32 == (w as bv32) ^ 0xffff
  {
  }

  lemma LowWordFull(j: nat)
    requires j < 16
    ensures j in Bits(0xffff)
  {
    assert LowBitsSet(0x3, 2); assert LowBitsSet(0xf, 4); assert LowBitsSet(0x3f, 6); assert LowBitsSet(0xff, 8);
    assert LowBitsSet(0x3ff, 10); assert LowBitsSet(0xfff, 12); assert LowBitsSet(0x3fff, 14);
    LowBitSet(0xffff, 16, j);
  }

  lemma ComplementAt(w: bv16, j: nat)
    requires j < 16
    ensures j in Reg(!w) <==> j !in Reg(w)
  {
    ComplementAsWord(w);
    BitsXor(w as bv32, 0xffff);
    LowWordFull(j);
  }

  // ----- the subkey words -----

  function StepN(w: bv16, t: nat): bv16 {
    if t == 0 then w else Step(StepN(w, t - 1))
  }

  lemma {:induction false} StepNIsLater(w: bv16, t: nat)
    ensures Reg(StepN(w, t)) == Later(Reg(w), t)
  {
    if t == 0 {
      LaterStarts(w);
    } else {
      StepNIsLater(w, t - 1);
      StepIsLater(Reg(w), t - 1, StepN(w, t - 1), StepN(w, t));
    }
  }

  type Chunk = c: seq<bv16> | |c| == 4 witness [0, 0, 0, 0]

  /** The register read in turn k of a round with rotation kr. */
  function Source(kr: nat, k: nat): (m: nat)
    ensures m < 4
  {
    (kr + k) % 4
  }

  /** When register m is read in a round with rotation kr. */
  function Turn(kr: nat, m: nat): nat {
    (m + 4 - kr % 4) % 4
  }

  function LowBitOf(w: bv16): bv32 {
    (w & 1) as bv32
  }

  /** The low bit of a register after t steps. */
  function Given(w: bv16, t: nat): bv32 {
    LowBitOf(StepN(w, t))
  }

  function Push(x: bv32, bit: bv32): bv32 {
    Or(x << 1, bit)
  }

  /** x with the low bits of the registers read in turns before k pushed in, at step t. */
  function PushTurns(c: Chunk, kr: nat, t: nat, x: bv32, k: nat): bv32 {
    if k == 0 then x else Push(PushTurns(c, kr, t, x, k - 1), Given(c[Source(kr, k - 1)], t))
  }

  /** Word v after u of its passes, in a round that starts when each register has made t steps. */
  function Collected(c: Chunk, kr: nat, t: nat, v: nat, u: nat): bv32 {
    if u == 0 then 0 else PushTurns(c, kr, t + 3 * (u - 1) + v, Collected(c, kr, t, v, u - 1), |c|)
  }

  /** The p-th bit shifted into word v: four registers a pass, every third pass. */
  predicate SubkeyBit(c: Chunk, kr: nat, t: nat, v: nat, p: nat) {
    Stream(Reg(c[Source(kr, p % 4)]), t + 3 * (p / 4) + v)
  }

  predicate Placed(c: Chunk, kr: nat, t: nat, v: nat, n: nat, q: nat) {
    q < n && SubkeyBit(c, kr, t, v, n - 1 - q)
  }

  /** The first n bits shifted in, the latest at position 0. */
  function Received(c: Chunk, kr: nat, t: nat, v: nat, n: nat): Poly {
    set q | 0 <= q < n && Placed(c, kr, t, v, n, q)
  }

  lemma DoubledBits(x: bv32, d: bv32, q: nat)
    requires Below(Bits(x), 20) && d == x << 1
    ensures q in Bits(d) <==> q > 0 && q - 1 in Bits(x)
  {
    if x >= 0x8000_0000 {
      TopBitSet(x);
    }
    BitsDoubled(x);
    if q > 0 {
      assert q in Shift(Bits(x), 1) <==> q - 1 in Bits(x);
    }
  }

  lemma BitsOfOneBit(bit: bv32)
    requires bit < 2
    ensures Bits(bit) == if bit == 1 then {0} else {}
  {
    if bit == 1 {
      BitsOfBit(1, 0);
    }
  }

  lemma OrShiftedBits(x: bv32, d: bv32, bit: bv32, q: nat)
    requires Below(Bits(x), 20) && bit < 2 && d == x << 1
    ensures q in Bits(Or(d, bit)) <==> if q == 0 then bit == 1 else q - 1 in Bits(x)
  {
    OrBits(d, bit, q);
    DoubledBits(x, d, q);
    BitsOfOneBit(bit);
  }

  lemma PushBits(x: bv32, bit: bv32, q: nat)
    requires Below(Bits(x), 20) && bit < 2
    ensures q in Bits(Push(x, bit)) <==> if q == 0 then bit == 1 else q - 1 in Bits(x)
  {
    OrShiftedBits(x, x << 1, bit, q);
  }

  lemma ReceivedNext(c: Chunk, kr: nat, t: nat, v: nat, n: nat, q: nat)
    ensures q in Received(c, kr, t, v, n + 1)
       <==> if q == 0 then SubkeyBit(c, kr, t, v, n) else q - 1 in Received(c, kr, t, v, n)
  {
    assert q in Received(c, kr, t, v, n + 1) <==> Placed(c, kr, t, v, n + 1, q);
    if q > 0 {
      assert q - 1 in Received(c, kr, t, v, n) <==> Placed(c, kr, t, v, n, q - 1);
      assert n + 1 - 1 - q == n - 1 - (q - 1);
    }
  }

  lemma Receives(x: bv32, bit: bv32, c: Chunk, kr: nat, t: nat, v: nat, n: nat)
    requires n < 20 && Bits(x) == Received(c, kr, t, v, n)
    requires bit < 2 && (bit == 1 <==> SubkeyBit(c, kr, t, v, n))
    ensures Bits(Push(x, bit)) == Received(c, kr, t, v, n + 1)
  {
    forall q: nat
      ensures q in Bits(Push(x, bit)) <==> q in Received(c, kr, t, v, n + 1)
    {
      PushBits(x, bit, q);
      ReceivedNext(c, kr, t, v, n, q);
    }
  }

  lemma LowBitIsStream(b: Poly, w: bv16, t: nat)
    requires Reg(w) == Later(b, t)
    ensures LowBitOf(w) < 2 && (LowBitOf(w) == 1 <==> Stream(b, t))
  {
    LowBit(w);
    assert 0 in Later(b, t) <==> Gives(b, t, 0);
  }

  lemma GivenIsStream(w: bv16, t: nat)
    ensures Given(w, t) < 2 && (Given(w, t) == 1 <==> Stream(Reg(w), t))
  {
    StepNIsLater(w, t);
    LowBitIsStream(Reg(w), StepN(w, t), t);
  }

  lemma WhichBit(c: Chunk, kr: nat, t: nat, v: nat, u: nat, k: nat, n: nat)
    requires k < 4 && n == 4 * u + k
    ensures SubkeyBit(c, kr, t, v, n) <==> Stream(Reg(c[Source(kr, k)]), t + 3 * u + v)
  {
    assert n % 4 == k && n / 4 == u;
  }

  lemma TurnReceives(c: Chunk, kr: nat, t: nat, v: nat, u: nat, now: nat, x: bv32, k: nat, n: nat)
    requires k < 4 && u < 5 && now == t + 3 * u + v && n == 4 * u + k && Bits(x) == Received(c, kr, t, v, n)
    ensures Bits(Push(x, Given(c[Source(kr, k)], now))) == Received(c, kr, t, v, n + 1)
  {
    GivenIsStream(c[Source(kr, k)], now);
    WhichBit(c, kr, t, v, u, k, n);
    Receives(x, Given(c[Source(kr, k)], now), c, kr, t, v, n);
  }

  lemma {:induction false} PassIsReceived(c: Chunk, kr: nat, t: nat, v: nat, u: nat, now: nat, x: bv32, k: nat, n: nat)
    requires k <= 4 && u < 5 && now == t + 3 * u + v && n == 4 * u + k && Bits(x) == Received(c, kr, t, v, 4 * u)
    ensures Bits(PushTurns(c, kr, now, x, k)) == Received(c, kr, t, v, n)
    decreases k
  {
    if k > 0 {
      PassIsReceived(c, kr, t, v, u, now, x, k - 1, n - 1);
      TurnReceives(c, kr, t, v, u, now, PushTurns(c, kr, now, x, k - 1), k - 1, n - 1);
    }
  }

  lemma {:induction false} CollectedIsReceived(c: Chunk, kr: nat, t: nat, v: nat, u: nat, n: nat)
    requires u <= 5 && n == 4 * u
    ensures Bits(Collected(c, kr, t, v, u)) == Received(c, kr, t, v, n)
  {
    if u > 0 {
      var u', now := u - 1, t + 3 * (u - 1) + v;
      CollectedIsReceived(c, kr, t, v, u', n - 4);
      PassIsReceived(c, kr, t, v, u', now, Collected(c, kr, t, v, u'), |c|, n);
    }
  }

  // ----- the loops -----

  /** The registers read in turns before k of this pass are one step ahead of the others. */
  ghost predicate InPass(c: Chunk, kb: seq<bv16>, t: nat, kr: nat, k: nat) {
    |kb| == 4 && forall m | 0 <= m < 4 :: kb[m] == StepN(c[m], if Turn(kr, m) < k then t + 1 else t)
  }

  lemma TurnOfSource(kr: nat, k: nat)
    requires k < 4
    ensures Turn(kr, Source(kr, k)) == k
    ensures forall m | 0 <= m < 4 && m != Source(kr, k) :: Turn(kr, m) != k
  {
  }

  lemma PassStep(c: Chunk, kb: seq<bv16>, t: nat, kr: nat, k: nat)
    requires k < 4 && InPass(c, kb, t, kr, k)
    ensures kb[Source(kr, k)] == StepN(c[Source(kr, k)], t)
    ensures InPass(c, kb[Source(kr, k) := Step(kb[Source(kr, k)])], t, kr, k + 1)
  {
    TurnOfSource(kr, k);
  }

  lemma PassEnds(c: Chunk, kb: seq<bv16>, t: nat, kr: nat)
    requires InPass(c, kb, t, kr, 4)
    ensures InPass(c, kb, t + 1, kr, 0)
  {
    assert forall m | 0 <= m < 4 :: Turn(kr, m) < 4;
  }

  /** The low bit of a register, which is stepped. */
  method TakeBit(kb: array<bv16>, m: nat) returns (bit: bv32)
    requires m < kb.Length
    modifies kb
    ensures bit == LowBitOf(old(kb[m]))
    ensures kb[..] == old(kb[..])[m := Step(old(kb[m]))]
  {
    bit := (kb[m] & 1) as bv32;
    kb[m] := (kb[m] >> 1) | (((kb[m] & 1) ^ 1) << 15);
  }

  /** A word after a pass that is, or is not, its own. */
  function NextWord(c: Chunk, kr: nat, t: nat, own: bool, x: bv32): bv32 {
    if own then PushTurns(c, kr, t, x, |c|) else x
  }

  /** The innermost loop: the low bit of each register goes into word v of a row. */
  method ShiftIn(kb: array<bv16>, keysched: array2<bv32>, row: nat, v: nat, kr: nat, ghost c: Chunk, ghost t: nat)
    requires kb.Length == 4 && row < keysched.Length0 && keysched.Length1 == 3 && v < 3
    requires InPass(c, kb[..], t, kr, 0)
    modifies kb, keysched
    ensures InPass(c, kb[..], t + 1, kr, 0)
    ensures keysched[row, 0] == NextWord(c, kr, t, 0 == v, old(keysched[row, 0]))
    ensures keysched[row, 1] == NextWord(c, kr, t, 1 == v, old(keysched[row, 1]))
    ensures keysched[row, 2] == NextWord(c, kr, t, 2 == v, old(keysched[row, 2]))
    ensures forall r, w | 0 <= r < keysched.Length0 && 0 <= w < 3 && r != row :: keysched[r, w] == old(keysched[r, w])
  {
    for k := 0 to 4
      invariant InPass(c, kb[..], t, kr, k)
      invariant keysched[row, v] == PushTurns(c, kr, t, old(keysched[row, v]), k)
      invariant forall r, w | 0 <= r < keysched.Length0 && 0 <= w < 3 && !(r == row && w == v) ::
                  keysched[r, w] == old(keysched[r, w])
    {
      PassStep(c, kb[..], t, kr, k);
      var bit := TakeBit(kb, (kr + k) % 4);
      keysched[row, v] := Push(keysched[row, v], bit);
    }
    PassEnds(c, kb[..], t, kr);
  }

  /** The passes of one round: five for each of the three words. */
  const PASSES: nat := 15

  /** How many of the passes before j went into word v. */
  function Passes(j: nat, v: nat): nat
    requires v < 3
  {
    (j + 2 - v) / 3
  }

  lemma PassesStep(j: nat, v: nat)
    requires v < 3
    ensures v == j % 3 ==> Passes(j, v) == j / 3 && Passes(j + 1, v) == j / 3 + 1
    ensures v != j % 3 ==> Passes(j + 1, v) == Passes(j, v)
  {
  }

  /** The three words of a row after the passes before j. */
  ghost predicate RowAfter(row: (bv32, bv32, bv32), c: Chunk, kr: nat, t: nat, j: nat) {
    && row.0 == Collected(c, kr, t, 0, Passes(j, 0))
    && row.1 == Collected(c, kr, t, 1, Passes(j, 1))
    && row.2 == Collected(c, kr, t, 2, Passes(j, 2))
  }

  function RowOf(keysched: array2<bv32>, row: nat): (bv32, bv32, bv32)
    requires row < keysched.Length0 && keysched.Length1 == 3
    reads keysched
  {
    (keysched[row, 0], keysched[row, 1], keysched[row, 2])
  }

  lemma WordStep(c: Chunk, kr: nat, t: nat, j: nat, v: nat)
    requires v < 3
    ensures NextWord(c, kr, t + j, v == j % 3, Collected(c, kr, t, v, Passes(j, v)))
         == Collected(c, kr, t, v, Passes(j + 1, v))
  {
    PassesStep(j, v);
    if v == j % 3 {
      var u := j / 3;
      assert t + 3 * u + v == t + j;
    }
  }

  lemma WordStarts(c: Chunk, kr: nat, t: nat, j: nat, v: nat)
    requires v < 3 && j == 0
    ensures Collected(c, kr, t, v, Passes(j, v)) == 0
  {
    // A variable for the number of passes: with 0 itself the verifier unrolls Collected.
    var u :| u == Passes(j, v);
    assert u == 0;
  }

  lemma RowStarts(c: Chunk, kr: nat, t: nat, j: nat)
    requires j == 0
    ensures RowAfter((0, 0, 0), c, kr, t, j)
  {
    WordStarts(c, kr, t, j, 0); WordStarts(c, kr, t, j, 1); WordStarts(c, kr, t, j, 2);
  }

  lemma RowStep(c: Chunk, kr: nat, t: nat, j: nat, row: (bv32, bv32, bv32))
    requires RowAfter(row, c, kr, t, j)
    ensures RowAfter((NextWord(c, kr, t + j, 0 == j % 3, row.0), NextWord(c, kr, t + j, 1 == j % 3, row.1),
                      NextWord(c, kr, t + j, 2 == j % 3, row.2)), c, kr, t, j + 1)
  {
    WordStep(c, kr, t, j, 0); WordStep(c, kr, t, j, 1); WordStep(c, kr, t, j, 2);
  }

  /** The loop over j: fifteen passes fill the three words of one row. */
  method BuildSubkey(kb: array<bv16>, keysched: array2<bv32>, row: nat, kr: nat, ghost c: Chunk, ghost t: nat)
    requires kb.Length == 4 && row < keysched.Length0 && keysched.Length1 == 3
    requires InPass(c, kb[..], t, kr, 0)
    modifies kb, keysched
    ensures InPass(c, kb[..], t + PASSES, kr, 0)
    ensures RowAfter(RowOf(keysched, row), c, kr, t, PASSES)
    ensures forall r, w | 0 <= r < keysched.Length0 && 0 <= w < 3 && r != row :: keysched[r, w] == old(keysched[r, w])
  {
    for j := 0 to 3
      invariant forall v | 0 <= v < j :: keysched[row, v] == 0
      invariant kb[..] == old(kb[..])
      invariant forall r, w | 0 <= r < keysched.Length0 && 0 <= w < 3 && r != row ::
                  keysched[r, w] == old(keysched[r, w])
    {
      keysched[row, j] := 0;
    }
    FillRow(kb, keysched, row, kr, c, t);
  }

  method FillRow(kb: array<bv16>, keysched: array2<bv32>, row: nat, kr: nat, ghost c: Chunk, ghost t: nat)
    requires kb.Length == 4 && row < keysched.Length0 && keysched.Length1 == 3
    requires InPass(c, kb[..], t, kr, 0) && RowOf(keysched, row) == (0, 0, 0)
    modifies kb, keysched
    ensures InPass(c, kb[..], t + PASSES, kr, 0)
    ensures RowAfter(RowOf(keysched, row), c, kr, t, PASSES)
    ensures forall r, w | 0 <= r < keysched.Length0 && 0 <= w < 3 && r != row :: keysched[r, w] == old(keysched[r, w])
  {
    RowStarts(c, kr, t, 0);
    for j := 0 to PASSES
      invariant InPass(c, kb[..], t + j, kr, 0)
      invariant RowAfter(RowOf(keysched, row), c, kr, t, j)
      invariant forall r, w | 0 <= r < keysched.Length0 && 0 <= w < 3 && r != row ::
                  keysched[r, w] == old(keysched[r, w])
    {
      RowStep(c, kr, t, j, RowOf(keysched, row));
      ShiftIn(kb, keysched, row, j % 3, kr, c, t + j);
    }
  }

  // ----- the subkeys of a chunk, in closed form -----

  /** Five of the fifteen passes belong to each word. */
  const WORD_PASSES: nat := 5

  /** Word v of a round with rotation kr that starts when each register has made t steps. */
  function Word(c: Chunk, kr: nat, t: nat, v: nat): bv32 {
    Collected(c, kr, t, v, WORD_PASSES)
  }

  lemma FullRow(row: (bv32, bv32, bv32), c: Chunk, kr: nat, t: nat)
    requires RowAfter(row, c, kr, t, PASSES)
    ensures row == (Word(c, kr, t, 0), Word(c, kr, t, 1), Word(c, kr, t, 2))
  {
    assert Passes(PASSES, 0) == WORD_PASSES && Passes(PASSES, 1) == WORD_PASSES && Passes(PASSES, 2) == WORD_PASSES;
  }

  lemma WordReceived(c: Chunk, kr: nat, t: nat, v: nat, q: nat)
    ensures q in Bits(Word(c, kr, t, v)) <==> q < 20 && SubkeyBit(c, kr, t, v, 19 - q)
  {
    // A variable for the number of bits: with 20 itself the verifier unrolls the recursion.
    var n: nat :| n == 20;
    CollectedIsReceived(c, kr, t, v, WORD_PASSES, n);
    assert q in Received(c, kr, t, v, n) <==> Placed(c, kr, t, v, n, q);
  }

  /** The whole key schedule in one line: bit 19 - (4 * (j / 3) + k) of word j % 3 is bit (t + j) % 16 of register
      (kr + k) % 4 as it was t steps before the round, inverted exactly when (t + j) / 16 is odd. */
  lemma ClosedForm(c: Chunk, kr: nat, t: nat, j: nat, k: nat)
    requires j < 15 && k < 4
    ensures 19 - (4 * (j / 3) + k) in Bits(Word(c, kr, t, j % 3))
       <==> ((t + j) % 16 in Reg(c[(kr + k) % 4])) != ((t + j) / 16 % 2 == 1)
  {
    var u, v := j / 3, j % 3;
    WordReceived(c, kr, t, v, 19 - (4 * u + k));
    WhichBit(c, kr, t, v, u, k, 4 * u + k);
    assert t + 3 * u + v == t + j;
  }

  lemma LowTwentyFull(j: nat)
    requires j < 20
    ensures j in Bits(0xf_ffff)
  {
    assert LowBitsSet(0x3, 2); assert LowBitsSet(0xf, 4); assert LowBitsSet(0x3f, 6); assert LowBitsSet(0xff, 8);
    assert LowBitsSet(0x3ff, 10); assert LowBitsSet(0xfff, 12); assert LowBitsSet(0x3fff, 14);
    assert LowBitsSet(0xffff, 16); assert LowBitsSet(0x3_ffff, 18);
    LowBitSet(0xf_ffff, 20, j);
  }

  lemma HighPart(x: bv32, y: bv32)
    requires x >= 0x10_0000 && y == x & 0xfff0_0000
    ensures y != 0
  {
  }

  lemma HighMissesLow(x: bv32, y: bv32)
    requires y == x & 0xfff0_0000
    ensures y & 0xf_ffff == 0
  {
  }

  lemma HighBit(x: bv32, y: bv32) returns (j: nat)
    requires x >= 0x10_0000 && y == x & 0xfff0_0000
    ensures j in Bits(y)
  {
    HighPart(x, y);
    BitsNonzero(y);
    j :| j in Bits(y);
  }

  lemma HighBitIsHigh(x: bv32, y: bv32, j: nat)
    requires y == x & 0xfff0_0000 && j in Bits(y)
    ensures j >= 20
  {
    if j < 20 {
      LowTwentyFull(j);
      HighMissesLow(x, y);
      BitsAnd(y, 0xf_ffff);
    }
  }

  lemma BelowTwenty(x: bv32)
    requires Below(Bits(x), 20)
    ensures x < 0x10_0000
  {
    if x >= 0x10_0000 {
      var j := HighBit(x, x & 0xfff0_0000);
      HighBitIsHigh(x, x & 0xfff0_0000, j);
      BitsAnd(x, 0xfff0_0000);
    }
  }

  /** Every subkey word fits in 20 bits. */
  lemma WordFits(c: Chunk, kr: nat, t: nat, v: nat)
    ensures Word(c, kr, t, v) < 0x10_0000
  {
    forall q <- Bits(Word(c, kr, t, v))
      ensures q < 20
    {
      WordReceived(c, kr, t, v, q);
    }
    BelowTwenty(Word(c, kr, t, v));
  }

  /** After 240 steps, two calls on one chunk, each register is the complement of what it was. */
  lemma TwoCallsComplement(c: Chunk, kb: seq<bv16>, kr: nat, t: nat)
    requires t == 240 && InPass(c, kb, t, kr, 0)
    ensures forall m | 0 <= m < 4 :: kb[m] == !c[m]
  {
    forall m | 0 <= m < 4
      ensures kb[m] == !c[m]
    {
      StepNIsLater(c[m], t);
      WholeTurns(c[m], kb[m], !c[m], t, 15);
    }
  }

  /** The three words of a round's subkey. */
  function WordsOf(c: Chunk, kr: nat, t: nat): (bv32, bv32, bv32) {
    (Word(c, kr, t, 0), Word(c, kr, t, 1), Word(c, kr, t, 2))
  }

  lemma ChangeRotation(c: Chunk, kb: seq<bv16>, t: nat, kr: nat, kr': nat)
    requires InPass(c, kb, t, kr, 0)
    ensures InPass(c, kb, t, kr', 0)
  {
  }

  /** One pass of the loop of the schedule builder: the row is the subkey of the closed form. */
  method BuildRow(kb: array<bv16>, keysched: array2<bv32>, row: nat, kr: nat, ghost c: Chunk, ghost t: nat)
    requires kb.Length == 4 && row < keysched.Length0 && keysched.Length1 == 3
    requires InPass(c, kb[..], t, 0, 0)
    modifies kb, keysched
    ensures InPass(c, kb[..], t + PASSES, 0, 0)
    ensures RowOf(keysched, row) == WordsOf(c, kr, t)
    ensures forall r, w | 0 <= r < keysched.Length0 && 0 <= w < 3 && r != row :: keysched[r, w] == old(keysched[r, w])
  {
    ChangeRotation(c, kb[..], t, 0, kr);
    BuildSubkey(kb, keysched, row, kr, c, t);
    FullRow(RowOf(keysched, row), c, kr, t);
    ChangeRotation(c, kb[..], t + PASSES, kr, 0);
  }

  /** Eight rows of the schedule, for any rotations, from registers that have made t steps since they held c. */
  method ScheduleBuild(kb: array<bv16>, keysched: array2<bv32>, n: nat, keyrot: seq<nat>, ghost c: Chunk, ghost t: nat)
    requires kb.Length == 4 && n + 8 <= keysched.Length0 && keysched.Length1 == 3 && |keyrot| == 8
    requires InPass(c, kb[..], t, 0, 0)
    modifies kb, keysched
    ensures InPass(c, kb[..], t + 8 * PASSES, 0, 0)
    ensures forall i | 0 <= i < 8 :: RowOf(keysched, n + i) == WordsOf(c, keyrot[i], t + i * PASSES)
    ensures forall r, w | 0 <= r < keysched.Length0 && 0 <= w < 3 && !(n <= r < n + 8) ::
              keysched[r, w] == old(keysched[r, w])
  {
    for i := 0 to 8
      invariant InPass(c, kb[..], t + i * PASSES, 0, 0)
      invariant forall k | 0 <= k < i :: RowOf(keysched, n + k) == WordsOf(c, keyrot[k], t + k * PASSES)
      invariant forall r, w | 0 <= r < keysched.Length0 && 0 <= w < 3 && !(n <= r < n + 8) ::
                  keysched[r, w] == old(keysched[r, w])
    {
      BuildRow(kb, keysched, n + i, keyrot[i], c, t + i * PASSES);
    }
  }
}
