/** The Feistel network of the cipher, for any round function: textbook rounds, inverses and byte blocks. */
module Feistel {
  import opened Words

  type Round<!K> = (bv32, K) -> bv32

  /** Textbook rounds: the halves change places and the new right half is masked by the old one. */
  function Rounds<K>(f: Round<K>, l: bv32, r: bv32, ks: seq<K>): (bv32, bv32)
    decreases |ks|
  {
    if ks == [] then (l, r) else
      var n := |ks| - 1;
      var (a, b) := Rounds(f, l, r, ks[..n]);
      (b, Xor(a, f(b, ks[n])))
  }

  /** The rounds, and the exchange of halves that ends encryption. */
  function Crypt<K>(f: Round<K>, w: (bv32, bv32), ks: seq<K>): (bv32, bv32) {
    var (a, b) := Rounds(f, w.0, w.1, ks);
    (b, a)
  }

  function Reverse<T>(s: seq<T>): (r: seq<T>)
    ensures |r| == |s|
  {
    if s == [] then [] else [s[|s| - 1]] + Reverse(s[..|s| - 1])
  }

  lemma {:induction false} ReverseAt<T>(s: seq<T>, i: nat)
    requires i < |s|
    ensures Reverse(s)[i] == s[|s| - 1 - i]
  {
    if i > 0 {
      ReverseAt(s[..|s| - 1], i - 1);
    }
  }

  lemma ReverseTwice<T>(s: seq<T>)
    ensures Reverse(Reverse(s)) == s
  {
    forall i | 0 <= i < |s|
      ensures Reverse(Reverse(s))[i] == s[i]
    {
      ReverseAt(Reverse(s), i);
      ReverseAt(s, |s| - 1 - i);
    }
  }

  /** The round with key k, then the rounds with ks. */
  lemma {:induction false} RoundsPrepend<K>(f: Round<K>, l: bv32, r: bv32, k: K, ks: seq<K>)
    ensures Rounds(f, l, r, [k] + ks) == Rounds(f, r, Xor(l, f(r, k)), ks)
    decreases |ks|
  {
    var all := [k] + ks;
    if ks == [] {
      assert all[..0] == [];
    } else {
      var n := |ks| - 1;
      assert all[..n + 1] == [k] + ks[..n];
      RoundsPrepend(f, l, r, k, ks[..n]);
    }
  }

  /** The same network with the schedule reversed undoes it, whatever the round function and the schedule. */
  lemma {:induction false} ReversedScheduleInverts<K>(f: Round<K>, w: (bv32, bv32), ks: seq<K>)
    ensures Crypt(f, Crypt(f, w, ks), Reverse(ks)) == w
    decreases |ks|
  {
    if ks != [] {
      var n := |ks| - 1;
      var k, rest := ks[n], ks[..n];
      var (a, b) := Rounds(f, w.0, w.1, rest);
      var c := Xor(a, f(b, k));
      assert Rounds(f, w.0, w.1, ks) == (b, c);
      XorTwice(a, f(b, k));
      RoundsPrepend(f, c, b, k, Reverse(rest));
      ReversedScheduleInverts(f, w, rest);
    }
  }

  // ----- two rounds at a time, without moving the halves -----

  /** What one pass of the loops does with the keys i and i + 1. */
  lemma TwoRounds<K>(f: Round<K>, l: bv32, r: bv32, ks: seq<K>, i: nat, a: bv32, b: bv32)
    requires i + 2 <= |ks| && Rounds(f, l, r, ks[..i]) == (a, b)
    ensures Rounds(f, l, r, ks[..i + 2]) == (Xor(a, f(b, ks[i])), Xor(b, f(Xor(a, f(b, ks[i])), ks[i + 1])))
  {
    assert ks[..i + 1][..i] == ks[..i];
    assert ks[..i + 2][..i + 1] == ks[..i + 1];
  }

  // ----- blocks of eight bytes -----

  function WordAt(b: seq<bv8>, i: nat): bv32
    requires i + 4 <= |b|
  {
    Join(b[i], b[i + 1], b[i + 2], b[i + 3])
  }

  /** Four bytes, most significant first. */
  function Join(b0: bv8, b1: bv8, b2: bv8, b3: bv8): bv32 {
    (b0 as bv32 << 24) | (b1 as bv32 << 16) | (b2 as bv32 << 8) | b3 as bv32
  }

  function LowByte(w: bv32): bv8 {
    (w & 0xff) as bv8
  }

  function Bytes(w: bv32): (b: seq<bv8>)
    ensures |b| == 4
  {
    [LowByte(w >> 24), LowByte(w >> 16), LowByte(w >> 8), LowByte(w)]
  }

  function Halves(b: seq<bv8>): (bv32, bv32)
    requires |b| == 8
  {
    (WordAt(b, 0), WordAt(b, 4))
  }

  function Block(w: (bv32, bv32)): (b: seq<bv8>)
    ensures |b| == 8
  {
    Bytes(w.0) + Bytes(w.1)
  }

  function CryptBlock<K>(f: Round<K>, b: seq<bv8>, ks: seq<K>): (c: seq<bv8>)
    requires |b| == 8
    ensures |c| == 8
  {
    Block(Crypt(f, Halves(b), ks))
  }

  lemma JoinBytes(w: bv32)
    ensures WordAt(Bytes(w), 0) == w
  {
  }

  lemma SplitJoin(b0: bv8, b1: bv8, b2: bv8, b3: bv8)
    ensures Bytes(Join(b0, b1, b2, b3)) == [b0, b1, b2, b3]
  {
  }

  lemma HalvesOfBlock(w: (bv32, bv32))
    ensures Halves(Block(w)) == w
  {
    JoinBytes(w.0); JoinBytes(w.1);
    var b := Block(w);
    assert forall i | 0 <= i < 4 :: b[i] == Bytes(w.0)[i] && b[i + 4] == Bytes(w.1)[i];
  }

  lemma BlockOfHalves(b: seq<bv8>)
    requires |b| == 8
    ensures Block(Halves(b)) == b
  {
    SplitJoin(b[0], b[1], b[2], b[3]); SplitJoin(b[4], b[5], b[6], b[7]);
  }

  /** Decryption undoes encryption, on every block and for every schedule ... */
  lemma DecryptUndoesEncrypt<K>(f: Round<K>, b: seq<bv8>, ks: seq<K>)
    requires |b| == 8
    ensures CryptBlock(f, CryptBlock(f, b, ks), Reverse(ks)) == b
  {
    HalvesOfBlock(Crypt(f, Halves(b), ks));
    ReversedScheduleInverts(f, Halves(b), ks);
    BlockOfHalves(b);
  }

  /** ... and encryption undoes decryption, so both are bijections on blocks. */
  lemma EncryptUndoesDecrypt<K>(f: Round<K>, b: seq<bv8>, ks: seq<K>)
    requires |b| == 8
    ensures CryptBlock(f, CryptBlock(f, b, Reverse(ks)), ks) == b
  {
    ReverseTwice(ks);
    DecryptUndoesEncrypt(f, b, Reverse(ks));
  }

  // ----- blocks as numbers -----

  function ByteNumber(x: bv8): nat {
    x as nat
  }

  function Number(w: bv32): nat {
    w as nat
  }

  /** The number that bytes are, most significant first. */
  function BigEndian(bs: seq<bv8>): nat {
    if bs == [] then 0 else 256 * BigEndian(bs[..|bs| - 1]) + ByteNumber(bs[|bs| - 1])
  }

  lemma JoinIdentity(b0: bv8, b1: bv8, b2: bv8, b3: bv8)
    ensures ((b0 as bv32 << 24) | (b1 as bv32 << 16) | (b2 as bv32 << 8) | b3 as bv32) as nat
         == 16777216 * (b0 as nat) + 65536 * (b1 as nat) + 256 * (b2 as nat) + b3 as nat
  {
  }

  lemma JoinNumber(b0: bv8, b1: bv8, b2: bv8, b3: bv8)
    ensures Number(Join(b0, b1, b2, b3))
         == 16777216 * ByteNumber(b0) + 65536 * ByteNumber(b1) + 256 * ByteNumber(b2) + ByteNumber(b3)
  {
    JoinIdentity(b0, b1, b2, b3);
  }

  lemma FourBytes(bs: seq<bv8>)
    requires |bs| == 4
    ensures BigEndian(bs)
         == 16777216 * ByteNumber(bs[0]) + 65536 * ByteNumber(bs[1]) + 256 * ByteNumber(bs[2]) + ByteNumber(bs[3])
  {
    hide ByteNumber;
    var one, two, three := bs[..1], bs[..2], bs[..3];
    assert bs[..|bs| - 1] == three && three[..|three| - 1] == two && two[..|two| - 1] == one && one[..|one| - 1] == [];
    assert BigEndian(one) == ByteNumber(bs[0]);
    assert BigEndian(two) == 256 * BigEndian(one) + ByteNumber(bs[1]);
    assert BigEndian(three) == 256 * BigEndian(two) + ByteNumber(bs[2]);
  }

  lemma WordNumber(b: seq<bv8>, i: nat)
    requires i + 4 <= |b|
    ensures Number(WordAt(b, i)) == BigEndian(b[i..i + 4])
  {
    hide ByteNumber, Number, Join, BigEndian;
    FourBytes(b[i..i + 4]);
    JoinNumber(b[i], b[i + 1], b[i + 2], b[i + 3]);
  }

  /** A block is two big-endian words, left half first; after the rounds the right half comes out first. */
  lemma BlockNumbers<K>(f: Round<K>, b: seq<bv8>, ks: seq<K>, l: bv32, r: bv32)
    requires |b| == 8 && (l, r) == Rounds(f, WordAt(b, 0), WordAt(b, 4), ks)
    ensures Number(WordAt(b, 0)) == BigEndian(b[..4]) && Number(WordAt(b, 4)) == BigEndian(b[4..])
    ensures BigEndian(CryptBlock(f, b, ks)[..4]) == Number(r) && BigEndian(CryptBlock(f, b, ks)[4..]) == Number(l)
  {
    hide ByteNumber, Number, BigEndian, Join, Bytes, Rounds;
    var c := CryptBlock(f, b, ks);
    WordNumber(b, 0); WordNumber(b, 4);
    BytesNumber(r); BytesNumber(l);
    assert b[0..4] == b[..4] && b[4..8] == b[4..] && c[..4] == Bytes(r) && c[4..] == Bytes(l);
  }

  lemma BytesNumber(w: bv32)
    ensures BigEndian(Bytes(w)) == Number(w)
  {
    hide ByteNumber, Number, BigEndian, Join, Bytes;
    JoinBytes(w);
    WordNumber(Bytes(w), 0);
    assert Bytes(w)[0..4] == Bytes(w);
  }

  // ----- reading and writing the bytes -----

  lemma Extended(buf: seq<bv8>, at: nat, end: nat, bs: seq<bv8>, i: nat)
    requires at < end <= |buf| && i < |bs| && buf[at] == bs[i] && buf[at + 1..end] == bs[i + 1..]
    ensures buf[at..end] == bs[i..]
  {
    assert buf[at..end] == [buf[at]] + buf[at + 1..end] && bs[i..] == [bs[i]] + bs[i + 1..];
  }

  /** Two bytes four places apart; with the bytes written before, the lowest i + 1 of each word are in place. */
  method StorePair(buf: array<bv8>, at: nat, i: nat, x: bv8, y: bv8, ghost rs: seq<bv8>, ghost ls: seq<bv8>)
    requires at + 8 <= buf.Length && i < 4 && |rs| == |ls| == 4 && x == rs[3 - i] && y == ls[3 - i]
    requires buf[at + 4 - i..at + 4] == rs[4 - i..] && buf[at + 8 - i..at + 8] == ls[4 - i..]
    modifies buf
    ensures buf[at + 3 - i..at + 4] == rs[3 - i..] && buf[at + 7 - i..at + 8] == ls[3 - i..]
    ensures forall j | 0 <= j < buf.Length && !(at <= j < at + 8) :: buf[j] == old(buf[j])
  {
    ghost var m, n := at + 3 - i, at + 7 - i;
    buf[at + 3 - i] := x;
    buf[at + 7 - i] := y;
    Extended(buf[..], m, at + 4, rs, 3 - i);
    Extended(buf[..], n, at + 8, ls, 3 - i);
  }

  function NextByte(w: bv32): bv32 {
    w >> 8
  }

  /** w after i steps of eight bits. */
  function Shifted(w: bv32, i: nat): bv32 {
    if i == 0 then w else NextByte(Shifted(w, i - 1))
  }

  lemma NextBytes(w: bv32)
    ensures LowByte(w) == Bytes(w)[3] && LowByte(NextByte(w)) == Bytes(w)[2]
    ensures LowByte(NextByte(NextByte(w))) == Bytes(w)[1]
    ensures LowByte(NextByte(NextByte(NextByte(w)))) == Bytes(w)[0]
  {
  }

  lemma ShiftedByte(w: bv32, i: nat)
    requires i < 4
    ensures LowByte(Shifted(w, i)) == Bytes(w)[3 - i]
  {
    NextBytes(w);
    if i > 0 {
      assert Shifted(w, i) == NextByte(Shifted(w, i - 1));
      if i > 1 {
        assert Shifted(w, i - 1) == NextByte(Shifted(w, i - 2));
        if i > 2 {
          assert Shifted(w, i - 2) == NextByte(Shifted(w, i - 3));
        }
      }
    }
  }

  /** bs are the bytes the loop shifts out of w, last first. */
  ghost predicate ShiftsOut(w: bv32, bs: seq<bv8>) {
    |bs| == 4 && forall i | 0 <= i < 4 :: bs[3 - i] == LowByte(Shifted(w, i))
  }

  lemma BytesShiftOut(w: bv32)
    ensures ShiftsOut(w, Bytes(w))
  {
    forall i | 0 <= i < 4
      ensures Bytes(w)[3 - i] == LowByte(Shifted(w, i))
    {
      ShiftedByte(w, i);
    }
  }

  /** The closing loop of encryption and decryption: the two words go out least significant byte first. */
  method StoreWords(buf: array<bv8>, at: nat, r0: bv32, l0: bv32, ghost rs: seq<bv8>, ghost ls: seq<bv8>)
    requires at + 8 <= buf.Length && ShiftsOut(r0, rs) && ShiftsOut(l0, ls)
    modifies buf
    ensures buf[at..at + 4] == rs[0..] && buf[at + 4..at + 8] == ls[0..]
    ensures forall j | 0 <= j < buf.Length && !(at <= j < at + 8) :: buf[j] == old(buf[j])
  {
    var r, l := r0, l0;
    for i := 0 to 4
      invariant r == Shifted(r0, i) && l == Shifted(l0, i)
      invariant buf[at + 4 - i..at + 4] == rs[4 - i..] && buf[at + 8 - i..at + 8] == ls[4 - i..]
      invariant forall j | 0 <= j < buf.Length && !(at <= j < at + 8) :: buf[j] == old(buf[j])
    {
      StorePair(buf, at, i, LowByte(r), LowByte(l), rs, ls);
      r := NextByte(r);
      l := NextByte(l);
    }
  }

  method Store(buf: array<bv8>, at: nat, r: bv32, l: bv32)
    requires at + 8 <= buf.Length
    modifies buf
    ensures buf[at..at + 8] == Block((r, l))
    ensures forall j | 0 <= j < buf.Length && !(at <= j < at + 8) :: buf[j] == old(buf[j])
  {
    BytesShiftOut(r); BytesShiftOut(l);
    StoreWords(buf, at, r, l, Bytes(r), Bytes(l));
    assert buf[at..at + 8] == buf[at..at + 4] + buf[at + 4..at + 8];
  }
}
