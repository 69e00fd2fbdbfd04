/** The cipher on a machine whose unsigned long has 64 bits: every word stays below 2^32, so nothing changes. */
module WideWords {
  import opened Words
  import opened RoundFunction
  import opened Feistel

  function Widen(x: bv32): bv64 {
    x as bv64
  }

  function WideXor(x: bv64, y: bv64): bv64 {
    x ^ y
  }

  lemma WidenXor(x: bv32, y: bv32)
    ensures WideXor(Widen(x), Widen(y)) == Widen(Xor(x, y))
  {
  }

  // ----- the round function, statement by statement on wide words -----

  function WideLeft(p: bv64): bv64 {
    ((p >> 16) & 0x3ff) | (((p >> 14) | (p << 18)) & 0xf_fc00)
  }

  function WideRight(p: bv64): bv64 {
    (p & 0x3ff) | ((p << 2) & 0xf_fc00)
  }

  function WideSwap(own: bv64, tl: bv64, tr: bv64, salt: bv64): bv64 {
    (salt & (tl ^ tr)) ^ own
  }

  lemma LeftIdentity(p: bv32)
    ensures WideLeft(p as bv64) == CodeLeft(p) as bv64
  {
  }

  lemma RightIdentity(p: bv32)
    ensures WideRight(p as bv64) == CodeRight(p) as bv64
  {
  }

  /** The bits of p shifted out of a 32-bit word are bits the mask removes from a 64-bit one. */
  lemma WidenLeft(p: bv32, w: bv64, left: bv32)
    requires w == Widen(p) && left == CodeLeft(p)
    ensures WideLeft(w) == Widen(left)
  {
    LeftIdentity(p);
  }

  lemma WidenRight(p: bv32, w: bv64, right: bv32)
    requires w == Widen(p) && right == CodeRight(p)
    ensures WideRight(w) == Widen(right)
  {
    RightIdentity(p);
  }

  lemma WidenSwap(own: bv32, tl: bv32, tr: bv32, salt: bv32)
    ensures WideSwap(Widen(own), Widen(tl), Widen(tr), Widen(salt)) == Widen(CodeSwap(own, tl, tr, salt))
  {
  }

  function WideHalves(p: bv64, sk: SubkeyWords): (bv64, bv64) {
    var tl, tr := WideLeft(p), WideRight(p);
    (WideXor(WideSwap(tl, tl, tr, Widen(sk.salt)), Widen(sk.left)),
     WideXor(WideSwap(tr, tl, tr, Widen(sk.salt)), Widen(sk.right)))
  }

  /** Both widths index the tables alike. */
  lemma WidenHalves(p: bv32, sk: SubkeyWords)
    ensures WideHalves(Widen(p), sk) == (Widen(KeyHalves(p, sk).0), Widen(KeyHalves(p, sk).1))
  {
    var tl, tr := CodeLeft(p), CodeRight(p);
    WidenLeft(p, Widen(p), tl); WidenRight(p, Widen(p), tr);
    WidenSwap(tl, tl, tr, sk.salt); WidenSwap(tr, tl, tr, sk.salt);
    WidenXor(CodeSwap(tl, tl, tr, sk.salt), sk.left);
    WidenXor(CodeSwap(tr, tl, tr, sk.salt), sk.right);
  }

  // ----- the rounds and the bytes -----

  type WideRound<!K> = (bv64, K) -> bv64

  /** The loop body of encryption on wide words, for the rounds in pairs. */
  function WideRounds<K>(g: WideRound<K>, l: bv64, r: bv64, ks: seq<K>): (bv64, bv64)
    decreases |ks|
  {
    if |ks| < 2 then (l, r) else
      var n := |ks| - 2;
      var (a, b) := WideRounds(g, l, r, ks[..n]);
      var a' := WideXor(a, g(b, ks[n]));
      (a', WideXor(b, g(a', ks[n + 1])))
  }

  /** If a wide round function agrees with a narrow one below 2^32, so does the whole loop: both halves stay there. */
  lemma {:induction false} WidthDoesNotMatter<K>(f: Round<K>, g: WideRound<K>, l: bv32, r: bv32, ks: seq<K>)
    requires |ks| % 2 == 0
    requires forall p: bv32, k: K :: g(Widen(p), k) == Widen(f(p, k))
    ensures WideRounds(g, Widen(l), Widen(r), ks) == (Widen(Rounds(f, l, r, ks).0), Widen(Rounds(f, l, r, ks).1))
    decreases |ks|
  {
    if ks == [] {
    } else {
      var n := |ks| - 2;
      WidthDoesNotMatter(f, g, l, r, ks[..n]);
      var (a, b) := Rounds(f, l, r, ks[..n]);
      var a' := Xor(a, f(b, ks[n]));
      TwoRounds(f, l, r, ks, n, a, b);
      assert ks[..n + 2] == ks;
      WidenXor(a, f(b, ks[n]));
      WidenXor(b, f(a', ks[n + 1]));
    }
  }
}
