/** The key object of the cipher: construction, key schedule, encryption and decryption in place. */
module IceKeys {
  import opened Words
  import opened KeySchedule
  import opened KeyMaterial
  import opened RoundFunction
  import opened Feistel

  /** f is the ICE round function; the equation is used only at the arguments asked for. */
  ghost predicate IsIceRound(f: Round<Subkey>) {
    forall p: bv32, sk: Subkey {:trigger Asked(p, sk)} :: Asked(p, sk) ==> f(p, sk) == F(p, sk)
  }

  ghost predicate Asked(p: bv32, sk: Subkey) {
    true
  }

  /** The round function of the cipher, as a function value. */
  function IceRound(p: bv32, sk: Subkey): bv32 {
    F(p, sk)
  }

  lemma IceRoundIsIceRound()
    ensures IsIceRound(IceRound)
  {
    forall p: bv32, sk: Subkey | Asked(p, sk)
      ensures IceRound(p, sk) == F(p, sk)
    {
    }
  }

  ghost predicate Reversed<T>(s: seq<T>, r: seq<T>) {
    |r| == |s| && forall i | 0 <= i < |r| :: r[i] == s[|s| - 1 - i]
  }

  lemma ReverseIsReversed<T>(s: seq<T>)
    ensures Reversed(s, Reverse(s))
  {
    forall i | 0 <= i < |s|
      ensures Reverse(s)[i] == s[|s| - 1 - i]
    {
      ReverseAt(s, i);
    }
  }

  class IceKey {
    ghost const level: int
    var size: nat
    var rounds: nat
    var keysched: array2<bv32>
    const tables: SharedTables

    ghost predicate Shaped()
      reads this
    {
      && size == SizeOf(level) && rounds == RoundsOf(level)
      && keysched.Length0 == rounds && keysched.Length1 == 3 && keysched != tables.sbox
    }

    ghost predicate Valid()
      reads this, tables, tables.sbox
    {
      Shaped() && tables.initialised && tables.Valid()
    }

    function Row(r: nat): SubkeyWords
      requires r < keysched.Length0 && keysched.Length1 == 3
      reads this, keysched
    {
      SubkeyWords(keysched[r, 0], keysched[r, 1], keysched[r, 2])
    }

    /** The rows of the schedule hold the subkeys ks. */
    ghost predicate Holds(ks: seq<SubkeyWords>)
      reads this, keysched
    {
      |ks| == keysched.Length0 && keysched.Length1 == 3 && forall r {:trigger Row(r)} | 0 <= r < |ks| :: Row(r) == ks[r]
    }

    /** The first key object fills the shared tables; later ones leave them alone. */
    constructor (n: int, shared: SharedTables)
      requires shared.Valid()
      modifies shared, shared.sbox
      ensures Valid() && level == n && tables == shared && fresh(keysched)
      ensures rounds == keysched.Length0 == (if n < 1 then 8 else 16 * n) && size == if n < 1 then 1 else n
      ensures old(shared.initialised) ==>
                forall k, i | 0 <= k < 4 && 0 <= i < 1024 :: shared.sbox[k, i] == old(shared.sbox[k, i])
    {
      level := n;
      tables := shared;
      if n < 1 {
        size := 1;
        rounds := 8;
      } else {
        size := n;
        rounds := n * 16;
      }
      keysched := new bv32[if n < 1 then 8 else n * 16, 3];
      new;
      if !shared.initialised {
        shared.IceSBoxesInit();
        shared.initialised := true;
      }
    }

    method KeySize() returns (bytes: nat)
      requires Valid()
      ensures bytes == 8 * SizeOf(level) == if level < 1 then 8 else 8 * level
    {
      bytes := size * 8;
    }

    /** Empties the schedule; the object is not to be used again. */
    method Destroy()
      requires Shaped()
      modifies this, keysched
      ensures size == 0 && rounds == 0 && keysched == old(keysched)
      ensures forall r, w | 0 <= r < keysched.Length0 && 0 <= w < 3 :: keysched[r, w] == 0
    {
      for i := 0 to rounds
        invariant forall r, w | 0 <= r < i && 0 <= w < 3 :: keysched[r, w] == 0
        modifies keysched
      {
        for j := 0 to 3
          invariant forall r, w | 0 <= r < keysched.Length0 && 0 <= w < 3 && (r < i || (r == i && w < j)) ::
                      keysched[r, w] == 0
          modifies keysched
        {
          keysched[i, j] := 0;
        }
      }
      rounds, size := 0, 0;
    }

    /** The round function of the code with the subkey in row i. */
    function RoundAt(i: nat, p: bv32, ghost ks: seq<Subkey>): bv32
      requires tables.Shaped() && Holds(ks) && i < |ks|
      reads this, keysched, tables, tables.sbox
    {
      assert Row(i) == ks[i];
      IceF(tables, p, Row(i))
    }

    lemma RoundAtIs(i: nat, p: bv32, ks: seq<Subkey>, f: Round<Subkey>)
      requires tables.Filled() && Holds(ks) && i < |ks| && IsIceRound(f)
      ensures RoundAt(i, p, ks) == f(p, ks[i])
    {
      assert Row(i) == ks[i] && Asked(p, ks[i]);
      IceFIsF(tables, p, ks[i]);
    }

    /** One pass of either loop, with the subkeys in rows i and j, runs the next two rounds of the schedule rs. */
    lemma PassRuns(l0: bv32, r0: bv32, l: bv32, r: bv32, i: nat, j: nat, ks: seq<Subkey>, rs: seq<Subkey>, n: nat,
                   f: Round<Subkey>)
      requires tables.Filled() && Holds(ks) && i < |ks| && j < |ks| && IsIceRound(f)
      requires n + 2 <= |rs| && rs[n] == ks[i] && rs[n + 1] == ks[j] && (l, r) == Rounds(f, l0, r0, rs[..n])
      ensures var a := Xor(l, RoundAt(i, r, ks));
              (a, Xor(r, RoundAt(j, a, ks))) == Rounds(f, l0, r0, rs[..n + 2])
    {
      TwoRounds(f, l0, r0, rs, n, l, r);
      RoundAtIs(i, r, ks, f);
      RoundAtIs(j, Xor(l, RoundAt(i, r, ks)), ks, f);
    }

    method EncryptRounds(l0: bv32, r0: bv32, ghost ks: seq<Subkey>, ghost f: Round<Subkey>) returns (l: bv32, r: bv32)
      requires tables.Filled() && Holds(ks) && rounds == |ks| && rounds % 2 == 0 && IsIceRound(f)
      ensures (l, r) == Rounds(f, l0, r0, ks)
    {
      hide RoundAt, IsIceRound;
      l, r := l0, r0;
      var i := 0;
      assert ks[..0] == [];
      while i < rounds
        invariant i % 2 == 0 && i <= rounds
        invariant (l, r) == Rounds(f, l0, r0, ks[..i])
      {
        PassRuns(l0, r0, l, r, i, i + 1, ks, ks, i, f);
        l := Xor(l, RoundAt(i, r, ks));
        r := Xor(r, RoundAt(i + 1, l, ks));
        i := i + 2;
      }
      assert ks[..rounds] == ks;
    }

    lemma PassRunsBack(l0: bv32, r0: bv32, l: bv32, r: bv32, i: nat, ks: seq<Subkey>, rs: seq<Subkey>, n: nat,
                       n': nat, f: Round<Subkey>)
      requires tables.Filled() && Holds(ks) && 0 < i < |ks| && IsIceRound(f) && Reversed(ks, rs)
      requires n + i + 1 == |ks| && n' == n + 2 && (l, r) == Rounds(f, l0, r0, rs[..n])
      ensures var a := Xor(l, RoundAt(i, r, ks));
              (a, Xor(r, RoundAt(i - 1, a, ks))) == Rounds(f, l0, r0, rs[..n'])
    {
      assert rs[n] == ks[|ks| - 1 - n] && rs[n + 1] == ks[|ks| - 1 - (n + 1)];
      PassRuns(l0, r0, l, r, i, i - 1, ks, rs, n, f);
    }

    /** The loop takes the subkeys backwards, which are the subkeys of the reversed schedule rs forwards. */
    method DecryptRounds(l0: bv32, r0: bv32, ghost ks: seq<Subkey>, ghost rs: seq<Subkey>, ghost f: Round<Subkey>)
      returns (l: bv32, r: bv32)
      requires tables.Filled() && Holds(ks) && rounds == |ks| && rounds % 2 == 0 && IsIceRound(f)
      requires Reversed(ks, rs)
      ensures (l, r) == Rounds(f, l0, r0, rs)
    {
      l, r := l0, r0;
      var i: int := rounds - 1;
      ghost var n: nat := 0;
      assert rs[..0] == [];
      while i > 0
        invariant n + i + 1 == |ks| && n <= |ks| && n % 2 == 0
        invariant (l, r) == Rounds(f, l0, r0, rs[..n])
        decreases i
      {
        PassRunsBack(l0, r0, l, r, i, ks, rs, n, n + 2, f);
        l := Xor(l, RoundAt(i, r, ks));
        r := Xor(r, RoundAt(i - 1, l, ks));
        i := i - 2;
        n := n + 2;
      }
      assert rs[..n] == rs;
    }

    method Encrypt(ptext: array<bv8>, p: nat, ctext: array<bv8>, c: nat, ghost ks: seq<Subkey>)
      requires Valid() && Holds(ks) && p + 8 <= ptext.Length && c + 8 <= ctext.Length
      modifies ctext
      ensures ctext[c..c + 8] == CryptBlock(IceRound, old(ptext[p..p + 8]), ks)
      ensures forall j | 0 <= j < ctext.Length && !(c <= j < c + 8) :: ctext[j] == old(ctext[j])
    {
      var l := Join(ptext[p], ptext[p + 1], ptext[p + 2], ptext[p + 3]);
      var r := Join(ptext[p + 4], ptext[p + 5], ptext[p + 6], ptext[p + 7]);
      IceRoundIsIceRound();
      l, r := EncryptRounds(l, r, ks, IceRound);
      Store(ctext, c, r, l);
    }

    method Decrypt(ctext: array<bv8>, c: nat, ptext: array<bv8>, p: nat, ghost ks: seq<Subkey>)
      requires Valid() && Holds(ks) && p + 8 <= ptext.Length && c + 8 <= ctext.Length
      modifies ptext
      ensures ptext[p..p + 8] == CryptBlock(IceRound, old(ctext[c..c + 8]), Reverse(ks))
      ensures forall j | 0 <= j < ptext.Length && !(p <= j < p + 8) :: ptext[j] == old(ptext[j])
    {
      var l := Join(ctext[c], ctext[c + 1], ctext[c + 2], ctext[c + 3]);
      var r := Join(ctext[c + 4], ctext[c + 5], ctext[c + 6], ctext[c + 7]);
      IceRoundIsIceRound();
      ReverseIsReversed(ks);
      l, r := DecryptRounds(l, r, ks, Reverse(ks), IceRound);
      Store(ptext, p, r, l);
    }

    /** The registers of chunk n of a key, in the order the code fills them. */
    method LoadChunk(key: array<bv8>, n: nat, ghost bytes: seq<bv8>) returns (kb: array<bv16>)
      requires 8 * n + 8 <= |bytes| <= key.Length && key[..|bytes|] == bytes
      ensures fresh(kb) && kb.Length == 4 && kb[..] == ChunkOf(bytes, n)
    {
      assert forall x | 0 <= x < |bytes| :: key[x] == key[..|bytes|][x];
      kb := new bv16[4];
      for j := 0 to 4
        invariant forall m | 4 - j <= m < 4 ::
                    kb[m] == Pair(key[8 * n + 2 * (3 - m)], key[8 * n + 2 * (3 - m) + 1])
      {
        kb[3 - j] := Pair(key[8 * n + 2 * j], key[8 * n + 2 * j + 1]);
      }
    }

    /** Row r holds the subkey that belongs there. */
    ghost predicate RowSet(key: seq<bv8>, r: nat)
      requires |key| == 8 * SizeOf(level) && r < RoundsOf(level)
      requires keysched.Length0 == RoundsOf(level) && keysched.Length1 == 3
      reads this, keysched
    {
      IsRow(Row(r), level, key, r)
    }

    /** Where one half of the subkeys of chunk n goes. */
    ghost predicate HalfStarts(n: nat, second: bool, start: nat) {
      n < SizeOf(level) && (second ==> level >= 1) && start == if second then RoundsOf(level) - 8 - 8 * n else 8 * n
    }

    lemma HalfRow(key: seq<bv8>, n: nat, second: bool, start: nat, kr: nat, t: nat, i: nat, r: nat)
      requires Shaped() && |key| == 8 * SizeOf(level) && HalfStarts(n, second, start)
      requires i < 8 && r == start + i && r < rounds && kr == KEYROT[if second then 8 + i else i]
      requires t == (if second then 120 else 0) + 15 * i && RowOf(keysched, r) == WordsOf(ChunkOf(key, n), kr, t)
      ensures RowSet(key, r)
    {
      BuiltRow(level, key, n, i, second, kr, t, r, RowOf(keysched, r));
    }

    lemma HalfSet(key: seq<bv8>, n: nat, second: bool, start: nat, keyrot: seq<nat>, t: nat)
      requires Shaped() && |key| == 8 * SizeOf(level) && HalfStarts(n, second, start)
      requires keyrot == (if second then KEYROT[8..] else KEYROT[..8]) && t == if second then 120 else 0
      requires start + 8 <= rounds
      requires forall i | 0 <= i < 8 ::
                 RowOf(keysched, start + i) == WordsOf(ChunkOf(key, n), keyrot[i], t + i * PASSES)
      ensures forall r | start <= r < start + 8 :: RowSet(key, r)
    {
      hide WordsOf, ChunkOf, RowSet, RowOf;
      forall r | start <= r < start + 8
        ensures RowSet(key, r)
      {
        var i := r - start;
        assert RowOf(keysched, start + i) == WordsOf(ChunkOf(key, n), keyrot[i], t + i * PASSES);
        HalfRow(key, n, second, start, keyrot[i], t + i * PASSES, i, r);
      }
    }

    /** The first or second half of the subkeys of chunk n goes into eight rows from row start. */
    method BuildHalf(kb: array<bv16>, start: nat, second: bool, ghost key: seq<bv8>, ghost n: nat, ghost t: nat)
      requires Shaped() && |key| == 8 * SizeOf(level) && HalfStarts(n, second, start) && kb.Length == 4
      requires t == (if second then 120 else 0) && InPass(ChunkOf(key, n), kb[..], t, 0, 0)
      modifies kb, keysched
      ensures InPass(ChunkOf(key, n), kb[..], t + 8 * PASSES, 0, 0)
      ensures start + 8 <= rounds && forall r | start <= r < start + 8 :: RowSet(key, r)
      ensures forall r | 0 <= r < rounds && !(start <= r < start + 8) :: Row(r) == old(Row(r))
    {
      var keyrot := if second then KEYROT[8..] else KEYROT[..8];
      ScheduleBuild(kb, keysched, start, keyrot, ChunkOf(key, n), t);
      HalfSet(key, n, second, start, keyrot, t);
    }

    /** One pass of the loop over chunks, above level 0: chunk n fills two ranges of eight rows. */
    method BuildChunk(key: array<bv8>, n: nat, ghost bytes: seq<bv8>)
      requires Shaped() && level >= 1 && n < size && |bytes| == 8 * SizeOf(level) <= key.Length
      requires key[..|bytes|] == bytes
      modifies keysched
      ensures 8 * n + 8 <= rounds - 8 - 8 * n
      ensures forall r | 8 * n <= r < 8 * n + 8 :: RowSet(bytes, r)
      ensures forall r | rounds - 8 - 8 * n <= r < rounds - 8 * n :: RowSet(bytes, r)
      ensures forall r | 0 <= r < rounds && (r < 8 * n || 8 * n + 8 <= r < rounds - 8 - 8 * n || rounds - 8 * n <= r) ::
                Row(r) == old(Row(r))
    {
      var kb := LoadChunk(key, n, bytes);
      // A variable for the number of steps: with 0 itself the verifier unrolls StepN.
      ghost var t: nat :| t == 0;
      StartsAt(ChunkOf(bytes, n), kb[..], t);
      var start, end := n * 8, rounds - 8 - n * 8;
      BuildHalf(kb, start, false, bytes, n, t);
      label first:
      BuildHalf(kb, end, true, bytes, n, t + 8 * PASSES);
      forall r | start <= r < start + 8
        ensures RowSet(bytes, r)
      {
        assert old@first(RowSet(bytes, r));
        SameRow(old@first(Row(r)), Row(r), level, bytes, r);
      }
    }

    lemma {:induction false} CollectRows(key: seq<bv8>, n: nat) returns (ks: seq<Subkey>)
      requires |key| == 8 * SizeOf(level) && n <= RoundsOf(level)
      requires keysched.Length0 == RoundsOf(level) && keysched.Length1 == 3
      requires forall r | 0 <= r < n :: RowSet(key, r)
      ensures |ks| == n && forall r | 0 <= r < n :: Row(r) == ks[r] && IsRow(ks[r], level, key, r)
    {
      if n == 0 {
        ks := [];
      } else {
        ks := CollectRows(key, n - 1);
        assert RowSet(key, n - 1);
        ks := ks + [Row(n - 1)];
      }
    }

    /** Sets the key schedule; the rows written, once each, are the schedule of the key's first KeySize bytes. */
    method Set(key: array<bv8>) returns (ghost ks: seq<Subkey>)
      requires Valid() && key.Length >= 8 * SizeOf(level)
      modifies keysched
      ensures Valid() && Holds(ks) && IsSchedule(ks, level, key[..8 * SizeOf(level)])
    {
      ghost var bytes := key[..8 * SizeOf(level)];
      if rounds == 8 {
        var kb := LoadChunk(key, 0, bytes);
        // A variable for the number of steps: with 0 itself the verifier unrolls StepN.
        ghost var t: nat :| t == 0;
        StartsAt(ChunkOf(bytes, 0), kb[..], t);
        BuildHalf(kb, 0, false, bytes, 0, t);
      } else {
        for i := 0 to size
          invariant key[..|bytes|] == bytes
          invariant forall r | 0 <= r < rounds && (r < 8 * i || r >= rounds - 8 * i) :: RowSet(bytes, r)
        {
          label before:
          BuildChunk(key, i, bytes);
          forall r | 0 <= r < rounds && (r < 8 * i || r >= rounds - 8 * i)
            ensures RowSet(bytes, r)
          {
            assert old@before(RowSet(bytes, r));
            SameRow(old@before(Row(r)), Row(r), level, bytes, r);
          }
        }
      }
      ks := CollectRows(bytes, rounds);
    }
  }

  lemma SameRow(sk: SubkeyWords, sk': SubkeyWords, level: int, key: seq<bv8>, r: nat)
    requires |key| == 8 * SizeOf(level) && r < RoundsOf(level) && sk == sk' && IsRow(sk, level, key, r)
    ensures IsRow(sk', level, key, r)
  {
  }

  lemma StartsAt(c: Chunk, kb: seq<bv16>, t: nat)
    requires kb == c && t == 0
    ensures InPass(c, kb, t, 0, 0)
  {
  }

  // ----- what callers rely on -----

  /** A key has one schedule, so any two objects of one level set with the same key agree. */
  lemma ScheduleUnique(ks: seq<Subkey>, ks': seq<Subkey>, level: int, key: seq<bv8>)
    requires |key| == 8 * SizeOf(level) && IsSchedule(ks, level, key) && IsSchedule(ks', level, key)
    ensures ks == ks'
  {
    forall r | 0 <= r < |ks|
      ensures ks[r] == ks'[r]
    {
      assert IsRow(ks[r], level, key, r) && IsRow(ks'[r], level, key, r);
    }
  }

  lemma SameOutside(before: seq<bv8>, after: seq<bv8>, at: nat)
    requires |before| == |after| && at + 8 <= |before| && after[at..at + 8] == before[at..at + 8]
    requires forall j | 0 <= j < |before| && !(at <= j < at + 8) :: after[j] == before[j]
    ensures after == before
  {
    assert forall j | at <= j < at + 8 ::
        after[j] == after[at..at + 8][j - at] && before[j] == before[at..at + 8][j - at];
  }

  /** Encrypting a block in place and decrypting it in place leaves the whole buffer as it was ... */
  method EncryptThenDecrypt(k: IceKey, buf: array<bv8>, at: nat, ghost ks: seq<Subkey>)
    requires k.Valid() && k.Holds(ks) && at + 8 <= buf.Length
    modifies buf
    ensures buf[..] == old(buf[..])
  {
    ghost var block := buf[at..at + 8];
    k.Encrypt(buf, at, buf, at, ks);
    k.Decrypt(buf, at, buf, at, ks);
    DecryptUndoesEncrypt(IceRound, block, ks);
    SameOutside(old(buf[..]), buf[..], at);
  }

  /** ... at every level, with every key, wherever the block lies. */
  method SetAndRoundTrip(k: IceKey, key: array<bv8>, buf: array<bv8>, at: nat)
    requires k.Valid() && key.Length >= 8 * SizeOf(k.level) && at + 8 <= buf.Length
    modifies k.keysched, buf
    ensures buf[..] == old(buf[..])
  {
    ghost var ks := k.Set(key);
    EncryptThenDecrypt(k, buf, at, ks);
  }
}
