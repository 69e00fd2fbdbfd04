/** Key objects side by side: whatever is done with the others, a key computes the same. */
module KeysTogether {
  import opened RoundFunction
  import opened KeyMaterial
  import opened Feistel
  import opened IceKeys

  /** Making a key object, setting the key of one there is, or destroying it. */
  datatype KeyOp = New(level: int) | SetKey(which: nat, key: array<bv8>) | Destroy(which: nat)

  /** Key objects other than k, on the same tables, each with a schedule of its own that is not k's. */
  ghost predicate Others(k: IceKey, others: seq<IceKey>)
    reads k, others
  {
    && (forall i | 0 <= i < |others| :: others[i] != k && others[i].Shaped() && others[i].tables == k.tables)
    && (forall i | 0 <= i < |others| :: others[i].keysched != k.keysched)
    && forall i, j | 0 <= i < j < |others| :: others[i] != others[j]
  }

  ghost function Schedules(others: seq<IceKey>): set<array2<bv32>>
    reads others
  {
    set o | o in others :: o.keysched
  }

  method Make(k: IceKey, others: seq<IceKey>, level: int, ghost ks: seq<SubkeyWords>) returns (others': seq<IceKey>)
    requires k.Valid() && Others(k, others) && k.Holds(ks)
    modifies k.tables, k.tables.sbox
    ensures k.Valid() && Others(k, others') && k.Holds(ks)
    ensures forall o | o in others' && o !in others :: fresh(o) && fresh(o.keysched)
    ensures forall o | o in others :: o.keysched == old(o.keysched)
  {
    var o := new IceKey(level, k.tables);
    others' := others + [o];
  }

  method Remove(k: IceKey, others: seq<IceKey>, which: nat, ghost ks: seq<SubkeyWords>) returns (others': seq<IceKey>)
    requires k.Valid() && Others(k, others) && k.Holds(ks) && which < |others|
    modifies others[which], others[which].keysched
    ensures k.Valid() && Others(k, others') && k.Holds(ks)
    ensures forall o | o in others' :: o in others
    ensures forall o | o in others :: o.keysched == old(o.keysched)
  {
    others[which].Destroy();
    others' := others[..which] + others[which + 1..];
  }

  method SetOther(k: IceKey, others: seq<IceKey>, which: nat, key: array<bv8>, ghost ks: seq<SubkeyWords>)
    requires k.Valid() && Others(k, others) && k.Holds(ks)
    requires which < |others| && key.Length >= 8 * others[which].size
    modifies others[which].keysched
    ensures k.Valid() && Others(k, others) && k.Holds(ks)
  {
    ghost var other := others[which].Set(key);
  }

  /** Any sequence of such operations, those that name no object or too short a key left out. */
  method PerformAll(k: IceKey, others0: seq<IceKey>, ops: seq<KeyOp>, ghost ks: seq<SubkeyWords>)
    returns (others: seq<IceKey>)
    requires k.Valid() && Others(k, others0) && k.Holds(ks)
    modifies k.tables, k.tables.sbox, others0, Schedules(others0)
    ensures k.Valid() && Others(k, others) && k.Holds(ks)
    ensures forall o | o in others && o !in others0 :: fresh(o)
    ensures fresh(Schedules(others) - old(Schedules(others0)))
  {
    others := others0;
    for i := 0 to |ops|
      invariant k.Valid() && Others(k, others) && k.Holds(ks)
      invariant forall o | o in others && o !in others0 :: fresh(o)
      invariant forall o | o in others :: o.keysched in old(Schedules(others0)) || fresh(o.keysched)
    {
      match ops[i]
      case New(level) =>
        others := Make(k, others, level, ks);
      case SetKey(which, key) =>
        if which < |others| && key.Length >= 8 * others[which].size {
          assert others[which] in others;
          SetOther(k, others, which, key, ks);
        }
      case Destroy(which) =>
        if which < |others| {
          assert others[which] in others;
          others := Remove(k, others, which, ks);
        }
    }
  }

  /** What the schedule of k holds, set or not. */
  ghost function RowsOf(k: IceKey): (rows: seq<SubkeyWords>)
    requires k.keysched.Length1 == 3
    reads k, k.keysched
    ensures k.Holds(rows)
  {
    seq(k.keysched.Length0,
        r requires 0 <= r < k.keysched.Length0 && k.keysched.Length1 == 3 reads k, k.keysched => k.Row(r))
  }

  /** A key object made among any others, and its key set after any operations on them. */
  method MakeAndSet(shared: SharedTables, others0: seq<IceKey>, level: int, key: array<bv8>, ops: seq<KeyOp>)
    returns (k: IceKey, others: seq<IceKey>, ghost ks: seq<Subkey>)
    requires shared.Valid() && key.Length >= 8 * SizeOf(level)
    requires forall i | 0 <= i < |others0| :: others0[i].Shaped() && others0[i].tables == shared
    requires forall i, j | 0 <= i < j < |others0| :: others0[i] != others0[j]
    modifies shared, shared.sbox, others0, Schedules(others0)
    ensures fresh(k) && fresh(k.keysched) && k.tables == shared && k.Valid() && k.Holds(ks) && Others(k, others)
    ensures IsSchedule(ks, level, key[..8 * SizeOf(level)])
    ensures forall o | o in others && o !in others0 :: fresh(o)
    ensures fresh(Schedules(others) - old(Schedules(others0)))
  {
    k := new IceKey(level, shared);
    others := PerformAll(k, others0, ops, RowsOf(k));
    ks := k.Set(key);
  }

  /** Any operations on other key objects, then a block encrypted. */
  method PerformAndEncrypt(k: IceKey, others0: seq<IceKey>, ops: seq<KeyOp>, plain: array<bv8>,
                           ghost ks: seq<Subkey>)
    returns (others: seq<IceKey>, hidden: array<bv8>)
    requires k.Valid() && k.Holds(ks) && Others(k, others0) && plain.Length == 8
    modifies k.tables, k.tables.sbox, others0, Schedules(others0)
    ensures k.Valid() && k.Holds(ks) && Others(k, others)
    ensures forall o | o in others && o !in others0 :: fresh(o)
    ensures fresh(Schedules(others) - old(Schedules(others0)))
    ensures fresh(hidden) && hidden[..] == CryptBlock(IceRound, plain[..], ks)
  {
    hide Others, CryptBlock;
    others := PerformAll(k, others0, ops, ks);
    hidden := new bv8[8];
    k.Encrypt(plain, 0, hidden, 0, ks);
    assert plain[0..8] == plain[..] && hidden[0..8] == hidden[..];
  }

  /** Any operations on other key objects, then a block decrypted. */
  method PerformAndDecrypt(k: IceKey, others0: seq<IceKey>, ops: seq<KeyOp>, hidden: array<bv8>,
                           ghost ks: seq<Subkey>)
    returns (others: seq<IceKey>, shown: array<bv8>)
    requires k.Valid() && k.Holds(ks) && Others(k, others0) && hidden.Length == 8
    modifies k.tables, k.tables.sbox, others0, Schedules(others0)
    ensures k.Valid() && k.Holds(ks) && Others(k, others)
    ensures forall o | o in others && o !in others0 :: fresh(o)
    ensures fresh(Schedules(others) - old(Schedules(others0)))
    ensures fresh(shown) && shown[..] == CryptBlock(IceRound, hidden[..], Reverse(ks))
  {
    hide Others, CryptBlock;
    others := PerformAll(k, others0, ops, ks);
    shown := new bv8[8];
    k.Decrypt(hidden, 0, shown, 0, ks);
    assert hidden[0..8] == hidden[..] && shown[0..8] == shown[..];
  }

  /** With any operations on other key objects before its key is set, after that and between its uses, a key object
      encrypts and decrypts by the one schedule of its key. */
  method OtherKeysDoNotInterfere(shared: SharedTables, others0: seq<IceKey>, level: int, key: array<bv8>,
                                 first: seq<KeyOp>, next: seq<KeyOp>, last: seq<KeyOp>,
                                 plain: array<bv8>, secret: array<bv8>)
    returns (hidden: array<bv8>, shown: array<bv8>, ghost ks: seq<Subkey>)
    requires shared.Valid() && key.Length >= 8 * SizeOf(level) && plain.Length == secret.Length == 8
    requires forall i | 0 <= i < |others0| :: others0[i].Shaped() && others0[i].tables == shared
    requires forall i, j | 0 <= i < j < |others0| :: others0[i] != others0[j]
    modifies shared, shared.sbox, others0, Schedules(others0)
    ensures IsSchedule(ks, level, key[..8 * SizeOf(level)])
    ensures hidden[..] == CryptBlock(IceRound, plain[..], ks)
    ensures shown[..] == CryptBlock(IceRound, secret[..], Reverse(ks))
  {
    hide Others, IsSchedule, CryptBlock;
    var k, others;
    k, others, ks := MakeAndSet(shared, others0, level, key, first);
    assert k.tables == shared && forall i | 0 <= i < |others| :: others[i] in others0 || fresh(others[i]);
    others, hidden := PerformAndEncrypt(k, others, next, plain, ks);
    assert forall i | 0 <= i < |others| :: others[i] in others0 || fresh(others[i]);
    others, shown := PerformAndDecrypt(k, others, last, secret, ks);
  }
}
