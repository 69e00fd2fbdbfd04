# ICE key and pose debugger: a verified model

Two components are modelled.

**The ICE block cipher** (`mathlib/IceKey.cpp`). A key object of level *n* has a schedule of 8 rounds (n < 1) or 16·n
rounds. Setting a key runs four 16-bit registers that rotate and invert, and shifts their low bits into 20-bit subkey
words. A block of eight bytes is encrypted in a Feistel network whose round function is four look-ups in shared tables;
the tables are filled once from 8-bit Galois field powers and a bit permutation. What is proved: the field loop computes
the product of polynomials over GF(2) modulo m; the S-box rows and the P-box are permutations; the look-ups compute the
round function as it is defined; the nested schedule loops have a one-line closed form, from which follow the width of
the subkey words, which bit of which key byte every subkey bit is, and that a schedule determines its key; decryption undoes encryption in the
caller's buffer and touches nothing else; no sequence of operations on other key objects, destruction included, changes
what a key computes; and with a 64-bit `unsigned long` the tables, the round function, the subkey words, the halves in
every round and the bytes of every block are the same.

**The layer tracker of the pose debugger** (`public/posedebugger.cpp`). For every model it merges the list of layers of
the last frame with the calls of this frame: a call finds the next entry about the same layer again and continues its
age, entries passed over fade out, and a closing call deals with the rest. `StartBlending` closes the model before and,
when a model comes round again, makes the lists of this frame those of the last. What is proved: a frame deals with
every old entry and every call exactly once and in order; every call finds its entry exactly if the calls are a
subsequence of the live entries; a layer kept in every frame is as old as the frame times since it appeared; a layer
not seen again stays exactly as long as its fade-out time; every run keeps all models but the last one closed; in every
run over two or more models each model's list goes through its own merges as if it were alone; and in a run over a
single model, which the source never closes, the list is what the calls dealt with, with the exact condition under which
nothing is lost.

## How the model is built

- Machine words are bit-vectors: `bv32` for `unsigned int` and `unsigned long`, `bv16` for `unsigned short`, `bv8` for
  bytes. `Words` relates a word to the set of positions of its 1 bits, and `Gf2Polynomials` reads such a set as a
  polynomial over GF(2). `WideWords` and `WideCipher` repeat tables, round function, subkey words and byte packing on
  `bv64`; the Galois field functions use `unsigned int`, 32 bits on both.
- Code that works in place is a method on arrays or on a class; each is proved against a function on values, and the
  properties are lemmas about those functions. Ghost parameters (the chunk c and the step count t of the schedule
  builder, the subkeys ks of an encryption) name the values the contract speaks of.
- Names compared with `stricmp` are equal when their ASCII lower-case forms are. Times are real numbers. Frame time and
  fade-out time are parameters of each call, because the closing call of the model blended last happens in the next
  frame and uses that frame's time.
- A `CUtlMap` of lists held by value is a map to list objects that are all different. `PoseDebuggerImpl.state` is the
  ghost value of the whole object; `Valid` ties it to the fields.

| file | contents |
|---|---|
| `Gf2Polynomials.dfy`, `Words.dfy`, `BytesInWords.dfy` | polynomials over GF(2), words as sets of bit positions, bytes in words |
| `GaloisField.dfy`, `SBoxes.dfy`, `PBox.dfy` | field arithmetic, S-boxes, bit permutation |
| `RoundFunction.dfy`, `RoundBits.dfy`, `Feistel.dfy` | round function and shared tables, both bit by bit, the network and its inverse |
| `KeySchedule.dfy`, `KeyMaterial.dfy` | schedule loops and closed form, what a schedule reveals |
| `IceKey.dfy`, `KeysTogether.dfy` | the key object, key objects side by side |
| `WideWords.dfy`, `WideCipher.dfy` | 64-bit words |
| `Collections.dfy`, `InfoTexts.dfy` | sequence vocabulary, one list and one call |
| `FrameMerge.dfy`, `FrameRuns.dfy` | one frame of one list, any number of frames |
| `PoseTracker.dfy`, `PoseDebugger.dfy` | all models as a state machine, the object |
| `PoseFrames.dfy`, `PoseSolo.dfy`, `PoseOrigins.dfy` | whole runs over several models, over one, and where entries come from |

## Model

| member | source | states |
|---|---|---|
| `GaloisField.GfMult` | mathlib/IceKey.cpp:61-81 | The shift-and-add loop returns, for a below 256, b of any size and m in [256, 512), a byte congruent to the polynomial product of a and b modulo m. |
| `GaloisField.ProductUnique` | mathlib/IceKey.cpp:61-81 | That congruence pins the result down: a byte is the product exactly if it is what the loop returns. |
| `GaloisField.GfExp7` | mathlib/IceKey.cpp:89-103 | The result is a byte congruent to the seventh power of the base modulo m, 0 included. |
| `GaloisField.Power7IsSeventhPower` | mathlib/IceKey.cpp:89-103 | The four products of the code make the seventh power, for every byte and every modulus of degree 8. |
| `SBoxes.EveryModulusSplits` | mathlib/IceKey.cpp:25-29 | Each of the sixteen moduli divides x^256 - x, irreducible or not. |
| `SBoxes.Constants` | mathlib/IceKey.cpp:25-36 | The moduli and masks of the sixteen rows. |
| `SBoxes.Power511` | mathlib/IceKey.cpp:25-29 | Modulo such a modulus the 511th power of any polynomial is the polynomial itself, so the seventh power has an inverse (7 times 73 is 511). |
| `SBoxes.SBoxPermutes` | mathlib/IceKey.cpp:25-36 | Every row of every S-box maps bytes to bytes and has a left inverse. |
| `SBoxes.SBoxReachesEveryByte` | mathlib/IceKey.cpp:25-36 | The left inverse is a right inverse too, so every row of every S-box is a permutation of the bytes. |
| `PBox.IcePerm32` | mathlib/IceKey.cpp:110-125 | The loop stays inside the 32 entries of the table, ends, and puts bit Origin(k) of the argument at k and nothing else. |
| `PBox.Perm32At` | mathlib/IceKey.cpp:39-47 | Bit k of the permuted word is bit Origin(k) of the word, for every word. |
| `PBox.Perm32Or` | mathlib/IceKey.cpp:110-125 | The permutation distributes over OR. |
| `PBox.Perm32Xor` | mathlib/IceKey.cpp:110-125 | The permutation distributes over XOR. |
| `PBox.Perm32Injective` | mathlib/IceKey.cpp:39-47 | Words with the same permutation are equal. |
| `PBox.Perm32Surjective` | mathlib/IceKey.cpp:39-47 | Every word is the permutation of a word. |
| `RoundFunction.MakeEntry` | mathlib/IceKey.cpp:138-153 | Row, column, power and permutation of the code give the permuted S-box byte in its lane. |
| `RoundFunction.SharedTables.IceSBoxesInit` | mathlib/IceKey.cpp:133-155 | After the loop all 4096 entries of the four tables are their definition. |
| `RoundBits.RowAndColumn` | mathlib/IceKey.cpp:139-140 | For every index i the row is 2 (i / 512) + i mod 2 and the column i / 2 mod 256. |
| `RoundBits.FilledAt` | mathlib/IceKey.cpp:138-153 | In filled tables entry 512 a + 2 c + b of table k is the permuted S-box byte of row 2 a + b and column c, in lane k. |
| `RoundBits.EveryIndex` | mathlib/IceKey.cpp:138-140 | Every index is of that form. |
| `RoundFunction.LookupsNeverCollide` | mathlib/IceKey.cpp:143-153 | Entries of different tables share no bit, so the ORs of the round function never collide. |
| `RoundFunction.ExpandIsCode` | mathlib/IceKey.cpp:211-215 | The shifts and masks of the code cut out the four overlapping groups of ten bits. |
| `RoundFunction.SwapLeft` | mathlib/IceKey.cpp:217-222 | The XOR form of the salt swap of the left half equals the AND/OR form the file comments out. |
| `RoundFunction.SwapRight` | mathlib/IceKey.cpp:217-222 | The same for the right half. |
| `RoundFunction.KeyedFits` | mathlib/IceKey.cpp:224-229 | With 20-bit subkey words both halves stay below 2^20, so every table index is below 1024. |
| `RoundBits.ExpandGroups` | mathlib/IceKey.cpp:211-229 | The four ten-bit groups that index the tables are the lowest ten bits of the half rotated right by 24, 16, 8 and 0. |
| `RoundBits.KeyedAt` | mathlib/IceKey.cpp:217-225 | Bit i of a keyed half is that bit of its own half of the expansion, of the other where the salt has a 1, changed where its own subkey word has a 1. |
| `RoundBits.LaneBits` | mathlib/IceKey.cpp:143-153 | Lane k holds the byte at bits 24 - 8 k and up and nothing else. |
| `RoundBits.OutputBit` | mathlib/IceKey.cpp:203-230 | Bit k of the round function is bit o mod 8 of S-box 3 - o / 8 on its group, o being where the P-box takes bit k from. |
| `RoundFunction.IceFIsF` | mathlib/IceKey.cpp:203-230 | Four look-ups in filled tables equal the P-box applied to the four S-box bytes of the salted, keyed expansion, for every half and every 20-bit subkey. |
| `Feistel.TwoRounds` | mathlib/IceKey.cpp:253-256 | One pass of the loop is two textbook rounds without moving the halves. |
| `Feistel.ReversedScheduleInverts` | mathlib/IceKey.cpp:253-256 | The network with the schedule reversed undoes the network, for every round function, every pair of words and every schedule. |
| `Feistel.DecryptUndoesEncrypt` | mathlib/IceKey.cpp:246-299 | On blocks of bytes, the half swap and the big-endian packing included, decryption undoes encryption. |
| `Feistel.EncryptUndoesDecrypt` | mathlib/IceKey.cpp:246-299 | Encryption undoes decryption, so both are bijections on blocks. |
| `Feistel.JoinNumber` | mathlib/IceKey.cpp:246-251 | Four bytes joined are the big-endian number of them. |
| `Feistel.BlockNumbers` | mathlib/IceKey.cpp:246-264 | A block is two big-endian numbers, left half first, and after the rounds the right half is written first, big-endian too. |
| `Feistel.Store` | mathlib/IceKey.cpp:258-264 | The loop that shifts bytes out writes the two words most significant byte first, at eight places and no others. |
| `KeySchedule.TakeBit` | mathlib/IceKey.cpp:327-331 | Reading a register gives its low bit and rotates it with that bit inverted; the other registers stay. |
| `KeySchedule.ShiftIn` | mathlib/IceKey.cpp:326-332 | The innermost loop shifts the low bit of each register into one word of a row, in the order of the rotation, and steps every register once. |
| `KeySchedule.BuildSubkey` | mathlib/IceKey.cpp:319-333 | Fifteen passes fill the three words of one row and change no other row. |
| `KeySchedule.ScheduleBuild` | mathlib/IceKey.cpp:307-336 | For any rotations and any earlier steps, eight rows are the words of the closed form, the registers are 120 steps further and no other row changes. |
| `KeySchedule.StepNIsLater` | mathlib/IceKey.cpp:327-331 | After t steps a register holds bits t to t + 15 of its own bits repeated, inverted every other time round. |
| `KeySchedule.ClosedForm` | mathlib/IceKey.cpp:315-335 | Bit 19 - (4 (j / 3) + k) of word j mod 3 is bit (t + j) mod 16 of register (rotation + k) mod 4, inverted exactly when (t + j) / 16 is odd, for any four words, rotation and start t. |
| `KeySchedule.WordFits` | mathlib/IceKey.cpp:319-333 | Every subkey word is below 2^20. |
| `KeySchedule.TwoCallsComplement` | mathlib/IceKey.cpp:359-368 | After the two calls on one chunk, 240 steps, each register is the bitwise complement of its start. |
| `KeyMaterial.OneKeyBit` | mathlib/IceKey.cpp:359-368 | Flipping one key bit flips exactly one bit of subkey i, at a place that does not depend on the key, except in round 15 - b where it flips none. |
| `KeyMaterial.TwoSubkeysDetermineChunk` | mathlib/IceKey.cpp:359-368 | Any two of the sixteen subkeys of a chunk determine its 64 bits. |
| `KeyMaterial.ScheduleDeterminesKey` | mathlib/IceKey.cpp:343-369 | At every level, keys with the same schedule are equal. |
| `KeyMaterial.PairBits` | mathlib/IceKey.cpp:352-353 | A pair of key bytes is big-endian: the low eight bits of a register are the second byte. |
| `KeyMaterial.ChunkBits` | mathlib/IceKey.cpp:363-364 | Bit b of register m of chunk n is bit b mod 8 of key byte 8 n + 7 - 2 m - b / 8. |
| `KeyMaterial.ScheduleBit` | mathlib/IceKey.cpp:307-369 | From key bytes to subkeys: every bit of every word of every round of every schedule is one named bit of one named byte of the key, inverted exactly when (15 i + j) / 16 is odd. |
| `KeyMaterial.Rotations` | mathlib/IceKey.cpp:50-52 | The sixteen rotations. |
| `KeyMaterial.EveryRoundOnce` | mathlib/IceKey.cpp:349-368 | The ranges of rows written partition the rounds: each round is one subkey of one chunk, the second half in reverse order of chunks. |
| `KeyMaterial.OwnerInRange` | mathlib/IceKey.cpp:349-368 | Every round of every level, the eight rounds below level 1 included, belongs to one of the chunks. |
| `IceKeys.IceKey.constructor` | mathlib/IceKey.cpp:162-178 | Size and rounds for every level, below 1 included; tables already filled keep every entry. |
| `IceKeys.IceKey.KeySize` | mathlib/IceKey.cpp:376-380 | The key size is 8 bytes per chunk: 8 below level 1, 8 n at level n. |
| `IceKeys.IceKey.LoadChunk` | mathlib/IceKey.cpp:352-364 | The four registers are the big-endian byte pairs of the chunk, last pair first. |
| `IceKeys.IceKey.BuildChunk` | mathlib/IceKey.cpp:359-368 | A chunk fills its two ranges of eight rows, which do not overlap, and no other row. |
| `IceKeys.IceKey.Set` | mathlib/IceKey.cpp:343-369 | Setting a key leaves the schedule of the key, every row of it, at every level, and nothing but the schedule changes. |
| `IceKeys.ScheduleUnique` | mathlib/IceKey.cpp:343-369 | A key has one schedule at each level. |
| `IceKeys.IceKey.EncryptRounds` | mathlib/IceKey.cpp:253-256 | The loop runs the textbook rounds of the schedule with the round function as defined, not as looked up. |
| `IceKeys.IceKey.DecryptRounds` | mathlib/IceKey.cpp:288-291 | The loop runs the textbook rounds of the reversed schedule. |
| `IceKeys.IceKey.Encrypt` | mathlib/IceKey.cpp:237-265 | Eight bytes of output are the encrypted block, also in place or overlapping, and no other byte changes. |
| `IceKeys.IceKey.Decrypt` | mathlib/IceKey.cpp:272-300 | Decrypting is encrypting with the reversed schedule, also in place or overlapping, and no other byte changes. |
| `IceKeys.EncryptThenDecrypt` | mathlib/IceKey.cpp:237-300 | Encrypting and decrypting in place leaves the whole buffer as it was. |
| `IceKeys.SetAndRoundTrip` | mathlib/IceKey.cpp:237-369 | The same after setting any key at any level. |
| `IceKeys.IceKey.Destroy` | mathlib/IceKey.cpp:185-196 | Every word of the schedule is zeroed and size and rounds are 0. |
| `KeysTogether.PerformAll` | mathlib/IceKey.cpp:162-196 | Any sequence of making, keying and destroying other key objects, of any length and any levels, leaves a key object valid and its schedule as it was. |
| `KeysTogether.OtherKeysDoNotInterfere` | mathlib/IceKey.cpp:162-369 | With any such sequences before a key is set, after it and between its uses, the key encrypts and decrypts by the one schedule of its key. |
| `WideWords.WidenHalves` | mathlib/IceKey.cpp:211-226 | With 64-bit words expansion, salt swap and key addition give the same table indices. |
| `WideWords.WidthDoesNotMatter` | mathlib/IceKey.cpp:253-256 | For any wide round function that agrees with a narrow one below 2^32, the loop on 64-bit words gives the 32-bit halves; WidenRounds uses it with the round function of the cipher. |
| `WideCipher.WidenPerm32` | mathlib/IceKey.cpp:110-125 | On 64-bit words the bit permutation of a word below 2^32 is the same word. |
| `WideCipher.WidenEntry` | mathlib/IceKey.cpp:138-153 | Shift and permutation on 64-bit words fill the tables with the same entries. |
| `WideCipher.WideHalvesFit` | mathlib/IceKey.cpp:211-229 | For every 64-bit half and every 20-bit subkey the table indices are below 1024. |
| `WideCipher.WidenF` | mathlib/IceKey.cpp:203-230 | The whole round function on 64-bit words, table look-ups included, gives the same word. |
| `WideCipher.WidenWord` | mathlib/IceKey.cpp:326-332 | The subkey words shifted together in 64-bit words are the same: nothing is shifted past bit 19. |
| `WideCipher.WidenRounds` | mathlib/IceKey.cpp:253-256 | With 64-bit words and the round function of the cipher both halves stay below 2^32 after any even number of rounds and equal the 32-bit halves. |
| `WideCipher.WideBlocksAreTheSame` | mathlib/IceKey.cpp:246-264 | With 64-bit words, reading and writing of bytes included, every block and every schedule of even length give the same eight bytes. |
| `InfoTexts.Find` | public/posedebugger.cpp:151-162 | The search gives the first live entry about the same layer from the cursor on, or the end. |
| `InfoTexts.MatchesMeans` | public/posedebugger.cpp:154-157 | A match is a live entry with the same number whose activity name and label agree letter by letter up to ASCII case. |
| `InfoTexts.LinesOfOneMore` | public/posedebugger.cpp:290-301 | An entry takes one console line and one for each further line it has. |
| `InfoTexts.ModelPoseDebugInfo.AddInfoText` | public/posedebugger.cpp:134-219 | What one call, or the closing call, appends to this list and does to the old list and its cursor, in every case: no old list, found, not found, closing. |
| `InfoTexts.ModelPoseDebugInfo.FinishTexts` | public/posedebugger.cpp:195-210 | The loop over entries passed over changes flags and times of that range only and copies those with time left, in order. |
| `InfoTexts.ModelPoseDebugInfo.LookupInfoText` | public/posedebugger.cpp:221-239 | The look-up returns the entry a call would find again, or none. |
| `InfoTexts.ModelPoseDebugInfo.PrintPendingInfoText` | public/posedebugger.cpp:241-305 | The cursor ends at the end of the list and the console line moves by the lines of the entries not shown before. |
| `FrameMerge.CallsMerge` | public/posedebugger.cpp:134-219 | Call after call, the new list is what the events of the merge leave, in their order. |
| `FrameMerge.FrameMerges` | public/posedebugger.cpp:134-219 | The calls and the closing call together perform the merge, and the cursor of the old list is at its end. |
| `FrameMerge.FrameInOrder` | public/posedebugger.cpp:168-210 | Conservation and order: the events of a frame deal with old entries 0, 1, 2, ... and with calls 0, 1, 2, ..., each exactly once. |
| `FrameMerge.NewLength` | public/posedebugger.cpp:195-218 | The new list has one entry for each call and one for each old entry passed over that has time left. |
| `FrameMerge.FrameAges` | public/posedebugger.cpp:195-206 | In the old list each entry passed over has had its time shortened exactly once and each entry found is untouched. |
| `FrameMerge.NothingLeft` | public/posedebugger.cpp:164-183 | At the end of the old list a second closing call changes nothing and a call finds nothing. |
| `FrameMerge.NoOldList` | public/posedebugger.cpp:143-211 | Without an old list a call does what it does against an empty one. |
| `FrameMerge.LiveDuring` | public/posedebugger.cpp:134-219 | At any point of a frame the live entries of the new list are those of the calls so far, in call order. |
| `FrameMerge.LiveAfter` | public/posedebugger.cpp:134-219 | The same for the closed frame. |
| `FrameMerge.EnteredIs` | public/posedebugger.cpp:136-218 | A call's entry is live, has the fade-out time to live, was seen last frame exactly if it was found again, has the age found and the frame time or its own, and says what the call says. |
| `FrameMerge.LiveTimeToLive` | public/posedebugger.cpp:213-218 | Every live entry after a frame has the fade-out time of one of the frame's calls to live. |
| `FrameMerge.GreedyIsEarliest` | public/posedebugger.cpp:144-193 | The search finds every call's entry no later than any other increasing choice of matching entries. |
| `FrameMerge.AllFoundIffEmbedded` | public/posedebugger.cpp:144-193 | Every call finds an entry again if and only if the calls are a subsequence of the live old entries. |
| `FrameMerge.LookupFindsIt` | public/posedebugger.cpp:221-239 | Just before a call, the look-up returns the very entry the call continues, with its times as they were. |
| `FrameMerge.CompleteMatch` | public/posedebugger.cpp:144-193 | Then every layer is marked as seen last frame and its age is the old age and the frame time. |
| `FrameRuns.OrderKept` | public/posedebugger.cpp:134-219 | What two old entries leave, successor or fading copy, stands in the order of the old list. |
| `FrameRuns.EveryEntryHasSource` | public/posedebugger.cpp:134-219 | Every entry of the new list is what an event of the frame, a call's or an old entry's, leaves at that place. |
| `FrameRuns.NeverFoundAgain` | public/posedebugger.cpp:154 | An entry that is not live is never found again, in any frame. |
| `FrameRuns.Lifetime` | public/posedebugger.cpp:195-210 | Over any number of closed frames, a layer not found again is in the list exactly if the frame times at which it was dealt with never added up to more than its time to live; its times are shortened and lengthened by their sum. |
| `FrameRuns.LifetimeByPlace` | public/posedebugger.cpp:168-210 | The same with the times named: an entry before the place the calls reached is dealt with at the time of the calls, one from there on at the time of the closing call. |
| `FrameRuns.GhostLifetime` | public/posedebugger.cpp:195-210 | With frame times not negative: exactly while their sum is at most the time to live. |
| `FrameRuns.FindsItsOwn` | public/posedebugger.cpp:144-193 | If the calls are about the live layers in order, call i finds live layer i, also when layers repeat. |
| `FrameRuns.SteadyAges` | public/posedebugger.cpp:154-192 | With the same calls in every frame, a layer's age is its age in the first frame and the frame times since. |
| `PoseTracker.FlagsKept` | public/posedebugger.cpp:136-217 | No call stores an entry of neither frame. |
| `PoseTracker.ApplyKeeps` | public/posedebugger.cpp:389-598 | Every operation keeps the invariant: all models but the last are closed, all lists are shown to their ends, no entry is of neither frame. |
| `PoseTracker.EveryRunKeeps` | public/posedebugger.cpp:389-598 | Every state of every run, in any order of operations and with any models shown or hidden, satisfies that invariant. |
| `PoseTracker.SwitchCloses` | public/posedebugger.cpp:395-412 | Leaving a model closes it; after that only the model begun can be open, and only if it was also the last. |
| `PoseTracker.SwapFindsAllClosed` | public/posedebugger.cpp:395-452 | In every run, a swap finds every model closed if and only if it does not restart the model left open; then all cursors of the old lists are 0, the lists are kept and only the new model has a list. |
| `PoseTracker.RestartSkipsClosing` | public/posedebugger.cpp:396 | A run with a single model in which a layer is swapped out without ever having been dealt with. |
| `PoseTracker.ShownAgeGoesOn` | public/posedebugger.cpp:539-597 | The age shown with a layer is the age its entry goes on from. |
| `PoseTracker.NothingFoundShowsZero` | public/posedebugger.cpp:539-547 | When no old entry matches, the age shown is 0. |
| `PoseTracker.ShowAllIs` | public/posedebugger.cpp:368-371 | Every entity below 2048 is shown afterwards, or none. |
| `PoseTracker.ShowOneIs` | public/posedebugger.cpp:373-378 | The entity is shown or hidden as asked for, every other stays as it was, and no list changes. |
| `PoseTracker.BeginCases` | public/posedebugger.cpp:412-461 | A start without include models or for a hidden entity only leaves the model before; another model joins with an empty list; one seen again begins a frame at the first lines. |
| `PoseTracker.NoteCases` | public/posedebugger.cpp:464-598 | A layer without include models, without a list or of a hidden entity changes nothing; any other is the new last entry of its list, live, with the fade-out time, and says what the layer says. |
| `PoseOrigins.EveryListWasStarted` | public/posedebugger.cpp:414-452 | In every run every list was begun by a start of its model, with include models, for an entity shown at the time. |
| `PoseOrigins.EveryEntryWasNoted` | public/posedebugger.cpp:464-598 | In every run every entry, live or fading, shows a layer noted for its model while the model's entity was shown. |
| `PoseFrames.ActivityCarries` | public/posedebugger.cpp:523-536 | A layer without an activity takes that of the nearest layer before it in the frame that has one, whatever the last frame held. |
| `PoseFrames.SwitchMerges` | public/posedebugger.cpp:395-412 | Going on to another model leaves the list of this one as its merge and touches no other model. |
| `PoseFrames.NextFrameBegins` | public/posedebugger.cpp:425-452 | Coming back to the first model makes every model's merge its list of the last frame. |
| `PoseFrames.EachModelMergesAlone` | public/posedebugger.cpp:389-598 | In every run over two or more shown models, once each per frame in a fixed order, with any layers, each model's list of the last frame is what its own merges made of nothing. |
| `PoseFrames.EverySwapFindsAllClosed` | public/posedebugger.cpp:395-443 | In such a run every model has been closed when the maps are swapped, and every cursor of the old lists is 0 afterwards. |
| `PoseFrames.LayersAge` | public/posedebugger.cpp:389-598 | In such a run every layer a model keeps is as old as the frame times since the first frame. |
| `PoseFrames.LayersFade` | public/posedebugger.cpp:195-210 | In such a run a layer of any model that is not found again is still listed n frames later exactly if the times at which it was dealt with add up to its time to live at most: the frame time of each frame, or of the next frame where a layer of the last model lies beyond the place its calls reached. |
| `PoseFrames.CalledLayersFade` | public/posedebugger.cpp:195-218 | So a layer called in frame k - 1 and not found again in frame k stays exactly while those times add up to the fade-out time of frame k - 1 at most. |
| `PoseFrames.FadeTimesAreFrameTimes` | public/posedebugger.cpp:195-210 | For a model not blended last those times are simply the frame times since. |
| `PoseSolo.ReachesEnd` | public/posedebugger.cpp:170-187 | The calls of a frame reach the end of the old list exactly if it is empty or its last entry is found again. |
| `PoseSolo.RestartFindsClosed` | public/posedebugger.cpp:396 | Restarting the model left open loses nothing exactly if its old list was empty or its last entry was found again. |
| `PoseSolo.SoloNeverCloses` | public/posedebugger.cpp:389-462 | In every run over a single shown model the list of the last frame is what its calls dealt with, frame after frame, without any closing call. |
| `PoseDebugger.PoseDebuggerImpl.constructor` | public/posedebugger.cpp:354-361 | No lists, no last model, every entity shown. |
| `PoseDebugger.PoseDebuggerImpl.ShowAllModels` | public/posedebugger.cpp:368-371 | The object follows the state machine. |
| `PoseDebugger.PoseDebuggerImpl.ShowModel` | public/posedebugger.cpp:373-378 | The object follows the state machine, entities out of range left alone. |
| `PoseDebugger.PoseDebuggerImpl.StartBlending` | public/posedebugger.cpp:389-462 | The object with its two maps of list objects follows the state machine, early returns included. |
| `PoseDebugger.PoseDebuggerImpl.AccumulatePose` | public/posedebugger.cpp:464-598 | The object follows the state machine and gives the age shown with the layer. |
| `PoseDebugger.Rewind` | public/posedebugger.cpp:435-442 | The loop over the old map sets every cursor to 0 and changes nothing else. |

## Left out

- IceKeys.IceKey.Destroy: does not model the freeing of the schedule. `blockSize`, a constant, is left out.
- IceKeys.IceKey.constructor: does not model overflow of n * 16.
- IceKeys.IceKey.Encrypt: needs a schedule that has been set; encrypting with uninitialised subkeys is not modelled.
- RoundFunction.IceFIsF: the round function is modelled as a function that reads the tables, because it has no loop and no assignment to anything but its own locals.
- KeySchedule.ScheduleBuild: is a free method on the schedule array instead of a member of the key object.
- KeysTogether.PerformAll: an operation that names no object or has too short a key is skipped, since no caller may make it.
- Pointers into buffers are an array and an offset; two pointers into one buffer are the same array with two offsets.
- The tables of moduli, masks, P-box and rotations are constants or functions, not arrays.
- Strength of the cipher, weak keys and side channels: no claims.
- PoseTracker.SwapFindsAllClosed: no conservation is claimed when a single model restarts, since the closing call is skipped there; PoseSolo says what happens instead.
- PoseDebugger.PoseDebuggerImpl.ShowModel: a negative entity number, which the source would write out of range, changes nothing that is ever read.
- PoseDebugger.PoseDebuggerImpl.AccumulatePose: the description of the sequence is a parameter; the reset of a sequence number out of range, the texts of the lines, inverse-kinematics rules and the fixed sizes of the text buffers are not modelled, only how many lines an entry shows.
- InfoTexts.ModelPoseDebugInfo.PrintPendingInfoText: colours and console output.
- Console variables and commands, the stub debugger, rounding of the time fields.
- Names are compared by ASCII lower case; other locales of `stricmp` are not modelled.
