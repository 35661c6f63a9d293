# Uniform random number engine of libRmath.js, in Dafny

This project models the uniform pseudo-random engine in `src/lib/rng/rng.ts`,
a TypeScript transliteration of R's `RNG.c`. It covers four parts:

- the generator table, which gives each kind its state length;
- seeding (`RNG_Init`) and state repair (`FixupSeeds`);
- one draw of `unif_rand` for Wichmann-Hill, Marsaglia-MultiCarry,
  Super-Duper and L'Ecuyer-CMRG;
- Knuth's lagged-Fibonacci generator from *The Art of Computer Programming*,
  Vol. 2, 3rd ed., Section 3.6 (`ran_array`, `ran_arr_cycle`, `ran_start`,
  `RNG_Init_KT2`, `KT_next`), and the state loader `PutRNGstate`.

How the model is organised:

- **State.** Every `i_seed` view in the source and Knuth's `ran_x` share one
  625-word buffer (`commonBuffer`, rng.ts:39-40 and 48-97). The model keeps it
  that way:
  - the state of kind k is the first `n_seed` words of the buffer;
  - `ran_x` is its first KK = 100 words;
  - the Knuth-TAOCP cursor `KT_pos` is word 100.

  The batch buffer `ran_arr_buf` is a separate 1009-word array.
- **Class and specification.** The class `Rng.Engine` holds these arrays. Each
  of its methods is proved against a function on an immutable snapshot
  (`EngineSpec.EngineState`), and the lemmas in `EngineProperties` are
  about those functions.
- **Pure parts.** The Knuth recurrences, the per-kind generator steps and the
  name handling are pure functions. They live in the modules `Knuth`,
  `Generators` and `Registry`.
- **Words.** A word is a `uint32` in `[0, 2^32)`. Masks by `2^k - 1` are
  written as `% 2^k`. XOR goes through `bv32`. The sign-extending JavaScript
  operators (`>>`, `<<`, `^` on int32) are written out with `ToInt32`.
- **Time seeds.** `Randomize` seeds from `timeseed()`. The model replaces
  this with a finite stream of time readings (`clock: seq<uint32>`), and each
  re-seeding takes the next reading. Re-seeding on an empty stream fails with
  status `Failed(ClockExhausted)`. With the model's 32-bit seeding, the
  Mersenne-Twister fixup re-seeds every state the seeding writes, so in the
  model that chain of re-seedings ends only when the stream runs out (see
  `EngineProperties.MersenneSeedingNeverSettles`, and "Seed arithmetic" under
  "Left out" for what the source's doubles do instead).
- **Errors.** Where the source throws or logs an error, the model returns a
  status (`Failed(...)`) and leaves the state unchanged. `unif_rand` on a kind
  without a generator returns `None`.
- **Draws.** Draws are exact reals.

Where the code differs from the documented behaviour of R's engine, the model
follows the code. Where a lemma states the difference, it is named:

- Mersenne-Twister, Knuth-TAOCP and Knuth-TAOCP-2002 draws fall through to the
  L'Ecuyer step (rng.ts:282-289) instead of failing.
- The Mersenne-Twister and Knuth fixups re-seed when *some* word is nonzero,
  not when all words are zero (rng.ts:363, 369). See
  `EngineProperties.MersenneSeedingNeverSettles` and
  `EngineProperties.KnuthFixupAlwaysReseeds`.
- The Wichmann-Hill step does not reduce by the moduli (rng.ts:250-252). See
  `Generators.WichmannHillStepLeavesRange`.
- `mod_diff` masks with `MM - 1`, which is arithmetic modulo MM, not modulo
  MM - 1.
- The cursor setter always stores 0 (rng.ts:147), so `KT_next` always returns
  word 0. See `EngineProperties.KtNextRepeats`.
- The two L'Ecuyer checks share their flags (rng.ts:328, 379-390). A bad
  first triple re-seeds twice. See
  `EngineProperties.CmrgOutOfRangeReseedsTwice`. A good first triple sets
  the not-all-zero flag, so an all-zero second triple is kept, although the
  comment at rng.ts:374-375 asks for it to be rejected. See
  `EngineProperties.CmrgZeroSecondHalfKept`. What a successful repair does
  guarantee is stated by `EngineProperties.CmrgRepairBounds`.
- The Marsaglia-MultiCarry step shifts with the sign-extending `>>`
  (rng.ts:262-263), so a word with its top bit set gets a carry 65536 too
  small. See `Generators.MarsagliaStepCarries`.
- The Marsaglia-MultiCarry and Super-Duper numerators are read as signed
  32-bit integers (rng.ts:266, 279), where R reads them unsigned. A negative
  numerator is clamped by `fixup` to its lower constant, which happens for
  about half of all states. See `Generators.MarsagliaClampedDraw` and
  `Generators.SuperDuperClampedDraw`.
- The L'Ecuyer step uses `seeds[1]` in both terms of p1, and computes p2
  from word 2 after word 2 already holds the new p1 (rng.ts:300-312). See
  `Generators.LecuyerComponents`.
- `PutRNGstate` checks the names by prefix (rng.ts:728-734) but selects the
  kind by the exact name (rng.ts:735-736). A proper prefix passes the check
  and selects no kind, so the load ends in the missing-descriptor error. See
  `EngineProperties.LoadPrefixSelectsNothing`.
- The kinds share one buffer instead of owning separate stores.

## Model

| member | source | states |
|---|---|---|
| Words.ToUint32 | src/lib/rng/rng.ts:250-252 | storing a number into a `Uint32Array` keeps it modulo 2^32, and a value already in range is stored unchanged |
| Words.ToInt32 | src/lib/rng/rng.ts:262-263 | the int32 reading of a word, as JavaScript bit operators see it, lies in `[-2^31, 2^31)`, agrees with the word modulo 2^32 and is negative exactly when the top bit is set |
| Words.ToUint32OfToInt32 | src/lib/rng/rng.ts:262-263 | storing the int32 reading of a word back gives the same word |
| Words.LowBit | src/lib/rng/rng.ts:151 | `x & 1` is `x mod 2` |
| Words.HasNonZero | src/lib/rng/rng.ts:363 | the `find(v => !!v)` test is true exactly when some word is nonzero |
| Words.HasNonZeroExtend | src/lib/rng/rng.ts:379-381 | the nonzero flag after looking at one more word is the old flag or that word being nonzero |
| Words.AllBelowExtend | src/lib/rng/rng.ts:379-382 | the range flag after looking at one more word is the old flag and that word being below the bound |
| Registry.FindRow | src/lib/rng/rng.ts:738-740 | `RNGTable.find` returns a row of the table with the requested kind and normal kind, and returns nothing exactly when no row matches both |
| Registry.LookupExact | src/lib/rng/rng.ts:42-99 | a (kind, normal kind) pair has a descriptor exactly when the kind is implemented and the normal kind is Buggy Kinderman-Ramage, and its `n_seed` is the kind's state length |
| Registry.RowIndex | src/lib/rng/rng.ts:42-99 | every implemented kind has a row in the table |
| Registry.TableRows | src/lib/rng/rng.ts:42-99 | every row has an implemented kind, the Buggy Kinderman-Ramage normal kind and that kind's `n_seed` (3, 2, 2, 625, 101, 101, 6) |
| Registry.KindNamed | src/lib/rng/rng.ts:735 | `IRNGType[name]` resolves a name only to the kind that has exactly that name |
| Registry.NormalNamed | src/lib/rng/rng.ts:736 | `IN01Type[name]` resolves a name only to the normal kind that has exactly that name |
| Registry.KindNameRoundTrip | src/lib/rng/rng.ts:735 | looking up a kind's own name gives back that kind, and the name is among the uniform names |
| Registry.NormalNameRoundTrip | src/lib/rng/rng.ts:736 | looking up a normal kind's own name gives back that normal kind |
| Registry.UpperChar | src/lib/rng/rng.ts:722-723 | a lower-case ASCII letter becomes its upper-case letter and every other character is kept |
| Registry.UpperAscii | src/lib/rng/rng.ts:722-723 | upper-casing keeps the length of a name |
| Registry.UpperAsciiKeepsUpperCase | src/lib/rng/rng.ts:726 | upper-casing a name with no lower-case letter leaves it unchanged |
| Registry.UpperAsciiIdempotent | src/lib/rng/rng.ts:722-726 | upper-casing twice is upper-casing once |
| Registry.KindNameUpperCase | src/lib/rng/rng.ts:726 | every uniform kind name is already upper case |
| Registry.NormalNameUpperCase | src/lib/rng/rng.ts:726 | every normal kind name is already upper case |
| Registry.ExactKindNamePassesPrefixTest | src/lib/rng/rng.ts:725-731 | a kind's exact name, upper-cased, passes the `findPartial` prefix test against the uniform names |
| Registry.ExactNormalNamePassesPrefixTest | src/lib/rng/rng.ts:725-734 | a normal kind's exact name passes the prefix test against the normal names |
| Knuth.ModDiff | src/lib/rng/rng.ts:150 | `mod_diff(x, y)` is below MM and is `x - y` modulo MM |
| Knuth.IsOdd | src/lib/rng/rng.ts:151 | `is_odd(x)` holds exactly when the units bit of x is 1 |
| Knuth.LaggedPrefix | src/lib/rng/rng.ts:166-167 | a shorter stream is a prefix of a longer one from the same state |
| Knuth.LaggedRecurrence | src/lib/rng/rng.ts:167 | word j of the stream, for j at least KK, is `mod_diff` of the words KK and LL before it, and is below MM |
| Knuth.StreamContinuity | src/lib/rng/rng.ts:168-169 | the stream from the refreshed state continues the stream of the batch that produced it |
| Knuth.RanArrayRecurrences | src/lib/rng/rng.ts:160-170 | for `n >= KK`, `aa[0..KK)` is the old `ran_x`, `aa[j]` is `mod_diff(aa[j-KK], aa[j-LL])`, the new `ran_x[i]` is `mod_diff(aa[n+i-KK], aa[n+i-LL])` for `i < LL` and `mod_diff(aa[n+i-KK], ran_x[i-LL])` for the others, and every new state word is below MM |
| Knuth.RefreshWord | src/lib/rng/rng.ts:168-169 | each refreshed state word obeys the recurrence of the loop that writes it |
| Knuth.RanArray | src/lib/rng/rng.ts:160-170 | `ran_array(aa, n)` writes the first n words of the stream into `aa`, the next KK words of the stream into `ran_x`, and nothing else |
| Knuth.RefreshState | src/lib/rng/rng.ts:168-169 | the two refresh loops leave the next KK words of the stream in `ran_x` and touch nothing past KK |
| Knuth.CyclicShift | src/lib/rng/rng.ts:198-199 | one cyclic shift keeps the register even and below MM |
| Knuth.ShiftedSeed | src/lib/rng/rng.ts:196-200 | after any number of shifts the register is even and below MM |
| Knuth.InitialShift | src/lib/rng/rng.ts:195 | `(seed + 2) & (MM - 2)` is even, below MM, and is `seed + 2` modulo MM with bit 0 cleared |
| Knuth.BootstrapShape | src/lib/rng/rng.ts:195-201 | after the bootstrap and `x[1]++`, every word is below MM, `x[1]` is the only odd word, and the words from KK on are zero |
| Knuth.Squared | src/lib/rng/rng.ts:203-204 | the "square" step keeps the words below MM |
| Knuth.ReducedFrom | src/lib/rng/rng.ts:205-208 | the reduction keeps the words below MM and leaves the words above its position unchanged |
| Knuth.MultipliedByZ | src/lib/rng/rng.ts:209-214 | "multiply by z" moves word i-1 to word i, moves word KK-1 to word 0, makes word LL the `mod_diff` of the old words LL-1 and KK-1, and keeps the words below MM |
| Knuth.RoundsStep | src/lib/rng/rng.ts:202-217 | one pass of the main loop halves a nonzero register, or counts t down once the register is zero |
| Knuth.RoundsBounded | src/lib/rng/rng.ts:202-217 | the main loop keeps every word of the buffer below MM |
| Knuth.PreparedBounded | src/lib/rng/rng.ts:195-217 | the preparation buffer after the main loop holds words below MM for every seed |
| Knuth.Rotated | src/lib/rng/rng.ts:218-219 | the copy into `ran_x` is the first KK words rotated by LL: `x[j]` goes to `ran_x[j + KK - LL]` for `j < LL` and to `ran_x[j - LL]` otherwise |
| Knuth.WarmUpIsOneStream | src/lib/rng/rng.ts:220 | ten warm-up calls of `ran_array(x, 199)` leave in `ran_x` the state reached by one stream of 10 * 199 + KK words |
| Knuth.RanStartStateBounded | src/lib/rng/rng.ts:190-223 | the state `ran_start` leaves has every word below MM |
| Knuth.Square | src/lib/rng/rng.ts:203-204 | the in-place "square" loop produces `Squared` of the old buffer |
| Knuth.Reduce | src/lib/rng/rng.ts:205-208 | the in-place reduction loop produces `ReducedFrom` of the old buffer |
| Knuth.MultiplyByZ | src/lib/rng/rng.ts:209-214 | the in-place shift produces `MultipliedByZ` of the old buffer |
| Knuth.BootstrapBuffer | src/lib/rng/rng.ts:193-201 | a fresh 199-word buffer holding the bootstrap words |
| Knuth.FillShifts | src/lib/rng/rng.ts:196-200 | word j of the buffer is the register after j cyclic shifts, and the words from KK on are untouched |
| Knuth.PolynomialRound | src/lib/rng/rng.ts:203-214 | one pass changes the buffer as `Round` says |
| Knuth.PrepareBuffer | src/lib/rng/rng.ts:193-217 | the preparation buffer at the end of the main loop is `Prepared(seed)` |
| Knuth.MainLoop | src/lib/rng/rng.ts:202-217 | the main loop terminates: the register halves to 0, then t counts down to 0, and the buffer is `Rounds` of the old buffer |
| Knuth.MainLoopBody | src/lib/rng/rng.ts:203-216 | one pass keeps the remaining rounds' result and strictly decreases (t, register) |
| Generators.Fixup | src/lib/rng/rng.ts:231-236 | `fixup(x)` lies strictly inside (0, 1), returns x unchanged when `0 < x < 1`, and otherwise returns the documented constants |
| Generators.Frac | src/lib/rng/rng.ts:259 | `frac(x)` lies in `[0, 1)` and differs from x by an integer |
| Generators.LcgIterAdd | src/lib/rng/rng.ts:403-405 | m + n steps of the congruence are n steps after m steps |
| Generators.LcgZeroThenOne | src/lib/rng/rng.ts:413 | the congruence maps 0 to 1, so two successive seeding words are never both zero |
| Generators.LcgFromHigh | src/lib/rng/rng.ts:427 | from a word at or above m2, one more congruence step lands below m2, so the rejection loop runs at most once |
| Generators.Rejected | src/lib/rng/rng.ts:427 | the rejection loop ends below m2, keeps a word already below m2, and advances a word at or above it by one step |
| Generators.CmrgWords | src/lib/rng/rng.ts:425-429 | the L'Ecuyer seeding words are all below m2, and the first is the next congruence value after the seed, after rejection |
| Generators.CmrgWordsStep | src/lib/rng/rng.ts:425-429 | each L'Ecuyer seeding word is the rejected next congruence value after the previous word |
| Generators.WichmannHillFixed | src/lib/rng/rng.ts:336-345 | the repaired words lie in `[1, 30269)`, `[1, 30307)` and `[1, 30323)`, and a word already in its range is kept |
| Generators.WichmannHillFixedIdempotent | src/lib/rng/rng.ts:336-345 | repairing twice is repairing once |
| Generators.WichmannHillStep | src/lib/rng/rng.ts:250-252 | each word is multiplied by 171, 172 or 170 modulo 2^32 |
| Generators.WichmannHillValue | src/lib/rng/rng.ts:254-259 | the Wichmann-Hill value lies strictly inside (0, 1) |
| Generators.WichmannHillStepLeavesRange | src/lib/rng/rng.ts:250-252 | a repaired state can step out of its modulus, because the step never reduces |
| Generators.NonZero | src/lib/rng/rng.ts:354-355 | a zero word becomes 1 and any other word is kept |
| Generators.MarsagliaFixed | src/lib/rng/rng.ts:353-356 | both repaired words are nonzero, and a state with both words nonzero is kept |
| Generators.MarsagliaFixedIdempotent | src/lib/rng/rng.ts:353-356 | repairing twice is repairing once |
| Generators.MarsagliaStepCarries | src/lib/rng/rng.ts:262-263 | the multiply-with-carry step gives `a * (w & 65535) + (w >> 16)`, less 65536 modulo 2^32 when the sign-extending shift sees the top bit set |
| Generators.MarsagliaNumerator | src/lib/rng/rng.ts:266 | `(w0 << 16) ^ (w1 & 65535)` is an int32 value |
| Generators.MarsagliaValue | src/lib/rng/rng.ts:265-267 | the Marsaglia value lies strictly inside (0, 1) |
| Generators.MarsagliaStepOfOnes | src/lib/rng/rng.ts:262-263 | the step of the state [1, 1] is [36969, 18000] |
| Generators.MarsagliaNumeratorExample | src/lib/rng/rng.ts:266 | that state's numerator is negative as an int32 |
| Generators.MarsagliaClampedDraw | src/lib/rng/rng.ts:265-267 | so the draw from [1, 1] is clamped by `fixup` to its lower constant |
| Generators.SuperDuperFixed | src/lib/rng/rng.ts:347-351 | word 0 becomes nonzero and word 1 odd, a valid state is kept, and word 1 grows by at most 1 |
| Generators.SuperDuperFixedIdempotent | src/lib/rng/rng.ts:347-351 | repairing twice is repairing once |
| Generators.SuperDuperStep | src/lib/rng/rng.ts:274-277 | word 0 takes the Tausworthe step, word 1 is multiplied by 69069 modulo 2^32 and stays odd when odd |
| Generators.SuperDuperNumerator | src/lib/rng/rng.ts:279 | `w0 ^ w1` as an int32 is negative exactly when the XOR has its top bit set |
| Generators.SuperDuperValue | src/lib/rng/rng.ts:278-280 | the Super-Duper value lies strictly inside (0, 1) |
| Generators.TauswortheOfOne | src/lib/rng/rng.ts:274-276 | the Tausworthe step of 1 is 0x20001 |
| Generators.SuperDuperStepExample | src/lib/rng/rng.ts:274-277 | the step of [1, 0x80000001] is [0x20001, 0x80010DCD] |
| Generators.SuperDuperNumeratorExample | src/lib/rng/rng.ts:279 | that state's numerator is negative as an int32 |
| Generators.SuperDuperClampedDraw | src/lib/rng/rng.ts:278-280 | so that draw is clamped by `fixup` to its lower constant |
| Generators.Reduced | src/lib/rng/rng.ts:302-304 | `p - trunc(p / m) * m`, plus m when negative, lies in `[0, m)` |
| Generators.ReducedIsRemainder | src/lib/rng/rng.ts:302-312 | for m1 and m2 that reduction is the remainder modulo m |
| Generators.LecuyerStep | src/lib/rng/rng.ts:300-315 | p1 lies in `[0, m1)` and p2 in `[0, m2)`; words 1..4 move down to 0..3, word 4 becomes p2, and word 5 and beyond are unchanged |
| Generators.LecuyerComponents | src/lib/rng/rng.ts:300-312 | p1 is `(a12 - a13n) * w1` modulo m1, since `seeds[1]` appears in both terms, and p2 is `a21 * w5 - a23n * p1` modulo m2, since word 2 already holds p1 |
| Generators.LecuyerNumerator | src/lib/rng/rng.ts:317 | `p1 > p2 ? p1 - p2 : p1 - p2 + m1` lies in `[1, m1]` and equals `p1 - p2` modulo m1 |
| Generators.LecuyerValue | src/lib/rng/rng.ts:317 | the L'Ecuyer value lies strictly inside (0, 1), although it is returned without `fixup` |
| EngineSpec.Initial | src/lib/rng/rng.ts:39-40 | the engine starts with zeroed buffers and no batch pointer |
| EngineSpec.Seeds | src/lib/rng/rng.ts:48-97 | the state of a kind is `n_seed` words |
| EngineSpec.WithSeeds | src/lib/rng/rng.ts:48-97 | writing a kind's words changes only the leading words of the shared buffer |
| EngineSpec.WithSeedsKeepsTail | src/lib/rng/rng.ts:48-97 | words past the written ones are kept |
| EngineSpec.FixupSpec | src/lib/rng/rng.ts:324-396 | the repair ends in a seeding status and consumes time readings only from the front; only the user-supplied kind fails as unimplemented |
| EngineSpec.CmrgSecondCheck | src/lib/rng/rng.ts:385-390 | the second L'Ecuyer check ends in a seeding status and never fails as unimplemented |
| EngineSpec.RandomizeSpec | src/lib/rng/rng.ts:226-229 | on an empty clock re-seeding fails with the clock exhausted; otherwise it takes at least one reading from the front of the clock, and it fails as unimplemented exactly for the user-supplied kind |
| EngineSpec.InitSpec | src/lib/rng/rng.ts:398-437 | seeding ends in a seeding status, and for the user-supplied kind it fails and changes nothing |
| EngineSpec.Knuth2002Seeded | src/lib/rng/rng.ts:238-241 | after `RNG_Init_KT2`, `ran_x` holds words below MM, the cursor is 0, the batch pointer is cleared and the words past the cursor are kept |
| EngineSpec.DrawSpec | src/lib/rng/rng.ts:243-320 | a draw changes at most the first six words, yields a value strictly inside (0, 1), and yields nothing, with no change, exactly for the user-supplied kind |
| EngineSpec.CycleSpec | src/lib/rng/rng.ts:171-177 | `ran_arr_cycle` fills the batch from the stream, stores the sentinel at position KK, sets the batch pointer, returns `ran_x[0]`, and leaves the buffer past KK unchanged |
| EngineSpec.KtNextSpec | src/lib/rng/rng.ts:683-690 | `KT_next` leaves the cursor 0 and returns `ran_x[0]`; below 100 it changes only the cursor, and at 100 or more it refills first |
| EngineSpec.Installed | src/lib/rng/rng.ts:754 | `i_seed.set(seed)` replaces the first `seed.length` words by the supplied values modulo 2^32 and keeps the rest |
| EngineSpec.LoadSpec | src/lib/rng/rng.ts:716-759 | a load that fails leaves the state and the clock unchanged, and a load never fails as unimplemented; a uniform name that no kind name starts with fails as an unknown uniform kind, and otherwise a normal name that no normal name starts with fails as an unknown normal kind |
| EngineProperties.ScrambledWord | src/lib/rng/rng.ts:403-415 | word j written by the basic seeding is the (51 + j)-th congruence value of the seed |
| EngineProperties.FixupIdempotent | src/lib/rng/rng.ts:336-356 | for Wichmann-Hill, Marsaglia and Super-Duper the repair succeeds without a time reading, and repairing again changes nothing |
| EngineProperties.WithSeedsOverwrite | src/lib/rng/rng.ts:48-97 | writing a kind's words twice keeps only the second write |
| EngineProperties.BasicSeedingSettles | src/lib/rng/rng.ts:407-416 | seeding Wichmann-Hill, Marsaglia or Super-Duper succeeds without a time reading and leaves a state the repair keeps |
| EngineProperties.MersenneSeedingNeverSettles | src/lib/rng/rng.ts:358-364 | seeding Mersenne-Twister always ends with the clock exhausted, because every seeded state has a nonzero word and the inverted check re-seeds it |
| EngineProperties.CmrgSeedingPassesCheck | src/lib/rng/rng.ts:373-391 | the state the L'Ecuyer seeding leaves passes both L'Ecuyer checks |
| EngineProperties.CmrgWordsPassCheck | src/lib/rng/rng.ts:424-430 | the seeding words include a nonzero word among the first three, and all of them lie below m1 and m2 |
| EngineProperties.KnuthFixupAlwaysReseeds | src/lib/rng/rng.ts:365-370 | the Knuth repair always re-seeds, because the cursor word it stores is nonzero; it fails only on an empty clock |
| EngineProperties.KnuthFixupReseeds | src/lib/rng/rng.ts:365-370 | the Knuth repair is `Randomize` of the state with the cursor repaired |
| EngineProperties.KnuthSeedingIgnoresClock | src/lib/rng/rng.ts:418-423 | seeding either Knuth kind succeeds without taking a time reading |
| EngineProperties.CmrgZeroSecondHalfKept | src/lib/rng/rng.ts:373-391 | a state whose first triple is [1, 0, 0] and whose second triple is all zero passes the L'Ecuyer repair unchanged, because the not-all-zero flag is shared |
| EngineProperties.CmrgRepairBounds | src/lib/rng/rng.ts:373-391 | after a successful L'Ecuyer repair the first triple is not all zero and below m1, and the second triple is below m2 |
| EngineProperties.CmrgOutOfRangeReseedsTwice | src/lib/rng/rng.ts:379-390 | a first triple out of range re-seeds twice, because the flag from the first check is not reset, and the second seed wins |
| EngineProperties.CycleStateBounded | src/lib/rng/rng.ts:168-172 | after `ran_arr_cycle` every `ran_x` word is below MM |
| EngineProperties.CyclesFormOneStream | src/lib/rng/rng.ts:160-177 | two batches are consecutive pieces of one lagged-Fibonacci stream, each with the sentinel at KK |
| EngineProperties.KtNextRepeats | src/lib/rng/rng.ts:683-690 | a second `KT_next` returns the same word and leaves the same state, because the cursor setter always stores 0 |
| EngineProperties.Snapshot | src/lib/rng/rng.ts:754 | a saved vector of a kind's words stores back to the same words |
| EngineProperties.ExactNamesResolve | src/lib/rng/rng.ts:725-736 | exact kind names pass both prefix checks and resolve to their kinds |
| EngineProperties.LoadRestoresSnapshot | src/lib/rng/rng.ts:716-756 | loading a kind's saved words under its exact names restores them and takes no time reading |
| EngineProperties.InstalledSnapshot | src/lib/rng/rng.ts:754 | installing a snapshot is writing the kind's words |
| EngineProperties.LoadInstallsSeed | src/lib/rng/rng.ts:753-756 | a non-empty vector no longer than `n_seed` is copied verbatim, with no repair, and the other words are kept |
| EngineProperties.LoadWrongLengthReseeds | src/lib/rng/rng.ts:742-751 | an empty vector, or one longer than `n_seed`, re-seeds the kind from the clock |
| EngineProperties.LoadNeedsDescriptor | src/lib/rng/rng.ts:738-758 | names that pass the checks but have no table row give an error and change nothing |
| EngineProperties.LoadPrefixSelectsNothing | src/lib/rng/rng.ts:728-758 | loading with the prefix `wich` passes the name check, selects no kind and fails with the missing-descriptor error, changing nothing |
| EngineProperties.LoadIgnoresLetterCase | src/lib/rng/rng.ts:722-723 | the load is the same for a name and its upper-case form |
| Rng.Engine.Abstract | src/lib/rng/rng.ts:39-40 | the arrays read as an engine state of the right shape, with the active kind |
| Rng.Engine.constructor | src/lib/rng/rng.ts:39-40 | a fresh engine is the zeroed initial state with the given active kind |
| Rng.Engine.KtPos | src/lib/rng/rng.ts:143-146 | the cursor read is word 100 of the buffer |
| Rng.Engine.SetKtPos | src/lib/rng/rng.ts:147 | the cursor store writes 0 into word 100, whatever it is given, and nothing else |
| Rng.Engine.RanArrCycle | src/lib/rng/rng.ts:171-177 | the refill changes the engine as `CycleSpec` says and returns its word |
| Rng.Engine.KtNext | src/lib/rng/rng.ts:683-690 | `KT_next` changes the engine as `KtNextSpec` says and returns its word |
| Rng.Engine.RanStart | src/lib/rng/rng.ts:190-223 | `ran_start(seed)` puts `RanStartState(seed)` into `ran_x`, clears the batch pointer and keeps the rest of the buffer |
| Rng.Engine.CopyRotated | src/lib/rng/rng.ts:218-219 | the copy loops put the rotated buffer into `ran_x` and keep the words past KK |
| Rng.Engine.WarmUp | src/lib/rng/rng.ts:220 | ten calls of `ran_array` turn the rotated buffer into `RanStartState(seed)` |
| Rng.Engine.RngInitKnuth2002 | src/lib/rng/rng.ts:238-241 | `RNG_Init_KT2` changes the engine as `Knuth2002Seeded` says |
| Rng.Engine.UnifRand | src/lib/rng/rng.ts:243-320 | a draw changes the engine and yields the value as `DrawSpec` says |
| Rng.Engine.WichmannHillDraw | src/lib/rng/rng.ts:249-259 | the three words take the Wichmann-Hill step and the value is computed from the new words |
| Rng.Engine.MarsagliaDraw | src/lib/rng/rng.ts:261-267 | the two words take the multiply-with-carry step and the value is computed from the new words |
| Rng.Engine.SuperDuperDraw | src/lib/rng/rng.ts:269-281 | the two words take the Super-Duper step and the value is computed from the new words |
| Rng.Engine.LecuyerDraw | src/lib/rng/rng.ts:289-318 | the six words take the L'Ecuyer step, in the source's order of reads and writes, and the value is that step's |
| Rng.Engine.LecuyerFirstComponent | src/lib/rng/rng.ts:300-307 | p1 is the reduced first component, words 1 and 2 move down, p1 goes into word 2, and the rest is kept |
| Rng.Engine.LecuyerSecondComponent | src/lib/rng/rng.ts:309-315 | p2 is the reduced second component computed from word 2, which holds p1; words 3 and 4 move down, p2 goes into word 4, and the rest is kept |
| Rng.Engine.ModuloReduced | src/lib/rng/rng.ts:302-304 | the truncating reduction computes `Reduced(p, m)` |
| Rng.Engine.FixupSeeds | src/lib/rng/rng.ts:324-396 | `FixupSeeds(kind, initial)` changes the engine and consumes readings as `FixupSpec` says |
| Rng.Engine.FixupWichmannHill | src/lib/rng/rng.ts:336-345 | the three words become `WichmannHillFixed` of the old words |
| Rng.Engine.FixupSuperDuper | src/lib/rng/rng.ts:347-351 | the two words become `SuperDuperFixed` of the old words |
| Rng.Engine.FixupMarsaglia | src/lib/rng/rng.ts:353-356 | the two words become `MarsagliaFixed` of the old words |
| Rng.Engine.FixupMersenne | src/lib/rng/rng.ts:358-364 | the Mersenne-Twister repair is `FixupSpec` for that kind |
| Rng.Engine.FixupKnuth | src/lib/rng/rng.ts:365-370 | the Knuth repair is `FixupSpec` for the Knuth kinds |
| Rng.Engine.FixupLecuyer | src/lib/rng/rng.ts:373-391 | the L'Ecuyer repair is `FixupSpec` for that kind |
| Rng.Engine.CmrgSecondCheck | src/lib/rng/rng.ts:385-390 | the second triple's check is `EngineSpec.CmrgSecondCheck` |
| Rng.Engine.ScanWords | src/lib/rng/rng.ts:379-389 | a check loop's flags are "some word nonzero" and "every word below the bound", combined with the incoming flags, and the loop changes nothing |
| Rng.Engine.Randomize | src/lib/rng/rng.ts:226-229 | `Randomize(kind)` is `RandomizeSpec` |
| Rng.Engine.RngInit | src/lib/rng/rng.ts:398-437 | `RNG_Init(kind, seed)` changes the engine and consumes readings as `InitSpec` says |
| Rng.Engine.WriteCongruenceWords | src/lib/rng/rng.ts:412-415 | the seeding loop writes the next n congruence values and keeps the other words |
| Rng.Engine.WriteLecuyerWords | src/lib/rng/rng.ts:425-429 | the L'Ecuyer seeding loop writes the rejected congruence values and keeps the other words |
| Rng.Engine.NextBelowM2 | src/lib/rng/rng.ts:426-427 | one step plus the rejection loop gives `Rejected(Lcg(seed))` |
| Rng.Engine.PutRngState | src/lib/rng/rng.ts:716-759 | `PutRNGstate` changes the engine and consumes readings as `LoadSpec` says |

## Left out

- The Mersenne-Twister generator itself (`MT_sgenrand`, `MT_genrand` and
  the tempering constants, rng.ts:117-137). It is never called.
  Mersenne-Twister draws fall through to the L'Ecuyer step.
- `RNG_Init_R_KT` (rng.ts:692-695) needs `TAOCP1997init`. knuth_taocp.ts is
  not part of this model. The model seeds Knuth-TAOCP with no state change,
  because the words `TAOCP1997init` returns are dropped and line 694 cannot
  be reached.
- `timeseed()` and the clock. Time readings come from a finite stream, and
  running out of it is reported as `Failed(ClockExhausted)`. The source
  instead recurses without bound.
- `warning` and `error`. Thrown or logged errors become `Failed` statuses,
  or `None` for a draw. A warning is not modelled.
- Engine state: the source fixes `RNG_kind` to Mersenne-Twister (rng.ts:141),
  and nothing in rng.ts reassigns it. The model's constructor takes the
  active kind as a parameter. `GetRNGstate` and the commented-out R code
  (rng.ts:487-681, 697-714) are not part of this model.
- View lengths: the source passes lengths of `4 * n_seed` elements to the
  `Uint32Array` views (rng.ts:48-97) and builds the batch on a
  `QUALITY`-byte buffer (rng.ts:156). As written, the Mersenne-Twister view
  and the batch view would not fit their buffers, and the Knuth views would
  span 404 words. The model uses views of `n_seed` words and a 1009-word
  batch.
- Seed arithmetic: the source computes `69069 * seed + 1` in doubles, with
  no wrap-around (rng.ts:404, 413, 426-427). The model follows R's unsigned
  32-bit arithmetic, so every seed word is the congruence modulo 2^32. In the
  source's doubles the seed has grown past 2^85 (or to infinity) by the time
  a word is stored at rng.ts:414, and a `Uint32Array` stores such a value as
  0. So the words written there are all 0: Wichmann-Hill, Marsaglia-MultiCarry
  and Super-Duper are then repaired to [1, 1, 1], [1, 1] and [1, 1], and the
  Mersenne-Twister fixup never re-seeds. For a non-negative seed the L'Ecuyer
  rejection loop at rng.ts:426-427 never ends, because the seed never falls
  below m2. None of this is modelled.
- `RNGTable[kind]` is indexed by the kind's number (rng.ts:244, 329, 400,
  412, 425).
  The model finds a kind's words by the kind itself.
- `EnumValues`, `lodash` and `toLocaleUpperCase`. The enumeration names are
  a closed list of ASCII strings, and upper-casing maps only `a`-`z`.
- A `null` seed vector in `PutRNGstate` (rng.ts:721). Its empty-vector case
  is modelled.
- Floating point: values are exact reals. Rounding of the doubles in the
  draws is not modelled, and neither is the Box-Muller history.
- Generators.WichmannHillValue: states only that the value lies in (0, 1).
  The sum of the word ratios is modelled exactly, but not double rounding.
- Generators.MarsagliaValue: states only that the value lies in (0, 1),
  after `fixup`.
- Generators.SuperDuperValue: states only that the value lies in (0, 1),
  after `fixup`.
- Generators.Frac: `frac` comes from a module that is not part of this
  model. It is modelled as x minus its floor, for x of at least 0.
