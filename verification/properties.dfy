/** Properties of the engine that relate several operations: what seeding
    leaves behind and whether the repair check accepts it, how the re-seeding
    chains end, how successive refills of the Knuth batch continue one
    stream, and how loading a saved state restores it. */
module EngineProperties {
  import opened Words
  import opened Registry
  import opened Knuth
  import opened Generators
  import opened EngineSpec

  // ---------------------------------------------------------------------
  // Seeding

  /** After the 50 scrambling steps, word j of a basic kind's fresh state is
      the (51 + j)-th value of the congruence started at the seed. */
  lemma ScrambledWord(seed: uint32, n: nat, j: nat)
    requires j < n
    ensures LcgWords(LcgIter(50, seed), n)[j] == LcgIter(51 + j, seed)
  {
    LcgIterAdd(50, j + 1, seed);
  }

  /** The repair of Wichmann-Hill, Marsaglia-MultiCarry and Super-Duper
      states is idempotent. */
  lemma FixupIdempotent(s: EngineState, k: Kind, initial: bool, clock: seq<uint32>)
    requires WellFormed(s) && k in {WichmannHill, MarsagliaMultiCarry, SuperDuper}
    ensures var o := FixupSpec(s, k, initial, clock);
      o.status == Done && o.clock == clock && FixupSpec(o.state, k, initial, clock) == o
  {
    var w := Seeds(s, k);
    var f := match k
      case WichmannHill => WichmannHillFixed(w)
      case MarsagliaMultiCarry => MarsagliaFixed(w)
      case SuperDuper => SuperDuperFixed(w)
      case _ => w;
    WithSeedsOverwrite(s, f, f);
    match k {
      case WichmannHill => WichmannHillFixedIdempotent(w);
      case MarsagliaMultiCarry => MarsagliaFixedIdempotent(w);
      case SuperDuper => SuperDuperFixedIdempotent(w);
    }
  }

  /** Writing a kind's words twice keeps only the second write. */
  lemma WithSeedsOverwrite(s: EngineState, a: seq<uint32>, b: seq<uint32>)
    requires WellFormed(s) && |a| == |b| <= BUFFER_WORDS
    ensures WithSeeds(s, a).common[..|a|] == a
    ensures WithSeeds(WithSeeds(s, a), b) == WithSeeds(s, b)
  {
    assert (a + s.common[|a|..])[|a|..] == s.common[|a|..];
  }

  /** Seeding a Wichmann-Hill, Marsaglia-MultiCarry or Super-Duper state never
      consults the clock, and the state it leaves passes its own repair
      unchanged. */
  lemma BasicSeedingSettles(s: EngineState, k: Kind, seed: uint32, clock: seq<uint32>)
    requires WellFormed(s) && k in {WichmannHill, MarsagliaMultiCarry, SuperDuper}
    ensures var o := InitSpec(s, k, seed, clock);
      o.status == Done && o.clock == clock && FixupSpec(o.state, k, false, clock) == o
  {
    var t := WithSeeds(s, LcgWords(LcgIter(50, seed), SeedLength(k)));
    assert InitSpec(s, k, seed, clock) == FixupSpec(t, k, true, clock);
    FixupIdempotent(t, k, true, clock);
    var o := FixupSpec(t, k, true, clock);
    // the repair of these kinds does not depend on the initial flag
    assert FixupSpec(o.state, k, false, clock) == FixupSpec(o.state, k, true, clock);
  }

  /** With 32-bit seeding arithmetic, seeding the Mersenne-Twister never
      settles: the inverted zero check re-seeds every state it produces, so
      the chain of re-seedings stops only when the time readings run out. */
  lemma {:induction false} MersenneSeedingNeverSettles(s: EngineState, seed: uint32, clock: seq<uint32>)
    requires WellFormed(s)
    ensures InitSpec(s, MersenneTwister, seed, clock).status == Failed(ClockExhausted)
    decreases |clock|
  {
    var w := LcgWords(LcgIter(50, seed), SeedLength(MersenneTwister));
    var t := WithSeeds(s, w);
    var s1 := t.(common := t.common[0 := MT_POSITION]);
    LcgZeroThenOne(w[1]);
    assert w[2] == Lcg(w[1]);
    assert s1.common[1..][0] == w[1] && s1.common[1..][1] == w[2];
    assert HasNonZero(s1.common[1..]);
    assert InitSpec(s, MersenneTwister, seed, clock) == RandomizeSpec(s1, MersenneTwister, clock);
    if clock != [] {
      MersenneSeedingNeverSettles(s1, clock[0], clock[1..]);
    }
  }

  /** The state the L'Ecuyer seeding writes passes the L'Ecuyer check: no
      further time reading is taken and nothing changes. */
  lemma CmrgSeedingPassesCheck(s: EngineState, seed: uint32, initial: bool, clock: seq<uint32>)
    requires WellFormed(s)
    ensures var o := InitSpec(s, LecuyerCMRG, seed, clock);
      o.status == Done && o.clock == clock && FixupSpec(o.state, LecuyerCMRG, initial, clock) == o
  {
    var w := CmrgWords(LcgIter(50, seed), 6);
    var t := WithSeeds(s, w);
    assert InitSpec(s, LecuyerCMRG, seed, clock) == Outcome(t, Done, clock);
    WithSeedsOverwrite(s, w, w);
    CmrgWordsPassCheck(LcgIter(50, seed));
    assert t.common[..3] == w[..3] && t.common[3..6] == w[3..];
    assert FixupSpec(t, LecuyerCMRG, initial, clock) == CmrgSecondCheck(t, true, true, clock);
  }

  /** The six L'Ecuyer words written from any seed are not all zero in the
      first half and lie below both moduli. */
  lemma CmrgWordsPassCheck(seed: uint32)
    ensures var w := CmrgWords(seed, 6);
      HasNonZero(w[..3]) && AllBelow(w[..3], M1) && AllBelow(w[3..], M2)
  {
    var w := CmrgWords(seed, 6);
    assert w[1..] == CmrgWords(w[0], 5);
    if w[0] == 0 {
      assert w[1] == Rejected(Lcg(0)) == 1;
    }
    assert w[..3][0] == w[0] && w[..3][1] == w[1];
  }

  /** The check of a Knuth state always re-seeds it, because the cursor it
      has just made nonzero is part of the words it inspects: one time
      reading is consumed whenever there is one. */
  lemma KnuthFixupAlwaysReseeds(s: EngineState, k: Kind, initial: bool, clock: seq<uint32>)
    requires WellFormed(s) && k in {KnuthTAOCP, KnuthTAOCP2002}
    ensures var o := FixupSpec(s, k, initial, clock);
      (clock == [] ==> o.status == Failed(ClockExhausted)) &&
      (clock != [] ==> o.status == Done && o.clock == clock[1..])
  {
    var s1 := KnuthFixupReseeds(s, k, initial, clock);
    if clock != [] {
      KnuthSeedingIgnoresClock(s1, k, clock[0], clock[1..]);
    }
  }

  /** Helper: the Knuth check hands the state, cursor repaired, to Randomize. */
  lemma KnuthFixupReseeds(s: EngineState, k: Kind, initial: bool, clock: seq<uint32>)
      returns (s1: EngineState)
    requires WellFormed(s) && k in {KnuthTAOCP, KnuthTAOCP2002}
    ensures WellFormed(s1) && FixupSpec(s, k, initial, clock) == RandomizeSpec(s1, k, clock)
  {
    var cursor := if s.common[CURSOR] == 0 then 100 else s.common[CURSOR];
    s1 := s.(common := s.common[CURSOR := cursor]);
    assert Seeds(s1, k)[CURSOR] != 0;
  }

  /** Helper: seeding a Knuth kind completes without further readings. */
  lemma KnuthSeedingIgnoresClock(s: EngineState, k: Kind, seed: uint32, clock: seq<uint32>)
    requires WellFormed(s) && k in {KnuthTAOCP, KnuthTAOCP2002}
    ensures InitSpec(s, k, seed, clock).status == Done && InitSpec(s, k, seed, clock).clock == clock
  {
  }

  /** Because the L'Ecuyer check keeps its flags across the re-seeding, a
      first half out of range makes it re-seed twice: two time readings are
      consumed and the state is the one seeded from the second. */
  lemma CmrgOutOfRangeReseedsTwice(s: EngineState, initial: bool, clock: seq<uint32>)
    requires WellFormed(s) && |clock| >= 2 && !AllBelow(s.common[..3], M1)
    ensures FixupSpec(s, LecuyerCMRG, initial, clock)
      == Outcome(WithSeeds(s, CmrgWords(LcgIter(50, clock[1]), 6)), Done, clock[2..])
  {
    var a := CmrgWords(LcgIter(50, clock[0]), 6);
    var b := CmrgWords(LcgIter(50, clock[1]), 6);
    var s1 := WithSeeds(s, a);
    assert RandomizeSpec(s, LecuyerCMRG, clock) == Outcome(s1, Done, clock[1..]);
    assert clock[1..][0] == clock[1] && clock[1..][1..] == clock[2..];
    assert RandomizeSpec(s1, LecuyerCMRG, clock[1..]) == Outcome(WithSeeds(s1, b), Done, clock[2..]);
    WithSeedsOverwrite(s, a, b);
  }

  /** The shared flag has a second consequence: a first half that passes
      sets the not-all-zero flag, so a second half of zeros is kept although
      the check is meant to reject it. */
  lemma CmrgZeroSecondHalfKept(s: EngineState, initial: bool, clock: seq<uint32>)
    requires WellFormed(s) && s.common[..6] == [1, 0, 0, 0, 0, 0]
    ensures FixupSpec(s, LecuyerCMRG, initial, clock) == Outcome(s, Done, clock)
  {
    assert s.common[..3] == [1, 0, 0] && s.common[3..6] == [0, 0, 0];
    assert HasNonZero(s.common[..3]) && AllBelow(s.common[..3], M1);
    assert AllBelow(s.common[3..6], M2);
  }

  /** What a successful L'Ecuyer repair does guarantee: the first half is not
      all zero and below m1, and the second half is below m2. */
  lemma CmrgRepairBounds(s: EngineState, initial: bool, clock: seq<uint32>)
    requires WellFormed(s)
    ensures var o := FixupSpec(s, LecuyerCMRG, initial, clock);
      o.status == Done ==>
        HasNonZero(o.state.common[..3]) && AllBelow(o.state.common[..3], M1)
        && AllBelow(o.state.common[3..6], M2)
  {
    var first := s.common[..3];
    var notAllZero := HasNonZero(first);
    var allOk := AllBelow(first, M1);
    if !notAllZero || !allOk {
      CmrgReseedBounds(s, clock);
      var o := RandomizeSpec(s, LecuyerCMRG, clock);
      if o.status.Done? {
        CmrgSecondCheckBounds(o.state, notAllZero, allOk, o.clock);
      }
    } else {
      CmrgSecondCheckBounds(s, notAllZero, allOk, clock);
    }
  }

  /** Helper: re-seeding L'Ecuyer, when it succeeds, leaves words that pass
      both range checks and a first half that is not all zero. */
  lemma CmrgReseedBounds(s: EngineState, clock: seq<uint32>)
    requires WellFormed(s)
    ensures var o := RandomizeSpec(s, LecuyerCMRG, clock);
      o.status == Done ==>
        HasNonZero(o.state.common[..3]) && AllBelow(o.state.common[..3], M1)
        && AllBelow(o.state.common[3..6], M2)
  {
    if clock == [] {
      assert RandomizeSpec(s, LecuyerCMRG, clock).status == Failed(ClockExhausted);
    } else {
      CmrgReseedWrites(s, clock);
      CmrgSeededBounds(s, LcgIter(50, clock[0]));
    }
  }

  /** Helper: re-seeding L'Ecuyer from a time reading writes the seeding's words. */
  lemma CmrgReseedWrites(s: EngineState, clock: seq<uint32>)
    requires WellFormed(s) && clock != []
    ensures RandomizeSpec(s, LecuyerCMRG, clock)
      == Outcome(WithSeeds(s, CmrgWords(LcgIter(50, clock[0]), 6)), Done, clock[1..])
  {
  }

  /** Helper: the state the L'Ecuyer seeding writes from one seed. */
  lemma CmrgSeededBounds(s: EngineState, seed: uint32)
    requires WellFormed(s)
    ensures var t := WithSeeds(s, CmrgWords(seed, 6));
      HasNonZero(t.common[..3]) && AllBelow(t.common[..3], M1) && AllBelow(t.common[3..6], M2)
  {
    var w := CmrgWords(seed, 6);
    var t := WithSeeds(s, w);
    CmrgWordsPassCheck(seed);
    assert t.common[..3] == w[..3] && t.common[3..6] == w[3..];
  }

  /** Helper: the second check keeps a first half that passed and either
      finds the second half below m2 or re-seeds. */
  lemma CmrgSecondCheckBounds(s: EngineState, notAllZero: bool, allOk: bool, clock: seq<uint32>)
    requires WellFormed(s) && HasNonZero(s.common[..3]) && AllBelow(s.common[..3], M1)
    ensures var o := CmrgSecondCheck(s, notAllZero, allOk, clock);
      o.status == Done ==>
        HasNonZero(o.state.common[..3]) && AllBelow(o.state.common[..3], M1)
        && AllBelow(o.state.common[3..6], M2)
  {
    CmrgReseedBounds(s, clock);
  }

  // ---------------------------------------------------------------------
  // The Knuth batch

  /** The state a refill leaves is below MM word by word. */
  lemma CycleStateBounded(s: EngineState)
    requires WellFormed(s)
    ensures AllBelow(CycleSpec(s).state.common[..KK], MM)
  {
    var r := s.common[..KK];
    RanArrayRecurrences(r, QUALITY);
    assert CycleSpec(s).state.common[..KK] == Lagged(r, QUALITY + KK)[QUALITY..];
  }

  /** Two successive refills fill the batch buffer with consecutive segments
      of one lagged-Fibonacci stream (apart from the sentinel word). */
  lemma CyclesFormOneStream(s: EngineState)
    requires WellFormed(s)
    ensures var stream := Lagged(s.common[..KK], 2 * QUALITY);
      var c1 := CycleSpec(s).state;
      var c2 := CycleSpec(c1).state;
      c1.ranArrBuf == stream[..QUALITY][KK := SENTINEL] &&
      c2.ranArrBuf == stream[QUALITY..][KK := SENTINEL]
  {
    var r := s.common[..KK];
    var c1 := CycleSpec(s).state;
    LaggedPrefix(r, QUALITY, 2 * QUALITY);
    assert c1.common[..KK] == Lagged(r, QUALITY + KK)[QUALITY..];
    StreamContinuity(r, QUALITY, QUALITY);
  }

  /** The cursor never advances: once it is below KK, every further call of
      `KT_next` changes nothing and returns the same word. */
  lemma KtNextRepeats(s: EngineState)
    requires WellFormed(s)
    ensures var c := KtNextSpec(s);
      KtNextSpec(c.state) == c
  {
    var c := KtNextSpec(s);
    assert c.state.common[CURSOR := 0] == c.state.common;
  }

  // ---------------------------------------------------------------------
  // Loading a saved state

  /** The words of kind k's state as the integers a saved state holds. */
  function Snapshot(s: EngineState, k: Kind): (v: seq<int>)
    requires WellFormed(s)
    ensures |v| == SeedLength(k)
    ensures forall i :: 0 <= i < |v| ==> ToUint32(v[i]) == s.common[i]
  {
    seq(SeedLength(k), i requires 0 <= i < SeedLength(k) => s.common[i] as int)
  }

  /** The kind named exactly, with the one normal kind the table knows. */
  lemma {:induction false} ExactNamesResolve(k: Kind, nk: NormalKind)
    ensures SomeNameStartsWith(UniformNames, UpperAscii(KindName(k)))
    ensures SomeNameStartsWith(NormalNames, UpperAscii(NormalName(nk)))
    ensures KindNamed(UpperAscii(KindName(k))) == Some(k)
    ensures NormalNamed(UpperAscii(NormalName(nk))) == Some(nk)
  {
    ExactKindNamePassesPrefixTest(k);
    ExactNormalNamePassesPrefixTest(nk);
    KindNameUpperCase(k);
    NormalNameUpperCase(nk);
    UpperAsciiKeepsUpperCase(KindName(k));
    UpperAsciiKeepsUpperCase(NormalName(nk));
    KindNameRoundTrip(k);
    NormalNameRoundTrip(nk);
  }

  /** Saving kind k's words from one state and loading them into another
      restores exactly those words, with no repair and no time reading. */
  lemma LoadRestoresSnapshot(s: EngineState, saved: EngineState, k: Kind, clock: seq<uint32>)
    requires WellFormed(s) && WellFormed(saved) && k != UserUnif
    ensures LoadSpec(s, KindName(k), NormalName(BuggyKindermanRamage), Snapshot(saved, k), clock)
      == Outcome(WithSeeds(s, Seeds(saved, k)), Done, clock)
  {
    LoadInstallsSeed(s, k, Snapshot(saved, k), clock);
    InstalledSnapshot(s, saved, k);
  }

  /** Helper: installing a snapshot writes back exactly the saved words. */
  lemma InstalledSnapshot(s: EngineState, saved: EngineState, k: Kind)
    requires WellFormed(s) && WellFormed(saved)
    ensures s.(common := Installed(s.common, Snapshot(saved, k))) == WithSeeds(s, Seeds(saved, k))
  {
    var n := SeedLength(k);
    assert Installed(s.common, Snapshot(saved, k)) == Seeds(saved, k) + s.common[n..];
  }

  /** A seed vector of admissible length is copied into the buffer as it is:
      no repair, no time reading. */
  lemma LoadInstallsSeed(s: EngineState, k: Kind, seed: seq<int>, clock: seq<uint32>)
    requires WellFormed(s) && k != UserUnif && 0 < |seed| <= SeedLength(k)
    ensures LoadSpec(s, KindName(k), NormalName(BuggyKindermanRamage), seed, clock)
      == Outcome(s.(common := Installed(s.common, seed)), Done, clock)
  {
    ExactNamesResolve(k, BuggyKindermanRamage);
    LookupExact(k, BuggyKindermanRamage);
  }

  /** A seed vector that is empty or longer than the kind's state is not
      loaded: the kind is re-seeded from the clock instead. */
  lemma LoadWrongLengthReseeds(s: EngineState, k: Kind, seed: seq<int>, clock: seq<uint32>)
    requires WellFormed(s) && k != UserUnif
    requires |seed| == 0 || |seed| > SeedLength(k)
    ensures LoadSpec(s, KindName(k), NormalName(BuggyKindermanRamage), seed, clock)
      == RandomizeSpec(s, k, clock)
  {
    ExactNamesResolve(k, BuggyKindermanRamage);
    LookupExact(k, BuggyKindermanRamage);
  }

  /** Only the pairs of an implemented kind with Buggy Kinderman-Ramage have a
      descriptor: any other pair of exact names is an error and leaves the
      state alone. */
  lemma LoadNeedsDescriptor(s: EngineState, k: Kind, nk: NormalKind, seed: seq<int>, clock: seq<uint32>)
    requires WellFormed(s)
    requires k == UserUnif || nk != BuggyKindermanRamage
    ensures LoadSpec(s, KindName(k), NormalName(nk), seed, clock)
      == Outcome(s, Failed(MissingDescriptor), clock)
  {
    ExactNamesResolve(k, nk);
    LookupExact(k, nk);
  }

  /** A prefix of a kind's name passes the prefix test but selects no kind,
      since the kind is then looked up by the exact name: the load ends in
      the error for a missing descriptor and changes nothing. */
  lemma LoadPrefixSelectsNothing(s: EngineState, seed: seq<int>, clock: seq<uint32>)
    requires WellFormed(s)
    ensures LoadSpec(s, "wich", "buggy_kinderman_ramage", seed, clock)
      == Outcome(s, Failed(MissingDescriptor), clock)
  {
    assert UpperAscii("wich") == "WICH";
    assert UpperAscii("buggy_kinderman_ramage") == "BUGGY_KINDERMAN_RAMAGE";
    KindNameUpperCase(WichmannHill);
    UpperAsciiKeepsUpperCase(UniformNames[0]);
    assert StartsWith(UpperAscii(UniformNames[0]), "WICH");
    ExactNormalNamePassesPrefixTest(BuggyKindermanRamage);
    NormalNameUpperCase(BuggyKindermanRamage);
    UpperAsciiKeepsUpperCase(NormalName(BuggyKindermanRamage));
    assert KindNamed("WICH") == None;
  }

  /** Names are compared without regard to ASCII letter case. */
  lemma LoadIgnoresLetterCase(s: EngineState, uniformName: string, normalName: string,
                              seed: seq<int>, clock: seq<uint32>)
    requires WellFormed(s)
    ensures LoadSpec(s, UpperAscii(uniformName), UpperAscii(normalName), seed, clock)
      == LoadSpec(s, uniformName, normalName, seed, clock)
  {
    UpperAsciiIdempotent(uniformName);
    UpperAsciiIdempotent(normalName);
  }
}
