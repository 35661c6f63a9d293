/** The engine's whole state as one value, and what each engine operation
    does to it.

    Every generator state is a view on one shared buffer of 625 words: the
    state of kind k is the first n_seed words of the buffer, Knuth's state
    ran_x is its first KK words, and the Knuth-TAOCP cursor (`KT_pos`) is word
    KK. Time readings, which `Randomize` takes from the clock, are a finite
    stream; running out of readings is the model's only way to stop an
    unbounded chain of re-seedings. */
module EngineSpec {
  import opened Words
  import opened Registry
  import opened Knuth
  import opened Generators

  /** Words in the shared state buffer. */
  const BUFFER_WORDS: nat := 625
  /** Index of the Knuth-TAOCP cursor in the shared buffer. */
  const CURSOR: nat := 100
  /** The sentinel -1 stored into the batch buffer, as a word. */
  const SENTINEL: uint32 := 0xFFFF_FFFF
  /** Knuth-TAOCP-2002 seeds are reduced modulo this prime. */
  const KT2_SEED_MODULUS: nat := 1073741821
  /** The Mersenne-Twister position word after seeding. */
  const MT_POSITION: uint32 := 624

  datatype EngineState = EngineState(
    common: seq<uint32>,     // the buffer behind every i_seed view and ran_x
    ranArrBuf: seq<uint32>,  // the batch buffer filled by ran_arr_cycle
    ranArrPtrSet: bool,      // whether ran_arr_ptr points into the batch
    active: Kind)            // RNG_kind, the generator unif_rand uses

  predicate WellFormed(s: EngineState)
  {
    |s.common| == BUFFER_WORDS && |s.ranArrBuf| == QUALITY
  }

  /** The state at module load: zero-filled buffers and no batch pointer. */
  function Initial(active: Kind): (s: EngineState)
    ensures WellFormed(s) && s.active == active && !s.ranArrPtrSet
    ensures !HasNonZero(s.common) && !HasNonZero(s.ranArrBuf)
  {
    EngineState(seq(BUFFER_WORDS, _ => 0), seq(QUALITY, _ => 0), false, active)
  }

  /** The words of kind k's view. */
  function Seeds(s: EngineState, k: Kind): (w: seq<uint32>)
    requires WellFormed(s)
    ensures |w| == SeedLength(k)
  {
    s.common[..SeedLength(k)]
  }

  /** The state with the first |w| words of the buffer replaced by w. */
  function WithSeeds(s: EngineState, w: seq<uint32>): (t: EngineState)
    requires WellFormed(s) && |w| <= BUFFER_WORDS
    ensures WellFormed(t) && t.common[..|w|] == w && t.common[|w|..] == s.common[|w|..]
    ensures t.ranArrBuf == s.ranArrBuf && t.ranArrPtrSet == s.ranArrPtrSet && t.active == s.active
  {
    s.(common := w + s.common[|w|..])
  }

  lemma WithSeedsKeepsTail(s: EngineState, w: seq<uint32>, m: nat)
    requires WellFormed(s) && |w| <= m <= BUFFER_WORDS
    ensures WithSeeds(s, w).common[m..] == s.common[m..]
  {
    assert WithSeeds(s, w).common[m..] == WithSeeds(s, w).common[|w|..][m - |w|..];
  }

  /** Errors the engine reports. */
  datatype Error =
    | UnknownUniformKind   // no uniform kind name starts with the given name
    | UnknownNormalKind    // no normal kind name starts with the given name
    | MissingDescriptor    // the names pass but no table row matches them
    | UnimplementedKind    // the kind has no generator in this engine
    | ClockExhausted       // Randomize needed a time reading and none was left

  datatype Status = Done | Failed(error: Error)

  /** The new state, how the operation ended and the time readings left. */
  datatype Outcome = Outcome(state: EngineState, status: Status, clock: seq<uint32>)

  /** The statuses seeding and repair can end with. */
  predicate SeedingStatus(st: Status)
  {
    st.Done? || st.error == UnimplementedKind || st.error == ClockExhausted
  }

  /** `rest` is what remains of `clock` after readings were taken from its front. */
  predicate IsSuffix(rest: seq<uint32>, clock: seq<uint32>)
  {
    |rest| <= |clock| && rest == clock[|clock| - |rest|..]
  }

  // ---------------------------------------------------------------------
  // FixupSeeds, Randomize and RNG_Init

  /** `FixupSeeds(k, initial)`: repair the state of kind k in place, or
      re-seed it from the clock when the check asks for it. */
  function FixupSpec(s: EngineState, k: Kind, initial: bool, clock: seq<uint32>): (o: Outcome)
    requires WellFormed(s)
    ensures SeedingStatus(o.status)
    ensures WellFormed(o.state) && IsSuffix(o.clock, clock)
    ensures o.state.active == s.active
    ensures o.status == Failed(UnimplementedKind) <==> k == UserUnif
    decreases |clock|, 2
  {
    match k
    case WichmannHill =>
      Outcome(WithSeeds(s, WichmannHillFixed(Seeds(s, k))), Done, clock)
    case MarsagliaMultiCarry =>
      Outcome(WithSeeds(s, MarsagliaFixed(Seeds(s, k))), Done, clock)
    case SuperDuper =>
      Outcome(WithSeeds(s, SuperDuperFixed(Seeds(s, k))), Done, clock)
    case MersenneTwister =>
      var position := if initial || s.common[0] == 0 then MT_POSITION else s.common[0];
      var s1 := s.(common := s.common[0 := position]);
      // the test is inverted: a state with any nonzero word is re-seeded
      if HasNonZero(s1.common[1..]) then RandomizeSpec(s1, k, clock)
      else Outcome(s1, Done, clock)
    case KnuthTAOCP | KnuthTAOCP2002 =>
      var cursor := if s.common[CURSOR] == 0 then 100 else s.common[CURSOR];
      var s1 := s.(common := s.common[CURSOR := cursor]);
      if HasNonZero(Seeds(s1, k)) then RandomizeSpec(s1, k, clock)
      else Outcome(s1, Done, clock)
    case LecuyerCMRG =>
      var first := s.common[..3];
      var notAllZero := HasNonZero(first);
      var allOk := AllBelow(first, M1);
      if !notAllZero || !allOk then
        var o := RandomizeSpec(s, k, clock);
        if o.status.Failed? then o
        else CmrgSecondCheck(o.state, notAllZero, allOk, o.clock)
      else CmrgSecondCheck(s, notAllZero, allOk, clock)
    case UserUnif =>
      Outcome(s, Failed(UnimplementedKind), clock)
  }

  /** The check of L'Ecuyer words 3..5 against M2; the two flags carry over
      from the check of words 0..2, even when the state was re-seeded in
      between. */
  function CmrgSecondCheck(s: EngineState, notAllZero: bool, allOk: bool, clock: seq<uint32>): (o: Outcome)
    requires WellFormed(s)
    ensures SeedingStatus(o.status)
    ensures WellFormed(o.state) && IsSuffix(o.clock, clock)
    ensures o.state.active == s.active && o.status != Failed(UnimplementedKind)
    decreases |clock|, 1
  {
    var second := s.common[3..6];
    var notAllZero' := notAllZero || HasNonZero(second);
    var allOk' := allOk && AllBelow(second, M2);
    if !notAllZero' || !allOk' then RandomizeSpec(s, LecuyerCMRG, clock)
    else Outcome(s, Done, clock)
  }

  /** `Randomize(k)`: `RNG_Init(k, timeseed())`, the seed being the next
      time reading. */
  function RandomizeSpec(s: EngineState, k: Kind, clock: seq<uint32>): (o: Outcome)
    requires WellFormed(s)
    ensures SeedingStatus(o.status)
    ensures WellFormed(o.state) && IsSuffix(o.clock, clock)
    ensures o.state.active == s.active
    ensures o.status == Failed(UnimplementedKind) <==> clock != [] && k == UserUnif
    ensures clock == [] ==> o == Outcome(s, Failed(ClockExhausted), clock)
    ensures clock != [] ==> |o.clock| < |clock|
    decreases |clock|, 0
  {
    if clock == [] then Outcome(s, Failed(ClockExhausted), clock)
    else InitSpec(s, k, clock[0], clock[1..])
  }

  /** `RNG_Init(k, seed)`: 50 scrambling steps of the congruence, then the
      kind's own seeding. */
  function InitSpec(s: EngineState, k: Kind, seed: uint32, clock: seq<uint32>): (o: Outcome)
    requires WellFormed(s)
    ensures SeedingStatus(o.status)
    ensures WellFormed(o.state) && IsSuffix(o.clock, clock)
    ensures o.state.active == s.active
    ensures o.status == Failed(UnimplementedKind) <==> k == UserUnif
    ensures k == UserUnif ==> o.state == s
    decreases |clock|, 3
  {
    var scrambled := LcgIter(50, seed);
    match k
    case WichmannHill | MarsagliaMultiCarry | SuperDuper | MersenneTwister =>
      FixupSpec(WithSeeds(s, LcgWords(scrambled, SeedLength(k))), k, true, clock)
    case KnuthTAOCP =>
      // the 1997 initialisation's words are returned and dropped
      Outcome(s, Done, clock)
    case KnuthTAOCP2002 =>
      Outcome(Knuth2002Seeded(s, scrambled), Done, clock)
    case LecuyerCMRG =>
      Outcome(WithSeeds(s, CmrgWords(scrambled, SeedLength(k))), Done, clock)
    case UserUnif =>
      Outcome(s, Failed(UnimplementedKind), clock)
  }

  /** `RNG_Init_KT2`: ran_start on the reduced seed, then the cursor store. */
  function Knuth2002Seeded(s: EngineState, seed: uint32): (t: EngineState)
    requires WellFormed(s)
    ensures WellFormed(t) && t.active == s.active && t.ranArrBuf == s.ranArrBuf
    ensures AllBelow(t.common[..KK], MM) && t.common[CURSOR] == 0 && !t.ranArrPtrSet
    ensures t.common[CURSOR + 1..] == s.common[CURSOR + 1..]
  {
    var start := RanStartState((seed as int % KT2_SEED_MODULUS) as uint32);
    RanStartStateBounded((seed as int % KT2_SEED_MODULUS) as uint32);
    s.(common := start + [0] + s.common[CURSOR + 1..], ranArrPtrSet := false)
  }

  // ---------------------------------------------------------------------
  // unif_rand

  datatype Drawn = Drawn(state: EngineState, value: Option<real>)

  /** `unif_rand()`: one step of the active generator and the value in (0, 1)
      it yields; the kinds without an implementation of their own run the
      L'Ecuyer step on the buffer. */
  function DrawSpec(s: EngineState): (d: Drawn)
    requires WellFormed(s)
    ensures WellFormed(d.state) && d.state.active == s.active
    ensures d.state.ranArrBuf == s.ranArrBuf && d.state.ranArrPtrSet == s.ranArrPtrSet
    ensures d.state.common[6..] == s.common[6..]
    ensures d.value.None? <==> s.active == UserUnif
    ensures d.value.None? ==> d.state == s
    ensures d.value.Some? ==> 0.0 < d.value.value < 1.0
  {
    match s.active
    case WichmannHill =>
      var w := WichmannHillStep(Seeds(s, WichmannHill));
      WithSeedsKeepsTail(s, w, 6);
      Drawn(WithSeeds(s, w), Some(WichmannHillValue(w)))
    case MarsagliaMultiCarry =>
      var w := MarsagliaStep(Seeds(s, MarsagliaMultiCarry));
      WithSeedsKeepsTail(s, w, 6);
      Drawn(WithSeeds(s, w), Some(MarsagliaValue(w)))
    case SuperDuper =>
      var w := SuperDuperStep(Seeds(s, SuperDuper));
      WithSeedsKeepsTail(s, w, 6);
      Drawn(WithSeeds(s, w), Some(SuperDuperValue(w)))
    case MersenneTwister | KnuthTAOCP | KnuthTAOCP2002 | LecuyerCMRG =>
      var o := LecuyerStep(s.common[..6]);
      WithSeedsKeepsTail(s, o.words, 6);
      Drawn(WithSeeds(s, o.words), Some(LecuyerValue(o.p1, o.p2)))
    case UserUnif =>
      Drawn(s, None)
  }

  // ---------------------------------------------------------------------
  // ran_arr_cycle and KT_next

  /** A new state and the word an operation returns. */
  datatype Cycled = Cycled(state: EngineState, value: uint32)

  /** `ran_arr_cycle()`: a batch of QUALITY words of the stream into the batch
      buffer, the sentinel at position KK, and the first word returned. */
  function CycleSpec(s: EngineState): (c: Cycled)
    requires WellFormed(s)
    ensures WellFormed(c.state) && c.state.active == s.active && c.state.ranArrPtrSet
    ensures c.state.common[KK..] == s.common[KK..]
    ensures c.state.ranArrBuf[KK] == SENTINEL
    ensures c.state.ranArrBuf[..KK] == s.common[..KK]
    ensures c.value == s.common[0]
  {
    var r := s.common[..KK];
    var batch := Lagged(r, QUALITY);
    LaggedPrefix(r, KK, QUALITY);
    Cycled(
      s.(common := Lagged(r, QUALITY + KK)[QUALITY..] + s.common[KK..],
         ranArrBuf := batch[KK := SENTINEL],
         ranArrPtrSet := true),
      batch[0])
  }

  /** `KT_next()`: refill when the cursor has reached KK, then store the
      cursor and return ran_x at the cursor. The cursor setter always stores
      0, so the word returned is always ran_x[0]. */
  function KtNextSpec(s: EngineState): (c: Cycled)
    requires WellFormed(s)
    ensures WellFormed(c.state) && c.state.active == s.active
    ensures c.state.common[CURSOR] == 0 && c.value == c.state.common[0]
    ensures s.common[CURSOR] as int < 100 ==> c.state == s.(common := s.common[CURSOR := 0])
    ensures s.common[CURSOR] as int >= 100 ==> c.state.ranArrPtrSet
  {
    var s1 := if s.common[CURSOR] as int >= 100 then CycleSpec(s).state else s;
    var s2 := s1.(common := s1.common[CURSOR := 0]);
    Cycled(s2, s2.common[0])
  }

  // ---------------------------------------------------------------------
  // PutRNGstate

  /** The buffer after `i_seed.set(seed)`: the leading words replaced by the
      supplied values, converted to words. */
  function Installed(common: seq<uint32>, seed: seq<int>): (c: seq<uint32>)
    requires |seed| <= |common|
    ensures |c| == |common|
    ensures forall i :: 0 <= i < |seed| ==> c[i] == ToUint32(seed[i])
    ensures c[|seed|..] == common[|seed|..]
  {
    seq(|common|, i requires 0 <= i < |common| => if i < |seed| then ToUint32(seed[i]) else common[i])
  }

  /** `PutRNGstate(uniform, normal, seed)`: load a saved state for a named
      generator. Names are upper-cased and must be a prefix of some kind's
      name; the descriptor is looked up by the exact names; a seed vector of
      the wrong length re-seeds from the clock, otherwise it is copied in
      without any repair. */
  function LoadSpec(s: EngineState, uniformName: string, normalName: string, seed: seq<int>,
                    clock: seq<uint32>): (o: Outcome)
    requires WellFormed(s)
    ensures WellFormed(o.state) && IsSuffix(o.clock, clock) && o.state.active == s.active
    ensures !SeedingStatus(o.status) ==> o.state == s && o.clock == clock
    ensures o.status != Failed(UnimplementedKind)
    ensures !SomeNameStartsWith(UniformNames, UpperAscii(uniformName))
      ==> o == Outcome(s, Failed(UnknownUniformKind), clock)
    ensures SomeNameStartsWith(UniformNames, UpperAscii(uniformName))
      && !SomeNameStartsWith(NormalNames, UpperAscii(normalName))
      ==> o == Outcome(s, Failed(UnknownNormalKind), clock)
  {
    var u := UpperAscii(uniformName);
    var n := UpperAscii(normalName);
    if !SomeNameStartsWith(UniformNames, u) then Outcome(s, Failed(UnknownUniformKind), clock)
    else if !SomeNameStartsWith(NormalNames, n) then Outcome(s, Failed(UnknownNormalKind), clock)
    else
      var k := KindNamed(u);
      var nk := NormalNamed(n);
      if k.None? || nk.None? || Lookup(k.value, nk.value).None? then
        Outcome(s, Failed(MissingDescriptor), clock)
      else
        LookupExact(k.value, nk.value);
        var nSeed := Lookup(k.value, nk.value).value.nSeed;
        if |seed| > nSeed || |seed| == 0 then RandomizeSpec(s, k.value, clock)
        else Outcome(s.(common := Installed(s.common, seed)), Done, clock)
  }
}
