/** The uniform random number engine as the program keeps it: one shared
    state buffer behind every generator's seed view, the batch buffer of the
    Knuth generator, and the operations that change them in place. Every
    operation is proved to act on the state as its function in EngineSpec
    says. */
module Rng {
  import opened Words
  import opened Registry
  import opened Knuth
  import opened Generators
  import opened EngineSpec

  class Engine {
    /** The buffer behind every `i_seed` view and behind `ran_x`. */
    const common: array<uint32>
    /** `ran_arr_buf`, filled by `ran_arr_cycle`. */
    const ranArrBuf: array<uint32>
    /** Whether `ran_arr_ptr` is set. */
    var ranArrPtrSet: bool
    /** `RNG_kind`: the generator `unif_rand` steps; the program never
        changes it. */
    const active: Kind

    predicate Valid()
    {
      common.Length == BUFFER_WORDS && ranArrBuf.Length == QUALITY && common != ranArrBuf
    }

    /** The engine's state as a value. */
    function Abstract(): (s: EngineState)
      requires Valid()
      reads this, common, ranArrBuf
      ensures WellFormed(s) && s.active == active
    {
      EngineState(common[..], ranArrBuf[..], ranArrPtrSet, active)
    }

    /** The engine at module load: both buffers zero, no batch pointer. */
    constructor(kind: Kind)
      ensures Valid() && fresh(common) && fresh(ranArrBuf)
      ensures Abstract() == Initial(kind)
    {
      common := new uint32[BUFFER_WORDS](_ => 0);
      ranArrBuf := new uint32[QUALITY](_ => 0);
      ranArrPtrSet := false;
      active := kind;
    }

    // -------------------------------------------------------------------
    // The Knuth-TAOCP cursor and batch

    /** `KT_pos()`: the cursor word. */
    function KtPos(): (p: uint32)
      requires Valid()
      reads common
      ensures p == Abstract().common[CURSOR]
    {
      common[CURSOR]
    }

    /** `KT_pos(s)`: the setter stores 0 whatever s is. */
    method SetKtPos(s: int)
      requires Valid()
      modifies common
      ensures common[..] == old(common[..])[CURSOR := 0]
    {
      common[CURSOR] := 0;
    }

    /** `ran_arr_cycle()`. */
    method RanArrCycle() returns (first: uint32)
      requires Valid()
      modifies this, common, ranArrBuf
      ensures Cycled(Abstract(), first) == CycleSpec(old(Abstract()))
    {
      ghost var s := Abstract();
      RanArray(ranArrBuf, common, QUALITY);
      ranArrBuf[KK] := SENTINEL;
      ranArrPtrSet := true;
      first := ranArrBuf[0];
      ghost var r := s.common[..KK];
      assert common[..] == common[..KK] + common[KK..];
      assert common[..] == Lagged(r, QUALITY + KK)[QUALITY..] + s.common[KK..];
      assert ranArrBuf[..] == Lagged(r, QUALITY)[KK := SENTINEL];
    }

    /** `KT_next()`. */
    method KtNext() returns (v: uint32)
      requires Valid()
      modifies this, common, ranArrBuf
      ensures Cycled(Abstract(), v) == KtNextSpec(old(Abstract()))
    {
      if KtPos() >= 100 {
        var _ := RanArrCycle();
        SetKtPos(0);
      }
      SetKtPos(KtPos() as int + 1);
      v := common[KtPos()];
    }

    // -------------------------------------------------------------------
    // ran_start and RNG_Init_KT2

    /** `ran_start(seed)`: the preparation buffer, its rotation into ran_x
        and ten warm-up batches. */
    method RanStart(seed: uint32)
      requires Valid()
      modifies this, common
      ensures Abstract() == old(Abstract()).(common := RanStartState(seed) + old(common[KK..]), ranArrPtrSet := false)
    {
      var x := PrepareBuffer(seed);
      CopyRotated(x);
      WarmUp(x, seed);
      ranArrPtrSet := false;
      assert common[..] == common[..KK] + common[KK..];
    }

    /** The two copy loops of `ran_start`: the first KK words of the
        preparation buffer, rotated left by LL, become ran_x. */
    method CopyRotated(x: array<uint32>)
      requires Valid() && x.Length == SPAN && x != common
      modifies common
      ensures common[..KK] == Rotated(x[..])
      ensures common[KK..] == old(common[KK..])
    {
      ghost var rot := Rotated(x[..]);
      var j := 0;
      while j < LL
        invariant 0 <= j <= LL
        invariant forall i :: KK - LL <= i < KK - LL + j ==> common[i] == rot[i]
        invariant forall i :: KK <= i < BUFFER_WORDS ==> common[i] == old(common[i])
      {
        assert rot[j + KK - LL] == x[j];
        common[j + KK - LL] := x[j];
        j := j + 1;
      }
      while j < KK
        invariant LL <= j <= KK
        invariant forall i :: 0 <= i < j - LL ==> common[i] == rot[i]
        invariant forall i :: KK - LL <= i < KK ==> common[i] == rot[i]
        invariant forall i :: KK <= i < BUFFER_WORDS ==> common[i] == old(common[i])
      {
        assert rot[j - LL] == x[j];
        common[j - LL] := x[j];
        j := j + 1;
      }
      assert common[..KK] == rot;
    }

    /** The ten warm-up calls `ran_array(x, KK + KK - 1)` of `ran_start`. */
    method WarmUp(x: array<uint32>, ghost seed: uint32)
      requires Valid() && x.Length == SPAN && x != common
      requires common[..KK] == Rotated(Prepared(seed))
      modifies common, x
      ensures common[..KK] == RanStartState(seed)
      ensures common[KK..] == old(common[KK..])
    {
      var j := 0;
      while j < 10
        invariant 0 <= j <= 10
        invariant WarmedUp(common[..KK], 10 - j) == RanStartState(seed)
        invariant common[KK..] == old(common[KK..])
      {
        RanArray(x, common, SPAN);
        j := j + 1;
      }
    }

    /** `RNG_Init_KT2(seed)`. */
    method RngInitKnuth2002(seed: uint32)
      requires Valid()
      modifies this, common
      ensures Abstract() == Knuth2002Seeded(old(Abstract()), seed)
    {
      ghost var s := Abstract();
      RanStart((seed as int % KT2_SEED_MODULUS) as uint32);
      SetKtPos(100);
      ghost var t := Knuth2002Seeded(s, seed);
      assert forall i :: 0 <= i < BUFFER_WORDS ==> common[i] == t.common[i];
      assert common[..] == t.common;
    }

    // -------------------------------------------------------------------
    // unif_rand

    /** `unif_rand()`: one step of the active generator on its view of the
        buffer, and the value drawn; None where the source throws. */
    method UnifRand() returns (value: Option<real>)
      requires Valid()
      modifies common
      ensures Drawn(Abstract(), value) == DrawSpec(old(Abstract()))
    {
      ghost var s := Abstract();
      match active
      case WichmannHill =>
        value := WichmannHillDraw();
      case MarsagliaMultiCarry =>
        value := MarsagliaDraw();
      case SuperDuper =>
        value := SuperDuperDraw();
      case MersenneTwister | KnuthTAOCP | KnuthTAOCP2002 | LecuyerCMRG =>
        value := LecuyerDraw();
      case UserUnif =>
        value := None;
    }

    /** The Wichmann-Hill branch of `unif_rand`. */
    method WichmannHillDraw() returns (value: Option<real>)
      requires Valid()
      modifies common
      ensures common[..] == WichmannHillStep(old(common[..3])) + old(common[3..])
      ensures value == Some(WichmannHillValue(common[..3]))
    {
      common[0] := ToUint32(common[0] as int * 171);
      common[1] := ToUint32(common[1] as int * 172);
      common[2] := ToUint32(common[2] as int * 170);
      value := Some(WichmannHillValue(common[..3]));
    }

    /** The Marsaglia-MultiCarry branch of `unif_rand`. */
    method MarsagliaDraw() returns (value: Option<real>)
      requires Valid()
      modifies common
      ensures common[..] == MarsagliaStep(old(common[..2])) + old(common[2..])
      ensures value == Some(MarsagliaValue(common[..2]))
    {
      common[0] := MultiplyWithCarry(common[0], 36969);
      common[1] := MultiplyWithCarry(common[1], 18000);
      value := Some(MarsagliaValue(common[..2]));
    }

    /** The Super-Duper branch of `unif_rand`. */
    method SuperDuperDraw() returns (value: Option<real>)
      requires Valid()
      modifies common
      ensures common[..] == SuperDuperStep(old(common[..2])) + old(common[2..])
      ensures value == Some(SuperDuperValue(common[..2]))
    {
      common[0] := Xor(common[0], common[0] / 32768);
      common[0] := Xor(common[0], ToUint32(common[0] as int * 131072));
      common[1] := ToUint32(common[1] as int * 69069);
      value := Some(SuperDuperValue(common[..2]));
    }

    /** The L'Ecuyer-CMRG branch of `unif_rand`, in the source's order of
        reads and writes: word 2 holds p1 when p2 reads it. */
    method LecuyerDraw() returns (value: Option<real>)
      requires Valid()
      modifies common
      ensures common[..] == LecuyerStep(old(common[..6])).words + old(common[6..])
      ensures value == Some(LecuyerValue(LecuyerStep(old(common[..6])).p1, LecuyerStep(old(common[..6])).p2))
    {
      ghost var c0 := common[..];
      ghost var o := LecuyerStep(c0[..6]);
      var p1 := LecuyerFirstComponent();
      var p2 := LecuyerSecondComponent(p1);
      value := Some((if p1 > p2 then p1 - p2 else p1 - p2 + M1) as real * NORMC);
      assert c0[..6][1] == c0[1] && c0[..6][5] == c0[5];
      assert p1 == o.p1 && p2 == o.p2;
      ghost var t := o.words + c0[6..];
      assert forall i :: 0 <= i < BUFFER_WORDS ==> common[i] == t[i];
      assert common[..] == t;
    }

    /** The first component: p1 from word 1, words 1 and 2 move down and p1
        is stored in word 2. */
    method LecuyerFirstComponent() returns (p1: int)
      requires Valid()
      modifies common
      ensures p1 == Reduced(A12 * old(common[1]) as int - A13N * old(common[1]) as int, M1)
      ensures common[0] == old(common[1]) && common[1] == old(common[2]) && common[2] as int == p1
      ensures forall i :: 3 <= i < BUFFER_WORDS ==> common[i] == old(common[i])
    {
      p1 := ModuloReduced(A12 * common[1] as int - A13N * common[1] as int, M1);
      common[0] := common[1];
      common[1] := common[2];
      common[2] := p1 as uint32;
    }

    /** The second component: p2 from word 5 and word 2, which holds p1;
        words 3 and 4 move down and p2 is stored in word 4. */
    method LecuyerSecondComponent(p1: int) returns (p2: int)
      requires Valid() && common[2] as int == p1
      modifies common
      ensures p2 == Reduced(A21 * old(common[5]) as int - A23N * p1, M2)
      ensures common[2] == old(common[3]) && common[3] == old(common[4]) && common[4] as int == p2
      ensures forall i :: 0 <= i < BUFFER_WORDS && i != 2 && i != 3 && i != 4 ==> common[i] == old(common[i])
    {
      p2 := ModuloReduced(A21 * common[5] as int - A23N * common[2] as int, M2);
      common[2] := common[3];
      common[3] := common[4];
      common[4] := p2 as uint32;
    }

    /** `k = trunc(p / m); p -= k * m; if (p < 0) p += m`. */
    static method ModuloReduced(p: int, m: int) returns (r: int)
      requires m > 0
      ensures r == Reduced(p, m)
    {
      var k := TruncDiv(p, m);
      r := p - k * m;
      if r < 0 {
        r := r + m;
      }
    }

    // -------------------------------------------------------------------
    // FixupSeeds, Randomize and RNG_Init

    /** `FixupSeeds(kind, initial)`. */
    method FixupSeeds(kind: Kind, initial: bool, clock: seq<uint32>) returns (status: Status, rest: seq<uint32>)
      requires Valid()
      modifies this, common
      ensures Outcome(Abstract(), status, rest) == FixupSpec(old(Abstract()), kind, initial, clock)
      decreases |clock|, 3
    {
      match kind
      case WichmannHill =>
        FixupWichmannHill();
        status, rest := Done, clock;
      case SuperDuper =>
        FixupSuperDuper();
        status, rest := Done, clock;
      case MarsagliaMultiCarry =>
        FixupMarsaglia();
        status, rest := Done, clock;
      case MersenneTwister =>
        status, rest := FixupMersenne(initial, clock);
      case KnuthTAOCP | KnuthTAOCP2002 =>
        status, rest := FixupKnuth(kind, clock);
      case LecuyerCMRG =>
        status, rest := FixupLecuyer(clock);
      case UserUnif =>
        status, rest := Failed(UnimplementedKind), clock;
    }

    /** The Wichmann-Hill case of `FixupSeeds`. */
    method FixupWichmannHill()
      requires Valid()
      modifies common
      ensures common[..] == WichmannHillFixed(old(common[..3])) + old(common[3..])
    {
      common[0] := common[0] % 30269;
      common[1] := common[1] % 30307;
      common[2] := common[2] % 30323;
      if common[0] == 0 { common[0] := 1; }
      if common[1] == 0 { common[1] := 1; }
      if common[2] == 0 { common[2] := 1; }
      assert common[..3] == WichmannHillFixed(old(common[..3]));
      assert common[..] == common[..3] + common[3..];
    }

    /** The Super-Duper case of `FixupSeeds`; `seeds[1] |= 1` sets the low bit. */
    method FixupSuperDuper()
      requires Valid()
      modifies common
      ensures common[..] == SuperDuperFixed(old(common[..2])) + old(common[2..])
    {
      if common[0] == 0 { common[0] := 1; }
      if common[1] % 2 == 0 { common[1] := common[1] + 1; }
      assert common[..2] == SuperDuperFixed(old(common[..2]));
      assert common[..] == common[..2] + common[2..];
    }

    /** The Marsaglia-MultiCarry case of `FixupSeeds`. */
    method FixupMarsaglia()
      requires Valid()
      modifies common
      ensures common[..] == MarsagliaFixed(old(common[..2])) + old(common[2..])
    {
      if common[0] == 0 { common[0] := 1; }
      if common[1] == 0 { common[1] := 1; }
      assert common[..2] == MarsagliaFixed(old(common[..2]));
      assert common[..] == common[..2] + common[2..];
    }

    /** The Mersenne-Twister case of `FixupSeeds`: the position word, then
        the zero check as written, which re-seeds a state holding any
        nonzero word. */
    method FixupMersenne(initial: bool, clock: seq<uint32>) returns (status: Status, rest: seq<uint32>)
      requires Valid()
      modifies this, common
      ensures Outcome(Abstract(), status, rest) == FixupSpec(old(Abstract()), MersenneTwister, initial, clock)
      decreases |clock|, 1
    {
      ghost var s := Abstract();
      if initial { common[0] := MT_POSITION; }
      if common[0] == 0 { common[0] := MT_POSITION; }
      ghost var position := if initial || s.common[0] == 0 then MT_POSITION else s.common[0];
      assert common[..] == s.common[0 := position];
      if HasNonZero(common[1..]) {
        status, rest := Randomize(MersenneTwister, clock);
      } else {
        status, rest := Done, clock;
      }
    }

    /** The Knuth-TAOCP case of `FixupSeeds`: the cursor word, then the zero
        check as written. */
    method FixupKnuth(kind: Kind, clock: seq<uint32>) returns (status: Status, rest: seq<uint32>)
      requires Valid() && (kind == KnuthTAOCP || kind == KnuthTAOCP2002)
      modifies this, common
      ensures Outcome(Abstract(), status, rest) == FixupSpec(old(Abstract()), kind, false, clock)
      decreases |clock|, 1
    {
      ghost var s := Abstract();
      if common[CURSOR] == 0 { common[CURSOR] := 100; }
      ghost var cursor: uint32 := if s.common[CURSOR] == 0 then 100 else s.common[CURSOR];
      assert common[..] == s.common[CURSOR := cursor];
      if HasNonZero(common[..SeedLength(kind)]) {
        status, rest := Randomize(kind, clock);
      } else {
        status, rest := Done, clock;
      }
    }

    /** The L'Ecuyer-CMRG case of `FixupSeeds`: words 0..2 checked against
        m1 and words 3..5 against m2, with flags that carry over from the
        first check to the second. */
    method FixupLecuyer(clock: seq<uint32>) returns (status: Status, rest: seq<uint32>)
      requires Valid()
      modifies this, common
      ensures Outcome(Abstract(), status, rest) == FixupSpec(old(Abstract()), LecuyerCMRG, false, clock)
      decreases |clock|, 2
    {
      var notAllZero, allOk := ScanWords(0, 3, M1, false, true);
      rest := clock;
      if !notAllZero || !allOk {
        status, rest := Randomize(LecuyerCMRG, clock);
        if status.Failed? {
          return;
        }
      }
      status, rest := CmrgSecondCheck(notAllZero, allOk, rest);
    }

    /** The second half of the L'Ecuyer-CMRG case: words 3..5 against m2,
        the flags starting from where the first half left them. */
    method CmrgSecondCheck(notAllZero: bool, allOk: bool, clock: seq<uint32>) returns (status: Status, rest: seq<uint32>)
      requires Valid()
      modifies this, common
      ensures Outcome(Abstract(), status, rest) == EngineSpec.CmrgSecondCheck(old(Abstract()), notAllZero, allOk, clock)
      decreases |clock|, 1
    {
      var notAllZero', allOk' := ScanWords(3, 6, M2, notAllZero, allOk);
      if !notAllZero' || !allOk' {
        status, rest := Randomize(LecuyerCMRG, clock);
      } else {
        status, rest := Done, clock;
      }
    }

    /** One checking loop of the L'Ecuyer-CMRG case: a flag set by any
        nonzero word and a flag cleared by any word at or above the bound. */
    method ScanWords(lo: nat, hi: nat, bound: int, notAllZero0: bool, allOk0: bool) returns (notAllZero: bool, allOk: bool)
      requires Valid() && lo <= hi <= BUFFER_WORDS
      ensures notAllZero == (notAllZero0 || HasNonZero(common[lo..hi]))
      ensures allOk == (allOk0 && AllBelow(common[lo..hi], bound))
    {
      notAllZero, allOk := notAllZero0, allOk0;
      var j := lo;
      while j < hi
        invariant lo <= j <= hi
        invariant notAllZero == (notAllZero0 || HasNonZero(common[lo..j]))
        invariant allOk == (allOk0 && AllBelow(common[lo..j], bound))
      {
        HasNonZeroExtend(common[..], lo, j);
        AllBelowExtend(common[..], lo, j, bound);
        var tmp := common[j];
        if tmp != 0 { notAllZero := true; }
        if tmp as int >= bound { allOk := false; }
        j := j + 1;
      }
    }

    /** `Randomize(kind)`: `RNG_Init` with the next time reading. */
    method Randomize(kind: Kind, clock: seq<uint32>) returns (status: Status, rest: seq<uint32>)
      requires Valid()
      modifies this, common
      ensures Outcome(Abstract(), status, rest) == RandomizeSpec(old(Abstract()), kind, clock)
      decreases |clock|, 0
    {
      if clock == [] {
        status, rest := Failed(ClockExhausted), clock;
      } else {
        status, rest := RngInit(kind, clock[0], clock[1..]);
      }
    }

    /** `RNG_Init(kind, seed)`. */
    method RngInit(kind: Kind, seed: uint32, clock: seq<uint32>) returns (status: Status, rest: seq<uint32>)
      requires Valid()
      modifies this, common
      ensures Outcome(Abstract(), status, rest) == InitSpec(old(Abstract()), kind, seed, clock)
      decreases |clock|, 4
    {
      var scrambled := seed;
      var j := 0;
      while j < 50
        invariant 0 <= j <= 50 && scrambled == LcgIter(j, seed)
      {
        scrambled := ((69069 * scrambled as int + 1) % TWO32) as uint32;
        j := j + 1;
      }
      match kind
      case WichmannHill | MarsagliaMultiCarry | SuperDuper | MersenneTwister =>
        WriteCongruenceWords(scrambled, SeedLength(kind));
        status, rest := FixupSeeds(kind, true, clock);
      case KnuthTAOCP =>
        status, rest := Done, clock;
      case KnuthTAOCP2002 =>
        RngInitKnuth2002(scrambled);
        status, rest := Done, clock;
      case LecuyerCMRG =>
        WriteLecuyerWords(scrambled, SeedLength(kind));
        status, rest := Done, clock;
      case UserUnif =>
        status, rest := Failed(UnimplementedKind), clock;
    }

    /** The seeding loop of the basic kinds: n successive values of the
        congruence after the scrambled seed. */
    method WriteCongruenceWords(seed: uint32, n: nat)
      requires Valid() && n <= BUFFER_WORDS
      modifies common
      ensures common[..] == LcgWords(seed, n) + old(common[n..])
    {
      ghost var target := LcgWords(seed, n);
      var x := seed;
      var j := 0;
      while j < n
        invariant 0 <= j <= n && x == LcgIter(j, seed)
        invariant forall i :: 0 <= i < j ==> common[i] == target[i]
        invariant forall i :: j <= i < BUFFER_WORDS ==> common[i] == old(common[i])
      {
        x := ((69069 * x as int + 1) % TWO32) as uint32;
        common[j] := x;
        j := j + 1;
      }
      assert common[..n] == target;
      assert common[..] == common[..n] + common[n..];
    }

    /** The seeding loop of L'Ecuyer-CMRG: each word is the next value of
        the congruence, advanced until it is below m2. */
    method WriteLecuyerWords(seed: uint32, n: nat)
      requires Valid() && n <= BUFFER_WORDS
      modifies common
      ensures common[..] == CmrgWords(seed, n) + old(common[n..])
    {
      ghost var target := CmrgWords(seed, n);
      var x := seed;
      var j := 0;
      while j < n
        invariant 0 <= j <= n
        invariant x == if j == 0 then seed else target[j - 1]
        invariant forall i :: 0 <= i < j ==> common[i] == target[i]
        invariant forall i :: n <= i < BUFFER_WORDS ==> common[i] == old(common[i])
      {
        CmrgWordsStep(seed, n, j);
        x := NextBelowM2(x);
        assert x == target[j];
        common[j] := x;
        j := j + 1;
      }
      assert common[..n] == target;
      assert common[..] == common[..n] + common[n..];
    }

    /** `seed = 69069 * seed + 1; while (seed >= m2) seed = 69069 * seed + 1`. */
    static method NextBelowM2(seed: uint32) returns (x: uint32)
      ensures x == Rejected(Lcg(seed))
    {
      x := ((69069 * seed as int + 1) % TWO32) as uint32;
      while x as int >= M2
        invariant Rejected(x) == Rejected(Lcg(seed))
        decreases if x as int >= M2 then 1 else 0
      {
        LcgFromHigh(x);
        x := ((69069 * x as int + 1) % TWO32) as uint32;
      }
    }

    // -------------------------------------------------------------------
    // PutRNGstate

    /** `PutRNGstate(uniform, normal, seed)`. */
    method PutRngState(uniformName: string, normalName: string, seed: seq<int>, clock: seq<uint32>)
      returns (status: Status, rest: seq<uint32>)
      requires Valid()
      modifies this, common
      ensures Outcome(Abstract(), status, rest) == LoadSpec(old(Abstract()), uniformName, normalName, seed, clock)
    {
      var unifKind := UpperAscii(uniformName);
      var normKind := UpperAscii(normalName);
      if !SomeNameStartsWith(UniformNames, unifKind) {
        return Failed(UnknownUniformKind), clock;
      }
      if !SomeNameStartsWith(NormalNames, normKind) {
        return Failed(UnknownNormalKind), clock;
      }
      var su := KindNamed(unifKind);
      var sn := NormalNamed(normKind);
      var select := if su.Some? && sn.Some? then Lookup(su.value, sn.value) else None;
      if select.Some? && |seed| > select.value.nSeed {
        status, rest := Randomize(su.value, clock);
        return;
      }
      if select.Some? && |seed| == 0 {
        status, rest := Randomize(su.value, clock);
        return;
      }
      if select.Some? {
        LookupExact(su.value, sn.value);
        forall i | 0 <= i < |seed| {
          common[i] := ToUint32(seed[i]);
        }
        assert common[..] == Installed(old(common[..]), seed);
        return Done, clock;
      }
      return Failed(MissingDescriptor), clock;
    }
  }
}
