/** The classical uniform generators: the seeding congruence, the per-kind
    repair of a state, one step of each generator and the value it yields.
    A state is the sequence of its words; draws are exact reals. */
module Generators {
  import opened Words

  // L'Ecuyer-CMRG (MRG32k3a) moduli and multipliers.
  const M1: int := 4294967087
  const M2: int := 4294944443
  const A12: int := 1403580
  const A13N: int := 810728
  const A21: int := 527612
  const A23N: int := 1370589

  /** 1 / (2^32 - 1), the scale of the 32-bit generators. */
  const I2_32M1: real := 2.328306437080797e-10
  /** The scale of the L'Ecuyer combination, just below 1 / M1. */
  const NORMC: real := 2.328306549295727688e-10

  /** The Wichmann-Hill moduli and multipliers, word by word. */
  const WH_MODULI: seq<int> := [30269, 30307, 30323]
  const WH_MULTIPLIERS: seq<int> := [171, 172, 170]

  // ---------------------------------------------------------------------
  // The clamp of the returned value

  /** `fixup`: keeps 0 and 1 out of the results. */
  function Fixup(x: real): (r: real)
    ensures 0.0 < r < 1.0
    ensures 0.0 < x < 1.0 ==> r == x
    ensures x <= 0.0 ==> r == 0.5 * I2_32M1
    ensures x >= 1.0 ==> r == 1.0 - 0.5 * I2_32M1
  {
    if x <= 0.0 then 0.5 * I2_32M1
    else if 1.0 - x <= 0.0 then 1.0 - 0.5 * I2_32M1
    else x
  }

  /** `frac` of a non-negative real: its fractional part. */
  function Frac(x: real): (f: real)
    requires x >= 0.0
    ensures 0.0 <= f < 1.0
    ensures (x - f).Floor as real == x - f
  {
    x - x.Floor as real
  }

  // ---------------------------------------------------------------------
  // The seeding congruence seed := 69069 * seed + 1 (mod 2^32)

  function Lcg(x: uint32): uint32
  {
    ((69069 * x as int + 1) % TWO32) as uint32
  }

  /** n applications of the congruence. */
  function LcgIter(n: nat, x: uint32): uint32
  {
    if n == 0 then x else Lcg(LcgIter(n - 1, x))
  }

  lemma {:induction false} LcgIterAdd(m: nat, n: nat, x: uint32)
    ensures LcgIter(m + n, x) == LcgIter(n, LcgIter(m, x))
    decreases n
  {
    if n > 0 {
      LcgIterAdd(m, n - 1, x);
    }
  }

  /** Two successive values of the congruence are never both zero. */
  lemma LcgZeroThenOne(x: uint32)
    ensures x == 0 ==> Lcg(x) == 1
    ensures Lcg(x) != 0 || x != 0
  {
  }

  /** A value at or above M2 is followed by one below it: the rejection loop
      of the L'Ecuyer seeding runs at most once per word. */
  lemma LcgFromHigh(x: uint32)
    requires x as int >= M2
    ensures (Lcg(x) as int) < M2
  {
    var d := TWO32 - x as int;
    var v := 69069 * x as int + 1;
    assert 1 <= d <= TWO32 - M2;
    assert v == 69068 * TWO32 + (TWO32 - 69069 * d + 1);
    assert 0 <= TWO32 - 69069 * d + 1 < M2;
  }

  /** The rejection loop `while (seed >= m2) seed = 69069 * seed + 1`. */
  function Rejected(x: uint32): (y: uint32)
    ensures (y as int) < M2
    ensures (x as int) < M2 ==> y == x
    ensures (x as int) >= M2 ==> y == Lcg(x)
    decreases if (x as int) >= M2 then 1 else 0
  {
    if (x as int) < M2 then x
    else
      LcgFromHigh(x);
      Rejected(Lcg(x))
  }

  /** The words of the basic kinds after seeding: word j is the (j+1)-th
      value of the congruence after the seed. */
  function LcgWords(seed: uint32, n: nat): (w: seq<uint32>)
    ensures |w| == n
  {
    seq(n, j requires 0 <= j < n => LcgIter(j + 1, seed))
  }

  /** The n words the L'Ecuyer seeding writes: each is the next value of the
      congruence, advanced past M2 when needed. */
  function CmrgWords(seed: uint32, n: nat): (w: seq<uint32>)
    ensures |w| == n && AllBelow(w, M2)
    ensures n > 0 ==> w[0] == Rejected(Lcg(seed))
    decreases n
  {
    if n == 0 then []
    else
      var x := Rejected(Lcg(seed));
      [x] + CmrgWords(x, n - 1)
  }

  /** Word j of the L'Ecuyer seeding is the next value of the congruence
      after word j - 1 (after the seed for j = 0), advanced past M2 when
      needed. */
  lemma {:induction false} CmrgWordsStep(seed: uint32, m: nat, j: nat)
    requires j < m
    ensures CmrgWords(seed, m)[j] == Rejected(Lcg(if j == 0 then seed else CmrgWords(seed, m)[j - 1]))
    decreases j
  {
    if j > 0 {
      var x := Rejected(Lcg(seed));
      CmrgWordsStep(x, m - 1, j - 1);
      assert CmrgWords(seed, m) == [x] + CmrgWords(x, m - 1);
    }
  }

  // ---------------------------------------------------------------------
  // Wichmann-Hill

  /** `FixupSeeds` for Wichmann-Hill: each word reduced by its modulus, and a
      zero remainder mapped to 1. */
  function WichmannHillFixed(w: seq<uint32>): (f: seq<uint32>)
    requires |w| == 3
    ensures |f| == 3
    ensures forall i :: 0 <= i < 3 ==> 1 <= f[i] as int < WH_MODULI[i]
    ensures forall i :: 0 <= i < 3 ==> 1 <= w[i] as int < WH_MODULI[i] ==> f[i] == w[i]
  {
    seq(3, i requires 0 <= i < 3 =>
      var r := w[i] as int % WH_MODULI[i];
      if r == 0 then 1 else r as uint32)
  }

  lemma WichmannHillFixedIdempotent(w: seq<uint32>)
    requires |w| == 3
    ensures WichmannHillFixed(WichmannHillFixed(w)) == WichmannHillFixed(w)
  {
  }

  /** One Wichmann-Hill step: each word multiplied by its multiplier and
      stored modulo 2^32, without reduction by the modulus. */
  function WichmannHillStep(w: seq<uint32>): (w': seq<uint32>)
    requires |w| == 3
    ensures |w'| == 3
    ensures forall i :: 0 <= i < 3 ==> (w'[i] as int - WH_MULTIPLIERS[i] * w[i] as int) % TWO32 == 0
  {
    seq(3, i requires 0 <= i < 3 => ToUint32(WH_MULTIPLIERS[i] * w[i] as int))
  }

  /** The value drawn from a Wichmann-Hill state after its step. */
  function WichmannHillValue(w: seq<uint32>): (u: real)
    requires |w| == 3
    ensures 0.0 < u < 1.0
  {
    Fixup(Frac(w[0] as real / 30269.0 + w[1] as real / 30307.0 + w[2] as real / 30323.0))
  }

  /** The step does not keep the words below their moduli: a repaired state
      leaves that range after one step. */
  lemma WichmannHillStepLeavesRange()
    ensures WichmannHillFixed([30268, 1, 1]) == [30268, 1, 1]
    ensures WichmannHillStep([30268, 1, 1])[0] as int >= WH_MODULI[0]
  {
    assert WichmannHillStep([30268, 1, 1])[0] as int == 171 * 30268;
  }

  // ---------------------------------------------------------------------
  // Marsaglia-MultiCarry

  /** `FixupSeeds` for Marsaglia-MultiCarry and the first word of
      Super-Duper: a zero word becomes 1. */
  function NonZero(x: uint32): (y: uint32)
    ensures y != 0
    ensures x != 0 ==> y == x
  {
    if x == 0 then 1 else x
  }

  function MarsagliaFixed(w: seq<uint32>): (f: seq<uint32>)
    requires |w| == 2
    ensures |f| == 2 && f[0] != 0 && f[1] != 0
    ensures w[0] != 0 && w[1] != 0 ==> f == w
  {
    [NonZero(w[0]), NonZero(w[1])]
  }

  lemma MarsagliaFixedIdempotent(w: seq<uint32>)
    requires |w| == 2
    ensures MarsagliaFixed(MarsagliaFixed(w)) == MarsagliaFixed(w)
  {
  }

  /** `a * (x & 65535) + (x >> 16)` stored back into a word, where `>>`
      shifts the signed 32-bit reading of x. */
  function MultiplyWithCarry(x: uint32, a: nat): uint32
  {
    ToUint32(a * (x as int % 65536) + ToInt32(x) / 65536)
  }

  function MarsagliaStep(w: seq<uint32>): (w': seq<uint32>)
    requires |w| == 2
    ensures |w'| == 2
  {
    [MultiplyWithCarry(w[0], 36969), MultiplyWithCarry(w[1], 18000)]
  }

  /** A word below 2^31 takes the textbook multiply-with-carry step; a word
      with the top bit set gets a carry 65536 smaller, from the sign
      extension of `>>`. */
  lemma MarsagliaStepCarries(w: seq<uint32>)
    requires |w| == 2
    ensures var w' := MarsagliaStep(w);
      && (w[0] as int < TWO31 ==> w'[0] as int == 36969 * (w[0] as int % 65536) + w[0] as int / 65536)
      && (w[1] as int < TWO31 ==> w'[1] as int == 18000 * (w[1] as int % 65536) + w[1] as int / 65536)
      && (w[0] as int >= TWO31 ==>
           w'[0] as int == (36969 * (w[0] as int % 65536) + w[0] as int / 65536 - 65536) % TWO32)
      && (w[1] as int >= TWO31 ==>
           w'[1] as int == (18000 * (w[1] as int % 65536) + w[1] as int / 65536 - 65536) % TWO32)
  {
    assert w[0] as int >= TWO31 ==> ToInt32(w[0]) / 65536 == w[0] as int / 65536 - 65536;
    assert w[1] as int >= TWO31 ==> ToInt32(w[1]) / 65536 == w[1] as int / 65536 - 65536;
  }

  /** `(seeds[0] << 16) ^ (seeds[1] & 65535)`: a signed 32-bit integer made
      of the low halves of the two words. */
  function MarsagliaNumerator(w: seq<uint32>): (v: int)
    requires |w| == 2
    ensures -TWO31 <= v < TWO31
  {
    ToInt32(Xor(ToUint32(w[0] as int * 65536), ToUint32(w[1] as int % 65536)))
  }

  function MarsagliaValue(w: seq<uint32>): (u: real)
    requires |w| == 2
    ensures 0.0 < u < 1.0
  {
    Fixup(MarsagliaNumerator(w) as real * I2_32M1)
  }

  lemma XorExampleMarsaglia()
    ensures Xor(0x9069_0000, 0x4650) == 0x9069_4650
  {
  }

  lemma MarsagliaStepOfOnes()
    ensures MarsagliaStep([1, 1]) == [36969, 18000]
  {
    assert ToInt32(1) / 65536 == 0 && 1 % 65536 == 1;
    assert MultiplyWithCarry(1, 36969) == ToUint32(36969);
    assert MultiplyWithCarry(1, 18000) == ToUint32(18000);
  }

  lemma MarsagliaNumeratorExample()
    ensures MarsagliaNumerator([36969, 18000]) == 0x9069_4650 - TWO32
  {
    assert ToUint32(36969 * 65536) == 0x9069_0000;
    assert ToUint32(18000 % 65536) == 0x4650;
    XorExampleMarsaglia();
  }

  /** With the signed reading, a step that leaves bit 15 of the first word
      set gives a negative numerator, and the draw is the clamp value; the
      state [1, 1] is such a state. */
  lemma MarsagliaClampedDraw()
    ensures MarsagliaValue(MarsagliaStep([1, 1])) == 0.5 * I2_32M1
  {
    MarsagliaStepOfOnes();
    MarsagliaNumeratorExample();
  }

  // ---------------------------------------------------------------------
  // Super-Duper

  /** `FixupSeeds` for Super-Duper: the first word nonzero, the second odd. */
  function SuperDuperFixed(w: seq<uint32>): (f: seq<uint32>)
    requires |w| == 2
    ensures |f| == 2 && f[0] != 0 && f[1] as int % 2 == 1
    ensures w[0] != 0 && w[1] as int % 2 == 1 ==> f == w
    ensures f[1] as int - w[1] as int in {0, 1}
  {
    [NonZero(w[0]), if w[1] as int % 2 == 0 then w[1] + 1 else w[1]]
  }

  lemma SuperDuperFixedIdempotent(w: seq<uint32>)
    requires |w| == 2
    ensures SuperDuperFixed(SuperDuperFixed(w)) == SuperDuperFixed(w)
  {
  }

  /** The Tausworthe half: `s ^= (s >> 15) & 0x1ffff; s ^= s << 17`. */
  function Tausworthe(x: uint32): uint32
  {
    var a := Xor(x, x / 32768);
    Xor(a, ToUint32(a as int * 131072))
  }

  /** One Super-Duper step: Tausworthe on the first word, the congruence
      multiplier 69069 on the second. */
  function SuperDuperStep(w: seq<uint32>): (w': seq<uint32>)
    requires |w| == 2
    ensures |w'| == 2
    ensures w'[0] == Tausworthe(w[0])
    ensures (w'[1] as int - 69069 * w[1] as int) % TWO32 == 0
    ensures w[1] as int % 2 == 1 ==> w'[1] as int % 2 == 1
  {
    [Tausworthe(w[0]), ToUint32(w[1] as int * 69069)]
  }

  /** `seeds[0] ^ seeds[1]`, read as a signed 32-bit integer. */
  function SuperDuperNumerator(w: seq<uint32>): (v: int)
    requires |w| == 2
    ensures -TWO31 <= v < TWO31
    ensures v < 0 <==> Xor(w[0], w[1]) as int >= TWO31
  {
    ToInt32(Xor(w[0], w[1]))
  }

  function SuperDuperValue(w: seq<uint32>): (u: real)
    requires |w| == 2
    ensures 0.0 < u < 1.0
  {
    Fixup(SuperDuperNumerator(w) as real * I2_32M1)
  }

  lemma TauswortheOfOne()
    ensures Tausworthe(1) == 0x20001
  {
    assert Xor(1, 0) == 1;
    assert Xor(1, 0x20000) == 0x20001;
  }

  lemma SuperDuperStepExample()
    ensures SuperDuperStep([1, 0x8000_0001]) == [0x20001, 0x8001_0DCD]
  {
    TauswortheOfOne();
    assert 0x8000_0001 * 69069 == 34534 * TWO32 + 0x8001_0DCD;
  }

  lemma SuperDuperNumeratorExample()
    ensures SuperDuperNumerator([0x20001, 0x8001_0DCD]) == 0x8003_0DCC - TWO32
  {
    assert Xor(0x20001, 0x8001_0DCD) == 0x8003_0DCC;
  }

  /** As for Marsaglia, a numerator with the top bit set yields the clamp
      value. */
  lemma SuperDuperClampedDraw()
    ensures SuperDuperValue(SuperDuperStep([1, 0x8000_0001])) == 0.5 * I2_32M1
  {
    SuperDuperStepExample();
    SuperDuperNumeratorExample();
  }

  // ---------------------------------------------------------------------
  // L'Ecuyer-CMRG

  /** `trunc(p / m)`: the quotient rounded toward zero. */
  function TruncDiv(p: int, m: int): int
    requires m > 0
  {
    if p >= 0 then p / m else -((-p) / m)
  }

  /** The reduction `k = trunc(p / m); p -= k * m; if (p < 0) p += m`, which
      is the remainder of p modulo m. */
  function Reduced(p: int, m: int): (r: int)
    requires m > 0
    ensures 0 <= r < m
  {
    var q := p - TruncDiv(p, m) * m;
    if q < 0 then q + m else q
  }

  /** For the two moduli of the generator the reduction is the remainder. */
  lemma ReducedIsRemainder(p: int)
    ensures Reduced(p, M1) == p % M1
    ensures Reduced(p, M2) == p % M2
  {
  }

  datatype LecuyerOutcome = LecuyerOutcome(words: seq<uint32>, p1: int, p2: int)

  /** One step of the L'Ecuyer-CMRG code as written: the first component
      multiplies word 1 in both of its terms, the second reads word 2 after it
      was overwritten with p1, words 1..4 move down one place, p2 lands in
      word 4 and word 5 is never shifted. */
  function LecuyerStep(w: seq<uint32>): (o: LecuyerOutcome)
    requires |w| >= 6
    ensures 0 <= o.p1 < M1 && 0 <= o.p2 < M2
    ensures |o.words| == |w|
    ensures forall i :: 0 <= i < 4 ==> o.words[i] == w[i + 1]
    ensures o.words[4] as int == o.p2
    ensures forall i :: 5 <= i < |w| ==> o.words[i] == w[i]
  {
    var p1 := Reduced(A12 * w[1] as int - A13N * w[1] as int, M1);
    var p2 := Reduced(A21 * w[5] as int - A23N * p1, M2);
    LecuyerOutcome(w[1..5] + [p2 as uint32] + w[5..], p1, p2)
  }

  /** The two components of a step: p1 multiplies word 1 by a12 - a13n
      modulo m1, and p2 combines word 5 with p1 (not with word 2) modulo m2. */
  lemma LecuyerComponents(w: seq<uint32>)
    requires |w| >= 6
    ensures LecuyerStep(w).p1 == (A12 - A13N) * w[1] as int % M1
    ensures LecuyerStep(w).p2 == (A21 * w[5] as int - A23N * LecuyerStep(w).p1) % M2
  {
    ReducedIsRemainder(A12 * w[1] as int - A13N * w[1] as int);
    ReducedIsRemainder(A21 * w[5] as int - A23N * LecuyerStep(w).p1);
  }

  /** The combined integer `p1 > p2 ? p1 - p2 : p1 - p2 + m1`. */
  function LecuyerNumerator(p1: int, p2: int): (v: int)
    requires 0 <= p1 < M1 && 0 <= p2 < M2
    ensures 1 <= v <= M1
    ensures (v - (p1 - p2)) % M1 == 0
  {
    if p1 > p2 then p1 - p2 else p1 - p2 + M1
  }

  /** The L'Ecuyer value is returned without `fixup`, yet lies strictly
      inside (0, 1). */
  function LecuyerValue(p1: int, p2: int): (u: real)
    requires 0 <= p1 < M1 && 0 <= p2 < M2
    ensures 0.0 < u < 1.0
  {
    assert M1 as real * NORMC < 1.0;
    LecuyerNumerator(p1, p2) as real * NORMC
  }
}
