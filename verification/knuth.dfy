/** Knuth's lagged-Fibonacci generator (The Art of Computer Programming,
    Vol. 2, 3rd edition, Section 3.6, with the 2002 modifications):
    X[j] = (X[j-KK] - X[j-LL]) mod MM.  The pure definitions specify the
    in-place procedures; the procedures that touch the engine's own buffers
    are methods of the engine class. */
module Knuth {
  import opened Words

  const KK: nat := 100          // the long lag
  const LL: nat := 37           // the short lag
  const MM: nat := 0x4000_0000  // the modulus, 2^30
  const TT: nat := 70           // guaranteed separation between streams
  const QUALITY: nat := 1009    // words per refill of the batch buffer
  /** Length of the bootstrap's preparation buffer, KK + KK - 1. */
  const SPAN: nat := 2 * KK - 1

  /** `mod_diff`: the difference of two words modulo MM, which the source
      takes with the mask MM - 1 on the two's-complement difference. */
  function ModDiff(x: uint32, y: uint32): (r: uint32)
    ensures r as int < MM
    ensures (r as int + y as int) % MM == x as int % MM
  {
    ((x as int - y as int) % MM) as uint32
  }

  /** `is_odd`: the units bit of a word. */
  function IsOdd(x: uint32): (odd: bool)
    ensures odd <==> x as int % 2 == 1
  {
    LowBit(x) == 1
  }

  // ---------------------------------------------------------------------
  // The lagged-Fibonacci sequence and ran_array

  /** The first m words of the lagged-Fibonacci sequence whose first KK
      words are r. */
  function Lagged(r: seq<uint32>, m: nat): (s: seq<uint32>)
    requires |r| == KK && KK <= m
    ensures |s| == m
    decreases m
  {
    if m == KK then r
    else
      var p := Lagged(r, m - 1);
      p + [ModDiff(p[m - 1 - KK], p[m - 1 - LL])]
  }

  lemma {:induction false} LaggedPrefix(r: seq<uint32>, m: nat, m': nat)
    requires |r| == KK && KK <= m <= m'
    ensures Lagged(r, m')[..m] == Lagged(r, m)
    decreases m'
  {
    if m < m' {
      LaggedPrefix(r, m, m' - 1);
      assert Lagged(r, m')[..m' - 1] == Lagged(r, m' - 1);
      assert Lagged(r, m')[..m] == Lagged(r, m')[..m' - 1][..m];
    }
  }

  /** Every word past the first KK obeys the recurrence, so it is below MM. */
  lemma {:induction false} LaggedRecurrence(r: seq<uint32>, m: nat, j: nat)
    requires |r| == KK && KK <= j < m
    ensures Lagged(r, m)[j] == ModDiff(Lagged(r, m)[j - KK], Lagged(r, m)[j - LL])
    ensures Lagged(r, m)[j] as int < MM
  {
    LaggedPrefix(r, j + 1, m);
    LaggedPrefix(r, j, m);
    var p := Lagged(r, j);
    assert Lagged(r, j + 1) == p + [ModDiff(p[j - KK], p[j - LL])];
    assert Lagged(r, m)[j] == Lagged(r, j + 1)[j];
    assert p[j - KK] == Lagged(r, m)[j - KK] && p[j - LL] == Lagged(r, m)[j - LL];
  }

  /** Restarting the recurrence from the KK words that follow the first n
      words yields the continuation of the same sequence: successive refills
      deliver consecutive segments of one stream. */
  lemma {:induction false} StreamContinuity(r: seq<uint32>, n: nat, m: nat)
    requires |r| == KK && KK <= m
    ensures Lagged(Lagged(r, n + KK)[n..], m) == Lagged(r, n + m)[n..]
    decreases m
  {
    var r' := Lagged(r, n + KK)[n..];
    if m > KK {
      StreamContinuity(r, n, m - 1);
      var p := Lagged(r', m - 1);
      var q := Lagged(r, n + m - 1);
      var d := ModDiff(q[n + m - 1 - KK], q[n + m - 1 - LL]);
      assert Lagged(r, n + m) == q + [d];
      assert p[m - 1 - KK] == q[n + m - 1 - KK];
      assert p[m - 1 - LL] == q[n + m - 1 - LL];
      assert Lagged(r', m) == p + [d];
      assert (q + [d])[n..] == q[n..] + [d];
    }
  }

  /** What `ran_array(aa, n)` leaves behind, stated word by word: the first KK
      words of aa are the old state, the others follow the recurrence, and the
      new state continues the recurrence past the n-th word. */
  lemma {:induction false} RanArrayRecurrences(r: seq<uint32>, n: nat)
    requires |r| == KK && KK <= n
    ensures var aa := Lagged(r, n);
      aa[..KK] == r &&
      forall j :: KK <= j < n ==> aa[j] == ModDiff(aa[j - KK], aa[j - LL])
    ensures var aa, x := Lagged(r, n), Lagged(r, n + KK)[n..];
      (forall i :: 0 <= i < LL ==> x[i] == ModDiff(aa[n + i - KK], aa[n + i - LL])) &&
      (forall i :: LL <= i < KK ==> x[i] == ModDiff(aa[n + i - KK], x[i - LL])) &&
      AllBelow(x, MM)
  {
    var aa := Lagged(r, n);
    var s := Lagged(r, n + KK);
    LaggedPrefix(r, KK, n);
    LaggedPrefix(r, n, n + KK);
    forall j | KK <= j < n
      ensures aa[j] == ModDiff(aa[j - KK], aa[j - LL])
    {
      LaggedRecurrence(r, n, j);
    }
    forall j | n <= j < n + KK
      ensures s[j] == ModDiff(s[j - KK], s[j - LL]) && s[j] as int < MM
    {
      LaggedRecurrence(r, n + KK, j);
    }
  }

  /** Word i of the state after producing n words, in terms of the output. */
  lemma {:induction false} RefreshWord(r: seq<uint32>, n: nat, i: nat)
    requires |r| == KK && KK <= n && i < KK
    ensures var a, t := Lagged(r, n), Lagged(r, n + KK)[n..];
      t[i] == ModDiff(a[n + i - KK], if i < LL then a[n + i - LL] else t[i - LL])
  {
    LaggedPrefix(r, n, n + KK);
    LaggedRecurrence(r, n + KK, n + i);
  }

  /** `ran_array(aa, n)`: fills aa[0..n) with the next n words of the
      sequence whose current state is ranX[0..KK), then refreshes that state
      to the KK words that follow them. */
  method RanArray(aa: array<uint32>, ranX: array<uint32>, n: nat)
    requires aa != ranX
    requires KK <= n <= aa.Length && KK <= ranX.Length
    modifies aa, ranX
    ensures aa[..n] == Lagged(old(ranX[..KK]), n)
    ensures aa[n..] == old(aa[n..])
    ensures ranX[..KK] == Lagged(old(ranX[..KK]), n + KK)[n..]
    ensures ranX[KK..] == old(ranX[KK..])
  {
    ghost var r := ranX[..KK];
    ghost var a := Lagged(r, n);
    LaggedPrefix(r, KK, n);
    var j := 0;
    while j < KK
      invariant 0 <= j <= KK
      invariant unchanged(ranX)
      invariant forall k :: 0 <= k < j ==> aa[k] == a[k]
      invariant forall k :: j <= k < aa.Length ==> aa[k] == old(aa[k])
    {
      assert a[j] == a[..KK][j];
      aa[j] := ranX[j];
      j := j + 1;
    }
    while j < n
      invariant KK <= j <= n
      invariant unchanged(ranX)
      invariant forall k :: 0 <= k < j ==> aa[k] == a[k]
      invariant forall k :: j <= k < aa.Length ==> aa[k] == old(aa[k])
    {
      LaggedRecurrence(r, n, j);
      aa[j] := ModDiff(aa[j - KK], aa[j - LL]);
      j := j + 1;
    }
    assert aa[..n] == a;
    RefreshState(aa, ranX, n, r);
  }

  /** The second half of `ran_array`: with aa[0..n) produced from the state
      r, the state words are recomputed in place, the first LL from output
      words only and the rest from the state words already recomputed. */
  method RefreshState(aa: array<uint32>, ranX: array<uint32>, n: nat, ghost r: seq<uint32>)
    requires aa != ranX && |r| == KK
    requires KK <= n <= aa.Length && KK <= ranX.Length
    requires aa[..n] == Lagged(r, n)
    modifies ranX
    ensures ranX[..KK] == Lagged(r, n + KK)[n..]
    ensures ranX[KK..] == old(ranX[KK..])
  {
    ghost var t := Lagged(r, n + KK)[n..];
    ghost var tail := ranX[KK..];
    var i, j := 0, n;
    while i < LL
      invariant 0 <= i <= LL && j == n + i
      invariant forall k :: 0 <= k < i ==> ranX[k] == t[k]
      invariant forall k :: i <= k < ranX.Length ==> ranX[k] == old(ranX[k])
    {
      RefreshWord(r, n, i);
      ranX[i] := ModDiff(aa[j - KK], aa[j - LL]);
      i, j := i + 1, j + 1;
    }
    while i < KK
      invariant LL <= i <= KK && j == n + i
      invariant forall k :: 0 <= k < i ==> ranX[k] == t[k]
      invariant forall k :: i <= k < ranX.Length ==> ranX[k] == old(ranX[k])
    {
      RefreshWord(r, n, i);
      ranX[i] := ModDiff(aa[j - KK], ranX[i - LL]);
      i, j := i + 1, j + 1;
    }
    assert ranX[..KK] == t;
    assert forall k :: 0 <= k < |tail| ==> ranX[KK..][k] == tail[k];
    assert ranX[KK..] == tail;
  }

  // ---------------------------------------------------------------------
  // ran_start: the seeding procedure of the 2002 edition

  /** One cyclic shift of a 29-bit even value: double it and, once it reaches
      MM, fold the top bit back into bit 1. */
  function CyclicShift(ss: int): (v: int)
    requires 0 <= ss < MM && ss % 2 == 0
    ensures 0 <= v < MM && v % 2 == 0
  {
    var h := ss / 2;
    assert ss == 2 * h;
    if 2 * ss >= MM then 2 * (2 * h - MM / 2 + 1) else 2 * (2 * h)
  }

  /** The bootstrap value after j cyclic shifts of ss; it stays even and
      below MM. */
  function ShiftedSeed(ss: int, j: nat): (v: int)
    requires 0 <= ss < MM && ss % 2 == 0
    ensures 0 <= v < MM && v % 2 == 0
  {
    if j == 0 then ss else CyclicShift(ShiftedSeed(ss, j - 1))
  }

  /** `(seed + 2) & (MM - 2)`: the low 30 bits of seed + 2 with bit 0 cleared. */
  function InitialShift(seed: uint32): (ss: int)
    ensures 0 <= ss < MM && ss % 2 == 0
    ensures ss == (seed as int + 2) % MM || ss == (seed as int + 2) % MM - 1
  {
    var v := (seed as int + 2) % MM;
    v - v % 2
  }

  /** The preparation buffer after the bootstrap loop and `x[1]++`; the words
      from KK on are still the zeros of the fresh buffer. */
  function Bootstrap(seed: uint32): (x: seq<uint32>)
    ensures |x| == SPAN
  {
    var ss := InitialShift(seed);
    seq(SPAN, j requires 0 <= j < SPAN =>
      if j >= KK then 0
      else if j == 1 then (ShiftedSeed(ss, 1) + 1) as uint32
      else ShiftedSeed(ss, j) as uint32)
  }

  /** Since the register stays even and below MM, every bootstrap word is
      below MM, x[1] is the only odd word and the words from KK on are zero. */
  lemma BootstrapShape(seed: uint32)
    ensures AllBelow(Bootstrap(seed), MM)
    ensures forall j :: 0 <= j < SPAN ==> (Bootstrap(seed)[j] as int % 2 == 1 <==> j == 1)
    ensures forall j :: KK <= j < SPAN ==> Bootstrap(seed)[j] == 0
  {
    var x := Bootstrap(seed);
    var ss := InitialShift(seed);
    forall j | 0 <= j < SPAN
      ensures x[j] as int < MM && (x[j] as int % 2 == 1 <==> j == 1)
    {
      if j < KK {
        var v := ShiftedSeed(ss, j);
        assert 0 <= v < MM && v % 2 == 0;
      }
    }
  }

  /** The "square" step: word i moves to 2i and the odd positions are cleared. */
  function Squared(x: seq<uint32>): (y: seq<uint32>)
    requires |x| == SPAN
    ensures |y| == SPAN
    ensures AllBelow(x, MM) ==> AllBelow(y, MM)
  {
    seq(SPAN, i requires 0 <= i < SPAN => if i % 2 == 0 then x[i / 2] else 0)
  }

  /** The reduction step for positions j down to KK: word j is subtracted at
      the two lags below it, which reduces the polynomial modulo
      z^KK + z^LL + 1. */
  function ReducedFrom(x: seq<uint32>, j: int): (y: seq<uint32>)
    requires |x| == SPAN && KK - 1 <= j <= SPAN - 1
    ensures |y| == SPAN
    ensures AllBelow(x, MM) ==> AllBelow(y, MM)
    ensures y[j + 1..] == x[j + 1..]
    decreases j
  {
    if j < KK then x
    else
      var x1 := x[j - (KK - LL) := ModDiff(x[j - (KK - LL)], x[j])];
      ReducedFrom(x1[j - KK := ModDiff(x1[j - KK], x1[j])], j - 1)
  }

  /** The "multiply by z" step: words 0..KK shift up one place cyclically and
      the new word KK is subtracted at position LL. */
  function MultipliedByZ(x: seq<uint32>): (y: seq<uint32>)
    requires |x| == SPAN
    ensures |y| == SPAN
    ensures AllBelow(x, MM) ==> AllBelow(y, MM)
    ensures y[0] == x[KK - 1] && y[KK + 1..] == x[KK + 1..]
    ensures forall i :: 1 <= i <= KK && i != LL ==> y[i] == x[i - 1]
    ensures y[LL] == ModDiff(x[LL - 1], x[KK - 1])
  {
    var shifted := [x[KK - 1]] + x[..KK] + x[KK + 1..];
    shifted[LL := ModDiff(shifted[LL], shifted[KK])]
  }

  /** One round of the main loop for the current bit register ss. */
  function Round(x: seq<uint32>, ss: uint32): (y: seq<uint32>)
    requires |x| == SPAN
    ensures |y| == SPAN
  {
    var y := ReducedFrom(Squared(x), SPAN - 1);
    if IsOdd(ss) then MultipliedByZ(y) else y
  }

  /** The main loop: rounds continue while ss has bits left (halving it),
      then t more rounds run with ss zero. */
  function Rounds(x: seq<uint32>, ss: uint32, t: nat): (y: seq<uint32>)
    requires |x| == SPAN
    ensures |y| == SPAN
    decreases t, ss
  {
    if t == 0 then x
    else if ss != 0 then Rounds(Round(x, ss), ss / 2, t)
    else Rounds(Round(x, ss), ss, t - 1)
  }

  /** One round of the main loop, as the loop takes it. */
  lemma RoundsStep(x: seq<uint32>, y: seq<uint32>, ss: uint32, t: nat)
    requires |x| == SPAN && t != 0 && y == Round(x, ss)
    ensures ss != 0 ==> Rounds(x, ss, t) == Rounds(y, ss / 2, t)
    ensures ss == 0 ==> Rounds(x, ss, t) == Rounds(y, ss, t - 1)
  {
  }

  /** Every round keeps the words of the buffer below MM. */
  lemma {:induction false} RoundsBounded(x: seq<uint32>, ss: uint32, t: nat)
    requires |x| == SPAN && AllBelow(x, MM)
    ensures AllBelow(Rounds(x, ss, t), MM)
    decreases t, ss
  {
    if t != 0 {
      var y := ReducedFrom(Squared(x), SPAN - 1);
      assert AllBelow(Round(x, ss), MM) by {
        assert AllBelow(y, MM);
        if IsOdd(ss) {
          assert Round(x, ss) == MultipliedByZ(y);
        }
      }
      if ss != 0 {
        RoundsBounded(Round(x, ss), ss / 2, t);
      } else {
        RoundsBounded(Round(x, ss), ss, t - 1);
      }
    }
  }

  /** The preparation buffer once the main loop has finished. */
  function Prepared(seed: uint32): (x: seq<uint32>)
    ensures |x| == SPAN
  {
    Rounds(Bootstrap(seed), (seed as int % MM) as uint32, TT - 1)
  }

  /** The preparation buffer holds words below MM, whatever the seed. */
  lemma PreparedBounded(seed: uint32)
    ensures AllBelow(Prepared(seed), MM)
  {
    BootstrapShape(seed);
    RoundsBounded(Bootstrap(seed), (seed as int % MM) as uint32, TT - 1);
  }

  /** The first KK words of the buffer rotated left by LL, as they are copied
      into the state. */
  function Rotated(x: seq<uint32>): (r: seq<uint32>)
    requires |x| >= KK
    ensures |r| == KK
    ensures forall j :: 0 <= j < LL ==> r[j + KK - LL] == x[j]
    ensures forall j :: LL <= j < KK ==> r[j - LL] == x[j]
  {
    x[LL..KK] + x[..LL]
  }

  /** The state after k warm-up calls `ran_array(x, KK + KK - 1)`. */
  function WarmedUp(r: seq<uint32>, k: nat): (w: seq<uint32>)
    requires |r| == KK
    ensures |w| == KK
    decreases k
  {
    if k == 0 then r else WarmedUp(Lagged(r, SPAN + KK)[SPAN..], k - 1)
  }

  /** The state `ran_start(seed)` leaves in ran_x[0..KK). */
  function RanStartState(seed: uint32): (r: seq<uint32>)
    ensures |r| == KK
  {
    WarmedUp(Rotated(Prepared(seed)), 10)
  }

  /** The warm-up calls discard consecutive segments of one lagged-Fibonacci
      stream: k calls leave the state k * SPAN words further along it. */
  lemma {:induction false} WarmUpIsOneStream(r: seq<uint32>, k: nat)
    requires |r| == KK
    ensures WarmedUp(r, k) == Lagged(r, k * SPAN + KK)[k * SPAN..]
    decreases k
  {
    if k > 0 {
      var r1 := Lagged(r, SPAN + KK)[SPAN..];
      var n, n' := (k - 1) * SPAN, k * SPAN;
      assert n' == SPAN + n;
      WarmUpIsOneStream(r1, k - 1);
      StreamContinuity(r, SPAN, n + KK);
      var whole := Lagged(r, n' + KK);
      assert whole[SPAN..][n..] == whole[n'..];
    }
  }

  /** Every word of the state that `ran_start` leaves is below MM, whatever
      the seed. */
  lemma RanStartStateBounded(seed: uint32)
    ensures AllBelow(RanStartState(seed), MM)
  {
    var r := Rotated(Prepared(seed));
    WarmUpIsOneStream(r, 10);
    RanArrayRecurrences(r, 10 * SPAN);
  }

  /** The "square" loop of `ran_start` on the preparation buffer. */
  method Square(x: array<uint32>)
    requires x.Length == SPAN
    modifies x
    ensures x[..] == Squared(old(x[..]))
  {
    ghost var x0 := x[..];
    ghost var y := Squared(x0);
    var j := KK - 1;
    while j > 0
      invariant 0 <= j <= KK - 1
      invariant forall k :: 0 <= k <= j + j ==> x[k] == x0[k]
      invariant forall k :: j + j < k < SPAN ==> x[k] == y[k]
    {
      assert y[j + j] == x0[j] && y[j + j - 1] == 0;
      x[j + j] := x[j];
      x[j + j - 1] := 0;
      j := j - 1;
    }
    assert x[..] == y;
  }

  /** The reduction loop of `ran_start`, from position KK + KK - 2 down to KK. */
  method Reduce(x: array<uint32>)
    requires x.Length == SPAN
    modifies x
    ensures x[..] == ReducedFrom(old(x[..]), SPAN - 1)
  {
    var j := SPAN - 1;
    while j >= KK
      invariant KK - 1 <= j <= SPAN - 1
      invariant ReducedFrom(x[..], j) == ReducedFrom(old(x[..]), SPAN - 1)
    {
      x[j - (KK - LL)] := ModDiff(x[j - (KK - LL)], x[j]);
      x[j - KK] := ModDiff(x[j - KK], x[j]);
      j := j - 1;
    }
  }

  /** The "multiply by z" branch of `ran_start`. */
  method MultiplyByZ(x: array<uint32>)
    requires x.Length == SPAN
    modifies x
    ensures x[..] == MultipliedByZ(old(x[..]))
  {
    ghost var x0 := x[..];
    var j := KK;
    while j > 0
      invariant 0 <= j <= KK
      invariant forall i :: 0 <= i <= j ==> x[i] == x0[i]
      invariant forall i :: j < i <= KK ==> x[i] == x0[i - 1]
      invariant forall i :: KK < i < SPAN ==> x[i] == x0[i]
    {
      x[j] := x[j - 1];
      j := j - 1;
    }
    x[0] := x[KK];
    x[LL] := ModDiff(x[LL], x[KK]);
    assert x[..] == MultipliedByZ(x0);
  }

  /** The bootstrap of `ran_start`: a fresh buffer holding successive cyclic
      shifts of the seed, with only x[1] odd. */
  method BootstrapBuffer(seed: uint32) returns (x: array<uint32>)
    ensures fresh(x) && x.Length == SPAN
    ensures x[..] == Bootstrap(seed)
  {
    x := new uint32[SPAN](_ => 0);
    ghost var ss0 := InitialShift(seed);
    FillShifts(x, InitialShift(seed) as uint32);
    x[1] := x[1] + 1;
    ghost var b := Bootstrap(seed);
    assert forall i :: 0 <= i < SPAN ==> x[i] == b[i];
    assert x[..] == b;
  }

  /** The bootstrap loop: word j receives the register after j cyclic
      shifts, and the words from KK on are left alone. */
  method FillShifts(x: array<uint32>, ss0: uint32)
    requires x.Length == SPAN && (ss0 as int) < MM && ss0 as int % 2 == 0
    modifies x
    ensures forall i :: 0 <= i < KK ==> x[i] as int == ShiftedSeed(ss0 as int, i)
    ensures forall i :: KK <= i < SPAN ==> x[i] == old(x[i])
  {
    ghost var shifts := seq(KK, i requires 0 <= i < KK => ShiftedSeed(ss0 as int, i));
    var ss := ss0;
    var j := 0;
    while j < KK
      invariant 0 <= j <= KK
      invariant ss as int == ShiftedSeed(ss0 as int, j)
      invariant forall i :: 0 <= i < j ==> x[i] as int == shifts[i]
      invariant forall i :: KK <= i < SPAN ==> x[i] == old(x[i])
    {
      assert shifts[j] == ss as int;
      x[j] := ss;
      ss := 2 * ss;
      if ss as int >= MM {
        ss := ss - (MM - 2) as uint32;
      }
      j := j + 1;
    }
  }

  /** One pass of the main loop's body: square, reduce and, for an odd
      register, multiply by z. */
  method PolynomialRound(x: array<uint32>, ss: uint32)
    requires x.Length == SPAN
    modifies x
    ensures x[..] == Round(old(x[..]), ss)
  {
    Square(x);
    Reduce(x);
    if IsOdd(ss) {
      MultiplyByZ(x);
    }
  }

  /** `ran_start` up to the end of its main loop. */
  method PrepareBuffer(seed: uint32) returns (x: array<uint32>)
    ensures fresh(x) && x.Length == SPAN
    ensures x[..] == Prepared(seed)
  {
    x := BootstrapBuffer(seed);
    MainLoop(x, (seed as int % MM) as uint32, TT - 1);
  }

  /** The main loop of `ran_start`: squaring and reducing the polynomial in
      the buffer once per bit of the register ss, multiplying by z on the 1
      bits, then t more rounds once ss is zero. */
  method MainLoop(x: array<uint32>, ss0: uint32, t0: nat)
    requires x.Length == SPAN
    modifies x
    ensures x[..] == Rounds(old(x[..]), ss0, t0)
  {
    ghost var target := Rounds(x[..], ss0, t0);
    var ss, t := ss0, t0;
    while t != 0
      invariant Rounds(x[..], ss, t) == target
      decreases t, ss
    {
      ss, t := MainLoopBody(x, ss, t);
    }
  }

  /** One pass of the main loop: a round, then `if (ss) ss >>= 1; else t--`. */
  method MainLoopBody(x: array<uint32>, ss: uint32, t: nat) returns (ss': uint32, t': nat)
    requires x.Length == SPAN && t != 0
    modifies x
    ensures Rounds(x[..], ss', t') == Rounds(old(x[..]), ss, t)
    ensures t' < t || (t' == t && ss' < ss)
  {
    ghost var before := x[..];
    PolynomialRound(x, ss);
    ghost var after := x[..];
    RoundsStep(before, after, ss, t);
    if ss != 0 {
      ss', t' := ss / 2, t;
    } else {
      ss', t' := ss, t - 1;
    }
    assert Rounds(after, ss', t') == Rounds(before, ss, t);
  }
}
